/** Row encoding and decoding (FileManager::serializeRow and
    FileManager::deserializeRow). A row is laid out field after field with
    no tags: an int as 4 bytes, a double as its 8 bytes, a string as a
    4-byte length followed by that many raw bytes. The encoder goes by
    each field's runtime alternative, the decoder by the schema. */
module RowCodec {
  import opened Bytes
  import opened Types
  import opened Pages
  import opened Seqs

  const INT_SIZE: nat := 4
  const DOUBLE_SIZE: nat := 8
  const LENGTH_SIZE: nat := 4

  /** The length the encoder stores: the string's size cut to a uint32_t. */
  function StoredLength(s: seq<byte>): uint32
  {
    Truncate32(|s|)
  }

  /** The bytes one field occupies. */
  function EncodeField(f: Field): (e: seq<byte>)
    ensures |e| == FieldSize(f)
  {
    match f
    case I(v) => Uint32Bytes(Int32Bits(v))
    case D(b) => Uint64Bytes(b)
    case S(s) => Uint32Bytes(StoredLength(s)) + s[..StoredLength(s)]
  }

  /** The encoder accepts a field: a string's stored length is at most a page. */
  predicate FieldFits(f: Field)
  {
    f.S? ==> StoredLength(f.text) <= PAGE_SIZE
  }

  predicate AllFieldsFit(row: Row)
  {
    forall i :: 0 <= i < |row| ==> FieldFits(row[i])
  }

  /** The fields' encodings, one after another. */
  function RowEncoding(row: Row): seq<byte>
  {
    if row == [] then [] else RowEncoding(row[..|row| - 1]) + EncodeField(row[|row| - 1])
  }

  /** What serializeRow leaves at the front of a buffer of bufferSize bytes:
      the row's encoding, or nothing at all. Its length is the return value,
      so the empty sequence is the "cannot encode" sentinel 0. */
  function Serialized(row: Row, bufferSize: nat): (r: seq<byte>)
    ensures |r| <= bufferSize
  {
    if bufferSize > 0 && AllFieldsFit(row) && |RowEncoding(row)| <= bufferSize then RowEncoding(row) else []
  }

  // ---------------------------------------------------------------------
  // Sizes, stated independently of the byte layout

  /** Size of one encoded field: 4 per int, 8 per double, 4 + length per string. */
  function FieldSize(f: Field): nat
  {
    match f
    case I(_) => INT_SIZE
    case D(_) => DOUBLE_SIZE
    case S(s) => LENGTH_SIZE + StoredLength(s)
  }

  function EncodedSize(row: Row): nat
  {
    if row == [] then 0 else FieldSize(row[0]) + EncodedSize(row[1..])
  }

  lemma {:induction false} RowEncodingConcat(a: Row, b: Row)
    ensures RowEncoding(a + b) == RowEncoding(a) + RowEncoding(b)
    decreases |b|
  {
    if b == [] {
      assert a + b == a;
    } else {
      var b', last := b[..|b| - 1], b[|b| - 1];
      assert (a + b)[..|a + b| - 1] == a + b';
      assert (a + b)[|a + b| - 1] == last;
      RowEncodingConcat(a, b');
      MiddleOfThree(RowEncoding(a), RowEncoding(b'), EncodeField(last));
    }
  }

  /** A prefix of the row encodes to a prefix of the encoding. */
  lemma RowEncodingPrefix(row: Row, k: nat)
    requires k <= |row|
    ensures RowEncoding(row[..k]) <= RowEncoding(row)
  {
    assert row == row[..k] + row[k..];
    RowEncodingConcat(row[..k], row[k..]);
  }

  /** One more field appends its encoding. */
  lemma RowEncodingSnoc(row: Row, i: nat)
    requires i < |row|
    ensures RowEncoding(row[..i + 1]) == RowEncoding(row[..i]) + EncodeField(row[i])
  {
    assert row[..i + 1][..i] == row[..i];
  }

  lemma {:induction false} EncodedSizeIsLength(row: Row)
    ensures |RowEncoding(row)| == EncodedSize(row)
    ensures row != [] ==> |RowEncoding(row)| > 0
    decreases |row|
  {
    if row != [] {
      assert row == [row[0]] + row[1..];
      RowEncodingConcat([row[0]], row[1..]);
      assert [row[0]][..0] == [];
      EncodedSizeIsLength(row[1..]);
    }
  }

  /** serializeRow succeeds exactly on a non-empty row whose strings fit in a
      page and whose fields, 4 per int, 8 per double and 4 + length per
      string, add up to no more than the buffer; it then returns that sum. */
  lemma SerializedSize(row: Row, bufferSize: nat)
    ensures Serialized(row, bufferSize) != [] <==>
      bufferSize > 0 && row != [] && AllFieldsFit(row) && EncodedSize(row) <= bufferSize
    ensures Serialized(row, bufferSize) != [] ==> |Serialized(row, bufferSize)| == EncodedSize(row)
  {
    EncodedSizeIsLength(row);
  }

  // ---------------------------------------------------------------------
  // Encoder

  /** memcpy of src into dst at index at. */
  method CopyInto(dst: array<byte>, at: nat, src: seq<byte>)
    requires at + |src| <= dst.Length
    modifies dst
    ensures dst[..] == Spliced(old(dst[..]), at, src)
  {
    forall j | at <= j < at + |src| {
      dst[j] := src[j - at];
    }
    assert dst[..] == old(dst[..])[..at] + src + old(dst[..])[at + |src|..];
  }

  /** One field of serializeRow's loop: check that the field fits, then
      copy its bytes to buffer at offset. Nothing is written on failure. */
  method PutField(field: Field, buffer: array<byte>, bufferSize: nat, offset: nat) returns (ok: bool, next: nat)
    requires offset <= bufferSize <= buffer.Length
    modifies buffer
    ensures ok <==> FieldFits(field) && offset + |EncodeField(field)| <= bufferSize
    ensures ok ==> next == offset + |EncodeField(field)| && buffer[..] == Spliced(old(buffer[..]), offset, EncodeField(field))
    ensures !ok ==> buffer[..] == old(buffer[..])
  {
    match field {
      case I(value) =>
        if offset + INT_SIZE > bufferSize {
          return false, offset;
        }
        CopyInto(buffer, offset, Uint32Bytes(Int32Bits(value)));
        next := offset + INT_SIZE;
      case D(value) =>
        if offset + DOUBLE_SIZE > bufferSize {
          return false, offset;
        }
        CopyInto(buffer, offset, Uint64Bytes(value));
        next := offset + DOUBLE_SIZE;
      case S(s) =>
        var len := StoredLength(s);
        if len > PAGE_SIZE || offset + LENGTH_SIZE + len > bufferSize {
          return false, offset;
        }
        CopyInto(buffer, offset, Uint32Bytes(len));
        CopyInto(buffer, offset + LENGTH_SIZE, s[..len]);
        SplicedTwice(old(buffer[..]), offset, Uint32Bytes(len), s[..len]);
        next := offset + LENGTH_SIZE + len;
    }
    ok := true;
  }

  /** FileManager::serializeRow: encode row into buffer, returning the number
      of bytes written, or 0 when the row cannot be encoded. */
  method SerializeRow(row: Row, buffer: array?<byte>, bufferSize: nat) returns (n: nat)
    requires buffer != null ==> bufferSize <= buffer.Length
    modifies buffer
    ensures buffer == null ==> n == 0
    ensures buffer != null ==> n == |Serialized(row, bufferSize)| && buffer[..n] == Serialized(row, bufferSize)
    ensures buffer != null ==> buffer[bufferSize..] == old(buffer[bufferSize..])
  {
    if buffer == null || bufferSize == 0 {
      return 0;
    }
    ghost var original := buffer[..];
    var offset: nat := 0;
    for i := 0 to |row|
      invariant offset == |RowEncoding(row[..i])| <= bufferSize
      invariant buffer[..] == Spliced(original, 0, RowEncoding(row[..i]))
      invariant AllFieldsFit(row[..i])
    {
      RowEncodingSnoc(row, i);
      var ok, next := PutField(row[i], buffer, bufferSize, offset);
      if !ok {
        SerializeFails(row, i, bufferSize);
        SplicedParts(original, 0, RowEncoding(row[..i]), bufferSize);
        return 0;
      }
      SplicedTwice(original, 0, RowEncoding(row[..i]), EncodeField(row[i]));
      FitsSnoc(row, i);
      offset := next;
    }
    assert row[..|row|] == row;
    SplicedParts(original, 0, RowEncoding(row), bufferSize);
    return offset;
  }

  /** One more field that fits keeps the prefix within the encoder's limits. */
  lemma FitsSnoc(row: Row, i: nat)
    requires i < |row| && AllFieldsFit(row[..i]) && FieldFits(row[i])
    ensures AllFieldsFit(row[..i + 1])
  {
    assert forall j :: 0 <= j < i ==> row[..i + 1][j] == row[..i][j];
  }

  /** serializeRow gives up at field i: that field or the prefix up to it does not fit. */
  lemma SerializeFails(row: Row, i: nat, bufferSize: nat)
    requires i < |row|
    requires !FieldFits(row[i]) || |RowEncoding(row[..i])| + |EncodeField(row[i])| > bufferSize
    ensures Serialized(row, bufferSize) == []
  {
    if FieldFits(row[i]) {
      RowEncodingSnoc(row, i);
      RowEncodingPrefix(row, i + 1);
    }
  }

  // ---------------------------------------------------------------------
  // Decoder

  datatype FieldAt = FieldAt(field: Field, end: nat)

  /** Read one field of declared type t starting at off; None when the
      buffer is too short or a string claims more than a page. */
  function DecodeField(buf: seq<byte>, off: nat, t: Ty): (r: Option<FieldAt>)
    requires off <= |buf|
    ensures r.Some? ==> off < r.value.end <= |buf| && HasType(r.value.field, t)
  {
    match t
    case INT =>
      if off + INT_SIZE > |buf| then None
      else Some(FieldAt(I(Int32FromBits(Uint32Of(buf[off..off + INT_SIZE]))), off + INT_SIZE))
    case DOUBLE =>
      if off + DOUBLE_SIZE > |buf| then None
      else Some(FieldAt(D(Uint64Of(buf[off..off + DOUBLE_SIZE])), off + DOUBLE_SIZE))
    case STRING =>
      if off + LENGTH_SIZE > |buf| then None
      else
        var len := Uint32Of(buf[off..off + LENGTH_SIZE]);
        if len > PAGE_SIZE || off + LENGTH_SIZE + len > |buf| then None
        else Some(FieldAt(S(buf[off + LENGTH_SIZE..off + LENGTH_SIZE + len]), off + LENGTH_SIZE + len))
  }

  datatype Decoded = Decoded(row: Row, end: nat)

  /** Decode the columns of schema one after another from the start of buf. */
  function DecodeFields(buf: seq<byte>, schema: Schema): (r: Option<Decoded>)
    ensures r.Some? ==> r.value.end <= |buf|
    ensures r.Some? && schema != [] ==> r.value.end > 0
  {
    if schema == [] then Some(Decoded([], 0))
    else
      match DecodeFields(buf, schema[..|schema| - 1])
      case None => None
      case Some(d) =>
        match DecodeField(buf, d.end, schema[|schema| - 1].ty)
        case None => None
        case Some(fa) => Some(Decoded(d.row + [fa.field], fa.end))
  }

  /** What deserializeRow returns for buf: the bytes consumed, 0 meaning
      failure, and on success the decoded row. */
  function Deserialized(buf: seq<byte>, schema: Schema): (r: Decoded)
    ensures r.end <= |buf|
  {
    if |buf| == 0 then Decoded([], 0)
    else
      match DecodeFields(buf, schema)
      case None => Decoded([], 0)
      case Some(d) => d
  }

  /** A decoded row has one field per column, each of the column's type. */
  lemma {:induction false} DecodedRowConforms(buf: seq<byte>, schema: Schema)
    ensures DecodeFields(buf, schema).Some? ==> Conforms(DecodeFields(buf, schema).value.row, schema)
  {
    if schema != [] && DecodeFields(buf, schema).Some? {
      var init := schema[..|schema| - 1];
      DecodedRowConforms(buf, init);
      var d := DecodeFields(buf, init).value;
      var row := DecodeFields(buf, schema).value.row;
      assert forall i :: 0 <= i < |d.row| ==> row[i] == d.row[i] && schema[i] == init[i];
    }
  }

  /** deserializeRow's rows are rows of the schema. */
  lemma DeserializedConforms(buf: seq<byte>, schema: Schema)
    ensures Deserialized(buf, schema).end > 0 ==> Conforms(Deserialized(buf, schema).row, schema)
  {
    DecodedRowConforms(buf, schema);
  }

  /** A column that fails to decode fails the whole row. */
  lemma {:induction false} DecodeFailurePersists(buf: seq<byte>, schema: Schema, k: nat)
    requires k <= |schema| && DecodeFields(buf, schema[..k]) == None
    ensures DecodeFields(buf, schema) == None
    decreases |schema| - k
  {
    if k == |schema| {
      assert schema[..k] == schema;
    } else {
      assert schema[..k + 1][..k] == schema[..k];
      DecodeFailurePersists(buf, schema, k + 1);
    }
  }

  /** Decoding one more column extends the decoded prefix by that column. */
  lemma DecodeFieldsStep(buf: seq<byte>, schema: Schema, i: nat, d: Decoded)
    requires i < |schema| && DecodeFields(buf, schema[..i]) == Some(d)
    ensures d.end <= |buf|
    ensures DecodeFields(buf, schema[..i + 1]) ==
      match DecodeField(buf, d.end, schema[i].ty)
      case None => None
      case Some(fa) => Some(Decoded(d.row + [fa.field], fa.end))
  {
    var s := schema[..i + 1];
    assert s[..|s| - 1] == schema[..i] && s[|s| - 1] == schema[i];
  }

  /** A STRING column whose stored length claims more than a page fails
      the whole row: deserializeRow returns 0. */
  lemma LongStoredLengthRejected(buf: seq<byte>, schema: Schema, i: nat, d: Decoded)
    requires i < |schema| && DecodeFields(buf, schema[..i]) == Some(d)
    requires schema[i].ty == STRING && d.end + LENGTH_SIZE <= |buf|
    requires Uint32Of(buf[d.end..d.end + LENGTH_SIZE]) > PAGE_SIZE
    ensures Deserialized(buf, schema).end == 0
  {
    DecodeFieldsStep(buf, schema, i, d);
    assert DecodeField(buf, d.end, schema[i].ty) == None;
    DecodeFailurePersists(buf, schema, i + 1);
  }

  /** A decoded prefix followed by a decoded column is a longer decoded prefix. */
  lemma DecodeFieldsExtend(buf: seq<byte>, schema: Schema, i: nat, d: Decoded, fa: FieldAt)
    requires i < |schema| && DecodeFields(buf, schema[..i]) == Some(d)
    requires d.end <= |buf| && DecodeField(buf, d.end, schema[i].ty) == Some(fa)
    ensures DecodeFields(buf, schema[..i + 1]) == Some(Decoded(d.row + [fa.field], fa.end))
  {
    DecodeFieldsStep(buf, schema, i, d);
  }

  /** One column of deserializeRow's loop: read a field of type t at offset. */
  method GetField(buf: seq<byte>, offset: nat, t: Ty) returns (ok: bool, field: Field, next: nat)
    requires offset <= |buf|
    ensures ok <==> DecodeField(buf, offset, t).Some?
    ensures ok ==> DecodeField(buf, offset, t) == Some(FieldAt(field, next))
  {
    field, next := I(0), offset;
    match t {
      case INT =>
        if offset + INT_SIZE > |buf| {
          return false, field, next;
        }
        var value := Int32FromBits(Uint32Of(buf[offset..offset + INT_SIZE]));
        field, next := I(value), offset + INT_SIZE;
      case DOUBLE =>
        if offset + DOUBLE_SIZE > |buf| {
          return false, field, next;
        }
        var value := Uint64Of(buf[offset..offset + DOUBLE_SIZE]);
        field, next := D(value), offset + DOUBLE_SIZE;
      case STRING =>
        if offset + LENGTH_SIZE > |buf| {
          return false, field, next;
        }
        var len := Uint32Of(buf[offset..offset + LENGTH_SIZE]);
        var at := offset + LENGTH_SIZE;
        if len > PAGE_SIZE || at + len > |buf| {
          return false, field, next;
        }
        field, next := S(buf[at..at + len]), at + len;
    }
    ok := true;
  }

  /** FileManager::deserializeRow: decode one row laid out by schema from the
      bufferSize bytes of buffer that start at index start. */
  method DeserializeRow(buffer: array?<byte>, start: nat, bufferSize: nat, schema: Schema)
    returns (n: nat, row: Row)
    requires buffer != null ==> start + bufferSize <= buffer.Length
    ensures buffer == null ==> n == 0
    ensures buffer != null ==> n == Deserialized(buffer[start..start + bufferSize], schema).end
    ensures buffer != null && n > 0 ==> row == Deserialized(buffer[start..start + bufferSize], schema).row
  {
    if buffer == null || bufferSize == 0 {
      return 0, [];
    }
    // The bufferSize readable bytes; the C++ reads them in place.
    var buf := buffer[start..start + bufferSize];
    var offset: nat := 0;
    row := [];
    for i := 0 to |schema|
      invariant DecodeFields(buf, schema[..i]) == Some(Decoded(row, offset))
    {
      DecodeFieldsStep(buf, schema, i, Decoded(row, offset));
      var ok, field, next := GetField(buf, offset, schema[i].ty);
      if !ok {
        DecodeFailurePersists(buf, schema, i + 1);
        return 0, row;
      }
      row, offset := row + [field], next;
    }
    assert schema[..|schema|] == schema;
    n := offset;
  }

  // ---------------------------------------------------------------------
  // Round trip

  /** Every string's size fits the uint32_t the encoder stores it in. */
  predicate LengthsRepresentable(row: Row)
  {
    forall i :: 0 <= i < |row| ==> row[i].S? ==> |row[i].text| < 0x1_0000_0000
  }

  lemma DecodeFieldRoundTrip(buf: seq<byte>, off: nat, f: Field, t: Ty)
    requires HasType(f, t) && FieldFits(f)
    requires f.S? ==> |f.text| < 0x1_0000_0000
    requires off + |EncodeField(f)| <= |buf|
    requires buf[off..off + |EncodeField(f)|] == EncodeField(f)
    ensures DecodeField(buf, off, t) == Some(FieldAt(f, off + |EncodeField(f)|))
  {
    match f
    case I(v) =>
      Uint32RoundTrip(Int32Bits(v));
    case D(b) =>
      Uint64RoundTrip(b);
    case S(s) =>
      var len := StoredLength(s);
      assert len == |s| && s[..len] == s;
      var e := EncodeField(f);
      assert e == Uint32Bytes(len) + s;
      assert buf[off..off + LENGTH_SIZE] == Uint32Bytes(len) by {
        assert buf[off..off + LENGTH_SIZE] == buf[off..off + |e|][..LENGTH_SIZE];
      }
      Uint32RoundTrip(len);
      assert buf[off + LENGTH_SIZE..off + LENGTH_SIZE + len] == s by {
        assert buf[off + LENGTH_SIZE..off + LENGTH_SIZE + len] == buf[off..off + |e|][LENGTH_SIZE..];
      }
  }

  /** A field whose encoding follows p at the front of buf decodes back
      right after p. */
  lemma FieldDecodesAfter(buf: seq<byte>, p: seq<byte>, f: Field, t: Ty)
    requires HasType(f, t) && FieldFits(f) && (f.S? ==> |f.text| < 0x1_0000_0000)
    requires p + EncodeField(f) <= buf
    ensures |p| <= |buf| && DecodeField(buf, |p|, t) == Some(FieldAt(f, |p| + |EncodeField(f)|))
  {
    var e := EncodeField(f);
    assert buf[|p|..|p| + |e|] == e by {
      assert buf[..|p| + |e|] == p + e;
    }
    DecodeFieldRoundTrip(buf, |p|, f, t);
  }

  /** The first k fields of a row decode back from a buffer that starts
      with their encoding. */
  lemma {:induction false} DecodePrefixRoundTrip(row: Row, schema: Schema, k: nat, buf: seq<byte>)
    requires Conforms(row, schema) && AllFieldsFit(row) && LengthsRepresentable(row) && k <= |row|
    requires RowEncoding(row[..k]) <= buf
    ensures DecodeFields(buf, schema[..k]) == Some(Decoded(row[..k], |RowEncoding(row[..k])|))
  {
    if k == 0 {
      assert row[..0] == [] && schema[..0] == [];
    } else {
      var p := RowEncoding(row[..k - 1]);
      RowEncodingSnoc(row, k - 1);
      FieldDecodesAfter(buf, p, row[k - 1], schema[k - 1].ty);
      assert p <= buf;
      DecodePrefixRoundTrip(row, schema, k - 1, buf);
      DecodeFieldsExtend(buf, schema, k - 1, Decoded(row[..k - 1], |p|), FieldAt(row[k - 1], |RowEncoding(row[..k])|));
      TakeSnoc(row, k - 1);
    }
  }

  /** deserializeRow undoes serializeRow: a row of the schema's types that
      serializeRow accepts is decoded back, consuming exactly its bytes,
      whatever follows it in the buffer. */
  lemma RowRoundTrip(row: Row, schema: Schema, bufferSize: nat, rest: seq<byte>)
    requires Conforms(row, schema) && LengthsRepresentable(row)
    requires Serialized(row, bufferSize) != []
    ensures Deserialized(Serialized(row, bufferSize) + rest, schema)
      == Decoded(row, |Serialized(row, bufferSize)|)
  {
    assert row[..|row|] == row;
    DecodePrefixRoundTrip(row, schema, |row|, Serialized(row, bufferSize) + rest);
    assert schema[..|row|] == schema;
  }

  /** One field decoded from a prefix of a buffer is what the whole buffer gives. */
  lemma DecodeFieldOnPrefix(short: seq<byte>, buf: seq<byte>, off: nat, t: Ty)
    requires short <= buf && off <= |short|
    requires DecodeField(short, off, t).Some?
    ensures DecodeField(buf, off, t) == DecodeField(short, off, t)
  {
    if t == STRING {
      assert short[off..off + LENGTH_SIZE] == buf[off..off + LENGTH_SIZE];
      var at := off + LENGTH_SIZE;
      var len := Uint32Of(short[off..at]);
      assert short[at..at + len] == buf[at..at + len];
    } else if t == INT {
      assert short[off..off + INT_SIZE] == buf[off..off + INT_SIZE];
    } else {
      assert short[off..off + DOUBLE_SIZE] == buf[off..off + DOUBLE_SIZE];
    }
  }

  /** Decoding is decided by the bytes it reads: on a prefix of a buffer it
      either fails or finds what it finds on the whole buffer. */
  lemma {:induction false} DecodeFieldsOnPrefix(short: seq<byte>, buf: seq<byte>, schema: Schema)
    requires short <= buf
    ensures DecodeFields(short, schema) == None || DecodeFields(short, schema) == DecodeFields(buf, schema)
    decreases |schema|
  {
    if schema != [] {
      var init := schema[..|schema| - 1];
      DecodeFieldsOnPrefix(short, buf, init);
      match DecodeFields(short, init) {
        case None =>
        case Some(d) =>
          var t := schema[|schema| - 1].ty;
          if DecodeField(short, d.end, t).Some? {
            DecodeFieldOnPrefix(short, buf, d.end, t);
          }
      }
    }
  }

  /** deserializeRow returns 0 on a buffer that stops short of a whole row. */
  lemma TruncatedRowRejected(row: Row, schema: Schema, bufferSize: nat, m: nat)
    requires Conforms(row, schema) && LengthsRepresentable(row)
    requires m < |Serialized(row, bufferSize)|
    ensures Deserialized(Serialized(row, bufferSize)[..m], schema).end == 0
  {
    var e := Serialized(row, bufferSize);
    RowRoundTrip(row, schema, bufferSize, []);
    assert e + [] == e;
    DecodeFieldsOnPrefix(e[..m], e, schema);
  }

  /** serializeRow with the page check applied to the string's full size,
      as the comment beside the length check intends, before any cut to 32 bits. */
  function SerializedChecked(row: Row, bufferSize: nat): (r: seq<byte>)
    ensures r != [] ==> LengthsRepresentable(row)
    ensures r != [] ==> r == Serialized(row, bufferSize)
  {
    if forall i :: 0 <= i < |row| ==> row[i].S? ==> |row[i].text| <= PAGE_SIZE then Serialized(row, bufferSize) else []
  }

  /** With the full size checked, every conforming row the encoder accepts
      round-trips, with no bound on string sizes left to the caller. */
  lemma CheckedRowRoundTrip(row: Row, schema: Schema, bufferSize: nat, rest: seq<byte>)
    requires Conforms(row, schema) && SerializedChecked(row, bufferSize) != []
    ensures Deserialized(SerializedChecked(row, bufferSize) + rest, schema)
      == Decoded(row, |SerializedChecked(row, bufferSize)|)
  {
    RowRoundTrip(row, schema, bufferSize, rest);
  }

  /** The stored length is the string's size cut to 32 bits, and the page
      check only sees the cut value: a string of 2^32 + 1 bytes is accepted
      and comes back as its first byte. */
  lemma LongStringTruncated(s: seq<byte>)
    requires |s| == 0x1_0000_0001
    ensures Serialized([S(s)], PAGE_SIZE) == Uint32Bytes(1) + [s[0]]
    ensures Deserialized(Serialized([S(s)], PAGE_SIZE), [Column("name", STRING)]).row == [S([s[0]])]
  {
    var row := [S(s)];
    assert StoredLength(s) == 1;
    assert row[..0] == [];
    assert RowEncoding(row) == Uint32Bytes(1) + [s[0]];
    var e := Serialized(row, PAGE_SIZE);
    var short := [S([s[0]])];
    assert short[..0] == [];
    assert RowEncoding(short) == e;
    assert Serialized(short, PAGE_SIZE) == e;
    RowRoundTrip(short, [Column("name", STRING)], PAGE_SIZE, []);
    assert e + [] == e;
  }
}
