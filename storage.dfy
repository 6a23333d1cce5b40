/** The storage handle the file codec works on: a growable byte sequence
    with positioned writes (which extend the file) and positioned reads
    (which fail when the file is too short). */
module Storage {
  import opened Bytes

  /** The bytes after writing src at offset off. A write past the end
      extends the file; a gap before off reads as zeros. */
  function Overwrite(b: seq<byte>, off: nat, src: seq<byte>): (r: seq<byte>)
    ensures |r| == if off + |src| > |b| then off + |src| else |b|
    ensures forall j :: 0 <= j < |r| ==>
      r[j] == (if off <= j < off + |src| then src[j - off] else if j < |b| then b[j] else 0)
  {
    (if off <= |b| then b[..off] else b + seq(off - |b|, _ => 0))
      + src
      + (if off + |src| < |b| then b[off + |src|..] else [])
  }

  /** A write leaves every byte outside [off, off + |src|) of the old file alone. */
  lemma OverwriteFrame(b: seq<byte>, off: nat, src: seq<byte>, lo: nat, hi: nat)
    requires lo <= hi <= |b|
    requires hi <= off || off + |src| <= lo
    ensures Overwrite(b, off, src)[lo..hi] == b[lo..hi]
  {
    var r := Overwrite(b, off, src);
    assert forall j :: lo <= j < hi ==> r[j] == b[j];
  }

  /** A write can be read back where it was written. */
  lemma OverwriteReadBack(b: seq<byte>, off: nat, src: seq<byte>)
    ensures Overwrite(b, off, src)[off..off + |src|] == src
  {
    var r := Overwrite(b, off, src);
    assert forall j :: off <= j < off + |src| ==> r[j] == src[j - off];
  }

  class File {
    var bytes: seq<byte>

    constructor (contents: seq<byte>)
      ensures bytes == contents
    {
      bytes := contents;
    }

    /** Seek to off and write src. */
    method WriteAt(off: nat, src: seq<byte>)
      modifies this
      ensures bytes == Overwrite(old(bytes), off, src)
    {
      bytes := Overwrite(bytes, off, src);
    }

    /** Seek to off and read n bytes; fails when fewer than n remain. */
    method ReadAt(off: nat, n: nat) returns (ok: bool, out: seq<byte>)
      ensures ok <==> off + n <= |bytes|
      ensures ok ==> out == bytes[off..off + n]
    {
      if off + n <= |bytes| {
        ok, out := true, bytes[off..off + n];
      } else {
        ok, out := false, [];
      }
    }
  }
}
