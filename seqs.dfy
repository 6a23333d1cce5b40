/** Order-preserving filtering and concatenation of sequences. */
module Seqs {

  /** The elements of s that satisfy p, in their original order. */
  function Filter<T>(s: seq<T>, p: T -> bool): (r: seq<T>)
    ensures |r| <= |s|
  {
    if s == [] then [] else (if p(s[0]) then [s[0]] else []) + Filter(s[1..], p)
  }

  /** The predicate that holds exactly where p does not. */
  function Complement<T>(p: T -> bool): T -> bool
  {
    x => !p(x)
  }

  /** All of ss, one after another. */
  function Flatten<T>(ss: seq<seq<T>>): seq<T>
  {
    if ss == [] then [] else ss[0] + Flatten(ss[1..])
  }

  /** Filtering a concatenation filters each part: relative order is kept. */
  lemma {:induction false} FilterConcat<T>(a: seq<T>, b: seq<T>, p: T -> bool)
    ensures Filter(a + b, p) == Filter(a, p) + Filter(b, p)
  {
    if a != [] {
      assert (a + b)[1..] == a[1..] + b;
      FilterConcat(a[1..], b, p);
    } else {
      assert a + b == b;
    }
  }

  /** x is kept by Filter exactly when it occurs in s and satisfies p. */
  lemma {:induction false} FilterMembers<T>(s: seq<T>, p: T -> bool, x: T)
    ensures x in Filter(s, p) <==> x in s && p(x)
  {
    if s != [] {
      FilterMembers(s[1..], p, x);
      assert s == [s[0]] + s[1..];
    }
  }

  /** The kept and the rejected elements together account for all of s. */
  lemma {:induction false} FilterPartition<T>(s: seq<T>, p: T -> bool)
    ensures |Filter(s, p)| + |Filter(s, Complement(p))| == |s|
  {
    if s != [] {
      FilterPartition(s[1..], p);
    }
  }

  /** A filter by a stronger predicate keeps no more elements. */
  lemma {:induction false} FilterStronger<T>(s: seq<T>, p: T -> bool, q: T -> bool)
    requires forall i :: 0 <= i < |s| ==> p(s[i]) ==> q(s[i])
    ensures |Filter(s, p)| <= |Filter(s, q)|
  {
    if s != [] {
      FilterStronger(s[1..], p, q);
    }
  }

  /** Filtering by a predicate no element satisfies keeps nothing. */
  lemma {:induction false} FilterNone<T>(s: seq<T>, p: T -> bool)
    requires forall i :: 0 <= i < |s| ==> !p(s[i])
    ensures Filter(s, p) == []
  {
    if s != [] {
      FilterNone(s[1..], p);
    }
  }

  lemma {:induction false} FlattenConcat<T>(a: seq<seq<T>>, b: seq<seq<T>>)
    ensures Flatten(a + b) == Flatten(a) + Flatten(b)
  {
    if a != [] {
      assert (a + b)[1..] == a[1..] + b;
      FlattenConcat(a[1..], b);
    } else {
      assert a + b == b;
    }
  }

  /** An element of one of the parts is an element of the whole. */
  lemma {:induction false} FlattenMembers<T>(ss: seq<seq<T>>, k: nat, x: T)
    requires k < |ss| && x in ss[k]
    ensures x in Flatten(ss)
  {
    if k > 0 {
      FlattenMembers(ss[1..], k - 1, x);
    }
  }

  /** Extending a prefix by one element. */
  lemma TakeSnoc<T>(s: seq<T>, k: nat)
    requires k < |s|
    ensures s[..k + 1] == s[..k] + [s[k]]
  {
  }

  /** The suffix from k on: its head, then the suffix after it. */
  lemma DropCons<T>(s: seq<T>, k: nat)
    requires k < |s|
    ensures s[k..] == [s[k]] + s[k + 1..]
  {
  }

  /** Flattening a sequence that starts with a. */
  lemma FlattenCons<T>(a: seq<T>, ss: seq<seq<T>>)
    ensures Flatten([a] + ss) == a + Flatten(ss)
  {
    assert ([a] + ss)[0] == a && ([a] + ss)[1..] == ss;
  }

  /** Filtering a non-empty sequence decides its head, then filters the rest. */
  lemma FilterCons<T>(s: seq<T>, p: T -> bool)
    requires s != []
    ensures Filter(s, p) == (if p(s[0]) then [s[0]] else []) + Filter(s[1..], p)
  {
  }

  /** Flattening one more part of ss. */
  lemma FlattenTakeSnoc<T>(ss: seq<seq<T>>, k: nat)
    requires k < |ss|
    ensures Flatten(ss[..k + 1]) == Flatten(ss[..k]) + ss[k]
  {
    assert ss[..k + 1] == ss[..k] + [ss[k]];
    FlattenConcat(ss[..k], [ss[k]]);
    FlattenCons(ss[k], []);
    assert [ss[k]] + [] == [ss[k]];
  }

  lemma ConcatAssoc<T>(a: seq<T>, b: seq<T>, c: seq<T>)
    ensures (a + b) + c == a + (b + c)
  {
  }

  /** Moving the head of the unprocessed part onto the processed part. */
  lemma ConcatShift<T>(done: seq<T>, x: T, todo: seq<T>, rest: seq<T>, whole: seq<T>)
    requires done + todo == whole && todo == [x] + rest
    ensures (done + [x]) + rest == whole
  {
  }

  /** The middle part of a three-part concatenation. */
  lemma MiddleOfThree<T>(p: seq<T>, e: seq<T>, r: seq<T>)
    ensures (p + e + r)[|p|..|p| + |e|] == e
    ensures p + (e + r) == p + e + r
  {
  }
}
