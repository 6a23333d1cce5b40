/** The greedy page packing of FileManager::write, stated over item sizes
    alone: items are appended to the current page while they fit, a size-0
    item is skipped, an item that does not fit seals the current page and
    starts the next, and the last page is sealed when it holds anything. */
module Packing {
  import opened Seqs
  import opened Pages

  /** The bytes a page holding items uses. */
  function Used<R>(page: seq<R>, size: R -> nat): nat
  {
    if page == [] then 0 else size(page[0]) + Used(page[1..], size)
  }

  /** The items write stores: serializeRow gave them a non-zero size. */
  function Stored<R>(size: R -> nat): R -> bool
  {
    x => size(x) > 0
  }

  /** The stored items, in order. */
  function Kept<R>(items: seq<R>, size: R -> nat): seq<R>
  {
    Filter(items, Stored(size))
  }

  /** The pages write seals for items, cur being what the current page
      already holds. */
  function PackFrom<R>(items: seq<R>, cur: seq<R>, size: R -> nat): (pages: seq<seq<R>>)
    ensures |pages| <= |items| + 1
    decreases |items|
  {
    if items == [] then
      (if Used(cur, size) > 0 then [cur] else [])
    else if size(items[0]) == 0 then
      PackFrom(items[1..], cur, size)
    else if Used(cur, size) + size(items[0]) <= PAGE_SIZE then
      PackFrom(items[1..], cur + [items[0]], size)
    else
      [cur] + PackFrom(items[1..], [items[0]], size)
  }

  lemma {:induction false} UsedSnoc<R>(page: seq<R>, x: R, size: R -> nat)
    ensures Used(page + [x], size) == Used(page, size) + size(x)
  {
    if page == [] {
      assert [] + [x] == [x];
      assert [x][1..] == [];
    } else {
      assert (page + [x])[0] == page[0];
      assert (page + [x])[1..] == page[1..] + [x];
      UsedSnoc(page[1..], x, size);
    }
  }

  /** One round of write's loop, for an item of size 0: it is skipped. */
  lemma PackSkip<R>(x: R, rest: seq<R>, cur: seq<R>, size: R -> nat)
    requires size(x) == 0
    ensures PackFrom([x] + rest, cur, size) == PackFrom(rest, cur, size)
  {
    assert ([x] + rest)[0] == x && ([x] + rest)[1..] == rest;
  }

  /** One round of write's loop, for an item that fits: the current page
      takes it. */
  lemma PackAppend<R>(x: R, rest: seq<R>, cur: seq<R>, size: R -> nat)
    requires size(x) > 0 && Used(cur, size) + size(x) <= PAGE_SIZE
    ensures PackFrom([x] + rest, cur, size) == PackFrom(rest, cur + [x], size)
  {
    assert ([x] + rest)[0] == x && ([x] + rest)[1..] == rest;
  }

  /** One round of write's loop, for an item that does not fit: the current
      page joins the sealed pages done and the item starts the next page. */
  lemma PackSeal<R>(done: seq<seq<R>>, x: R, rest: seq<R>, cur: seq<R>, size: R -> nat)
    requires size(x) > 0 && Used(cur, size) + size(x) > PAGE_SIZE
    ensures done + PackFrom([x] + rest, cur, size) == (done + [cur]) + PackFrom(rest, [] + [x], size)
  {
    assert ([x] + rest)[0] == x && ([x] + rest)[1..] == rest;
    assert [] + [x] == [x];
  }

  /** A skipped item: the pages are those of the remaining items. */
  lemma FlattenSkipStep<R>(items: seq<R>, cur: seq<R>, size: R -> nat)
    requires items != [] && size(items[0]) == 0
    requires Flatten(PackFrom(items[1..], cur, size)) == cur + Kept(items[1..], size)
    ensures Flatten(PackFrom(items, cur, size)) == cur + Kept(items, size)
  {
    FilterCons(items, Stored(size));
  }

  /** An item the current page takes: it follows cur in the flattened pages. */
  lemma FlattenAppendStep<R>(items: seq<R>, cur: seq<R>, size: R -> nat)
    requires items != [] && size(items[0]) > 0 && Used(cur, size) + size(items[0]) <= PAGE_SIZE
    requires Flatten(PackFrom(items[1..], cur + [items[0]], size)) == (cur + [items[0]]) + Kept(items[1..], size)
    ensures Flatten(PackFrom(items, cur, size)) == cur + Kept(items, size)
  {
    FilterCons(items, Stored(size));
    ConcatAssoc(cur, [items[0]], Kept(items[1..], size));
  }

  /** An item that seals cur: cur is the next page and the item starts the one after. */
  lemma FlattenSealStep<R>(items: seq<R>, cur: seq<R>, size: R -> nat)
    requires items != [] && size(items[0]) > 0 && Used(cur, size) + size(items[0]) > PAGE_SIZE
    requires Flatten(PackFrom(items[1..], [items[0]], size)) == [items[0]] + Kept(items[1..], size)
    ensures Flatten(PackFrom(items, cur, size)) == cur + Kept(items, size)
  {
    FilterCons(items, Stored(size));
    FlattenCons(cur, PackFrom(items[1..], [items[0]], size));
  }

  /** The pages hold exactly the items with a non-zero size, each once and
      in their original order. */
  lemma {:induction false} PackFlatten<R>(items: seq<R>, cur: seq<R>, size: R -> nat)
    requires cur != [] ==> size(cur[0]) > 0
    ensures Flatten(PackFrom(items, cur, size)) == cur + Kept(items, size)
    decreases |items|
  {
    if items == [] {
      if Used(cur, size) > 0 {
        FlattenCons(cur, []);
      }
    } else {
      var x := items[0];
      if size(x) == 0 {
        PackFlatten(items[1..], cur, size);
        FlattenSkipStep(items, cur, size);
      } else if Used(cur, size) + size(x) <= PAGE_SIZE {
        assert (cur + [x])[0] == if cur == [] then x else cur[0];
        PackFlatten(items[1..], cur + [x], size);
        FlattenAppendStep(items, cur, size);
      } else {
        PackFlatten(items[1..], [x], size);
        FlattenSealStep(items, cur, size);
      }
    }
  }

  /** Every sealed page uses at least one byte and at most a page. */
  lemma {:induction false} PackFits<R>(items: seq<R>, cur: seq<R>, size: R -> nat)
    requires forall x :: size(x) <= PAGE_SIZE
    requires Used(cur, size) <= PAGE_SIZE
    ensures forall k :: 0 <= k < |PackFrom(items, cur, size)| ==>
      0 < Used(PackFrom(items, cur, size)[k], size) <= PAGE_SIZE
    decreases |items|
  {
    if items != [] {
      var x, tail := items[0], items[1..];
      if size(x) == 0 {
        PackFits(tail, cur, size);
      } else if Used(cur, size) + size(x) <= PAGE_SIZE {
        UsedSnoc(cur, x, size);
        PackFits(tail, cur + [x], size);
      } else {
        assert Used([x], size) == size(x) + Used([x][1..], size);
        PackFits(tail, [x], size);
        var pages := PackFrom(tail, [x], size);
        assert forall k :: 1 <= k < |[cur] + pages| ==> ([cur] + pages)[k] == pages[k - 1];
      }
    }
  }

  /** Each sealed page holds at least one item, so there are no more pages
      than stored items. */
  lemma {:induction false} PackCount<R>(items: seq<R>, cur: seq<R>, size: R -> nat)
    requires cur != [] ==> size(cur[0]) > 0
    requires forall x :: size(x) <= PAGE_SIZE
    ensures |PackFrom(items, cur, size)| <= (if cur == [] then 0 else 1) + |Kept(items, size)|
    decreases |items|
  {
    if items != [] {
      var x, tail := items[0], items[1..];
      FilterCons(items, Stored(size));
      if size(x) == 0 {
        PackCount(tail, cur, size);
      } else if Used(cur, size) + size(x) <= PAGE_SIZE {
        PackCount(tail, cur + [x], size);
      } else {
        PackCount(tail, [x], size);
      }
    }
  }
}
