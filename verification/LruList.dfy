/** The simple form: a bounded list, oldest use first. */
module LruList {
  import opened UseTable

  datatype Item = Item(path: string, entry: Entry)

  /** The list without the item of `path`. */
  function Drop(l: seq<Item>, path: string): (r: seq<Item>)
    ensures |r| <= |l|
    ensures forall x :: x in r <==> x in l && x.path != path
  {
    if l == [] then []
    else
      assert forall x :: x in l <==> x == l[0] || x in l[1..];
      if l[0].path == path then Drop(l[1..], path) else [l[0]] + Drop(l[1..], path)
  }

  /** The items of `path`: none, or the one there is. */
  function Only(l: seq<Item>, path: string): (r: seq<Item>) {
    if l == [] then []
    else if l[0].path == path then [l[0]] + Only(l[1..], path)
    else Only(l[1..], path)
  }

  /** Write an item: it becomes the newest. */
  function Put(l: seq<Item>, item: Item): (r: seq<Item>) {
    Drop(l, item.path) + [item]
  }

  /** Use an item, if it is there: it becomes the newest. */
  function Use(l: seq<Item>, path: string): (r: seq<Item>) {
    Drop(l, path) + Only(l, path)
  }

  /** The newest `n` items. */
  function Keep(l: seq<Item>, n: nat): (r: seq<Item>)
    ensures |r| <= n
  {
    if |l| <= n then l else l[|l| - n..]
  }

  function PutAll(l: seq<Item>, items: seq<Item>): (r: seq<Item>)
    decreases |items|
  {
    if items == [] then l else PutAll(Put(l, items[0]), items[1..])
  }

  /** Write the items one by one, keeping the bound after each. */
  function SetAll(l: seq<Item>, items: seq<Item>, max: nat): (r: seq<Item>)
    decreases |items|
  {
    if items == [] then l else SetAll(Keep(Put(l, items[0]), max), items[1..], max)
  }

  // ---------------------------------------------------------------------------
  // The stack property
  // ---------------------------------------------------------------------------

  lemma {:induction false} DropAppends(a: seq<Item>, b: seq<Item>, path: string)
    ensures Drop(a + b, path) == Drop(a, path) + Drop(b, path)
  {
    if a == [] {
      assert a + b == b;
    } else {
      assert (a + b)[1..] == a[1..] + b;
      DropAppends(a[1..], b, path);
    }
  }

  /** Each path occurs once. */
  predicate Distinct(l: seq<Item>) {
    forall i, j :: 0 <= i < j < |l| ==> l[i].path != l[j].path
  }

  lemma {:induction false} DropNone(l: seq<Item>, path: string)
    requires forall x <- l :: x.path != path
    ensures Drop(l, path) == l
  {
    if l != [] {
      DropNone(l[1..], path);
    }
  }

  lemma {:induction false} DropLosesOne(l: seq<Item>, path: string)
    requires Distinct(l)
    ensures |Drop(l, path)| >= |l| - 1
  {
    if l != [] {
      if l[0].path == path {
        DropNone(l[1..], path);
      } else {
        DropLosesOne(l[1..], path);
      }
    }
  }

  lemma {:induction false} DropIsDistinct(l: seq<Item>, path: string)
    requires Distinct(l)
    ensures Distinct(Drop(l, path))
  {
    if l != [] {
      DropIsDistinct(l[1..], path);
      var rest := Drop(l[1..], path);
      forall i | 0 <= i < |rest|
        ensures rest[i].path != l[0].path
      {
        assert rest[i] in rest;
      }
    }
  }

  lemma PutIsDistinct(l: seq<Item>, item: Item)
    requires Distinct(l)
    ensures Distinct(Put(l, item))
  {
    DropIsDistinct(l, item.path);
    forall i | 0 <= i < |Drop(l, item.path)|
      ensures Drop(l, item.path)[i].path != item.path
    {
      assert Drop(l, item.path)[i] in Drop(l, item.path);
    }
  }

  /** The newest `max` of a list depend only on its end, when the end is long enough. */
  lemma KeepOfEnd(a: seq<Item>, b: seq<Item>, max: nat)
    requires |b| >= max
    ensures Keep(a + b, max) == Keep(b, max)
  {
    assert (a + b)[|a + b| - max..] == b[|b| - max..];
  }

  /** Keeping the newest before a write loses nothing that would be kept after it. */
  lemma KeepBeforePut(l: seq<Item>, item: Item, max: nat)
    requires Distinct(l) && max >= 1
    ensures Keep(Put(Keep(l, max), item), max) == Keep(Put(l, item), max)
  {
    if |l| > max {
      var lost, kept := l[..|l| - max], l[|l| - max..];
      assert l == lost + kept;
      DropAppends(lost, kept, item.path);
      DropLosesOne(kept, item.path);
      var a, b := Drop(lost, item.path), Drop(kept, item.path) + [item];
      assert Put(l, item) == a + b;
      KeepOfEnd(a, b, max);
    }
  }

  /** A run of writes with the bound kept after each is one batch with the bound kept once. */
  lemma {:induction false} BatchIsSets(l: seq<Item>, items: seq<Item>, max: nat)
    requires Distinct(l) && max >= 1
    ensures SetAll(Keep(l, max), items, max) == Keep(PutAll(l, items), max)
    decreases |items|
  {
    if items != [] {
      KeepBeforePut(l, items[0], max);
      PutIsDistinct(l, items[0]);
      BatchIsSets(Put(l, items[0]), items[1..], max);
    }
  }
}
