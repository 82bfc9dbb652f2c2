/** The order of query results: a stable sort by several keys. */
module QueryOrder {
  import opened Wrappers

  datatype Ordering = Less | Equal | Greater

  datatype Direction = Asc | Desc

  datatype SortKey =
    | Mtime(direction: Direction)
    | LastAccessed(direction: Direction)
    | Path(direction: Direction)
    | Field(path: string, direction: Direction)

  /** What an entry is sorted by. A field of its payload is a number or has no value. */
  datatype Keys = Keys(mtime: int, lastAccessed: int, path: string, field: string -> Option<real>)

  /** How paths compare, and the keys of a query, most significant first. */
  datatype Rank = Rank(paths: (string, string) -> Ordering, keys: seq<SortKey>)

  /** A value with what it is sorted by. */
  datatype Tagged<+X> = Tagged(keys: Keys, value: X)

  // ---------------------------------------------------------------------------
  // Comparison
  // ---------------------------------------------------------------------------

  function Reverse(c: Ordering): Ordering {
    match c
    case Less => Greater
    case Equal => Equal
    case Greater => Less
  }

  function Directed(c: Ordering, direction: Direction): Ordering {
    if direction == Desc then Reverse(c) else c
  }

  function CompareInts(a: int, b: int): Ordering {
    if a < b then Less else if a == b then Equal else Greater
  }

  /** `Option::partial_cmp`: no value comes before every value. */
  function CompareFields(a: Option<real>, b: Option<real>): Ordering {
    match (a, b)
    case (None, None) => Equal
    case (None, Some(_)) => Less
    case (Some(_), None) => Greater
    case (Some(x), Some(y)) => if x < y then Less else if x == y then Equal else Greater
  }

  function CompareBy(paths: (string, string) -> Ordering, key: SortKey, a: Keys, b: Keys): Ordering {
    match key
    case Mtime(d) => Directed(CompareInts(a.mtime, b.mtime), d)
    case LastAccessed(d) => Directed(CompareInts(a.lastAccessed, b.lastAccessed), d)
    case Path(d) => Directed(paths(a.path, b.path), d)
    case Field(f, d) => Directed(CompareFields(a.field(f), b.field(f)), d)
  }

  /** The first key that tells the two apart decides. */
  function Compare(rank: Rank, a: Keys, b: Keys): Ordering
    decreases |rank.keys|
  {
    if rank.keys == [] then Equal
    else
      var c := CompareBy(rank.paths, rank.keys[0], a, b);
      if c != Equal then c else Compare(rank.(keys := rank.keys[1..]), a, b)
  }

  /** Paths compare as a total preorder: `Path::cmp` does, by components. */
  ghost predicate Lawful(paths: (string, string) -> Ordering) {
    && (forall a, b :: paths(b, a) == Reverse(paths(a, b)))
    && (forall a, b, c :: paths(a, b) != Greater && paths(b, c) != Greater ==> paths(a, c) != Greater)
  }

  /** By one key `a` may stand before `b`: an ascending key does not go down, a descending key does not go up. */
  predicate MayPrecede(paths: (string, string) -> Ordering, key: SortKey, a: Keys, b: Keys) {
    match key
    case Mtime(Asc) => a.mtime <= b.mtime
    case Mtime(Desc) => a.mtime >= b.mtime
    case LastAccessed(Asc) => a.lastAccessed <= b.lastAccessed
    case LastAccessed(Desc) => a.lastAccessed >= b.lastAccessed
    case Path(Asc) => paths(a.path, b.path) != Greater
    case Path(Desc) => paths(a.path, b.path) != Less
    case Field(f, Asc) => a.field(f).None? || (b.field(f).Some? && a.field(f).value <= b.field(f).value)
    case Field(f, Desc) => b.field(f).None? || (a.field(f).Some? && a.field(f).value >= b.field(f).value)
  }

  /** By the `k`-th key `a` stands before `b`, and no key before it tells them apart. */
  predicate DecidedAt(rank: Rank, a: Keys, b: Keys, k: nat)
    requires k < |rank.keys|
  {
    && (forall j :: 0 <= j < k ==>
          MayPrecede(rank.paths, rank.keys[j], a, b) && MayPrecede(rank.paths, rank.keys[j], b, a))
    && MayPrecede(rank.paths, rank.keys[k], a, b) && !MayPrecede(rank.paths, rank.keys[k], b, a)
  }

  lemma CompareByIs(paths: (string, string) -> Ordering, key: SortKey, a: Keys, b: Keys)
    requires Lawful(paths)
    ensures CompareBy(paths, key, a, b) != Greater <==> MayPrecede(paths, key, a, b)
    ensures CompareBy(paths, key, a, b) != Less <==> MayPrecede(paths, key, b, a)
  {
  }

  /** The comparison is lexicographic: the first key that tells the two apart decides, in its direction. */
  lemma {:induction false} CompareIs(rank: Rank, a: Keys, b: Keys)
    requires Lawful(rank.paths)
    ensures Compare(rank, a, b) == Less <==> exists k :: 0 <= k < |rank.keys| && DecidedAt(rank, a, b, k)
    ensures Compare(rank, a, b) == Greater <==> exists k :: 0 <= k < |rank.keys| && DecidedAt(rank, b, a, k)
    decreases |rank.keys|
  {
    if rank.keys != [] {
      var rest := rank.(keys := rank.keys[1..]);
      CompareByIs(rank.paths, rank.keys[0], a, b);
      CompareIs(rest, a, b);
      if CompareBy(rank.paths, rank.keys[0], a, b) == Equal {
        DecidedByRest(rank, a, b);
        DecidedByRest(rank, b, a);
      } else {
        assert forall k :: 0 < k < |rank.keys| ==> !DecidedAt(rank, a, b, k) && !DecidedAt(rank, b, a, k);
        assert DecidedAt(rank, a, b, 0) || DecidedAt(rank, b, a, 0);
      }
    }
  }

  lemma DecidedByRest(rank: Rank, a: Keys, b: Keys)
    requires rank.keys != []
    requires MayPrecede(rank.paths, rank.keys[0], a, b) && MayPrecede(rank.paths, rank.keys[0], b, a)
    ensures var rest := rank.(keys := rank.keys[1..]);
            ((exists k :: 0 <= k < |rank.keys| && DecidedAt(rank, a, b, k)) <==>
             (exists k :: 0 <= k < |rest.keys| && DecidedAt(rest, a, b, k)))
  {
    var rest := rank.(keys := rank.keys[1..]);
    if k :| 0 <= k < |rest.keys| && DecidedAt(rest, a, b, k) {
      DecidedLater(rank, a, b, k);
    }
    if k :| 0 <= k < |rank.keys| && DecidedAt(rank, a, b, k) {
      DecidedLater(rank, a, b, k - 1);
    }
  }

  lemma DecidedLater(rank: Rank, a: Keys, b: Keys, k: nat)
    requires k + 1 < |rank.keys|
    requires MayPrecede(rank.paths, rank.keys[0], a, b) && MayPrecede(rank.paths, rank.keys[0], b, a)
    ensures DecidedAt(rank, a, b, k + 1) <==> DecidedAt(rank.(keys := rank.keys[1..]), a, b, k)
  {
    var rest := rank.(keys := rank.keys[1..]);
    assert forall j :: 0 <= j < |rest.keys| ==> rest.keys[j] == rank.keys[j + 1];
    if DecidedAt(rest, a, b, k) {
      forall j | 0 < j < k + 1
        ensures MayPrecede(rank.paths, rank.keys[j], a, b) && MayPrecede(rank.paths, rank.keys[j], b, a)
      {
        assert rest.keys[j - 1] == rank.keys[j];
      }
    }
  }

  lemma CompareByFlips(paths: (string, string) -> Ordering, key: SortKey, a: Keys, b: Keys)
    requires Lawful(paths)
    ensures CompareBy(paths, key, b, a) == Reverse(CompareBy(paths, key, a, b))
  {
  }

  lemma {:induction false} CompareFlips(rank: Rank, a: Keys, b: Keys)
    requires Lawful(rank.paths)
    ensures Compare(rank, b, a) == Reverse(Compare(rank, a, b))
    decreases |rank.keys|
  {
    if rank.keys != [] {
      CompareByFlips(rank.paths, rank.keys[0], a, b);
      CompareFlips(rank.(keys := rank.keys[1..]), a, b);
    }
  }

  /** One key never goes down twice and ends up; and it stays equal only if it was equal twice. */
  lemma CompareByChains(paths: (string, string) -> Ordering, key: SortKey, a: Keys, b: Keys, c: Keys)
    requires Lawful(paths) && CompareBy(paths, key, a, b) != Greater && CompareBy(paths, key, b, c) != Greater
    ensures CompareBy(paths, key, a, c) != Greater
    ensures CompareBy(paths, key, a, c) == Equal
       <==> CompareBy(paths, key, a, b) == Equal && CompareBy(paths, key, b, c) == Equal
  {
    if key.Path? {
      PathsChain(paths, a.path, b.path, c.path);
      PathsChain(paths, c.path, b.path, a.path);
    }
  }

  lemma PathsChain(paths: (string, string) -> Ordering, a: string, b: string, c: string)
    requires Lawful(paths)
    ensures paths(b, a) == Reverse(paths(a, b)) && paths(c, b) == Reverse(paths(b, c))
    ensures paths(c, a) == Reverse(paths(a, c))
    ensures paths(a, b) != Greater && paths(b, c) != Greater ==>
              paths(a, c) != Greater
              && (paths(a, c) == Equal <==> paths(a, b) == Equal && paths(b, c) == Equal)
  {
    if paths(a, b) != Greater && paths(b, c) != Greater {
      assert paths(c, a) != Greater ==> paths(b, a) != Greater && paths(c, b) != Greater by {
        if paths(c, a) != Greater {
          assert paths(b, c) != Greater && paths(c, a) != Greater;
          assert paths(c, a) != Greater && paths(a, b) != Greater;
        }
      }
    }
  }

  /** The comparison by all keys is transitive, so it is a total preorder. */
  lemma {:induction false} CompareChains(rank: Rank, a: Keys, b: Keys, c: Keys)
    requires Lawful(rank.paths) && Compare(rank, a, b) != Greater && Compare(rank, b, c) != Greater
    ensures Compare(rank, a, c) != Greater
    decreases |rank.keys|
  {
    if rank.keys != [] {
      CompareByChains(rank.paths, rank.keys[0], a, b, c);
      if CompareBy(rank.paths, rank.keys[0], a, c) == Equal {
        CompareChains(rank.(keys := rank.keys[1..]), a, b, c);
      }
    }
  }

  // ---------------------------------------------------------------------------
  // The stable sort
  // ---------------------------------------------------------------------------

  /** Put `x` before the first value it does not come after. */
  function Insert<X>(rank: Rank, x: Tagged<X>, s: seq<Tagged<X>>): (r: seq<Tagged<X>>)
    ensures multiset(r) == multiset{x} + multiset(s)
  {
    if s == [] || Compare(rank, x.keys, s[0].keys) != Greater then [x] + s
    else
      assert s == [s[0]] + s[1..];
      [s[0]] + Insert(rank, x, s[1..])
  }

  /** `sort_by`. */
  function Sort<X>(rank: Rank, s: seq<Tagged<X>>): (r: seq<Tagged<X>>)
    ensures multiset(r) == multiset(s)
  {
    if s == [] then []
    else
      assert s == [s[0]] + s[1..];
      Insert(rank, s[0], Sort(rank, s[1..]))
  }

  predicate Sorted<X>(rank: Rank, s: seq<Tagged<X>>) {
    forall i, j :: 0 <= i < j < |s| ==> Compare(rank, s[i].keys, s[j].keys) != Greater
  }

  function Filter<X>(p: X -> bool, s: seq<Tagged<X>>): (r: seq<Tagged<X>>)
    ensures forall x <- r :: x in s && p(x.value)
  {
    if s == [] then []
    else
      assert forall x <- s[1..] :: x in s;
      if p(s[0].value) then [s[0]] + Filter(p, s[1..]) else Filter(p, s[1..])
  }

  lemma {:induction false} InsertMembers<X>(rank: Rank, x: Tagged<X>, s: seq<Tagged<X>>)
    ensures forall y <- Insert(rank, x, s) :: y == x || y in s
  {
    if s == [] || Compare(rank, x.keys, s[0].keys) != Greater {
    } else {
      InsertMembers(rank, x, s[1..]);
    }
  }

  lemma {:induction false} InsertIsSorted<X>(rank: Rank, x: Tagged<X>, s: seq<Tagged<X>>)
    requires Lawful(rank.paths) && Sorted(rank, s)
    ensures Sorted(rank, Insert(rank, x, s))
  {
    if s == [] {
    } else if Compare(rank, x.keys, s[0].keys) != Greater {
      forall i | 0 <= i < |s|
        ensures Compare(rank, x.keys, s[i].keys) != Greater
      {
        if i > 0 {
          CompareChains(rank, x.keys, s[0].keys, s[i].keys);
        }
      }
    } else {
      CompareFlips(rank, x.keys, s[0].keys);
      InsertIsSorted(rank, x, s[1..]);
      InsertMembers(rank, x, s[1..]);
      var rest, tail := Insert(rank, x, s[1..]), s[1..];
      forall y | y in rest
        ensures Compare(rank, s[0].keys, y.keys) != Greater
      {
        if y in tail {
          var j :| 0 <= j < |tail| && tail[j] == y;
          assert s[j + 1] == y;
        }
      }
    }
  }

  lemma {:induction false} SortIsSorted<X>(rank: Rank, s: seq<Tagged<X>>)
    requires Lawful(rank.paths)
    ensures Sorted(rank, Sort(rank, s))
  {
    if s != [] {
      SortIsSorted(rank, s[1..]);
      InsertIsSorted(rank, s[0], Sort(rank, s[1..]));
    }
  }

  /** A value that does not come after any other goes first. */
  lemma InsertFirst<X>(rank: Rank, x: Tagged<X>, s: seq<Tagged<X>>)
    requires forall y <- s :: Compare(rank, x.keys, y.keys) != Greater
    ensures Insert(rank, x, s) == [x] + s
  {
  }

  /** A value that does not come after the first of a sorted sequence comes after none that is left of it. */
  lemma LeastStaysLeast<X>(rank: Rank, p: X -> bool, x: Tagged<X>, s: seq<Tagged<X>>)
    requires Lawful(rank.paths) && Sorted(rank, s) && s != [] && Compare(rank, x.keys, s[0].keys) != Greater
    ensures forall y <- Filter(p, s) :: Compare(rank, x.keys, y.keys) != Greater
  {
    forall i | 0 <= i < |s|
      ensures Compare(rank, x.keys, s[i].keys) != Greater
    {
      if i > 0 {
        CompareChains(rank, x.keys, s[0].keys, s[i].keys);
      }
    }
    forall y | y in Filter(p, s)
      ensures Compare(rank, x.keys, y.keys) != Greater
    {
      assert y in s;
    }
  }

  lemma FilterCons<X>(p: X -> bool, x: Tagged<X>, s: seq<Tagged<X>>)
    ensures Filter(p, [x] + s) == if p(x.value) then [x] + Filter(p, s) else Filter(p, s)
  {
    assert ([x] + s)[1..] == s;
  }

  /** A value that comes after the first goes somewhere behind it. */
  lemma InsertLater<X>(rank: Rank, x: Tagged<X>, first: Tagged<X>, s: seq<Tagged<X>>)
    requires Compare(rank, x.keys, first.keys) == Greater
    ensures Insert(rank, x, [first] + s) == [first] + Insert(rank, x, s)
  {
    assert ([first] + s)[1..] == s;
  }

  lemma {:induction false} FilterInsert<X>(rank: Rank, p: X -> bool, x: Tagged<X>, s: seq<Tagged<X>>)
    requires Lawful(rank.paths) && Sorted(rank, s)
    ensures Filter(p, Insert(rank, x, s)) == if p(x.value) then Insert(rank, x, Filter(p, s)) else Filter(p, s)
  {
    if s == [] {
      FilterCons(p, x, s);
    } else if Compare(rank, x.keys, s[0].keys) != Greater {
      FilterCons(p, x, s);
      LeastStaysLeast(rank, p, x, s);
      InsertFirst(rank, x, Filter(p, s));
    } else {
      var first, tail := s[0], s[1..];
      assert s == [first] + tail;
      FilterInsert(rank, p, x, tail);
      InsertLater(rank, x, first, tail);
      FilterCons(p, first, Insert(rank, x, tail));
      FilterCons(p, first, tail);
      InsertLater(rank, x, first, Filter(p, tail));
    }
  }

  /** Sorting and then dropping values is dropping them and then sorting. */
  lemma {:induction false} SortCommutesWithFilter<X>(rank: Rank, p: X -> bool, s: seq<Tagged<X>>)
    requires Lawful(rank.paths)
    ensures Filter(p, Sort(rank, s)) == Sort(rank, Filter(p, s))
  {
    if s != [] {
      SortCommutesWithFilter(rank, p, s[1..]);
      SortIsSorted(rank, s[1..]);
      FilterInsert(rank, p, s[0], Sort(rank, s[1..]));
      var kept := Filter(p, s[1..]);
      assert ([s[0]] + kept)[1..] == kept;
    }
  }

  // ---------------------------------------------------------------------------
  // The sort looks at the keys only
  // ---------------------------------------------------------------------------

  function Map<X, Y>(f: X -> Y, s: seq<Tagged<X>>): (r: seq<Tagged<Y>>)
    ensures |r| == |s| && forall i :: 0 <= i < |s| ==> r[i] == Tagged(s[i].keys, f(s[i].value))
  {
    seq(|s|, i requires 0 <= i < |s| => Tagged(s[i].keys, f(s[i].value)))
  }

  lemma MapFirst<X, Y>(f: X -> Y, x: Tagged<X>, s: seq<Tagged<X>>)
    ensures Map(f, [x] + s) == [Tagged(x.keys, f(x.value))] + Map(f, s)
  {
  }

  lemma {:induction false} MapInsert<X, Y>(rank: Rank, f: X -> Y, x: Tagged<X>, s: seq<Tagged<X>>)
    ensures Map(f, Insert(rank, x, s)) == Insert(rank, Tagged(x.keys, f(x.value)), Map(f, s))
  {
    if s == [] || Compare(rank, x.keys, s[0].keys) != Greater {
      MapFirst(f, x, s);
    } else {
      MapInsert(rank, f, x, s[1..]);
      assert Map(f, s)[1..] == Map(f, s[1..]);
      MapFirst(f, s[0], Insert(rank, x, s[1..]));
    }
  }

  lemma {:induction false} MapSort<X, Y>(rank: Rank, f: X -> Y, s: seq<Tagged<X>>)
    ensures Map(f, Sort(rank, s)) == Sort(rank, Map(f, s))
  {
    if s != [] {
      MapSort(rank, f, s[1..]);
      MapInsert(rank, f, s[0], Sort(rank, s[1..]));
      assert Map(f, s)[1..] == Map(f, s[1..]);
    }
  }

  /** Without keys nothing moves. */
  lemma {:induction false} SortByNothing<X>(rank: Rank, s: seq<Tagged<X>>)
    requires rank.keys == []
    ensures Sort(rank, s) == s
  {
    if s != [] {
      SortByNothing(rank, s[1..]);
    }
  }

  // ---------------------------------------------------------------------------
  // The sort is the stable one
  // ---------------------------------------------------------------------------

  /** The values that compare equal to `keys`, in order. */
  function Ties<X>(rank: Rank, keys: Keys, s: seq<Tagged<X>>): (r: seq<Tagged<X>>) {
    if s == [] then []
    else if Compare(rank, keys, s[0].keys) == Equal then [s[0]] + Ties(rank, keys, s[1..])
    else Ties(rank, keys, s[1..])
  }

  lemma {:induction false} InsertKeepsTies<X>(rank: Rank, keys: Keys, x: Tagged<X>, s: seq<Tagged<X>>)
    requires Lawful(rank.paths)
    ensures Ties(rank, keys, Insert(rank, x, s)) == Ties(rank, keys, [x] + s)
  {
    assert ([x] + s)[1..] == s;
    if s == [] || Compare(rank, x.keys, s[0].keys) != Greater {
    } else {
      InsertKeepsTies(rank, keys, x, s[1..]);
      var rest := Insert(rank, x, s[1..]);
      assert ([s[0]] + rest)[1..] == rest && ([x] + s[1..])[1..] == s[1..];
      if Compare(rank, keys, x.keys) == Equal && Compare(rank, keys, s[0].keys) == Equal {
        CompareFlips(rank, keys, x.keys);
        CompareChains(rank, x.keys, keys, s[0].keys);
      }
    }
  }

  /** Values that compare equal keep the order they came in, whatever the keys. */
  lemma {:induction false} SortIsStable<X>(rank: Rank, keys: Keys, s: seq<Tagged<X>>)
    requires Lawful(rank.paths)
    ensures Ties(rank, keys, Sort(rank, s)) == Ties(rank, keys, s)
  {
    if s != [] {
      var rest := Sort(rank, s[1..]);
      SortIsStable(rank, keys, s[1..]);
      InsertKeepsTies(rank, keys, s[0], rest);
      assert ([s[0]] + rest)[1..] == rest;
    }
  }

  lemma {:induction false} TiesAreMembers<X>(rank: Rank, keys: Keys, s: seq<Tagged<X>>)
    ensures forall x <- Ties(rank, keys, s) :: x in s && Compare(rank, keys, x.keys) == Equal
    ensures forall x <- s :: Compare(rank, keys, x.keys) == Equal ==> x in Ties(rank, keys, s)
  {
    if s != [] {
      TiesAreMembers(rank, keys, s[1..]);
      assert s == [s[0]] + s[1..];
    }
  }

  ghost predicate SameTies<X>(rank: Rank, a: seq<Tagged<X>>, b: seq<Tagged<X>>) {
    forall keys :: Ties(rank, keys, a) == Ties(rank, keys, b)
  }

  lemma FirstIsLeast<X>(rank: Rank, a: seq<Tagged<X>>, b: seq<Tagged<X>>)
    requires Lawful(rank.paths) && Sorted(rank, b) && SameTies(rank, a, b) && a != []
    ensures b != [] && Compare(rank, b[0].keys, a[0].keys) != Greater
  {
    var k := a[0].keys;
    CompareFlips(rank, k, k);
    TiesAreMembers(rank, k, a);
    TiesAreMembers(rank, k, b);
    assert a[0] in a;
    assert a[0] in Ties(rank, k, b);
    var i :| 0 <= i < |b| && b[i] == a[0];
    if i == 0 {
      CompareFlips(rank, b[0].keys, b[0].keys);
    }
  }

  /** There is only one stable sort: a sorted sequence with the same ties as `s` is the sort of `s`. */
  lemma {:induction false} SortedTiesAreUnique<X>(rank: Rank, a: seq<Tagged<X>>, b: seq<Tagged<X>>)
    requires Lawful(rank.paths) && Sorted(rank, a) && Sorted(rank, b) && SameTies(rank, a, b)
    ensures a == b
  {
    if a == [] {
      if b != [] {
        FirstIsLeast(rank, b, a);
      }
    } else {
      FirstIsLeast(rank, a, b);
      FirstIsLeast(rank, b, a);
      var k := a[0].keys;
      CompareFlips(rank, a[0].keys, b[0].keys);
      CompareFlips(rank, k, k);
      assert Ties(rank, k, a) == Ties(rank, k, b);
      assert Compare(rank, k, b[0].keys) == Equal;
      assert Ties(rank, k, a)[0] == a[0] && Ties(rank, k, b)[0] == b[0];
      forall keys
        ensures Ties(rank, keys, a[1..]) == Ties(rank, keys, b[1..])
      {
        assert Ties(rank, keys, a) == Ties(rank, keys, b);
        var ta, tb := Ties(rank, keys, a[1..]), Ties(rank, keys, b[1..]);
        if Compare(rank, keys, k) == Equal {
          assert ta == ([a[0]] + ta)[1..] && tb == ([b[0]] + tb)[1..];
        }
      }
      SortedTiesAreUnique(rank, a[1..], b[1..]);
    }
  }

  /** What is sorted and keeps the ties of `s` is the sort of `s`. */
  lemma SortIsTheStableSort<X>(rank: Rank, s: seq<Tagged<X>>, r: seq<Tagged<X>>)
    requires Lawful(rank.paths)
    ensures r == Sort(rank, s) <==> Sorted(rank, r) && SameTies(rank, s, r)
  {
    SortIsSorted(rank, s);
    forall keys
      ensures Ties(rank, keys, Sort(rank, s)) == Ties(rank, keys, s)
    {
      SortIsStable(rank, keys, s);
    }
    if Sorted(rank, r) && SameTies(rank, s, r) {
      SortedTiesAreUnique(rank, r, Sort(rank, s));
    }
  }
}
