/** The table of entries and its use order. */
module UseTable {
  import opened Wrappers
  import opened Bytes

  /** Use values stay below 2^62, so that one more still fits 64 bits. */
  const USE_VALUE_LIMIT := 0x4000_0000_0000_0000

  /** What an entry stores besides its key and its recency. */
  datatype Entry =
    Entry(mtime: int, fileSize: nat, hash: Option<string>, version: nat, content: seq<Byte>, encoding: string)

  datatype Row = Row(namespace: string, path: string, entry: Entry, updatedAt: int, lastUsed: int)

  /** The rows by id, and the id the next inserted row takes. */
  datatype Table = Table(rows: map<nat, Row>, nextId: nat)

  /** What the schema guarantees: fresh ids, one row for a namespace and path, use values below the limit. */
  ghost predicate Valid(t: Table) {
    && (forall id <- t.rows :: id < t.nextId && t.rows[id].lastUsed < USE_VALUE_LIMIT)
    && (forall a <- t.rows, b <- t.rows ::
          t.rows[a].namespace == t.rows[b].namespace && t.rows[a].path == t.rows[b].path ==> a == b)
  }

  ghost predicate Has(t: Table, ns: string, id: nat) {
    id in t.rows && t.rows[id].namespace == ns
  }

  // ---------------------------------------------------------------------------
  // ORDER BY last_used_us, id
  // ---------------------------------------------------------------------------

  predicate Before(t: Table, a: nat, b: nat)
    requires a in t.rows && b in t.rows
  {
    t.rows[a].lastUsed < t.rows[b].lastUsed || (t.rows[a].lastUsed == t.rows[b].lastUsed && a < b)
  }

  ghost predicate Sorted(t: Table, ids: seq<nat>) {
    && (forall id <- ids :: id in t.rows)
    && (forall i, j :: 0 <= i < j < |ids| ==> Before(t, ids[i], ids[j]))
  }

  /** `ids` are the rows of a namespace, oldest use first. */
  ghost predicate IsUseOrder(t: Table, ns: string, ids: seq<nat>) {
    Sorted(t, ids) && forall id :: id in ids <==> Has(t, ns, id)
  }

  lemma FirstIsMember(ids: seq<nat>)
    ensures ids != [] ==> ids[0] in ids
  {
  }

  lemma {:induction false} SortedIsUnique(t: Table, a: seq<nat>, b: seq<nat>)
    requires Sorted(t, a) && Sorted(t, b) && forall id :: id in a <==> id in b
    ensures a == b
  {
    if a == [] {
      FirstIsMember(b);
    } else {
      assert a[0] in a && a[0] in b;
      assert b[0] in b && b[0] in a;
      assert a[0] == b[0];
      forall id
        ensures id in a[1..] <==> id in b[1..]
      {
        if id in a[1..] {
          assert id in a && id != a[0];
        }
        if id in b[1..] {
          assert id in b && id != b[0];
        }
      }
      SortedIsUnique(t, a[1..], b[1..]);
    }
  }

  ghost function Insert(t: Table, id: nat, ids: seq<nat>): (r: seq<nat>)
    requires id in t.rows && id !in ids && Sorted(t, ids)
    ensures Sorted(t, r) && forall x :: x in r <==> x == id || x in ids
  {
    if ids == [] || Before(t, id, ids[0]) then [id] + ids
    else
      var inserted := Insert(t, id, ids[1..]);
      assert forall x :: x in ids <==> x == ids[0] || x in ids[1..];
      SortedCons(t, ids[0], inserted);
      [ids[0]] + inserted
  }

  lemma SortedCons(t: Table, id: nat, ids: seq<nat>)
    requires id in t.rows && Sorted(t, ids) && forall x <- ids :: Before(t, id, x)
    ensures Sorted(t, [id] + ids)
  {
  }

  ghost function Sort(t: Table, ids: set<nat>): (r: seq<nat>)
    requires ids <= t.rows.Keys
    ensures Sorted(t, r) && forall id :: id in r <==> id in ids
  {
    if ids == {} then [] else var id :| id in ids; Insert(t, id, Sort(t, ids - {id}))
  }

  ghost function IdsOf(t: Table, ns: string): (ids: set<nat>) {
    set id <- t.rows.Keys | t.rows[id].namespace == ns
  }

  /** The rows of a namespace, oldest use first. */
  ghost function UseOrder(t: Table, ns: string): (ids: seq<nat>)
    ensures IsUseOrder(t, ns, ids)
  {
    Sort(t, IdsOf(t, ns))
  }

  lemma UseOrderIs(t: Table, ns: string, ids: seq<nat>)
    requires IsUseOrder(t, ns, ids)
    ensures UseOrder(t, ns) == ids
  {
    SortedIsUnique(t, UseOrder(t, ns), ids);
  }

  // ---------------------------------------------------------------------------
  // Id lists
  // ---------------------------------------------------------------------------

  /** `ids` without the members of `out`, in order. */
  function Without(ids: seq<nat>, out: set<nat>): (r: seq<nat>)
    ensures forall id :: id in r <==> id in ids && id !in out
  {
    if ids == [] then []
    else
      var rest := Without(ids[1..], out);
      assert forall id :: id in ids <==> id == ids[0] || id in ids[1..];
      if ids[0] in out then rest else [ids[0]] + rest
  }

  lemma {:induction false} WithoutIsSorted(t: Table, ids: seq<nat>, out: set<nat>)
    requires Sorted(t, ids)
    ensures Sorted(t, Without(ids, out))
  {
    if ids != [] {
      WithoutIsSorted(t, ids[1..], out);
      var rest := Without(ids[1..], out);
      forall id | id in rest
        ensures Before(t, ids[0], id)
      {
        assert id in ids[1..];
      }
    }
  }

  lemma {:induction false} WithoutNone(ids: seq<nat>, out: set<nat>)
    requires forall id <- ids :: id !in out
    ensures Without(ids, out) == ids
  {
    if ids != [] {
      WithoutNone(ids[1..], out);
    }
  }

  lemma {:induction false} WithoutAppends(a: seq<nat>, b: seq<nat>, out: set<nat>)
    ensures Without(a + b, out) == Without(a, out) + Without(b, out)
  {
    if a == [] {
      assert a + b == b;
    } else {
      assert (a + b)[1..] == a[1..] + b;
      WithoutAppends(a[1..], b, out);
    }
  }

  /** Without repeats, a list is as long as its set is large. */
  lemma {:induction false} SizeOf(ids: seq<nat>, s: set<nat>)
    requires forall i, j :: 0 <= i < j < |ids| ==> ids[i] != ids[j]
    requires forall id :: id in ids <==> id in s
    ensures |ids| == |s|
  {
    if ids == [] {
      assert s == {};
    } else {
      assert forall id :: id in ids <==> id == ids[0] || id in ids[1..];
      SizeOf(ids[1..], s - {ids[0]});
    }
  }

  // ---------------------------------------------------------------------------
  // The next use value
  // ---------------------------------------------------------------------------

  /** `COALESCE(MAX(last_used_us), 0)` of a namespace. */
  ghost function MaxUse(t: Table, ns: string): (m: int)
    ensures forall id :: Has(t, ns, id) ==> t.rows[id].lastUsed <= m
    ensures (m == 0 && UseOrder(t, ns) == []) || exists id :: Has(t, ns, id) && t.rows[id].lastUsed == m
  {
    var ids := UseOrder(t, ns);
    if ids == [] then 0
    else
      assert ids[|ids| - 1] in ids;
      t.rows[ids[|ids| - 1]].lastUsed
  }

  /** The value a use takes: the clock, unless the namespace is already there, and then the next after its largest. */
  ghost function NextUse(t: Table, ns: string, now: int): (v: int) {
    if now > MaxUse(t, ns) + 1 then now else MaxUse(t, ns) + 1
  }
}
