/** What a write stores, and what it reports as evicted, said of the tables before and after. */
module UseReports {
  import opened Wrappers
  import opened UseTable
  import opened UseStatements
  import opened UseEviction
  import opened UseRefinement
  import opened UseRuns
  import opened UseImport
  import opened UseStore

  // ---------------------------------------------------------------------------
  // What is reported as evicted
  // ---------------------------------------------------------------------------

  /** The paths that enforcing the bound evicts, oldest use first. */
  ghost function EvictedPaths(t: Table, ns: string, max: Option<nat>, protected: set<nat>): (paths: seq<string>) {
    match max
    case None => []
    case Some(m) =>
      VictimsAreRows(t, ns, Excess(t, ns, m), protected);
      PathsOf(t, Victims(t, ns, Excess(t, ns, m), protected))
  }

  /** The rows of the namespace that are in `t` and not in `t'`, in use order. */
  ghost predicate Gone(t: Table, t': Table, ns: string, gone: seq<nat>) {
    Sorted(t, gone) && forall id :: id in gone <==> Has(t, ns, id) && id !in t'.rows
  }

  ghost predicate ArePathsOf(t: Table, ids: seq<nat>, paths: seq<string>) {
    |paths| == |ids| && forall i :: 0 <= i < |ids| ==> ids[i] in t.rows && paths[i] == t.rows[ids[i]].path
  }

  /** `paths` are those of the rows of the namespace that are in `t` and gone from `t'`, oldest use first. */
  ghost predicate Reports(t: Table, t': Table, ns: string, paths: seq<string>) {
    exists gone :: Gone(t, t', ns, gone) && ArePathsOf(t, gone, paths)
  }

  /** A row of that path is in `t` and gone from `t'`. */
  ghost predicate IsGone(t: Table, t': Table, ns: string, path: string) {
    exists id :: Has(t, ns, id) && t.rows[id].path == path && id !in t'.rows
  }

  /** Every row that enforcing the bound deletes is reported, once and in order, and no other. */
  lemma EvictionIsReported(t: Table, ns: string, max: Option<nat>, protected: set<nat>)
    ensures Reports(t, EnforceMax(t, ns, max, protected), ns, EvictedPaths(t, ns, max, protected))
  {
    var t', paths := EnforceMax(t, ns, max, protected), EvictedPaths(t, ns, max, protected);
    var gone: seq<nat> := [];
    if max.Some? {
      gone := Victims(t, ns, Excess(t, ns, max.value), protected);
      WithoutIsSorted(t, UseOrder(t, ns), protected);
      VictimsAreRows(t, ns, Excess(t, ns, max.value), protected);
    }
    assert Gone(t, t', ns, gone) && ArePathsOf(t, gone, paths);
  }

  /** A path is reported exactly when a row with it is gone. */
  lemma ReportedIff(t: Table, t': Table, ns: string, paths: seq<string>, path: string)
    requires Reports(t, t', ns, paths)
    ensures path in paths <==> IsGone(t, t', ns, path)
  {
    var gone :| Gone(t, t', ns, gone) && ArePathsOf(t, gone, paths);
    if path in paths {
      var i :| 0 <= i < |paths| && paths[i] == path;
      assert gone[i] in gone;
    }
    if IsGone(t, t', ns, path) {
      var id :| Has(t, ns, id) && t.rows[id].path == path && id !in t'.rows;
      assert id in gone;
      var i :| 0 <= i < |gone| && gone[i] == id;
      assert paths[i] == path;
    }
  }

  /** There are as many reported paths as rows gone. */
  lemma ReportsCount(t: Table, t': Table, ns: string, paths: seq<string>)
    requires Reports(t, t', ns, paths) && t'.rows.Keys <= t.rows.Keys
    requires forall id <- t.rows :: t.rows[id].namespace != ns ==> id in t'.rows
    ensures |paths| == |t.rows| - |t'.rows|
  {
    var gone :| Gone(t, t', ns, gone) && ArePathsOf(t, gone, paths);
    GoneCount(t, t', ns, gone);
    RowsGone(t, t');
  }

  lemma GoneCount(t: Table, t': Table, ns: string, gone: seq<nat>)
    requires Gone(t, t', ns, gone) && forall id <- t.rows :: t.rows[id].namespace != ns ==> id in t'.rows
    ensures |gone| == |t.rows.Keys - t'.rows.Keys|
  {
    SortedHasNoRepeats(t, gone);
    SizeOf(gone, t.rows.Keys - t'.rows.Keys);
  }

  lemma RowsGone(t: Table, t': Table)
    requires t'.rows.Keys <= t.rows.Keys
    ensures |t.rows.Keys - t'.rows.Keys| == |t.rows| - |t'.rows|
  {
    assert t.rows.Keys == t'.rows.Keys + (t.rows.Keys - t'.rows.Keys);
    assert |t.rows| == |t.rows.Keys| && |t'.rows| == |t'.rows.Keys|;
  }

  /** The paths of a namespace. */
  ghost function PathsIn(t: Table, ns: string): (paths: set<string>) {
    set id <- t.rows.Keys | Has(t, ns, id) :: t.rows[id].path
  }

  /** What was there before a call and is gone after it is reported, in use order, and nothing else. */
  ghost predicate ReportsAll(t: Table, t': Table, ns: string, paths: seq<string>) {
    && Reports(t, t', ns, paths)
    && forall path :: path in paths <==> path in PathsIn(t, ns) && path !in PathsIn(t', ns)
  }

  /** Writing keeps the rows there are and their keys, and changes no other row than those written. */
  ghost predicate Keeps(t: Table, t': Table, ns: string, written: set<nat>) {
    && (forall id <- t.rows :: id in t'.rows && SameKey(t.rows[id], t'.rows[id]))
    && (forall id <- t'.rows :: id in written || (id in t.rows && t'.rows[id] == t.rows[id]))
    && (forall id <- written :: Has(t', ns, id))
  }

  /** What writing and then enforcing the bound reports is what was there before and is gone after. */
  lemma WriteReports(t: Table, t1: Table, ns: string, max: Option<nat>, written: set<nat>)
    requires Valid(t1) && Keeps(t, t1, ns, written)
    ensures var t', paths := EnforceMax(t1, ns, max, written), EvictedPaths(t1, ns, max, written);
            ReportsAll(t, t', ns, paths)
  {
    var t', paths := EnforceMax(t1, ns, max, written), EvictedPaths(t1, ns, max, written);
    EvictionIsReported(t1, ns, max, written);
    if max.Some? {
      EvictionIsFair(t1, ns, max.value, written);
    }
    assert Shrinks(t1, t', written);
    ReportsFrom(t, t1, t', ns, written, paths);
    forall path
      ensures path in paths <==> path in PathsIn(t, ns) && path !in PathsIn(t', ns)
    {
      ReportedIff(t, t', ns, paths, path);
      if path in paths {
        GoneIsAbsent(t, t1, t', ns, written, path);
      } else if path in PathsIn(t, ns) && path !in PathsIn(t', ns) {
        AbsentIsGone(t, t', ns, path);
      }
    }
  }

  /** Rows go, none of them protected, and the others stay as they are. */
  ghost predicate Shrinks(t: Table, t': Table, protected: set<nat>) {
    && (forall id <- t'.rows :: id in t.rows && t'.rows[id] == t.rows[id])
    && (forall id <- protected :: id in t.rows ==> id in t'.rows)
  }

  lemma GoneFrom(t: Table, t1: Table, t': Table, ns: string, written: set<nat>, id: nat)
    requires Keeps(t, t1, ns, written) && Shrinks(t1, t', written)
    ensures Has(t1, ns, id) && id !in t'.rows <==> Has(t, ns, id) && id !in t'.rows
    ensures Has(t, ns, id) && id !in t'.rows ==> t1.rows[id] == t.rows[id]
  {
  }

  /** No row written is gone, so the rows gone since before the write are the rows gone since after it. */
  lemma ReportsFrom(t: Table, t1: Table, t': Table, ns: string, written: set<nat>, paths: seq<string>)
    requires Keeps(t, t1, ns, written) && Shrinks(t1, t', written) && Reports(t1, t', ns, paths)
    ensures Reports(t, t', ns, paths)
  {
    var gone :| Gone(t1, t', ns, gone) && ArePathsOf(t1, gone, paths);
    forall id
      ensures id in gone <==> Has(t, ns, id) && id !in t'.rows
      ensures id in gone ==> t1.rows[id] == t.rows[id]
    {
      GoneFrom(t, t1, t', ns, written, id);
    }
    forall i, j | 0 <= i < j < |gone|
      ensures Before(t, gone[i], gone[j])
    {
      assert gone[i] in gone && gone[j] in gone && Before(t1, gone[i], gone[j]);
    }
    assert ArePathsOf(t, gone, paths) by {
      assert forall i :: 0 <= i < |gone| ==> gone[i] in gone;
    }
  }

  /** A path whose row is gone is not there any more: no other row has it. */
  lemma GoneIsAbsent(t: Table, t1: Table, t': Table, ns: string, written: set<nat>, path: string)
    requires Valid(t1) && Keeps(t, t1, ns, written) && Shrinks(t1, t', written)
    requires IsGone(t, t', ns, path)
    ensures path in PathsIn(t, ns) && path !in PathsIn(t', ns)
  {
    var id :| Has(t, ns, id) && t.rows[id].path == path && id !in t'.rows;
    assert id in t1.rows && SameKey(t.rows[id], t1.rows[id]);
    forall other | Has(t', ns, other)
      ensures t'.rows[other].path != path
    {
      assert other in t1.rows && other != id;
    }
  }

  lemma AbsentIsGone(t: Table, t': Table, ns: string, path: string)
    requires path in PathsIn(t, ns) && path !in PathsIn(t', ns)
    requires forall id <- t.rows :: id in t'.rows ==> SameKey(t.rows[id], t'.rows[id])
    ensures IsGone(t, t', ns, path)
  {
    var id :| id in t.rows && Has(t, ns, id) && t.rows[id].path == path;
    PathIsIn(t', ns, id);
  }

  lemma PathIsIn(t: Table, ns: string, id: nat)
    ensures Has(t, ns, id) ==> t.rows[id].path in PathsIn(t, ns)
  {
  }

  /** The number of paths that enforcing the bound reports, and which they are. */
  lemma ReportIs(t: Table, ns: string, max: Option<nat>, protected: set<nat>)
    ensures var t', paths := EnforceMax(t, ns, max, protected), EvictedPaths(t, ns, max, protected);
            && |paths| == |t.rows| - |t'.rows|
            && forall path :: path in paths <==> IsGone(t, t', ns, path)
  {
    var t', paths := EnforceMax(t, ns, max, protected), EvictedPaths(t, ns, max, protected);
    EvictionIsReported(t, ns, max, protected);
    EnforceIsLocal(t, ns, max, protected);
    ReportsCount(t, t', ns, paths);
    forall path
      ensures path in paths <==> IsGone(t, t', ns, path)
    {
      ReportedIff(t, t', ns, paths, path);
    }
  }

  // ---------------------------------------------------------------------------
  // Writing
  // ---------------------------------------------------------------------------

  lemma UpsertKeeps(t: Table, ns: string, path: string, entry: Entry, updatedAt: int, now: int)
    requires Valid(t) && Upsert(t, ns, path, entry, updatedAt, now).Ok?
    ensures var (t', id) := Upsert(t, ns, path, entry, updatedAt, now).value;
            Valid(t') && Keeps(t, t', ns, {id}) && t'.rows[id] == Row(ns, path, entry, updatedAt, NextUse(t, ns, now))
  {
    UpsertOrder(t, ns, path, entry, updatedAt, now);
    WriteIsRow(t, Row(ns, path, entry, updatedAt, NextUse(t, ns, now)));
  }

  lemma WriteIsRow(t: Table, row: Row)
    requires Valid(t)
    ensures var (t', id) := Write(t, row); t'.rows == t.rows[id := row] && (id in t.rows ==> SameKey(t.rows[id], row))
  {
  }

  lemma KeepsChain(t: Table, t1: Table, t2: Table, ns: string, id: nat, ids: seq<nat>)
    requires Keeps(t, t1, ns, {id}) && Keeps(t1, t2, ns, Members(ids))
    ensures Keeps(t, t2, ns, Members([id] + ids))
  {
    assert Members([id] + ids) == {id} + Members(ids);
  }

  lemma {:induction false} UpsertAllKeeps(t: Table, ns: string, items: seq<BatchItem>)
    requires Valid(t) && (forall item <- items :: item.entry.Some?) && UpsertAll(t, ns, items).Ok?
    ensures var (t', ids) := UpsertAll(t, ns, items).value; Valid(t') && Keeps(t, t', ns, Members(ids))
    decreases |items|
  {
    if items != [] {
      var item := items[0];
      UpsertKeeps(t, ns, item.path, item.entry.value, item.updatedAt, item.now);
      var (t1, id) := Upsert(t, ns, item.path, item.entry.value, item.updatedAt, item.now).value;
      UpsertAllKeeps(t1, ns, items[1..]);
      var (t2, ids) := UpsertAll(t1, ns, items[1..]).value;
      KeepsChain(t, t1, t2, ns, id, ids);
    }
  }

  lemma SetReports(t: Table, ns: string, max: Option<nat>, op: Op)
    requires Valid(t) && op.Set? && Step(t, ns, max, op).Ok?
    ensures var t' := Step(t, ns, max, op).value;
            var (t1, id) := Upsert(t, ns, op.path, op.entry, op.updatedAt, op.now).value;
            var paths := EvictedPaths(t1, ns, max, {id});
            ReportsAll(t, t', ns, paths)
  {
    UpsertKeeps(t, ns, op.path, op.entry, op.updatedAt, op.now);
    var (t1, id) := Upsert(t, ns, op.path, op.entry, op.updatedAt, op.now).value;
    WriteReports(t, t1, ns, max, {id});
  }

  lemma BatchReports(t: Table, ns: string, max: Option<nat>, items: seq<BatchItem>)
    requires Valid(t) && Step(t, ns, max, BatchSet(items)).Ok?
    ensures var t' := Step(t, ns, max, BatchSet(items)).value;
            var (t1, ids) := UpsertAll(t, ns, Encoded(items)).value;
            var paths := EvictedPaths(t1, ns, max, Members(ids));
            ReportsAll(t, t', ns, paths)
  {
    UpsertAllKeeps(t, ns, Encoded(items));
    var (t1, ids) := UpsertAll(t, ns, Encoded(items)).value;
    WriteReports(t, t1, ns, max, Members(ids));
  }

  /** The namespace has a row of that path, entry and stamp. */
  ghost predicate Stores(t: Table, ns: string, path: string, entry: Entry, updatedAt: int) {
    exists id ::
      Has(t, ns, id) && t.rows[id].path == path && t.rows[id].entry == entry && t.rows[id].updatedAt == updatedAt
  }

  /** A set that returns `Ok` leaves the entry it was given, stamped as it was told, whatever was there before. */
  lemma SetStores(t: Table, ns: string, max: Option<nat>, op: Op)
    requires Valid(t) && op.Set? && Step(t, ns, max, op).Ok?
    ensures Stores(Step(t, ns, max, op).value, ns, op.path, op.entry, op.updatedAt)
  {
    UpsertKeeps(t, ns, op.path, op.entry, op.updatedAt, op.now);
    var (t1, id) := Upsert(t, ns, op.path, op.entry, op.updatedAt, op.now).value;
    if max.Some? {
      EvictionIsFair(t1, ns, max.value, {id});
    }
    assert Has(EnforceMax(t1, ns, max, {id}), ns, id);
  }

  /** Writes of other paths leave a row alone. */
  lemma {:induction false} UpsertAllSpares(t: Table, ns: string, items: seq<BatchItem>, id: nat)
    requires Valid(t) && (forall item <- items :: item.entry.Some?) && UpsertAll(t, ns, items).Ok?
    requires Has(t, ns, id) && forall item <- items :: item.path != t.rows[id].path
    ensures var t' := UpsertAll(t, ns, items).value.0; id in t'.rows && t'.rows[id] == t.rows[id]
    decreases |items|
  {
    if items != [] {
      var item := items[0];
      assert item in items;
      UpsertKeeps(t, ns, item.path, item.entry.value, item.updatedAt, item.now);
      UpsertAllSpares(Upsert(t, ns, item.path, item.entry.value, item.updatedAt, item.now).value.0, ns, items[1..], id);
    }
  }

  /** Item `i` is written and no later one of its path is. */
  ghost predicate IsLast(items: seq<BatchItem>, i: nat) {
    && i < |items| && items[i].entry.Some?
    && forall j :: i < j < |items| && items[j].entry.Some? ==> items[j].path != items[i].path
  }

  /** The row the last item of a path is written to. */
  lemma {:induction false} LastIsWritten(t: Table, ns: string, items: seq<BatchItem>, i: nat) returns (id: nat)
    requires Valid(t) && UpsertAll(t, ns, Encoded(items)).Ok? && IsLast(items, i)
    ensures var (t', ids) := UpsertAll(t, ns, Encoded(items)).value;
            && id in Members(ids) && Has(t', ns, id) && t'.rows[id].path == items[i].path
            && t'.rows[id].entry == items[i].entry.value && t'.rows[id].updatedAt == items[i].updatedAt
    decreases |items|
  {
    var item, rest := items[0], items[1..];
    if item.entry.None? {
      LastOfRestItems(items, i);
      id := LastIsWritten(t, ns, rest, i - 1);
    } else {
      assert Encoded(items)[1..] == Encoded(rest) && Encoded(items)[0] == item;
      UpsertKeeps(t, ns, item.path, item.entry.value, item.updatedAt, item.now);
      var (t1, first) := Upsert(t, ns, item.path, item.entry.value, item.updatedAt, item.now).value;
      if i == 0 {
        id := first;
        NoneLater(items);
        UpsertAllSpares(t1, ns, Encoded(rest), id);
      } else {
        LastOfRestItems(items, i);
        id := LastIsWritten(t1, ns, rest, i - 1);
      }
    }
  }

  lemma LastOfRestItems(items: seq<BatchItem>, i: nat)
    requires IsLast(items, i) && i > 0
    ensures IsLast(items[1..], i - 1)
  {
    assert forall j :: 0 <= j < |items| - 1 ==> items[1..][j] == items[j + 1];
  }

  lemma NoneLater(items: seq<BatchItem>)
    requires IsLast(items, 0)
    ensures forall item <- Encoded(items[1..]) :: item.path != items[0].path
  {
    forall item | item in Encoded(items[1..])
      ensures item.path != items[0].path
    {
      assert item in items[1..] && item.entry.Some?;
      var j :| 0 <= j < |items[1..]| && items[1..][j] == item;
      assert items[j + 1] == item;
    }
  }

  /** Of every path the last item that could be encoded is there. */
  ghost predicate StoresLast(t: Table, ns: string, items: seq<BatchItem>) {
    forall i: nat :: IsLast(items, i) ==> Stores(t, ns, items[i].path, items[i].entry.value, items[i].updatedAt)
  }

  /** A batch that returns `Ok` leaves of every path the last of its items that could be encoded. */
  lemma BatchStoresLast(t: Table, ns: string, max: Option<nat>, items: seq<BatchItem>)
    requires Valid(t) && Step(t, ns, max, BatchSet(items)).Ok?
    ensures StoresLast(Step(t, ns, max, BatchSet(items)).value, ns, items)
  {
    forall i: nat | IsLast(items, i)
      ensures Stores(Step(t, ns, max, BatchSet(items)).value, ns, items[i].path, items[i].entry.value,
                     items[i].updatedAt)
    {
      BatchStores(t, ns, max, items, i);
    }
  }

  lemma BatchStores(t: Table, ns: string, max: Option<nat>, items: seq<BatchItem>, i: nat)
    requires Valid(t) && Step(t, ns, max, BatchSet(items)).Ok? && IsLast(items, i)
    ensures Stores(Step(t, ns, max, BatchSet(items)).value, ns, items[i].path, items[i].entry.value, items[i].updatedAt)
  {
    var id := LastIsWritten(t, ns, items, i);
    var (t1, ids) := UpsertAll(t, ns, Encoded(items)).value;
    if max.Some? {
      EvictionIsFair(t1, ns, max.value, Members(ids));
    }
    assert Has(EnforceMax(t1, ns, max, Members(ids)), ns, id);
  }

  // ---------------------------------------------------------------------------
  // Importing
  // ---------------------------------------------------------------------------

  /** No later record has the path of record `i`. */
  ghost predicate IsLastRecord(records: seq<Record>, i: nat) {
    i < |records| && forall j :: i < j < |records| ==> records[j].path != records[i].path
  }

  /**
    The namespace has the row of a record: its entry, its stamp, and as its use value the second it was last used in,
    or that of its stamp if it says none, in microseconds.
   */
  ghost predicate Restores(t: Table, ns: string, record: Record) {
    exists id ::
      && Has(t, ns, id) && t.rows[id].path == record.path && t.rows[id].entry == record.entry
      && t.rows[id].updatedAt == record.updatedAt
      && t.rows[id].lastUsed
         == 1_000_000 * (if record.lastAccessed > 0 then record.lastAccessed else record.updatedAt)
  }

  lemma {:induction false} LastIs(records: seq<Record>, i: nat)
    requires IsLastRecord(records, i)
    ensures records[i].path in RecordPaths(records) && Last(records, records[i].path) == records[i]
    decreases |records|
  {
    var path := records[i].path;
    assert records[i] in records;
    if i == 0 {
      forall r | r in records[1..]
        ensures r.path != path
      {
        var j :| 0 <= j < |records[1..]| && records[1..][j] == r;
        assert records[j + 1] == r;
      }
    } else {
      assert forall j :: 0 <= j < |records| - 1 ==> records[1..][j] == records[j + 1];
      LastIs(records[1..], i - 1);
    }
  }

  /** Of every path the last record is there. */
  ghost predicate RestoresLast(t: Table, ns: string, records: seq<Record>) {
    forall i: nat :: IsLastRecord(records, i) ==> Restores(t, ns, records[i])
  }

  /** An import that returns `Ok` leaves of every path its last record, whatever was there before. */
  lemma ImportRestoresLast(t: Table, ns: string, max: Option<nat>, keyed: bool, records: seq<Record>)
    requires Valid(t) && Import(t, ns, max, keyed, records).Ok?
    ensures RestoresLast(Import(t, ns, max, keyed, records).value, ns, records)
  {
    forall i: nat | IsLastRecord(records, i)
      ensures Restores(Import(t, ns, max, keyed, records).value, ns, records[i])
    {
      ImportRestores(t, ns, max, keyed, records, i);
    }
  }

  lemma ImportRestores(t: Table, ns: string, max: Option<nat>, keyed: bool, records: seq<Record>, i: nat)
    requires Valid(t) && Import(t, ns, max, keyed, records).Ok? && IsLastRecord(records, i)
    ensures Restores(Import(t, ns, max, keyed, records).value, ns, records[i])
  {
    LastIs(records, i);
    ImportStores(t, ns, records);
    var (t1, ids) := ImportAll(t, ns, records);
    var id := Find(t1, ns, records[i].path).value;
    if max.Some? {
      EvictionIsFair(t1, ns, max.value, Members(ids));
    }
    assert Has(EnforceMax(t1, ns, max, Members(ids)), ns, id);
  }
}
