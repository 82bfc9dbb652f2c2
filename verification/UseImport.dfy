/** Export, and import: a restore that keeps recency, under the bound and the protection a batch has. */
module UseImport {
  import opened Wrappers
  import opened SealTags
  import opened UseTable
  import opened UseStatements
  import opened UseEviction
  import opened LruList
  import opened UseRefinement
  import opened UseRuns

  const MICROS_PER_SECOND := 1_000_000
  const I64_MAX := 0x7FFF_FFFF_FFFF_FFFF

  /** What one entry is exported as. */
  datatype Record = Record(path: string, entry: Entry, updatedAt: int, lastAccessed: int)

  // ---------------------------------------------------------------------------
  // Recency
  // ---------------------------------------------------------------------------

  /** The second a record was last used in. */
  function Second(record: Record): (seconds: int) {
    if record.lastAccessed > 0 then record.lastAccessed else record.updatedAt
  }

  /** `use_value_of_record`, with its checked multiplication. */
  function UseValueOfRecord(record: Record): (v: Option<int>)
    ensures v.Some? <==> 0 <= Second(record) && Second(record) * MICROS_PER_SECOND < USE_VALUE_LIMIT
    ensures v.Some? ==> v.value == Second(record) * MICROS_PER_SECOND
  {
    var seconds := Second(record);
    if seconds < 0 then None
    else if seconds * MICROS_PER_SECOND > I64_MAX then None
    else if seconds * MICROS_PER_SECOND < USE_VALUE_LIMIT then Some(seconds * MICROS_PER_SECOND)
    else None
  }

  ghost predicate Representable(records: seq<Record>) {
    forall r <- records :: UseValueOfRecord(r).Some?
  }

  /** SQL's integer division by 10^6, which truncates toward zero. */
  function WholeSeconds(micros: int): (seconds: int) {
    if micros >= 0 then micros / MICROS_PER_SECOND else -(-micros / MICROS_PER_SECOND)
  }

  // ---------------------------------------------------------------------------
  // Export
  // ---------------------------------------------------------------------------

  function RecordOf(row: Row): (r: Record) {
    Record(row.path, row.entry, row.updatedAt, WholeSeconds(row.lastUsed))
  }

  ghost function Records(t: Table, ids: seq<nat>): (rs: seq<Record>)
    requires forall id <- ids :: id in t.rows
    ensures |rs| == |ids| && forall i :: 0 <= i < |ids| ==> rs[i] == RecordOf(t.rows[ids[i]])
  {
    if ids == [] then []
    else
      assert forall id <- ids[1..] :: id in ids;
      [RecordOf(t.rows[ids[0]])] + Records(t, ids[1..])
  }

  /** `export_entries`: oldest use first. */
  ghost function Export(t: Table, ns: string): (rs: seq<Record>) {
    Records(t, UseOrder(t, ns))
  }

  // ---------------------------------------------------------------------------
  // Import
  // ---------------------------------------------------------------------------

  ghost function RecordPaths(records: seq<Record>): (s: set<string>) {
    set r <- records :: r.path
  }

  function UnboundCount(records: seq<Record>): (n: nat) {
    if records == [] then 0
    else (if ParseTag(records[0].entry.encoding).1.Bound? then 0 else 1) + UnboundCount(records[1..])
  }

  /** The records are counted whose tag is not a bound one, each once. */
  lemma {:induction false} UnboundJoins(a: seq<Record>, b: seq<Record>)
    ensures UnboundCount(a + b) == UnboundCount(a) + UnboundCount(b)
    ensures |a| == 1 ==> UnboundCount(a) == if EndsWith(a[0].entry.encoding, "-aes256gcm-bound") then 0 else 1
  {
    if a == [] {
      assert a + b == b;
    } else {
      assert (a + b)[0] == a[0] && (a + b)[1..] == a[1..] + b;
      UnboundJoins(a[1..], b);
    }
  }

  lemma {:induction false} NoneUnboundIff(records: seq<Record>)
    ensures UnboundCount(records) == 0
       <==> forall record <- records :: EndsWith(record.entry.encoding, "-aes256gcm-bound")
  {
    if records != [] {
      assert records == [records[0]] + records[1..];
      UnboundJoins([records[0]], records[1..]);
      NoneUnboundIff(records[1..]);
    }
  }

  /** The row a record becomes. */
  function Restored(ns: string, record: Record): (row: Row)
    requires UseValueOfRecord(record).Some?
  {
    Row(ns, record.path, record.entry, record.updatedAt, UseValueOfRecord(record).value)
  }

  /** `import_rows_in_tx`: write record after record, and list the rows they went to. */
  ghost function ImportAll(t: Table, ns: string, records: seq<Record>): (r: (Table, seq<nat>))
    requires Representable(records)
    decreases |records|
  {
    if records == [] then (t, [])
    else
      var (t1, id) := Write(t, Restored(ns, records[0]));
      var (t2, ids) := ImportAll(t1, ns, records[1..]);
      (t2, [id] + ids)
  }

  /** `import_bounded`, on an engine that has an encryption key or not. */
  ghost function Import(t: Table, ns: string, max: Option<nat>, keyed: bool, records: seq<Record>):
    (r: Result<Table, StoreError>)
  {
    if records == [] then Ok(t)
    else if keyed && UnboundCount(records) > 0 then Err(UnboundRecords(UnboundCount(records)))
    else if !Representable(records) then Err(RecencyOutOfRange)
    else if max.Some? && |RecordPaths(records)| > max.value then Err(TooManyPaths(|RecordPaths(records)|))
    else
      var (t1, ids) := ImportAll(t, ns, records);
      Ok(EnforceMax(t1, ns, max, Members(ids)))
  }

  // ---------------------------------------------------------------------------
  // What an import stores
  // ---------------------------------------------------------------------------

  /** The last record of a path. */
  ghost function Last(records: seq<Record>, path: string): (r: Record)
    requires path in RecordPaths(records)
    ensures r in records && r.path == path
  {
    if path in RecordPaths(records[1..]) then Last(records[1..], path) else records[0]
  }

  /** Outside `written` the tables agree, and no row changes its key. */
  ghost predicate Differ(t: Table, t': Table, written: set<nat>) {
    && (forall id <- t.rows :: id in t'.rows && SameKey(t.rows[id], t'.rows[id]))
    && (forall id <- t'.rows :: id in written || (id in t.rows && t'.rows[id] == t.rows[id]))
  }

  /** The rows `written` are the rows of the records' paths, and each holds the last record of its path. */
  ghost predicate Holds(t: Table, ns: string, records: seq<Record>, written: set<nat>)
    requires Representable(records)
  {
    && (forall id :: id in written <==> Has(t, ns, id) && t.rows[id].path in RecordPaths(records))
    && (forall id <- written :: t.rows[id] == Restored(ns, Last(records, t.rows[id].path)))
    && (forall path <- RecordPaths(records) :: Find(t, ns, path).Some?)
  }

  predicate SameKey(a: Row, b: Row) {
    a.namespace == b.namespace && a.path == b.path
  }

  lemma FindIs(t: Table, ns: string, id: nat)
    requires Valid(t) && Has(t, ns, id)
    ensures Find(t, ns, t.rows[id].path) == Some(id)
  {
  }

  lemma PathsOfRest(records: seq<Record>)
    requires records != []
    ensures RecordPaths(records) == {records[0].path} + RecordPaths(records[1..])
  {
    assert records == [records[0]] + records[1..];
  }

  lemma StoresOne(t: Table, ns: string, record: Record)
    requires Valid(t) && UseValueOfRecord(record).Some?
    ensures var (t', id) := Write(t, Restored(ns, record));
            Valid(t') && Has(t', ns, id) && t'.rows == t.rows[id := Restored(ns, record)]
            && (id in t.rows ==> SameKey(t.rows[id], t'.rows[id]))
  {
  }

  lemma {:induction false} ImportStores(t: Table, ns: string, records: seq<Record>)
    requires Valid(t) && Representable(records)
    ensures var (t', ids) := ImportAll(t, ns, records);
            Valid(t') && Differ(t, t', Members(ids)) && Holds(t', ns, records, Members(ids))
    decreases |records|
  {
    if records != [] {
      var (t1, id) := Write(t, Restored(ns, records[0]));
      StoresOne(t, ns, records[0]);
      var (t2, ids) := ImportAll(t1, ns, records[1..]);
      ImportStores(t1, ns, records[1..]);
      assert Members([id] + ids) == {id} + Members(ids);
      DifferPrepend(t, t1, t2, id, Members(ids));
      HoldsPrepend(t2, ns, records, id, Members(ids));
    }
  }

  lemma LastOfRest(records: seq<Record>, path: string)
    requires records != []
    ensures path in RecordPaths(records[1..]) ==>
              path in RecordPaths(records) && Last(records, path) == Last(records[1..], path)
    ensures path !in RecordPaths(records[1..]) && path in RecordPaths(records) ==> Last(records, path) == records[0]
  {
    PathsOfRest(records);
  }

  lemma HoldsPrepend(t: Table, ns: string, records: seq<Record>, id: nat, written: set<nat>)
    requires records != [] && Representable(records) && Valid(t) && Holds(t, ns, records[1..], written)
    requires Has(t, ns, id) && t.rows[id].path == records[0].path
    requires id !in written ==> t.rows[id] == Restored(ns, records[0])
    ensures Holds(t, ns, records, {id} + written)
  {
    PathsOfRest(records);
    FindIs(t, ns, id);
    forall x | Has(t, ns, x)
      ensures t.rows[x].path == records[0].path <==> x == id
    {
    }
    forall x | x in {id} + written
      ensures t.rows[x] == Restored(ns, Last(records, t.rows[x].path))
    {
      LastOfRest(records, t.rows[x].path);
    }
  }

  lemma DifferPrepend(t: Table, t1: Table, t2: Table, id: nat, written: set<nat>)
    requires id in t1.rows && t1.rows == t.rows[id := t1.rows[id]]
    requires id in t.rows ==> SameKey(t.rows[id], t1.rows[id])
    requires Differ(t1, t2, written)
    ensures Differ(t, t2, {id} + written)
    ensures id in t2.rows && SameKey(t1.rows[id], t2.rows[id]) && (id !in written ==> t2.rows[id] == t1.rows[id])
  {
  }

  /** Rows of distinct keys drawn from a set of paths are no more than the paths. */
  lemma {:induction false} RowsFit(t: Table, ns: string, ids: set<nat>, paths: set<string>)
    requires Valid(t) && forall id <- ids :: Has(t, ns, id) && t.rows[id].path in paths
    ensures |ids| <= |paths|
    decreases ids
  {
    if ids != {} {
      var id :| id in ids;
      RowsFit(t, ns, ids - {id}, paths - {t.rows[id].path});
    }
  }

  /** The rows an import writes are within the bound that let it start. */
  lemma WrittenFit(t: Table, ns: string, records: seq<Record>)
    requires Valid(t) && Representable(records)
    ensures |Members(ImportAll(t, ns, records).1)| <= |RecordPaths(records)|
  {
    ImportStores(t, ns, records);
    var (t1, ids) := ImportAll(t, ns, records);
    RowsFit(t1, ns, Members(ids), RecordPaths(records));
  }

  /**
    An import that returns `Ok` leaves at most `max` rows, and every record's path with its last record as exported,
    although the import may make those rows the oldest of all.
   */
  lemma ImportKeepsBound(t: Table, ns: string, max: nat, keyed: bool, records: seq<Record>)
    requires Valid(t) && records != [] && Import(t, ns, Some(max), keyed, records).Ok?
    ensures var t' := Import(t, ns, Some(max), keyed, records).value;
            && Valid(t') && |UseOrder(t', ns)| <= max
            && (forall path <- RecordPaths(records) ::
                  var found := Find(t', ns, path);
                  found.Some? && t'.rows[found.value] == Restored(ns, Last(records, path)))
  {
    var (t1, ids) := ImportAll(t, ns, records);
    ImportStores(t, ns, records);
    WrittenFit(t, ns, records);
    EvictionFits(t1, ns, max, Members(ids));
    EvictionIsFair(t1, ns, max, Members(ids));
    var t' := EnforceMax(t1, ns, Some(max), Members(ids));
    forall path | path in RecordPaths(records)
      ensures Find(t', ns, path) == Find(t1, ns, path)
    {
      var id := Find(t1, ns, path).value;
      FindIs(t', ns, id);
    }
  }

  /** An import keeps other namespaces as they are. */
  lemma ImportIsLocal(t: Table, ns: string, max: Option<nat>, keyed: bool, records: seq<Record>, other: string)
    requires Valid(t) && other != ns && Import(t, ns, max, keyed, records).Ok?
    ensures View(Import(t, ns, max, keyed, records).value, other) == View(t, other)
  {
    if records != [] {
      ImportStores(t, ns, records);
      var (t1, ids) := ImportAll(t, ns, records);
      EnforceIsLocal(t1, ns, max, Members(ids));
      ElsewhereIsUnchanged(t, t1, ns, other);
      ElsewhereIsUnchanged(t1, EnforceMax(t1, ns, max, Members(ids)), ns, other);
    }
  }

  // ---------------------------------------------------------------------------
  // Export then import
  // ---------------------------------------------------------------------------

  predicate DistinctPaths(records: seq<Record>) {
    forall i, j :: 0 <= i < j < |records| ==> records[i].path != records[j].path
  }

  /** New rows for records whose paths are not there yet, one id after the other. */
  ghost predicate Appended(t: Table, t': Table, ns: string, records: seq<Record>)
    requires Representable(records)
  {
    && (forall id <- t'.rows :: id < t.nextId ==> id in t.rows)
    && (forall id <- t.rows :: id in t'.rows && t'.rows[id] == t.rows[id])
    && (forall id :: t.nextId <= id < t.nextId + |records| ==>
          id in t'.rows && t'.rows[id] == Restored(ns, records[id - t.nextId]))
    && (forall id <- t'.rows :: id < t.nextId + |records|)
  }

  lemma {:induction false} ImportAppends(t: Table, ns: string, records: seq<Record>)
    requires Valid(t) && Representable(records) && DistinctPaths(records)
    requires forall r <- records :: Find(t, ns, r.path).None?
    ensures Appended(t, ImportAll(t, ns, records).0, ns, records)
    decreases |records|
  {
    if records != [] {
      var t1 := Write(t, Restored(ns, records[0])).0;
      StoresOne(t, ns, records[0]);
      forall i | 1 <= i < |records|
        ensures Find(t1, ns, records[i].path).None?
      {
        assert records[i] in records;
      }
      ImportAppends(t1, ns, records[1..]);
      AppendsPrepend(t, t1, ImportAll(t, ns, records).0, ns, records);
    }
  }

  lemma AppendsPrepend(t: Table, t1: Table, t2: Table, ns: string, records: seq<Record>)
    requires Valid(t) && records != [] && Representable(records)
    requires t1 == Table(t.rows[t.nextId := Restored(ns, records[0])], t.nextId + 1)
    requires Appended(t1, t2, ns, records[1..])
    ensures Appended(t, t2, ns, records)
  {
    assert t.nextId in t1.rows;
    forall id | t.nextId < id < t.nextId + |records|
      ensures id in t2.rows && t2.rows[id] == Restored(ns, records[id - t.nextId])
    {
      assert records[id - t.nextId] == records[1..][id - t1.nextId];
    }
  }

  /** The seconds of the records do not go down. */
  predicate SecondsRise(records: seq<Record>) {
    forall i, j :: 0 <= i < j < |records| ==> Second(records[i]) <= Second(records[j])
  }

  function ListOf(records: seq<Record>): (l: seq<Item>) {
    seq(|records|, i requires 0 <= i < |records| => Item(records[i].path, records[i].entry))
  }

  function Consecutive(first: nat, n: nat): (ids: seq<nat>) {
    seq(n, i requires 0 <= i < n => first + i)
  }

  lemma AppendedIds(t: Table, t': Table, ns: string, records: seq<Record>)
    requires Valid(t) && Representable(records)
    requires (forall id :: !Has(t, ns, id)) && Appended(t, t', ns, records)
    ensures var ids := Consecutive(t.nextId, |records|);
            && (forall id: nat :: id in ids <==> Has(t', ns, id))
            && Items(t', ids) == ListOf(records)
  {
    var ids := Consecutive(t.nextId, |records|);
    forall id: nat
      ensures id in ids <==> Has(t', ns, id)
    {
      if t.nextId <= id < t.nextId + |records| {
        assert ids[id - t.nextId] == id;
      } else {
        assert !Has(t, ns, id);
      }
    }
  }

  /** Rows of one namespace are told apart by their paths. */
  lemma ItemsFixIds(t: Table, ns: string, a: seq<nat>, b: seq<nat>)
    requires Valid(t)
    requires forall id <- a :: id in t.rows && t.rows[id].namespace == ns
    requires forall id <- b :: id in t.rows && t.rows[id].namespace == ns
    requires Items(t, a) == Items(t, b)
    ensures a == b
  {
    assert |a| == |Items(t, a)| == |b|;
    forall i | 0 <= i < |a|
      ensures a[i] == b[i]
    {
      assert a[i] in a && b[i] in b;
      assert Items(t, a)[i].path == t.rows[a[i]].path && Items(t, b)[i].path == t.rows[b[i]].path;
    }
  }

  /** Into an empty namespace, the use order is the order of the records exactly when their seconds do not go down. */
  lemma AppendedOrder(t: Table, t': Table, ns: string, records: seq<Record>)
    requires Valid(t) && Valid(t') && Representable(records)
    requires (forall id :: !Has(t, ns, id)) && Appended(t, t', ns, records)
    ensures View(t', ns) == ListOf(records) <==> SecondsRise(records)
  {
    var ids := Consecutive(t.nextId, |records|);
    AppendedIds(t, t', ns, records);
    ConsecutiveSorted(t, t', ns, records);
    OrderIsIff(t', ns, ids);
  }

  /** Sorted or not, the rows of a namespace list its items in use order exactly when they are sorted. */
  lemma OrderIsIff(t: Table, ns: string, ids: seq<nat>)
    requires Valid(t) && (forall id: nat :: id in ids <==> Has(t, ns, id)) && forall id <- ids :: id in t.rows
    ensures View(t, ns) == Items(t, ids) <==> Sorted(t, ids)
  {
    if Sorted(t, ids) {
      UseOrderIs(t, ns, ids);
    }
    if View(t, ns) == Items(t, ids) {
      ItemsFixIds(t, ns, UseOrder(t, ns), ids);
    }
  }

  /** Two rows are in use order exactly when the seconds of their records do not go down. */
  ghost predicate PairAgrees(t: Table, ids: seq<nat>, records: seq<Record>, i: nat, j: nat)
    requires i < j < |records| == |ids|
  {
    && ids[i] in t.rows && ids[j] in t.rows
    && (Before(t, ids[i], ids[j]) <==> Second(records[i]) <= Second(records[j]))
  }

  lemma AppendedPair(t: Table, t': Table, ns: string, records: seq<Record>, i: nat, j: nat)
    requires Representable(records) && Appended(t, t', ns, records) && i < j < |records|
    ensures PairAgrees(t', Consecutive(t.nextId, |records|), records, i, j)
  {
    assert records[i] in records && records[j] in records;
  }

  lemma PairsSorted(t: Table, ids: seq<nat>, records: seq<Record>)
    requires |ids| == |records| && forall id <- ids :: id in t.rows
    requires forall i, j :: 0 <= i < j < |ids| ==> PairAgrees(t, ids, records, i, j)
    ensures Sorted(t, ids) <==> SecondsRise(records)
  {
    if Sorted(t, ids) {
      forall i, j | 0 <= i < j < |records|
        ensures Second(records[i]) <= Second(records[j])
      {
        assert PairAgrees(t, ids, records, i, j) && Before(t, ids[i], ids[j]);
      }
    }
    if SecondsRise(records) {
      forall i, j | 0 <= i < j < |ids|
        ensures Before(t, ids[i], ids[j])
      {
        assert PairAgrees(t, ids, records, i, j) && Second(records[i]) <= Second(records[j]);
      }
    }
  }

  lemma ConsecutiveSorted(t: Table, t': Table, ns: string, records: seq<Record>)
    requires Representable(records) && Appended(t, t', ns, records)
    ensures Sorted(t', Consecutive(t.nextId, |records|)) <==> SecondsRise(records)
  {
    var ids := Consecutive(t.nextId, |records|);
    forall i, j | 0 <= i < j < |ids|
      ensures PairAgrees(t', ids, records, i, j)
    {
      AppendedPair(t, t', ns, records, i, j);
    }
    PairsSorted(t', ids, records);
  }

  /** A namespace and its export list the same items, and its paths are distinct. */
  lemma ExportIsView(t: Table, ns: string)
    requires Valid(t)
    ensures ListOf(Export(t, ns)) == View(t, ns) && DistinctPaths(Export(t, ns))
  {
    ViewIsDistinct(t, ns);
    assert forall i :: 0 <= i < |View(t, ns)| ==> View(t, ns)[i].path == Export(t, ns)[i].path;
  }

  /**
    Export then import: into an empty namespace with room, an import that is not refused keeps the eviction order
    exactly when the seconds the records stand for do not go down.
   */
  lemma ExportImportKeepsOrderIff(t: Table, ns: string, u: Table, ns': string, max: Option<nat>, keyed: bool)
    requires Valid(t) && Valid(u) && forall id :: !Has(u, ns', id)
    requires max.Some? ==> |UseOrder(t, ns)| <= max.value
    requires Import(u, ns', max, keyed, Export(t, ns)).Ok?
    ensures var u' := Import(u, ns', max, keyed, Export(t, ns)).value;
            View(u', ns') == View(t, ns) <==> SecondsRise(Export(t, ns))
  {
    ExportIsView(t, ns);
    ImportIntoEmpty(u, ns', max, keyed, Export(t, ns));
  }

  lemma ImportIntoEmpty(t: Table, ns: string, max: Option<nat>, keyed: bool, records: seq<Record>)
    requires Valid(t) && DistinctPaths(records) && Import(t, ns, max, keyed, records).Ok?
    requires (forall id :: !Has(t, ns, id)) && (max.Some? ==> |records| <= max.value)
    ensures View(Import(t, ns, max, keyed, records).value, ns) == ListOf(records) <==> SecondsRise(records)
  {
    if records == [] {
      FirstIsMember(UseOrder(t, ns));
    } else {
      var (t1, ids) := ImportAll(t, ns, records);
      ImportStores(t, ns, records);
      ImportAppends(t, ns, records);
      AppendedOrder(t, t1, ns, records);
      NothingToEvict(t, t1, ns, records, max, Members(ids));
    }
  }

  lemma NothingToEvict(t: Table, t': Table, ns: string, records: seq<Record>, max: Option<nat>, protected: set<nat>)
    requires Valid(t) && Valid(t') && Representable(records)
    requires (forall id :: !Has(t, ns, id)) && Appended(t, t', ns, records)
    requires max.Some? ==> |records| <= max.value
    ensures View(EnforceMax(t', ns, max, protected), ns) == View(t', ns)
  {
    AppendedIds(t, t', ns, records);
    var order, ids := UseOrder(t', ns), Consecutive(t.nextId, |records|);
    SortedHasNoRepeats(t', order);
    NoRepeatsFit(order, ids);
    if max.Some? {
      var kept := EnforceMax(t', ns, max, protected);
      assert kept.rows == t'.rows;
    }
  }

  lemma {:induction false} NoRepeatsFit(a: seq<nat>, b: seq<nat>)
    requires (forall i, j :: 0 <= i < j < |a| ==> a[i] != a[j]) && forall id <- a :: id in b
    ensures |a| <= |b|
  {
    if a != [] {
      assert a[0] in a;
      var k :| 0 <= k < |b| && b[k] == a[0];
      var rest := b[..k] + b[k + 1..];
      forall id | id in a[1..]
        ensures id in rest
      {
        assert id in a;
        var j :| 0 <= j < |b| && b[j] == id;
        assert id == if j < k then rest[j] else rest[j - 1];
      }
      NoRepeatsFit(a[1..], rest);
    }
  }

  /** A row used before second 1 is exported with its `updated_at` in its stead. */
  predicate Exportable(row: Row) {
    row.lastUsed < MICROS_PER_SECOND ==> 0 <= row.updatedAt && row.updatedAt * MICROS_PER_SECOND < USE_VALUE_LIMIT
  }

  lemma RowIsExportable(row: Row)
    requires row.lastUsed < USE_VALUE_LIMIT
    ensures UseValueOfRecord(RecordOf(row)).Some? <==> Exportable(row)
  {
  }

  /** An export is refused for its recency exactly when a row used before second 1 has an `updated_at` out of range. */
  lemma ExportIsAcceptedIff(t: Table, ns: string)
    requires Valid(t)
    ensures Representable(Export(t, ns)) <==> forall id :: Has(t, ns, id) ==> Exportable(t.rows[id])
  {
    var ids, records := UseOrder(t, ns), Export(t, ns);
    forall i | 0 <= i < |ids|
      ensures Has(t, ns, ids[i]) && records[i] in records
      ensures UseValueOfRecord(records[i]).Some? <==> Exportable(t.rows[ids[i]])
    {
      assert ids[i] in ids && Has(t, ns, ids[i]);
      RowIsExportable(t.rows[ids[i]]);
    }
    forall id | Has(t, ns, id)
      ensures exists i :: 0 <= i < |ids| && ids[i] == id
    {
      assert id in ids;
    }
  }

  /** When every use value is at least one second, the exported seconds do not go down and no record is refused. */
  lemma UsedEntriesRise(t: Table, ns: string)
    requires Valid(t) && forall id :: Has(t, ns, id) ==> t.rows[id].lastUsed >= MICROS_PER_SECOND
    ensures SecondsRise(Export(t, ns)) && Representable(Export(t, ns))
  {
    var ids, records := UseOrder(t, ns), Export(t, ns);
    forall i | 0 <= i < |ids|
      ensures Second(records[i]) == t.rows[ids[i]].lastUsed / MICROS_PER_SECOND
      ensures UseValueOfRecord(records[i]).Some?
    {
      assert ids[i] in ids && Has(t, ns, ids[i]);
    }
    forall i, j | 0 <= i < j < |ids|
      ensures t.rows[ids[i]].lastUsed <= t.rows[ids[j]].lastUsed
    {
      assert Before(t, ids[i], ids[j]);
    }
  }

  /** A namespace whose use values are all at least one second is imported whole, in its eviction order. */
  lemma UsedEntriesKeepOrder(t: Table, ns: string, u: Table, ns': string, max: Option<nat>, keyed: bool)
    requires Valid(t) && forall id :: Has(t, ns, id) ==> t.rows[id].lastUsed >= MICROS_PER_SECOND
    requires Valid(u) && forall id :: !Has(u, ns', id)
    requires (max.Some? ==> |UseOrder(t, ns)| <= max.value) && (keyed ==> UnboundCount(Export(t, ns)) == 0)
    ensures var r := Import(u, ns', max, keyed, Export(t, ns)); r.Ok? && View(r.value, ns') == View(t, ns)
  {
    UsedEntriesRise(t, ns);
    PathsAreFew(Export(t, ns));
    ExportImportKeepsOrderIff(t, ns, u, ns', max, keyed);
  }

  lemma {:induction false} PathsAreFew(records: seq<Record>)
    ensures |RecordPaths(records)| <= |records|
  {
    if records != [] {
      PathsAreFew(records[1..]);
      PathsOfRest(records);
    }
  }
}
