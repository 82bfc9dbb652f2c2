/** The engine's calls: each is one transaction over the store, and a transaction that fails is rolled back. */
module UseEngine {
  import opened Wrappers
  import opened SealTags
  import opened UseTable
  import opened UseStatements
  import opened UseRefinement
  import opened UseRuns
  import opened UseImport
  import opened UseStore
  import opened UseReports

  /** What a batch reports: how many items it stored, the positions of those it did not, and the paths it evicted. */
  datatype Report = Report(succeeded: nat, failed: seq<nat>, evicted: seq<string>)

  // ---------------------------------------------------------------------------
  // What a call leaves behind
  // ---------------------------------------------------------------------------

  /** `Ok` means the step was taken, `Err` means nothing changed. */
  ghost predicate Committed<T>(before: Table, after: Table, step: Result<Table, StoreError>, r: Result<T, StoreError>) {
    if step.Ok? then r.Ok? && after == step.value else r == Err(step.error) && after == before
  }

  lemma EnforceIsValid(t: Table, ns: string, max: Option<nat>, protected: set<nat>)
    requires Valid(t)
    ensures Valid(EnforceMax(t, ns, max, protected))
  {
  }

  /** With no row too many, enforcing the bound does nothing. */
  lemma EnforceNothing(t: Table, ns: string, max: Option<nat>, protected: set<nat>)
    requires max.Some? ==> |UseOrder(t, ns)| <= max.value
    ensures EnforceMax(t, ns, max, protected) == t && EvictedPaths(t, ns, max, protected) == []
  {
    if max.Some? {
      assert EnforceMax(t, ns, max, protected).rows == t.rows;
    }
  }

  lemma SetIsValid(t: Table, ns: string, max: Option<nat>, op: Op)
    requires Valid(t) && op.Set? && Step(t, ns, max, op).Ok?
    ensures Valid(Step(t, ns, max, op).value)
  {
    var (t1, id) := UseStatements.Upsert(t, ns, op.path, op.entry, op.updatedAt, op.now).value;
    UpsertOrder(t, ns, op.path, op.entry, op.updatedAt, op.now);
    EnforceIsValid(t1, ns, max, {id});
  }

  lemma BatchIsValid(t: Table, ns: string, max: Option<nat>, op: Op)
    requires Valid(t) && op.BatchSet? && Step(t, ns, max, op).Ok?
    ensures Valid(Step(t, ns, max, op).value)
  {
    UpsertAllView(t, ns, Encoded(op.items));
    var (t1, ids) := UpsertAll(t, ns, Encoded(op.items)).value;
    EnforceIsValid(t1, ns, max, Members(ids));
  }

  lemma UseIsValid(t: Table, ns: string, path: string, now: int)
    requires Valid(t)
    ensures var found := Find(t, ns, path);
            found.Some? && UseStatements.RecordUse(t, ns, found.value, now).Ok? ==>
              Valid(UseStatements.RecordUse(t, ns, found.value, now).value)
  {
    var found := Find(t, ns, path);
    if found.Some? && UseStatements.RecordUse(t, ns, found.value, now).Ok? {
      RecordUseOrder(t, ns, found.value, now);
    }
  }

  /** Every call keeps the table valid. */
  lemma StepIsValid(t: Table, ns: string, max: Option<nat>, op: Op)
    requires Valid(t) && Step(t, ns, max, op).Ok?
    ensures Valid(Step(t, ns, max, op).value)
  {
    match op
    case Set(_, _, _, _) => SetIsValid(t, ns, max, op);
    case BatchSet(_) => BatchIsValid(t, ns, max, op);
    case Hit(path, now) => UseIsValid(t, ns, path, now);
    case Touch(path, now) => UseIsValid(t, ns, path, now);
    case Remove(path) =>
      if Find(t, ns, path).Some? {
        DeleteOrder(t, ns, {Find(t, ns, path).value});
      }
  }

  /** What writing `items` gives when `written` are written already. */
  ghost function AfterWriting(t: Table, ns: string, items: seq<BatchItem>, written: seq<nat>):
    (r: Result<(Table, seq<nat>), StoreError>)
    requires forall item <- items :: item.entry.Some?
    ensures items == [] ==> r == Ok((t, written))
  {
    assert written + [] == written;
    var rest := UpsertAll(t, ns, items);
    if rest.Ok? then Ok((rest.value.0, written + rest.value.1)) else Err(rest.error)
  }

  lemma NoneWritten(t: Table, ns: string, items: seq<BatchItem>)
    requires forall item <- items :: item.entry.Some?
    ensures AfterWriting(t, ns, items, []) == UpsertAll(t, ns, items)
  {
    var all := UpsertAll(t, ns, items);
    assert all.Ok? ==> [] + all.value.1 == all.value.1;
  }

  lemma OneWritten(t: Table, ns: string, items: seq<BatchItem>, written: seq<nat>)
    requires Valid(t) && items != [] && forall item <- items :: item.entry.Some?
    ensures var item := items[0];
            var step := UseStatements.Upsert(t, ns, item.path, item.entry.value, item.updatedAt, item.now);
            && (step.Ok? ==> Valid(step.value.0))
            && AfterWriting(t, ns, items, written)
               == if step.Err? then Err(step.error)
                  else AfterWriting(step.value.0, ns, items[1..], written + [step.value.1])
  {
    var item := items[0];
    var step := UseStatements.Upsert(t, ns, item.path, item.entry.value, item.updatedAt, item.now);
    if step.Ok? {
      UpsertOrder(t, ns, item.path, item.entry.value, item.updatedAt, item.now);
      var rest := UpsertAll(step.value.0, ns, items[1..]);
      if rest.Ok? {
        assert written + ([step.value.1] + rest.value.1) == written + [step.value.1] + rest.value.1;
      }
    }
  }

  class Engine {
    const store: Store
    const namespace: string
    const max: Option<nat>
    const keyed: bool
    const readOnly: bool

    constructor (store: Store, namespace: string, max: Option<nat>, keyed: bool, readOnly: bool)
      ensures this.store == store && this.namespace == namespace && this.max == max
      ensures this.keyed == keyed && this.readOnly == readOnly
    {
      this.store, this.namespace, this.max, this.keyed, this.readOnly := store, namespace, max, keyed, readOnly;
    }

    /** `enforce_max_entries`; returns the paths evicted. */
    method EnforceMaxEntries(protected: seq<nat>) returns (evicted: seq<string>)
      modifies store
      ensures store.table == EnforceMax(old(store.table), namespace, max, Members(protected))
      ensures evicted == EvictedPaths(old(store.table), namespace, max, Members(protected))
      ensures Reports(old(store.table), store.table, namespace, evicted)
      ensures |evicted| == |old(store.table).rows| - |store.table.rows|
      ensures forall path :: path in evicted <==> IsGone(old(store.table), store.table, namespace, path)
    {
      EvictionIsReported(store.table, namespace, max, Members(protected));
      ReportIs(store.table, namespace, max, Members(protected));
      if max.None? {
        return [];
      }
      var count := store.Count(namespace);
      if count <= max.value {
        EnforceNothing(store.table, namespace, max, Members(protected));
        return [];
      }
      evicted := store.EvictLru(namespace, count - max.value, protected);
    }

    /** `set`, past the checks of the file and the encoding of the payload; returns the paths evicted. */
    method Set(path: string, entry: Entry, updatedAt: int, now: int) returns (r: Result<seq<string>, StoreError>)
      requires Valid(store.table)
      modifies store
      ensures Valid(store.table)
      ensures if readOnly then r == Err(ReadOnly) && store.table == old(store.table)
              else Committed(old(store.table), store.table,
                             Step(old(store.table), namespace, max, Op.Set(path, entry, updatedAt, now)), r)
      ensures r.Ok? ==>
                var (t, id) := UseStatements.Upsert(old(store.table), namespace, path, entry, updatedAt, now).value;
                r.value == EvictedPaths(t, namespace, max, {id})
      ensures r.Ok? ==>
                && Stores(store.table, namespace, path, entry, updatedAt)
                && ReportsAll(old(store.table), store.table, namespace, r.value)
    {
      if readOnly {
        return Err(ReadOnly);
      }
      ghost var op := Op.Set(path, entry, updatedAt, now);
      if Step(store.table, namespace, max, op).Ok? {
        StepIsValid(store.table, namespace, max, op);
        SetStores(store.table, namespace, max, op);
        SetReports(store.table, namespace, max, op);
      }
      var snapshot := store.table;
      var written := store.Upsert(namespace, path, entry, updatedAt, now);
      if written.Err? {
        store.table := snapshot;
        return Err(written.error);
      }
      assert Members([written.value]) == {written.value};
      var evicted := EnforceMaxEntries([written.value]);
      return Ok(evicted);
    }

    /** `get`: a hit is a use, but only a hit, and a read does not fail because its use could not be recorded. */
    method Get<T>(path: string, now: int, decode: (string, Entry) -> Option<T>)
      returns (r: Result<Option<T>, StoreError>)
      requires Valid(store.table)
      modifies store
      ensures Valid(store.table)
      ensures var found := Find(old(store.table), namespace, path);
              if found.None? then r == Ok(None) && store.table == old(store.table)
              else
                var payload := decode(path, old(store.table).rows[found.value].entry);
                if payload.None? then r == Err(Undecodable) && store.table == old(store.table)
                else
                  && r == Ok(payload)
                  && store.table == if readOnly then old(store.table)
                                    else Step(old(store.table), namespace, max, Hit(path, now)).value
    {
      StepIsValid(store.table, namespace, max, Hit(path, now));
      var found := store.FindFile(namespace, path);
      if found.None? {
        return Ok(None);
      }
      var payload := decode(path, store.table.rows[found.value].entry);
      if payload.None? {
        return Err(Undecodable);
      }
      if !readOnly {
        var _ := store.RecordUse(namespace, found.value, now);
      }
      return Ok(payload);
    }

    /** `touch`; `exists` says whether the file is there. Returns whether an entry was updated. */
    method Touch(path: string, exist: bool, now: int) returns (r: Result<bool, StoreError>)
      requires Valid(store.table)
      modifies store
      ensures Valid(store.table)
      ensures if readOnly then r == Err(ReadOnly) && store.table == old(store.table)
              else if !exist then r == Ok(false) && store.table == old(store.table)
              else Committed(old(store.table), store.table,
                             Step(old(store.table), namespace, max, Op.Touch(path, now)), r)
      ensures r.Ok? && exist ==> r.value == Find(old(store.table), namespace, path).Some?
    {
      if readOnly {
        return Err(ReadOnly);
      }
      if !exist {
        return Ok(false);
      }
      if Step(store.table, namespace, max, Op.Touch(path, now)).Ok? {
        StepIsValid(store.table, namespace, max, Op.Touch(path, now));
      }
      var found := store.FindFile(namespace, path);
      if found.None? {
        return Ok(false);
      }
      var recorded := store.RecordUse(namespace, found.value, now);
      if recorded.Err? {
        return Err(recorded.error);
      }
      return Ok(true);
    }

    /** `remove`; returns whether there was an entry. */
    method Remove(path: string) returns (r: Result<bool, StoreError>)
      requires Valid(store.table)
      modifies store
      ensures Valid(store.table)
      ensures if readOnly then r == Err(ReadOnly) && store.table == old(store.table)
              else Committed(old(store.table), store.table,
                             Step(old(store.table), namespace, max, Op.Remove(path)), r)
      ensures r.Ok? ==> r.value == Find(old(store.table), namespace, path).Some?
    {
      if readOnly {
        return Err(ReadOnly);
      }
      StepIsValid(store.table, namespace, max, Op.Remove(path));
      var found := store.FindFile(namespace, path);
      if found.Some? {
        assert Members([found.value]) == {found.value};
        store.DeleteIds([found.value]);
      }
      return Ok(found.Some?);
    }

    /** Write items in order; on an error the rest are not tried. */
    method WriteAll(items: seq<BatchItem>) returns (r: Result<seq<nat>, StoreError>)
      requires Valid(store.table) && forall item <- items :: item.entry.Some?
      modifies store
      ensures var all := UpsertAll(old(store.table), namespace, items);
              if all.Ok? then r.Ok? && (store.table, r.value) == all.value else r == Err(all.error)
    {
      var written: seq<nat>, i := [], 0;
      assert items[0..] == items;
      NoneWritten(store.table, namespace, items);
      while i < |items|
        invariant i <= |items| && Valid(store.table) && forall item <- items[i..] :: item.entry.Some?
        invariant UpsertAll(old(store.table), namespace, items)
               == AfterWriting(store.table, namespace, items[i..], written)
      {
        var item := items[i];
        assert item in items && items[i..][1..] == items[i + 1..];
        OneWritten(store.table, namespace, items[i..], written);
        var step := store.Upsert(namespace, item.path, item.entry.value, item.updatedAt, item.now);
        if step.Err? {
          return Err(step.error);
        }
        written, i := written + [step.value], i + 1;
      }
      return Ok(written);
    }

    /** `batch_set`, past the checks of the files; an item whose payload cannot be encoded is reported, not written. */
    method BatchSet(items: seq<BatchItem>) returns (r: Result<Report, StoreError>)
      requires Valid(store.table)
      modifies store
      ensures Valid(store.table)
      ensures if readOnly then r == Err(ReadOnly) && store.table == old(store.table)
              else Committed(old(store.table), store.table,
                             Step(old(store.table), namespace, max, Op.BatchSet(items)), r)
      ensures r.Ok? ==>
                var (t, ids) := UpsertAll(old(store.table), namespace, Encoded(items)).value;
                r.value == Report(|Encoded(items)|, FailedFrom(items, 0), EvictedPaths(t, namespace, max, Members(ids)))
      ensures r.Ok? ==>
                && StoresLast(store.table, namespace, items)
                && ReportsAll(old(store.table), store.table, namespace, r.value.evicted)
    {
      if readOnly {
        return Err(ReadOnly);
      }
      if Step(store.table, namespace, max, Op.BatchSet(items)).Ok? {
        StepIsValid(store.table, namespace, max, Op.BatchSet(items));
        BatchReports(store.table, namespace, max, items);
        BatchStoresLast(store.table, namespace, max, items);
      }
      if max.Some? {
        var distinct := set item <- items :: item.path;
        if |distinct| > max.value {
          return Err(TooManyPaths(|distinct|));
        }
      }
      var prepared, failed := Encoded(items), FailedFrom(items, 0);
      var snapshot := store.table;
      var written := WriteAll(prepared);
      if written.Err? {
        store.table := snapshot;
        return Err(written.error);
      }
      var evicted := EnforceMaxEntries(written.value);
      return Ok(Report(|prepared|, failed, evicted));
    }

    /** `import_bounded`; returns the number of records. */
    method ImportBounded(records: seq<Record>) returns (r: Result<nat, StoreError>)
      requires Valid(store.table)
      modifies store
      ensures Valid(store.table)
      ensures if readOnly then r == Err(ReadOnly) && store.table == old(store.table)
              else Committed(old(store.table), store.table,
                             Import(old(store.table), namespace, max, keyed, records), r)
      ensures r.Ok? ==> r.value == |records|
      ensures r.Ok? && keyed ==> forall record <- records :: EndsWith(record.entry.encoding, "-aes256gcm-bound")
      ensures !readOnly && keyed ==>
                (r.Err? && r.error.UnboundRecords? <==>
                   exists record <- records :: !EndsWith(record.entry.encoding, "-aes256gcm-bound"))
      ensures r.Ok? ==> RestoresLast(store.table, namespace, records)
    {
      NoneUnboundIff(records);
      if Import(store.table, namespace, max, keyed, records).Ok? {
        ImportRestoresLast(store.table, namespace, max, keyed, records);
      }
      if readOnly {
        return Err(ReadOnly);
      }
      if records == [] {
        return Ok(0);
      }
      if keyed {
        var unbound := UnboundCount(records);
        if unbound > 0 {
          return Err(UnboundRecords(unbound));
        }
      }
      if exists record <- records :: UseValueOfRecord(record).None? {
        return Err(RecencyOutOfRange);
      }
      if max.Some? {
        var distinct := set record <- records :: record.path;
        if |distinct| > max.value {
          return Err(TooManyPaths(|distinct|));
        }
      }
      var written := store.ImportRows(namespace, records);
      // The recencies are checked above, so nothing is refused half-way and there is nothing to roll back.
      assert written.Ok?;
      EnforceIsValid(store.table, namespace, max, Members(written.value));
      var _ := EnforceMaxEntries(written.value);
      return Ok(|records|);
    }
  }

  /** The positions, from `first` on, of the items whose payloads could not be encoded. */
  function FailedFrom(items: seq<BatchItem>, first: nat): (failed: seq<nat>)
  {
    if items == [] then []
    else if items[0].entry.None? then [first] + FailedFrom(items[1..], first + 1)
    else FailedFrom(items[1..], first + 1)
  }

  /** Every item is either reported or written. */
  lemma {:induction false} FailedCount(items: seq<BatchItem>, first: nat)
    ensures |FailedFrom(items, first)| + |Encoded(items)| == |items|
    decreases |items|
  {
    if items != [] {
      FailedCount(items[1..], first + 1);
    }
  }

  lemma InFront(first: nat, rest: seq<nat>, k: nat)
    ensures k in [first] + rest <==> k == first || k in rest
  {
  }

  /** The payload of item `k` could not be encoded. */
  predicate FailsAt(items: seq<BatchItem>, k: int) {
    0 <= k < |items| && items[k].entry.None?
  }

  lemma FailsLater(items: seq<BatchItem>, k: int)
    requires items != []
    ensures FailsAt(items, k) <==> (k == 0 && items[0].entry.None?) || FailsAt(items[1..], k - 1)
  {
  }

  /** Exactly the items that could not be encoded are reported. */
  lemma {:induction false} FailedAre(items: seq<BatchItem>, first: nat, k: nat)
    ensures k in FailedFrom(items, first) <==> FailsAt(items, k - first)
    decreases |items|
  {
    if items != [] {
      FailedAre(items[1..], first + 1, k);
      FailsLater(items, k - first);
      InFront(first, FailedFrom(items[1..], first + 1), k);
    }
  }

  /** They are reported in the order of the items. */
  lemma {:induction false} FailedAscend(items: seq<BatchItem>, first: nat)
    ensures forall i, j :: 0 <= i < j < |FailedFrom(items, first)| ==>
              FailedFrom(items, first)[i] < FailedFrom(items, first)[j]
    decreases |items|
  {
    if items != [] {
      FailedAscend(items[1..], first + 1);
      var rest := FailedFrom(items[1..], first + 1);
      forall i | 0 <= i < |rest|
        ensures first < rest[i]
      {
        assert rest[i] in rest;
        FailedAre(items[1..], first + 1, rest[i]);
      }
    }
  }
}
