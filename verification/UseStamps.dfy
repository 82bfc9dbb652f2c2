/** What keeps an export in order: every write is stamped with a second no later than the use it is. */
module UseStamps {
  import opened Wrappers
  import opened UseTable
  import opened UseStatements
  import opened UseRefinement
  import opened UseRuns
  import opened UseImport
  import opened UseEngine

  // ---------------------------------------------------------------------------
  // The invariant
  // ---------------------------------------------------------------------------

  /** A row used before second 1 was written in second 0. */
  predicate StampedRow(row: Row) {
    row.lastUsed < MICROS_PER_SECOND ==> 0 <= row.updatedAt && row.updatedAt * MICROS_PER_SECOND <= row.lastUsed
  }

  ghost predicate Stamped(t: Table) {
    forall id <- t.rows :: StampedRow(t.rows[id])
  }

  /** Of the two readings of the clock in one write the second does not fall to before second 1. */
  predicate InOrder(updatedAt: int, now: int) {
    now < MICROS_PER_SECOND ==> 0 <= updatedAt && updatedAt * MICROS_PER_SECOND <= now
  }

  predicate ClockInOrder(op: Op) {
    match op
    case Set(_, _, updatedAt, now) => InOrder(updatedAt, now)
    case BatchSet(items) => forall item <- items :: InOrder(item.updatedAt, item.now)
    case _ => true
  }

  // ---------------------------------------------------------------------------
  // What keeps it
  // ---------------------------------------------------------------------------

  lemma WriteKeepsStamps(t: Table, row: Row)
    requires Stamped(t) && StampedRow(row)
    ensures Stamped(Write(t, row).0)
  {
  }

  lemma UpsertKeepsStamps(t: Table, ns: string, path: string, entry: Entry, updatedAt: int, now: int)
    requires Stamped(t) && InOrder(updatedAt, now) && Upsert(t, ns, path, entry, updatedAt, now).Ok?
    ensures Stamped(Upsert(t, ns, path, entry, updatedAt, now).value.0)
  {
    WriteKeepsStamps(t, Row(ns, path, entry, updatedAt, NextUse(t, ns, now)));
  }

  /** A use only raises the row it records. */
  lemma RecordUseKeepsStamps(t: Table, ns: string, id: nat, now: int)
    requires Stamped(t) && Has(t, ns, id) && RecordUse(t, ns, id, now).Ok?
    ensures Stamped(RecordUse(t, ns, id, now).value)
  {
    assert t.rows[id].lastUsed <= MaxUse(t, ns);
  }

  lemma EnforceKeepsStamps(t: Table, ns: string, max: Option<nat>, protected: set<nat>)
    requires Stamped(t)
    ensures Stamped(EnforceMax(t, ns, max, protected))
  {
  }

  lemma {:induction false} UpsertAllKeepsStamps(t: Table, ns: string, items: seq<BatchItem>)
    requires Stamped(t) && (forall item <- items :: item.entry.Some? && InOrder(item.updatedAt, item.now))
    requires UpsertAll(t, ns, items).Ok?
    ensures Stamped(UpsertAll(t, ns, items).value.0)
    decreases |items|
  {
    if items != [] {
      var item := items[0];
      UpsertKeepsStamps(t, ns, item.path, item.entry.value, item.updatedAt, item.now);
      var t1 := Upsert(t, ns, item.path, item.entry.value, item.updatedAt, item.now).value.0;
      UpsertAllKeepsStamps(t1, ns, items[1..]);
    }
  }

  lemma SetKeepsStamps(t: Table, ns: string, max: Option<nat>, op: Op)
    requires Stamped(t) && op.Set? && ClockInOrder(op) && Step(t, ns, max, op).Ok?
    ensures Stamped(Step(t, ns, max, op).value)
  {
    UpsertKeepsStamps(t, ns, op.path, op.entry, op.updatedAt, op.now);
    var (t1, id) := Upsert(t, ns, op.path, op.entry, op.updatedAt, op.now).value;
    EnforceKeepsStamps(t1, ns, max, {id});
  }

  lemma BatchKeepsStamps(t: Table, ns: string, max: Option<nat>, op: Op)
    requires Stamped(t) && op.BatchSet? && ClockInOrder(op) && Step(t, ns, max, op).Ok?
    ensures Stamped(Step(t, ns, max, op).value)
  {
    UpsertAllKeepsStamps(t, ns, Encoded(op.items));
    var (t1, ids) := UpsertAll(t, ns, Encoded(op.items)).value;
    EnforceKeepsStamps(t1, ns, max, Members(ids));
  }

  lemma UseKeepsStamps(t: Table, ns: string, path: string, now: int)
    requires Stamped(t)
    ensures var found := Find(t, ns, path);
            found.Some? && RecordUse(t, ns, found.value, now).Ok? ==> Stamped(RecordUse(t, ns, found.value, now).value)
  {
    var found := Find(t, ns, path);
    if found.Some? && RecordUse(t, ns, found.value, now).Ok? {
      RecordUseKeepsStamps(t, ns, found.value, now);
    }
  }

  /** Every call keeps the invariant. */
  lemma StepKeepsStamps(t: Table, ns: string, max: Option<nat>, op: Op)
    requires Stamped(t) && ClockInOrder(op) && Step(t, ns, max, op).Ok?
    ensures Stamped(Step(t, ns, max, op).value)
  {
    match op
    case Set(_, _, _, _) => SetKeepsStamps(t, ns, max, op);
    case BatchSet(_) => BatchKeepsStamps(t, ns, max, op);
    case Hit(path, now) => UseKeepsStamps(t, ns, path, now);
    case Touch(path, now) => UseKeepsStamps(t, ns, path, now);
    case Remove(_) =>
  }

  lemma {:induction false} ImportAllKeepsStamps(t: Table, ns: string, records: seq<Record>)
    requires Stamped(t) && Representable(records)
    ensures Stamped(ImportAll(t, ns, records).0)
    decreases |records|
  {
    if records != [] {
      WriteKeepsStamps(t, Restored(ns, records[0]));
      ImportAllKeepsStamps(Write(t, Restored(ns, records[0])).0, ns, records[1..]);
    }
  }

  /** So does every import, whatever its records say. */
  lemma ImportKeepsStamps(t: Table, ns: string, max: Option<nat>, keyed: bool, records: seq<Record>)
    requires Stamped(t) && Import(t, ns, max, keyed, records).Ok?
    ensures Stamped(Import(t, ns, max, keyed, records).value)
  {
    if records != [] {
      ImportAllKeepsStamps(t, ns, records);
      var (t1, ids) := ImportAll(t, ns, records);
      EnforceKeepsStamps(t1, ns, max, Members(ids));
    }
  }

  // ---------------------------------------------------------------------------
  // Runs of calls and imports
  // ---------------------------------------------------------------------------

  datatype Action = Do(call: Call) | Restore(ns: string, max: Option<nat>, keyed: bool, records: seq<Record>)

  /** A transaction that fails changes nothing. */
  ghost function Act(t: Table, action: Action): (t': Table) {
    match action
    case Do(call) => Apply(t, call)
    case Restore(ns, max, keyed, records) =>
      var r := Import(t, ns, max, keyed, records);
      if r.Ok? then r.value else t
  }

  ghost function Acts(t: Table, actions: seq<Action>): (t': Table)
    decreases |actions|
  {
    if actions == [] then t else Acts(Act(t, actions[0]), actions[1..])
  }

  lemma ActKeepsStamps(t: Table, action: Action)
    requires Stamped(t) && (action.Do? ==> ClockInOrder(action.call.op))
    ensures Stamped(Act(t, action))
  {
    match action
    case Do(call) =>
      if Step(t, call.ns, call.max, call.op).Ok? {
        StepKeepsStamps(t, call.ns, call.max, call.op);
      }
    case Restore(ns, max, keyed, records) =>
      if Import(t, ns, max, keyed, records).Ok? {
        ImportKeepsStamps(t, ns, max, keyed, records);
      }
  }

  /** The invariant holds after every run of calls and imports in any namespaces, however the clock moves otherwise. */
  lemma {:induction false} ActsKeepStamps(t: Table, actions: seq<Action>)
    requires Stamped(t) && forall action <- actions :: action.Do? ==> ClockInOrder(action.call.op)
    ensures Stamped(Acts(t, actions))
    decreases |actions|
  {
    if actions != [] {
      ActKeepsStamps(t, actions[0]);
      ActsKeepStamps(Act(t, actions[0]), actions[1..]);
    }
  }

  lemma ActIsValid(t: Table, action: Action)
    requires Valid(t)
    ensures Valid(Act(t, action))
  {
    match action
    case Do(call) =>
      if Step(t, call.ns, call.max, call.op).Ok? {
        StepIsValid(t, call.ns, call.max, call.op);
      }
    case Restore(ns, max, keyed, records) =>
      if records != [] && Import(t, ns, max, keyed, records).Ok? {
        ImportStores(t, ns, records);
        var (t1, ids) := ImportAll(t, ns, records);
        EnforceIsValid(t1, ns, max, Members(ids));
      }
  }

  lemma {:induction false} ActsAreValid(t: Table, actions: seq<Action>)
    requires Valid(t)
    ensures Valid(Acts(t, actions))
    decreases |actions|
  {
    if actions != [] {
      ActIsValid(t, actions[0]);
      ActsAreValid(Act(t, actions[0]), actions[1..]);
    }
  }

  // ---------------------------------------------------------------------------
  // What it gives
  // ---------------------------------------------------------------------------

  lemma StampedSecond(row: Row)
    requires StampedRow(row) && row.lastUsed < USE_VALUE_LIMIT
    ensures UseValueOfRecord(RecordOf(row)).Some? && Second(RecordOf(row)) == row.lastUsed / MICROS_PER_SECOND
  {
  }

  /** Each record then stands for the very second of its row's last use, so none is refused and they do not go down. */
  lemma StampedExportRises(t: Table, ns: string)
    requires Valid(t) && Stamped(t)
    ensures Representable(Export(t, ns)) && SecondsRise(Export(t, ns))
  {
    var ids, records := UseOrder(t, ns), Export(t, ns);
    forall i | 0 <= i < |ids|
      ensures Second(records[i]) == t.rows[ids[i]].lastUsed / MICROS_PER_SECOND
      ensures UseValueOfRecord(records[i]).Some?
    {
      assert ids[i] in ids && Has(t, ns, ids[i]);
      StampedSecond(t.rows[ids[i]]);
    }
    forall i, j | 0 <= i < j < |ids|
      ensures t.rows[ids[i]].lastUsed <= t.rows[ids[j]].lastUsed
    {
      assert Before(t, ids[i], ids[j]);
    }
  }

  /** A namespace with the invariant is imported whole into an empty one with room, in its eviction order. */
  lemma StampedExportKeepsOrder(t: Table, ns: string, u: Table, ns': string, max: Option<nat>, keyed: bool)
    requires Valid(t) && Stamped(t) && Valid(u) && forall id :: !Has(u, ns', id)
    requires (max.Some? ==> |UseOrder(t, ns)| <= max.value) && (keyed ==> UnboundCount(Export(t, ns)) == 0)
    ensures var r := Import(u, ns', max, keyed, Export(t, ns)); r.Ok? && View(r.value, ns') == View(t, ns)
  {
    StampedExportRises(t, ns);
    PathsAreFew(Export(t, ns));
    ExportImportKeepsOrderIff(t, ns, u, ns', max, keyed);
  }

  /**
    Whatever calls and imports made a store, as long as no write saw its clock fall to before second 1 between its two
    readings, every namespace of it is imported whole into an empty one with room, in its eviction order.
   */
  lemma ReachableExportKeepsOrder(actions: seq<Action>, ns: string, u: Table, ns': string, max: Option<nat>)
    requires forall action <- actions :: action.Do? ==> ClockInOrder(action.call.op)
    requires Valid(u) && forall id :: !Has(u, ns', id)
    requires max.Some? ==> |UseOrder(Acts(Table(map[], 0), actions), ns)| <= max.value
    ensures var t := Acts(Table(map[], 0), actions);
            var r := Import(u, ns', max, false, Export(t, ns)); r.Ok? && View(r.value, ns') == View(t, ns)
  {
    ActsAreValid(Table(map[], 0), actions);
    ActsKeepStamps(Table(map[], 0), actions);
    StampedExportKeepsOrder(Acts(Table(map[], 0), actions), ns, u, ns', max, false);
  }

  // ---------------------------------------------------------------------------
  // What happens without it
  // ---------------------------------------------------------------------------

  /** One write to a new path of an empty namespace, or of one whose uses are all before its clock. */
  lemma NewRow(t: Table, ns: string, path: string, entry: Entry, updatedAt: int, now: int)
    requires Find(t, ns, path).None? && MaxUse(t, ns) + 1 <= now < USE_VALUE_LIMIT
    ensures Apply(t, Call(ns, None, Set(path, entry, updatedAt, now)))
         == Table(t.rows[t.nextId := Row(ns, path, entry, updatedAt, now)], t.nextId + 1)
  {
  }

  /**
    A clock that falls from second 100 to microsecond 5 between its two readings in one write loses the order: the first
    entry exports second 0, so its `updated_at` of 100 stands in, and ranks it above the second, used at second 2.
   */
  lemma OrderCanBeLost(entry: Entry)
    ensures var first := Call("a", None, Set("x", entry, 100, 5));
            var second := Call("a", None, Set("y", entry, 2, 2_000_000));
            var t := Run(Table(map[], 0), [first, second]);
            && !ClockInOrder(first.op) && ClockInOrder(second.op)
            && Valid(t) && UseOrder(t, "a") == [0, 1] && Representable(Export(t, "a")) && !SecondsRise(Export(t, "a"))
  {
    var empty := Table(map[], 0);
    var first := Call("a", None, Set("x", entry, 100, 5));
    var second := Call("a", None, Set("y", entry, 2, 2_000_000));
    var t1 := Table(map[0 := Row("a", "x", entry, 100, 5)], 1);
    var t := Table(map[0 := Row("a", "x", entry, 100, 5), 1 := Row("a", "y", entry, 2, 2_000_000)], 2);
    FirstIsMember(UseOrder(empty, "a"));
    NewRow(empty, "a", "x", entry, 100, 5);
    assert Apply(empty, first).rows == t1.rows;
    assert MaxUse(t1, "a") <= 5;
    NewRow(t1, "a", "y", entry, 2, 2_000_000);
    assert Apply(t1, second).rows == t.rows;
    TwoCalls(empty, first, second);
    LostOrder(entry, t);
    LostExport(entry, t);
  }

  lemma TwoCalls(t: Table, first: Call, second: Call)
    ensures Run(t, [first, second]) == Apply(Apply(t, first), second)
  {
    var t1 := Apply(t, first);
    assert [first, second][1..] == [second] && [second][1..] == [];
    assert Run(t1, [second]) == Run(Apply(t1, second), []);
  }

  lemma LostOrder(entry: Entry, t: Table)
    requires t == Table(map[0 := Row("a", "x", entry, 100, 5), 1 := Row("a", "y", entry, 2, 2_000_000)], 2)
    ensures Valid(t) && UseOrder(t, "a") == [0, 1]
  {
    UseOrderIs(t, "a", [0, 1]);
  }

  lemma LostExport(entry: Entry, t: Table)
    requires t == Table(map[0 := Row("a", "x", entry, 100, 5), 1 := Row("a", "y", entry, 2, 2_000_000)], 2)
    requires UseOrder(t, "a") == [0, 1]
    ensures Representable(Export(t, "a")) && !SecondsRise(Export(t, "a"))
  {
    assert Second(Export(t, "a")[0]) == 100 && Second(Export(t, "a")[1]) == 2;
  }
}
