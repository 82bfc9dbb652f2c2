/** Every call and every run of calls against the bounded list. */
module UseRuns {
  import opened Wrappers
  import opened UseTable
  import opened UseStatements
  import opened UseEviction
  import opened LruList
  import opened UseRefinement

  // ---------------------------------------------------------------------------
  // Batches
  // ---------------------------------------------------------------------------

  lemma {:induction false} UpsertAllView(t: Table, ns: string, items: seq<BatchItem>)
    requires Valid(t) && (forall item <- items :: item.entry.Some?) && UpsertAll(t, ns, items).Ok?
    ensures var t' := UpsertAll(t, ns, items).value.0;
            Valid(t') && View(t', ns) == PutAll(View(t, ns), ItemsOf(items))
    decreases |items|
  {
    if items != [] {
      var item := items[0];
      UpsertOrder(t, ns, item.path, item.entry.value, item.updatedAt, item.now);
      UpsertView(t, ns, item.path, item.entry.value, item.updatedAt, item.now);
      UpsertAllView(Upsert(t, ns, item.path, item.entry.value, item.updatedAt, item.now).value.0, ns, items[1..]);
      PutAllFirst(View(t, ns), items);
    }
  }

  lemma PutAllFirst(l: seq<Item>, items: seq<BatchItem>)
    requires items != [] && forall item <- items :: item.entry.Some?
    ensures PutAll(l, ItemsOf(items)) == PutAll(Put(l, Item(items[0].path, items[0].entry.value)), ItemsOf(items[1..]))
  {
    assert ItemsOf(items)[1..] == ItemsOf(items[1..]);
  }

  /** The use order falls into rows no write of the batch touched, then exactly the rows it wrote. */
  ghost predicate SplitsAt(t: Table, ns: string, older: seq<nat>, newer: seq<nat>, written: set<nat>,
                           paths: set<string>)
  {
    && UseOrder(t, ns) == older + newer
    && (forall id <- older :: id !in written)
    && (forall id :: id in newer <==> id in written)
    && (forall id <- newer :: id in t.rows && t.rows[id].path in paths)
  }

  lemma SplitMoves(t: Table, t': Table, ns: string, id: nat, row: Row, older: seq<nat>, newer: seq<nat>,
                   written: set<nat>, paths: set<string>)
    requires SplitsAt(t, ns, older, newer, written, paths) && row.path in paths
    requires t'.rows == t.rows[id := row] && UseOrder(t', ns) == Without(UseOrder(t, ns), {id}) + [id]
    ensures SplitsAt(t', ns, Without(older, {id}), Without(newer, {id}) + [id], written + {id}, paths)
  {
    WithoutAppends(older, newer, {id});
    assert Without(older, {id}) + Without(newer, {id}) + [id] == Without(older, {id}) + (Without(newer, {id}) + [id]);
  }

  lemma SplitAfterUpsert(t: Table, ns: string, item: BatchItem, older: seq<nat>, newer: seq<nat>, written: set<nat>,
                         paths: set<string>)
    requires Valid(t) && SplitsAt(t, ns, older, newer, written, paths) && item.path in paths && item.entry.Some?
    requires Upsert(t, ns, item.path, item.entry.value, item.updatedAt, item.now).Ok?
    ensures var (t', id) := Upsert(t, ns, item.path, item.entry.value, item.updatedAt, item.now).value;
            Valid(t') && SplitsAt(t', ns, Without(older, {id}), Without(newer, {id}) + [id], written + {id}, paths)
  {
    var row := Row(ns, item.path, item.entry.value, item.updatedAt, NextUse(t, ns, item.now));
    var (t', id) := Write(t, row);
    UpsertOrder(t, ns, item.path, item.entry.value, item.updatedAt, item.now);
    WriteIsOneRow(t, row);
    SplitMoves(t, t', ns, id, row, older, newer, written, paths);
  }

  lemma {:induction false} UpsertAllSplit(t: Table, ns: string, items: seq<BatchItem>, older: seq<nat>, newer: seq<nat>,
                                          written: set<nat>, paths: set<string>)
    returns (older': seq<nat>, newer': seq<nat>)
    requires Valid(t) && SplitsAt(t, ns, older, newer, written, paths)
    requires (forall item <- items :: item.entry.Some? && item.path in paths) && UpsertAll(t, ns, items).Ok?
    ensures SplitsAt(UpsertAll(t, ns, items).value.0, ns, older', newer',
                     written + Members(UpsertAll(t, ns, items).value.1), paths)
    decreases |items|
  {
    if items == [] {
      older', newer' := older, newer;
      assert written + Members([]) == written;
    } else {
      var item := items[0];
      var first := Upsert(t, ns, item.path, item.entry.value, item.updatedAt, item.now).value;
      SplitAfterUpsert(t, ns, item, older, newer, written, paths);
      older', newer' := UpsertAllSplit(first.0, ns, items[1..], Without(older, {first.1}),
                                       Without(newer, {first.1}) + [first.1], written + {first.1}, paths);
      MembersPrepend(written, first.1, UpsertAll(first.0, ns, items[1..]).value.1);
    }
  }

  lemma MembersPrepend(written: set<nat>, id: nat, ids: seq<nat>)
    ensures written + {id} + Members(ids) == written + Members([id] + ids)
  {
  }

  /** Distinct paths drawn from a set are no more than the set has. */
  lemma {:induction false} DistinctFits(l: seq<Item>, paths: set<string>)
    requires Distinct(l) && forall i :: 0 <= i < |l| ==> l[i].path in paths
    ensures |l| <= |paths|
  {
    if l != [] {
      DistinctFits(l[1..], paths - {l[0].path});
    }
  }

  /** After a batch the rows it wrote are the newest, and there are no more of them than distinct paths. */
  lemma BatchIsNewest(t: Table, ns: string, items: seq<BatchItem>, paths: set<string>)
    returns (older: seq<nat>, newer: seq<nat>)
    requires Valid(t) && (forall item <- items :: item.entry.Some? && item.path in paths) && UpsertAll(t, ns, items).Ok?
    ensures var (t', ids) := UpsertAll(t, ns, items).value;
            SplitsAt(t', ns, older, newer, Members(ids), paths) && |newer| <= |paths|
  {
    assert UseOrder(t, ns) + [] == UseOrder(t, ns);
    older, newer := UpsertAllSplit(t, ns, items, UseOrder(t, ns), [], {}, paths);
    var (t', ids) := UpsertAll(t, ns, items).value;
    assert {} + Members(ids) == Members(ids);
    UpsertAllView(t, ns, items);
    ViewIsDistinct(t', ns);
    ItemsAppend(t', older, newer);
    var l := Items(t', newer);
    forall i, j | 0 <= i < j < |l|
      ensures l[i].path != l[j].path
    {
      assert View(t', ns)[|older| + i] == l[i] && View(t', ns)[|older| + j] == l[j];
    }
    DistinctFits(l, paths);
  }

  lemma EncodedIsIn(items: seq<BatchItem>)
    ensures forall item <- Encoded(items) :: item.path in Paths(items)
  {
  }

  // ---------------------------------------------------------------------------
  // One call
  // ---------------------------------------------------------------------------

  /** A read hit found a use value below the limit. (Every other call fails when there is none.) */
  ghost predicate Recorded(t: Table, ns: string, op: Op) {
    op.Hit? ==> NextUse(t, ns, op.now) < USE_VALUE_LIMIT
  }

  /** `max_entries` of 0 is refused when an engine is opened. */
  predicate ValidMax(max: Option<nat>) {
    max.Some? ==> max.value >= 1
  }

  lemma SetRefines(t: Table, ns: string, max: Option<nat>, op: Op)
    requires Valid(t) && ValidMax(max) && op.Set? && Step(t, ns, max, op).Ok?
    ensures var t' := Step(t, ns, max, op).value;
            Valid(t') && View(t', ns) == Bound(Put(View(t, ns), Item(op.path, op.entry)), max)
  {
    var (t1, id) := Upsert(t, ns, op.path, op.entry, op.updatedAt, op.now).value;
    UpsertOrder(t, ns, op.path, op.entry, op.updatedAt, op.now);
    UpsertView(t, ns, op.path, op.entry, op.updatedAt, op.now);
    EnforceView(t1, ns, max, {id}, Without(UseOrder(t, ns), {id}), [id]);
  }

  lemma BatchRefines(t: Table, ns: string, max: Option<nat>, op: Op)
    requires Valid(t) && ValidMax(max) && op.BatchSet? && Step(t, ns, max, op).Ok?
    ensures var t' := Step(t, ns, max, op).value;
            Valid(t') && View(t', ns) == Bound(PutAll(View(t, ns), ItemsOf(Encoded(op.items))), max)
  {
    EncodedIsIn(op.items);
    UpsertAllView(t, ns, Encoded(op.items));
    var older, newer := BatchIsNewest(t, ns, Encoded(op.items), Paths(op.items));
    var (t1, ids) := UpsertAll(t, ns, Encoded(op.items)).value;
    EnforceView(t1, ns, max, Members(ids), older, newer);
  }

  lemma RemoveRefines(t: Table, ns: string, path: string)
    requires Valid(t)
    ensures var t' := if Find(t, ns, path).None? then t else Delete(t, {Find(t, ns, path).value});
            Valid(t') && View(t', ns) == Drop(View(t, ns), path)
  {
    if Find(t, ns, path).Some? {
      DeleteView(t, ns, Find(t, ns, path).value);
    } else {
      AbsentView(t, ns, path);
    }
  }

  /** A call that returns `Ok` does to the table what it does to the list. */
  lemma StepRefines(t: Table, ns: string, max: Option<nat>, op: Op)
    requires Valid(t) && ValidMax(max) && Recorded(t, ns, op) && Step(t, ns, max, op).Ok?
    ensures var t' := Step(t, ns, max, op).value;
            Valid(t') && View(t', ns) == ListStep(View(t, ns), max, op)
  {
    match op
    case Set(_, _, _, _) => SetRefines(t, ns, max, op);
    case BatchSet(_) => BatchRefines(t, ns, max, op);
    case Hit(path, now) => UseRefines(t, ns, path, now);
    case Touch(path, now) => UseRefines(t, ns, path, now);
    case Remove(path) => RemoveRefines(t, ns, path);
  }

  /** A write that returns `Ok` leaves at most `max` rows, whatever there was before, and itself as the newest. */
  lemma WritesKeepBound(t: Table, ns: string, max: nat, op: Op)
    requires Valid(t) && max >= 1 && (op.Set? || op.BatchSet?) && Step(t, ns, Some(max), op).Ok?
    ensures var l := View(Step(t, ns, Some(max), op).value, ns);
            |l| <= max && (op.Set? ==> l != [] && l[|l| - 1] == Item(op.path, op.entry))
  {
    if op.Set? {
      SetRefines(t, ns, Some(max), op);
      NewestIsKept(View(t, ns), Item(op.path, op.entry), max);
    } else {
      BatchRefines(t, ns, Some(max), op);
    }
  }

  lemma NewestIsKept(l: seq<Item>, item: Item, max: nat)
    requires max >= 1
    ensures var r := Keep(Put(l, item), max); r != [] && r[|r| - 1] == item
  {
  }

  lemma UseRefines(t: Table, ns: string, path: string, now: int)
    requires Valid(t)
    requires Find(t, ns, path).Some? ==> NextUse(t, ns, now) < USE_VALUE_LIMIT
    ensures var t' := if Find(t, ns, path).None? then t else RecordUse(t, ns, Find(t, ns, path).value, now).value;
            Valid(t') && View(t', ns) == Use(View(t, ns), path)
  {
    if Find(t, ns, path).Some? {
      RecordUseOrder(t, ns, Find(t, ns, path).value, now);
      RecordUseView(t, ns, Find(t, ns, path).value, now);
    } else {
      AbsentView(t, ns, path);
    }
  }

  // ---------------------------------------------------------------------------
  // Other namespaces
  // ---------------------------------------------------------------------------

  /** Outside `ns` the two tables have the same rows. */
  ghost predicate SameElsewhere(t: Table, t': Table, ns: string) {
    && (forall id <- t.rows :: t.rows[id].namespace != ns ==> id in t'.rows && t'.rows[id] == t.rows[id])
    && (forall id <- t'.rows :: t'.rows[id].namespace != ns ==> id in t.rows && t'.rows[id] == t.rows[id])
  }

  lemma ElsewhereIsUnchanged(t: Table, t': Table, ns: string, other: string)
    requires SameElsewhere(t, t', ns) && other != ns
    ensures View(t', other) == View(t, other)
  {
    OtherOrderIsUnchanged(t, t', other);
    ItemsAgree(t, t', UseOrder(t, other));
  }

  lemma UpsertIsLocal(t: Table, ns: string, path: string, entry: Entry, updatedAt: int, now: int)
    requires Valid(t) && Upsert(t, ns, path, entry, updatedAt, now).Ok?
    ensures SameElsewhere(t, Upsert(t, ns, path, entry, updatedAt, now).value.0, ns)
  {
  }

  lemma {:induction false} UpsertAllIsLocal(t: Table, ns: string, items: seq<BatchItem>)
    requires Valid(t) && (forall item <- items :: item.entry.Some?) && UpsertAll(t, ns, items).Ok?
    ensures SameElsewhere(t, UpsertAll(t, ns, items).value.0, ns)
    decreases |items|
  {
    if items != [] {
      var item := items[0];
      UpsertIsLocal(t, ns, item.path, item.entry.value, item.updatedAt, item.now);
      UpsertOrder(t, ns, item.path, item.entry.value, item.updatedAt, item.now);
      UpsertAllIsLocal(Upsert(t, ns, item.path, item.entry.value, item.updatedAt, item.now).value.0, ns, items[1..]);
    }
  }

  lemma EnforceIsLocal(t: Table, ns: string, max: Option<nat>, protected: set<nat>)
    ensures SameElsewhere(t, EnforceMax(t, ns, max, protected), ns)
  {
    if max.Some? {
      var open := Without(UseOrder(t, ns), protected);
      assert forall id <- Victims(t, ns, Excess(t, ns, max.value), protected) :: id in open;
    }
  }

  lemma EnforceAfter(t: Table, t1: Table, ns: string, max: Option<nat>, protected: set<nat>)
    requires SameElsewhere(t, t1, ns)
    ensures SameElsewhere(t, EnforceMax(t1, ns, max, protected), ns)
  {
    EnforceIsLocal(t1, ns, max, protected);
  }

  lemma SetDiffersIn(t: Table, ns: string, max: Option<nat>, op: Op)
    requires Valid(t) && op.Set? && Step(t, ns, max, op).Ok?
    ensures SameElsewhere(t, Step(t, ns, max, op).value, ns)
  {
    UpsertIsLocal(t, ns, op.path, op.entry, op.updatedAt, op.now);
    var first := Upsert(t, ns, op.path, op.entry, op.updatedAt, op.now).value;
    EnforceAfter(t, first.0, ns, max, {first.1});
  }

  lemma BatchDiffersIn(t: Table, ns: string, max: Option<nat>, op: Op)
    requires Valid(t) && op.BatchSet? && Step(t, ns, max, op).Ok?
    ensures SameElsewhere(t, Step(t, ns, max, op).value, ns)
  {
    UpsertAllIsLocal(t, ns, Encoded(op.items));
    var all := UpsertAll(t, ns, Encoded(op.items)).value;
    EnforceAfter(t, all.0, ns, max, Members(all.1));
  }

  lemma RecordUseDiffersIn(t: Table, ns: string, path: string, now: int)
    ensures var found := Find(t, ns, path);
            found.Some? && RecordUse(t, ns, found.value, now).Ok? ==>
              SameElsewhere(t, RecordUse(t, ns, found.value, now).value, ns)
  {
  }

  lemma RemoveDiffersIn(t: Table, ns: string, path: string)
    ensures Find(t, ns, path).Some? ==> SameElsewhere(t, Delete(t, {Find(t, ns, path).value}), ns)
  {
  }

  lemma StepDiffersIn(t: Table, ns: string, max: Option<nat>, op: Op)
    requires Valid(t) && Step(t, ns, max, op).Ok?
    ensures SameElsewhere(t, Step(t, ns, max, op).value, ns)
  {
    match op
    case Set(_, _, _, _) => SetDiffersIn(t, ns, max, op);
    case BatchSet(_) => BatchDiffersIn(t, ns, max, op);
    case Hit(path, now) => RecordUseDiffersIn(t, ns, path, now);
    case Touch(path, now) => RecordUseDiffersIn(t, ns, path, now);
    case Remove(path) => RemoveDiffersIn(t, ns, path);
  }

  /** A call touches no other namespace. */
  lemma StepIsLocal(t: Table, ns: string, max: Option<nat>, op: Op, other: string)
    requires Valid(t) && Step(t, ns, max, op).Ok? && other != ns
    ensures View(Step(t, ns, max, op).value, other) == View(t, other)
  {
    StepDiffersIn(t, ns, max, op);
    ElsewhereIsUnchanged(t, Step(t, ns, max, op).value, ns, other);
  }

  // ---------------------------------------------------------------------------
  // Runs
  // ---------------------------------------------------------------------------

  /** A call by an engine of some namespace with some bound. */
  datatype Call = Call(ns: string, max: Option<nat>, op: Op)

  /** A transaction that fails is dropped: the table stays as it was. */
  ghost function Apply(t: Table, call: Call): (t': Table) {
    var r := Step(t, call.ns, call.max, call.op);
    if r.Ok? then r.value else t
  }

  ghost function Run(t: Table, calls: seq<Call>): (t': Table)
    decreases |calls|
  {
    if calls == [] then t else Run(Apply(t, calls[0]), calls[1..])
  }

  /** A call by an engine of any namespace, on the list of `ns`. */
  ghost function ListNext(l: seq<Item>, ns: string, call: Call): (r: seq<Item>) {
    if call.ns == ns then ListStep(l, call.max, call.op) else l
  }

  /** The calls on namespace `ns`, on its list alone. */
  ghost function ListRun(l: seq<Item>, ns: string, calls: seq<Call>): (r: seq<Item>)
    decreases |calls|
  {
    if calls == [] then l
    else ListRun(ListNext(l, ns, calls[0]), ns, calls[1..])
  }

  /** How many use values a call can take. */
  function Uses(op: Op): (n: nat) {
    match op
    case Remove(_) => 0
    case BatchSet(items) => |items|
    case _ => 1
  }

  function AllUses(calls: seq<Call>): (n: nat) {
    if calls == [] then 0 else Uses(calls[0].op) + AllUses(calls[1..])
  }

  /** The clock readings of a call are at most `bound`. Nothing else is said of them: they may repeat or go back. */
  predicate ClocksUpTo(op: Op, bound: int) {
    match op
    case Set(_, _, _, now) => now <= bound
    case Hit(_, now) => now <= bound
    case Touch(_, now) => now <= bound
    case Remove(_) => true
    case BatchSet(items) => forall item <- items :: item.now <= bound
  }

  ghost predicate UsedUpTo(t: Table, bound: int) {
    bound >= 0 && forall id <- t.rows :: t.rows[id].lastUsed <= bound
  }

  lemma NextUseUpTo(t: Table, ns: string, now: int, bound: int)
    requires UsedUpTo(t, bound) && now <= bound
    ensures NextUse(t, ns, now) <= bound + 1
  {
  }

  lemma UpsertUpTo(t: Table, ns: string, path: string, entry: Entry, updatedAt: int, now: int, bound: int)
    requires UsedUpTo(t, bound) && now <= bound && bound + 1 < USE_VALUE_LIMIT
    ensures var r := Upsert(t, ns, path, entry, updatedAt, now); r.Ok? && UsedUpTo(r.value.0, bound + 1)
  {
    NextUseUpTo(t, ns, now, bound);
  }

  lemma {:induction false} UpsertAllUpTo(t: Table, ns: string, items: seq<BatchItem>, bound: int)
    requires UsedUpTo(t, bound) && bound + |items| < USE_VALUE_LIMIT
    requires forall item <- items :: item.entry.Some? && item.now <= bound
    ensures var r := UpsertAll(t, ns, items); r.Ok? && UsedUpTo(r.value.0, bound + |items|)
    decreases |items|
  {
    if items != [] {
      var item := items[0];
      UpsertUpTo(t, ns, item.path, item.entry.value, item.updatedAt, item.now, bound);
      var t1 := Upsert(t, ns, item.path, item.entry.value, item.updatedAt, item.now).value.0;
      UpsertAllUpTo(t1, ns, items[1..], bound + 1);
    }
  }

  lemma {:induction false} EncodedIsNoLonger(items: seq<BatchItem>)
    ensures |Encoded(items)| <= |items|
  {
    if items != [] {
      EncodedIsNoLonger(items[1..]);
    }
  }

  /** With room below the limit no call fails for want of use values, and they grow by at most one for each use. */
  lemma StepUpTo(t: Table, call: Call, bound: int)
    requires Valid(t) && UsedUpTo(t, bound) && ClocksUpTo(call.op, bound) && bound + Uses(call.op) < USE_VALUE_LIMIT
    ensures var r := Step(t, call.ns, call.max, call.op);
            && Recorded(t, call.ns, call.op)
            && (r.Err? ==> call.op.BatchSet? && call.max.Some? && |Paths(call.op.items)| > call.max.value)
            && UsedUpTo(Apply(t, call), bound + Uses(call.op))
  {
    match call.op
    case Set(path, entry, updatedAt, now) => UpsertUpTo(t, call.ns, path, entry, updatedAt, now, bound);
    case Hit(path, now) => NextUseUpTo(t, call.ns, now, bound);
    case Touch(path, now) => NextUseUpTo(t, call.ns, now, bound);
    case Remove(path) =>
    case BatchSet(items) =>
      EncodedIsNoLonger(items);
      UpsertAllUpTo(t, call.ns, Encoded(items), bound);
  }

  /** The call does what it is for: it returns `Ok`, and if it is a read hit its use is recorded. */
  ghost predicate Takes(t: Table, call: Call) {
    Step(t, call.ns, call.max, call.op).Ok? && Recorded(t, call.ns, call.op)
  }

  /** The calls of a run that do. */
  ghost function Took(t: Table, calls: seq<Call>): (r: seq<Call>)
    decreases |calls|
  {
    if calls == [] then []
    else (if Takes(t, calls[0]) then [calls[0]] else []) + Took(Apply(t, calls[0]), calls[1..])
  }

  /** Every other call leaves the table as it was. */
  lemma OthersChangeNothing(t: Table, call: Call)
    ensures Takes(t, call) || Apply(t, call) == t
  {
  }

  /** One call, seen from any namespace. */
  lemma TakenRefines(t: Table, call: Call, ns: string)
    requires Valid(t) && ValidMax(call.max) && Takes(t, call)
    ensures Valid(Apply(t, call))
    ensures View(Apply(t, call), ns) == ListNext(View(t, ns), ns, call)
  {
    StepRefines(t, call.ns, call.max, call.op);
    if call.ns != ns {
      StepIsLocal(t, call.ns, call.max, call.op, ns);
    }
  }

  lemma ListRunOfTook(t: Table, calls: seq<Call>, l: seq<Item>, ns: string)
    requires calls != []
    ensures var next := if Takes(t, calls[0]) then ListNext(l, ns, calls[0]) else l;
            ListRun(l, ns, Took(t, calls)) == ListRun(next, ns, Took(Apply(t, calls[0]), calls[1..]))
  {
    var rest := Took(Apply(t, calls[0]), calls[1..]);
    assert ([calls[0]] + rest)[1..] == rest && [] + rest == rest;
  }

  /**
    Every run, under every clock, whatever the engines of other namespaces do in between: a namespace is the bounded
    list of its own calls, without those that failed, and without read hits that came when no use value was left.
   */
  lemma {:induction false} RunRefines(t: Table, calls: seq<Call>, ns: string)
    requires Valid(t) && forall call <- calls :: ValidMax(call.max)
    ensures Valid(Run(t, calls)) && View(Run(t, calls), ns) == ListRun(View(t, ns), ns, Took(t, calls))
    decreases |calls|
  {
    if calls != [] {
      var call := calls[0];
      if Takes(t, call) {
        TakenRefines(t, call, ns);
      } else {
        OthersChangeNothing(t, call);
      }
      RunRefines(Apply(t, call), calls[1..], ns);
      ListRunOfTook(t, calls, View(t, ns), ns);
    }
  }

  lemma ApplyRefines(t: Table, call: Call, bound: int, ns: string)
    requires Valid(t) && ValidMax(call.max)
    requires UsedUpTo(t, bound) && ClocksUpTo(call.op, bound) && bound + Uses(call.op) < USE_VALUE_LIMIT
    ensures Valid(Apply(t, call)) && UsedUpTo(Apply(t, call), bound + Uses(call.op))
    ensures View(Apply(t, call), ns) == ListNext(View(t, ns), ns, call)
  {
    StepUpTo(t, call, bound);
    if Takes(t, call) {
      TakenRefines(t, call, ns);
    }
  }

  lemma ClocksStayUpTo(op: Op, bound: int, more: int)
    requires ClocksUpTo(op, bound) && bound <= more
    ensures ClocksUpTo(op, more)
  {
  }

  /** None is left out as long as the largest initial value or clock plus the number of uses stays below 2^62. */
  lemma {:induction false} BoundedRunRefines(t: Table, calls: seq<Call>, bound: int, ns: string)
    requires Valid(t) && UsedUpTo(t, bound) && bound + AllUses(calls) < USE_VALUE_LIMIT
    requires forall call <- calls :: ValidMax(call.max) && ClocksUpTo(call.op, bound)
    ensures Valid(Run(t, calls)) && View(Run(t, calls), ns) == ListRun(View(t, ns), ns, calls)
    decreases |calls|
  {
    if calls != [] {
      var more := bound + Uses(calls[0].op);
      ApplyRefines(t, calls[0], bound, ns);
      forall call | call in calls[1..]
        ensures ValidMax(call.max) && ClocksUpTo(call.op, more)
      {
        ClocksStayUpTo(call.op, bound, more);
      }
      BoundedRunRefines(Apply(t, calls[0]), calls[1..], more, ns);
    }
  }

  // ---------------------------------------------------------------------------
  // A batch is a run of sets
  // ---------------------------------------------------------------------------

  function SetOf(ns: string, max: nat, item: BatchItem): (call: Call)
    requires item.entry.Some?
  {
    Call(ns, Some(max), Op.Set(item.path, item.entry.value, item.updatedAt, item.now))
  }

  function Sets(ns: string, max: nat, items: seq<BatchItem>): (calls: seq<Call>)
    requires forall item <- items :: item.entry.Some?
    ensures |calls| == |items|
  {
    seq(|items|, i requires 0 <= i < |items| => SetOf(ns, max, items[i]))
  }

  lemma {:induction false} SetsOnList(l: seq<Item>, ns: string, max: nat, items: seq<BatchItem>)
    requires forall item <- items :: item.entry.Some?
    ensures ListRun(l, ns, Sets(ns, max, items)) == SetAll(l, ItemsOf(items), max)
    decreases |items|
  {
    if items != [] {
      var next := Keep(Put(l, Item(items[0].path, items[0].entry.value)), max);
      assert Sets(ns, max, items)[1..] == Sets(ns, max, items[1..]);
      assert ItemsOf(items)[1..] == ItemsOf(items[1..]);
      SetsOnList(next, ns, max, items[1..]);
    }
  }

  /** The largest use value after a write is the one the write took. */
  lemma MaxAfterUpsert(t: Table, ns: string, path: string, entry: Entry, updatedAt: int, now: int)
    requires Upsert(t, ns, path, entry, updatedAt, now).Ok?
    ensures var (t', id) := Upsert(t, ns, path, entry, updatedAt, now).value;
            Has(t', ns, id) && t'.rows[id].lastUsed == MaxUse(t', ns) == NextUse(t, ns, now)
  {
  }

  /** Eviction leaves the largest use value, as it leaves the row just written. */
  lemma MaxAfterEnforce(t: Table, ns: string, max: nat, id: nat)
    requires Has(t, ns, id) && t.rows[id].lastUsed == MaxUse(t, ns)
    ensures MaxUse(EnforceMax(t, ns, Some(max), {id}), ns) == MaxUse(t, ns)
  {
    EvictionIsFair(t, ns, max, {id});
    var t' := EnforceMax(t, ns, Some(max), {id});
    assert Has(t', ns, id);
    assert forall x :: Has(t', ns, x) ==> Has(t, ns, x);
  }

  /** Where a write has a use value, a set with the bound has it too, and leaves the same largest value. */
  lemma SetIsTaken(t: Table, s: Table, ns: string, max: nat, item: BatchItem)
    requires item.entry.Some? && MaxUse(s, ns) == MaxUse(t, ns)
    requires Upsert(t, ns, item.path, item.entry.value, item.updatedAt, item.now).Ok?
    ensures Takes(s, SetOf(ns, max, item))
    ensures MaxUse(Apply(s, SetOf(ns, max, item)), ns)
         == MaxUse(Upsert(t, ns, item.path, item.entry.value, item.updatedAt, item.now).value.0, ns)
  {
    var (s1, id) := Upsert(s, ns, item.path, item.entry.value, item.updatedAt, item.now).value;
    MaxAfterUpsert(t, ns, item.path, item.entry.value, item.updatedAt, item.now);
    MaxAfterUpsert(s, ns, item.path, item.entry.value, item.updatedAt, item.now);
    MaxAfterEnforce(s1, ns, max, id);
  }

  lemma AllTaken(t: Table, calls: seq<Call>)
    requires calls != [] && Takes(t, calls[0]) && Took(Apply(t, calls[0]), calls[1..]) == calls[1..]
    ensures Took(t, calls) == calls
  {
  }

  /** When a batch has use values for all its items, so have the sets: both take the same ones. */
  lemma {:induction false} SetsAreTaken(t: Table, s: Table, ns: string, max: nat, items: seq<BatchItem>)
    requires (forall item <- items :: item.entry.Some?) && UpsertAll(t, ns, items).Ok? && MaxUse(s, ns) == MaxUse(t, ns)
    ensures Took(s, Sets(ns, max, items)) == Sets(ns, max, items)
    decreases |items|
  {
    if items != [] {
      var item := items[0];
      SetIsTaken(t, s, ns, max, item);
      var t1 := Upsert(t, ns, item.path, item.entry.value, item.updatedAt, item.now).value.0;
      SetsAreTaken(t1, Apply(s, SetOf(ns, max, item)), ns, max, items[1..]);
      assert Sets(ns, max, items)[1..] == Sets(ns, max, items[1..]);
      AllTaken(s, Sets(ns, max, items));
    }
  }

  /**
    A batch that returns `Ok` and whose items were all encoded leaves the same items in the same use order as setting
    them one by one. (An empty batch still evicts down to the bound, and no call does not.)
   */
  lemma BatchIsARunOfSets(t: Table, ns: string, max: nat, items: seq<BatchItem>)
    requires Valid(t) && max >= 1 && items != [] && forall item <- items :: item.entry.Some?
    requires Step(t, ns, Some(max), BatchSet(items)).Ok?
    ensures View(Step(t, ns, Some(max), BatchSet(items)).value, ns) == View(Run(t, Sets(ns, max, items)), ns)
  {
    BatchView(t, ns, max, items);
    SetsView(t, ns, max, items);
    ViewIsDistinct(t, ns);
    SetsFromAnyLength(View(t, ns), ItemsOf(items), max);
  }

  lemma BatchView(t: Table, ns: string, max: nat, items: seq<BatchItem>)
    requires Valid(t) && max >= 1 && forall item <- items :: item.entry.Some?
    requires Step(t, ns, Some(max), BatchSet(items)).Ok?
    ensures UpsertAll(t, ns, items).Ok?
    ensures View(Step(t, ns, Some(max), BatchSet(items)).value, ns) == Keep(PutAll(View(t, ns), ItemsOf(items)), max)
  {
    EncodedIsAll(items);
    BatchRefines(t, ns, Some(max), BatchSet(items));
  }

  lemma SetsView(t: Table, ns: string, max: nat, items: seq<BatchItem>)
    requires Valid(t) && max >= 1 && (forall item <- items :: item.entry.Some?) && UpsertAll(t, ns, items).Ok?
    ensures View(Run(t, Sets(ns, max, items)), ns) == SetAll(View(t, ns), ItemsOf(items), max)
  {
    SetsAreTaken(t, t, ns, max, items);
    RunRefines(t, Sets(ns, max, items), ns);
    SetsOnList(View(t, ns), ns, max, items);
  }

  /** The first write cuts the list to the bound, so it need not be cut before. */
  lemma SetsFromAnyLength(l: seq<Item>, items: seq<Item>, max: nat)
    requires Distinct(l) && max >= 1 && items != []
    ensures SetAll(l, items, max) == Keep(PutAll(l, items), max)
  {
    BatchIsSets(l, items, max);
    KeepBeforePut(l, items[0], max);
  }

  /** Below 2^62 the only batches that are refused are those with more distinct paths than the bound. */
  lemma BatchFits(t: Table, ns: string, max: nat, items: seq<BatchItem>, bound: int)
    requires Valid(t) && UsedUpTo(t, bound) && bound + |items| < USE_VALUE_LIMIT
    requires forall item <- items :: item.now <= bound
    ensures Step(t, ns, Some(max), BatchSet(items)).Ok? <==> |Paths(items)| <= max
  {
    StepUpTo(t, Call(ns, Some(max), BatchSet(items)), bound);
  }

  lemma {:induction false} EncodedIsAll(items: seq<BatchItem>)
    requires forall item <- items :: item.entry.Some?
    ensures Encoded(items) == items
  {
    if items != [] {
      EncodedIsAll(items[1..]);
    }
  }
}
