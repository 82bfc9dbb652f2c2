/** The store refines the bounded list: every operation, every run, every clock. */
module UseRefinement {
  import opened Wrappers
  import opened UseTable
  import opened UseStatements
  import opened UseEviction
  import opened LruList

  // ---------------------------------------------------------------------------
  // The list a table stands for
  // ---------------------------------------------------------------------------

  ghost function Items(t: Table, ids: seq<nat>): (l: seq<Item>)
    requires forall id <- ids :: id in t.rows
    ensures |l| == |ids|
    ensures forall i :: 0 <= i < |ids| ==> l[i] == Item(t.rows[ids[i]].path, t.rows[ids[i]].entry)
  {
    if ids == [] then []
    else
      assert forall id <- ids[1..] :: id in ids;
      [Item(t.rows[ids[0]].path, t.rows[ids[0]].entry)] + Items(t, ids[1..])
  }

  /** A namespace as a list, oldest use first. */
  ghost function View(t: Table, ns: string): (l: seq<Item>) {
    Items(t, UseOrder(t, ns))
  }

  lemma ViewIsDistinct(t: Table, ns: string)
    requires Valid(t)
    ensures Distinct(View(t, ns))
  {
    var ids := UseOrder(t, ns);
    forall i, j | 0 <= i < j < |ids|
      ensures View(t, ns)[i].path != View(t, ns)[j].path
    {
      assert ids[i] in ids && ids[j] in ids && Before(t, ids[i], ids[j]);
    }
  }

  lemma {:induction false} ItemsDrop(t: Table, ids: seq<nat>, out: set<nat>, path: string)
    requires forall id <- ids :: id in t.rows && (id in out <==> t.rows[id].path == path)
    ensures Items(t, Without(ids, out)) == Drop(Items(t, ids), path)
  {
    if ids != [] {
      assert forall id <- ids[1..] :: id in ids;
      ItemsDrop(t, ids[1..], out, path);
      assert Items(t, ids)[1..] == Items(t, ids[1..]);
      if ids[0] !in out {
        var kept := Without(ids[1..], out);
        assert ([ids[0]] + kept)[1..] == kept;
      }
    }
  }

  lemma ItemsAgree(t: Table, t': Table, ids: seq<nat>)
    requires forall id <- ids :: id in t.rows && id in t'.rows
    requires forall id <- ids :: t'.rows[id].path == t.rows[id].path && t'.rows[id].entry == t.rows[id].entry
    ensures Items(t', ids) == Items(t, ids)
  {
  }

  lemma ItemsAppend(t: Table, a: seq<nat>, b: seq<nat>)
    requires forall id <- a + b :: id in t.rows
    ensures (forall id <- a :: id in t.rows) && (forall id <- b :: id in t.rows)
    ensures Items(t, a + b) == Items(t, a) + Items(t, b)
  {
    assert forall id <- a :: id in a + b;
    assert forall id <- b :: id in a + b;
  }

  // ---------------------------------------------------------------------------
  // Operations
  // ---------------------------------------------------------------------------

  /** One item of a batch, past the checks of its file; `entry` is `None` if its payload cannot be encoded. */
  datatype BatchItem = BatchItem(path: string, entry: Option<Entry>, updatedAt: int, now: int)

  datatype Op =
    | Set(path: string, entry: Entry, updatedAt: int, now: int)
    | Hit(path: string, now: int)
    | Touch(path: string, now: int)
    | Remove(path: string)
    | BatchSet(items: seq<BatchItem>)

  ghost function Paths(items: seq<BatchItem>): (s: set<string>) {
    set item <- items :: item.path
  }

  function Encoded(items: seq<BatchItem>): (r: seq<BatchItem>)
    ensures forall item <- r :: item in items && item.entry.Some?
  {
    if items == [] then []
    else
      assert forall item <- items[1..] :: item in items;
      if items[0].entry.Some? then [items[0]] + Encoded(items[1..]) else Encoded(items[1..])
  }

  /** Write the items one after the other; returns the ids written. */
  ghost function UpsertAll(t: Table, ns: string, items: seq<BatchItem>): (r: Result<(Table, seq<nat>), StoreError>)
    requires forall item <- items :: item.entry.Some?
    decreases |items|
  {
    if items == [] then Ok((t, []))
    else
      var item := items[0];
      var (t1, id) :- Upsert(t, ns, item.path, item.entry.value, item.updatedAt, item.now);
      var (t2, ids) :- UpsertAll(t1, ns, items[1..]);
      Ok((t2, [id] + ids))
  }

  /** One call on a namespace with the bound `max`. An error leaves the table as it was. */
  ghost function Step(t: Table, ns: string, max: Option<nat>, op: Op): (r: Result<Table, StoreError>) {
    match op
    case Set(path, entry, updatedAt, now) =>
      var (t1, id) :- Upsert(t, ns, path, entry, updatedAt, now);
      Ok(EnforceMax(t1, ns, max, {id}))
    case Hit(path, now) =>
      // A read never fails for want of recording the use.
      var r := (match Find(t, ns, path) case None => Ok(t) case Some(id) => RecordUse(t, ns, id, now));
      Ok(if r.Ok? then r.value else t)
    case Touch(path, now) =>
      (match Find(t, ns, path) case None => Ok(t) case Some(id) => RecordUse(t, ns, id, now))
    case Remove(path) =>
      Ok(match Find(t, ns, path) case None => t case Some(id) => Delete(t, {id}))
    case BatchSet(items) =>
      if max.Some? && |Paths(items)| > max.value then Err(TooManyPaths(|Paths(items)|))
      else
        var (t1, ids) :- UpsertAll(t, ns, Encoded(items));
        Ok(EnforceMax(t1, ns, max, Members(ids)))
  }

  function ItemsOf(items: seq<BatchItem>): (l: seq<Item>)
    requires forall item <- items :: item.entry.Some?
  {
    seq(|items|, i requires 0 <= i < |items| => Item(items[i].path, items[i].entry.value))
  }

  function Bound(l: seq<Item>, max: Option<nat>): (r: seq<Item>) {
    match max case None => l case Some(m) => Keep(l, m)
  }

  /** The same call on the list. */
  ghost function ListStep(l: seq<Item>, max: Option<nat>, op: Op): (r: seq<Item>) {
    match op
    case Set(path, entry, _, _) => Bound(Put(l, Item(path, entry)), max)
    case Hit(path, _) => Use(l, path)
    case Touch(path, _) => Use(l, path)
    case Remove(path) => Drop(l, path)
    case BatchSet(items) =>
      if max.Some? && |Paths(items)| > max.value then l else Bound(PutAll(l, ItemsOf(Encoded(items))), max)
  }

  // ---------------------------------------------------------------------------
  // Each statement on the list
  // ---------------------------------------------------------------------------

  /** A row that moves to the end of the order moves to the end of the list. */
  lemma ItemsOfNewest(t: Table, t': Table, order: seq<nat>, id: nat, path: string)
    requires forall x <- order :: x in t.rows && (x in {id} <==> t.rows[x].path == path)
    requires forall x <- order :: x != id ==> x in t'.rows && t'.rows[x] == t.rows[x]
    requires id in t'.rows
    ensures forall x <- Without(order, {id}) + [id] :: x in t'.rows
    ensures Items(t', Without(order, {id}) + [id])
         == Drop(Items(t, order), path) + [Item(t'.rows[id].path, t'.rows[id].entry)]
  {
    var others := Without(order, {id});
    ItemsDrop(t, order, {id}, path);
    ItemsAppend(t', others, [id]);
    ItemsAgree(t, t', others);
  }

  lemma NewestView(t: Table, t': Table, ns: string, id: nat, row: Row)
    requires t'.rows == t.rows[id := row]
    requires forall x <- UseOrder(t, ns) :: x in t.rows && (x in {id} <==> t.rows[x].path == row.path)
    requires UseOrder(t', ns) == Without(UseOrder(t, ns), {id}) + [id]
    ensures View(t', ns) == Drop(View(t, ns), row.path) + [Item(row.path, row.entry)]
  {
    ItemsOfNewest(t, t', UseOrder(t, ns), id, row.path);
  }

  /** A write puts the item last. */
  lemma UpsertView(t: Table, ns: string, path: string, entry: Entry, updatedAt: int, now: int)
    requires Valid(t) && Upsert(t, ns, path, entry, updatedAt, now).Ok?
    ensures var t' := Upsert(t, ns, path, entry, updatedAt, now).value.0;
            View(t', ns) == Put(View(t, ns), Item(path, entry))
  {
    var row := Row(ns, path, entry, updatedAt, NextUse(t, ns, now));
    var (t', id) := Write(t, row);
    UpsertOrder(t, ns, path, entry, updatedAt, now);
    WriteIsOneRow(t, row);
    NewestView(t, t', ns, id, row);
  }

  lemma WriteIsOneRow(t: Table, row: Row)
    requires Valid(t)
    ensures var (t', id) := Write(t, row);
            && t'.rows == t.rows[id := row]
            && (forall x <- UseOrder(t, row.namespace) :: x in t.rows && (x in {id} <==> t.rows[x].path == row.path))
  {
  }

  lemma {:induction false} OnlyIs(l: seq<Item>, path: string, i: nat)
    requires i < |l| && l[i].path == path && forall j :: 0 <= j < |l| && j != i ==> l[j].path != path
    ensures Only(l, path) == [l[i]]
  {
    if i == 0 {
      OnlyNone(l[1..], path);
    } else {
      OnlyIs(l[1..], path, i - 1);
    }
  }

  lemma {:induction false} OnlyNone(l: seq<Item>, path: string)
    requires forall i :: 0 <= i < |l| ==> l[i].path != path
    ensures Only(l, path) == []
  {
    if l != [] {
      OnlyNone(l[1..], path);
    }
  }

  /** A recorded use moves the item to the end. */
  lemma RecordUseView(t: Table, ns: string, id: nat, now: int)
    requires Valid(t) && Has(t, ns, id) && RecordUse(t, ns, id, now).Ok?
    ensures var t' := RecordUse(t, ns, id, now).value;
            View(t', ns) == Use(View(t, ns), t.rows[id].path)
  {
    var row := t.rows[id].(lastUsed := NextUse(t, ns, now));
    RecordUseOrder(t, ns, id, now);
    PathsAreUnique(t, ns, id);
    NewestView(t, RecordUse(t, ns, id, now).value, ns, id, row);
    OnlyOf(t, UseOrder(t, ns), id);
  }

  lemma PathsAreUnique(t: Table, ns: string, id: nat)
    requires Valid(t) && Has(t, ns, id)
    ensures forall x <- UseOrder(t, ns) :: x in t.rows && (x in {id} <==> t.rows[x].path == t.rows[id].path)
  {
  }

  lemma OnlyOf(t: Table, order: seq<nat>, id: nat)
    requires id in order && Sorted(t, order)
    requires forall x <- order :: x in {id} <==> t.rows[x].path == t.rows[id].path
    ensures Only(Items(t, order), t.rows[id].path) == [Item(t.rows[id].path, t.rows[id].entry)]
  {
    SortedHasNoRepeats(t, order);
    var i :| 0 <= i < |order| && order[i] == id;
    OnlyIs(Items(t, order), t.rows[id].path, i);
  }

  lemma AbsentView(t: Table, ns: string, path: string)
    requires Find(t, ns, path) == None
    ensures Use(View(t, ns), path) == View(t, ns) && Drop(View(t, ns), path) == View(t, ns)
  {
    var order := UseOrder(t, ns);
    forall i | 0 <= i < |order|
      ensures View(t, ns)[i].path != path
    {
      assert order[i] in order;
    }
    DropNone(View(t, ns), path);
    OnlyNone(View(t, ns), path);
  }

  lemma DeleteView(t: Table, ns: string, id: nat)
    requires Valid(t) && Has(t, ns, id)
    ensures Valid(Delete(t, {id})) && View(Delete(t, {id}), ns) == Drop(View(t, ns), t.rows[id].path)
  {
    DeleteOrder(t, ns, {id});
    PathsAreUnique(t, ns, id);
    ItemsDrop(t, UseOrder(t, ns), {id}, t.rows[id].path);
    ItemsAgree(t, Delete(t, {id}), Without(UseOrder(t, ns), {id}));
  }

  /** When the rows just written are the newest, enforcing the bound keeps the newest items. */
  lemma EnforceView(t: Table, ns: string, max: Option<nat>, protected: set<nat>, older: seq<nat>, newer: seq<nat>)
    requires Valid(t) && UseOrder(t, ns) == older + newer && (max.Some? ==> |newer| <= max.value)
    requires (forall id <- older :: id !in protected) && (forall id <- newer :: id in protected)
    ensures var t' := EnforceMax(t, ns, max, protected); Valid(t') && View(t', ns) == Bound(View(t, ns), max)
  {
    if max.Some? {
      EvictionKeepsNewest(t, ns, max.value, protected, older, newer);
      ItemsOfSuffix(t, EnforceMax(t, ns, max, protected), UseOrder(t, ns), Excess(t, ns, max.value));
    }
  }

  lemma ItemsOfSuffix(t: Table, t': Table, ids: seq<nat>, k: nat)
    requires k <= |ids| && (forall id <- ids :: id in t.rows)
    requires forall id <- ids[k..] :: id in t'.rows && id in t.rows && t'.rows[id] == t.rows[id]
    ensures Items(t', ids[k..]) == Items(t, ids)[k..]
  {
  }
}
