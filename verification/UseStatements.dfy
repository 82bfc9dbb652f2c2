/** The statements of the store, each as one step on the table. */
module UseStatements {
  import opened Wrappers
  import opened UseTable

  /** How many ids one statement names at most. */
  const ID_LIST_CHUNK := 500

  datatype StoreError =
    | ReadOnly
    | Undecodable
    | UseOrderExhausted
    | RecencyOutOfRange
    | TooManyPaths(distinct: nat)
    | UnboundRecords(unbound: nat)

  /** The row of a namespace and path. */
  ghost function Find(t: Table, ns: string, path: string): (r: Option<nat>)
    ensures r.Some? ==> Has(t, ns, r.value) && t.rows[r.value].path == path
    ensures r.None? ==> forall id :: Has(t, ns, id) ==> t.rows[id].path != path
  {
    if exists id :: Has(t, ns, id) && t.rows[id].path == path then
      var id :| Has(t, ns, id) && t.rows[id].path == path;
      Some(id)
    else None
  }

  /** `UPDATE files SET last_used_us = ...`: the row takes the next use value, or the column's check refuses it. */
  ghost function RecordUse(t: Table, ns: string, id: nat, now: int): (r: Result<Table, StoreError>)
  {
    if id !in t.rows then Ok(t)
    else if NextUse(t, ns, now) >= USE_VALUE_LIMIT then Err(UseOrderExhausted)
    else Ok(t.(rows := t.rows[id := t.rows[id].(lastUsed := NextUse(t, ns, now))]))
  }

  /** Insert the row, or overwrite the row with its namespace and path; returns its id. */
  ghost function Write(t: Table, row: Row): (r: (Table, nat)) {
    match Find(t, row.namespace, row.path)
    case Some(id) => (t.(rows := t.rows[id := row]), id)
    case None => (Table(t.rows[t.nextId := row], t.nextId + 1), t.nextId)
  }

  /** `INSERT ... ON CONFLICT DO UPDATE`: a write is a use. */
  ghost function Upsert(t: Table, ns: string, path: string, entry: Entry, updatedAt: int, now: int):
    (r: Result<(Table, nat), StoreError>)
  {
    if NextUse(t, ns, now) >= USE_VALUE_LIMIT then Err(UseOrderExhausted)
    else Ok(Write(t, Row(ns, path, entry, updatedAt, NextUse(t, ns, now))))
  }

  function Delete(t: Table, ids: set<nat>): (r: Table) {
    t.(rows := map id <- t.rows | id !in ids :: t.rows[id])
  }

  function Least(a: nat, b: nat): nat {
    if a < b then a else b
  }

  function Members(ids: seq<nat>): (s: set<nat>) {
    set id <- ids
  }

  /** The oldest `n` rows of a namespace that are not protected; all of them if there are fewer. */
  ghost function Victims(t: Table, ns: string, n: nat, protected: set<nat>): (ids: seq<nat>) {
    var open := Without(UseOrder(t, ns), protected);
    open[..Least(n, |open|)]
  }

  ghost function Excess(t: Table, ns: string, max: nat): (n: nat) {
    var count := |UseOrder(t, ns)|;
    if count > max then count - max else 0
  }

  /** Evict down to `max` rows, never a protected one; without a bound, nothing. */
  ghost function EnforceMax(t: Table, ns: string, max: Option<nat>, protected: set<nat>): (r: Table) {
    match max
    case None => t
    case Some(m) => Delete(t, Members(Victims(t, ns, Excess(t, ns, m), protected)))
  }

  // ---------------------------------------------------------------------------
  // What each statement does to the use order
  // ---------------------------------------------------------------------------

  /** Rows that are not touched stay in order. */
  lemma OthersStaySorted(t: Table, t': Table, ids: seq<nat>, id: nat)
    requires Sorted(t, ids)
    requires forall x <- ids :: x != id ==> x in t'.rows && t'.rows[x] == t.rows[x]
    ensures Sorted(t', Without(ids, {id}))
  {
    var others := Without(ids, {id});
    WithoutIsSorted(t, ids, {id});
    forall i, j | 0 <= i < j < |others|
      ensures Before(t', others[i], others[j])
    {
      assert others[i] in others && others[j] in others && Before(t, others[i], others[j]);
    }
  }

  lemma LastIsSorted(t: Table, ids: seq<nat>, id: nat)
    requires Sorted(t, ids) && id in t.rows && forall x <- ids :: Before(t, x, id)
    ensures Sorted(t, ids + [id])
  {
  }

  /** A row that takes a value above all others of its namespace becomes the newest. */
  lemma NewestGoesLast(t: Table, ns: string, id: nat, row: Row, t': Table)
    requires Valid(t) && row.namespace == ns && row.lastUsed > MaxUse(t, ns) && t'.rows == t.rows[id := row]
    requires id in t.rows ==> t.rows[id].namespace == ns
    ensures UseOrder(t', ns) == Without(UseOrder(t, ns), {id}) + [id]
  {
    var others := Without(UseOrder(t, ns), {id});
    OthersStaySorted(t, t', UseOrder(t, ns), id);
    forall x | x in others
      ensures Before(t', x, id)
    {
      assert Has(t, ns, x);
    }
    LastIsSorted(t', others, id);
    UseOrderIs(t', ns, others + [id]);
  }

  /** Nothing that happens to the rows of one namespace moves the rows of another. */
  lemma OtherOrderIsUnchanged(t: Table, t': Table, ns: string)
    requires forall id :: Has(t', ns, id) <==> Has(t, ns, id)
    requires forall id :: Has(t, ns, id) ==> id in t'.rows && t'.rows[id] == t.rows[id]
    ensures UseOrder(t', ns) == UseOrder(t, ns)
  {
    var ids := UseOrder(t, ns);
    forall i, j | 0 <= i < j < |ids|
      ensures Before(t', ids[i], ids[j])
    {
      assert ids[i] in ids && ids[j] in ids && Before(t, ids[i], ids[j]);
    }
    UseOrderIs(t', ns, ids);
  }

  lemma RecencyIsValid(t: Table, id: nat, row: Row)
    requires Valid(t) && id in t.rows && row == t.rows[id].(lastUsed := row.lastUsed) && row.lastUsed < USE_VALUE_LIMIT
    ensures Valid(t.(rows := t.rows[id := row]))
  {
  }

  lemma RecordUseOrder(t: Table, ns: string, id: nat, now: int)
    requires Valid(t) && Has(t, ns, id) && RecordUse(t, ns, id, now).Ok?
    ensures var t' := RecordUse(t, ns, id, now).value;
            Valid(t') && UseOrder(t', ns) == Without(UseOrder(t, ns), {id}) + [id]
  {
    var row := t.rows[id].(lastUsed := NextUse(t, ns, now));
    RecencyIsValid(t, id, row);
    NewestGoesLast(t, ns, id, row, t.(rows := t.rows[id := row]));
  }

  lemma WriteIsValid(t: Table, row: Row)
    requires Valid(t) && row.lastUsed < USE_VALUE_LIMIT
    ensures Valid(Write(t, row).0)
  {
  }

  lemma UpsertOrder(t: Table, ns: string, path: string, entry: Entry, updatedAt: int, now: int)
    requires Valid(t) && Upsert(t, ns, path, entry, updatedAt, now).Ok?
    ensures var (t', id) := Upsert(t, ns, path, entry, updatedAt, now).value;
            && Valid(t')
            && UseOrder(t', ns) == Without(UseOrder(t, ns), {id}) + [id]
  {
    var row := Row(ns, path, entry, updatedAt, NextUse(t, ns, now));
    var (t', id) := Write(t, row);
    WriteIsValid(t, row);
    NewestGoesLast(t, ns, id, row, t');
  }

  lemma DeleteOrder(t: Table, ns: string, ids: set<nat>)
    requires Valid(t)
    ensures var t' := Delete(t, ids);
            Valid(t') && UseOrder(t', ns) == Without(UseOrder(t, ns), ids)
  {
    var t' := Delete(t, ids);
    var order := UseOrder(t, ns);
    var kept := Without(order, ids);
    WithoutIsSorted(t, order, ids);
    forall i, j | 0 <= i < j < |kept|
      ensures Before(t', kept[i], kept[j])
    {
      assert kept[i] in kept && kept[j] in kept && Before(t, kept[i], kept[j]);
    }
    UseOrderIs(t', ns, kept);
  }
}
