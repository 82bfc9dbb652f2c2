/** The store: every statement as a method over the table in memory, proved equal to its step on the table. */
module UseStore {
  import opened Wrappers
  import opened UseTable
  import opened UseStatements
  import opened UseEviction
  import opened UseImport

  // ---------------------------------------------------------------------------
  // Lemmas of the statements
  // ---------------------------------------------------------------------------

  /** The oldest row not yet listed is the next in use order. */
  lemma OldestIsNext(t: Table, order: seq<nat>, k: nat, id: nat)
    requires Sorted(t, order) && id in t.rows && k <= |order| && id in order[k..]
    requires forall x <- order[k..] :: x == id || (x in t.rows && Before(t, id, x))
    ensures k < |order| && order[k] == id
  {
    var i :| 0 <= i < |order[k..]| && order[k..][i] == id;
    if i > 0 {
      assert order[k] in order[k..] && Before(t, order[k], order[k + i]);
    }
  }

  /** `ids` begin the order, and `left` are the rest of it. */
  ghost predicate Listed(order: seq<nat>, ids: seq<nat>, left: set<nat>) {
    |ids| <= |order| && ids == order[..|ids|] && forall id :: id in left <==> id in order[|ids|..]
  }

  lemma OldestIsListed(t: Table, order: seq<nat>, ids: seq<nat>, left: set<nat>, id: nat)
    requires Sorted(t, order) && Listed(order, ids, left) && id in left && id in t.rows
    requires forall x <- left :: x == id || (x in t.rows && Before(t, id, x))
    ensures Listed(order, ids + [id], left - {id})
  {
    OldestIsNext(t, order, |ids|, id);
    SortedHasNoRepeats(t, order);
    assert order[|ids|..] == [id] + order[|ids| + 1..];
  }

  lemma ListedAll(order: seq<nat>, ids: seq<nat>, left: set<nat>)
    requires Listed(order, ids, left)
    ensures left == {} ==> ids == order
  {
    FirstIsMember(order[|ids|..]);
  }

  lemma DeleteTwice(t: Table, a: set<nat>, b: set<nat>)
    ensures Delete(Delete(t, a), b) == Delete(t, a + b)
  {
    assert Delete(Delete(t, a), b).rows == Delete(t, a + b).rows;
  }

  lemma DeleteNone(t: Table)
    ensures Delete(t, Members([])) == t
  {
    assert Delete(t, Members([])).rows == t.rows;
  }

  lemma DeleteMore(t: Table, ids: seq<nat>, from: nat, to: nat)
    requires from <= to <= |ids|
    ensures Delete(Delete(t, Members(ids[..from])), Members(ids[from..to])) == Delete(t, Members(ids[..to]))
  {
    DeleteTwice(t, Members(ids[..from]), Members(ids[from..to]));
    MembersAppend(ids[..from], ids[from..to]);
    assert ids[..from] + ids[from..to] == ids[..to];
  }

  lemma MembersAppend(a: seq<nat>, b: seq<nat>)
    ensures Members(a + b) == Members(a) + Members(b)
  {
  }

  /** The paths of rows. */
  function PathsOf(t: Table, ids: seq<nat>): (paths: seq<string>)
    requires forall id <- ids :: id in t.rows
    ensures |paths| == |ids| && forall i :: 0 <= i < |ids| ==> paths[i] == t.rows[ids[i]].path
  {
    seq(|ids|, i requires 0 <= i < |ids| => t.rows[ids[i]].path)
  }

  lemma VictimsAreRows(t: Table, ns: string, n: nat, protected: set<nat>)
    ensures forall id <- Victims(t, ns, n, protected) :: Has(t, ns, id)
  {
    var open := Without(UseOrder(t, ns), protected);
    assert forall id <- Victims(t, ns, n, protected) :: id in open;
  }

  /** Importing one record more writes it behind the others. */
  lemma {:induction false} ImportOneMore(t: Table, ns: string, records: seq<Record>, record: Record)
    requires Representable(records) && UseValueOfRecord(record).Some?
    ensures Representable(records + [record])
    ensures var (t1, ids) := ImportAll(t, ns, records);
            var (t2, id) := Write(t1, Restored(ns, record));
            ImportAll(t, ns, records + [record]) == (t2, ids + [id])
    decreases |records|
  {
    if records == [] {
      assert records + [record] == [record] && [record][1..] == [];
      var id := Write(t, Restored(ns, record)).1;
      assert [id] + [] == [] + [id];
    } else {
      assert (records + [record])[1..] == records[1..] + [record];
      var (t1, first) := Write(t, Restored(ns, records[0]));
      ImportOneMore(t1, ns, records[1..], record);
      var (t2, ids) := ImportAll(t1, ns, records[1..]);
      var last := Write(t2, Restored(ns, record)).1;
      assert [first] + (ids + [last]) == [first] + ids + [last];
    }
  }

  class Store {
    var table: Table

    constructor ()
      ensures table == Table(map[], 0) && Valid(table)
    {
      table := Table(map[], 0);
    }

    // -------------------------------------------------------------------------
    // Reads
    // -------------------------------------------------------------------------

    /** `max(now, (SELECT COALESCE(MAX(last_used_us), 0) + 1 FROM files WHERE namespace = ?))`. */
    method NextUseValue(ns: string, now: int) returns (v: int)
      ensures v == NextUse(table, ns, now)
    {
      var left, max: Option<int> := table.rows.Keys, None;
      while left != {}
        invariant left <= table.rows.Keys
        invariant forall id :: Has(table, ns, id) && id !in left ==> max.Some? && table.rows[id].lastUsed <= max.value
        invariant max.Some? ==> exists id :: Has(table, ns, id) && table.rows[id].lastUsed == max.value
        decreases left
      {
        var id :| id in left;
        left := left - {id};
        var row := table.rows[id];
        if row.namespace == ns && (max.None? || row.lastUsed > max.value) {
          assert Has(table, ns, id);
          max := Some(row.lastUsed);
        }
      }
      var next := (if max.Some? then max.value else 0) + 1;
      if max.None? {
        FirstIsMember(UseOrder(table, ns));
      }
      v := if now > next then now else next;
    }

    /** `SELECT ... FROM files WHERE namespace = ? AND path = ?`. */
    method FindFile(ns: string, path: string) returns (found: Option<nat>)
      requires Valid(table)
      ensures found == Find(table, ns, path)
    {
      var left := table.rows.Keys;
      while left != {}
        invariant left <= table.rows.Keys
        invariant forall id :: Has(table, ns, id) && table.rows[id].path == path ==> id in left
        decreases left
      {
        var id :| id in left;
        if table.rows[id].namespace == ns && table.rows[id].path == path {
          FindIs(table, ns, id);
          return Some(id);
        }
        left := left - {id};
      }
      return None;
    }

    /** The ids of a namespace. */
    method Ids(ns: string) returns (ids: set<nat>)
      ensures forall id :: id in ids <==> Has(table, ns, id)
    {
      ids := set id <- table.rows.Keys | table.rows[id].namespace == ns;
    }

    /** The oldest of some rows. */
    method Oldest(ids: set<nat>) returns (oldest: nat)
      requires ids != {} && ids <= table.rows.Keys
      ensures oldest in ids && forall x <- ids :: x == oldest || Before(table, oldest, x)
    {
      oldest :| oldest in ids;
      var left := ids - {oldest};
      while left != {}
        invariant oldest in ids && left <= ids
        invariant forall x <- ids :: x == oldest || x in left || Before(table, oldest, x)
        decreases left
      {
        var id :| id in left;
        left := left - {id};
        if Before(table, id, oldest) {
          oldest := id;
        }
      }
    }

    /** `SELECT id FROM files WHERE namespace = ? ORDER BY last_used_us ASC, id ASC LIMIT ?`. */
    method OldestFirst(ns: string, limit: nat) returns (ids: seq<nat>)
      ensures ids == UseOrder(table, ns)[..Least(limit, |UseOrder(table, ns)|)]
    {
      var left := Ids(ns);
      ids := [];
      while left != {} && |ids| < limit
        invariant left <= table.rows.Keys && |ids| <= limit && Listed(UseOrder(table, ns), ids, left)
        decreases left
      {
        var id := Oldest(left);
        OldestIsListed(table, UseOrder(table, ns), ids, left, id);
        ids, left := ids + [id], left - {id};
      }
      ListedAll(UseOrder(table, ns), ids, left);
    }

    /** `SELECT COUNT(*) FROM files WHERE namespace = ?`. */
    method Count(ns: string) returns (n: nat)
      ensures n == |UseOrder(table, ns)|
    {
      var ids := Ids(ns);
      n := |ids|;
      SortedHasNoRepeats(table, UseOrder(table, ns));
      SizeOf(UseOrder(table, ns), ids);
    }

    // -------------------------------------------------------------------------
    // Writes
    // -------------------------------------------------------------------------

    /** `record_use`. */
    method RecordUse(ns: string, id: nat, now: int) returns (r: Result<(), StoreError>)
      modifies this
      ensures var step := UseStatements.RecordUse(old(table), ns, id, now);
              if step.Ok? then r == Ok(()) && table == step.value else r == Err(step.error) && table == old(table)
    {
      if id !in table.rows {
        return Ok(());
      }
      var v := NextUseValue(ns, now);
      if v >= USE_VALUE_LIMIT {
        return Err(UseOrderExhausted);
      }
      table := table.(rows := table.rows[id := table.rows[id].(lastUsed := v)]);
      return Ok(());
    }

    /** `INSERT INTO files ... ON CONFLICT(namespace, path) DO UPDATE`, with the payload; returns the row's id. */
    method WriteRow(row: Row) returns (id: nat)
      requires Valid(table)
      modifies this
      ensures (table, id) == Write(old(table), row)
    {
      var found := FindFile(row.namespace, row.path);
      if found.Some? {
        id := found.value;
        table := table.(rows := table.rows[id := row]);
      } else {
        id := table.nextId;
        table := Table(table.rows[id := row], id + 1);
      }
    }

    /** `upsert_in_tx`. */
    method Upsert(ns: string, path: string, entry: Entry, updatedAt: int, now: int) returns (r: Result<nat, StoreError>)
      requires Valid(table)
      modifies this
      ensures var step := UseStatements.Upsert(old(table), ns, path, entry, updatedAt, now);
              if step.Ok? then r.Ok? && (table, r.value) == step.value else r == Err(step.error) && table == old(table)
    {
      var v := NextUseValue(ns, now);
      if v >= USE_VALUE_LIMIT {
        return Err(UseOrderExhausted);
      }
      var id := WriteRow(Row(ns, path, entry, updatedAt, v));
      return Ok(id);
    }

    /** `DELETE FROM files WHERE id IN (...)`. */
    method DeleteIds(ids: seq<nat>)
      modifies this
      ensures table == Delete(old(table), Members(ids))
    {
      table := Delete(table, Members(ids));
    }

    /** `evict_lru`: over-select, filter in memory, delete in chunks; returns the paths deleted, oldest first. */
    method EvictLru(ns: string, n: nat, protected: seq<nat>) returns (paths: seq<string>)
      modifies this
      ensures var victims := Victims(old(table), ns, n, Members(protected));
              && table == Delete(old(table), Members(victims))
              && (forall id <- victims :: Has(old(table), ns, id))
              && paths == PathsOf(old(table), victims)
    {
      var safe := Members(protected);
      var candidates := OldestFirst(ns, n + |safe|);
      var open := Without(candidates, safe);
      var selected := open[..Least(n, |open|)];
      OverfetchIsEnough(table, UseOrder(table, ns), n, safe);
      assert selected == Victims(table, ns, n, safe);
      VictimsAreRows(table, ns, n, safe);
      paths := PathsOf(table, selected);
      DeleteInChunks(selected);
    }

    /** Delete rows, some at a time. */
    method DeleteInChunks(ids: seq<nat>)
      modifies this
      ensures table == Delete(old(table), Members(ids))
    {
      DeleteNone(table);
      var done := 0;
      while done < |ids|
        invariant done <= |ids| && table == Delete(old(table), Members(ids[..done]))
      {
        var size := Least(ID_LIST_CHUNK, |ids| - done);
        DeleteIds(ids[done..done + size]);
        DeleteMore(old(table), ids, done, done + size);
        done := done + size;
      }
      assert ids[..done] == ids;
    }

    /** `import_rows_in_tx`: up to the first record whose recency cannot be expressed; the caller rolls back. */
    method ImportRows(ns: string, records: seq<Record>) returns (r: Result<seq<nat>, StoreError>)
      requires Valid(table)
      modifies this
      ensures Valid(table)
      ensures Representable(records) ==> r.Ok? && (table, r.value) == ImportAll(old(table), ns, records)
      ensures !Representable(records) ==>
                && r == Err(RecencyOutOfRange)
                && exists k: nat :: k < |records| && UseValueOfRecord(records[k]).None?
                     && Representable(records[..k]) && table == ImportAll(old(table), ns, records[..k]).0
    {
      var written: seq<nat>, i := [], 0;
      while i < |records|
        invariant i <= |records| && Valid(table) && Representable(records[..i])
        invariant (table, written) == ImportAll(old(table), ns, records[..i])
      {
        assert records[i] in records && records[..i + 1] == records[..i] + [records[i]];
        if UseValueOfRecord(records[i]).None? {
          return Err(RecencyOutOfRange);
        }
        ImportOneMore(old(table), ns, records[..i], records[i]);
        StoresOne(table, ns, records[i]);
        var id := WriteRow(Restored(ns, records[i]));
        written, i := written + [id], i + 1;
      }
      assert records[..i] == records;
      return Ok(written);
    }
  }
}
