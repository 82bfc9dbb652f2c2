/** Eviction: the bound, the protected rows, and the rows that go. */
module UseEviction {
  import opened Wrappers
  import opened UseTable
  import opened UseStatements

  lemma SortedHasNoRepeats(t: Table, ids: seq<nat>)
    requires Sorted(t, ids)
    ensures forall i, j :: 0 <= i < j < |ids| ==> ids[i] != ids[j]
  {
  }

  lemma {:induction false} WithoutAll(ids: seq<nat>, out: set<nat>)
    requires forall id <- ids :: id in out
    ensures Without(ids, out) == []
  {
    if ids != [] {
      WithoutAll(ids[1..], out);
    }
  }

  /** Taking out `out` loses at most `|out|` ids. */
  lemma {:induction false} WithoutLosesAtMost(ids: seq<nat>, out: set<nat>)
    requires forall i, j :: 0 <= i < j < |ids| ==> ids[i] != ids[j]
    ensures |Without(ids, out)| + |out| >= |ids|
  {
    if ids != [] {
      if ids[0] in out {
        WithoutLosesAtMost(ids[1..], out - {ids[0]});
        WithoutSame(ids[1..], out, out - {ids[0]});
      } else {
        WithoutLosesAtMost(ids[1..], out);
      }
    }
  }

  lemma {:induction false} WithoutSame(ids: seq<nat>, a: set<nat>, b: set<nat>)
    requires forall id <- ids :: id in a <==> id in b
    ensures Without(ids, a) == Without(ids, b)
  {
    if ids != [] {
      WithoutSame(ids[1..], a, b);
    }
  }

  /** Taking out the members of `a` from `a + b` leaves `b`. */
  lemma WithoutPrefix(t: Table, a: seq<nat>, b: seq<nat>)
    requires Sorted(t, a + b)
    ensures Without(a + b, Members(a)) == b
  {
    SortedHasNoRepeats(t, a + b);
    WithoutAppends(a, b, Members(a));
    WithoutAll(a, Members(a));
    forall i, j | 0 <= i < |a| && 0 <= j < |b|
      ensures a[i] != b[j]
    {
      assert (a + b)[i] == a[i] && (a + b)[|a| + j] == b[j];
    }
    WithoutNone(b, Members(a));
  }

  /**
    Over-selecting by the number of protected ids and filtering afterwards finds the same victims as never selecting a
    protected id at all.
   */
  lemma OverfetchIsEnough(t: Table, ids: seq<nat>, n: nat, protected: set<nat>)
    requires Sorted(t, ids)
    ensures var fetched := Without(ids[..Least(n + |protected|, |ids|)], protected);
            var open := Without(ids, protected);
            fetched[..Least(n, |fetched|)] == open[..Least(n, |open|)]
  {
    var f := Least(n + |protected|, |ids|);
    assert ids == ids[..f] + ids[f..];
    WithoutAppends(ids[..f], ids[f..], protected);
    SortedHasNoRepeats(t, ids);
    WithoutLosesAtMost(ids[..f], protected);
    if f == |ids| {
      assert ids[f..] == [];
    }
  }

  /** When the protected rows are the newest ones, eviction keeps exactly the newest `max` rows. */
  lemma EvictionKeepsNewest(t: Table, ns: string, max: nat, protected: set<nat>, older: seq<nat>, newer: seq<nat>)
    requires Valid(t) && UseOrder(t, ns) == older + newer && |newer| <= max
    requires (forall id <- older :: id !in protected) && (forall id <- newer :: id in protected)
    ensures var t' := EnforceMax(t, ns, Some(max), protected);
            Valid(t') && UseOrder(t', ns) == UseOrder(t, ns)[Excess(t, ns, max)..]
  {
    var order, excess := older + newer, Excess(t, ns, max);
    WithoutAppends(older, newer, protected);
    WithoutNone(older, protected);
    WithoutAll(newer, protected);
    assert Without(order, protected) == older + [] == older;
    assert order == order[..excess] + order[excess..] && older[..excess] == order[..excess];
    WithoutPrefix(t, order[..excess], order[excess..]);
    DeleteOrder(t, ns, Members(order[..excess]));
  }

  /** With room for the protected rows, exactly as many rows go as are too many, and at most `max` stay. */
  lemma EvictionFits(t: Table, ns: string, max: nat, protected: set<nat>)
    requires Valid(t) && |protected| <= max
    ensures var t', victims := EnforceMax(t, ns, Some(max), protected), Victims(t, ns, Excess(t, ns, max), protected);
            Valid(t') && |UseOrder(t', ns)| <= max && |victims| == Excess(t, ns, max)
  {
    var victims := Victims(t, ns, Excess(t, ns, max), protected);
    EnoughVictims(t, ns, max, protected);
    DeleteOrder(t, ns, Members(victims));
    VictimsLeave(t, UseOrder(t, ns), victims);
  }

  /** There are as many unprotected rows as are too many, and the victims are among the rows, in order. */
  lemma EnoughVictims(t: Table, ns: string, max: nat, protected: set<nat>)
    requires |protected| <= max
    ensures var victims := Victims(t, ns, Excess(t, ns, max), protected);
            && |victims| == Excess(t, ns, max) && Sorted(t, victims)
            && forall id <- victims :: id in UseOrder(t, ns)
  {
    var order := UseOrder(t, ns);
    var open := Without(order, protected);
    SortedHasNoRepeats(t, order);
    WithoutLosesAtMost(order, protected);
    WithoutIsSorted(t, order, protected);
    assert forall id <- open[..Excess(t, ns, max)] :: id in open;
  }

  /**
    What eviction promises whatever the recencies are, an import's included: exactly the victims go, none of them is
    protected or of another namespace, and each is older than every unprotected row that stays.
   */
  lemma EvictionIsFair(t: Table, ns: string, max: nat, protected: set<nat>)
    ensures var t', victims := EnforceMax(t, ns, Some(max), protected), Victims(t, ns, Excess(t, ns, max), protected);
            && (forall id <- t.rows :: id in t'.rows <==> id !in victims)
            && (forall id <- t'.rows :: id in t.rows && t'.rows[id] == t.rows[id])
            && (forall id <- victims :: Has(t, ns, id) && id !in protected)
            && (forall v <- victims, id :: Has(t', ns, id) && id !in protected ==> Before(t, v, id))
  {
    var open := Without(UseOrder(t, ns), protected);
    WithoutIsSorted(t, UseOrder(t, ns), protected);
    var victims := Victims(t, ns, Excess(t, ns, max), protected);
    var k := |victims|;
    assert victims == open[..k];
    assert forall id <- victims :: id in open;
    forall v, id | v in victims && id in open && id !in victims
      ensures Before(t, v, id)
    {
      var i :| 0 <= i < k && victims[i] == v;
      var j :| 0 <= j < |open| && open[j] == id;
      assert open[i] == v && j >= k;
    }
  }

  /** Deleting `victims` shortens the order by their number. */
  lemma {:induction false} VictimsLeave(t: Table, ids: seq<nat>, victims: seq<nat>)
    requires Sorted(t, ids) && Sorted(t, victims) && forall id <- victims :: id in ids
    ensures |Without(ids, Members(victims))| == |ids| - |victims|
    decreases |ids|
  {
    if ids == [] {
      FirstIsMember(victims);
    } else if victims != [] && ids[0] == victims[0] {
      SortedHasNoRepeats(t, ids);
      SortedHasNoRepeats(t, victims);
      assert forall id <- victims[1..] :: id in victims && id != ids[0];
      VictimsLeave(t, ids[1..], victims[1..]);
      WithoutSame(ids[1..], Members(victims), Members(victims[1..]));
    } else {
      FirstIsMember(victims);
      assert ids[0] !in victims;
      assert forall id <- victims :: id in ids[1..];
      VictimsLeave(t, ids[1..], victims);
    }
  }
}
