/** Late materialization: a page of a query, with payloads fetched and decoded only as far as the page needs. */
module QueryPages {
  import opened Wrappers
  import opened Bytes
  import UseStatements

  /** How many ids one statement names, and so how many rows one window holds at most. */
  const WINDOW := UseStatements.ID_LIST_CHUNK

  datatype Payload = Payload(content: seq<Byte>, encoding: string)

  datatype Candidate =
    Candidate(id: nat, path: string, mtime: int, fileSize: nat, hash: Option<string>, lastAccessed: int)

  datatype CacheEntry<+T> = CacheEntry(path: string, mtime: int, fileSize: nat, hash: Option<string>, payload: T)

  datatype Skipped<+E> = Skipped(path: string, error: E)

  datatype Report<+T, +E> = Report(entries: seq<CacheEntry<T>>, skipped: seq<Skipped<E>>)

  /** What becomes of a candidate when its payload is asked for. */
  datatype Fate<+T, +E> = Missing | Failed(skipped: Skipped<E>) | Decoded(entry: CacheEntry<T>)

  /** How the engine decodes the payload of a path. */
  type Decode<!T, !E> = (string, Payload) -> Result<T, E>

  // ---------------------------------------------------------------------------
  // Fates
  // ---------------------------------------------------------------------------

  function FateOf<T, E>(decode: Decode<T, E>, c: Candidate, payload: Option<Payload>): (f: Fate<T, E>) {
    match payload
    case None => Missing
    case Some(p) =>
      match decode(c.path, p)
      case Err(error) => Failed(Skipped(c.path, error))
      case Ok(value) => Decoded(CacheEntry(c.path, c.mtime, c.fileSize, c.hash, value))
  }

  function Lookup(payloads: map<nat, Payload>, id: nat): Option<Payload> {
    if id in payloads then Some(payloads[id]) else None
  }

  function Fates<T, E>(decode: Decode<T, E>, payloads: map<nat, Payload>, cs: seq<Candidate>): (fs: seq<Fate<T, E>>) {
    seq(|cs|, i requires 0 <= i < |cs| => FateOf(decode, cs[i], Lookup(payloads, cs[i].id)))
  }

  function Successes<T, E>(fs: seq<Fate<T, E>>): (es: seq<CacheEntry<T>>) {
    if fs == [] then []
    else if fs[0].Decoded? then [fs[0].entry] + Successes(fs[1..])
    else Successes(fs[1..])
  }

  function Failures<T, E>(fs: seq<Fate<T, E>>): (ss: seq<Skipped<E>>) {
    if fs == [] then []
    else if fs[0].Failed? then [fs[0].skipped] + Failures(fs[1..])
    else Failures(fs[1..])
  }

  lemma {:induction false} SuccessesAppend<T, E>(a: seq<Fate<T, E>>, b: seq<Fate<T, E>>)
    ensures Successes(a + b) == Successes(a) + Successes(b)
  {
    if a == [] {
      assert a + b == b;
    } else {
      assert (a + b)[1..] == a[1..] + b;
      SuccessesAppend(a[1..], b);
    }
  }

  lemma {:induction false} FailuresAppend<T, E>(a: seq<Fate<T, E>>, b: seq<Fate<T, E>>)
    ensures Failures(a + b) == Failures(a) + Failures(b)
  {
    if a == [] {
      assert a + b == b;
    } else {
      assert (a + b)[1..] == a[1..] + b;
      FailuresAppend(a[1..], b);
    }
  }

  lemma FatesStep<T, E>(fs: seq<Fate<T, E>>, k: nat)
    requires k < |fs|
    ensures Successes(fs[..k + 1]) == Successes(fs[..k]) + if fs[k].Decoded? then [fs[k].entry] else []
    ensures Failures(fs[..k + 1]) == Failures(fs[..k]) + if fs[k].Failed? then [fs[k].skipped] else []
  {
    assert fs[..k + 1] == fs[..k] + [fs[k]];
    SuccessesAppend(fs[..k], [fs[k]]);
    FailuresAppend(fs[..k], [fs[k]]);
  }

  // ---------------------------------------------------------------------------
  // The page, stated simply
  // ---------------------------------------------------------------------------

  /** Drop `offset`, take `limit`. */
  function Slice<X>(s: seq<X>, offset: nat, limit: Option<nat>): (r: seq<X>) {
    var rest := if offset <= |s| then s[offset..] else [];
    if limit.Some? && limit.value < |rest| then rest[..limit.value] else rest
  }

  /** A slice holds the values from `offset` on, up to `limit` of them. */
  lemma SliceIs<X>(s: seq<X>, offset: nat, limit: Option<nat>, k: nat)
    ensures var r := Slice(s, offset, limit);
            && (k < |r| <==> offset + k < |s| && (limit.Some? ==> k < limit.value))
            && (k < |r| ==> r[k] == s[offset + k])
  {
  }

  /** The length of the shortest prefix with `need` successes, or of the whole. */
  function Shortest<T, E>(fs: seq<Fate<T, E>>, need: nat): (k: nat)
    ensures k <= |fs|
  {
    if need == 0 || fs == [] then 0
    else if fs[0].Decoded? then 1 + Shortest(fs[1..], need - 1)
    else 1 + Shortest(fs[1..], need)
  }

  /** How many candidates a page looks at. */
  function PageEnd<T, E>(fs: seq<Fate<T, E>>, offset: nat, limit: Option<nat>): (k: nat)
    ensures k <= |fs|
  {
    match limit
    case None => |fs|
    case Some(l) => if l == 0 then 0 else Shortest(fs, offset + l)
  }

  /** The shortest prefix is short of `need` until its end, where it has them or all is seen. */
  lemma {:induction false} ShortestIs<T, E>(fs: seq<Fate<T, E>>, need: nat, k: nat)
    requires k <= |fs|
    ensures Shortest(fs, need) == k
       <==> && (|Successes(fs[..k])| >= need || k == |fs|)
            && (k > 0 ==> |Successes(fs[..k - 1])| < need)
  {
    if fs == [] || need == 0 {
      if k > 0 {
        assert |Successes(fs[..k - 1])| >= 0;
      }
    } else if k > 0 {
      ShortestIs(fs[1..], if fs[0].Decoded? then need - 1 else need, k - 1);
      assert fs[..k][1..] == fs[1..][..k - 1];
      if k > 1 {
        assert fs[..k - 1][1..] == fs[1..][..k - 2];
      } else {
        assert fs[1..][..0] == [];
      }
    }
  }

  /** A page looks no further than it must: every shorter prefix lacks entries. */
  lemma PageEndIsShortest<T, E>(fs: seq<Fate<T, E>>, offset: nat, limit: nat, k: nat)
    requires limit > 0 && k <= |fs|
    ensures k < PageEnd(fs, offset, Some(limit)) ==> |Successes(fs[..k])| < offset + limit
    ensures k == PageEnd(fs, offset, Some(limit)) && k < |fs| ==> |Successes(fs[..k])| == offset + limit
  {
    var end := PageEnd(fs, offset, Some(limit));
    ShortestIs(fs, offset + limit, end);
    if k < end {
      assert fs[..end - 1] == fs[..k] + fs[k..end - 1];
      SuccessesAppend(fs[..k], fs[k..end - 1]);
    } else if k == end && k < |fs| {
      assert |Successes(fs[..k])| >= offset + limit;
      if k > 0 {
        FatesStep(fs, k - 1);
      }
    }
  }

  /** The prefix a page looks at holds the whole page. */
  lemma PageIsInPrefix<T, E>(fs: seq<Fate<T, E>>, offset: nat, limit: Option<nat>)
    ensures var s := Successes(fs[..PageEnd(fs, offset, limit)]);
            Slice(s, offset, None) == Slice(Successes(fs), offset, limit) || limit == Some(0)
  {
    var k := PageEnd(fs, offset, limit);
    assert fs == fs[..k] + fs[k..];
    SuccessesAppend(fs[..k], fs[k..]);
    if limit.Some? && limit.value > 0 {
      PageEndIsShortest(fs, offset, limit.value, k);
      if k == |fs| {
        assert fs[k..] == [];
        if k > 0 {
          PageEndIsShortest(fs, offset, limit.value, k - 1);
          FatesStep(fs, k - 1);
          assert fs[..k] == fs;
        }
      }
    }
  }

  // ---------------------------------------------------------------------------
  // Fetching payloads
  // ---------------------------------------------------------------------------

  /** `SELECT ... FROM payloads WHERE file_id IN (...)`: the rows come in any order. */
  method SelectIn(payloads: map<nat, Payload>, ids: seq<nat>) returns (rows: seq<(nat, Payload)>)
    ensures forall row :: row in rows <==> row.0 in ids && row.0 in payloads && row.1 == payloads[row.0]
  {
    rows := [];
    var left := set id <- ids | id in payloads;
    while left != {}
      invariant forall id <- left :: id in ids && id in payloads
      invariant forall id <- ids :: id in payloads ==> id in left || (id, payloads[id]) in rows
      invariant forall row <- rows :: row.0 in ids && row.0 in payloads && row.1 == payloads[row.0]
      decreases left
    {
      var id :| id in left;
      rows, left := rows + [(id, payloads[id])], left - {id};
    }
  }

  /** `payloads_for_ids`: one statement for each chunk of ids. */
  method PayloadsForIds(payloads: map<nat, Payload>, ids: seq<nat>) returns (out: seq<(nat, Payload)>)
    ensures forall row :: row in out <==> row.0 in ids && row.0 in payloads && row.1 == payloads[row.0]
  {
    out := [];
    var done := 0;
    while done < |ids|
      invariant done <= |ids|
      invariant forall row :: row in out <==> row.0 in ids[..done] && row.0 in payloads && row.1 == payloads[row.0]
    {
      var end := if |ids| - done < WINDOW then |ids| else done + WINDOW;
      var rows := SelectIn(payloads, ids[done..end]);
      assert ids[..end] == ids[..done] + ids[done..end];
      out, done := out + rows, end;
    }
    assert ids[..done] == ids;
  }

  /** The payloads of a window, by id. */
  method FetchWindow(payloads: map<nat, Payload>, ids: seq<nat>) returns (byId: map<nat, Payload>)
    ensures forall id <- ids :: Lookup(byId, id) == Lookup(payloads, id)
  {
    var rows := PayloadsForIds(payloads, ids);
    byId := map[];
    var i := 0;
    while i < |rows|
      invariant i <= |rows|
      invariant forall k :: 0 <= k < i ==> rows[k].0 in byId
      invariant forall id <- byId :: id in payloads && byId[id] == payloads[id]
    {
      assert rows[i] in rows;
      byId, i := byId[rows[i].0 := rows[i].1], i + 1;
    }
    forall id | id in ids
      ensures Lookup(byId, id) == Lookup(payloads, id)
    {
      if id in payloads {
        assert (id, payloads[id]) in rows;
      }
    }
  }

  // ---------------------------------------------------------------------------
  // Materialization
  // ---------------------------------------------------------------------------

  /** Where a scan stands after some candidates. */
  ghost predicate Stands<T, E>(seen: seq<Fate<T, E>>, offset: nat, toSkip: nat, out: seq<CacheEntry<T>>,
                               skipped: seq<Skipped<E>>, decodes: nat)
  {
    var s := Successes(seen);
    && toSkip == (if |s| < offset then offset - |s| else 0)
    && out == Slice(s, offset, None)
    && skipped == Failures(seen)
    && decodes == |s| + |skipped|
  }

  lemma StandsNext<T, E>(fs: seq<Fate<T, E>>, k: nat, offset: nat, toSkip: nat, out: seq<CacheEntry<T>>,
                         skipped: seq<Skipped<E>>, decodes: nat)
    requires k < |fs| && Stands(fs[..k], offset, toSkip, out, skipped, decodes)
    ensures match fs[k]
            case Missing => Stands(fs[..k + 1], offset, toSkip, out, skipped, decodes)
            case Failed(s) => Stands(fs[..k + 1], offset, toSkip, out, skipped + [s], decodes + 1)
            case Decoded(e) =>
              if toSkip > 0 then Stands(fs[..k + 1], offset, toSkip - 1, out, skipped, decodes + 1)
              else Stands(fs[..k + 1], offset, 0, out + [e], skipped, decodes + 1)
  {
    FatesStep(fs, k);
  }

  /** A scan that just filled the page has seen the shortest prefix that does. */
  lemma FullIsShortest<T, E>(fs: seq<Fate<T, E>>, k: nat, offset: nat, limit: nat)
    requires k < |fs| && limit > 0
    requires |Successes(fs[..k + 1])| == offset + limit && |Successes(fs[..k])| < offset + limit
    ensures PageEnd(fs, offset, Some(limit)) == k + 1
  {
    ShortestIs(fs, offset + limit, k + 1);
  }

  /** A scan that never filled the page has seen everything. */
  lemma ShortIsAll<T, E>(fs: seq<Fate<T, E>>, offset: nat, limit: nat)
    requires |Successes(fs)| < offset + limit && limit > 0
    ensures PageEnd(fs, offset, Some(limit)) == |fs|
  {
    assert fs[..|fs|] == fs;
    if fs != [] {
      FatesStep(fs, |fs| - 1);
    }
    ShortestIs(fs, offset + limit, |fs|);
  }

  predicate DistinctIds(cs: seq<Candidate>) {
    forall i, j :: 0 <= i < j < |cs| ==> cs[i].id != cs[j].id
  }

  /** The page has all its entries. */
  predicate Full(found: nat, limit: Option<nat>) {
    limit == Some(found)
  }

  /** How far a scan must have come: to the end of the page if that is full, or else to `idx`. */
  ghost predicate Reaches<T, E>(fs: seq<Fate<T, E>>, seen: nat, idx: nat, offset: nat, limit: Option<nat>, found: nat) {
    && (limit.Some? ==> found <= limit.value)
    && seen == if Full(found, limit) then PageEnd(fs, offset, limit) else idx
  }

  /** Where a scan stands after some candidates, as it goes on or fills the page. */
  ghost predicate Scanning<T, E>(fs: seq<Fate<T, E>>, seen: nat, idx: nat, offset: nat, limit: Option<nat>, toSkip: nat,
                                 out: seq<CacheEntry<T>>, skipped: seq<Skipped<E>>, decodes: nat)
  {
    && seen <= idx <= |fs|
    && Stands(fs[..seen], offset, toSkip, out, skipped, decodes)
    && Reaches(fs, seen, idx, offset, limit, |out|)
  }

  /** Go through the candidates of one window, up to the end of the page. */
  method ScanWindow<T, E>(decode: Decode<T, E>, payloads: map<nat, Payload>, cs: seq<Candidate>, from: nat, to: nat,
                          offset: nat, limit: Option<nat>, toSkip: nat, out: seq<CacheEntry<T>>,
                          skipped: seq<Skipped<E>>, decodes: nat)
    returns (toSkip': nat, out': seq<CacheEntry<T>>, skipped': seq<Skipped<E>>, decodes': nat, ghost seen: nat)
    requires DistinctIds(cs) && from <= to <= |cs| && !Full(|out|, limit)
    requires Scanning(Fates(decode, payloads, cs), from, from, offset, limit, toSkip, out, skipped, decodes)
    ensures Scanning(Fates(decode, payloads, cs), seen, to, offset, limit, toSkip', out', skipped', decodes')
  {
    ghost var fs := Fates(decode, payloads, cs);
    toSkip', out', skipped', decodes', seen := toSkip, out, skipped, decodes, from;
    var byId: map<nat, Payload> := FetchWindow(payloads, IdsOf(cs[from..to]));
    WindowIsFetched(payloads, byId, cs, from, to);
    var i := from;
    while i < to
      invariant from <= i <= to && seen == i && Stands(fs[..seen], offset, toSkip', out', skipped', decodes')
      invariant limit.Some? ==> |out'| < limit.value
      invariant forall k :: i <= k < to ==> Lookup(byId, cs[k].id) == Lookup(payloads, cs[k].id)
    {
      var c := cs[i];
      StandsNext(fs, i, offset, toSkip', out', skipped', decodes');
      i, seen := i + 1, i + 1;
      if c.id !in byId {
        continue;
      }
      var payload := byId[c.id];
      byId := byId - {c.id};
      decodes' := decodes' + 1;
      var decoded := decode(c.path, payload);
      if decoded.Err? {
        skipped' := skipped' + [Skipped(c.path, decoded.error)];
        continue;
      }
      if toSkip' > 0 {
        toSkip' := toSkip' - 1;
        continue;
      }
      out' := out' + [CacheEntry(c.path, c.mtime, c.fileSize, c.hash, decoded.value)];
      if limit == Some(|out'|) {
        FullIsShortest(fs, i - 1, offset, |out'|);
        break;
      }
    }
  }

  /**
    `materialize`: the page is the decodable candidates in order with `offset` dropped and `limit` taken, and what is
    skipped is what fails to decode in the shortest prefix that fills the page, however the rows fall into windows.
   */
  method Materialize<T, E>(decode: Decode<T, E>, payloads: map<nat, Payload>, cs: seq<Candidate>, offset: nat,
                           limit: Option<nat>)
    returns (report: Report<T, E>, decodes: nat)
    requires DistinctIds(cs)
    ensures var fs := Fates(decode, payloads, cs);
            && report.entries == Slice(Successes(fs), offset, limit)
            && report.skipped == Failures(fs[..PageEnd(fs, offset, limit)])
    ensures limit.Some? ==> decodes <= offset + limit.value + |report.skipped|
  {
    ghost var fs := Fates(decode, payloads, cs);
    var toSkip: nat, out: seq<CacheEntry<T>>, skipped: seq<Skipped<E>>, idx := offset, [], [], 0;
    decodes := 0;
    ghost var seen := 0;
    while (limit.None? || |out| < limit.value) && idx < |cs|
      invariant Scanning(fs, seen, idx, offset, limit, toSkip, out, skipped, decodes)
      decreases |cs| - idx
    {
      var want := match limit case Some(t) => toSkip + (t - |out|) case None => |cs| - idx;
      var size := if want < WINDOW then want else WINDOW;
      var end := if |cs| - idx < size then |cs| else idx + size;
      toSkip, out, skipped, decodes, seen :=
        ScanWindow(decode, payloads, cs, idx, end, offset, limit, toSkip, out, skipped, decodes);
      idx := end;
    }
    PageIsComplete(fs, seen, offset, limit, toSkip, out, skipped, decodes);
    return Report(out, skipped), decodes;
  }

  function IdsOf(cs: seq<Candidate>): (ids: seq<nat>) {
    seq(|cs|, i requires 0 <= i < |cs| => cs[i].id)
  }

  lemma WindowIsFetched(payloads: map<nat, Payload>, byId: map<nat, Payload>, cs: seq<Candidate>, from: nat, to: nat)
    requires from <= to <= |cs| && forall id <- IdsOf(cs[from..to]) :: Lookup(byId, id) == Lookup(payloads, id)
    ensures forall k :: from <= k < to ==> Lookup(byId, cs[k].id) == Lookup(payloads, cs[k].id)
  {
    forall k | from <= k < to
      ensures Lookup(byId, cs[k].id) == Lookup(payloads, cs[k].id)
    {
      assert IdsOf(cs[from..to])[k - from] in IdsOf(cs[from..to]);
    }
  }

  lemma PageIsComplete<T, E>(fs: seq<Fate<T, E>>, seen: nat, offset: nat, limit: Option<nat>, toSkip: nat,
                             out: seq<CacheEntry<T>>, skipped: seq<Skipped<E>>, decodes: nat)
    requires seen <= |fs| && Stands(fs[..seen], offset, toSkip, out, skipped, decodes)
    requires limit.Some? ==> |out| <= limit.value
    requires if limit.Some? && |out| == limit.value then seen == PageEnd(fs, offset, limit) else seen == |fs|
    ensures out == Slice(Successes(fs), offset, limit) && skipped == Failures(fs[..PageEnd(fs, offset, limit)])
    ensures limit.Some? ==> decodes <= offset + limit.value + |skipped|
  {
    assert fs[..|fs|] == fs;
    if limit.Some? && limit.value > 0 && |out| < limit.value {
      ShortIsAll(fs, offset, limit.value);
    }
    PageIsInPrefix(fs, offset, limit);
  }
}
