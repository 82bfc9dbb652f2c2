/** Two ways to run a query: sort first and decode what the page needs, or decode everything and then sort. */
module QueryTiers {
  import opened Wrappers
  import opened QueryOrder
  import opened QueryPages

  /** A query on decoded payloads of type `T`, seen by its predicates and field keys as JSON values of type `J`. */
  datatype Query<!J> = Query(
    rank: Rank,
    predicates: seq<J -> bool>,
    field: (J, string) -> Option<real>,
    offset: nat,
    limit: Option<nat>
  )

  predicate HasFieldKey<J>(q: Query<J>) {
    exists i :: 0 <= i < |q.rank.keys| && q.rank.keys[i].Field?
  }

  /** `classify_query` chooses the first tier exactly when no payload is needed before the page is known. */
  predicate NeedsJson<J>(q: Query<J>) {
    q.predicates != [] || HasFieldKey(q)
  }

  function NoField(path: string): Option<real> {
    None
  }

  function FieldsOf<J>(q: Query<J>, json: J): string -> Option<real> {
    path => q.field(json, path)
  }

  function KeysOf(c: Candidate, field: string -> Option<real>): Keys {
    Keys(c.mtime, c.lastAccessed, c.path, field)
  }

  function Tags(cs: seq<Candidate>): (ts: seq<Tagged<Candidate>>) {
    seq(|cs|, i requires 0 <= i < |cs| => Tagged(KeysOf(cs[i], NoField), cs[i]))
  }

  function Values<X>(ts: seq<Tagged<X>>): (vs: seq<X>) {
    seq(|ts|, i requires 0 <= i < |ts| => ts[i].value)
  }

  /** The candidates in the order of the query. */
  function Ordered(rank: Rank, cs: seq<Candidate>): (r: seq<Candidate>) {
    Values(Sort(rank, Tags(cs)))
  }

  // ---------------------------------------------------------------------------
  // Tier 1
  // ---------------------------------------------------------------------------

  lemma OrderedMembers(rank: Rank, cs: seq<Candidate>)
    ensures forall c :: c in Ordered(rank, cs) <==> c in cs
  {
    var ts, sorted := Tags(cs), Sort(rank, Tags(cs));
    forall c
      ensures c in Ordered(rank, cs) <==> c in cs
    {
      var t := Tagged(KeysOf(c, NoField), c);
      if c in cs {
        var i :| 0 <= i < |cs| && cs[i] == c;
        assert ts[i] == t && t in multiset(ts);
        var j :| 0 <= j < |sorted| && sorted[j] == t;
        assert Ordered(rank, cs)[j] == c;
      }
      if c in Ordered(rank, cs) {
        var j :| 0 <= j < |sorted| && Ordered(rank, cs)[j] == c;
        assert sorted[j] in multiset(ts);
        var i :| 0 <= i < |ts| && ts[i] == sorted[j];
        assert cs[i] == c;
      }
    }
  }

  lemma NoRepeatsMultiset<X>(s: seq<X>, i: nat, j: nat)
    requires i < j < |s|
    ensures s[i] == s[j] ==> multiset(s)[s[i]] >= 2
  {
    assert s == s[..j] + [s[j]] + s[j + 1..];
    assert s[i] in s[..j];
  }

  lemma {:induction false} DistinctCountsOnce<X>(s: seq<X>, x: X)
    requires forall i, j :: 0 <= i < j < |s| ==> s[i] != s[j]
    ensures multiset(s)[x] <= 1
  {
    if s != [] {
      assert s == [s[0]] + s[1..];
      DistinctCountsOnce(s[1..], x);
    }
  }

  lemma OrderedIsDistinct(rank: Rank, cs: seq<Candidate>)
    requires DistinctIds(cs)
    ensures DistinctIds(Ordered(rank, cs))
  {
    var ts, sorted, r := Tags(cs), Sort(rank, Tags(cs)), Ordered(rank, cs);
    forall i, j | 0 <= i < j < |r|
      ensures r[i].id != r[j].id
    {
      OrderedMembers(rank, cs);
      assert r[i] in cs && r[j] in cs;
      NoRepeatsMultiset(sorted, i, j);
      DistinctCountsOnce(ts, sorted[i]);
      TagsFollow(rank, cs, i);
      TagsFollow(rank, cs, j);
    }
  }

  /** A sorted tag is the tag of its candidate. */
  lemma TagsFollow(rank: Rank, cs: seq<Candidate>, i: nat)
    requires i < |Sort(rank, Tags(cs))|
    ensures var t := Sort(rank, Tags(cs))[i]; t == Tagged(KeysOf(t.value, NoField), t.value)
  {
    assert Sort(rank, Tags(cs))[i] in multiset(Tags(cs));
  }

  /** Sort the candidates by what their rows say, then materialize the page. */
  method ExecuteTier1<T, E, J>(q: Query<J>, decode: Decode<T, E>, payloads: map<nat, Payload>, cs: seq<Candidate>)
    returns (report: Report<T, E>, decodes: nat)
    requires DistinctIds(cs)
    ensures var fs := Fates(decode, payloads, Ordered(q.rank, cs));
            && report.entries == Slice(Successes(fs), q.offset, q.limit)
            && report.skipped == Failures(fs[..PageEnd(fs, q.offset, q.limit)])
    ensures q.limit.Some? ==> decodes <= q.offset + q.limit.value + |report.skipped|
  {
    var order := Tags(cs);
    if q.rank.keys != [] {
      order := Sort(q.rank, order);
    } else {
      SortByNothing(q.rank, order);
    }
    OrderedIsDistinct(q.rank, cs);
    report, decodes := Materialize(decode, payloads, Values(order), q.offset, q.limit);
  }

  // ---------------------------------------------------------------------------
  // Tier 3
  // ---------------------------------------------------------------------------

  /** What becomes of a candidate when every payload is decoded. */
  datatype Verdict<+T, +E> = Absent | Bad(skipped: Skipped<E>) | Rejected | Match(entry: Tagged<CacheEntry<T>>)

  predicate MatchesAll<J>(predicates: seq<J -> bool>, json: J) {
    forall i :: 0 <= i < |predicates| ==> predicates[i](json)
  }

  function Judge<T, E, J>(q: Query<J>, decode: Decode<T, E>, toJson: T -> Result<J, E>, c: Candidate,
                          payload: Option<Payload>): (v: Verdict<T, E>)
  {
    match FateOf(decode, c, payload)
    case Missing => Absent
    case Failed(s) => Bad(s)
    case Decoded(entry) =>
      if !NeedsJson(q) then Match(Tagged(KeysOf(c, NoField), entry))
      else match toJson(entry.payload)
        case Err(error) => Bad(Skipped(c.path, error))
        case Ok(json) =>
          if MatchesAll(q.predicates, json) then Match(Tagged(KeysOf(c, FieldsOf(q, json)), entry)) else Rejected
  }

  function Verdicts<T, E, J>(q: Query<J>, decode: Decode<T, E>, toJson: T -> Result<J, E>, payloads: map<nat, Payload>,
                             cs: seq<Candidate>): (vs: seq<Verdict<T, E>>)
  {
    seq(|cs|, i requires 0 <= i < |cs| => Judge(q, decode, toJson, cs[i], Lookup(payloads, cs[i].id)))
  }

  function Matches<T, E>(vs: seq<Verdict<T, E>>): (ms: seq<Tagged<CacheEntry<T>>>) {
    if vs == [] then [] else if vs[0].Match? then [vs[0].entry] + Matches(vs[1..]) else Matches(vs[1..])
  }

  function Bads<T, E>(vs: seq<Verdict<T, E>>): (bs: seq<Skipped<E>>) {
    if vs == [] then [] else if vs[0].Bad? then [vs[0].skipped] + Bads(vs[1..]) else Bads(vs[1..])
  }

  lemma {:induction false} MatchesAppend<T, E>(a: seq<Verdict<T, E>>, b: seq<Verdict<T, E>>)
    ensures Matches(a + b) == Matches(a) + Matches(b)
  {
    if a == [] {
      assert a + b == b;
    } else {
      assert (a + b)[1..] == a[1..] + b;
      MatchesAppend(a[1..], b);
    }
  }

  lemma {:induction false} BadsAppend<T, E>(a: seq<Verdict<T, E>>, b: seq<Verdict<T, E>>)
    ensures Bads(a + b) == Bads(a) + Bads(b)
  {
    if a == [] {
      assert a + b == b;
    } else {
      assert (a + b)[1..] == a[1..] + b;
      BadsAppend(a[1..], b);
    }
  }

  lemma VerdictsStep<T, E>(vs: seq<Verdict<T, E>>, k: nat)
    requires k < |vs|
    ensures Matches(vs[..k + 1]) == Matches(vs[..k]) + if vs[k].Match? then [vs[k].entry] else []
    ensures Bads(vs[..k + 1]) == Bads(vs[..k]) + if vs[k].Bad? then [vs[k].skipped] else []
  {
    assert vs[..k + 1] == vs[..k] + [vs[k]];
    MatchesAppend(vs[..k], [vs[k]]);
    BadsAppend(vs[..k], [vs[k]]);
  }

  /** Decode every candidate and keep what matches. */
  method DecodeAll<T, E, J>(q: Query<J>, decode: Decode<T, E>, toJson: T -> Result<J, E>, payloads: map<nat, Payload>,
                            cs: seq<Candidate>)
    returns (matched: seq<Tagged<CacheEntry<T>>>, skipped: seq<Skipped<E>>)
    ensures var vs := Verdicts(q, decode, toJson, payloads, cs); matched == Matches(vs) && skipped == Bads(vs)
  {
    ghost var vs := Verdicts(q, decode, toJson, payloads, cs);
    matched, skipped := [], [];
    var i := 0;
    while i < |cs|
      invariant i <= |cs| && matched == Matches(vs[..i]) && skipped == Bads(vs[..i])
    {
      var c := cs[i];
      VerdictsStep(vs, i);
      i := i + 1;
      if c.id !in payloads {
        continue;
      }
      var decoded := decode(c.path, payloads[c.id]);
      if decoded.Err? {
        skipped := skipped + [Skipped(c.path, decoded.error)];
        continue;
      }
      var entry := CacheEntry(c.path, c.mtime, c.fileSize, c.hash, decoded.value);
      if !NeedsJson(q) {
        matched := matched + [Tagged(KeysOf(c, NoField), entry)];
        continue;
      }
      var json := toJson(entry.payload);
      if json.Err? {
        skipped := skipped + [Skipped(c.path, json.error)];
        continue;
      }
      if MatchesAll(q.predicates, json.value) {
        matched := matched + [Tagged(KeysOf(c, FieldsOf(q, json.value)), entry)];
      }
    }
    assert vs[..i] == vs;
  }

  lemma SliceBetween<X>(ts: seq<Tagged<X>>, offset: nat, limit: Option<nat>, start: nat, end: nat)
    requires start == (if offset < |ts| then offset else |ts|)
    requires end == if limit.Some? && start + limit.value < |ts| then start + limit.value else |ts|
    ensures Values(ts[start..end]) == Slice(Values(ts), offset, limit)
  {
    assert Values(ts[start..end]) == Values(ts)[start..end];
  }

  /** Decode every candidate, keep what matches, sort, and slice. */
  method ExecuteTier3<T, E, J>(q: Query<J>, decode: Decode<T, E>, toJson: T -> Result<J, E>,
                               payloads: map<nat, Payload>, cs: seq<Candidate>) returns (report: Report<T, E>)
    ensures var vs := Verdicts(q, decode, toJson, payloads, cs);
            && report.entries == Slice(Values(Sort(q.rank, Matches(vs))), q.offset, q.limit)
            && report.skipped == Bads(vs)
  {
    var matched, skipped := DecodeAll(q, decode, toJson, payloads, cs);
    if q.rank.keys != [] {
      matched := Sort(q.rank, matched);
    } else {
      SortByNothing(q.rank, matched);
    }
    var start := if q.offset < |matched| then q.offset else |matched|;
    var end := match q.limit
      case Some(l) => if start + l < |matched| then start + l else |matched|
      case None => |matched|;
    SliceBetween(matched, q.offset, q.limit, start, end);
    return Report(Values(matched[start..end]), skipped);
  }

  // ---------------------------------------------------------------------------
  // The tiers agree
  // ---------------------------------------------------------------------------

  function FateIn<T, E>(decode: Decode<T, E>, payloads: map<nat, Payload>): Candidate -> Fate<T, E> {
    (c: Candidate) => FateOf(decode, c, Lookup(payloads, c.id))
  }

  function IsDecoded<T, E>(): Fate<T, E> -> bool {
    (f: Fate<T, E>) => f.Decoded?
  }

  function Wrapped<T, E>(): CacheEntry<T> -> Fate<T, E> {
    (e: CacheEntry<T>) => Decoded(e)
  }

  /** Only what decodes counts for the entries. */
  lemma {:induction false} SuccessesOfDecoded<T, E>(ts: seq<Tagged<Fate<T, E>>>)
    ensures Successes(Values(ts)) == Successes(Values(Filter(IsDecoded<T, E>(), ts)))
  {
    if ts != [] {
      SuccessesOfDecoded(ts[1..]);
      assert Values(ts)[1..] == Values(ts[1..]);
      var rest := Filter(IsDecoded<T, E>(), ts[1..]);
      assert Values([ts[0]] + rest)[1..] == Values(rest);
    }
  }

  lemma {:induction false} SuccessesOfWrapped<T, E>(ts: seq<Tagged<CacheEntry<T>>>)
    ensures Successes(Values(Map(Wrapped<T, E>(), ts))) == Values(ts)
  {
    var ws := Map(Wrapped<T, E>(), ts);
    if ts != [] {
      SuccessesOfWrapped<T, E>(ts[1..]);
      assert Values(ws)[1..] == Values(Map(Wrapped<T, E>(), ts[1..]));
      assert Values(ts) == [ts[0].value] + Values(ts[1..]);
    }
  }

  /** One candidate: it matches exactly when it decodes, as the entry it decodes to. */
  lemma MatchIsDecoded<T, E, J>(q: Query<J>, decode: Decode<T, E>, toJson: T -> Result<J, E>, c: Candidate,
                                payload: Option<Payload>)
    requires !NeedsJson(q)
    ensures var v, f := Judge(q, decode, toJson, c, payload), FateOf(decode, c, payload);
            && (v.Match? <==> f.Decoded?)
            && (v.Match? ==> v.entry == Tagged(KeysOf(c, NoField), f.entry))
  {
  }

  lemma FirstDecoded<T, E>(ts: seq<Tagged<Fate<T, E>>>)
    requires ts != []
    ensures Filter(IsDecoded<T, E>(), ts)
         == (if ts[0].value.Decoded? then [ts[0]] else []) + Filter(IsDecoded<T, E>(), ts[1..])
  {
  }

  lemma FirstWrapped<T, E>(t: Tagged<CacheEntry<T>>, ts: seq<Tagged<CacheEntry<T>>>)
    ensures Map(Wrapped<T, E>(), [t] + ts) == [Tagged(t.keys, Decoded(t.value))] + Map(Wrapped<T, E>(), ts)
  {
  }

  /** The matches are the decoded fates, when nothing is asked of the payloads. */
  lemma {:induction false} MatchesAreDecoded<T, E, J>(q: Query<J>, decode: Decode<T, E>, toJson: T -> Result<J, E>,
                                                      payloads: map<nat, Payload>, cs: seq<Candidate>)
    requires !NeedsJson(q)
    ensures Filter(IsDecoded<T, E>(), Map(FateIn(decode, payloads), Tags(cs)))
         == Map(Wrapped<T, E>(), Matches(Verdicts(q, decode, toJson, payloads, cs)))
    decreases |cs|
  {
    if cs != [] {
      MatchesAreDecoded(q, decode, toJson, payloads, cs[1..]);
      var fates := Map(FateIn(decode, payloads), Tags(cs));
      assert fates[1..] == Map(FateIn(decode, payloads), Tags(cs[1..]));
      var vs := Verdicts(q, decode, toJson, payloads, cs);
      assert vs[1..] == Verdicts(q, decode, toJson, payloads, cs[1..]);
      MatchIsDecoded(q, decode, toJson, cs[0], Lookup(payloads, cs[0].id));
      FirstDecoded(fates);
      if vs[0].Match? {
        FirstWrapped<T, E>(vs[0].entry, Matches(vs[1..]));
      }
    }
  }

  lemma FatesAreMapped<T, E>(decode: Decode<T, E>, payloads: map<nat, Payload>, ts: seq<Tagged<Candidate>>)
    ensures Fates(decode, payloads, Values(ts)) == Values(Map(FateIn(decode, payloads), ts))
  {
  }

  /**
    Late materialization is decoding everything: with no predicate and no field key, the sorted candidates that decode
    are the decoded candidates sorted, so both tiers return the same entries for every offset and limit.
   */
  lemma TiersAgree<T, E, J>(q: Query<J>, decode: Decode<T, E>, toJson: T -> Result<J, E>, payloads: map<nat, Payload>,
                            cs: seq<Candidate>)
    requires Lawful(q.rank.paths) && !NeedsJson(q)
    ensures Successes(Fates(decode, payloads, Ordered(q.rank, cs)))
         == Values(Sort(q.rank, Matches(Verdicts(q, decode, toJson, payloads, cs))))
  {
    var f, tags := FateIn(decode, payloads), Tags(cs);
    var fates := Map(f, tags);
    var matches := Matches(Verdicts(q, decode, toJson, payloads, cs));
    FatesAreMapped(decode, payloads, Sort(q.rank, tags));
    MapSort(q.rank, f, tags);
    SuccessesOfDecoded(Sort(q.rank, fates));
    SortCommutesWithFilter(q.rank, IsDecoded<T, E>(), fates);
    MatchesAreDecoded(q, decode, toJson, payloads, cs);
    MapSort(q.rank, Wrapped<T, E>(), matches);
    SuccessesOfWrapped<T, E>(Sort(q.rank, matches));
  }

  lemma {:induction false} FailuresAre<T, E>(fs: seq<Fate<T, E>>, s: Skipped<E>)
    ensures s in Failures(fs) <==> Failed(s) in fs
  {
    if fs != [] {
      FailuresAre(fs[1..], s);
      assert fs == [fs[0]] + fs[1..];
    }
  }

  lemma {:induction false} BadsAreFailures<T, E, J>(q: Query<J>, decode: Decode<T, E>, toJson: T -> Result<J, E>,
                                                    payloads: map<nat, Payload>, cs: seq<Candidate>)
    requires !NeedsJson(q)
    ensures Bads(Verdicts(q, decode, toJson, payloads, cs)) == Failures(Fates(decode, payloads, cs))
    decreases |cs|
  {
    if cs != [] {
      BadsAreFailures(q, decode, toJson, payloads, cs[1..]);
      assert Fates(decode, payloads, cs)[1..] == Fates(decode, payloads, cs[1..]);
      var vs := Verdicts(q, decode, toJson, payloads, cs);
      assert vs[1..] == Verdicts(q, decode, toJson, payloads, cs[1..]);
    }
  }

  lemma FateOfOrdered<T, E>(decode: Decode<T, E>, payloads: map<nat, Payload>, rank: Rank, cs: seq<Candidate>,
                            f: Fate<T, E>)
    ensures f in Fates(decode, payloads, Ordered(rank, cs)) <==> f in Fates(decode, payloads, cs)
  {
    OrderedMembers(rank, cs);
    var r := Ordered(rank, cs);
    if f in Fates(decode, payloads, r) {
      var i :| 0 <= i < |r| && Fates(decode, payloads, r)[i] == f;
      assert r[i] in cs;
      var j :| 0 <= j < |cs| && cs[j] == r[i];
      assert Fates(decode, payloads, cs)[j] == f;
    }
    if f in Fates(decode, payloads, cs) {
      var j :| 0 <= j < |cs| && Fates(decode, payloads, cs)[j] == f;
      assert cs[j] in r;
      var i :| 0 <= i < |r| && r[i] == cs[j];
      assert Fates(decode, payloads, r)[i] == f;
    }
  }

  /** The first tier skips nothing the third would not, and without a limit it skips the same entries. */
  lemma TierOneSkipsNoMore<T, E, J>(q: Query<J>, decode: Decode<T, E>, toJson: T -> Result<J, E>,
                                    payloads: map<nat, Payload>, cs: seq<Candidate>, s: Skipped<E>)
    requires !NeedsJson(q)
    ensures var fs := Fates(decode, payloads, Ordered(q.rank, cs));
            var first := Failures(fs[..PageEnd(fs, q.offset, q.limit)]);
            var third := Bads(Verdicts(q, decode, toJson, payloads, cs));
            (s in first ==> s in third) && (q.limit.None? ==> (s in first <==> s in third))
  {
    var fs := Fates(decode, payloads, Ordered(q.rank, cs));
    var k := PageEnd(fs, q.offset, q.limit);
    BadsAreFailures(q, decode, toJson, payloads, cs);
    FailuresAre(fs[..k], s);
    FailuresAre(Fates(decode, payloads, cs), s);
    FateOfOrdered(decode, payloads, q.rank, cs, Failed(s));
    assert k == |fs| ==> fs[..k] == fs;
  }
}
