/** What a query answers, said of candidates, payloads and predicates, and running it. */
module QueryAnswers {
  import opened Wrappers
  import opened QueryOrder
  import opened QueryPages
  import opened QueryTiers

  // ---------------------------------------------------------------------------
  // The answer
  // ---------------------------------------------------------------------------

  /** Whether a query looks into payloads: it has a predicate, or sorts by a field. */
  ghost predicate LooksInside<J>(q: Query<J>) {
    q.predicates != [] || exists key <- q.rank.keys :: key.Field?
  }

  /** A candidate answers a query with an entry if its payload decodes to it and as JSON makes every predicate true. */
  ghost predicate Answers<T, E, J>(q: Query<J>, decode: Decode<T, E>, toJson: T -> Result<J, E>,
                                   payloads: map<nat, Payload>, c: Candidate, e: CacheEntry<T>)
  {
    && c.id in payloads && decode(c.path, payloads[c.id]) == Ok(e.payload)
    && e == CacheEntry(c.path, c.mtime, c.fileSize, c.hash, e.payload)
    && (LooksInside(q) ==> toJson(e.payload).Ok?)
    && forall p <- q.predicates :: toJson(e.payload).Ok? && p(toJson(e.payload).value)
  }

  /** A candidate is an error if its payload does not decode, or has no JSON and the query looks inside. */
  ghost predicate Errs<T, E, J>(q: Query<J>, decode: Decode<T, E>, toJson: T -> Result<J, E>,
                                payloads: map<nat, Payload>, c: Candidate, error: E)
  {
    && c.id in payloads
    && match decode(c.path, payloads[c.id])
       case Err(e) => error == e
       case Ok(value) => LooksInside(q) && toJson(value) == Err(error)
  }

  /** What an answer is sorted by: its row, and the fields of its JSON. */
  function SortKeys<T, E, J>(q: Query<J>, toJson: T -> Result<J, E>, c: Candidate, e: CacheEntry<T>): (keys: Keys) {
    var json := toJson(e.payload);
    Keys(c.mtime, c.lastAccessed, c.path, path => if json.Ok? then q.field(json.value, path) else None)
  }

  /** The place of a candidate, and the entry it answers with. */
  datatype Answer<+T> = Answer(place: nat, entry: CacheEntry<T>)

  /** One answer goes before another: by the query's keys, or by its place if they tie. */
  ghost predicate GoesBefore<T, E, J>(q: Query<J>, toJson: T -> Result<J, E>, cs: seq<Candidate>, a: Answer<T>,
                                      b: Answer<T>)
  {
    && a.place < |cs| && b.place < |cs|
    && var c := Compare(q.rank, SortKeys(q, toJson, cs[a.place], a.entry), SortKeys(q, toJson, cs[b.place], b.entry));
       c == Less || (c == Equal && a.place < b.place)
  }

  /** Every member answers, and goes before all behind it. */
  ghost predicate InOrder<T, E, J>(q: Query<J>, decode: Decode<T, E>, toJson: T -> Result<J, E>,
                                   payloads: map<nat, Payload>, cs: seq<Candidate>, answers: seq<Answer<T>>)
  {
    && (forall a <- answers :: a.place < |cs| && Answers(q, decode, toJson, payloads, cs[a.place], a.entry))
    && (forall i, j :: 0 <= i < j < |answers| ==> GoesBefore(q, toJson, cs, answers[i], answers[j]))
  }

  /** `answers` are exactly the answers there are, in the order of the query. Only one sequence is. */
  ghost predicate AreAnswers<T(!new), E, J>(q: Query<J>, decode: Decode<T, E>, toJson: T -> Result<J, E>,
                                      payloads: map<nat, Payload>, cs: seq<Candidate>, answers: seq<Answer<T>>)
  {
    && InOrder(q, decode, toJson, payloads, cs, answers)
    && forall i: nat, e :: i < |cs| && Answers(q, decode, toJson, payloads, cs[i], e) ==> Answer(i, e) in answers
  }

  function Entries<T>(answers: seq<Answer<T>>): (entries: seq<CacheEntry<T>>) {
    seq(|answers|, k requires 0 <= k < |answers| => answers[k].entry)
  }

  // ---------------------------------------------------------------------------
  // One candidate
  // ---------------------------------------------------------------------------

  lemma LooksInsideIff<J>(q: Query<J>)
    ensures LooksInside(q) <==> NeedsJson(q)
  {
    if HasFieldKey(q) {
      var i :| 0 <= i < |q.rank.keys| && q.rank.keys[i].Field?;
      assert q.rank.keys[i] in q.rank.keys;
    }
  }

  /** A candidate matches exactly when it answers, and is bad exactly when it is an error. */
  lemma VerdictIs<T, E, J>(q: Query<J>, decode: Decode<T, E>, toJson: T -> Result<J, E>, payloads: map<nat, Payload>,
                           c: Candidate)
    ensures var v := Judge(q, decode, toJson, c, Lookup(payloads, c.id));
            && (forall e :: v.Match? && v.entry.value == e <==> Answers(q, decode, toJson, payloads, c, e))
            && (forall s :: v == Bad(s) <==> s.path == c.path && Errs(q, decode, toJson, payloads, c, s.error))
            && (v.Match? ==> SameKeys(q.rank, v.entry.keys, SortKeys(q, toJson, c, v.entry.value)))
  {
    LooksInsideIff(q);
    if c.id in payloads && decode(c.path, payloads[c.id]).Ok? {
      var json := toJson(decode(c.path, payloads[c.id]).value);
      if json.Ok? {
        AllPredicates(q.predicates, json.value);
      }
    }
  }

  lemma AllPredicates<J>(predicates: seq<J -> bool>, json: J)
    ensures MatchesAll(predicates, json) <==> forall p <- predicates :: p(json)
  {
    if MatchesAll(predicates, json) {
      forall p | p in predicates
        ensures p(json)
      {
        var i :| 0 <= i < |predicates| && predicates[i] == p;
      }
    }
  }

  /** Two ways to say what a value is sorted by, which the keys of `rank` do not tell apart. */
  ghost predicate SameKeys(rank: Rank, a: Keys, b: Keys) {
    && a.mtime == b.mtime && a.lastAccessed == b.lastAccessed && a.path == b.path
    && forall key <- rank.keys :: key.Field? ==> a.field(key.path) == b.field(key.path)
  }

  lemma {:induction false} SameKeysCompare(rank: Rank, a: Keys, a': Keys, b: Keys, b': Keys)
    requires SameKeys(rank, a, a') && SameKeys(rank, b, b')
    ensures Compare(rank, a, b) == Compare(rank, a', b')
    decreases |rank.keys|
  {
    if rank.keys != [] {
      assert rank.keys[0] in rank.keys && forall key <- rank.keys[1..] :: key in rank.keys;
      SameKeysCompare(rank.(keys := rank.keys[1..]), a, a', b, b');
    }
  }

  // ---------------------------------------------------------------------------
  // All candidates
  // ---------------------------------------------------------------------------

  /** The matches, each with its place. */
  function Numbered<T, E>(vs: seq<Verdict<T, E>>, first: nat): (ms: seq<Tagged<Answer<T>>>) {
    if vs == [] then []
    else
      var rest := Numbered(vs[1..], first + 1);
      if vs[0].Match? then [Tagged(vs[0].entry.keys, Answer(first, vs[0].entry.value))] + rest else rest
  }

  function Entry<T>(): Answer<T> -> CacheEntry<T> {
    (a: Answer<T>) => a.entry
  }

  lemma {:induction false} NumberedAreMatches<T, E>(vs: seq<Verdict<T, E>>, first: nat)
    ensures Map(Entry<T>(), Numbered(vs, first)) == Matches(vs)
  {
    if vs != [] {
      NumberedAreMatches(vs[1..], first + 1);
      if vs[0].Match? {
        MapFirst(Entry<T>(), Numbered(vs, first)[0], Numbered(vs[1..], first + 1));
      }
    }
  }

  /** `m` is the match at its place. */
  ghost predicate IsAt<T, E>(vs: seq<Verdict<T, E>>, first: nat, m: Tagged<Answer<T>>) {
    && first <= m.value.place < first + |vs|
    && vs[m.value.place - first] == Match(Tagged(m.keys, m.value.entry))
  }

  lemma {:induction false} NumberedAre<T, E>(vs: seq<Verdict<T, E>>, first: nat, m: Tagged<Answer<T>>)
    ensures m in Numbered(vs, first) <==> IsAt(vs, first, m)
  {
    if vs != [] {
      NumberedAre(vs[1..], first + 1, m);
      var rest := Numbered(vs[1..], first + 1);
      if vs[0].Match? {
        var head := Tagged(vs[0].entry.keys, Answer(first, vs[0].entry.value));
        assert m in [head] + rest <==> m == head || m in rest;
      }
      if m.value.place > first && m.value.place < first + |vs| {
        assert vs[1..][m.value.place - first - 1] == vs[m.value.place - first];
      }
    }
  }

  /** Where the keys tie, the places rise. */
  ghost predicate TiesRise<X>(rank: Rank, s: seq<Tagged<Answer<X>>>) {
    forall i, j :: 0 <= i < j < |s| && Compare(rank, s[i].keys, s[j].keys) == Equal ==>
      s[i].value.place < s[j].value.place
  }

  lemma RiseCons<X>(rank: Rank, x: Tagged<Answer<X>>, s: seq<Tagged<Answer<X>>>)
    requires TiesRise(rank, s)
    requires forall y <- s :: Compare(rank, x.keys, y.keys) == Equal ==> x.value.place < y.value.place
    ensures TiesRise(rank, [x] + s)
  {
  }

  /** What ties with the first of a sequence has a later place. */
  lemma FirstRises<X>(rank: Rank, s: seq<Tagged<Answer<X>>>, y: Tagged<Answer<X>>)
    requires TiesRise(rank, s) && s != [] && y in s[1..] && Compare(rank, s[0].keys, y.keys) == Equal
    ensures s[0].value.place < y.value.place
  {
    var k :| 0 < k < |s| && s[k] == y;
  }

  lemma {:induction false} InsertKeepsRise<X>(rank: Rank, x: Tagged<Answer<X>>, s: seq<Tagged<Answer<X>>>)
    requires Lawful(rank.paths) && TiesRise(rank, s) && forall y <- s :: x.value.place < y.value.place
    ensures TiesRise(rank, Insert(rank, x, s))
  {
    if s == [] || Compare(rank, x.keys, s[0].keys) != Greater {
      RiseCons(rank, x, s);
    } else {
      assert s == [s[0]] + s[1..];
      CompareFlips(rank, x.keys, s[0].keys);
      InsertKeepsRise(rank, x, s[1..]);
      InsertMembers(rank, x, s[1..]);
      forall y | y in Insert(rank, x, s[1..]) && Compare(rank, s[0].keys, y.keys) == Equal
        ensures s[0].value.place < y.value.place
      {
        FirstRises(rank, s, y);
      }
      RiseCons(rank, s[0], Insert(rank, x, s[1..]));
    }
  }

  lemma {:induction false} SortedRise<T, E>(rank: Rank, vs: seq<Verdict<T, E>>, first: nat)
    requires Lawful(rank.paths)
    ensures TiesRise(rank, Sort(rank, Numbered(vs, first)))
  {
    if vs != [] {
      SortedRise(rank, vs[1..], first + 1);
      var rest := Numbered(vs[1..], first + 1);
      if vs[0].Match? {
        forall y | y in Sort(rank, rest)
          ensures first < y.value.place
        {
          assert y in multiset(rest);
          NumberedAre(vs[1..], first + 1, y);
        }
        InsertKeepsRise(rank, Numbered(vs, first)[0], Sort(rank, rest));
        assert Numbered(vs, first)[1..] == rest;
      }
    }
  }

  /** What a sorted match says of its candidate. */
  lemma PlaceIs<T, E, J>(q: Query<J>, decode: Decode<T, E>, toJson: T -> Result<J, E>, payloads: map<nat, Payload>,
                         cs: seq<Candidate>, m: Tagged<Answer<T>>)
    requires m in Sort(q.rank, Numbered(Verdicts(q, decode, toJson, payloads, cs), 0))
    ensures m.value.place < |cs| && Answers(q, decode, toJson, payloads, cs[m.value.place], m.value.entry)
    ensures SameKeys(q.rank, m.keys, SortKeys(q, toJson, cs[m.value.place], m.value.entry))
  {
    var vs := Verdicts(q, decode, toJson, payloads, cs);
    assert m in multiset(Numbered(vs, 0));
    NumberedAre(vs, 0, m);
    VerdictIs(q, decode, toJson, payloads, cs[m.value.place]);
  }

  /** Every answer has its place. */
  lemma PlaceOf<T, E, J>(q: Query<J>, decode: Decode<T, E>, toJson: T -> Result<J, E>, payloads: map<nat, Payload>,
                         cs: seq<Candidate>, i: nat, e: CacheEntry<T>)
    requires i < |cs| && Answers(q, decode, toJson, payloads, cs[i], e)
    ensures Answer(i, e) in Values(Sort(q.rank, Numbered(Verdicts(q, decode, toJson, payloads, cs), 0)))
  {
    var vs := Verdicts(q, decode, toJson, payloads, cs);
    var s := Sort(q.rank, Numbered(vs, 0));
    VerdictIs(q, decode, toJson, payloads, cs[i]);
    var m := Tagged(vs[i].entry.keys, Answer(i, e));
    NumberedAre(vs, 0, m);
    assert m in multiset(s);
    var k :| 0 <= k < |s| && s[k] == m;
    assert Values(s)[k] == Answer(i, e);
  }

  lemma TagsGoBefore<T, E, J>(q: Query<J>, toJson: T -> Result<J, E>, cs: seq<Candidate>, a: Tagged<Answer<T>>,
                              b: Tagged<Answer<T>>)
    requires a.value.place < |cs| && SameKeys(q.rank, a.keys, SortKeys(q, toJson, cs[a.value.place], a.value.entry))
    requires b.value.place < |cs| && SameKeys(q.rank, b.keys, SortKeys(q, toJson, cs[b.value.place], b.value.entry))
    requires Compare(q.rank, a.keys, b.keys) != Greater
    requires Compare(q.rank, a.keys, b.keys) == Equal ==> a.value.place < b.value.place
    ensures GoesBefore(q, toJson, cs, a.value, b.value)
  {
    SameKeysCompare(q.rank, a.keys, SortKeys(q, toJson, cs[a.value.place], a.value.entry),
                    b.keys, SortKeys(q, toJson, cs[b.value.place], b.value.entry));
  }

  lemma SortedAreInOrder<T, E, J>(q: Query<J>, decode: Decode<T, E>, toJson: T -> Result<J, E>,
                                  payloads: map<nat, Payload>, cs: seq<Candidate>)
    requires Lawful(q.rank.paths)
    ensures InOrder(q, decode, toJson, payloads, cs,
                    Values(Sort(q.rank, Numbered(Verdicts(q, decode, toJson, payloads, cs), 0))))
  {
    var vs := Verdicts(q, decode, toJson, payloads, cs);
    var s := Sort(q.rank, Numbered(vs, 0));
    forall k | 0 <= k < |s|
      ensures s[k].value.place < |cs|
      ensures Answers(q, decode, toJson, payloads, cs[s[k].value.place], s[k].value.entry)
    {
      PlaceIs(q, decode, toJson, payloads, cs, s[k]);
    }
    SortIsSorted(q.rank, Numbered(vs, 0));
    SortedRise(q.rank, vs, 0);
    forall i, j | 0 <= i < j < |s|
      ensures GoesBefore(q, toJson, cs, s[i].value, s[j].value)
    {
      PlaceIs(q, decode, toJson, payloads, cs, s[i]);
      PlaceIs(q, decode, toJson, payloads, cs, s[j]);
      TagsGoBefore(q, toJson, cs, s[i], s[j]);
    }
  }

  /** The matches, sorted, are the answers there are, in the order of the query. */
  lemma MatchesAreAnswers<T(!new), E, J>(q: Query<J>, decode: Decode<T, E>, toJson: T -> Result<J, E>,
                                         payloads: map<nat, Payload>, cs: seq<Candidate>)
    returns (answers: seq<Answer<T>>)
    requires Lawful(q.rank.paths)
    ensures AreAnswers(q, decode, toJson, payloads, cs, answers)
    ensures Values(Sort(q.rank, Matches(Verdicts(q, decode, toJson, payloads, cs)))) == Entries(answers)
  {
    var numbered := Numbered(Verdicts(q, decode, toJson, payloads, cs), 0);
    answers := Values(Sort(q.rank, numbered));
    SortedAreInOrder(q, decode, toJson, payloads, cs);
    forall i: nat, e | i < |cs| && Answers(q, decode, toJson, payloads, cs[i], e)
      ensures Answer(i, e) in answers
    {
      PlaceOf(q, decode, toJson, payloads, cs, i, e);
    }
    NumberedAreMatches(Verdicts(q, decode, toJson, payloads, cs), 0);
    MapSort(q.rank, Entry<T>(), numbered);
  }

  lemma NeverBoth<T, E, J>(q: Query<J>, toJson: T -> Result<J, E>, cs: seq<Candidate>, a: Answer<T>, b: Answer<T>)
    requires Lawful(q.rank.paths) && GoesBefore(q, toJson, cs, a, b)
    ensures a != b && !GoesBefore(q, toJson, cs, b, a)
  {
    CompareFlips(q.rank, SortKeys(q, toJson, cs[a.place], a.entry), SortKeys(q, toJson, cs[b.place], b.entry));
  }

  lemma {:induction false} OrderIsUnique<T, E, J>(q: Query<J>, decode: Decode<T, E>, toJson: T -> Result<J, E>,
                                                  payloads: map<nat, Payload>, cs: seq<Candidate>, a: seq<Answer<T>>,
                                                  b: seq<Answer<T>>)
    requires Lawful(q.rank.paths) && forall x :: x in a <==> x in b
    requires InOrder(q, decode, toJson, payloads, cs, a) && InOrder(q, decode, toJson, payloads, cs, b)
    ensures a == b
    decreases |a|
  {
    if a == [] {
      HeadIsMember(b);
    } else {
      HeadIsMember(a);
      HeadIsMember(b);
      var i :| 0 <= i < |b| && b[i] == a[0];
      var j :| 0 <= j < |a| && a[j] == b[0];
      if i > 0 && j > 0 {
        NeverBoth(q, toJson, cs, a[0], b[0]);
        assert false;
      }
      RestHasNoHead(q, decode, toJson, payloads, cs, a);
      RestHasNoHead(q, decode, toJson, payloads, cs, b);
      OrderIsUnique(q, decode, toJson, payloads, cs, a[1..], b[1..]);
    }
  }

  lemma HeadIsMember<X>(s: seq<X>)
    ensures s != [] ==> s[0] in s
  {
  }

  lemma RestHasNoHead<T, E, J>(q: Query<J>, decode: Decode<T, E>, toJson: T -> Result<J, E>,
                               payloads: map<nat, Payload>, cs: seq<Candidate>, a: seq<Answer<T>>)
    requires Lawful(q.rank.paths) && a != [] && InOrder(q, decode, toJson, payloads, cs, a)
    ensures InOrder(q, decode, toJson, payloads, cs, a[1..])
    ensures forall x :: x in a[1..] <==> x in a && x != a[0]
  {
    assert a == [a[0]] + a[1..];
    forall x | x in a[1..]
      ensures x != a[0]
    {
      var k :| 0 < k < |a| && a[k] == x;
      NeverBoth(q, toJson, cs, a[0], a[k]);
    }
  }

  /** Only one sequence is the answers to a query. */
  lemma AnswersAreUnique<T(!new), E, J>(q: Query<J>, decode: Decode<T, E>, toJson: T -> Result<J, E>,
                                  payloads: map<nat, Payload>, cs: seq<Candidate>, a: seq<Answer<T>>,
                                  b: seq<Answer<T>>)
    requires Lawful(q.rank.paths)
    requires AreAnswers(q, decode, toJson, payloads, cs, a) && AreAnswers(q, decode, toJson, payloads, cs, b)
    ensures a == b
  {
    forall x | x in a
      ensures x in b
    {
      assert x == Answer(x.place, x.entry);
    }
    forall x | x in b
      ensures x in a
    {
      assert x == Answer(x.place, x.entry);
    }
    OrderIsUnique(q, decode, toJson, payloads, cs, a, b);
  }

  lemma {:induction false} BadsAre<T, E>(vs: seq<Verdict<T, E>>, s: Skipped<E>)
    ensures s in Bads(vs) <==> Bad(s) in vs
  {
    if vs != [] {
      BadsAre(vs[1..], s);
      assert vs == [vs[0]] + vs[1..];
    }
  }

  /** What is bad is what is an error. */
  lemma BadsAreErrors<T, E, J>(q: Query<J>, decode: Decode<T, E>, toJson: T -> Result<J, E>,
                               payloads: map<nat, Payload>, cs: seq<Candidate>, s: Skipped<E>)
    ensures s in Bads(Verdicts(q, decode, toJson, payloads, cs))
       <==> exists c <- cs :: s.path == c.path && Errs(q, decode, toJson, payloads, c, s.error)
  {
    var vs := Verdicts(q, decode, toJson, payloads, cs);
    BadsAre(vs, s);
    forall i | 0 <= i < |cs|
      ensures vs[i] == Bad(s) <==> s.path == cs[i].path && Errs(q, decode, toJson, payloads, cs[i], s.error)
    {
      VerdictIs(q, decode, toJson, payloads, cs[i]);
    }
    if c :| c in cs && s.path == c.path && Errs(q, decode, toJson, payloads, c, s.error) {
      var i :| 0 <= i < |cs| && cs[i] == c;
      assert vs[i] in vs;
    }
  }

  // ---------------------------------------------------------------------------
  // A page of the answer
  // ---------------------------------------------------------------------------

  /** The entries of the answers, with the query's offset dropped and its limit taken. */
  ghost predicate IsPage<T(!new), E, J>(q: Query<J>, decode: Decode<T, E>, toJson: T -> Result<J, E>,
                                  payloads: map<nat, Payload>, cs: seq<Candidate>, entries: seq<CacheEntry<T>>)
  {
    exists answers: seq<Answer<T>> ::
      && AreAnswers(q, decode, toJson, payloads, cs, answers)
      && entries == Slice(Entries(answers), q.offset, q.limit)
  }

  /** What is on a page is the answer of a candidate, and on a page without bounds are all of them. */
  lemma PageHoldsAnswers<T(!new), E, J>(q: Query<J>, decode: Decode<T, E>, toJson: T -> Result<J, E>,
                                  payloads: map<nat, Payload>, cs: seq<Candidate>, entries: seq<CacheEntry<T>>)
    requires IsPage(q, decode, toJson, payloads, cs, entries)
    ensures forall e <- entries :: exists c <- cs :: Answers(q, decode, toJson, payloads, c, e)
    ensures q.offset == 0 && q.limit.None? ==>
              forall c, e :: c in cs && Answers(q, decode, toJson, payloads, c, e) ==> e in entries
  {
    var answers: seq<Answer<T>> :| && AreAnswers(q, decode, toJson, payloads, cs, answers)
                   && entries == Slice(Entries(answers), q.offset, q.limit);
    var all := Entries(answers);
    forall e | e in entries
      ensures exists c <- cs :: Answers(q, decode, toJson, payloads, c, e)
    {
      assert e in all;
      var k :| 0 <= k < |all| && all[k] == e;
      assert answers[k] in answers && cs[answers[k].place] in cs;
    }
    if q.offset == 0 && q.limit.None? {
      forall c, e | c in cs && Answers(q, decode, toJson, payloads, c, e)
        ensures e in entries
      {
        var i: nat :| i < |cs| && cs[i] == c;
        assert Answer(i, e) in answers;
        var k :| 0 <= k < |answers| && answers[k] == Answer(i, e);
        assert all[k] == e;
      }
    }
  }

  // ---------------------------------------------------------------------------
  // Running a query
  // ---------------------------------------------------------------------------

  /** What a query skips: the failures among the candidates its page looks at, or all if it decodes everything. */
  function SkippedBy<T, E, J>(q: Query<J>, decode: Decode<T, E>, toJson: T -> Result<J, E>, payloads: map<nat, Payload>,
                              cs: seq<Candidate>): (skipped: seq<Skipped<E>>)
  {
    if NeedsJson(q) then Bads(Verdicts(q, decode, toJson, payloads, cs))
    else
      var fs := Fates(decode, payloads, Ordered(q.rank, cs));
      Failures(fs[..PageEnd(fs, q.offset, q.limit)])
  }

  lemma SkippedAreErrors<T, E, J>(q: Query<J>, decode: Decode<T, E>, toJson: T -> Result<J, E>,
                                  payloads: map<nat, Payload>, cs: seq<Candidate>, s: Skipped<E>)
    ensures var errs := exists c <- cs :: s.path == c.path && Errs(q, decode, toJson, payloads, c, s.error);
            && (s in SkippedBy(q, decode, toJson, payloads, cs) ==> errs)
            && (errs && (LooksInside(q) || q.limit.None?) ==> s in SkippedBy(q, decode, toJson, payloads, cs))
  {
    LooksInsideIff(q);
    BadsAreErrors(q, decode, toJson, payloads, cs, s);
    if !NeedsJson(q) {
      TierOneSkipsNoMore(q, decode, toJson, payloads, cs, s);
    }
  }

  /** `execute_report`, on an engine whose payloads are never evaluated in SQL. */
  method ExecuteReport<T(!new), E, J>(q: Query<J>, decode: Decode<T, E>, toJson: T -> Result<J, E>,
                                payloads: map<nat, Payload>, cs: seq<Candidate>) returns (report: Report<T, E>)
    requires DistinctIds(cs) && Lawful(q.rank.paths)
    ensures report.entries
         == Slice(Values(Sort(q.rank, Matches(Verdicts(q, decode, toJson, payloads, cs)))), q.offset, q.limit)
    ensures report.skipped == SkippedBy(q, decode, toJson, payloads, cs)
    ensures IsPage(q, decode, toJson, payloads, cs, report.entries)
    ensures forall e <- report.entries :: exists c <- cs :: Answers(q, decode, toJson, payloads, c, e)
    ensures q.offset == 0 && q.limit.None? ==>
              forall c, e :: c in cs && Answers(q, decode, toJson, payloads, c, e) ==> e in report.entries
    ensures forall s <- report.skipped :: exists c <- cs ::
              s.path == c.path && Errs(q, decode, toJson, payloads, c, s.error)
    ensures LooksInside(q) || q.limit.None? ==>
              forall c, error :: c in cs && Errs(q, decode, toJson, payloads, c, error) ==>
                Skipped(c.path, error) in report.skipped
  {
    if !NeedsJson(q) {
      var decodes;
      report, decodes := ExecuteTier1(q, decode, payloads, cs);
      TiersAgree(q, decode, toJson, payloads, cs);
    } else {
      report := ExecuteTier3(q, decode, toJson, payloads, cs);
    }
    ghost var answers := MatchesAreAnswers(q, decode, toJson, payloads, cs);
    PageHoldsAnswers(q, decode, toJson, payloads, cs, report.entries);
    forall s: Skipped<E>
      ensures var errs := exists c <- cs :: s.path == c.path && Errs(q, decode, toJson, payloads, c, s.error);
              && (s in report.skipped ==> errs)
              && (errs && (LooksInside(q) || q.limit.None?) ==> s in report.skipped)
    {
      SkippedAreErrors(q, decode, toJson, payloads, cs, s);
    }
  }

  /** `execute_query`: the report's entries, or the error of the first entry it skipped. */
  method ExecuteQuery<T(!new), E, J>(q: Query<J>, decode: Decode<T, E>, toJson: T -> Result<J, E>,
                               payloads: map<nat, Payload>, cs: seq<Candidate>)
    returns (r: Result<seq<CacheEntry<T>>, E>)
    requires DistinctIds(cs) && Lawful(q.rank.paths)
    ensures var skipped := SkippedBy(q, decode, toJson, payloads, cs);
            var sorted := Values(Sort(q.rank, Matches(Verdicts(q, decode, toJson, payloads, cs))));
            r == if skipped != [] then Err(skipped[0].error) else Ok(Slice(sorted, q.offset, q.limit))
    ensures r.Ok? ==> IsPage(q, decode, toJson, payloads, cs, r.value)
    ensures r.Err? ==> exists c <- cs :: Errs(q, decode, toJson, payloads, c, r.error)
    ensures LooksInside(q) || q.limit.None? ==>
              (r.Err? <==> exists c, error :: c in cs && Errs(q, decode, toJson, payloads, c, error))
  {
    var report := ExecuteReport(q, decode, toJson, payloads, cs);
    if report.skipped != [] {
      assert report.skipped[0] in report.skipped;
      return Err(report.skipped[0].error);
    }
    return Ok(report.entries);
  }
}
