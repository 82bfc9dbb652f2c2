/** Brace expansion: bounded, star-collapsing, and meaning-preserving. */
module GlobExpansion {
  import opened Wrappers
  import opened GlobSyntax
  import opened GlobParser

  const MAX_ALTERNATIVES := 256

  // ---------------------------------------------------------------------------
  // Reference expansion
  // ---------------------------------------------------------------------------

  /** Every alternative of a tree, in order, with no star collapsed. */
  function Expand(tree: seq<Part>): (alternatives: seq<seq<Token>>)
    decreases tree, 1
  {
    if tree == [] then [[]]
    else Cross(Expand(tree[..|tree| - 1]), ExpandPart(tree[|tree| - 1]))
  }

  function ExpandPart(part: Part): (alternatives: seq<seq<Token>>)
    decreases part, 0
  {
    match part
    case One(t) => [[t]]
    case Group(branches) => ExpandBranches(branches)
  }

  function ExpandBranches(branches: seq<Sequence>): (alternatives: seq<seq<Token>>)
    decreases branches, 2
  {
    if branches == [] then []
    else ExpandBranches(branches[..|branches| - 1]) + Expand(branches[|branches| - 1].parts)
  }

  function Cross(prefixes: seq<seq<Token>>, suffixes: seq<seq<Token>>): (all: seq<seq<Token>>)
  {
    if prefixes == [] then []
    else Cross(prefixes[..|prefixes| - 1], suffixes) + Behind(prefixes[|prefixes| - 1], suffixes)
  }

  function Behind(prefix: seq<Token>, suffixes: seq<seq<Token>>): (all: seq<seq<Token>>)
    ensures |all| == |suffixes|
  {
    seq(|suffixes|, i requires 0 <= i < |suffixes| => prefix + suffixes[i])
  }

  /** The product over the parts, and over a group the sum over its branches. */
  function Count(tree: seq<Part>): (n: nat)
    decreases tree, 1
  {
    if tree == [] then 1 else Count(tree[..|tree| - 1]) * CountPart(tree[|tree| - 1])
  }

  function CountPart(part: Part): (n: nat)
    decreases part, 0
  {
    match part
    case One(_) => 1
    case Group(branches) => CountBranches(branches)
  }

  function CountBranches(branches: seq<Sequence>): (n: nat)
    decreases branches, 2
  {
    if branches == [] then 0
    else CountBranches(branches[..|branches| - 1]) + Count(branches[|branches| - 1].parts)
  }

  lemma {:induction false} CrossCount(prefixes: seq<seq<Token>>, suffixes: seq<seq<Token>>)
    ensures |Cross(prefixes, suffixes)| == |prefixes| * |suffixes|
  {
    if prefixes != [] {
      var n := |prefixes| - 1;
      CrossCount(prefixes[..n], suffixes);
      assert (n + 1) * |suffixes| == n * |suffixes| + |suffixes|;
    }
  }

  lemma {:induction false} ExpandCount(tree: seq<Part>)
    ensures |Expand(tree)| == Count(tree)
    decreases tree, 1
  {
    if tree != [] {
      var n := |tree| - 1;
      ExpandCount(tree[..n]);
      match tree[n] {
        case One(_) =>
        case Group(branches) => ExpandBranchesCount(branches);
      }
      CrossCount(Expand(tree[..n]), ExpandPart(tree[n]));
    }
  }

  lemma {:induction false} ExpandBranchesCount(branches: seq<Sequence>)
    ensures |ExpandBranches(branches)| == CountBranches(branches)
    decreases branches, 2
  {
    if branches != [] {
      var n := |branches| - 1;
      ExpandBranchesCount(branches[..n]);
      ExpandCount(branches[n].parts);
    }
  }

  // ---------------------------------------------------------------------------
  // The reference expansion preserves meaning
  // ---------------------------------------------------------------------------

  lemma {:induction false} DenotesAppend(a: seq<Token>, b: seq<Token>, s: string)
    ensures Denotes(a + b, s) <==> exists k :: 0 <= k <= |s| && Denotes(a, s[..k]) && Denotes(b, s[k..])
  {
    if Denotes(a + b, s) {
      var k := SplitOf(a, b, s);
    }
    forall k | 0 <= k <= |s| && Denotes(a, s[..k]) && Denotes(b, s[k..])
      ensures Denotes(a + b, s)
    {
      Joins(a, b, s, k);
    }
  }

  lemma {:induction false} SplitOf(a: seq<Token>, b: seq<Token>, s: string) returns (k: nat)
    requires Denotes(a + b, s)
    ensures k <= |s| && Denotes(a, s[..k]) && Denotes(b, s[k..])
  {
    if a == [] {
      assert a + b == b && s[..0] == "" && s[0..] == s;
      return 0;
    }
    var ts := a + b;
    assert ts[0] == a[0] && ts[1..] == a[1..] + b;
    var i := 1;
    if a[0].AnySequence? {
      i :| 0 <= i <= |s| && Denotes(ts[1..], s[i..]);
    }
    var j := SplitOf(a[1..], b, s[i..]);
    k := i + j;
    assert s[i..][..j] == s[..k][i..] && s[i..][j..] == s[k..];
  }

  lemma {:induction false} Joins(a: seq<Token>, b: seq<Token>, s: string, k: nat)
    requires k <= |s| && Denotes(a, s[..k]) && Denotes(b, s[k..])
    ensures Denotes(a + b, s)
  {
    if a == [] {
      assert a + b == b && s[k..] == s;
    } else {
      assert (a + b)[0] == a[0] && (a + b)[1..] == a[1..] + b;
      var i := 1;
      if a[0].AnySequence? {
        i :| 0 <= i <= k && Denotes(a[1..], s[..k][i..]);
      }
      assert s[..k][i..] == s[i..][..k - i] && s[k..] == s[i..][k - i..];
      Joins(a[1..], b, s[i..], k - i);
      FirstToken(a + b, s, i);
    }
  }

  lemma FirstToken(ts: seq<Token>, s: string, i: nat)
    requires ts != [] && i <= |s| && Denotes(ts[1..], s[i..])
    requires match ts[0] case AnySequence => true case AnyScalar => i == 1 case Literal(c) => i == 1 && s[0] == c
    ensures Denotes(ts, s)
  {
  }

  lemma {:induction false} InCross(prefixes: seq<seq<Token>>, suffixes: seq<seq<Token>>, x: seq<Token>)
    ensures x in Cross(prefixes, suffixes) <==> exists p, q :: p in prefixes && q in suffixes && x == p + q
  {
    if prefixes != [] {
      var n := |prefixes| - 1;
      InCross(prefixes[..n], suffixes, x);
      var behind := Behind(prefixes[n], suffixes);
      if x in behind {
        var i :| 0 <= i < |behind| && behind[i] == x;
        assert prefixes[n] in prefixes && suffixes[i] in suffixes;
      }
      forall p, q | p in prefixes && q in suffixes && x == p + q
        ensures x in Cross(prefixes, suffixes)
      {
        if p !in prefixes[..n] {
          var i :| 0 <= i < |suffixes| && suffixes[i] == q;
          assert p == prefixes[n] && behind[i] == x;
        }
      }
    }
  }

  lemma CrossDenotes(prefixes: seq<seq<Token>>, suffixes: seq<seq<Token>>, s: string)
    ensures AnyDenotes(Cross(prefixes, suffixes), s)
       <==> exists k :: 0 <= k <= |s| && AnyDenotes(prefixes, s[..k]) && AnyDenotes(suffixes, s[k..])
  {
    if AnyDenotes(Cross(prefixes, suffixes), s) {
      var x :| x in Cross(prefixes, suffixes) && Denotes(x, s);
      InCross(prefixes, suffixes, x);
      var p, q :| p in prefixes && q in suffixes && x == p + q;
      DenotesAppend(p, q, s);
    }
    if k :| 0 <= k <= |s| && AnyDenotes(prefixes, s[..k]) && AnyDenotes(suffixes, s[k..]) {
      var p :| p in prefixes && Denotes(p, s[..k]);
      var q :| q in suffixes && Denotes(q, s[k..]);
      DenotesAppend(p, q, s);
      InCross(prefixes, suffixes, p + q);
    }
  }

  /** Some alternative denotes `s` exactly when the tree does. */
  lemma {:induction false} ExpandDenotes(tree: seq<Part>, s: string)
    ensures AnyDenotes(Expand(tree), s) <==> TreeDenotes(tree, s)
    decreases tree, 1
  {
    if tree == [] {
      assert [] in Expand(tree);
    } else {
      var n := |tree| - 1;
      forall k | 0 <= k <= |s|
        ensures AnyDenotes(Expand(tree[..n]), s[..k]) <==> TreeDenotes(tree[..n], s[..k])
        ensures AnyDenotes(ExpandPart(tree[n]), s[k..]) <==> PartDenotes(tree[n], s[k..])
      {
        ExpandDenotes(tree[..n], s[..k]);
        PartExpandDenotes(tree[n], s[k..]);
      }
      CrossDenotes(Expand(tree[..n]), ExpandPart(tree[n]), s);
    }
  }

  lemma OneToken(t: Token, s: string)
    ensures Denotes([t], s) <==> PartDenotes(One(t), s)
  {
    assert [t][1..] == [];
    if t.AnySequence? {
      FirstToken([t], s, |s|);
    } else if s != "" {
      assert s == [s[0]] + s[1..];
    }
  }

  lemma {:induction false} PartExpandDenotes(part: Part, s: string)
    ensures AnyDenotes(ExpandPart(part), s) <==> PartDenotes(part, s)
    decreases part, 0
  {
    match part
    case One(t) =>
      OneToken(t, s);
      assert ExpandPart(part)[0] == [t];
      assert AnyDenotes(ExpandPart(part), s) <==> Denotes([t], s);
    case Group(branches) => BranchesExpandDenote(branches, s);
  }

  lemma {:induction false} BranchesExpandDenote(branches: seq<Sequence>, s: string)
    ensures AnyDenotes(ExpandBranches(branches), s)
       <==> exists i :: 0 <= i < |branches| && TreeDenotes(branches[i].parts, s)
    decreases branches, 2
  {
    if branches != [] {
      var n := |branches| - 1;
      var before := branches[..n];
      BranchesExpandDenote(before, s);
      ExpandDenotes(branches[n].parts, s);
      assert forall i :: 0 <= i < n ==> branches[i] == before[i];
      var all := ExpandBranches(branches);
      assert forall x :: x in all <==> x in ExpandBranches(before) || x in Expand(branches[n].parts);
    }
  }

  // ---------------------------------------------------------------------------
  // Collapsing adjacent stars
  // ---------------------------------------------------------------------------

  /** `push_token`: a star behind a star is dropped. */
  function Push(ts: seq<Token>, t: Token): (pushed: seq<Token>) {
    if t.AnySequence? && ts != [] && ts[|ts| - 1].AnySequence? then ts else ts + [t]
  }

  function PushAll(ts: seq<Token>, more: seq<Token>): (pushed: seq<Token>) {
    if more == [] then ts else Push(PushAll(ts, more[..|more| - 1]), more[|more| - 1])
  }

  function Collapse(ts: seq<Token>): (collapsed: seq<Token>) {
    PushAll([], ts)
  }

  function CollapseEach(alternatives: seq<seq<Token>>): (collapsed: seq<seq<Token>>)
    ensures |collapsed| == |alternatives|
  {
    seq(|alternatives|, i requires 0 <= i < |alternatives| => Collapse(alternatives[i]))
  }

  /** Pushing token by token onto a collapsed prefix collapses the whole. */
  lemma {:induction false} PushAllAppends(ts: seq<Token>, a: seq<Token>, b: seq<Token>)
    ensures PushAll(ts, a + b) == PushAll(PushAll(ts, a), b)
  {
    if b == [] {
      assert a + b == a;
    } else {
      var n := |b| - 1;
      PushAllAppends(ts, a, b[..n]);
      assert (a + b)[..|a + b| - 1] == a + b[..n];
    }
  }

  /** It makes no difference whether the pushed tokens were collapsed before. */
  lemma {:induction false} PushCollapsed(ts: seq<Token>, more: seq<Token>)
    ensures PushAll(ts, Collapse(more)) == PushAll(ts, more)
  {
    if more != [] {
      var n := |more| - 1;
      var before := Collapse(more[..n]);
      PushCollapsed(ts, more[..n]);
      if Collapse(more) == before {
        assert before != [] && more[n] == before[|before| - 1] == AnySequence;
      } else {
        assert Collapse(more) == before + [more[n]];
        assert Collapse(more)[..|before|] == before;
      }
    }
  }

  /** A star behind a star adds nothing. */
  lemma PushDenotes(ts: seq<Token>, t: Token, s: string)
    ensures Denotes(Push(ts, t), s) <==> Denotes(ts + [t], s)
  {
    if Push(ts, t) == ts {
      var n := |ts| - 1;
      assert ts == ts[..n] + [AnySequence] && ts + [t] == ts[..n] + [AnySequence, AnySequence];
      forall x: string
        ensures Denotes([AnySequence], x) && Denotes([AnySequence, AnySequence], x)
      {
        OneToken(AnySequence, x);
        FirstToken([AnySequence, AnySequence], x, 0);
      }
      DenotesAppend(ts[..n], [AnySequence], s);
      DenotesAppend(ts[..n], [AnySequence, AnySequence], s);
    }
  }

  lemma {:induction false} CollapseDenotes(ts: seq<Token>, s: string)
    ensures Denotes(Collapse(ts), s) <==> Denotes(ts, s)
  {
    if ts != [] {
      var n := |ts| - 1;
      var before, last := ts[..n], [ts[n]];
      forall k | 0 <= k <= |s|
        ensures Denotes(Collapse(before), s[..k]) <==> Denotes(before, s[..k])
      {
        CollapseDenotes(before, s[..k]);
      }
      PushDenotes(Collapse(before), ts[n], s);
      DenotesAppend(Collapse(before), last, s);
      DenotesAppend(before, last, s);
      assert ts == before + last;
    }
  }

  lemma CollapseEachDenotes(alternatives: seq<seq<Token>>, s: string)
    ensures AnyDenotes(CollapseEach(alternatives), s) <==> AnyDenotes(alternatives, s)
  {
    var collapsed := CollapseEach(alternatives);
    if AnyDenotes(collapsed, s) {
      var i :| 0 <= i < |collapsed| && Denotes(collapsed[i], s);
      CollapseDenotes(alternatives[i], s);
    }
    if AnyDenotes(alternatives, s) {
      var i :| 0 <= i < |alternatives| && Denotes(alternatives[i], s);
      CollapseDenotes(alternatives[i], s);
      assert collapsed[i] in collapsed;
    }
  }

  // ---------------------------------------------------------------------------
  // The bounded expansion
  // ---------------------------------------------------------------------------

  /** No literal is a wildcard. */
  predicate Plain(ts: seq<Token>) {
    forall t <- ts :: t.Literal? ==> t.scalar != '*' && t.scalar != '?'
  }

  /** No group of the tree is empty, and no literal is a wildcard. */
  predicate WellFormed(tree: seq<Part>)
    decreases tree, 1
  {
    forall part <- tree :: WellFormedPart(part)
  }

  predicate WellFormedPart(part: Part)
    decreases part, 0
  {
    match part
    case One(t) => Plain([t])
    case Group(branches) => branches != [] && WellFormedBranches(branches)
  }

  predicate WellFormedBranches(branches: seq<Sequence>)
    decreases branches, 2
  {
    forall branch <- branches :: WellFormed(branch.parts)
  }

  /** Whatever the parser builds is well formed. */
  lemma {:induction false} ProperIsWellFormed(tree: seq<Part>, inside: bool)
    requires Proper(tree, inside)
    ensures WellFormed(tree)
    decreases tree, 1
  {
    if tree != [] {
      ProperIsWellFormed(tree[1..], inside);
      if tree[0].Group? {
        ProperBranchesAreWellFormed(tree[0].branches);
      }
      assert forall part <- tree :: part == tree[0] || part in tree[1..];
    }
  }

  lemma {:induction false} ProperBranchesAreWellFormed(branches: seq<Sequence>)
    requires ProperBranches(branches)
    ensures WellFormedBranches(branches)
    decreases branches, 2
  {
    if branches != [] {
      ProperBranchesAreWellFormed(branches[1..]);
      ProperIsWellFormed(branches[0].parts, true);
      assert forall branch <- branches :: branch == branches[0] || branch in branches[1..];
    }
  }

  lemma {:induction false} CountIsPositive(tree: seq<Part>)
    requires WellFormed(tree)
    ensures Count(tree) > 0
    decreases tree, 1
  {
    if tree != [] {
      CountIsPositive(tree[..|tree| - 1]);
      PartCountIsPositive(tree[|tree| - 1]);
      assert Count(tree) == Count(tree[..|tree| - 1]) * CountPart(tree[|tree| - 1]);
    }
  }

  lemma {:induction false} PartCountIsPositive(part: Part)
    requires WellFormedPart(part)
    ensures CountPart(part) > 0
    decreases part, 0
  {
    if part.Group? {
      CountIsPositive(part.branches[|part.branches| - 1].parts);
    }
  }

  /** More parts never mean fewer alternatives. */
  lemma {:induction false} CountGrows(tree: seq<Part>, n: nat)
    requires WellFormed(tree) && n <= |tree|
    ensures WellFormed(tree[..n]) && Count(tree[..n]) <= Count(tree)
  {
    if n == |tree| {
      assert tree[..n] == tree;
    } else {
      var before := tree[..|tree| - 1];
      CountGrows(before, n);
      PartCountIsPositive(tree[|tree| - 1]);
      assert before[..n] == tree[..n];
      MulGrows(Count(before), CountPart(tree[|tree| - 1]));
    }
  }

  lemma MulGrows(a: nat, b: nat)
    requires b > 0
    ensures a <= a * b
  {
  }

  lemma {:induction false} BranchCountGrows(branches: seq<Sequence>, n: nat)
    requires n <= |branches|
    ensures CountBranches(branches[..n]) <= CountBranches(branches)
  {
    if n == |branches| {
      assert branches[..n] == branches;
    } else {
      var before := branches[..|branches| - 1];
      BranchCountGrows(before, n);
      assert before[..n] == branches[..n];
    }
  }

  /** What the nested loops over prefixes and suffixes build. */
  function PushCross(prefixes: seq<seq<Token>>, suffixes: seq<seq<Token>>): (all: seq<seq<Token>>)
  {
    if prefixes == [] then []
    else PushCross(prefixes[..|prefixes| - 1], suffixes) + PushBehind(prefixes[|prefixes| - 1], suffixes)
  }

  function PushBehind(prefix: seq<Token>, suffixes: seq<seq<Token>>): (all: seq<seq<Token>>)
    ensures |all| == |suffixes|
  {
    seq(|suffixes|, i requires 0 <= i < |suffixes| => PushAll(prefix, suffixes[i]))
  }

  lemma BehindCollapses(prefix: seq<Token>, suffixes: seq<seq<Token>>)
    ensures PushBehind(Collapse(prefix), CollapseEach(suffixes)) == CollapseEach(Behind(prefix, suffixes))
  {
    forall i | 0 <= i < |suffixes|
      ensures PushAll(Collapse(prefix), Collapse(suffixes[i])) == Collapse(prefix + suffixes[i])
    {
      PushCollapsed(Collapse(prefix), suffixes[i]);
      PushAllAppends([], prefix, suffixes[i]);
    }
  }

  lemma CollapseEachAppends(a: seq<seq<Token>>, b: seq<seq<Token>>)
    ensures CollapseEach(a + b) == CollapseEach(a) + CollapseEach(b)
  {
  }

  lemma {:induction false} PushCrossCollapses(prefixes: seq<seq<Token>>, suffixes: seq<seq<Token>>)
    ensures PushCross(CollapseEach(prefixes), CollapseEach(suffixes)) == CollapseEach(Cross(prefixes, suffixes))
  {
    if prefixes != [] {
      var n := |prefixes| - 1;
      PushCrossCollapses(prefixes[..n], suffixes);
      assert CollapseEach(prefixes)[..n] == CollapseEach(prefixes[..n]);
      BehindCollapses(prefixes[n], suffixes);
      CollapseEachAppends(Cross(prefixes[..n], suffixes), Behind(prefixes[n], suffixes));
    }
  }

  /** A single token is a group of one alternative. */
  lemma {:induction false} PushEachIsCross(prefixes: seq<seq<Token>>, t: Token)
    ensures PushCross(prefixes, [[t]]) == seq(|prefixes|, i requires 0 <= i < |prefixes| => Push(prefixes[i], t))
  {
    if prefixes != [] {
      var n := |prefixes| - 1;
      PushEachIsCross(prefixes[..n], t);
      assert [t][..0] == [];
      assert PushAll(prefixes[n], [t]) == Push(prefixes[n], t);
    }
  }

  method PushEach(prefixes: seq<seq<Token>>, t: Token) returns (pushed: seq<seq<Token>>)
    ensures pushed == PushCross(prefixes, [[t]])
  {
    pushed := [];
    for i := 0 to |prefixes|
      invariant pushed == seq(i, j requires 0 <= j < i => Push(prefixes[j], t))
    {
      pushed := pushed + [Push(prefixes[i], t)];
    }
    PushEachIsCross(prefixes, t);
  }

  method PushSuffix(prefix: seq<Token>, suffix: seq<Token>) returns (alternative: seq<Token>)
    ensures alternative == PushAll(prefix, suffix)
  {
    alternative := prefix;
    for i := 0 to |suffix|
      invariant alternative == PushAll(prefix, suffix[..i])
    {
      assert suffix[..i + 1][..i] == suffix[..i];
      alternative := Push(alternative, suffix[i]);
    }
    assert suffix[..|suffix|] == suffix;
  }

  method Combine(prefixes: seq<seq<Token>>, suffixes: seq<seq<Token>>) returns (combined: seq<seq<Token>>)
    ensures combined == PushCross(prefixes, suffixes)
  {
    combined := [];
    for i := 0 to |prefixes|
      invariant combined == PushCross(prefixes[..i], suffixes)
    {
      ghost var before := combined;
      for j := 0 to |suffixes|
        invariant combined == before + PushBehind(prefixes[i], suffixes[..j])
      {
        var alternative := PushSuffix(prefixes[i], suffixes[j]);
        combined := combined + [alternative];
        assert PushBehind(prefixes[i], suffixes[..j + 1]) == PushBehind(prefixes[i], suffixes[..j]) + [alternative];
      }
      assert suffixes[..|suffixes|] == suffixes && prefixes[..i + 1][..i] == prefixes[..i];
    }
    assert prefixes[..|prefixes|] == prefixes;
  }

  lemma CollapseOne(t: Token)
    ensures CollapseEach([[t]]) == [[t]]
  {
    assert [t][..0] == [];
    assert PushAll([], [t]) == Push(PushAll([], []), t) == [t];
    assert CollapseEach([[t]])[0] == Collapse([t]) == [t];
  }

  /** One more part multiplies the alternatives, and never leaves fewer. */
  lemma ExpandStep(tree: seq<Part>, i: nat)
    requires WellFormed(tree) && i < |tree|
    ensures CollapseEach(Expand(tree[..i + 1]))
         == PushCross(CollapseEach(Expand(tree[..i])), CollapseEach(ExpandPart(tree[i])))
    ensures |Expand(tree[..i])| == Count(tree[..i]) && |ExpandPart(tree[i])| == CountPart(tree[i])
    ensures Count(tree[..i + 1]) == Count(tree[..i]) * CountPart(tree[i]) <= Count(tree)
    ensures CountPart(tree[i]) <= Count(tree) && WellFormedPart(tree[i])
  {
    assert tree[..i + 1][..i] == tree[..i] && tree[i] in tree;
    PushCrossCollapses(Expand(tree[..i]), ExpandPart(tree[i]));
    ExpandCount(tree[..i]);
    if tree[i].Group? {
      ExpandBranchesCount(tree[i].branches);
    }
    CountGrows(tree, i + 1);
    CountGrows(tree, i);
    CountIsPositive(tree[..i]);
    MulGrows(CountPart(tree[i]), Count(tree[..i]));
  }

  /** Expands exactly the trees with at most `MAX_ALTERNATIVES` alternatives, in their order, stars collapsed. */
  method ExpandSequence(tree: seq<Part>) returns (r: Result<seq<seq<Token>>, GlobError>)
    requires WellFormed(tree)
    ensures r == if Count(tree) <= MAX_ALTERNATIVES then Ok(CollapseEach(Expand(tree))) else Err(SafetyLimit)
    decreases tree, 1
  {
    var expanded := [[]];
    assert CollapseEach(Expand([])) == [[]];
    for i := 0 to |tree|
      invariant expanded == CollapseEach(Expand(tree[..i])) && Count(tree[..i]) <= MAX_ALTERNATIVES
    {
      ExpandStep(tree, i);
      match tree[i] {
        case One(t) =>
          CollapseOne(t);
          expanded := PushEach(expanded, t);
        case Group(branches) =>
          var group :- ExpandGroup(branches);
          var product := |expanded| * |group|;
          if product > MAX_ALTERNATIVES {
            return Err(SafetyLimit);
          }
          expanded := Combine(expanded, group);
      }
    }
    assert tree[..|tree|] == tree;
    return Ok(expanded);
  }

  method ExpandGroup(branches: seq<Sequence>) returns (r: Result<seq<seq<Token>>, GlobError>)
    requires WellFormedBranches(branches)
    ensures r == if CountBranches(branches) <= MAX_ALTERNATIVES then Ok(CollapseEach(ExpandBranches(branches)))
                 else Err(SafetyLimit)
    decreases branches, 2
  {
    var group := [];
    for i := 0 to |branches|
      invariant group == CollapseEach(ExpandBranches(branches[..i])) && CountBranches(branches[..i]) <= MAX_ALTERNATIVES
    {
      assert branches[..i + 1][..i] == branches[..i];
      BranchCountGrows(branches, i + 1);
      ExpandBranchesCount(branches[..i]);
      ExpandCount(branches[i].parts);
      var branch :- ExpandSequence(branches[i].parts);
      if |group| + |branch| > MAX_ALTERNATIVES {
        return Err(SafetyLimit);
      }
      ghost var before, more := ExpandBranches(branches[..i]), Expand(branches[i].parts);
      CollapseEachAppends(before, more);
      group := group + branch;
    }
    assert branches[..|branches|] == branches;
    return Ok(group);
  }
}
