/** The brace parser: a cursor over the pattern, one level of recursion per brace. */
module GlobParser {
  import opened Wrappers
  import opened GlobSyntax

  const MAX_BRACE_DEPTH := 32

  datatype GlobError = Malformed | SafetyLimit

  /** What counting braces from left to right says about a pattern. */
  function Scan(s: string, depth: nat): (verdict: Result<(), GlobError>) {
    if s == "" then if depth == 0 then Ok(()) else Err(Malformed)
    else if s[0] == '{' then if depth >= MAX_BRACE_DEPTH then Err(SafetyLimit) else Scan(s[1..], depth + 1)
    else if s[0] == '}' then if depth == 0 then Err(Malformed) else Scan(s[1..], depth - 1)
    else Scan(s[1..], depth)
  }

  /** How many groups are open behind the first `k` characters, if no brace is missing. */
  ghost function Open(s: string, k: nat): (n: int)
    requires k <= |s|
  {
    multiset(s[..k])['{'] as int - multiset(s[..k])['}'] as int
  }

  /** Up to `k` no group is closed that was not opened, and none is open below the deepest level. */
  ghost predicate Nests(s: string, k: nat, depth: nat)
    requires k <= |s|
  {
    forall j :: 0 <= j <= k ==> 0 <= depth + Open(s, j) <= MAX_BRACE_DEPTH
  }

  /** What a character does to the number of open groups. */
  function Stepped(s: string, depth: nat): (next: int)
    requires s != ""
  {
    depth + if s[0] == '{' then 1 else if s[0] == '}' then -1 else 0
  }

  lemma OpenNext(s: string, k: nat)
    requires 0 < k <= |s|
    ensures Open(s, k) == Open(s[1..], k - 1) + if s[0] == '{' then 1 else if s[0] == '}' then -1 else 0
  {
    assert s[..k] == [s[0]] + s[1..][..k - 1];
  }

  /** The first character of a text takes a step, and the rest goes on from there. */
  lemma NestsNext(s: string, k: nat, depth: nat, next: int)
    requires 0 < k <= |s| && next == Stepped(s, depth)
    requires depth <= MAX_BRACE_DEPTH
    ensures Nests(s, k, depth) <==> 0 <= next && Nests(s[1..], k - 1, next)
    ensures depth + Open(s, k) == next + Open(s[1..], k - 1)
  {
    forall j | 0 < j <= k
      ensures depth + Open(s, j) == next + Open(s[1..], j - 1)
    {
      OpenNext(s, j);
    }
    assert s[1..][..0] == [];
    if 0 <= next && Nests(s[1..], k - 1, next) {
      forall j | 0 <= j <= k
        ensures 0 <= depth + Open(s, j) <= MAX_BRACE_DEPTH
      {
        assert j > 0 ==> 0 <= next + Open(s[1..], j - 1) <= MAX_BRACE_DEPTH;
      }
    }
    if Nests(s, k, depth) {
      assert 0 <= depth + Open(s, 1) <= MAX_BRACE_DEPTH;
      forall j | 0 <= j <= k - 1
        ensures 0 <= next + Open(s[1..], j) <= MAX_BRACE_DEPTH
      {
        assert 0 <= depth + Open(s, j + 1) <= MAX_BRACE_DEPTH;
      }
    }
  }

  /** The brace that opens one group too many: behind `k` characters, the first time a limit is broken. */
  ghost predicate TooDeepAt(s: string, k: nat, depth: nat)
    requires k <= |s|
  {
    k > 0 && Nests(s, k - 1, depth) && depth + Open(s, k) > MAX_BRACE_DEPTH
  }

  lemma ScanStep(s: string, depth: nat)
    requires s != "" && depth <= MAX_BRACE_DEPTH
    ensures var next := Stepped(s, depth);
            Scan(s, depth) == if next < 0 then Err(Malformed)
                              else if next > MAX_BRACE_DEPTH then Err(SafetyLimit)
                              else Scan(s[1..], next)
  {
  }

  /** Counting braces accepts exactly the patterns whose braces balance and never nest too deep. */
  lemma {:induction false} ScansIff(s: string, depth: nat)
    requires depth <= MAX_BRACE_DEPTH
    ensures Scan(s, depth).Ok? <==> Nests(s, |s|, depth) && depth + Open(s, |s|) == 0
    decreases |s|
  {
    assert s[..0] == [];
    if s != "" {
      var next := Stepped(s, depth);
      ScanStep(s, depth);
      NestsNext(s, |s|, depth, next);
      if 0 <= next <= MAX_BRACE_DEPTH {
        ScansIff(s[1..], next);
      } else {
        FaultAtOnce(s, depth, next);
      }
    }
  }

  /** It refuses them as unsafe exactly when a brace too deep comes before any other fault. */
  lemma {:induction false} TooDeepIff(s: string, depth: nat)
    requires depth <= MAX_BRACE_DEPTH
    ensures Scan(s, depth) == Err(SafetyLimit) <==> exists k :: 0 <= k <= |s| && TooDeepAt(s, k, depth)
    decreases |s|
  {
    if s != "" {
      var next := Stepped(s, depth);
      ScanStep(s, depth);
      if 0 <= next <= MAX_BRACE_DEPTH {
        TooDeepIff(s[1..], next);
        TooDeepNext(s, depth, next);
      } else {
        FaultAtOnce(s, depth, next);
      }
    }
  }

  lemma TooDeepNext(s: string, depth: nat, next: nat)
    requires s != "" && depth <= MAX_BRACE_DEPTH && next <= MAX_BRACE_DEPTH
    requires next == Stepped(s, depth)
    ensures (exists k :: 0 <= k <= |s| && TooDeepAt(s, k, depth))
       <==> exists k :: 0 <= k <= |s[1..]| && TooDeepAt(s[1..], k, next)
  {
    forall k | 1 < k <= |s|
      ensures TooDeepAt(s, k, depth) <==> TooDeepAt(s[1..], k - 1, next)
    {
      NestsNext(s, k, depth, next);
      NestsNext(s, k - 1, depth, next);
    }
    NestsNext(s, 1, depth, next);
    assert s[1..][..0] == [] && !TooDeepAt(s, 1, depth);
    if k :| 0 <= k <= |s[1..]| && TooDeepAt(s[1..], k, next) {
      assert TooDeepAt(s, k + 1, depth);
    }
  }

  lemma FaultAtOnce(s: string, depth: nat, next: int)
    requires s != "" && depth <= MAX_BRACE_DEPTH && !(0 <= next <= MAX_BRACE_DEPTH)
    requires next == Stepped(s, depth)
    ensures !Nests(s, |s|, depth)
    ensures (exists k :: 0 <= k <= |s| && TooDeepAt(s, k, depth)) <==> next > MAX_BRACE_DEPTH
  {
    OpenNext(s, 1);
    assert s[..0] == [] && s[1..][..0] == [];
    assert depth + Open(s, 1) == next;
    if next > MAX_BRACE_DEPTH {
      assert TooDeepAt(s, 1, depth);
    }
  }

  // ---------------------------------------------------------------------------
  // A pattern is the text of one tree only
  // ---------------------------------------------------------------------------

  /** Where a sequence can end: at the end of the text, or inside a group before `,` or `}`. */
  predicate Stops(rest: string, inside: bool) {
    rest == "" || (inside && (rest[0] == ',' || rest[0] == '}'))
  }

  lemma PartStarts(part: Part, inside: bool)
    requires ProperPart(part, inside)
    ensures PrintPart(part) != "" && PrintPart(part)[0] != '}' && (inside ==> PrintPart(part)[0] != ',')
    ensures PrintPart(part)[0] == '{' <==> part.Group?
  {
  }

  lemma Assoc(a: string, b: string, c: string)
    ensures a + b + c == a + (b + c)
  {
  }

  lemma {:induction false} PrintIsUnique(a: seq<Part>, b: seq<Part>, inside: bool, x: string, y: string)
    requires Proper(a, inside) && Proper(b, inside) && Stops(x, inside) && Stops(y, inside)
    requires Print(a) + x == Print(b) + y
    ensures a == b && x == y
    decreases a, 1
  {
    if a != [] && b != [] {
      Assoc(PrintPart(a[0]), Print(a[1..]), x);
      Assoc(PrintPart(b[0]), Print(b[1..]), y);
      PartIsUnique(a[0], b[0], inside, Print(a[1..]) + x, Print(b[1..]) + y);
      PrintIsUnique(a[1..], b[1..], inside, x, y);
      assert a == [a[0]] + a[1..] && b == [b[0]] + b[1..];
    } else if a != [] {
      assert Print(b) + y == y;
      NothingIsNoPart(a, inside, x, y);
      assert false;
    } else if b != [] {
      assert Print(a) + x == x;
      NothingIsNoPart(b, inside, y, x);
      assert false;
    } else {
      assert Print(a) + x == x && Print(b) + y == y;
    }
  }

  lemma NothingIsNoPart(a: seq<Part>, inside: bool, x: string, rest: string)
    requires a != [] && Proper(a, inside) && Stops(rest, inside)
    ensures Print(a) + x != rest
  {
    PartStarts(a[0], inside);
    assert (Print(a) + x)[0] == PrintPart(a[0])[0];
  }

  lemma {:induction false} PartIsUnique(a: Part, b: Part, inside: bool, x: string, y: string)
    requires ProperPart(a, inside) && ProperPart(b, inside) && PrintPart(a) + x == PrintPart(b) + y
    ensures a == b && x == y
    decreases a, 0
  {
    PartStarts(a, inside);
    PartStarts(b, inside);
    assert (PrintPart(a) + x)[0] == PrintPart(a)[0] && (PrintPart(b) + y)[0] == PrintPart(b)[0];
    if a.One? {
      assert (PrintPart(a) + x)[1..] == x && (PrintPart(b) + y)[1..] == y;
    } else {
      GroupText(a.branches, x);
      GroupText(b.branches, y);
      BranchesAreUnique(a.branches, b.branches, x, y);
    }
  }

  lemma GroupText(branches: seq<Sequence>, x: string)
    ensures (PrintPart(Group(branches)) + x)[1..] == PrintBranches(branches) + ("}" + x)
  {
  }

  /** What follows the first branch. */
  function AfterFirst(branches: seq<Sequence>, x: string): (s: string)
    requires branches != []
  {
    if |branches| == 1 then "}" + x else "," + (PrintBranches(branches[1..]) + ("}" + x))
  }

  lemma FirstBranch(branches: seq<Sequence>, x: string)
    requires branches != []
    ensures PrintBranches(branches) + ("}" + x) == Print(branches[0].parts) + AfterFirst(branches, x)
  {
    if |branches| > 1 {
      var first, others := Print(branches[0].parts), PrintBranches(branches[1..]);
      Assoc(first + ",", others, "}" + x);
      Assoc(first, ",", others + ("}" + x));
    }
  }

  /** What follows the first branch tells whether there are others, and what they are. */
  lemma AfterFirstTells(a: seq<Sequence>, b: seq<Sequence>, x: string, y: string)
    requires a != [] && b != [] && AfterFirst(a, x) == AfterFirst(b, y)
    ensures |a| == 1 <==> |b| == 1
    ensures if |a| == 1 then x == y
            else PrintBranches(a[1..]) + ("}" + x) == PrintBranches(b[1..]) + ("}" + y)
  {
    assert AfterFirst(a, x)[0] == AfterFirst(b, y)[0] && AfterFirst(a, x)[1..] == AfterFirst(b, y)[1..];
  }

  lemma {:induction false} BranchesAreUnique(a: seq<Sequence>, b: seq<Sequence>, x: string, y: string)
    requires a != [] && b != [] && ProperBranches(a) && ProperBranches(b)
    requires PrintBranches(a) + ("}" + x) == PrintBranches(b) + ("}" + y)
    ensures a == b && x == y
    decreases a, 2
  {
    FirstBranch(a, x);
    FirstBranch(b, y);
    BranchStops(a, x);
    BranchStops(b, y);
    PrintIsUnique(a[0].parts, b[0].parts, true, AfterFirst(a, x), AfterFirst(b, y));
    AfterFirstTells(a, b, x, y);
    if |a| > 1 {
      BranchesAreUnique(a[1..], b[1..], x, y);
    }
    SameBranches(a, b);
  }

  lemma BranchStops(branches: seq<Sequence>, x: string)
    requires branches != []
    ensures Stops(AfterFirst(branches, x), true)
  {
  }

  lemma SameBranches(a: seq<Sequence>, b: seq<Sequence>)
    requires a != [] && b != [] && a[0].parts == b[0].parts
    requires |a| == |b| == 1 || (|a| > 1 && |b| > 1 && a[1..] == b[1..])
    ensures a == b
  {
    assert a == [a[0]] + a[1..] && b == [b[0]] + b[1..];
  }

  // ---------------------------------------------------------------------------
  // Which texts are the texts of trees
  // ---------------------------------------------------------------------------

  /** What scanning a text of the given depth, with `rest` behind it, says. */
  function After(rest: string, depth: nat, nested: nat): (verdict: Result<(), GlobError>) {
    if depth + nested <= MAX_BRACE_DEPTH then Scan(rest, depth) else Err(SafetyLimit)
  }

  /** The text of a tree scans clean exactly when the tree nests no deeper than is left. */
  lemma {:induction false} TreeScans(tree: seq<Part>, inside: bool, rest: string, depth: nat)
    requires Proper(tree, inside) && depth <= MAX_BRACE_DEPTH
    ensures Scan(Print(tree) + rest, depth) == After(rest, depth, Depth(tree))
    decreases tree, 1
  {
    if tree == [] {
      assert Print(tree) + rest == rest;
    } else {
      Assoc(PrintPart(tree[0]), Print(tree[1..]), rest);
      PartScans(tree[0], inside, Print(tree[1..]) + rest, depth);
      TreeScans(tree[1..], inside, rest, depth);
    }
  }

  lemma {:induction false} PartScans(part: Part, inside: bool, rest: string, depth: nat)
    requires ProperPart(part, inside) && depth <= MAX_BRACE_DEPTH
    ensures Scan(PrintPart(part) + rest, depth) == After(rest, depth, DepthPart(part))
    decreases part, 0
  {
    var text := PrintPart(part) + rest;
    PartStarts(part, inside);
    assert text[0] == PrintPart(part)[0];
    if part.One? {
      assert text[1..] == rest;
    } else {
      GroupText(part.branches, rest);
      if depth < MAX_BRACE_DEPTH {
        BranchesScan(part.branches, "}" + rest, depth + 1);
        assert ("}" + rest)[1..] == rest;
      }
    }
  }

  lemma {:induction false} BranchesScan(branches: seq<Sequence>, rest: string, depth: nat)
    requires branches != [] && ProperBranches(branches) && 0 < depth <= MAX_BRACE_DEPTH
    ensures Scan(PrintBranches(branches) + rest, depth) == After(rest, depth, DepthBranches(branches))
    decreases branches, 2
  {
    var first := branches[0].parts;
    if |branches| == 1 {
      TreeScans(first, true, rest, depth);
    } else {
      var others := PrintBranches(branches[1..]);
      Assoc(Print(first) + ",", others, rest);
      Assoc(Print(first), ",", others + rest);
      TreeScans(first, true, "," + (others + rest), depth);
      assert ("," + (others + rest))[1..] == others + rest;
      BranchesScan(branches[1..], rest, depth);
    }
  }

  /** A tree the parser can build, whose text is the pattern. */
  predicate IsTreeOf(tree: seq<Part>, pattern: string) {
    Print(tree) == pattern && Proper(tree, false)
  }

  /** The braces of a tree's text balance, and nest within the limit exactly when the tree does. */
  lemma TextScans(tree: seq<Part>, pattern: string)
    requires IsTreeOf(tree, pattern)
    ensures Scan(pattern, 0) == if Depth(tree) <= MAX_BRACE_DEPTH then Ok(()) else Err(SafetyLimit)
  {
    TreeScans(tree, false, "", 0);
    assert pattern + "" == pattern;
  }

  // ---------------------------------------------------------------------------
  // Building a tree from the left
  // ---------------------------------------------------------------------------

  lemma {:induction false} PrintAppends(tree: seq<Part>, part: Part, inside: bool)
    requires Proper(tree, inside) && ProperPart(part, inside)
    ensures Print(tree + [part]) == Print(tree) + PrintPart(part) && Proper(tree + [part], inside)
  {
    if tree == [] {
      assert tree + [part] == [part] && [part][1..] == [];
    } else {
      assert (tree + [part])[1..] == tree[1..] + [part];
      PrintAppends(tree[1..], part, inside);
    }
  }

  /** The branches read so far, each with the comma behind it. */
  function Joined(branches: seq<Sequence>): (s: string) {
    if branches == [] then "" else Print(branches[0].parts) + "," + Joined(branches[1..])
  }

  lemma {:induction false} BranchAppends(branches: seq<Sequence>, b: Sequence)
    requires ProperBranches(branches) && Proper(b.parts, true)
    ensures ProperBranches(branches + [b])
    ensures PrintBranches(branches + [b]) == Joined(branches) + Print(b.parts)
    ensures Joined(branches + [b]) == Joined(branches) + (Print(b.parts) + ",")
  {
    if branches == [] {
      assert branches + [b] == [b] && [b][1..] == [];
    } else {
      assert (branches + [b])[1..] == branches[1..] + [b];
      BranchAppends(branches[1..], b);
      var head := Print(branches[0].parts) + ",";
      Assoc(head, Joined(branches[1..]), Print(b.parts));
      Assoc(head, Joined(branches[1..]), Print(b.parts) + ",");
    }
  }

  /** Reading `text` has produced `tree`, `rest` is unread, and the braces so far changed nothing about the verdict. */
  ghost predicate Reading(text: string, tree: seq<Part>, rest: string, depth: nat, inside: bool) {
    text == Print(tree) + rest && Proper(tree, inside) && Scan(text, depth) == Scan(rest, depth)
  }

  lemma ReadPart(text: string, tree: seq<Part>, rest: string, depth: nat, inside: bool, part: Part, after: string)
    requires Reading(text, tree, rest, depth, inside) && ProperPart(part, inside)
    requires rest == PrintPart(part) + after && Scan(rest, depth) == Scan(after, depth)
    ensures Reading(text, tree + [part], after, depth, inside)
  {
    PrintAppends(tree, part, inside);
    Assoc(Print(tree), PrintPart(part), after);
  }

  function TokenOf(ch: char): (t: Token) {
    if ch == '*' then AnySequence else if ch == '?' then AnyScalar else Literal(ch)
  }

  lemma GroupPrints(text: string, group: seq<Sequence>, rest: string)
    requires text != "" && text[0] == '{' && text[1..] == PrintBranches(group) + ("}" + rest)
    ensures text == PrintPart(Group(group)) + rest
  {
    assert text == "{" + text[1..];
    Assoc("{", PrintBranches(group), "}" + rest);
    Assoc("{" + PrintBranches(group), "}", rest);
  }

  /** The same for the branches of a group, each with the comma behind it. */
  ghost predicate ReadingGroup(text: string, branches: seq<Sequence>, rest: string, depth: nat) {
    text == Joined(branches) + rest && ProperBranches(branches) && Scan(text, depth) == Scan(rest, depth)
  }

  /** One more branch has been read, up to `before`. */
  lemma ReadBranch(text: string, branches: seq<Sequence>, rest: string, depth: nat, branch: seq<Part>, before: string)
    requires depth > 0 && ReadingGroup(text, branches, rest, depth) && Reading(rest, branch, before, depth, true)
    requires before != "" && Stops(before, true)
    ensures var more := branches + [Sequence(branch)];
            if before[0] == ',' then ReadingGroup(text, more, before[1..], depth)
            else
              && ProperBranches(more) && text == PrintBranches(more) + ("}" + before[1..])
              && Scan(text, depth) == Scan(before[1..], depth - 1)
  {
    var b, end, after := Sequence(branch), before[0], before[1..];
    BranchAppends(branches, b);
    assert before == [end] + after;
    Assoc(Joined(branches), Print(branch), before);
    Assoc(Print(branch), [end], after);
    Assoc(Joined(branches), Print(branch) + [end], after);
  }

  class Parser {
    const chars: string
    var cursor: nat

    constructor (pattern: string)
      ensures chars == pattern && cursor == 0
    {
      chars := pattern;
      cursor := 0;
    }

    /** The characters not yet read. */
    ghost function Rest(): string
      requires cursor <= |chars|
      reads this
    {
      chars[cursor..]
    }

    /** Parts up to the end of the pattern, or of the branch it is in. */
    method ParseSequence(depth: nat, inside: bool) returns (r: Result<seq<Part>, GlobError>)
      requires cursor <= |chars| && (inside <==> depth > 0)
      modifies this`cursor
      ensures old(cursor) <= cursor <= |chars|
      ensures r.Ok? ==> Reading(old(Rest()), r.value, Rest(), depth, inside) && Stops(Rest(), inside)
      ensures r.Err? ==> Scan(old(Rest()), depth) == Err(r.error)
      decreases |chars| - cursor, 1
    {
      var sequence := [];
      ghost var text := Rest();
      while cursor < |chars|
        invariant old(cursor) <= cursor <= |chars| && Reading(text, sequence, Rest(), depth, inside)
        decreases |chars| - cursor
      {
        var ch := chars[cursor];
        if inside && (ch == '}' || ch == ',') {
          break;
        }
        ghost var before := Rest();
        var part :- ParsePart(depth, inside);
        ReadPart(text, sequence, before, depth, inside, part, Rest());
        sequence := sequence + [part];
      }
      return Ok(sequence);
    }

    /** One token or one group. */
    method ParsePart(depth: nat, inside: bool) returns (r: Result<Part, GlobError>)
      requires cursor < |chars| && (inside <==> depth > 0)
      requires !(inside && (chars[cursor] == '}' || chars[cursor] == ','))
      modifies this`cursor
      ensures old(cursor) < cursor <= |chars| || r.Err?
      ensures cursor <= |chars| && old(cursor) <= cursor
      ensures r.Ok? ==>
                && ProperPart(r.value, inside) && old(Rest()) == PrintPart(r.value) + Rest()
                && Scan(old(Rest()), depth) == Scan(Rest(), depth)
      ensures r.Err? ==> Scan(old(Rest()), depth) == Err(r.error)
      decreases |chars| - cursor, 0
    {
      var ch := chars[cursor];
      ghost var before := Rest();
      assert before[0] == ch && before[1..] == chars[cursor + 1..];
      if ch == '}' {
        return Err(Malformed);
      } else if ch == '{' {
        if depth >= MAX_BRACE_DEPTH {
          return Err(SafetyLimit);
        }
        cursor := cursor + 1;
        var group :- ParseGroup(depth);
        GroupPrints(before, group, Rest());
        return Ok(Group(group));
      } else {
        cursor := cursor + 1;
        return Ok(One(TokenOf(ch)));
      }
    }

    /** The branches of a group, from behind its `{` to behind its `}`. */
    method ParseGroup(depth: nat) returns (r: Result<seq<Sequence>, GlobError>)
      requires cursor <= |chars|
      modifies this`cursor
      ensures old(cursor) <= cursor <= |chars|
      ensures r.Ok? ==>
                && old(Rest()) == PrintBranches(r.value) + ("}" + Rest())
                && r.value != [] && ProperBranches(r.value)
                && Scan(old(Rest()), depth + 1) == Scan(Rest(), depth)
      ensures r.Err? ==> Scan(old(Rest()), depth + 1) == Err(r.error)
      decreases |chars| - cursor, 2
    {
      var alternatives := [];
      ghost var text := Rest();
      while true
        invariant old(cursor) <= cursor <= |chars| && ReadingGroup(text, alternatives, Rest(), depth + 1)
        decreases |chars| - cursor
      {
        ghost var rest := Rest();
        var branch :- ParseSequence(depth + 1, true);
        if cursor == |chars| {
          return Err(Malformed);
        }
        ReadBranch(text, alternatives, rest, depth + 1, branch, Rest());
        assert Rest()[1..] == chars[cursor + 1..];
        alternatives := alternatives + [Sequence(branch)];
        cursor := cursor + 1;
        if chars[cursor - 1] == '}' {
          return Ok(alternatives);
        }
      }
    }
  }

  /**
    Accepts exactly the patterns whose braces balance and nest at most `MAX_BRACE_DEPTH` deep, which are the texts of
    the trees that nest no deeper, and returns that tree.
   */
  method Parse(pattern: string) returns (r: Result<seq<Part>, GlobError>)
    ensures match Scan(pattern, 0)
            case Ok(_) => r.Ok? && IsTreeOf(r.value, pattern) && Depth(r.value) <= MAX_BRACE_DEPTH
            case Err(error) => r == Err(error)
    ensures r.Ok? <==> exists tree :: IsTreeOf(tree, pattern) && Depth(tree) <= MAX_BRACE_DEPTH
  {
    forall tree | IsTreeOf(tree, pattern)
      ensures Scan(pattern, 0) == if Depth(tree) <= MAX_BRACE_DEPTH then Ok(()) else Err(SafetyLimit)
    {
      TextScans(tree, pattern);
    }
    var parser := new Parser(pattern);
    assert pattern[0..] == pattern;
    var tree :- parser.ParseSequence(0, false);
    if parser.cursor == |pattern| {
      assert IsTreeOf(tree, pattern);
      return Ok(tree);
    }
    return Err(Malformed);
  }
}
