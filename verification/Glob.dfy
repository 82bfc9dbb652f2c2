/** Compiling a glob: one validated pattern, its alternatives, and the equivalent SQLite patterns. */
module Glob {
  import opened Wrappers
  import opened GlobSyntax
  import opened GlobParser
  import opened GlobExpansion
  import opened GlobText
  import GlobMatcher
  import Utf8

  const MAX_PATTERN_BYTES := 16384

  // ---------------------------------------------------------------------------
  // SQLite GLOB
  // ---------------------------------------------------------------------------

  /**
    A `[...]` class of SQLite's GLOB, from behind the `[` and the optional `^`: whether `c` is a member, and what
    follows the class. A leading `]` is a member, `a-z` is a range, and a class without its `]` matches nothing.
   */
  function Class(p: string, c: char, prior: Option<char>, seen: bool, first: bool): (r: Option<(bool, string)>)
    ensures r.Some? ==> |r.value.1| < |p|
  {
    if p == "" then None
    else if p[0] == ']' && !first then Some((seen, p[1..]))
    else if p[0] == ']' then Class(p[1..], c, None, seen || c == ']', false)
    else if p[0] == '-' && prior.Some? && |p| > 1 && p[1] != ']' then
      Class(p[2..], c, None, seen || prior.value <= c <= p[1], false)
    else Class(p[1..], c, Some(p[0]), seen || c == p[0], false)
  }

  /** What SQLite reads of a text: it ends before the first NUL. */
  function CText(s: string): (r: string)
    ensures '\0' !in r && ('\0' !in s ==> r == s)
  {
    if s == "" || s[0] == '\0' then "" else [s[0]] + CText(s[1..])
  }

  /** The row with text `s` is selected by `GLOB p`, for a pattern without NUL: compilation refuses every other. */
  ghost predicate SqliteSelects(p: string, s: string) {
    SqliteGlob(p, CText(s))
  }

  /** `s GLOB p`, for texts without NUL. */
  ghost predicate SqliteGlob(p: string, s: string)
    decreases |p|
  {
    if p == "" then s == ""
    else if p[0] == '*' then exists k :: 0 <= k <= |s| && SqliteGlob(p[1..], s[k..])
    else if s == "" then false
    else if p[0] == '?' then SqliteGlob(p[1..], s[1..])
    else if p[0] == '[' then
      var invert := |p| > 1 && p[1] == '^';
      match Class(if invert then p[2..] else p[1..], s[0], None, false, true)
      case None => false
      case Some(result) => result.0 != invert && SqliteGlob(result.1, s[1..])
    else p[0] == s[0] && SqliteGlob(p[1..], s[1..])
  }

  function TokenText(t: Token): (s: string) {
    match t
    case AnySequence => "*"
    case AnyScalar => "?"
    case Literal(c) => if c == '[' then "[[]" else [c]
  }

  function SqliteText(ts: seq<Token>): (s: string) {
    if ts == [] then "" else TokenText(ts[0]) + SqliteText(ts[1..])
  }

  /** The bracketed bracket is a bracket. */
  lemma BracketClass(rest: string, c: char)
    ensures Class("[]" + rest, c, None, false, true) == Some((c == '[', rest))
  {
    var p := "[]" + rest;
    assert p[1..] == "]" + rest && p[1..][1..] == rest;
  }

  lemma {:induction false} TextMeans(ts: seq<Token>, s: string)
    requires Plain(ts)
    ensures SqliteGlob(SqliteText(ts), s) <==> Denotes(ts, s)
    decreases |ts|
  {
    if ts != [] {
      var p, rest := SqliteText(ts), SqliteText(ts[1..]);
      assert ts[0] in ts && Plain(ts[1..]);
      forall k | 0 <= k <= |s|
        ensures SqliteGlob(rest, s[k..]) <==> Denotes(ts[1..], s[k..])
      {
        TextMeans(ts[1..], s[k..]);
      }
      if ts[0] == Literal('[') {
        assert p[1..] == "[]" + rest && p[1] == '[';
        if s != "" {
          BracketClass(rest, s[0]);
        }
      } else {
        assert p[1..] == rest;
      }
    }
  }

  /** The SQLite pattern of a token list selects exactly the texts of which SQLite reads what the tokens denote. */
  lemma SqliteTextMeans(ts: seq<Token>, s: string)
    requires Plain(ts)
    ensures SqliteSelects(SqliteText(ts), s) <==> Denotes(ts, CText(s))
  {
    TextMeans(ts, CText(s));
  }

  method SqlitePattern(ts: seq<Token>) returns (pattern: string)
    ensures pattern == SqliteText(ts)
  {
    pattern := "";
    for i := 0 to |ts|
      invariant pattern + SqliteText(ts[i..]) == SqliteText(ts)
    {
      assert ts[i..][1..] == ts[i + 1..];
      var text := TokenText(ts[i]);
      assert pattern + (text + SqliteText(ts[i + 1..])) == pattern + text + SqliteText(ts[i + 1..]);
      pattern := pattern + text;
    }
  }

  // ---------------------------------------------------------------------------
  // Alternatives have no wildcard literals
  // ---------------------------------------------------------------------------

  lemma {:induction false} ExpandIsPlain(tree: seq<Part>)
    requires WellFormed(tree)
    ensures forall ts <- Expand(tree) :: Plain(ts)
    decreases tree, 1
  {
    if tree != [] {
      var n := |tree| - 1;
      ExpandIsPlain(tree[..n]);
      assert tree[n] in tree;
      match tree[n] {
        case One(t) =>
        case Group(branches) => BranchesArePlain(branches);
      }
      forall ts | ts in Expand(tree)
        ensures Plain(ts)
      {
        InCross(Expand(tree[..n]), ExpandPart(tree[n]), ts);
      }
    }
  }

  lemma {:induction false} BranchesArePlain(branches: seq<Sequence>)
    requires WellFormedBranches(branches)
    ensures forall ts <- ExpandBranches(branches) :: Plain(ts)
    decreases branches, 2
  {
    if branches != [] {
      var n := |branches| - 1;
      BranchesArePlain(branches[..n]);
      assert branches[n] in branches;
      ExpandIsPlain(branches[n].parts);
    }
  }

  lemma {:induction false} CollapseIsPlain(ts: seq<Token>)
    requires Plain(ts)
    ensures Plain(Collapse(ts))
  {
    if ts != [] {
      CollapseIsPlain(ts[..|ts| - 1]);
    }
  }

  // ---------------------------------------------------------------------------
  // Compiling
  // ---------------------------------------------------------------------------

  datatype CompiledGlob = CompiledGlob(alternatives: seq<seq<Token>>, sqliteAlternatives: seq<string>)

  /** The length of a pattern in UTF-8 bytes. */
  function Utf8Length(s: string): (n: nat) {
    |Utf8.Encode(seq(|s|, i requires 0 <= i < |s| => s[i] as int))|
  }

  /** A pattern is the text of one tree only. */
  lemma TreeIsUnique(a: seq<Part>, b: seq<Part>, pattern: string)
    requires IsTreeOf(a, pattern) && IsTreeOf(b, pattern)
    ensures a == b
  {
    PrintIsUnique(a, b, false, "", "");
  }

  /** The compiled form of a tree: its alternatives in order, stars collapsed, and their SQLite texts. */
  predicate IsCompiled(glob: CompiledGlob, tree: seq<Part>) {
    && glob.alternatives == CollapseEach(Expand(tree))
    && |glob.sqliteAlternatives| == |glob.alternatives|
    && forall i :: 0 <= i < |glob.alternatives| ==> glob.sqliteAlternatives[i] == SqliteText(glob.alternatives[i])
  }

  /** One of the SQLite patterns selects the row with text `s`. */
  ghost predicate AnySelects(patterns: seq<string>, s: string) {
    exists p <- patterns :: SqliteSelects(p, s)
  }

  /** Both forms select what the pattern selects; SQLite looks at what it reads of the text. */
  ghost predicate CompiledSelects(glob: CompiledGlob, pattern: string, s: string) {
    && (AnyDenotes(glob.alternatives, s) <==> Selects(pattern, s))
    && (AnySelects(glob.sqliteAlternatives, s) <==> Selects(pattern, CText(s)))
  }

  /** Without braces and brackets a pattern is SQLite's: `*` and `?` mean the same in both. */
  lemma {:induction false} BracelessIsSqlite(p: string, s: string)
    requires forall c <- p :: c != '{' && c != '['
    ensures Selects(p, s) <==> SqliteGlob(p, s)
    decreases |p|
  {
    if p != "" {
      assert p[0] in p && forall c <- p[1..] :: c in p;
      forall k | 0 <= k <= |s|
        ensures Selects(p[1..], s[k..]) <==> SqliteGlob(p[1..], s[k..])
      {
        BracelessIsSqlite(p[1..], s[k..]);
      }
    }
  }

  /**
    Every refusal and every success: too long or a NUL, unbalanced or too deep braces, more than `MAX_ALTERNATIVES`
    alternatives, or the compiled form of the pattern's tree, which selects what the pattern does.
   */
  method Compile(pattern: string) returns (r: Result<CompiledGlob, GlobError>)
    ensures if Utf8Length(pattern) > MAX_PATTERN_BYTES || '\0' in pattern then r == Err(SafetyLimit)
            else if Scan(pattern, 0).Err? then r == Err(Scan(pattern, 0).error)
            else exists tree :: IsTreeOf(tree, pattern)
                             && if Count(tree) > MAX_ALTERNATIVES then r == Err(SafetyLimit)
                                else r.Ok? && |r.value.alternatives| == Count(tree) && IsCompiled(r.value, tree)
    ensures r.Ok? ==> forall s :: CompiledSelects(r.value, pattern, s)
  {
    if Utf8Length(pattern) > MAX_PATTERN_BYTES || '\0' in pattern {
      return Err(SafetyLimit);
    }
    var tree :- Parse(pattern);
    assert IsTreeOf(tree, pattern);
    ProperIsWellFormed(tree, false);
    ExpandCount(tree);
    var alternatives :- ExpandSequence(tree);
    var sqliteAlternatives := [];
    for i := 0 to |alternatives|
      invariant |sqliteAlternatives| == i
      invariant forall j :: 0 <= j < i ==> sqliteAlternatives[j] == SqliteText(alternatives[j])
    {
      var text := SqlitePattern(alternatives[i]);
      sqliteAlternatives := sqliteAlternatives + [text];
    }
    ghost var glob := CompiledGlob(alternatives, sqliteAlternatives);
    forall s
      ensures CompiledSelects(glob, pattern, s)
    {
      CompiledMeans(pattern, tree, glob, s);
    }
    return Ok(CompiledGlob(alternatives, sqliteAlternatives));
  }

  /** `CompiledGlob::matches`. */
  method Matches(glob: CompiledGlob, candidate: string) returns (matched: bool)
    ensures matched <==> AnyDenotes(glob.alternatives, candidate)
  {
    for i := 0 to |glob.alternatives|
      invariant forall j :: 0 <= j < i ==> !Denotes(glob.alternatives[j], candidate)
    {
      var one := GlobMatcher.MatchesTokens(glob.alternatives[i], candidate);
      if one {
        assert glob.alternatives[i] in glob.alternatives;
        return true;
      }
    }
    return false;
  }

  /**
    A compiled glob selects what its tree denotes, which is what its pattern selects, read character by character: in
    Rust of the candidate, in SQLite of what SQLite reads of it, which is the same for a candidate without NUL.
   */
  lemma CompiledMeans(pattern: string, tree: seq<Part>, glob: CompiledGlob, s: string)
    requires IsTreeOf(tree, pattern) && IsCompiled(glob, tree)
    ensures CompiledSelects(glob, pattern, s)
    ensures AnyDenotes(glob.alternatives, s) <==> TreeDenotes(tree, s)
    ensures AnySelects(glob.sqliteAlternatives, s) <==> TreeDenotes(tree, CText(s))
    ensures '\0' !in s ==> (AnySelects(glob.sqliteAlternatives, s) <==> Selects(pattern, s))
  {
    AlternativesMean(tree, glob, s);
    AlternativesMean(tree, glob, CText(s));
    PatternMeans(tree, pattern, s);
    PatternMeans(tree, pattern, CText(s));
  }

  lemma AlternativesMean(tree: seq<Part>, glob: CompiledGlob, s: string)
    requires Proper(tree, false) && IsCompiled(glob, tree)
    ensures AnyDenotes(glob.alternatives, s) <==> TreeDenotes(tree, s)
    ensures (exists p <- glob.sqliteAlternatives :: SqliteGlob(p, s)) <==> TreeDenotes(tree, s)
  {
    ProperIsWellFormed(tree, false);
    ExpandIsPlain(tree);
    ExpandDenotes(tree, s);
    CollapseEachDenotes(Expand(tree), s);
    forall i | 0 <= i < |glob.alternatives|
      ensures SqliteGlob(glob.sqliteAlternatives[i], s) <==> Denotes(glob.alternatives[i], s)
    {
      CollapseIsPlain(Expand(tree)[i]);
      TextMeans(glob.alternatives[i], s);
    }
    if ts :| ts in glob.alternatives && Denotes(ts, s) {
      var i :| 0 <= i < |glob.alternatives| && glob.alternatives[i] == ts;
      assert glob.sqliteAlternatives[i] in glob.sqliteAlternatives;
    }
  }

  /** A NUL tells the two apart: SQLite selects a text with one by what is before it. */
  lemma NulTellsApart()
    ensures var tree, s := [One(Literal('a'))], "a\0b";
            IsTreeOf(tree, "a") && !TreeDenotes(tree, s) && TreeDenotes(tree, CText(s))
  {
    var tree, s := [One(Literal('a'))], "a\0b";
    assert s[1..][0] == '\0' && CText(s[1..]) == "" && CText(s) == ['a'];
    assert tree[..0] == [] && tree[1..] == [];
    assert Print(tree) == ['a'] + Print([]);
    assert TreeDenotes([], CText(s)[..0]) && PartDenotes(tree[0], CText(s)[0..]);
    forall k | 0 <= k <= |s| && TreeDenotes([], s[..k])
      ensures !PartDenotes(tree[0], s[k..])
    {
      assert k == 0;
    }
  }
}
