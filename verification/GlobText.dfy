/** What a glob selects, read off the characters of its pattern: no tokens and no tree. */
module GlobText {
  import opened GlobSyntax
  import opened GlobParser

  // ---------------------------------------------------------------------------
  // The reference
  // ---------------------------------------------------------------------------

  /** How far a branch goes: up to the `,` or `}` that is in no group of its own, or to the end. */
  function Cut(p: string, depth: nat): (n: nat)
    ensures n <= |p|
  {
    if p == "" || (depth == 0 && (p[0] == ',' || p[0] == '}')) then 0
    else if p[0] == '{' then 1 + Cut(p[1..], depth + 1)
    else if p[0] == '}' then 1 + Cut(p[1..], depth - 1)
    else 1 + Cut(p[1..], depth)
  }

  /** The branches of a group, from behind its `{`, and what follows its `}`. */
  function Branches(p: string): (r: (seq<string>, string))
    ensures |r.1| <= |p| && forall b <- r.0 :: |b| + |r.1| < |p|
  {
    var n := Cut(p, 0);
    if n == |p| then ([], "")
    else if p[n] == '}' then ([p[..n]], p[n + 1..])
    else
      var (others, rest) := Branches(p[n + 1..]);
      ([p[..n]] + others, rest)
  }

  /**
    The text `s` is selected by the pattern `p`: `*` stands for any run of characters, `?` for any one, `{a,b}` for
    `a` or `b`, and every other character for itself.
   */
  ghost predicate Selects(p: string, s: string)
    decreases |p|
  {
    if p == "" then s == ""
    else if p[0] == '*' then exists k :: 0 <= k <= |s| && Selects(p[1..], s[k..])
    else if p[0] == '?' then s != "" && Selects(p[1..], s[1..])
    else if p[0] == '{' then
      var (branches, rest) := Branches(p[1..]);
      exists b <- branches :: Selects(b + rest, s)
    else s != "" && s[0] == p[0] && Selects(p[1..], s[1..])
  }

  // ---------------------------------------------------------------------------
  // Groups
  // ---------------------------------------------------------------------------

  /** The text of a tree inside a group cuts nothing off. */
  lemma {:induction false} CutTree(tree: seq<Part>, rest: string, depth: nat)
    requires Proper(tree, true)
    ensures Cut(Print(tree) + rest, depth) == |Print(tree)| + Cut(rest, depth)
    decreases tree, 1
  {
    if tree == [] {
      assert Print(tree) + rest == rest;
    } else {
      Assoc(PrintPart(tree[0]), Print(tree[1..]), rest);
      CutPart(tree[0], Print(tree[1..]) + rest, depth);
      CutTree(tree[1..], rest, depth);
    }
  }

  lemma {:induction false} CutPart(part: Part, rest: string, depth: nat)
    requires ProperPart(part, true)
    ensures Cut(PrintPart(part) + rest, depth) == |PrintPart(part)| + Cut(rest, depth)
    decreases part, 0
  {
    var text := PrintPart(part) + rest;
    PartStarts(part, true);
    assert text[0] == PrintPart(part)[0];
    if part.One? {
      assert text[1..] == rest;
    } else {
      GroupText(part.branches, rest);
      CutBranches(part.branches, "}" + rest, depth + 1);
      assert ("}" + rest)[1..] == rest;
    }
  }

  lemma {:induction false} CutBranches(branches: seq<Sequence>, rest: string, depth: nat)
    requires branches != [] && ProperBranches(branches) && depth > 0
    ensures Cut(PrintBranches(branches) + rest, depth) == |PrintBranches(branches)| + Cut(rest, depth)
    decreases branches, 2
  {
    var first := branches[0].parts;
    if |branches| == 1 {
      CutTree(first, rest, depth);
    } else {
      var others := PrintBranches(branches[1..]);
      Assoc(Print(first) + ",", others, rest);
      Assoc(Print(first), ",", others + rest);
      CutTree(first, "," + (others + rest), depth);
      assert ("," + (others + rest))[1..] == others + rest;
      CutBranches(branches[1..], rest, depth);
    }
  }

  /** The texts of the branches of a group. */
  function Texts(branches: seq<Sequence>): (texts: seq<string>)
    ensures |texts| == |branches| && forall i :: 0 <= i < |branches| ==> texts[i] == Print(branches[i].parts)
  {
    seq(|branches|, i requires 0 <= i < |branches| => Print(branches[i].parts))
  }

  lemma FirstText(branches: seq<Sequence>)
    requires branches != []
    ensures Texts(branches) == [Print(branches[0].parts)] + Texts(branches[1..])
    ensures |branches| == 1 ==> Texts(branches) == [Print(branches[0].parts)]
  {
  }

  lemma AfterFirstIs(branches: seq<Sequence>, rest: string)
    requires branches != []
    ensures var after := AfterFirst(branches, rest);
            if |branches| == 1 then after[0] == '}' && after[1..] == rest
            else after[0] == ',' && after[1..] == PrintBranches(branches[1..]) + ("}" + rest)
  {
  }

  /** What the first branch leaves of a group. */
  lemma FirstIsCut(first: string, after: string)
    requires after != "" && (after[0] == ',' || after[0] == '}') && Cut(first + after, 0) == |first| + Cut(after, 0)
    ensures Branches(first + after)
         == if after[0] == '}' then ([first], after[1..])
            else ([first] + Branches(after[1..]).0, Branches(after[1..]).1)
  {
    var p := first + after;
    assert p[..|first|] == first && p[|first|] == after[0] && p[|first| + 1..] == after[1..];
  }

  /** Behind its `{`, the text of a group is cut into the texts of its branches. */
  lemma {:induction false} BranchesOf(branches: seq<Sequence>, rest: string)
    requires branches != [] && ProperBranches(branches)
    ensures Branches(PrintBranches(branches) + ("}" + rest)) == (Texts(branches), rest)
    decreases |branches|
  {
    var first, after := Print(branches[0].parts), AfterFirst(branches, rest);
    FirstBranch(branches, rest);
    AfterFirstIs(branches, rest);
    CutTree(branches[0].parts, after, 0);
    FirstIsCut(first, after);
    FirstText(branches);
    if |branches| > 1 {
      BranchesOf(branches[1..], rest);
    }
  }

  // ---------------------------------------------------------------------------
  // The text of a tree selects what the tree denotes
  // ---------------------------------------------------------------------------

  /** The first part of `s` is in `tree`, and `rest` selects what is left. */
  ghost predicate TreeThen(tree: seq<Part>, rest: string, s: string) {
    exists k :: 0 <= k <= |s| && TreeDenotes(tree, s[..k]) && Selects(rest, s[k..])
  }

  ghost predicate PartThen(part: Part, rest: string, s: string) {
    exists k :: 0 <= k <= |s| && PartDenotes(part, s[..k]) && Selects(rest, s[k..])
  }

  lemma {:induction false} ProperInit(tree: seq<Part>, inside: bool)
    requires tree != [] && Proper(tree, inside)
    ensures var n := |tree| - 1;
            && Proper(tree[..n], inside) && ProperPart(tree[n], inside)
            && Print(tree) == Print(tree[..n]) + PrintPart(tree[n])
  {
    var n := |tree| - 1;
    if n > 0 {
      ProperInit(tree[1..], inside);
      assert tree[1..][..n - 1] == tree[..n][1..];
      Assoc(PrintPart(tree[0]), Print(tree[..n][1..]), PrintPart(tree[n]));
    } else {
      assert tree[1..] == [] && tree[..0] == [];
      assert PrintPart(tree[0]) + "" == PrintPart(tree[0]);
    }
  }

  lemma {:induction false} TreeSelects(tree: seq<Part>, inside: bool, rest: string, s: string)
    requires Proper(tree, inside)
    ensures Selects(Print(tree) + rest, s) <==> TreeThen(tree, rest, s)
    decreases tree, 1
  {
    if tree == [] {
      assert Print(tree) + rest == rest && s[0..] == s && s[..0] == "";
      if TreeThen(tree, rest, s) {
        var k :| 0 <= k <= |s| && TreeDenotes(tree, s[..k]) && Selects(rest, s[k..]);
        assert k == 0;
      } else if Selects(rest, s) {
        assert TreeDenotes(tree, s[..0]);
      }
    } else {
      var n := |tree| - 1;
      var last := PrintPart(tree[n]);
      ProperInit(tree, inside);
      Assoc(Print(tree[..n]), last, rest);
      TreeSelects(tree[..n], inside, last + rest, s);
      forall j | 0 <= j <= |s|
        ensures Selects(last + rest, s[j..]) <==> PartThen(tree[n], rest, s[j..])
      {
        PartSelects(tree[n], inside, rest, s[j..]);
      }
      Regroup(tree, rest, s);
    }
  }

  /** Cutting off the parts before the last, then the last, is cutting off all. */
  lemma Regroup(tree: seq<Part>, rest: string, s: string)
    requires tree != []
    ensures var n := |tree| - 1;
            (TreeThen(tree, rest, s) <==>
             exists j :: 0 <= j <= |s| && TreeDenotes(tree[..n], s[..j]) && PartThen(tree[n], rest, s[j..]))
  {
    var n := |tree| - 1;
    if TreeThen(tree, rest, s) {
      var k :| 0 <= k <= |s| && TreeDenotes(tree, s[..k]) && Selects(rest, s[k..]);
      var j :| 0 <= j <= k && TreeDenotes(tree[..n], s[..k][..j]) && PartDenotes(tree[n], s[..k][j..]);
      assert s[..k][..j] == s[..j] && s[..k][j..] == s[j..][..k - j] && s[j..][k - j..] == s[k..];
      assert PartThen(tree[n], rest, s[j..]);
    }
    forall j | 0 <= j <= |s| && TreeDenotes(tree[..n], s[..j]) && PartThen(tree[n], rest, s[j..])
      ensures TreeThen(tree, rest, s)
    {
      var i :| 0 <= i <= |s[j..]| && PartDenotes(tree[n], s[j..][..i]) && Selects(rest, s[j..][i..]);
      var k := j + i;
      assert s[..k][..j] == s[..j] && s[..k][j..] == s[j..][..i] && s[j..][i..] == s[k..];
      assert TreeDenotes(tree, s[..k]);
    }
  }

  lemma {:induction false} PartSelects(part: Part, inside: bool, rest: string, s: string)
    requires ProperPart(part, inside)
    ensures Selects(PrintPart(part) + rest, s) <==> PartThen(part, rest, s)
    decreases part, 0
  {
    var p := PrintPart(part) + rest;
    PartStarts(part, inside);
    assert p[0] == PrintPart(part)[0];
    if part.One? {
      assert p[1..] == rest;
      if part.token.AnySequence? {
        assert forall k :: 0 <= k <= |s| ==> PartDenotes(part, s[..k]);
      } else if s != "" {
        assert s[..1] == [s[0]];
      }
    } else {
      GroupText(part.branches, rest);
      BranchesOf(part.branches, rest);
      var texts := Texts(part.branches);
      forall i | 0 <= i < |part.branches|
        ensures texts[i] in texts
        ensures Selects(texts[i] + rest, s) <==> TreeThen(part.branches[i].parts, rest, s)
      {
        ProperBranch(part.branches, i);
        TreeSelects(part.branches[i].parts, true, rest, s);
      }
      GroupThen(part.branches, rest, s);
    }
  }

  lemma {:induction false} ProperBranch(branches: seq<Sequence>, i: nat)
    requires i < |branches| && ProperBranches(branches)
    ensures Proper(branches[i].parts, true)
  {
    if i > 0 {
      ProperBranch(branches[1..], i - 1);
    }
  }

  lemma GroupThen(branches: seq<Sequence>, rest: string, s: string)
    ensures PartThen(Group(branches), rest, s)
       <==> exists i :: 0 <= i < |branches| && TreeThen(branches[i].parts, rest, s)
  {
  }

  /** A pattern selects, read character by character, exactly what its tree denotes. */
  lemma PatternMeans(tree: seq<Part>, pattern: string, s: string)
    requires IsTreeOf(tree, pattern)
    ensures Selects(pattern, s) <==> TreeDenotes(tree, s)
  {
    assert pattern + "" == pattern;
    TreeSelects(tree, false, "", s);
    assert s[..|s|] == s && s[|s|..] == "";
    forall k | 0 <= k <= |s| && Selects("", s[k..])
      ensures k == |s|
    {
    }
  }
}
