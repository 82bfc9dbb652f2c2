/** The glob dialect: its tokens, its brace trees, and what both denote. */
module GlobSyntax {

  datatype Token = AnySequence | AnyScalar | Literal(scalar: char)

  datatype Part = One(token: Token) | Group(branches: seq<Sequence>)

  datatype Sequence = Sequence(parts: seq<Part>)

  // ---------------------------------------------------------------------------
  // What a token list denotes
  // ---------------------------------------------------------------------------

  /** `s` is in the language of `ts`: a star is any run of scalars, `?` is one scalar, a literal is itself. */
  ghost predicate Denotes(ts: seq<Token>, s: string) {
    if ts == [] then s == ""
    else match ts[0]
      case AnySequence => exists k :: 0 <= k <= |s| && Denotes(ts[1..], s[k..])
      case AnyScalar => s != "" && Denotes(ts[1..], s[1..])
      case Literal(c) => s != "" && s[0] == c && Denotes(ts[1..], s[1..])
  }

  ghost predicate AnyDenotes(alternatives: seq<seq<Token>>, s: string) {
    exists ts <- alternatives :: Denotes(ts, s)
  }

  // ---------------------------------------------------------------------------
  // What a brace tree denotes
  // ---------------------------------------------------------------------------

  /** `s` splits into one piece for each part, in order. */
  ghost predicate TreeDenotes(tree: seq<Part>, s: string)
    decreases tree, 1
  {
    if tree == [] then s == ""
    else
      var n := |tree| - 1;
      exists k :: 0 <= k <= |s| && TreeDenotes(tree[..n], s[..k]) && PartDenotes(tree[n], s[k..])
  }

  ghost predicate PartDenotes(part: Part, s: string)
    decreases part, 0
  {
    match part
    case One(AnySequence) => true
    case One(AnyScalar) => |s| == 1
    case One(Literal(c)) => s == [c]
    case Group(branches) => exists i :: 0 <= i < |branches| && TreeDenotes(branches[i].parts, s)
  }

  // ---------------------------------------------------------------------------
  // The text of a brace tree
  // ---------------------------------------------------------------------------

  function PrintToken(t: Token): (c: char) {
    match t
    case AnySequence => '*'
    case AnyScalar => '?'
    case Literal(c) => c
  }

  function Print(tree: seq<Part>): (s: string)
    decreases tree, 1
  {
    if tree == [] then "" else PrintPart(tree[0]) + Print(tree[1..])
  }

  function PrintPart(part: Part): (s: string)
    decreases part, 0
  {
    match part
    case One(t) => [PrintToken(t)]
    case Group(branches) => "{" + PrintBranches(branches) + "}"
  }

  function PrintBranches(branches: seq<Sequence>): (s: string)
    decreases branches, 2
  {
    if branches == [] then ""
    else if |branches| == 1 then Print(branches[0].parts)
    else Print(branches[0].parts) + "," + PrintBranches(branches[1..])
  }

  // ---------------------------------------------------------------------------
  // The trees the parser can build
  // ---------------------------------------------------------------------------

  /** A literal is never a metacharacter, and inside a group never a comma; no group is empty. */
  predicate Proper(tree: seq<Part>, inside: bool)
    decreases tree, 1
  {
    tree != [] ==> ProperPart(tree[0], inside) && Proper(tree[1..], inside)
  }

  predicate ProperPart(part: Part, inside: bool)
    decreases part, 0
  {
    match part
    case One(Literal(c)) => c !in "*?{}" && (inside ==> c != ',')
    case One(_) => true
    case Group(branches) => branches != [] && ProperBranches(branches)
  }

  predicate ProperBranches(branches: seq<Sequence>)
    decreases branches, 2
  {
    branches != [] ==> Proper(branches[0].parts, true) && ProperBranches(branches[1..])
  }

  // ---------------------------------------------------------------------------
  // How deep a tree nests
  // ---------------------------------------------------------------------------

  function Deeper(a: nat, b: nat): nat {
    if a > b then a else b
  }

  /** How many groups are open at once. */
  function Depth(tree: seq<Part>): (n: nat)
    decreases tree, 1
  {
    if tree == [] then 0 else Deeper(DepthPart(tree[0]), Depth(tree[1..]))
  }

  function DepthPart(part: Part): (n: nat)
    decreases part, 0
  {
    match part
    case One(_) => 0
    case Group(branches) => 1 + DepthBranches(branches)
  }

  function DepthBranches(branches: seq<Sequence>): (n: nat)
    decreases branches, 2
  {
    if branches == [] then 0 else Deeper(Depth(branches[0].parts), DepthBranches(branches[1..]))
  }
}
