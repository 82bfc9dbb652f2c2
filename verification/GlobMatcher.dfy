/** The greedy matcher that remembers only the last star, and why that is enough. */
module GlobMatcher {
  import opened Wrappers
  import opened GlobSyntax

  ghost predicate StarFree(ts: seq<Token>) {
    AnySequence !in ts
  }

  /** A star at the front may swallow more. */
  lemma StarAbsorbs(ts: seq<Token>, s: string, i: nat, j: nat)
    requires i <= j <= |s| && ts != [] && ts[0].AnySequence? && Denotes(ts, s[j..])
    ensures Denotes(ts, s[i..])
  {
    var k :| 0 <= k <= |s[j..]| && Denotes(ts[1..], s[j..][k..]);
    assert s[i..][j - i + k..] == s[j..][k..];
  }

  /** Tokens without a star consume one scalar each. */
  lemma {:induction false} StarFreeConsumes(ts: seq<Token>, rest: seq<Token>, s: string)
    requires StarFree(ts) && Denotes(ts + rest, s)
    ensures |ts| <= |s| && Denotes(rest, s[|ts|..])
  {
    if ts == [] {
      assert ts + rest == rest && s[0..] == s;
    } else {
      assert (ts + rest)[0] == ts[0] && (ts + rest)[1..] == ts[1..] + rest;
      StarFreeConsumes(ts[1..], rest, s[1..]);
      assert s[1..][|ts| - 1..] == s[|ts|..];
    }
  }

  /** Some later retry of the star at index `star` succeeds. */
  ghost predicate LaterRetry(pattern: seq<Token>, star: int, candidate: string, retry: nat)
    requires -1 <= star < |pattern|
  {
    star >= 0 && exists k :: retry < k <= |candidate| && Denotes(pattern[star + 1..], candidate[k..])
  }

  /** Reaching another star, the retries of the earlier one can be forgotten. */
  lemma LastStarSuffices(pattern: seq<Token>, star: int, p: nat, candidate: string, retry: nat, c: nat)
    requires -1 <= star < p < |pattern| && pattern[p].AnySequence?
    requires star >= 0 ==> StarFree(pattern[star + 1..p]) && retry + (p - star - 1) == c <= |candidate|
    ensures LaterRetry(pattern, star, candidate, retry) ==> Denotes(pattern[p..], candidate[c..])
  {
    if LaterRetry(pattern, star, candidate, retry) {
      var k :| retry < k <= |candidate| && Denotes(pattern[star + 1..], candidate[k..]);
      var segment := pattern[star + 1..p];
      assert pattern[star + 1..] == segment + pattern[p..];
      StarFreeConsumes(segment, pattern[p..], candidate[k..]);
      assert candidate[k..][|segment|..] == candidate[k + |segment|..];
      StarAbsorbs(pattern[p..], candidate, c, k + |segment|);
    }
  }

  /** At the end of the candidate no retry is long enough. */
  lemma NoRetryAtTheEnd(pattern: seq<Token>, star: int, p: nat, candidate: string, retry: nat)
    requires -1 <= star < |pattern| && star < p <= |pattern|
    requires star >= 0 ==> StarFree(pattern[star + 1..p]) && retry + (p - star - 1) == |candidate|
    ensures !LaterRetry(pattern, star, candidate, retry)
  {
    if LaterRetry(pattern, star, candidate, retry) {
      var k :| retry < k <= |candidate| && Denotes(pattern[star + 1..], candidate[k..]);
      var segment := pattern[star + 1..p];
      assert pattern[star + 1..] == segment + pattern[p..];
      StarFreeConsumes(segment, pattern[p..], candidate[k..]);
    }
  }

  lemma StarChoices(ts: seq<Token>, s: string)
    requires ts != [] && ts[0].AnySequence?
    ensures Denotes(ts, s) <==> exists k :: 0 <= k <= |s| && Denotes(ts[1..], s[k..])
  {
  }

  /** A star either takes nothing or is retried later. */
  lemma StarSplits(pattern: seq<Token>, p: nat, candidate: string, c: nat)
    requires p < |pattern| && pattern[p].AnySequence? && c <= |candidate|
    ensures Denotes(pattern[p..], candidate[c..])
       <==> Denotes(pattern[p + 1..], candidate[c..]) || LaterRetry(pattern, p, candidate, c)
  {
    var ts, s := pattern[p..], candidate[c..];
    StarChoices(ts, s);
    assert ts[1..] == pattern[p + 1..];
    assert forall k :: 0 <= k <= |s| ==> s[k..] == candidate[c + k..];
    if LaterRetry(pattern, p, candidate, c) {
      var k :| c < k <= |candidate| && Denotes(pattern[p + 1..], candidate[k..]);
      assert s[k - c..] == candidate[k..];
    }
    if Denotes(pattern[p + 1..], s) {
      assert s[0..] == s;
    }
  }

  /** The later retries of a star are the next one and the ones after it. */
  lemma RetryOnce(pattern: seq<Token>, star: nat, candidate: string, retry: nat)
    requires star < |pattern| && retry < |candidate|
    ensures LaterRetry(pattern, star, candidate, retry)
       <==> Denotes(pattern[star + 1..], candidate[retry + 1..]) || LaterRetry(pattern, star, candidate, retry + 1)
  {
  }

  /** One scalar against one token that takes one scalar. */
  lemma ScalarStep(pattern: seq<Token>, p: nat, candidate: string, c: nat)
    requires p < |pattern| && c < |candidate| && (pattern[p].AnyScalar? || pattern[p] == Literal(candidate[c]))
    ensures Denotes(pattern[p..], candidate[c..]) <==> Denotes(pattern[p + 1..], candidate[c + 1..])
  {
    assert pattern[p..][1..] == pattern[p + 1..] && candidate[c..][1..] == candidate[c + 1..];
  }

  /** What the loop of the matcher knows. */
  ghost predicate Loop(pattern: seq<Token>, candidate: string, p: nat, c: nat, star: int, retry: nat) {
    && p <= |pattern| && c <= |candidate| && -1 <= star < |pattern| && star < p && retry <= c
    && (star >= 0 ==> pattern[star].AnySequence? && StarFree(pattern[star + 1..p]) && retry + (p - star - 1) == c)
    && (Denotes(pattern, candidate)
        <==> Denotes(pattern[p..], candidate[c..]) || LaterRetry(pattern, star, candidate, retry))
  }

  lemma AdvanceKeepsLoop(pattern: seq<Token>, candidate: string, p: nat, c: nat, star: int, retry: nat)
    requires Loop(pattern, candidate, p, c, star, retry) && p < |pattern| && c < |candidate|
    requires pattern[p].AnyScalar? || pattern[p] == Literal(candidate[c])
    ensures Loop(pattern, candidate, p + 1, c + 1, star, retry)
  {
    ScalarStep(pattern, p, candidate, c);
    assert star >= 0 ==> pattern[star + 1..p + 1] == pattern[star + 1..p] + [pattern[p]];
  }

  lemma StarKeepsLoop(pattern: seq<Token>, candidate: string, p: nat, c: nat, star: int, retry: nat)
    requires Loop(pattern, candidate, p, c, star, retry) && p < |pattern| && pattern[p].AnySequence?
    ensures Loop(pattern, candidate, p + 1, c, p, c)
  {
    LastStarSuffices(pattern, star, p, candidate, retry, c);
    StarSplits(pattern, p, candidate, c);
  }

  lemma RetryKeepsLoop(pattern: seq<Token>, candidate: string, p: nat, c: nat, star: int, retry: nat)
    requires Loop(pattern, candidate, p, c, star, retry) && c < |candidate|
    requires p < |pattern| ==> pattern[p].Literal? && pattern[p].scalar != candidate[c]
    ensures star < 0 ==> !Denotes(pattern, candidate)
    ensures star >= 0 ==> Loop(pattern, candidate, star + 1, retry + 1, star, retry + 1)
  {
    assert !Denotes(pattern[p..], candidate[c..]);
    if star >= 0 {
      RetryOnce(pattern, star, candidate, retry);
    }
  }

  /** Sound and complete: true exactly when the candidate is in the language of the pattern. */
  method MatchesTokens(pattern: seq<Token>, candidate: string) returns (matched: bool)
    ensures matched <==> Denotes(pattern, candidate)
  {
    var p, c := 0, 0;
    var star, retry := -1, 0;
    assert pattern[0..] == pattern && candidate[0..] == candidate;
    while c < |candidate|
      invariant 0 <= p <= |pattern| && 0 <= c <= |candidate| && -1 <= star < |pattern| && 0 <= retry
      invariant Loop(pattern, candidate, p, c, star, retry)
      decreases |pattern| - star, |candidate| - retry, |candidate| - c
    {
      if p < |pattern| && (pattern[p].AnyScalar? || pattern[p] == Literal(candidate[c])) {
        AdvanceKeepsLoop(pattern, candidate, p, c, star, retry);
        p, c := p + 1, c + 1;
      } else if p < |pattern| && pattern[p].AnySequence? {
        StarKeepsLoop(pattern, candidate, p, c, star, retry);
        star, retry, p := p, c, p + 1;
      } else {
        RetryKeepsLoop(pattern, candidate, p, c, star, retry);
        if star < 0 {
          return false;
        }
        retry := retry + 1;
        p, c := star + 1, retry;
      }
    }
    NoRetryAtTheEnd(pattern, star, p, candidate, retry);
    assert candidate[c..] == "";
    matched := OnlyStars(pattern, p);
  }

  /** The tail of the matcher: the tokens from `p` on match the empty string. */
  method OnlyStars(pattern: seq<Token>, p: nat) returns (matched: bool)
    requires p <= |pattern|
    ensures matched <==> Denotes(pattern[p..], "")
  {
    var i := p;
    while i < |pattern| && pattern[i].AnySequence?
      invariant p <= i <= |pattern|
      invariant Denotes(pattern[p..], "") <==> Denotes(pattern[i..], "")
    {
      StarChoices(pattern[i..], "");
      assert pattern[i..][1..] == pattern[i + 1..] && ""[0..] == "";
      i := i + 1;
    }
    return i == |pattern|;
  }
}
