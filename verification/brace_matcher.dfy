/**
 Brace matching as `findMatchingBrace` does it: walk right from a start index
 keeping a depth counter (`{` adds one, `}` takes one away) and stop at the
 first `}` that brings the counter back to 0.
 */
module BraceMatcher {

  /** The depth change one character causes. */
  function Step(c: char): int {
    if c == '{' then 1 else if c == '}' then -1 else 0
  }

  /** The running depth after reading all of `t`, starting from 0. */
  function Depth(t: string): int {
    if |t| == 0 then 0 else Depth(t[..|t| - 1]) + Step(t[|t| - 1])
  }

  /** Index `i` holds a `}` that brings the depth counted from `k`, over `s[k..i]` inclusive, to 0. */
  predicate ClosesAt(s: string, k: nat, i: nat) {
    k <= i < |s| && s[i] == '}' && Depth(s[k..i + 1]) == 0
  }

  /** `i` is the first index at which the depth counted from `k` is closed. */
  predicate IsMatchingBrace(s: string, k: nat, i: nat) {
    ClosesAt(s, k, i) && forall j :: k <= j < i ==> !ClosesAt(s, k, j)
  }

  /** Reading one more character moves the depth by that character's step. */
  lemma DepthExtend(s: string, k: nat, i: nat)
    requires k <= i < |s|
    ensures Depth(s[k..i + 1]) == Depth(s[k..i]) + Step(s[i])
  {
    assert s[k..i + 1][..i - k] == s[k..i];
  }

  /** Characters other than braces leave the depth where it was. */
  lemma {:induction false} DepthFlat(s: string, k: nat, m: nat, i: nat)
    requires k <= m <= i <= |s|
    requires forall j :: m <= j < i ==> s[j] != '{' && s[j] != '}'
    decreases i - m
    ensures Depth(s[k..i]) == Depth(s[k..m])
  {
    if m < i {
      DepthFlat(s, k, m, i - 1);
      DepthExtend(s, k, i - 1);
    }
  }

  /** The scan continued from index `i`, where the depth counted from `k` is `depth`. */
  function MatchingBraceFrom(s: string, k: nat, i: nat, depth: int): (r: int)
    requires k <= i <= |s| && depth == Depth(s[k..i])
    decreases |s| - i
    ensures r == -1 ==> forall j :: i <= j < |s| ==> !ClosesAt(s, k, j)
    ensures r != -1 ==> i <= r && ClosesAt(s, k, r)
                        && forall j :: i <= j < r ==> !ClosesAt(s, k, j)
  {
    if i == |s| then -1
    else
      DepthExtend(s, k, i);
      var d := depth + Step(s[i]);
      if s[i] == '}' && d == 0 then i else MatchingBraceFrom(s, k, i + 1, d)
  }

  /**
   The index of the brace matching the scan started at `k`, or -1 when the
   depth never comes back to 0 on a `}` (truncated or unbalanced text).
   */
  function MatchingBrace(s: string, k: nat): (r: int)
    ensures r == -1 <==> forall j: nat :: !ClosesAt(s, k, j)
    ensures r != -1 ==> 0 <= r && IsMatchingBrace(s, k, r)
  {
    if k > |s| then -1 else MatchingBraceFrom(s, k, k, 0)
  }

  /** The loop of `findMatchingBrace`, which agrees with `MatchingBrace`. */
  method FindMatchingBrace(s: string, startIndex: nat) returns (r: int)
    ensures r == -1 <==> forall j: nat :: !ClosesAt(s, startIndex, j)
    ensures r != -1 ==> 0 <= r && IsMatchingBrace(s, startIndex, r)
    ensures r == MatchingBrace(s, startIndex)
  {
    if startIndex >= |s| {
      return -1;
    }
    var depth := 0;
    var i := startIndex;
    while i < |s|
      invariant startIndex <= i <= |s|
      invariant depth == Depth(s[startIndex..i])
      invariant forall j :: startIndex <= j < i ==> !ClosesAt(s, startIndex, j)
    {
      DepthExtend(s, startIndex, i);
      var current := s[i];
      if current == '{' {
        depth := depth + 1;
      } else if current == '}' {
        depth := depth - 1;
        if depth == 0 {
          assert ClosesAt(s, startIndex, i);
          return i;
        }
      }
      i := i + 1;
    }
    return -1;
  }
}
