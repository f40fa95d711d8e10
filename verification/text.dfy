/**
 The three `java.lang.String` operations the registry code relies on:
 `indexOf(String)`, `indexOf(char, int)` and `trim()`.
 Strings are sequences of characters; Java's -1 "not found" index is kept.
 */
module Text {

  /** `pat` occurs in `s` starting at index `i`. */
  predicate OccursAt(s: string, pat: string, i: nat) {
    i + |pat| <= |s| && s[i..i + |pat|] == pat
  }

  /** `i` is the leftmost occurrence of `pat` in `s`. */
  predicate FirstOccurrence(s: string, pat: string, i: nat) {
    OccursAt(s, pat, i) && forall j: nat :: j < i ==> !OccursAt(s, pat, j)
  }

  /** `i` is the first index at or after `from` that holds `c`. */
  predicate FirstCharFrom(s: string, c: char, from: nat, i: nat) {
    from <= i < |s| && s[i] == c && forall j :: from <= j < i ==> s[j] != c
  }

  /** Search for `pat` at `from` and to the right of it. */
  function IndexOfFrom(s: string, pat: string, from: nat): (r: int)
    decreases |s| - from
    ensures r == -1 <==> forall j: nat :: from <= j ==> !OccursAt(s, pat, j)
    ensures r != -1 ==> from <= r && OccursAt(s, pat, r)
                        && forall j: nat :: from <= j < r ==> !OccursAt(s, pat, j)
  {
    if from + |pat| > |s| then -1
    else if s[from..from + |pat|] == pat then assert OccursAt(s, pat, from); from
    else IndexOfFrom(s, pat, from + 1)
  }

  /** `s.indexOf(pat)`: the leftmost occurrence of `pat`, or -1 when there is none. */
  function IndexOf(s: string, pat: string): (r: int)
    ensures r == -1 <==> forall j: nat :: !OccursAt(s, pat, j)
    ensures r != -1 ==> 0 <= r && FirstOccurrence(s, pat, r)
  {
    IndexOfFrom(s, pat, 0)
  }

  /** `s.indexOf(c, from)`: the first index at or after `from` holding `c`, or -1. */
  function IndexOfChar(s: string, c: char, from: nat): (r: int)
    decreases |s| - from
    ensures r == -1 <==> forall j :: from <= j < |s| ==> s[j] != c
    ensures r != -1 ==> 0 <= r && FirstCharFrom(s, c, from, r)
  {
    if from >= |s| then -1
    else if s[from] == c then from
    else IndexOfChar(s, c, from + 1)
  }

  /** What `String.trim` removes: every character whose code point is at most U+0020. */
  predicate IsTrimmed(c: char) {
    c <= ' '
  }

  predicate AllTrimmed(s: string) {
    forall j :: 0 <= j < |s| ==> IsTrimmed(s[j])
  }

  /** Every character of `s` outside the slice `[a, b)` is trimmable. */
  predicate TrimmedOutside(s: string, a: nat, b: nat) {
    forall j :: 0 <= j < |s| && !(a <= j < b) ==> IsTrimmed(s[j])
  }

  /** The first index at or after `i` whose character `trim` keeps, or `|s|`. */
  function TrimStart(s: string, i: nat): (a: nat)
    requires i <= |s|
    decreases |s| - i
    ensures i <= a <= |s|
    ensures forall j :: i <= j < a ==> IsTrimmed(s[j])
    ensures a == |s| || !IsTrimmed(s[a])
  {
    if i == |s| || !IsTrimmed(s[i]) then i else TrimStart(s, i + 1)
  }

  /** The end of `s[a..b]` once its trailing trimmable characters are dropped. */
  function TrimEnd(s: string, a: nat, b: nat): (e: nat)
    requires a <= b <= |s|
    decreases b - a
    ensures a <= e <= b
    ensures forall j :: e <= j < b ==> IsTrimmed(s[j])
    ensures e == a || !IsTrimmed(s[e - 1])
  {
    if b == a || !IsTrimmed(s[b - 1]) then b else TrimEnd(s, a, b - 1)
  }

  /**
   `s.trim()`: the slice `s[a..b]` left once every leading and trailing
   character at or below U+0020 is removed.
   */
  function Trim(s: string): (r: string)
    ensures exists a, b :: 0 <= a <= b <= |s| && r == s[a..b] && TrimmedOutside(s, a, b)
    ensures r == [] || (!IsTrimmed(r[0]) && !IsTrimmed(r[|r| - 1]))
    ensures r == [] <==> AllTrimmed(s)
  {
    var a := TrimStart(s, 0);
    var b := TrimEnd(s, a, |s|);
    assert TrimmedOutside(s, a, b);
    s[a..b]
  }

  /**
   The slice `s[a..b]` with only trimmable characters around it, and
   starting and ending with a kept character unless empty, is exactly `s.trim()`.
   */
  lemma TrimUnique(s: string, a: nat, b: nat)
    requires a <= b <= |s|
    requires TrimmedOutside(s, a, b)
    requires a == b || (!IsTrimmed(s[a]) && !IsTrimmed(s[b - 1]))
    ensures Trim(s) == s[a..b]
  {
  }

  /** Trimmable characters added around `s` do not change `s.trim()`. */
  lemma TrimPadded(pre: string, s: string, post: string)
    requires AllTrimmed(pre) && AllTrimmed(post)
    ensures Trim(pre + s + post) == Trim(s)
  {
    var a, b :| 0 <= a <= b <= |s| && Trim(s) == s[a..b] && TrimmedOutside(s, a, b);
    var t := pre + s + post;
    var a', b' := |pre| + a, |pre| + b;
    assert t[a'..b'] == s[a..b];
    PaddedOutside(pre, s, post, a, b);
    if a < b {
      assert t[a'] == s[a] == Trim(s)[0];
      assert t[b' - 1] == s[b - 1] == Trim(s)[b - a - 1];
    }
    TrimUnique(t, a', b');
  }

  /** Padding with trimmable characters keeps everything outside the slice trimmable. */
  lemma PaddedOutside(pre: string, s: string, post: string, a: nat, b: nat)
    requires AllTrimmed(pre) && AllTrimmed(post)
    requires a <= b <= |s| && TrimmedOutside(s, a, b)
    ensures TrimmedOutside(pre + s + post, |pre| + a, |pre| + b)
  {
  }

  /** Trimming is idempotent. */
  lemma TrimIdempotent(s: string)
    ensures Trim(Trim(s)) == Trim(s)
  {
  }
}
