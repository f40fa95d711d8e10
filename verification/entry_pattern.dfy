/**
 The pipe-entry pattern `"([^"]+)"\s*:\s*"([^"]+)"`, tried at one start
 position, as an explicit scanner with one phase per piece of the pattern.

 At a fixed start the pattern has at most one match: `[^"]+` is followed by
 `"`, which it cannot consume, and `\s*` is followed by `:` or `"`, which it
 cannot consume either, so backtracking never changes the groups. `MatchAt`
 therefore runs left to right without backtracking. `IsEntryText` states the
 pattern as the set of texts it matches, and the two are proved to agree.
 */
module EntryPattern {
  import opened Wrappers

  /** The two capture groups of one match: the pipe name and its URL. */
  datatype Entry = Entry(key: string, value: string)

  /** A match at a known start: its groups and the index just past it. */
  datatype Match = Match(entry: Entry, end: nat)

  /** Java's regex `\s`: space, tab, newline, vertical tab, form feed and carriage return. */
  predicate IsRegexSpace(c: char) {
    c == ' ' || c == '\t' || c == '\n' || c == '\U{000B}' || c == '\U{000C}' || c == '\r'
  }

  predicate NoQuote(t: string) {
    forall j :: 0 <= j < |t| ==> t[j] != '"'
  }

  predicate AllSpace(t: string) {
    forall j :: 0 <= j < |t| ==> IsRegexSpace(t[j])
  }

  /** The text `"key" ws1 : ws2 "value"`. */
  function Render(key: string, ws1: string, ws2: string, value: string): string {
    ['"'] + key + ['"'] + ws1 + [':'] + ws2 + ['"'] + value + ['"']
  }

  /** The pieces the pattern accepts: non-empty quote-free groups, `\s*` runs around the colon. */
  predicate Pieces(key: string, ws1: string, ws2: string, value: string) {
    |key| > 0 && NoQuote(key) && AllSpace(ws1) && AllSpace(ws2) && |value| > 0 && NoQuote(value)
  }

  /** `t` as a whole matches the entry pattern, with groups `e.key` and `e.value`. */
  ghost predicate IsEntryText(t: string, e: Entry) {
    exists ws1, ws2 :: Pieces(e.key, ws1, ws2, e.value) && t == Render(e.key, ws1, ws2, e.value)
  }

  /** Where the scanner is inside the pattern, once the opening `"` has been read. */
  datatype Phase =
    | InKey(keyStart: nat)                    // inside `[^"]+` of the name
    | BeforeColon(key: string)                // inside the `\s*` before `:`
    | AfterColon(key: string)                 // inside the `\s*` after `:`
    | InValue(key: string, valueStart: nat)   // inside `[^"]+` of the URL

  /** A group being read started at or before the current index. */
  predicate Started(ph: Phase, i: nat) {
    match ph
    case InKey(k) => k <= i
    case InValue(_, v) => v <= i
    case _ => true
  }

  /** The scanner continued from index `i` in phase `ph`. */
  function MatchFrom(s: string, i: nat, ph: Phase): Option<Match>
    requires i <= |s| && Started(ph, i)
    decreases |s| - i
  {
    if i == |s| then None
    else match ph
      case InKey(k) =>
        if s[i] != '"' then MatchFrom(s, i + 1, ph)
        else if i == k then None
        else MatchFrom(s, i + 1, BeforeColon(s[k..i]))
      case BeforeColon(key) =>
        if IsRegexSpace(s[i]) then MatchFrom(s, i + 1, ph)
        else if s[i] == ':' then MatchFrom(s, i + 1, AfterColon(key))
        else None
      case AfterColon(key) =>
        if IsRegexSpace(s[i]) then MatchFrom(s, i + 1, ph)
        else if s[i] == '"' then MatchFrom(s, i + 1, InValue(key, i + 1))
        else None
      case InValue(key, v) =>
        if s[i] != '"' then MatchFrom(s, i + 1, ph)
        else if i == v then None
        else Some(Match(Entry(key, s[v..i]), i + 1))
  }

  /** The match of the entry pattern that starts exactly at `p`, if there is one. */
  function MatchAt(s: string, p: nat): (r: Option<Match>)
    requires p <= |s|
    ensures r.Some? ==> p < r.value.end <= |s|
  {
    if p == |s| || s[p] != '"' then None
    else
      var r := MatchFrom(s, p + 1, InKey(p + 1));
      MatchFromEnd(s, p + 1, InKey(p + 1));
      r
  }

  /** A match found from index `i` ends after `i` and within `s`. */
  lemma {:induction false} MatchFromEnd(s: string, i: nat, ph: Phase)
    requires i <= |s| && Started(ph, i)
    decreases |s| - i
    ensures MatchFrom(s, i, ph).Some? ==> i < MatchFrom(s, i, ph).value.end <= |s|
  {
    if i < |s| {
      match ph
      case InKey(k) =>
        if s[i] != '"' {
          MatchFromEnd(s, i + 1, ph);
        } else if i != k {
          MatchFromEnd(s, i + 1, BeforeColon(s[k..i]));
        }
      case BeforeColon(key) =>
        if IsRegexSpace(s[i]) {
          MatchFromEnd(s, i + 1, ph);
        } else if s[i] == ':' {
          MatchFromEnd(s, i + 1, AfterColon(key));
        }
      case AfterColon(key) =>
        if IsRegexSpace(s[i]) {
          MatchFromEnd(s, i + 1, ph);
        } else if s[i] == '"' {
          MatchFromEnd(s, i + 1, InValue(key, i + 1));
        }
      case InValue(key, v) =>
        if s[i] != '"' {
          MatchFromEnd(s, i + 1, ph);
        }
    }
  }

  /** The first index at or after `i` that holds `"`, or `|s|`. */
  function SkipNonQuote(s: string, i: nat): (j: nat)
    requires i <= |s|
    decreases |s| - i
    ensures i <= j <= |s|
    ensures j == |s| || s[j] == '"'
  {
    if i == |s| || s[i] == '"' then i else SkipNonQuote(s, i + 1)
  }

  /** The first index at or after `i` that is not a regex space, or `|s|`. */
  function SkipSpace(s: string, i: nat): (j: nat)
    requires i <= |s|
    decreases |s| - i
    ensures i <= j <= |s|
    ensures j == |s| || !IsRegexSpace(s[j])
  {
    if i == |s| || !IsRegexSpace(s[i]) then i else SkipSpace(s, i + 1)
  }

  /** What `SkipNonQuote` skips holds no quote. */
  lemma {:induction false} SkipNonQuoteRun(s: string, i: nat)
    requires i <= |s|
    decreases |s| - i
    ensures NoQuote(s[i..SkipNonQuote(s, i)])
  {
    if i < |s| && s[i] != '"' {
      SkipNonQuoteRun(s, i + 1);
      assert s[i..SkipNonQuote(s, i)] == [s[i]] + s[i + 1..SkipNonQuote(s, i + 1)];
    }
  }

  /** What `SkipSpace` skips is all regex space. */
  lemma {:induction false} SkipSpaceRun(s: string, i: nat)
    requires i <= |s|
    decreases |s| - i
    ensures AllSpace(s[i..SkipSpace(s, i)])
  {
    if i < |s| && IsRegexSpace(s[i]) {
      SkipSpaceRun(s, i + 1);
      assert s[i..SkipSpace(s, i)] == [s[i]] + s[i + 1..SkipSpace(s, i + 1)];
    }
  }

  /** A quote-free run ended by `"` is exactly what `SkipNonQuote` skips. */
  lemma SkipNonQuoteStops(s: string, i: nat, j: nat)
    requires i <= j < |s| && NoQuote(s[i..j]) && s[j] == '"'
    ensures SkipNonQuote(s, i) == j
  {
    SkipNonQuoteRun(s, i);
  }

  /** A run of spaces ended by a non-space is exactly what `SkipSpace` skips. */
  lemma SkipSpaceStops(s: string, i: nat, j: nat)
    requires i <= j < |s| && AllSpace(s[i..j]) && !IsRegexSpace(s[j])
    ensures SkipSpace(s, i) == j
  {
    SkipSpaceRun(s, i);
  }

  /** Inside a group the scanner reads up to the next quote without changing phase. */
  lemma {:induction false} GroupRun(s: string, i: nat, ph: Phase)
    requires i <= |s| && Started(ph, i) && (ph.InKey? || ph.InValue?)
    decreases |s| - i
    ensures MatchFrom(s, i, ph) == MatchFrom(s, SkipNonQuote(s, i), ph)
  {
    if i < |s| && s[i] != '"' {
      GroupRun(s, i + 1, ph);
    }
  }

  /** Around the colon the scanner reads the `\s*` run without changing phase. */
  lemma {:induction false} SpaceRun(s: string, i: nat, ph: Phase)
    requires i <= |s| && (ph.BeforeColon? || ph.AfterColon?)
    decreases |s| - i
    ensures MatchFrom(s, i, ph) == MatchFrom(s, SkipSpace(s, i), ph)
  {
    if i < |s| && IsRegexSpace(s[i]) {
      SpaceRun(s, i + 1, ph);
    }
  }

  /** A successful scan through the name stops at its closing quote and moves on to `\s*`. */
  lemma KeyStage(s: string, i: nat, k: nat) returns (q: nat)
    requires k <= i <= |s| && MatchFrom(s, i, InKey(k)).Some?
    ensures q == SkipNonQuote(s, i) && k != q < |s|
    ensures MatchFrom(s, i, InKey(k)) == MatchFrom(s, q + 1, BeforeColon(s[k..q]))
  {
    q := SkipNonQuote(s, i);
    GroupRun(s, i, InKey(k));
  }

  /** A successful scan through `\s*` before the colon stops at `:`. */
  lemma BeforeColonStage(s: string, i: nat, key: string) returns (c: nat)
    requires i <= |s| && MatchFrom(s, i, BeforeColon(key)).Some?
    ensures c == SkipSpace(s, i) && c < |s| && s[c] == ':'
    ensures MatchFrom(s, i, BeforeColon(key)) == MatchFrom(s, c + 1, AfterColon(key))
  {
    c := SkipSpace(s, i);
    SpaceRun(s, i, BeforeColon(key));
  }

  /** A successful scan through `\s*` after the colon stops at the value's opening quote. */
  lemma AfterColonStage(s: string, i: nat, key: string) returns (d: nat)
    requires i <= |s| && MatchFrom(s, i, AfterColon(key)).Some?
    ensures d == SkipSpace(s, i) && d < |s| && s[d] == '"'
    ensures MatchFrom(s, i, AfterColon(key)) == MatchFrom(s, d + 1, InValue(key, d + 1))
  {
    d := SkipSpace(s, i);
    SpaceRun(s, i, AfterColon(key));
  }

  /** A successful scan through the URL stops at its closing quote and ends the match. */
  lemma ValueStage(s: string, i: nat, key: string, v: nat) returns (w: nat)
    requires v <= i <= |s| && MatchFrom(s, i, InValue(key, v)).Some?
    ensures w == SkipNonQuote(s, i) && v != w < |s|
    ensures MatchFrom(s, i, InValue(key, v)) == Some(Match(Entry(key, s[v..w]), w + 1))
  {
    w := SkipNonQuote(s, i);
    GroupRun(s, i, InValue(key, v));
  }

  /** A match found by `MatchAt`, cut at its five delimiters, with accepted pieces between them. */
  lemma MatchAtParts(s: string, p: nat) returns (q: nat, c: nat, d: nat, w: nat)
    requires p <= |s| && MatchAt(s, p).Some?
    ensures p < q < c < d < w < |s|
    ensures s[p] == '"' && s[q] == '"' && s[c] == ':' && s[d] == '"' && s[w] == '"'
    ensures MatchAt(s, p) == Some(Match(Entry(s[p + 1..q], s[d + 1..w]), w + 1))
    ensures Pieces(s[p + 1..q], s[q + 1..c], s[c + 1..d], s[d + 1..w])
  {
    q := KeyStage(s, p + 1, p + 1);
    c := BeforeColonStage(s, q + 1, s[p + 1..q]);
    d := AfterColonStage(s, c + 1, s[p + 1..q]);
    w := ValueStage(s, d + 1, s[p + 1..q], d + 1);
    SkipNonQuoteRun(s, p + 1);
    SkipSpaceRun(s, q + 1);
    SkipSpaceRun(s, c + 1);
    SkipNonQuoteRun(s, d + 1);
  }

  /** Delimiters at `p`, `q`, `c`, `d`, `w` with accepted pieces between them make a match at `p`. */
  lemma MatchAtDelimited(s: string, p: nat, q: nat, c: nat, d: nat, w: nat)
    requires p < q < c < d < w < |s|
    requires s[p] == '"' && s[q] == '"' && s[c] == ':' && s[d] == '"' && s[w] == '"'
    requires Pieces(s[p + 1..q], s[q + 1..c], s[c + 1..d], s[d + 1..w])
    ensures MatchAt(s, p) == Some(Match(Entry(s[p + 1..q], s[d + 1..w]), w + 1))
  {
    var before := BeforeColon(s[p + 1..q]);
    var after := AfterColon(s[p + 1..q]);
    var value := InValue(s[p + 1..q], d + 1);
    SkipNonQuoteStops(s, p + 1, q);
    GroupRun(s, p + 1, InKey(p + 1));
    assert MatchAt(s, p) == MatchFrom(s, q + 1, before);
    SkipSpaceStops(s, q + 1, c);
    SpaceRun(s, q + 1, before);
    assert MatchAt(s, p) == MatchFrom(s, c + 1, after);
    SkipSpaceStops(s, c + 1, d);
    SpaceRun(s, c + 1, after);
    assert MatchAt(s, p) == MatchFrom(s, d + 1, value);
    SkipNonQuoteStops(s, d + 1, w);
    GroupRun(s, d + 1, value);
  }

  /** Whatever `MatchAt` returns is a match of the entry pattern. */
  lemma MatchAtSound(s: string, p: nat)
    requires p <= |s| && MatchAt(s, p).Some?
    ensures IsEntryText(s[p..MatchAt(s, p).value.end], MatchAt(s, p).value.entry)
  {
    var q, c, d, w := MatchAtParts(s, p);
    RenderSlice(s, p, q, c, d, w);
    var key, ws1, ws2, value := s[p + 1..q], s[q + 1..c], s[c + 1..d], s[d + 1..w];
    assert Pieces(key, ws1, ws2, value) && s[p..w + 1] == Render(key, ws1, ws2, value);
  }

  /** A text cut at its five delimiters is the rendering of the four pieces between them. */
  lemma RenderSlice(s: string, p: nat, q: nat, c: nat, d: nat, w: nat)
    requires p < q < c < d < w < |s|
    requires s[p] == '"' && s[q] == '"' && s[c] == ':' && s[d] == '"' && s[w] == '"'
    ensures s[p..w + 1] == Render(s[p + 1..q], s[q + 1..c], s[c + 1..d], s[d + 1..w])
  {
  }

  /** Every match of the entry pattern that starts at `p` is the one `MatchAt` finds. */
  lemma MatchAtComplete(s: string, p: nat, e: nat, en: Entry)
    requires p <= e <= |s| && IsEntryText(s[p..e], en)
    ensures MatchAt(s, p) == Some(Match(en, e))
  {
    var q, c, d, w := EntryTextDelimiters(s, p, e, en);
    MatchAtDelimited(s, p, q, c, d, w);
  }

  /** A match of the entry pattern inside `s`, cut at its five delimiters. */
  lemma EntryTextDelimiters(s: string, p: nat, e: nat, en: Entry) returns (q: nat, c: nat, d: nat, w: nat)
    requires p <= e <= |s| && IsEntryText(s[p..e], en)
    ensures p < q < c < d < w < |s| && e == w + 1
    ensures s[p] == '"' && s[q] == '"' && s[c] == ':' && s[d] == '"' && s[w] == '"'
    ensures en == Entry(s[p + 1..q], s[d + 1..w])
    ensures Pieces(s[p + 1..q], s[q + 1..c], s[c + 1..d], s[d + 1..w])
  {
    var t := s[p..e];
    var tq, tc, td, tw := EntryTextCuts(t, en);
    q, c, d, w := p + tq, p + tc, p + td, p + tw;
    assert t[0] == s[p] && t[tq] == s[q] && t[tc] == s[c] && t[td] == s[d] && t[tw] == s[w];
    SliceOfSlice(s, p, e, 1, tq);
    assert t[1..tq] == s[p + 1..q];
    SliceOfSlice(s, p, e, tq + 1, tc);
    assert t[tq + 1..tc] == s[q + 1..c];
    SliceOfSlice(s, p, e, tc + 1, td);
    assert t[tc + 1..td] == s[c + 1..d];
    SliceOfSlice(s, p, e, td + 1, tw);
    assert t[td + 1..tw] == s[d + 1..w];
  }

  /** A text matching the entry pattern, cut at its five delimiters `0`, `q`, `c`, `d`, `w`. */
  lemma EntryTextCuts(t: string, en: Entry) returns (q: nat, c: nat, d: nat, w: nat)
    requires IsEntryText(t, en)
    ensures 0 < q < c < d < w && |t| == w + 1
    ensures t[0] == '"' && t[q] == '"' && t[c] == ':' && t[d] == '"' && t[w] == '"'
    ensures en == Entry(t[1..q], t[d + 1..w])
    ensures Pieces(t[1..q], t[q + 1..c], t[c + 1..d], t[d + 1..w])
  {
    var ws1, ws2 := EntryTextPieces(t, en);
    q := 1 + |en.key|;
    c := q + 1 + |ws1|;
    d := c + 1 + |ws2|;
    w := d + 1 + |en.value|;
  }

  /** A slice of a slice is a slice of the original. */
  lemma SliceOfSlice(s: string, p: nat, e: nat, i: nat, j: nat)
    requires p <= e <= |s| && i <= j <= e - p
    ensures s[p..e][i..j] == s[p + i..p + j]
  {
    assert forall k :: 0 <= k < j - i ==> s[p..e][i..j][k] == s[p + i + k];
  }

  /** A match of the entry pattern inside the slice `s[lo..hi]` is one inside `s`, shifted by `lo`. */
  lemma EntryTextInSlice(s: string, lo: nat, hi: nat, i: nat, j: nat, en: Entry)
    requires lo <= hi <= |s| && i <= j <= hi - lo
    requires IsEntryText(s[lo..hi][i..j], en)
    ensures IsEntryText(s[lo + i..lo + j], en)
  {
    SliceOfSlice(s, lo, hi, i, j);
  }

  /** Where each piece sits inside a text that matches the entry pattern. */
  lemma EntryTextPieces(t: string, en: Entry) returns (ws1: string, ws2: string)
    requires IsEntryText(t, en)
    ensures Pieces(en.key, ws1, ws2, en.value)
    ensures |t| == |en.key| + |ws1| + |ws2| + |en.value| + 5
    ensures t[0] == '"' && t[1..1 + |en.key|] == en.key && t[1 + |en.key|] == '"'
    ensures t[2 + |en.key|..2 + |en.key| + |ws1|] == ws1 && t[2 + |en.key| + |ws1|] == ':'
    ensures t[3 + |en.key| + |ws1|..3 + |en.key| + |ws1| + |ws2|] == ws2
    ensures t[3 + |en.key| + |ws1| + |ws2|] == '"'
    ensures t[4 + |en.key| + |ws1| + |ws2|..4 + |en.key| + |ws1| + |ws2| + |en.value|] == en.value
    ensures t[4 + |en.key| + |ws1| + |ws2| + |en.value|] == '"'
  {
    ws1, ws2 :| Pieces(en.key, ws1, ws2, en.value) && t == Render(en.key, ws1, ws2, en.value);
  }

}
