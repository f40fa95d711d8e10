/**
 The `while (matcher.find())` loop of the registry parser and the map it fills:
 the pattern is tried at each position, and each match is `put` into the map
 in the order found.
 */
module EntryScanner {
  import opened Wrappers
  import opened EntryPattern

  /** A match found by the scan: where it starts, its groups, where it ends (exclusive). */
  datatype Found = Found(start: nat, entry: Entry, end: nat)

  /**
   The `while (matcher.find())` loop from index `p`: at each position try the
   pattern; on a match record it and resume just past it, otherwise move on by
   one character. The matches come out in order, without overlap.
   */
  function ScanFrom(s: string, p: nat): seq<Found>
    requires p <= |s|
    decreases |s| - p
  {
    if p == |s| then []
    else match MatchAt(s, p)
      case None => ScanFrom(s, p + 1)
      case Some(m) => [Found(p, m.entry, m.end)] + ScanFrom(s, m.end)
  }

  /** The matches in `r` lie within `[p, n)`, in order and without overlap. */
  ghost predicate InOrder(r: seq<Found>, p: nat, n: nat) {
    && (forall i :: 0 <= i < |r| ==> p <= r[i].start < r[i].end <= n)
    && (forall i, j :: 0 <= i < j < |r| ==> r[i].end <= r[j].start)
  }

  /** The recorded matches lie within `s[p..]`, in order and without overlap. */
  lemma {:induction false} ScanOrdered(s: string, p: nat)
    requires p <= |s|
    decreases |s| - p
    ensures InOrder(ScanFrom(s, p), p, |s|)
  {
    if p < |s| {
      match MatchAt(s, p)
      case None =>
        ScanOrdered(s, p + 1);
        assert ScanFrom(s, p) == ScanFrom(s, p + 1);
      case Some(m) =>
        ScanOrdered(s, m.end);
        var rest := ScanFrom(s, m.end);
        var r := [Found(p, m.entry, m.end)] + rest;
        assert ScanFrom(s, p) == r;
        assert p < m.end;
        forall i | 0 <= i < |r|
          ensures p <= r[i].start < r[i].end <= |s|
        {
          if i > 0 {
            assert r[i] == rest[i - 1];
            assert m.end <= rest[i - 1].start;
          }
        }
        forall i, j | 0 <= i < j < |r|
          ensures r[i].end <= r[j].start
        {
          assert r[j] == rest[j - 1];
          assert m.end <= rest[j - 1].start;
          if i > 0 { assert r[i] == rest[i - 1]; }
        }
    }
  }

  /** Each recorded match is the match of the pattern at its start position. */
  lemma {:induction false} ScanFound(s: string, p: nat, i: nat)
    requires p <= |s| && i < |ScanFrom(s, p)|
    decreases |s| - p
    ensures var f := ScanFrom(s, p)[i]; f.start < |s| && MatchAt(s, f.start) == Some(Match(f.entry, f.end))
  {
    match MatchAt(s, p)
    case None =>
      ScanFound(s, p + 1, i);
    case Some(m) =>
      if i > 0 {
        ScanFound(s, m.end, i - 1);
      }
  }

  /**
   The scan is leftmost-first: every position from `p` on at which the pattern
   matches is the start of a recorded match (the `i`-th) or lies inside one, so
   no match is skipped between or after the recorded ones.
   */
  lemma {:induction false} ScanLeftmost(s: string, p: nat, q: nat) returns (i: nat)
    requires p <= q < |s| && MatchAt(s, q).Some?
    decreases |s| - p
    ensures i < |ScanFrom(s, p)| && ScanFrom(s, p)[i].start <= q < ScanFrom(s, p)[i].end
  {
    var r := ScanFrom(s, p);
    match MatchAt(s, p)
    case None =>
      assert q != p;
      assert r == ScanFrom(s, p + 1);
      i := ScanLeftmost(s, p + 1, q);
    case Some(m) =>
      var rest := ScanFrom(s, m.end);
      assert r == [Found(p, m.entry, m.end)] + rest;
      if q < m.end {
        i := 0;
      } else {
        var k := ScanLeftmost(s, m.end, q);
        assert r[k + 1] == rest[k];
        i := k + 1;
      }
  }

  /** Every recorded match is a match of the entry pattern over exactly its span. */
  lemma ScanSound(s: string, p: nat)
    requires p <= |s|
    ensures var r := ScanFrom(s, p);
            forall i :: 0 <= i < |r| ==> r[i].start < r[i].end <= |s| && IsEntryText(s[r[i].start..r[i].end], r[i].entry)
  {
    var r := ScanFrom(s, p);
    ScanOrdered(s, p);
    assert InOrder(r, p, |s|);
    forall i | 0 <= i < |r|
      ensures r[i].start < r[i].end <= |s| && IsEntryText(s[r[i].start..r[i].end], r[i].entry)
    {
      ScanMatchText(s, p, i);
    }
  }

  /** The `i`-th recorded match is a match of the entry pattern over exactly its span. */
  lemma ScanMatchText(s: string, p: nat, i: nat)
    requires p <= |s| && i < |ScanFrom(s, p)|
    ensures var f := ScanFrom(s, p)[i];
            f.start < f.end <= |s| && IsEntryText(s[f.start..f.end], f.entry)
  {
    var f := ScanFrom(s, p)[i];
    ScanFound(s, p, i);
    MatchAtSound(s, f.start);
  }

  /**
   The `i`-th match recorded in the slice `s[lo..hi]`, located in `s`: a match
   of the entry pattern over `s[start..end]`, within the slice.
   */
  lemma SliceMatchSound(s: string, lo: nat, hi: nat, i: nat) returns (start: nat, end: nat)
    requires lo <= hi <= |s| && i < |ScanFrom(s[lo..hi], 0)|
    ensures lo <= start < end <= hi
    ensures IsEntryText(s[start..end], ScanFrom(s[lo..hi], 0)[i].entry)
  {
    var f := ScanFrom(s[lo..hi], 0)[i];
    ScanMatchText(s[lo..hi], 0, i);
    EntryTextInSlice(s, lo, hi, f.start, f.end, f.entry);
    start, end := lo + f.start, lo + f.end;
  }

  /** The map built by `put`-ting every recorded entry in order, as the loop body does. */
  function ToMap(fs: seq<Found>): map<string, string>
  {
    if |fs| == 0 then map[]
    else
      var last := fs[|fs| - 1].entry;
      ToMap(fs[..|fs| - 1])[last.key := last.value]
  }

  /** The map holds exactly the keys that were matched. */
  lemma {:induction false} ToMapKeys(fs: seq<Found>, k: string)
    ensures k in ToMap(fs) <==> exists i :: 0 <= i < |fs| && fs[i].entry.key == k
  {
    if |fs| > 0 {
      var n := |fs| - 1;
      var init := fs[..n];
      ToMapKeys(init, k);
      if k in ToMap(init) {
        var i :| 0 <= i < |init| && init[i].entry.key == k;
        assert fs[i] == init[i];
      }
      if k != fs[n].entry.key && exists i :: 0 <= i < |fs| && fs[i].entry.key == k {
        var i :| 0 <= i < |fs| && fs[i].entry.key == k;
        assert init[i] == fs[i];
      }
    }
  }

  /** A key matched more than once keeps the value of its last match. */
  lemma {:induction false} ToMapLastWins(fs: seq<Found>, i: nat)
    requires i < |fs|
    requires forall j :: i < j < |fs| ==> fs[j].entry.key != fs[i].entry.key
    ensures fs[i].entry.key in ToMap(fs) && ToMap(fs)[fs[i].entry.key] == fs[i].entry.value
  {
    var n := |fs| - 1;
    if i < n {
      var init := fs[..n];
      assert init[i] == fs[i];
      ToMapLastWins(init, i);
    }
  }

  /** Every value in the map comes from the last match of its key. */
  lemma {:induction false} ToMapLastMatch(fs: seq<Found>, k: string)
    requires k in ToMap(fs)
    ensures exists i :: 0 <= i < |fs| && fs[i].entry == Entry(k, ToMap(fs)[k])
                        && forall j :: i < j < |fs| ==> fs[j].entry.key != k
  {
    var n := |fs| - 1;
    if fs[n].entry.key == k {
      assert fs[n].entry == Entry(k, ToMap(fs)[k]);
    } else {
      var init := fs[..n];
      ToMapLastMatch(init, k);
      var i :| 0 <= i < |init| && init[i].entry == Entry(k, ToMap(init)[k])
               && forall j :: i < j < |init| ==> init[j].entry.key != k;
      assert fs[i] == init[i];
    }
  }

  /** Putting one more match into the map. */
  lemma ToMapSnoc(fs: seq<Found>, f: Found)
    ensures ToMap(fs + [f]) == ToMap(fs)[f.entry.key := f.entry.value]
  {
  }

  /** The `Matcher.find` loop over `s`, filling the map as it goes; it builds `ToMap(ScanFrom(s, 0))`. */
  method ScanEntries(s: string) returns (m: map<string, string>)
    ensures m == ToMap(ScanFrom(s, 0))
  {
    m := map[];
    var p := 0;
    ghost var done: seq<Found> := [];
    while p < |s|
      invariant p <= |s|
      invariant ScanFrom(s, 0) == done + ScanFrom(s, p)
      invariant m == ToMap(done)
      decreases |s| - p
    {
      var r := MatchAt(s, p);
      if r.None? {
        p := p + 1;
      } else {
        var f := Found(p, r.value.entry, r.value.end);
        assert ScanFrom(s, 0) == (done + [f]) + ScanFrom(s, f.end) by {
          assert ScanFrom(s, p) == [f] + ScanFrom(s, f.end);
        }
        ToMapSnoc(done, f);
        m := m[f.entry.key := f.entry.value];
        done := done + [f];
        p := f.end;
      }
    }
    assert done == ScanFrom(s, 0) by {
      assert ScanFrom(s, p) == [];
      assert done + [] == done;
    }
  }
}
