/**
 The registry parser on concrete registry files: the usual
 `{ "pipes": { … } }` shape, an empty pipes object, and a file whose outer
 object is never closed although the pipes object is.

 Each lemma takes its file as a parameter pinned by `requires json == "…"`
 rather than stating `Parse("…")` on the literal: with a literal argument the
 verifier unfolds the parser's recursive functions on it eagerly, which is far
 more costly than the step-by-step proofs below.
 */
module ParseCases {
  import opened Text
  import opened BraceMatcher
  import opened EntryPattern
  import opened EntryScanner
  import opened Registry

  /** An empty file has no registry. */
  lemma ParseEmptyText(json: string)
    requires json == ""
    ensures Parse(json) == map[]
  {
    ParseNoPipesKey(json);
  }

  /** `{"pipes": {}}`: an empty pipes object gives an empty registry. */
  lemma ParseEmptyPipes(json: string)
    requires json == "{\"pipes\": {}}"
    ensures Parse(json) == map[]
  {
    var b := Block(1, 10, 11);
    assert IsPipesBlock(json, b) by {
      PipesAtOne(json);
      DepthExtend(json, 10, 10);
      DepthExtend(json, 10, 11);
    }
    ParseOf(json, b, []);
  }

  /** `{"pipes": {"a":"http://x"}}` maps `a` to `http://x`. */
  lemma ParseOneEntry(json: string)
    requires json == "{\"pipes\": {\"a\":\"http://x\"}}"
    ensures Parse(json) == map["a" := "http://x"]
  {
    OneEntryBlock(json);
    var body := json[11..25];
    assert body == "\"a\":\"http://x\"";
    OneEntryScan(body);
    ParseOf(json, Block(1, 10, 25), [Found(0, Entry("a", "http://x"), 14)]);
  }

  /** The pipes block of `{"pipes": {"a":"http://x"}}`. */
  lemma OneEntryBlock(json: string)
    requires json == "{\"pipes\": {\"a\":\"http://x\"}}"
    ensures IsPipesBlock(json, Block(1, 10, 25))
  {
    PipesAtOne(json);
    DepthExtend(json, 10, 10);
    DepthFlat(json, 10, 11, 25);
    DepthExtend(json, 10, 25);
  }

  /** The scan of `"a":"http://x"` finds the one entry. */
  lemma OneEntryScan(body: string)
    requires body == "\"a\":\"http://x\""
    ensures ScanFrom(body, 0) == [Found(0, Entry("a", "http://x"), 14)]
  {
    MatchAtDelimited(body, 0, 2, 3, 4, 13);
    assert body[1..2] == "a" && body[5..13] == "http://x";
    assert ScanFrom(body, 14) == [];
  }

  /**
   `{"pipes": {"a":"1", "b":"2"}` lacks the outer closing brace, but only the
   pipes object's own braces must balance: both entries are read.
   */
  lemma ParseOuterUnclosed(json: string)
    requires json == "{\"pipes\": {\"a\":\"1\", \"b\":\"2\"}"
    ensures Parse(json) == map["a" := "1", "b" := "2"]
  {
    OuterUnclosedBlock(json);
    var body := json[11..27];
    assert body == "\"a\":\"1\", \"b\":\"2\"";
    OuterUnclosedScan(body);
    ParseOf(json, Block(1, 10, 27), [Found(0, Entry("a", "1"), 7), Found(9, Entry("b", "2"), 16)]);
  }

  /** The pipes block of `{"pipes": {"a":"1", "b":"2"}`. */
  lemma OuterUnclosedBlock(json: string)
    requires json == "{\"pipes\": {\"a\":\"1\", \"b\":\"2\"}"
    ensures IsPipesBlock(json, Block(1, 10, 27))
  {
    PipesAtOne(json);
    DepthExtend(json, 10, 10);
    DepthFlat(json, 10, 11, 27);
    DepthExtend(json, 10, 27);
  }

  /** The scan of `"a":"1", "b":"2"` finds both entries, skipping the `, ` between them. */
  lemma OuterUnclosedScan(body: string)
    requires body == "\"a\":\"1\", \"b\":\"2\""
    ensures ScanFrom(body, 0) == [Found(0, Entry("a", "1"), 7), Found(9, Entry("b", "2"), 16)]
  {
    OuterUnclosedSecond(body);
    MatchAtDelimited(body, 0, 2, 3, 4, 6);
    assert body[1..2] == "a" && body[5..6] == "1";
    assert ScanFrom(body, 7) == ScanFrom(body, 8) == ScanFrom(body, 9);
  }

  /** The scan of `"a":"1", "b":"2"` from index 9 finds the second entry. */
  lemma OuterUnclosedSecond(body: string)
    requires body == "\"a\":\"1\", \"b\":\"2\""
    ensures ScanFrom(body, 9) == [Found(9, Entry("b", "2"), 16)]
  {
    MatchAtDelimited(body, 9, 11, 12, 13, 15);
    assert body[10..11] == "b" && body[14..15] == "2";
    assert ScanFrom(body, 16) == [];
  }

  /** With the pipes block known and the scan of its inside given, the registry is the map of that scan. */
  lemma ParseOf(json: string, b: Block, fs: seq<Found>)
    requires IsPipesBlock(json, b)
    requires ScanFrom(json[b.open + 1..b.close], 0) == fs
    ensures Parse(json) == ToMap(fs)
  {
    PipesBlockExact(json, b);
    BlockMatchesOf(json, b);
  }

  /** A text that opens with `{"pipes"` has its first `"pipes"` at index 1. */
  lemma PipesAtOne(json: string)
    requires |json| >= 8 && json[..8] == "{\"pipes\""
    ensures FirstOccurrence(json, PipesKey, 1)
  {
    assert json[1..8] == json[..8][1..];
    assert json[0..7][0] == '{';
  }
}
