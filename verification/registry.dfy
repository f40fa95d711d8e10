/**
 The pipe registry: `parseRegistryJson`, `loadRegistry` and `resolvePipe`.

 The registry file is not parsed as JSON. The parser finds the first `"pipes"`
 literal, the first `{` at or after it and the brace matching that one, and
 collects every `"name" : "url"` pair the entry pattern finds strictly between
 the two braces, a later pair overwriting an earlier one with the same name.
 Whatever goes wrong on the way yields the empty registry.
 */
module Registry {
  import opened Wrappers
  import opened Text
  import opened BraceMatcher
  import opened EntryPattern
  import opened EntryScanner

  /** The literal the parser looks for, quotes included. */
  const PipesKey: string := "\"pipes\""

  /** Where the pipes block is: the `"pipes"` literal, its opening brace and the matching closing brace. */
  datatype Block = Block(key: nat, open: nat, close: nat)

  /**
   `b` is what the three lookups of the parser find in `json`: the leftmost
   `"pipes"`, the first `{` at or after it, and the `}` that matches it.
   */
  predicate IsPipesBlock(json: string, b: Block) {
    && FirstOccurrence(json, PipesKey, b.key)
    && FirstCharFrom(json, '{', b.key, b.open)
    && IsMatchingBrace(json, b.open, b.close)
  }

  /** The lookups before the scan: the pipes block of `json`, or `None` when any of them fails. */
  function PipesBlock(json: string): (r: Option<Block>)
    ensures r.Some? ==> r.value.open < r.value.close < |json|
  {
    var k := IndexOf(json, PipesKey);
    if k == -1 then None
    else
      var o := IndexOfChar(json, '{', k);
      if o == -1 then None
      else
        var c := MatchingBrace(json, o);
        if c == -1 then None
        else Some(Block(k, o, c))
  }

  /** What the lookups return is the pipes block. */
  lemma PipesBlockSound(json: string)
    requires PipesBlock(json).Some?
    ensures IsPipesBlock(json, PipesBlock(json).value)
  {
  }

  /** Whenever there is a pipes block, the lookups find exactly it: they fail only when there is none. */
  lemma PipesBlockExact(json: string, b: Block)
    requires IsPipesBlock(json, b)
    ensures PipesBlock(json) == Some(b)
  {
  }

  /** The matches the `Matcher.find` loop records inside the pipes block; none without one. */
  function BlockMatches(json: string): seq<Found> {
    match PipesBlock(json)
    case None => []
    case Some(b) => ScanFrom(json[b.open + 1..b.close], 0)
  }

  /** `parseRegistryJson`: every recorded entry `put` into the map in the order found. */
  function Parse(json: string): map<string, string> {
    ToMap(BlockMatches(json))
  }

  /** The parser as the source writes it, with the loop of the matcher; it computes `Parse`. */
  method ParseRegistryJson(json: string) returns (m: map<string, string>)
    ensures m == Parse(json)
    ensures PipesBlock(json).None? ==> m == map[]
  {
    var pipesIndex := IndexOf(json, PipesKey);
    if pipesIndex == -1 {
      assert PipesBlock(json) == None;
      return map[];
    }
    var startBrace := IndexOfChar(json, '{', pipesIndex);
    if startBrace == -1 {
      assert PipesBlock(json) == None;
      return map[];
    }
    var endBrace := FindMatchingBrace(json, startBrace);
    if endBrace == -1 {
      assert PipesBlock(json) == None;
      return map[];
    }
    var b := Block(pipesIndex, startBrace, endBrace);
    assert PipesBlock(json) == Some(b);
    BlockMatchesOf(json, b);
    m := ScanEntries(json[startBrace + 1..endBrace]);
  }

  /** No `"pipes"` literal in the text: the registry is empty. */
  lemma ParseNoPipesKey(json: string)
    requires forall j: nat :: !OccursAt(json, PipesKey, j)
    ensures Parse(json) == map[]
  {
  }

  /** No `{` at or after the first `"pipes"`: the registry is empty. */
  lemma ParseNoOpenBrace(json: string, k: nat)
    requires FirstOccurrence(json, PipesKey, k)
    requires forall j :: k <= j < |json| ==> json[j] != '{'
    ensures Parse(json) == map[]
  {
  }

  /** No brace matching the first `{` after `"pipes"` (truncated or unbalanced text): the registry is empty. */
  lemma ParseUnbalanced(json: string, k: nat, o: nat)
    requires FirstOccurrence(json, PipesKey, k) && FirstCharFrom(json, '{', k, o)
    requires forall j: nat :: !ClosesAt(json, o, j)
    ensures Parse(json) == map[]
  {
  }

  /**
   Every registry entry is a match of the entry pattern inside the pipes
   block: the text `json[start..end]` reads `"name" : "url"` for the entry's
   name and URL, both non-empty and free of `"`, and it lies strictly between
   the block's braces. It is the `i`-th recorded match, and no later match
   has the same name, so its URL is the one that was put last.
   */
  lemma ParseEntry(json: string, k: string) returns (b: Block, i: nat, start: nat, end: nat)
    requires k in Parse(json)
    ensures PipesBlock(json) == Some(b)
    ensures b.open < start < end <= b.close
    ensures IsEntryText(json[start..end], Entry(k, Parse(json)[k]))
    ensures k != [] && NoQuote(k) && Parse(json)[k] != [] && NoQuote(Parse(json)[k])
    ensures i < |BlockMatches(json)| && BlockMatches(json)[i].entry == Entry(k, Parse(json)[k])
    ensures forall j :: i < j < |BlockMatches(json)| ==> BlockMatches(json)[j].entry.key != k
  {
    var fs := BlockMatches(json);
    ToMapLastMatch(fs, k);
    i :| 0 <= i < |fs| && fs[i].entry == Entry(k, ToMap(fs)[k])
         && forall j :: i < j < |fs| ==> fs[j].entry.key != k;
    b, start, end := BlockMatchSound(json, i);
    var ws1, ws2 := EntryTextPieces(json[start..end], fs[i].entry);
  }

  /** The `i`-th recorded match, located in `json`: a match of the entry pattern strictly inside the block. */
  lemma BlockMatchSound(json: string, i: nat) returns (b: Block, start: nat, end: nat)
    requires i < |BlockMatches(json)|
    ensures PipesBlock(json) == Some(b)
    ensures b.open < start < end <= b.close
    ensures IsEntryText(json[start..end], BlockMatches(json)[i].entry)
  {
    b := PipesBlock(json).value;
    BlockMatchesOf(json, b);
    start, end := SliceMatchSound(json, b.open + 1, b.close, i);
  }

  /** A name recorded in the block, with no later match of the same name, maps to its URL. */
  lemma ParseLastWins(json: string, i: nat)
    requires i < |BlockMatches(json)|
    requires forall j :: i < j < |BlockMatches(json)| ==> BlockMatches(json)[j].entry.key != BlockMatches(json)[i].entry.key
    ensures var e := BlockMatches(json)[i].entry; e.key in Parse(json) && Parse(json)[e.key] == e.value
  {
    ToMapLastWins(BlockMatches(json), i);
  }

  /** The registry holds exactly the names the scan of the block recorded. */
  lemma ParseKeys(json: string, k: string)
    ensures k in Parse(json) <==> exists i :: 0 <= i < |BlockMatches(json)| && BlockMatches(json)[i].entry.key == k
  {
    ToMapKeys(BlockMatches(json), k);
  }

  /** Text after the pipes block never changes the registry. */
  lemma ParseIgnoresSuffix(json: string, t: string)
    requires PipesBlock(json).Some?
    ensures Parse(json + t) == Parse(json)
  {
    var b := PipesBlock(json).value;
    PipesBlockSound(json);
    BlockInPrefix(json, t, b);
    PipesBlockExact(json + t, b);
    BlockMatchesOf(json, b);
    BlockMatchesOf(json + t, b);
    assert (json + t)[b.open + 1..b.close] == json[b.open + 1..b.close];
  }

  /** With the pipes block known, the recorded matches are those of the scan between its braces. */
  lemma BlockMatchesOf(json: string, b: Block)
    requires PipesBlock(json) == Some(b)
    ensures b.open < b.close < |json|
    ensures BlockMatches(json) == ScanFrom(json[b.open + 1..b.close], 0)
  {
  }

  /** The pipes block of `json` is still the pipes block once text is appended. */
  lemma BlockInPrefix(json: string, t: string, b: Block)
    requires IsPipesBlock(json, b)
    ensures IsPipesBlock(json + t, b)
  {
    var s := json + t;
    assert FirstOccurrence(s, PipesKey, b.key) by {
      OccursInPrefix(json, t, PipesKey, b.key);
      forall j: nat | j < b.key
        ensures !OccursAt(s, PipesKey, j)
      {
        OccursInPrefix(json, t, PipesKey, j);
      }
    }
    assert FirstCharFrom(s, '{', b.key, b.open) by {
      forall j | b.key <= j <= b.open
        ensures s[j] == json[j]
      {
      }
    }
    assert IsMatchingBrace(s, b.open, b.close) by {
      ClosesInPrefix(json, t, b.open, b.close);
      forall j | b.open <= j < b.close
        ensures !ClosesAt(s, b.open, j)
      {
        ClosesInPrefix(json, t, b.open, j);
      }
    }
  }

  /** An occurrence that ends before `|json|` does not see what follows `json`. */
  lemma OccursInPrefix(json: string, t: string, pat: string, j: nat)
    requires j + |pat| <= |json|
    ensures OccursAt(json + t, pat, j) <==> OccursAt(json, pat, j)
  {
  }

  /** A closing brace within `json` does not see what follows `json`. */
  lemma ClosesInPrefix(json: string, t: string, k: nat, j: nat)
    requires k <= j < |json|
    ensures ClosesAt(json + t, k, j) <==> ClosesAt(json, k, j)
  {
    assert (json + t)[k..j + 1] == json[k..j + 1];
  }

  /** `loadRegistry`: the parsed file, or the empty map when the file is absent or cannot be read (`None`). */
  function LoadRegistry(file: Option<string>): (r: map<string, string>)
    ensures file.None? ==> r == map[]
    ensures file.Some? ==> r == Parse(file.value)
    ensures file.Some? && PipesBlock(file.value).None? ==> r == map[]
  {
    match file
    case None => map[]
    case Some(json) => Parse(json)
  }

  /**
   `resolvePipe`: the URL registered for `name`, looked up exactly, or `None`
   when there is none; an empty registry never resolves. The source loads the
   registry inside `resolvePipe`; here the loaded registry is passed in.
   */
  function ResolvePipe(name: string, registry: map<string, string>): (r: Option<string>)
    ensures r.Some? <==> name in registry
    ensures r.Some? ==> r.value == registry[name]
    ensures |registry| == 0 ==> r.None?
  {
    if |registry| == 0 then None
    else if name in registry then Some(registry[name])
    else None
  }
}
