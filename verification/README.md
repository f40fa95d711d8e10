# Pipe viewer registry lookup, modelled in Dafny

The pipe viewer is a JavaFX window. The user types a pipe name and presses
Connect, and the window loads the URL the name is registered under. The
registry is a small file of the form `{ "pipes": { "alpha": "http://…" } }`.
It is not parsed as JSON:

- `parseRegistryJson` finds the first `"pipes"` literal in the text.
- It then finds the first `{` at or after that literal.
- It finds the brace matching that one with a depth counter (`findMatchingBrace`).
- Between the two braces it runs the regular expression `"([^"]+)"\s*:\s*"([^"]+)"` with `Matcher.find`.
- It puts every match into a map, so a later pair overwrites an earlier pair with the same name.
- Any failure on the way gives the empty map.

This project models that core and proves what it computes.

| file | module | what it models |
|---|---|---|
| `wrappers.dfy` | `Wrappers` | `Option`, standing in for `java.util.Optional` |
| `text.dfy` | `Text` | `String.indexOf(String)`, `String.indexOf(char, int)`, `String.trim()` |
| `brace_matcher.dfy` | `BraceMatcher` | `findMatchingBrace`: a depth-counting loop, and a functional "first `}` that brings the depth back to 0" definition |
| `entry_pattern.dfy` | `EntryPattern` | the entry pattern at one start index, as an explicit left-to-right scanner, proved equal to the set of texts the pattern describes |
| `entry_scanner.dfy` | `EntryScanner` | the `while (matcher.find())` loop (leftmost-first, non-overlapping) and the map its `put` calls build |
| `registry.dfy` | `Registry` | `parseRegistryJson`, `loadRegistry`, `resolvePipe` |
| `connect.dfy` | `ConnectAction` | the Connect handler: trim, empty check, lookup, load |
| `parse_cases.dfy` | `ParseCases` | the parser on concrete registry files |

**Key design points**

- **The pattern needs no backtracking.** At a fixed start index the pattern has at most one match. Neither `[^"]+` nor `\s*` can consume the character that follows it (`"`, `:` or `"`), so backtracking never changes the groups. `EntryPattern.MatchAt` therefore reads left to right.
- **Two descriptions of the pattern, proved equal.** `EntryPattern.IsEntryText` describes the pattern as a set of texts: a quoted non-empty name, blanks, a colon, blanks, and a quoted non-empty URL. `EntryPattern.MatchAtSound` and `EntryPattern.MatchAtComplete` prove that the scanner and this description agree.
- **`Matcher.find` as a scan.** `EntryScanner.ScanFrom` tries the pattern at each index. On a match it records the match and resumes just past it; otherwise it moves one character on.
- **Reading the registry file.** `Registry.LoadRegistry` takes the file contents as an `Option<string>`. `None` stands for a missing file and for an `IOException`, and both give the empty registry, as at lines 85-94; otherwise the registry is what the parser returns for the contents.
- **Where the registry is loaded.** `resolvePipe` loads the registry itself (line 77). In the model, `Registry.ResolvePipe` is given the loaded registry, and `ConnectAction.Connect` passes it `LoadRegistry(file)`. The composition is the same.

**Behaviour that follows from the code**

The parser does not restrict itself to a top-level `"pipes"` key:

- The first `"pipes"` literal anywhere in the text is used, even inside a string value or a nested object.
- Braces inside quoted strings count towards the depth.
- Escaped quotes are not understood: a `\"` inside a name or URL ends the group.
- A file whose outer object is never closed still yields the pipes entries (`ParseCases.ParseOuterUnclosed`).
- Trimming (characters up to U+0020) and the pattern's `\s` (six characters) are different character sets, and both are modelled exactly.

## Model

| member | source | states |
|---|---|---|
| `Text.IndexOf` | src/main/java/com/example/pipeviewer/PipeViewerApp.java:98 | -1 exactly when `"pipes"` occurs nowhere; otherwise the leftmost index where it occurs |
| `Text.IndexOfChar` | src/main/java/com/example/pipeviewer/PipeViewerApp.java:103 | -1 exactly when no `{` is at or after the start; otherwise the first such index |
| `Text.Trim` | src/main/java/com/example/pipeviewer/PipeViewerApp.java:45 | the result is a slice of the input with only characters <= U+0020 outside it; it neither starts nor ends with one; it is empty exactly when the input is all such characters |
| `Text.TrimUnique` | src/main/java/com/example/pipeviewer/PipeViewerApp.java:45 | any slice with the trim properties is the trimmed text, so trim is fully determined by them |
| `Text.TrimIdempotent` | src/main/java/com/example/pipeviewer/PipeViewerApp.java:45 | trimming twice equals trimming once |
| `Text.TrimPadded` | src/main/java/com/example/pipeviewer/PipeViewerApp.java:45 | adding blanks or control characters around a text does not change its trimmed form |
| `BraceMatcher.MatchingBraceFrom` | src/main/java/com/example/pipeviewer/PipeViewerApp.java:124-134 | continuing the walk with the depth counted so far finds the first closing `}` at or after the index, or -1 when none exists |
| `BraceMatcher.MatchingBrace` | src/main/java/com/example/pipeviewer/PipeViewerApp.java:122-136 | -1 exactly when no `}` brings the depth from the start index back to 0; otherwise the first index where one does |
| `BraceMatcher.FindMatchingBrace` | src/main/java/com/example/pipeviewer/PipeViewerApp.java:122-136 | the depth-counter loop returns the first `}` closing the depth (or -1 when there is none), agreeing with `MatchingBrace` |
| `EntryPattern.MatchAt` | src/main/java/com/example/pipeviewer/PipeViewerApp.java:31 | a match at an index ends after it and within the text |
| `EntryPattern.MatchAtSound` | src/main/java/com/example/pipeviewer/PipeViewerApp.java:31 | whatever the scanner matches reads `"name"`, blanks, `:`, blanks, `"url"`, with a non-empty quote-free name and URL, and those are the groups returned |
| `EntryPattern.MatchAtComplete` | src/main/java/com/example/pipeviewer/PipeViewerApp.java:31 | every text that matches the pattern from an index is exactly the match the scanner returns there, with the same groups and end |
| `EntryPattern.MatchAtParts` | src/main/java/com/example/pipeviewer/PipeViewerApp.java:31 | a match is cut at its five delimiters `"`, `"`, `:`, `"`, `"`, with accepted pieces between them |
| `EntryScanner.ScanOrdered` | src/main/java/com/example/pipeviewer/PipeViewerApp.java:114-118 | the matches `find` returns lie inside the text, in order, and do not overlap |
| `EntryScanner.ScanFound` | src/main/java/com/example/pipeviewer/PipeViewerApp.java:116 | each match `find` returns is the pattern's match at its start index |
| `EntryScanner.ScanLeftmost` | src/main/java/com/example/pipeviewer/PipeViewerApp.java:116 | every index where the pattern matches is the start of a returned match or lies inside one, so `find` skips no match |
| `EntryScanner.ScanSound` | src/main/java/com/example/pipeviewer/PipeViewerApp.java:114-118 | every match `find` returns covers a text matching the pattern with its groups |
| `EntryScanner.SliceMatchSound` | src/main/java/com/example/pipeviewer/PipeViewerApp.java:113-118 | a match found in a substring is a match of the pattern in the whole text, inside that substring |
| `EntryScanner.ToMapKeys` | src/main/java/com/example/pipeviewer/PipeViewerApp.java:115-118 | the map holds exactly the names that were matched |
| `EntryScanner.ToMapLastWins` | src/main/java/com/example/pipeviewer/PipeViewerApp.java:117 | a name with no later match of the same name maps to that match's URL |
| `EntryScanner.ToMapLastMatch` | src/main/java/com/example/pipeviewer/PipeViewerApp.java:117 | every value in the map comes from the last match of its name |
| `EntryScanner.ScanEntries` | src/main/java/com/example/pipeviewer/PipeViewerApp.java:114-118 | the `find`/`put` loop builds the map of all matches in scan order |
| `Registry.PipesBlock` | src/main/java/com/example/pipeviewer/PipeViewerApp.java:98-111 | a found block has its opening brace before its closing brace, inside the text |
| `Registry.PipesBlockSound` | src/main/java/com/example/pipeviewer/PipeViewerApp.java:98-111 | a found block is the first `"pipes"`, the first `{` at or after it, and the `}` matching that `{` |
| `Registry.PipesBlockExact` | src/main/java/com/example/pipeviewer/PipeViewerApp.java:98-111 | whenever such a block exists, the lookups return exactly it; they fail only when none exists |
| `Registry.ParseRegistryJson` | src/main/java/com/example/pipeviewer/PipeViewerApp.java:97-120 | the parser with its early returns and matcher loop computes `Parse`, and gives the empty map when there is no pipes block |
| `Registry.ParseNoPipesKey` | src/main/java/com/example/pipeviewer/PipeViewerApp.java:98-101 | no `"pipes"` literal gives the empty registry |
| `Registry.ParseNoOpenBrace` | src/main/java/com/example/pipeviewer/PipeViewerApp.java:103-106 | no `{` after the first `"pipes"` gives the empty registry |
| `Registry.ParseUnbalanced` | src/main/java/com/example/pipeviewer/PipeViewerApp.java:108-111 | no brace matching that `{` gives the empty registry |
| `Registry.ParseEntry` | src/main/java/com/example/pipeviewer/PipeViewerApp.java:113-118 | every registry entry is a `"name" : "url"` match strictly between the block's braces; its name and URL are non-empty and quote-free; no later match has that name |
| `Registry.BlockMatchSound` | src/main/java/com/example/pipeviewer/PipeViewerApp.java:113-118 | every match the loop records is a match of the pattern in the file, strictly inside the pipes block |
| `Registry.ParseLastWins` | src/main/java/com/example/pipeviewer/PipeViewerApp.java:116-118 | a recorded match whose name is not matched again later decides that name's URL |
| `Registry.ParseKeys` | src/main/java/com/example/pipeviewer/PipeViewerApp.java:113-118 | the registry's names are exactly the names matched inside the block |
| `Registry.ParseIgnoresSuffix` | src/main/java/com/example/pipeviewer/PipeViewerApp.java:97-120 | once a pipes block is found, text appended after it never changes the registry |
| `Registry.BlockInPrefix` | src/main/java/com/example/pipeviewer/PipeViewerApp.java:98-111 | the first `"pipes"`, its `{` and the matching `}` stay the same when text is appended |
| `Registry.LoadRegistry` | src/main/java/com/example/pipeviewer/PipeViewerApp.java:84-95 | a missing or unreadable file gives the empty registry; a readable one gives exactly what `parseRegistryJson` returns for its contents, and the empty registry when those contents have no pipes block |
| `Registry.ResolvePipe` | src/main/java/com/example/pipeviewer/PipeViewerApp.java:76-82 | a URL is returned exactly when the name is a key of the registry, and it is that key's URL, with no normalisation of the name; an empty registry never resolves |
| `ConnectAction.Connect` | src/main/java/com/example/pipeviewer/PipeViewerApp.java:44-59 | "please enter" exactly when the input is all blanks, without any lookup; "unknown" exactly when the lookup of the trimmed input in the loaded registry finds nothing; otherwise the URL the lookup returns is loaded; nothing loads without a registry file |
| `ConnectAction.ConnectIgnoresPadding` | src/main/java/com/example/pipeviewer/PipeViewerApp.java:45-58 | blanks typed around the name do not change the outcome |
| `ConnectAction.ConnectLoadsListedUrl` | src/main/java/com/example/pipeviewer/PipeViewerApp.java:51-58 | a loaded URL is paired with the trimmed name by a pattern match inside the file's pipes block |
| `ParseCases.ParseEmptyText` | src/main/java/com/example/pipeviewer/PipeViewerApp.java:98-101 | the empty file gives the empty registry |
| `ParseCases.ParseEmptyPipes` | src/main/java/com/example/pipeviewer/PipeViewerApp.java:97-120 | `{"pipes": {}}` gives the empty registry |
| `ParseCases.ParseOneEntry` | src/main/java/com/example/pipeviewer/PipeViewerApp.java:97-120 | `{"pipes": {"a":"http://x"}}` gives `{a: http://x}` |
| `ParseCases.ParseOuterUnclosed` | src/main/java/com/example/pipeviewer/PipeViewerApp.java:97-120 | `{"pipes": {"a":"1", "b":"2"}` gives `{a: 1, b: 2}`, because only the pipes object's braces must balance |

## Left out

- The JavaFX window (`start`, `main`, lines 33-74 and 138-140) is left out: layout, the web view and the event wiring. Only the Connect handler's decision is modelled, as `ConnectAction.Connect`.
- The status label texts are left out. `ConnectAction.Outcome` names which of the three messages appears, not their wording.
- The fixed registry path `REGISTRY_PATH` (lines 26-30), `Files.exists`, `Files.readString` and `IOException` are left out. The file is a parameter: `Some(contents)`, or `None` for "absent or unreadable".
- UTF-8 decoding of the file is left out.
- UTF-16: Java strings are UTF-16 code units, while Dafny strings hold Unicode scalar values. Outside the Basic Multilingual Plane, indices therefore differ by the surrogate pairs. The search, trim and scan results are the same up to that re-indexing, because none of the characters involved is a surrogate.
- The general regular-expression engine is left out. Only the one pattern of line 31 is modelled, by a dedicated scanner.
- `HashMap` iteration order is left out, because the registry is only ever looked up.
- Java `int` overflow of `depth` and of the indices is left out: it cannot happen, since both are bounded by the string length, which is below 2^31.
