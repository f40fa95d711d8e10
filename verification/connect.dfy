/**
 The Connect button's handler: trim what the user typed, refuse an empty
 name, look the name up in the registry file and load the URL it maps to.
 The status line and the web view are reduced to the outcome they show.
 */
module ConnectAction {
  import opened Wrappers
  import opened Text
  import opened EntryPattern
  import opened Registry

  /** What pressing Connect leads to. */
  datatype Outcome =
    | PleaseEnter        // nothing but blanks was typed
    | UnknownPipe        // the registry has no such pipe (or there is no registry)
    | Load(url: string)  // the web view loads `url`

  /** The handler, given the text field's contents and the registry file (`None` when it cannot be read). */
  function Connect(input: string, file: Option<string>): (o: Outcome)
    ensures o == PleaseEnter <==> AllTrimmed(input)
    ensures o == UnknownPipe <==> !AllTrimmed(input) && ResolvePipe(Trim(input), LoadRegistry(file)).None?
    ensures o.Load? ==> ResolvePipe(Trim(input), LoadRegistry(file)) == Some(o.url)
    ensures file.None? ==> !o.Load?
  {
    var value := Trim(input);
    if value == [] then PleaseEnter
    else match ResolvePipe(value, LoadRegistry(file))
      case None => UnknownPipe
      case Some(url) => Load(url)
  }

  /** Blanks typed around the pipe name do not change what Connect does. */
  lemma ConnectIgnoresPadding(pre: string, input: string, post: string, file: Option<string>)
    requires AllTrimmed(pre) && AllTrimmed(post)
    ensures Connect(pre + input + post, file) == Connect(input, file)
  {
    TrimPadded(pre, input, post);
  }

  /**
   When Connect loads a URL, the registry file holds, strictly inside its
   pipes block, a match of the entry pattern pairing the trimmed input with
   that URL.
   */
  lemma ConnectLoadsListedUrl(input: string, json: string) returns (start: nat, end: nat)
    requires Connect(input, Some(json)).Load?
    ensures PipesBlock(json).Some?
    ensures PipesBlock(json).value.open < start < end <= PipesBlock(json).value.close
    ensures IsEntryText(json[start..end], Entry(Trim(input), Connect(input, Some(json)).url))
  {
    var b, i;
    b, i, start, end := ParseEntry(json, Trim(input));
  }
}
