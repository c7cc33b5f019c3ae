/**
 * `JFrogClient`: the command lines it hands to the JFrog CLI (`jf rt ...`)
 * and the search it answers. Running the command, its 30-second timeout and
 * the JSON decoding are outside the model: a search is a `SearchSource`, a
 * function from the request to the artifacts it returns, which is `[]`
 * whenever the command fails or its output is not valid JSON.
 */
module JFrogClient {
  import opened Wrappers
  import opened Decimal

  /** One search hit. A field missing from the JSON record reads as "". */
  datatype Artifact = Artifact(path: string, created: string, sha1: string, actualSha1: string)

  /** The arguments of one call of `search`. */
  datatype SearchRequest = SearchRequest(
    pattern: string,
    sortBy: string,
    sortOrder: string,
    limit: int,
    offset: int)

  /** What the CLI returns for a request; failures read as no artifacts. */
  type SearchSource = SearchRequest -> seq<Artifact>

  /** `search(pattern, limit=..., offset=...)` with the defaults of its signature. */
  function DefaultSearch(pattern: string, limit: int := 5, offset: int := 0): SearchRequest
  {
    SearchRequest(pattern, "created", "desc", limit, offset)
  }

  const BaseCommand: seq<string> := ["jf", "rt"]

  /** The argument list `search` runs: `jf rt s`, four options, then the pattern. */
  function SearchCommand(req: SearchRequest): (cmd: seq<string>)
    ensures |cmd| == 8 && cmd[..3] == BaseCommand + ["s"] && cmd[7] == req.pattern
  {
    BaseCommand + [
      "s",
      "--sort-by=" + req.sortBy,
      "--sort-order=" + req.sortOrder,
      "--limit=" + IntToString(req.limit),
      "--offset=" + IntToString(req.offset),
      req.pattern
    ]
  }

  /** The argument list `curl` runs, with `--silent` appended when asked for. */
  function CurlCommand(endpoint: string, silent: bool := true): (cmd: seq<string>)
    ensures |cmd| == if silent then 5 else 4
    ensures cmd[..4] == BaseCommand + ["curl", endpoint]
    ensures silent ==> cmd[4] == "--silent"
  {
    var command := BaseCommand + ["curl", endpoint];
    if silent then command + ["--silent"] else command
  }

  function StripPrefix(s: string, prefix: string): Option<string>
  {
    if prefix <= s then Some(s[|prefix|..]) else None
  }

  /** Reads a `jf rt s` argument list back into the request it encodes. */
  function ParseSearchCommand(cmd: seq<string>): Option<SearchRequest>
  {
    if |cmd| != 8 || cmd[..3] != BaseCommand + ["s"] then None
    else
      var sortBy := StripPrefix(cmd[3], "--sort-by=");
      var sortOrder := StripPrefix(cmd[4], "--sort-order=");
      var limit := StripPrefix(cmd[5], "--limit=");
      var offset := StripPrefix(cmd[6], "--offset=");
      if sortBy.None? || sortOrder.None? || limit.None? || offset.None? then None
      else
        var l := ParseInt(limit.value);
        var o := ParseInt(offset.value);
        if l.None? || o.None? then None
        else Some(SearchRequest(cmd[7], sortBy.value, sortOrder.value, l.value, o.value))
  }

  /** The search command loses nothing: every field of the request can be read back. */
  lemma SearchCommandRoundTrip(req: SearchRequest)
    ensures ParseSearchCommand(SearchCommand(req)) == Some(req)
  {
    var cmd := SearchCommand(req);
    ParseIntToString(req.limit);
    ParseIntToString(req.offset);
    assert cmd[3][|"--sort-by="|..] == req.sortBy;
    assert cmd[4][|"--sort-order="|..] == req.sortOrder;
    assert cmd[5][|"--limit="|..] == IntToString(req.limit);
    assert cmd[6][|"--offset="|..] == IntToString(req.offset);
  }

  /** Two different requests never produce the same command. */
  lemma SearchCommandInjective(a: SearchRequest, b: SearchRequest)
    requires SearchCommand(a) == SearchCommand(b)
    ensures a == b
  {
    SearchCommandRoundTrip(a);
    SearchCommandRoundTrip(b);
  }

  /** A search with the defaults: the 5 newest artifacts, from the first. */
  lemma DefaultSearchCommand(pattern: string)
    ensures SearchCommand(DefaultSearch(pattern)) ==
      ["jf", "rt", "s", "--sort-by=created", "--sort-order=desc", "--limit=5", "--offset=0", pattern]
  {
    assert Digits(5) == "5" && Digits(0) == "0";
    var cmd := SearchCommand(DefaultSearch(pattern));
    assert cmd[5] == "--limit=5" && cmd[6] == "--offset=0";
    assert cmd[3] == "--sort-by=created" && cmd[4] == "--sort-order=desc";
  }

  // `search("pattern/*", limit=10)` runs exactly this argument list.
  lemma SearchCommandExample()
    ensures SearchCommand(DefaultSearch("pattern/*", limit := 10)) ==
      ["jf", "rt", "s", "--sort-by=created", "--sort-order=desc", "--limit=10", "--offset=0", "pattern/*"]
  {
    assert Digits(1) == "1" && Digits(0) == "0";
    assert IntToString(10) == Digits(1) + [DigitChar(0)] == "10";
    var cmd := SearchCommand(DefaultSearch("pattern/*", limit := 10));
    assert cmd[5] == "--limit=10" && cmd[6] == "--offset=0";
    assert cmd[3] == "--sort-by=created" && cmd[4] == "--sort-order=desc";
  }

  // `search("test/*", offset=50)` passes the offset on.
  lemma SearchOffsetExample()
    ensures "--offset=50" in SearchCommand(DefaultSearch("test/*", offset := 50))
  {
    assert Digits(5) == "5" && DigitChar(0) == '0';
    assert IntToString(50) == "50";
    assert SearchCommand(DefaultSearch("test/*", offset := 50))[6] == "--offset=50";
  }

  /** `curl("/test/endpoint")` runs exactly this argument list. */
  lemma CurlCommandExample()
    ensures CurlCommand("/test/endpoint") == ["jf", "rt", "curl", "/test/endpoint", "--silent"]
  {
  }
}
