/**
 * The tag discovery of `ArtifactoryQueryTool.query_docker`
 * (query_artifactory.py lines 134-239), stated as functions: the tag an
 * artifact carries, the tag table that keeps the newest artifact per tag,
 * the paginated crawl that fills the table, and the report rendered from it.
 * The method `ArtifactoryQueryTool.QueryDocker` runs the same steps
 * imperatively and is proved equal to these functions; the lemmas here say
 * what the functions guarantee.
 */
module DockerTags {
  import opened Wrappers
  import opened PyStrings
  import opened Sorting
  import opened JFrogClient
  import opened Formatting
  import opened Decimal

  /** Artifacts asked for per search call. */
  const BatchSize := 100
  /** Safety limit on the number of search calls. */
  const MaxIterations := 50

  // ---------------------------------------------------------------------------
  // Which tag an artifact carries
  // ---------------------------------------------------------------------------

  /** The third `/`-separated part of the path, when the path has one. */
  function TagOf(path: string): (tag: Option<string>)
    ensures tag.Some? <==> |Split(path, '/')| >= 3
    ensures tag.Some? ==> '/' !in tag.value
  {
    var parts := Split(path, '/');
    SplitPartsFree(path, '/');
    if |parts| >= 3 then Some(parts[2]) else None
  }

  /** A separator-free first component splits off as a part of its own. */
  lemma SplitFirst(head: string, rest: string)
    requires '/' !in head
    ensures Split(head + "/" + rest, '/') == [head] + Split(rest, '/')
  {
    SplitAround(head, rest, '/');
    SplitWithoutSeparator(head, '/');
  }

  /** In an image path `repo/item/tag/rest` the tag is the third part. */
  lemma TagOfImagePath(repo: string, item: string, tag: string, rest: string)
    requires '/' !in repo && '/' !in item && '/' !in tag
    ensures TagOf(repo + "/" + item + "/" + tag + "/" + rest) == Some(tag)
  {
    var tail := tag + "/" + rest;
    var middle := item + "/" + tail;
    var path := repo + "/" + middle;
    SplitFirst(tag, rest);
    SplitFirst(item, tail);
    SplitFirst(repo, middle);
    assert Split(path, '/')[2] == tag;
    assert repo + "/" + item + "/" + tag + "/" + rest == path;
  }

  /** The tag an artifact is filed under: its tag, if it has exactly `tagLength` characters. */
  function MatchingTag(a: Artifact, tagLength: int): (tag: Option<string>)
    ensures tag.Some? <==> TagOf(a.path).Some? && |TagOf(a.path).value| == tagLength
    ensures tag.Some? ==> tag == TagOf(a.path)
  {
    match TagOf(a.path)
    case Some(t) => if |t| == tagLength then Some(t) else None
    case None => None
  }

  // ---------------------------------------------------------------------------
  // The tag table
  // ---------------------------------------------------------------------------

  /** What the table keeps for a tag: the timestamp and the artifact it came from. */
  datatype TagRecord = TagRecord(created: string, artifact: Artifact)

  /**
   * `tag_artifacts`, a Python dict: a map from tag to record together with
   * the order in which the tags were first inserted (the dict's iteration order).
   */
  datatype TagTable = TagTable(order: seq<string>, records: map<string, TagRecord>)
  {
    /** Every tag appears once in the order, and the order lists exactly the keys. */
    ghost predicate Valid()
    {
      && (forall i, j :: 0 <= i < j < |order| ==> order[i] != order[j])
      && (forall tag :: tag in records <==> tag in order)
    }

    /** `d[tag] = rec`: a new key goes last, an existing key keeps its place. */
    function Put(tag: string, rec: TagRecord): TagTable
    {
      if tag in records then TagTable(order, records[tag := rec])
      else TagTable(order + [tag], records[tag := rec])
    }

    /** Storing under a tag keeps the table valid: a new tag goes last, a known one keeps its place. */
    lemma PutValid(tag: string, rec: TagRecord)
      requires Valid()
      ensures Put(tag, rec).Valid()
      ensures Put(tag, rec).records == records[tag := rec]
      ensures Put(tag, rec).order == if tag in order then order else order + [tag]
    {
    }
  }

  const EmptyTable := TagTable([], map[])

  /** A sequence without repeats has as many distinct elements as entries. */
  lemma {:induction false} DistinctCount(s: seq<string>)
    requires forall i, j :: 0 <= i < j < |s| ==> s[i] != s[j]
    ensures |set x | x in s| == |s|
  {
    if |s| > 0 {
      var last := s[|s| - 1];
      var front := s[..|s| - 1];
      DistinctCount(front);
      assert (set x | x in s) == (set x | x in front) + {last};
      forall k | 0 <= k < |front| ensures front[k] != last {
        assert front[k] == s[k];
      }
      assert last !in front;
    }
  }

  /** A valid table holds one record per entry of its order. */
  lemma TableSize(table: TagTable)
    requires table.Valid()
    ensures |table.records| == |table.order|
  {
    DistinctCount(table.order);
    assert table.records.Keys == set x | x in table.order;
  }

  /**
   * Lines 169-186 for one artifact: an artifact whose tag has the wanted
   * length is stored when its tag is new or when it is strictly newer than
   * the stored one; every other artifact leaves the table as it was.
   */
  function Record(table: TagTable, a: Artifact, tagLength: int): (t: TagTable)
    ensures MatchingTag(a, tagLength).None? ==> t == table
  {
    match MatchingTag(a, tagLength)
    case None => table
    case Some(tag) =>
      if tag !in table.records || Less(table.records[tag].created, a.created)
      then table.Put(tag, TagRecord(a.created, a))
      else table
  }

  /** Recording an artifact keeps the table valid. */
  lemma RecordValid(table: TagTable, a: Artifact, tagLength: int)
    requires table.Valid()
    ensures Record(table, a, tagLength).Valid()
  {
    match MatchingTag(a, tagLength)
    case None =>
    case Some(tag) => table.PutValid(tag, TagRecord(a.created, a));
  }

  /** The loop over one page (lines 168-186): `Record` for each artifact in order. */
  function Absorb(table: TagTable, page: seq<Artifact>, tagLength: int): TagTable
    decreases |page|
  {
    if page == [] then table
    else Record(Absorb(table, page[..|page| - 1], tagLength), page[|page| - 1], tagLength)
  }

  /** Absorbing artifacts into a valid table gives a valid table. */
  lemma {:induction false} AbsorbValid(table: TagTable, page: seq<Artifact>, tagLength: int)
    requires table.Valid()
    ensures Absorb(table, page, tagLength).Valid()
    decreases |page|
  {
    if page != [] {
      AbsorbValid(table, page[..|page| - 1], tagLength);
      RecordValid(Absorb(table, page[..|page| - 1], tagLength), page[|page| - 1], tagLength);
    }
  }

  /**
   * Absorbing artifacts never drops a tag, and every tag it adds is the
   * tag, of `tagLength` characters, of one of the artifacts.
   */
  lemma {:induction false} AbsorbAddsMatchingTags(table: TagTable, page: seq<Artifact>, tagLength: int)
    ensures table.records.Keys <= Absorb(table, page, tagLength).records.Keys
    ensures forall tag :: tag in Absorb(table, page, tagLength).records && tag !in table.records ==>
      exists i :: 0 <= i < |page| && MatchingTag(page[i], tagLength) == Some(tag)
    decreases |page|
  {
    if page != [] {
      var front := page[..|page| - 1];
      var a := page[|page| - 1];
      AbsorbAddsMatchingTags(table, front, tagLength);
      var before := Absorb(table, front, tagLength);
      forall tag | tag in Absorb(table, page, tagLength).records && tag !in table.records
        ensures exists i :: 0 <= i < |page| && MatchingTag(page[i], tagLength) == Some(tag)
      {
        if tag in before.records {
          var i :| 0 <= i < |front| && MatchingTag(front[i], tagLength) == Some(tag);
          assert page[i] == front[i];
        } else {
          assert MatchingTag(page[|page| - 1], tagLength) == Some(tag);
        }
      }
    }
  }

  /** Absorbing two runs of artifacts one after the other is absorbing their concatenation. */
  lemma {:induction false} AbsorbConcat(table: TagTable, a: seq<Artifact>, b: seq<Artifact>, tagLength: int)
    ensures Absorb(table, a + b, tagLength) == Absorb(Absorb(table, a, tagLength), b, tagLength)
    decreases |b|
  {
    if b == [] {
      assert a + b == a;
    } else {
      assert (a + b)[..|a + b| - 1] == a + b[..|b| - 1];
      AbsorbConcat(table, a, b[..|b| - 1], tagLength);
    }
  }

  // ---------------------------------------------------------------------------
  // Most recent wins
  // ---------------------------------------------------------------------------

  /** Some artifact in `seen` is filed under `tag`. */
  ghost predicate Seen(seen: seq<Artifact>, tagLength: int, tag: string)
  {
    exists i :: 0 <= i < |seen| && MatchingTag(seen[i], tagLength) == Some(tag)
  }

  /**
   * `seen[j]` is the artifact kept for `tag`: it is filed under `tag`, no
   * artifact filed under `tag` is newer, and every earlier one is strictly
   * older, so of equally new artifacts the first one seen is kept.
   */
  ghost predicate IsKept(seen: seq<Artifact>, tagLength: int, tag: string, j: int)
  {
    && 0 <= j < |seen|
    && MatchingTag(seen[j], tagLength) == Some(tag)
    && (forall i :: 0 <= i < |seen| && MatchingTag(seen[i], tagLength) == Some(tag) ==>
          !Less(seen[j].created, seen[i].created))
    && (forall i :: 0 <= i < j && MatchingTag(seen[i], tagLength) == Some(tag) ==>
          Less(seen[i].created, seen[j].created))
  }

  /** The table holds exactly the tags seen, each with the artifact `IsKept` picks. */
  ghost predicate KeepsNewest(table: TagTable, seen: seq<Artifact>, tagLength: int)
  {
    && table.Valid()
    && (forall tag :: tag in table.records <==> Seen(seen, tagLength, tag))
    && (forall tag :: tag in table.records ==>
          exists j :: IsKept(seen, tagLength, tag, j) && table.records[tag] == TagRecord(seen[j].created, seen[j]))
  }

  /** A kept artifact stays kept when a later artifact is not strictly newer for its tag. */
  lemma KeptStays(seen: seq<Artifact>, a: Artifact, tagLength: int, tag: string, j: int)
    requires IsKept(seen, tagLength, tag, j)
    requires MatchingTag(a, tagLength) == Some(tag) ==> !Less(seen[j].created, a.created)
    ensures IsKept(seen + [a], tagLength, tag, j)
  {
    var s := seen + [a];
    assert forall i :: 0 <= i < |seen| ==> s[i] == seen[i];
  }

  /** A new artifact is kept when its tag is new or it is strictly newer than the kept one. */
  lemma KeptReplaced(seen: seq<Artifact>, a: Artifact, tagLength: int, tag: string)
    requires MatchingTag(a, tagLength) == Some(tag)
    requires !Seen(seen, tagLength, tag) ||
             exists j :: IsKept(seen, tagLength, tag, j) && Less(seen[j].created, a.created)
    ensures IsKept(seen + [a], tagLength, tag, |seen|)
  {
    var s := seen + [a];
    LessIrreflexive(a.created);
    forall i | 0 <= i < |seen| && MatchingTag(s[i], tagLength) == Some(tag)
      ensures Less(s[i].created, a.created)
    {
      assert s[i] == seen[i];
      var j :| IsKept(seen, tagLength, tag, j) && Less(seen[j].created, a.created);
      LessTotal(seen[i].created, seen[j].created);
      if seen[i].created != seen[j].created {
        LessTransitive(seen[i].created, seen[j].created, a.created);
      }
    }
    forall i | 0 <= i < |s| && MatchingTag(s[i], tagLength) == Some(tag)
      ensures !Less(s[|seen|].created, s[i].created)
    {
      if i < |seen| {
        LessAsymmetric(s[i].created, a.created);
      }
    }
  }

  /** A tag is seen after one more artifact when it was seen before or that artifact carries it. */
  lemma SeenAppend(prev: seq<Artifact>, a: Artifact, tagLength: int, tag: string)
    ensures Seen(prev + [a], tagLength, tag) <==> Seen(prev, tagLength, tag) || MatchingTag(a, tagLength) == Some(tag)
  {
    var seen := prev + [a];
    if Seen(seen, tagLength, tag) {
      var i :| 0 <= i < |seen| && MatchingTag(seen[i], tagLength) == Some(tag);
      if i < |prev| {
        assert prev[i] == seen[i];
      }
    }
    if Seen(prev, tagLength, tag) {
      var i :| 0 <= i < |prev| && MatchingTag(prev[i], tagLength) == Some(tag);
      assert seen[i] == prev[i];
    }
    if MatchingTag(a, tagLength) == Some(tag) {
      assert seen[|prev|] == a;
    }
  }

  /** Recording one more artifact keeps, for a tag in the new table, the artifact `IsKept` picks. */
  lemma RecordKeepsNewest(before: TagTable, prev: seq<Artifact>, a: Artifact, tagLength: int, tag: string)
    requires KeepsNewest(before, prev, tagLength)
    requires tag in Record(before, a, tagLength).records
    ensures var after := Record(before, a, tagLength);
      exists j :: IsKept(prev + [a], tagLength, tag, j) && after.records[tag] == TagRecord((prev + [a])[j].created, (prev + [a])[j])
  {
    var seen := prev + [a];
    var after := Record(before, a, tagLength);
    if MatchingTag(a, tagLength) == Some(tag) &&
       (tag !in before.records || Less(before.records[tag].created, a.created)) {
      KeptReplaced(prev, a, tagLength, tag);
      assert after.records[tag] == TagRecord(seen[|prev|].created, seen[|prev|]);
    } else {
      var j :| IsKept(prev, tagLength, tag, j) && before.records[tag] == TagRecord(prev[j].created, prev[j]);
      KeptStays(prev, a, tagLength, tag, j);
      assert seen[j] == prev[j];
      assert after.records[tag] == before.records[tag];
    }
  }

  /**
   * Most recent wins: after any run of artifacts, the table holds exactly the
   * tags of the right length that occurred, and for each the first of its
   * newest artifacts together with that artifact's timestamp, which is the
   * lexical maximum of the timestamps seen for the tag.
   */
  lemma {:induction false} AbsorbKeepsNewest(seen: seq<Artifact>, tagLength: int)
    ensures KeepsNewest(Absorb(EmptyTable, seen, tagLength), seen, tagLength)
    decreases |seen|
  {
    if seen != [] {
      var prev := seen[..|seen| - 1];
      var a := seen[|seen| - 1];
      assert seen == prev + [a];
      AbsorbKeepsNewest(prev, tagLength);
      RecordStepKeepsNewest(Absorb(EmptyTable, prev, tagLength), prev, a, tagLength);
    }
  }

  /** Recording one more artifact keeps the table the newest-per-tag table of what was seen. */
  lemma RecordStepKeepsNewest(before: TagTable, prev: seq<Artifact>, a: Artifact, tagLength: int)
    requires KeepsNewest(before, prev, tagLength)
    ensures KeepsNewest(Record(before, a, tagLength), prev + [a], tagLength)
  {
    var seen := prev + [a];
    var after := Record(before, a, tagLength);
    RecordValid(before, a, tagLength);
    forall tag ensures tag in after.records <==> Seen(seen, tagLength, tag) {
      SeenAppend(prev, a, tagLength, tag);
    }
    forall tag | tag in after.records
      ensures exists j :: IsKept(seen, tagLength, tag, j) && after.records[tag] == TagRecord(seen[j].created, seen[j])
    {
      RecordKeepsNewest(before, prev, a, tagLength, tag);
    }
  }

  // ---------------------------------------------------------------------------
  // The paginated crawl (lines 143-209)
  // ---------------------------------------------------------------------------

  /** The text of the batch size. */
  lemma BatchSizeText()
    ensures IntToString(BatchSize) == "100"
  {
    assert Digits(1) == "1" && DigitChar(0) == '0';
    assert Digits(10) == Digits(1) + [DigitChar(0)] == "10";
    assert Digits(100) == Digits(10) + [DigitChar(0)] == "100";
  }

  /** The k-th search call (counting from 0). */
  function PageRequest(pattern: string, k: nat): SearchRequest
  {
    SearchRequest(pattern, "created", "desc", BatchSize, BatchSize * k)
  }

  /** The k-th search call asks for the newest artifacts first, a page of 100 at offset 100 * k. */
  lemma PageRequestCommand(pattern: string, k: nat)
    ensures SearchCommand(PageRequest(pattern, k)) ==
      ["jf", "rt", "s", "--sort-by=created", "--sort-order=desc", "--limit=100",
       "--offset=" + IntToString(BatchSize * k), pattern]
  {
    BatchSizeText();
    var cmd := SearchCommand(PageRequest(pattern, k));
    assert cmd[5] == "--limit=100" && cmd[6] == "--offset=" + IntToString(BatchSize * k);
    assert cmd[3] == "--sort-by=created" && cmd[4] == "--sort-order=desc";
  }

  /** The artifacts of the first `n` pages, in the order they were returned. */
  function Fetched(src: SearchSource, pattern: string, n: nat): seq<Artifact>
  {
    if n == 0 then [] else Fetched(src, pattern, n - 1) + src(PageRequest(pattern, n - 1))
  }

  /** The table after the first `n` calls, had they all been made: each page absorbed in turn. */
  function TableAfter(src: SearchSource, pattern: string, tagLength: int, n: nat): TagTable
  {
    if n == 0 then EmptyTable
    else Absorb(TableAfter(src, pattern, tagLength, n - 1), src(PageRequest(pattern, n - 1)), tagLength)
  }

  /** Every table the crawl passes through is valid. */
  lemma {:induction false} TableAfterValid(src: SearchSource, pattern: string, tagLength: int, n: nat)
    ensures TableAfter(src, pattern, tagLength, n).Valid()
  {
    if n > 0 {
      TableAfterValid(src, pattern, tagLength, n - 1);
      AbsorbValid(TableAfter(src, pattern, tagLength, n - 1), src(PageRequest(pattern, n - 1)), tagLength);
    }
  }

  /** The table after `n` calls is every fetched artifact absorbed in order. */
  lemma {:induction false} TableAfterFetched(src: SearchSource, pattern: string, tagLength: int, n: nat)
    ensures TableAfter(src, pattern, tagLength, n) == Absorb(EmptyTable, Fetched(src, pattern, n), tagLength)
  {
    if n > 0 {
      TableAfterFetched(src, pattern, tagLength, n - 1);
      AbsorbConcat(EmptyTable, Fetched(src, pattern, n - 1), src(PageRequest(pattern, n - 1)), tagLength);
    }
  }

  /**
   * Call `k` lets the loop go on (lines 160-162, 196-200 and 203-207): its
   * page was not empty, the table is still short of `limit` tags, and the
   * page was full.
   */
  predicate GoesOn(src: SearchSource, pattern: string, limit: int, tagLength: int, k: nat)
  {
    var page := src(PageRequest(pattern, k));
    page != [] && |TableAfter(src, pattern, tagLength, k + 1).records| < limit && |page| >= BatchSize
  }

  /** The first `n` search calls, in order. */
  function PageRequests(pattern: string, n: nat): (reqs: seq<SearchRequest>)
    ensures |reqs| == n
    ensures forall k :: 0 <= k < n ==> reqs[k] == PageRequest(pattern, k)
  {
    if n == 0 then [] else PageRequests(pattern, n - 1) + [PageRequest(pattern, n - 1)]
  }

  /** Each of the first `n` calls lets the crawl go on. */
  predicate AllGoOn(src: SearchSource, pattern: string, limit: int, tagLength: int, n: nat)
  {
    n == 0 || (AllGoOn(src, pattern, limit, tagLength, n - 1) && GoesOn(src, pattern, limit, tagLength, n - 1))
  }

  lemma {:induction false} AllGoOnEach(src: SearchSource, pattern: string, limit: int, tagLength: int, n: nat)
    requires AllGoOn(src, pattern, limit, tagLength, n)
    ensures forall m :: 0 <= m < n ==> GoesOn(src, pattern, limit, tagLength, m)
  {
    if n > 0 {
      AllGoOnEach(src, pattern, limit, tagLength, n - 1);
    }
  }

  /** Call `k` absorbs its page into the table of the calls before it, and goes on or stops by that table. */
  lemma NextCall(src: SearchSource, pattern: string, limit: int, tagLength: int, k: nat, table: TagTable, page: seq<Artifact>)
    requires table == TableAfter(src, pattern, tagLength, k) && page == src(PageRequest(pattern, k))
    ensures TableAfter(src, pattern, tagLength, k + 1) == Absorb(table, page, tagLength)
    ensures GoesOn(src, pattern, limit, tagLength, k) <==>
      page != [] && |Absorb(table, page, tagLength).records| < limit && |page| >= BatchSize
  {
  }

  /**
   * The number of calls a loop makes when it reaches call `k`, when
   * `goesOn(m)` says whether call `m` lets it go on and it stops after 50
   * calls in any case.
   */
  function CallsFrom(goesOn: nat -> bool, k: nat): (n: nat)
    requires k <= MaxIterations
    ensures k <= n <= MaxIterations
    ensures k < MaxIterations ==> k < n
    decreases MaxIterations - k
  {
    if k == MaxIterations then k
    else if goesOn(k) then CallsFrom(goesOn, k + 1)
    else k + 1
  }

  /** Calls that let the loop go on do not change where it stops. */
  lemma {:induction false} CallsFromSkip(goesOn: nat -> bool, j: nat, k: nat)
    requires j <= k <= MaxIterations
    requires forall m :: j <= m < k ==> goesOn(m)
    ensures CallsFrom(goesOn, j) == CallsFrom(goesOn, k)
    decreases k - j
  {
    if j < k {
      CallsFromSkip(goesOn, j + 1, k);
    }
  }

  /** From call `k` on, every call but the last lets the loop go on and the last one stops it. */
  lemma {:induction false} CallsFromStops(goesOn: nat -> bool, k: nat)
    requires k <= MaxIterations
    ensures var n := CallsFrom(goesOn, k);
      && (forall m :: k <= m < n - 1 ==> goesOn(m))
      && (n < MaxIterations ==> !goesOn(n - 1))
    decreases MaxIterations - k
  {
    if k < MaxIterations && goesOn(k) {
      CallsFromStops(goesOn, k + 1);
    }
  }

  /** Where the crawl ends: the final table and the number of search calls made. */
  datatype Crawled = Crawled(table: TagTable, calls: nat)

  /** Whether each call lets the crawl go on. */
  function Verdicts(src: SearchSource, pattern: string, limit: int, tagLength: int): nat -> bool
  {
    (k: nat) => GoesOn(src, pattern, limit, tagLength, k)
  }

  /** The whole crawl (lines 143-209): the calls made and the table they leave. */
  function CrawlAll(src: SearchSource, pattern: string, limit: int, tagLength: int): (c: Crawled)
    ensures 1 <= c.calls <= MaxIterations
    ensures c.table == TableAfter(src, pattern, tagLength, c.calls)
    ensures c.table.Valid()
  {
    var n := CallsFrom(Verdicts(src, pattern, limit, tagLength), 0);
    TableAfterValid(src, pattern, tagLength, n);
    Crawled(TableAfter(src, pattern, tagLength, n), n)
  }

  /** The crawl stops after call `k` when every earlier call let it go on and call `k` does not. */
  lemma CrawlWhenStopped(src: SearchSource, pattern: string, limit: int, tagLength: int, k: nat)
    requires k < MaxIterations
    requires forall m :: 0 <= m < k ==> GoesOn(src, pattern, limit, tagLength, m)
    requires !GoesOn(src, pattern, limit, tagLength, k)
    ensures CrawlAll(src, pattern, limit, tagLength).calls == k + 1
  {
    var goesOn := Verdicts(src, pattern, limit, tagLength);
    CallsFromSkip(goesOn, 0, k);
    assert !goesOn(k);
  }

  /** The crawl stops after 50 calls when every one of them let it go on. */
  lemma CrawlWhenCapped(src: SearchSource, pattern: string, limit: int, tagLength: int)
    requires forall m :: 0 <= m < MaxIterations ==> GoesOn(src, pattern, limit, tagLength, m)
    ensures CrawlAll(src, pattern, limit, tagLength).calls == MaxIterations
  {
    CallsFromSkip(Verdicts(src, pattern, limit, tagLength), 0, MaxIterations);
  }

  /**
   * A loop that made `calls` calls, each but the last letting it go on, and
   * stopped because the last one did not or because it made 50, made the
   * crawl's calls.
   */
  lemma CrawlEnd(src: SearchSource, pattern: string, limit: int, tagLength: int, calls: nat)
    requires 1 <= calls <= MaxIterations
    requires AllGoOn(src, pattern, limit, tagLength, calls - 1)
    requires calls == MaxIterations || !GoesOn(src, pattern, limit, tagLength, calls - 1)
    ensures CrawlAll(src, pattern, limit, tagLength).calls == calls
  {
    AllGoOnEach(src, pattern, limit, tagLength, calls - 1);
    if !GoesOn(src, pattern, limit, tagLength, calls - 1) {
      CrawlWhenStopped(src, pattern, limit, tagLength, calls - 1);
    } else {
      AllGoOnEach(src, pattern, limit, tagLength, calls);
      CrawlWhenCapped(src, pattern, limit, tagLength);
    }
  }

  /** Every call of the crawl but the last let it go on. */
  lemma CrawlGoesOnBeforeLast(src: SearchSource, pattern: string, limit: int, tagLength: int, m: nat)
    requires m < CrawlAll(src, pattern, limit, tagLength).calls - 1
    ensures GoesOn(src, pattern, limit, tagLength, m)
  {
    var goesOn := Verdicts(src, pattern, limit, tagLength);
    CallsFromStops(goesOn, 0);
    assert goesOn(m);
  }

  /** The last call of the crawl stopped it, unless it was the 50th. */
  lemma CrawlLastStops(src: SearchSource, pattern: string, limit: int, tagLength: int)
    requires CrawlAll(src, pattern, limit, tagLength).calls < MaxIterations
    ensures !GoesOn(src, pattern, limit, tagLength, CrawlAll(src, pattern, limit, tagLength).calls - 1)
  {
    var goesOn := Verdicts(src, pattern, limit, tagLength);
    CallsFromStops(goesOn, 0);
    assert !goesOn(CrawlAll(src, pattern, limit, tagLength).calls - 1);
  }

  /**
   * The crawl stops at the first call that does not let it go on, or after
   * 50 calls: every call but the last let the loop go on, and the last one
   * stopped it unless the cap was reached.
   */
  lemma CrawlStopsAtFirstExit(src: SearchSource, pattern: string, limit: int, tagLength: int)
    ensures var c := CrawlAll(src, pattern, limit, tagLength);
      && (forall m :: 0 <= m < c.calls - 1 ==> GoesOn(src, pattern, limit, tagLength, m))
      && (c.calls < MaxIterations ==> !GoesOn(src, pattern, limit, tagLength, c.calls - 1))
  {
    var c := CrawlAll(src, pattern, limit, tagLength);
    forall m | 0 <= m < c.calls - 1 ensures GoesOn(src, pattern, limit, tagLength, m) {
      CrawlGoesOnBeforeLast(src, pattern, limit, tagLength, m);
    }
    if c.calls < MaxIterations {
      CrawlLastStops(src, pattern, limit, tagLength);
    }
  }

  /**
   * The crawled table keeps, for every tag of the right length on the
   * fetched pages, the first of its newest artifacts, and no other tag.
   */
  lemma CrawlKeepsNewest(src: SearchSource, pattern: string, limit: int, tagLength: int)
    ensures var c := CrawlAll(src, pattern, limit, tagLength);
      KeepsNewest(c.table, Fetched(src, pattern, c.calls), tagLength)
  {
    var c := CrawlAll(src, pattern, limit, tagLength);
    TableAfterFetched(src, pattern, tagLength, c.calls);
    AbsorbKeepsNewest(Fetched(src, pattern, c.calls), tagLength);
  }

  /** An empty first page ends the crawl after one call with an empty table. */
  lemma CrawlEmptyFirstPage(src: SearchSource, pattern: string, limit: int, tagLength: int)
    requires src(PageRequest(pattern, 0)) == []
    ensures CrawlAll(src, pattern, limit, tagLength) == Crawled(EmptyTable, 1)
  {
    assert TableAfter(src, pattern, tagLength, 1) == Absorb(EmptyTable, [], tagLength) == EmptyTable;
    assert !GoesOn(src, pattern, limit, tagLength, 0);
    CrawlWhenStopped(src, pattern, limit, tagLength, 0);
  }

  // ---------------------------------------------------------------------------
  // The report (lines 220-239)
  // ---------------------------------------------------------------------------

  /** The line for the i-th tag of the table. */
  function LineAt(table: TagTable, repo: string, item: string, i: int): string
    requires table.Valid() && 0 <= i < |table.order|
  {
    var tag := table.order[i];
    DockerLine(repo, item, tag, table.records[tag].created, table.records[tag].artifact)
  }

  /** `results`: one line per tag, in the table's order. */
  function Lines(table: TagTable, repo: string, item: string): seq<string>
    requires table.Valid()
  {
    seq(|table.order|, i requires 0 <= i < |table.order| => LineAt(table, repo, item, i))
  }

  /**
   * No lines when no tag was found; otherwise the lines sorted in
   * descending string order and cut to `limit` with Python's `[:limit]`.
   */
  function Report(table: TagTable, repo: string, item: string, limit: int): (r: seq<string>)
    requires table.Valid()
    ensures |table.records| == 0 ==> r == []
    ensures limit >= 0 ==> |r| <= limit
  {
    if |table.records| == 0 then [] else SliceTo(SortDescending(Lines(table, repo, item)), limit)
  }

  /** `line` is the line the table renders for `tag`. */
  ghost predicate Renders(table: TagTable, repo: string, item: string, tag: string, line: string)
  {
    tag in table.records &&
    line == DockerLine(repo, item, tag, table.records[tag].created, table.records[tag].artifact)
  }

  /** `line` is the line the table renders for one of its tags. */
  ghost predicate RendersSomeTag(table: TagTable, repo: string, item: string, line: string)
  {
    exists tag :: Renders(table, repo, item, tag, line)
  }

  /** The report's lines all come from the table's lines: a sorted prefix of them. */
  lemma ReportIsSortedPrefix(table: TagTable, repo: string, item: string, limit: int)
    requires table.Valid()
    ensures var r := Report(table, repo, item, limit);
      && r <= SortDescending(Lines(table, repo, item))
      && |r| == SliceLength(|table.records|, limit)
  {
    TableSize(table);
    var lines := Lines(table, repo, item);
    var sorted := SortDescending(lines);
    assert |sorted| == |multiset(sorted)| == |multiset(lines)| == |lines|;
  }

  /**
   * A prefix of a sorted list is sorted, is part of the list, and no
   * element left out is greater than an element kept.
   */
  lemma SortedPrefix(sorted: seq<string>, r: seq<string>)
    requires NonIncreasing(sorted) && r <= sorted
    ensures NonIncreasing(r)
    ensures multiset(r) <= multiset(sorted)
    ensures forall x, y :: x in sorted && x !in r && y in r ==> !Less(y, x)
  {
    assert sorted == r + sorted[|r|..];
    assert multiset(sorted) == multiset(r) + multiset(sorted[|r|..]);
    forall x, y | x in sorted && x !in r && y in r ensures !Less(y, x) {
      var p :| 0 <= p < |sorted| && sorted[p] == x;
      var q :| 0 <= q < |r| && r[q] == y;
      assert sorted[q] == y;
      if p < |r| {
        assert r[p] == x;
      }
    }
  }

  /** Every line of the table renders one of its tags. */
  lemma LinesRender(table: TagTable, repo: string, item: string, line: string) returns (tag: string)
    requires table.Valid() && line in multiset(Lines(table, repo, item))
    ensures Renders(table, repo, item, tag, line)
  {
    var lines := Lines(table, repo, item);
    var k :| 0 <= k < |lines| && lines[k] == line;
    tag := table.order[k];
  }

  /**
   * The report is in descending order, has `limit` lines or every line when
   * there are fewer tags (`[:limit]` counts a negative `limit` from the end),
   * holds only lines of the table, and no line left out is greater than a
   * line kept.
   */
  lemma ReportShape(table: TagTable, repo: string, item: string, limit: int)
    requires table.Valid()
    ensures var r := Report(table, repo, item, limit);
      && NonIncreasing(r)
      && |r| == SliceLength(|table.records|, limit)
      && multiset(r) <= multiset(Lines(table, repo, item))
      && (forall x, y :: x in Lines(table, repo, item) && x !in r && y in r ==> !Less(y, x))
  {
    ReportIsSortedPrefix(table, repo, item, limit);
    var lines := Lines(table, repo, item);
    var r := Report(table, repo, item, limit);
    var sorted := SortDescending(lines);
    SortedPrefix(sorted, r);
    assert multiset(sorted) == multiset(lines);
    forall x | x in lines ensures x in sorted {
      assert x in multiset(lines);
    }
  }

  /** Each line of the report renders a tag of the table. */
  lemma ReportRenders(table: TagTable, repo: string, item: string, limit: int)
    requires table.Valid()
    ensures var r := Report(table, repo, item, limit);
      forall i :: 0 <= i < |r| ==> RendersSomeTag(table, repo, item, r[i])
  {
    var r := Report(table, repo, item, limit);
    var lines := Lines(table, repo, item);
    ReportIsSortedPrefix(table, repo, item, limit);
    SortedPrefix(SortDescending(lines), r);
    forall i | 0 <= i < |r| ensures RendersSomeTag(table, repo, item, r[i]) {
      assert r[i] in multiset(r);
      var tag := LinesRender(table, repo, item, r[i]);
    }
  }

  /** An empty table gives no lines, whatever the limit. */
  lemma ReportOfEmptyTable(repo: string, item: string, limit: int)
    ensures Report(EmptyTable, repo, item, limit) == []
  {
  }

  /** Every timestamp kept in the table has `width` characters (fixed-width ISO 8601). */
  ghost predicate CreatedWidth(table: TagTable, width: nat)
  {
    forall tag :: tag in table.records ==> |table.records[tag].created| == width
  }

  /** Every tag in the table has `tagLength` characters. */
  ghost predicate TagWidth(table: TagTable, tagLength: int)
  {
    forall tag :: tag in table.records ==> |tag| == tagLength
  }

  /**
   * Newest first: when the timestamps have one width, a line earlier in the
   * report never carries an older timestamp than a later one.
   */
  lemma ReportNewestFirst(table: TagTable, repo: string, item: string, limit: int, width: nat)
    requires table.Valid() && CreatedWidth(table, width)
    ensures var r := Report(table, repo, item, limit);
      forall i, j, ti, tj ::
        0 <= i < j < |r| && Renders(table, repo, item, ti, r[i]) && Renders(table, repo, item, tj, r[j]) ==>
        !Less(table.records[ti].created, table.records[tj].created)
  {
    ReportShape(table, repo, item, limit);
    var r := Report(table, repo, item, limit);
    forall i, j, ti, tj |
      0 <= i < j < |r| && Renders(table, repo, item, ti, r[i]) && Renders(table, repo, item, tj, r[j])
      ensures !Less(table.records[ti].created, table.records[tj].created)
    {
      var ci := table.records[ti].created;
      var cj := table.records[tj].created;
      DockerLineStartsWithCreated(repo, item, ti, ci, table.records[ti].artifact);
      DockerLineStartsWithCreated(repo, item, tj, cj, table.records[tj].artifact);
      if Less(ci, cj) {
        assert r[i][..width] == ci && r[j][..width] == cj;
        LessOnPrefix(r[i], r[j], width);
      }
    }
  }

  /** In a multiset of a sequence without repeats every element occurs once. */
  lemma {:induction false} DistinctMultiplicity(s: seq<string>, x: string)
    requires forall i, j :: 0 <= i < j < |s| ==> s[i] != s[j]
    ensures multiset(s)[x] <= 1
  {
    if |s| > 0 {
      var front := s[..|s| - 1];
      assert s == front + [s[|s| - 1]];
      DistinctMultiplicity(front, x);
      forall k | 0 <= k < |front| ensures front[k] != s[|s| - 1] {
        assert front[k] == s[k];
      }
      assert s[|s| - 1] !in front;
    }
  }

  /** Taking a sub-multiset of a sequence without repeats gives no repeats. */
  lemma SubMultisetDistinct(r: seq<string>, s: seq<string>)
    requires forall i, j :: 0 <= i < j < |s| ==> s[i] != s[j]
    requires multiset(r) <= multiset(s)
    ensures forall i, j :: 0 <= i < j < |r| ==> r[i] != r[j]
  {
    forall i, j | 0 <= i < j < |r| ensures r[i] != r[j] {
      if r[i] == r[j] {
        assert r == r[..j] + r[j..];
        assert r[i] in multiset(r[..j]) && r[j] in multiset(r[j..]);
        assert multiset(r)[r[i]] >= 2;
        DistinctMultiplicity(s, r[i]);
      }
    }
  }

  /**
   * No tag is reported twice: when the tags have one length, two lines of
   * the report render two different tags, whatever the timestamps are.
   */
  lemma ReportTagsDistinct(table: TagTable, repo: string, item: string, limit: int, tagLength: int)
    requires table.Valid() && TagWidth(table, tagLength)
    ensures var r := Report(table, repo, item, limit);
      forall i, j, ti, tj ::
        0 <= i < j < |r| && Renders(table, repo, item, ti, r[i]) && Renders(table, repo, item, tj, r[j]) ==>
        ti != tj
  {
    ReportShape(table, repo, item, limit);
    var r := Report(table, repo, item, limit);
    var lines := Lines(table, repo, item);
    LinesDistinct(table, repo, item, tagLength);
    SubMultisetDistinct(r, lines);
  }

  /** When the tags have one length, the table's lines are pairwise different. */
  lemma LinesDistinct(table: TagTable, repo: string, item: string, tagLength: int)
    requires table.Valid() && TagWidth(table, tagLength)
    ensures var lines := Lines(table, repo, item);
      forall a, b :: 0 <= a < b < |lines| ==> lines[a] != lines[b]
  {
    var lines := Lines(table, repo, item);
    forall a, b | 0 <= a < b < |lines| ensures lines[a] != lines[b] {
      var ta, tb := table.order[a], table.order[b];
      assert lines[a] == LineAt(table, repo, item, a) && lines[b] == LineAt(table, repo, item, b);
      if lines[a] == lines[b] {
        DockerLineDeterminesTag(repo, item,
          ta, table.records[ta].created, table.records[ta].artifact,
          tb, table.records[tb].created, table.records[tb].artifact);
      }
    }
  }

  /** A table that keeps the newest artifacts holds only tags of `tagLength` characters. */
  lemma KeptTagsHaveLength(table: TagTable, seen: seq<Artifact>, tagLength: int)
    requires KeepsNewest(table, seen, tagLength)
    ensures TagWidth(table, tagLength)
  {
    forall tag | tag in table.records ensures |tag| == tagLength {
      var i :| 0 <= i < |seen| && MatchingTag(seen[i], tagLength) == Some(tag);
    }
  }

  /**
   * The Docker report of a whole crawl never shows a tag twice, whatever its
   * timestamps are: every tag the crawl keeps has `tagLength` characters.
   */
  lemma CrawlReportDistinct(src: SearchSource, pattern: string, limit: int, tagLength: int,
                            repo: string, item: string)
    ensures var table := CrawlAll(src, pattern, limit, tagLength).table;
      var r := Report(table, repo, item, limit);
      forall i, j, ti, tj ::
        0 <= i < j < |r| && Renders(table, repo, item, ti, r[i]) && Renders(table, repo, item, tj, r[j]) ==>
        ti != tj
  {
    var c := CrawlAll(src, pattern, limit, tagLength);
    CrawlKeepsNewest(src, pattern, limit, tagLength);
    KeptTagsHaveLength(c.table, Fetched(src, pattern, c.calls), tagLength);
    ReportTagsDistinct(c.table, repo, item, limit, tagLength);
  }

  /**
   * The Docker report of a whole crawl never shows a tag twice, and shows
   * newest first when the timestamps have one width.
   */
  lemma CrawlReportDistinctNewestFirst(src: SearchSource, pattern: string, limit: int, tagLength: int,
                                       repo: string, item: string, width: nat)
    ensures var table := CrawlAll(src, pattern, limit, tagLength).table;
      var r := Report(table, repo, item, limit);
      forall i, j, ti, tj ::
        0 <= i < j < |r| && Renders(table, repo, item, ti, r[i]) && Renders(table, repo, item, tj, r[j]) ==>
        ti != tj &&
        (CreatedWidth(table, width) ==> !Less(table.records[ti].created, table.records[tj].created))
  {
    var table := CrawlAll(src, pattern, limit, tagLength).table;
    CrawlReportDistinct(src, pattern, limit, tagLength, repo, item);
    if CreatedWidth(table, width) {
      ReportNewestFirst(table, repo, item, limit, width);
    }
  }
}
