/**
 * `ArtifactoryQueryTool` (query_artifactory.py lines 124-279): the three
 * repositories an environment names and the Docker, Helm and PyPI queries.
 * The tool's attributes are set once by `__init__` and never change, so the
 * tool is a value; its `client` is the `SearchSource` the JFrog CLI answers
 * searches with. Each query is a method with the loops of the original and
 * is proved equal to the specification functions of `DockerTags` and
 * `Formatting`.
 */
module QueryTool {
  import opened Wrappers
  import opened PyStrings
  import opened Sorting
  import opened JFrogClient
  import opened Formatting
  import opened DockerTags

  /** `dexcom-<kind>-<environment>-<scope>`, the repository naming scheme of `__init__`. */
  function RepoName(kind: string, environment: string, scope: string): string
  {
    "dexcom-" + kind + "-" + environment + "-" + scope
  }

  /** Reads the environment back out of a repository name of the given kind and scope. */
  function RepoEnvironment(kind: string, scope: string, name: string): (env: Option<string>)
    ensures env.Some? ==> RepoName(kind, env.value, scope) == name
  {
    var prefix := "dexcom-" + kind + "-";
    var suffix := "-" + scope;
    if |prefix| + |suffix| <= |name| && prefix <= name && name[|name| - |suffix|..] == suffix then
      var env := name[|prefix|..|name| - |suffix|];
      assert name == prefix + env + suffix;
      Some(env)
    else None
  }

  /** A repository name determines the environment it was made for. */
  lemma RepoNameRoundTrip(kind: string, environment: string, scope: string)
    ensures RepoEnvironment(kind, scope, RepoName(kind, environment, scope)) == Some(environment)
  {
    var prefix := "dexcom-" + kind + "-";
    var suffix := "-" + scope;
    var name := RepoName(kind, environment, scope);
    assert name == prefix + environment + suffix;
    assert name[|prefix|..|name| - |suffix|] == environment;
    assert name[|name| - |suffix|..] == suffix;
  }

  /** The names of the dev repositories. */
  lemma DevRepoNames()
    ensures RepoName("docker", "dev", "virtual") == "dexcom-docker-dev-virtual"
    ensures RepoName("helm", "dev", "virtual") == "dexcom-helm-dev-virtual"
    ensures RepoName("pypi", "dev", "local") == "dexcom-pypi-dev-local"
  {
  }

  /** The query tool: the search client, the environment and its three repositories. */
  datatype ArtifactoryQueryTool = ArtifactoryQueryTool(
    client: SearchSource,
    environment: string,
    dockerRepo: string,
    helmRepo: string,
    pypiRepo: string)
  {
    /** Every image tag lies under `<docker repo>/<item>/`. */
    function DockerPattern(itemName: string): string
    {
      dockerRepo + "/" + itemName + "/*"
    }

    /** Charts are the `.tgz` files under `<helm repo>/<item>/`. */
    function HelmPattern(itemName: string): string
    {
      helmRepo + "/" + itemName + "/*.tgz"
    }

    /** Packages are the `.whl` files under `<pypi repo>/<item>/`. */
    function PypiPattern(itemName: string): string
    {
      pypiRepo + "/" + itemName + "/*.whl"
    }

    /**
     * Lines 165-186, one batch: every artifact whose tag has `tagLength`
     * characters is stored when its tag is new or it is strictly newer than
     * the stored one.
     */
    method RecordBatch(tagArtifacts: TagTable, artifacts: seq<Artifact>, tagLength: int)
      returns (table: TagTable)
      ensures table == Absorb(tagArtifacts, artifacts, tagLength)
    {
      table := tagArtifacts;
      var i := 0;
      while i < |artifacts|
        invariant 0 <= i <= |artifacts|
        invariant table == Absorb(tagArtifacts, artifacts[..i], tagLength)
      {
        var artifact := artifacts[i];
        assert artifacts[..i + 1][..i] == artifacts[..i];
        var pathParts := Split(artifact.path, '/');
        if |pathParts| >= 3 {
          var tag := pathParts[2];
          if |tag| == tagLength {
            var created := artifact.created;
            if tag !in table.records || Less(table.records[tag].created, created) {
              table := table.Put(tag, TagRecord(created, artifact));
            }
          }
        }
        i := i + 1;
      }
      assert artifacts[..|artifacts|] == artifacts;
    }

    /**
     * Lines 144-207, one pass of the paging loop: fetch call `iteration`'s
     * page, record it unless it is empty, and say whether the loop goes on.
     */
    method FetchPage(searchPattern: string, limit: int, tagLength: int, iteration: nat, offset: int, tagArtifacts: TagTable)
      returns (table: TagTable, request: SearchRequest, goOn: bool)
      requires offset == BatchSize * iteration
      requires tagArtifacts == TableAfter(client, searchPattern, tagLength, iteration)
      ensures request == PageRequest(searchPattern, iteration)
      ensures table == TableAfter(client, searchPattern, tagLength, iteration + 1)
      ensures goOn == GoesOn(client, searchPattern, limit, tagLength, iteration)
    {
      request := DefaultSearch(searchPattern, limit := BatchSize, offset := offset);
      var artifacts := client(request);
      NextCall(client, searchPattern, limit, tagLength, iteration, tagArtifacts, artifacts);

      if artifacts == [] {
        return tagArtifacts, request, false;
      }

      table := RecordBatch(tagArtifacts, artifacts, tagLength);
      goOn := !(|table.records| >= limit || |artifacts| < BatchSize);
    }

    /**
     * Lines 143-209: page through `searchPattern` 100 artifacts at a time
     * and stop on an empty page, once `limit` tags are known, on a short
     * page, or after 50 calls. The ghost `requests` lists the searches made,
     * in order.
     */
    method CollectTags(searchPattern: string, limit: int, tagLength: int)
      returns (tagArtifacts: TagTable, ghost requests: seq<SearchRequest>)
      ensures tagArtifacts == CrawlAll(client, searchPattern, limit, tagLength).table
      ensures |requests| == CrawlAll(client, searchPattern, limit, tagLength).calls
      ensures forall k :: 0 <= k < |requests| ==> requests[k] == PageRequest(searchPattern, k)
    {
      tagArtifacts := EmptyTable;
      var offset := 0;
      requests := [];
      var iteration := 0;
      while iteration < MaxIterations
        invariant 0 <= iteration <= MaxIterations
        invariant offset == BatchSize * iteration
        invariant tagArtifacts == TableAfter(client, searchPattern, tagLength, iteration)
        invariant requests == PageRequests(searchPattern, iteration)
        invariant AllGoOn(client, searchPattern, limit, tagLength, iteration)
      {
        var request, goOn;
        tagArtifacts, request, goOn := FetchPage(searchPattern, limit, tagLength, iteration, offset, tagArtifacts);
        requests := requests + [request];
        if !goOn {
          CrawlEnd(client, searchPattern, limit, tagLength, iteration + 1);
          return;
        }
        offset := offset + BatchSize;
        iteration := iteration + 1;
      }
      CrawlEnd(client, searchPattern, limit, tagLength, iteration);
    }

    /**
     * `query_docker`: collect the newest artifact of every tag of
     * `tagLength` characters, then report the tag lines newest first, cut
     * to `limit`; no lines at all when no tag was found. The ghost
     * `requests` lists the searches made, in order.
     */
    method QueryDocker(itemName: string, limit: int := 5, tagLength: int := 7)
      returns (results: seq<string>, ghost requests: seq<SearchRequest>)
      ensures results == Report(CrawlAll(client, DockerPattern(itemName), limit, tagLength).table, dockerRepo, itemName, limit)
      ensures |requests| == CrawlAll(client, DockerPattern(itemName), limit, tagLength).calls
      ensures forall k :: 0 <= k < |requests| ==> requests[k] == PageRequest(DockerPattern(itemName), k)
    {
      var searchPattern := dockerRepo + "/" + itemName + "/*";
      var tagArtifacts;
      tagArtifacts, requests := CollectTags(searchPattern, limit, tagLength);

      if |tagArtifacts.records| == 0 {
        return [], requests;
      }

      var lines := [];
      var j := 0;
      while j < |tagArtifacts.order|
        invariant 0 <= j <= |tagArtifacts.order| && |lines| == j
        invariant forall k :: 0 <= k < j ==> lines[k] == LineAt(tagArtifacts, dockerRepo, itemName, k)
      {
        var tag := tagArtifacts.order[j];
        var data := tagArtifacts.records[tag];
        lines := lines + [DockerLine(dockerRepo, itemName, tag, data.created, data.artifact)];
        j := j + 1;
      }
      assert lines == Lines(tagArtifacts, dockerRepo, itemName);
      results := SliceTo(SortDescending(lines), limit);
    }

    /**
     * `query_helm`: one search for the newest `limit` charts and one line per
     * chart, in the order returned, the chart shown by its file name
     * without ".tgz".
     */
    method QueryHelm(itemName: string, limit: int := 5) returns (results: seq<string>)
      ensures var artifacts := client(DefaultSearch(HelmPattern(itemName), limit := limit));
        && |results| == |artifacts|
        && forall i :: 0 <= i < |artifacts| ==> results[i] == HelmLine(artifacts[i])
    {
      var searchPattern := helmRepo + "/" + itemName + "/*.tgz";
      var artifacts := client(DefaultSearch(searchPattern, limit := limit));
      results := [];
      for i := 0 to |artifacts|
        invariant |results| == i
        invariant forall k :: 0 <= k < i ==> results[k] == HelmLine(artifacts[k])
      {
        var artifact := artifacts[i];
        var created := artifact.created;
        var filename := BaseName(artifact.path);
        var chartNameWithVersion := RemoveAll(filename, ".tgz");
        assert chartNameWithVersion == ChartName(artifact.path);
        results := results + [created + " " + chartNameWithVersion + " (JFrog SHA: " + ShortSha(artifact) + ")"];
      }
    }

    /**
     * `query_pypi`: one search for the newest `limit` wheels and one line per
     * package, in the order returned, the package shown by its file name.
     */
    method QueryPypi(itemName: string, limit: int := 5) returns (results: seq<string>)
      ensures var artifacts := client(DefaultSearch(PypiPattern(itemName), limit := limit));
        && |results| == |artifacts|
        && forall i :: 0 <= i < |artifacts| ==> results[i] == PypiLine(artifacts[i])
    {
      var searchPattern := pypiRepo + "/" + itemName + "/*.whl";
      var artifacts := client(DefaultSearch(searchPattern, limit := limit));
      results := [];
      for i := 0 to |artifacts|
        invariant |results| == i
        invariant forall k :: 0 <= k < i ==> results[k] == PypiLine(artifacts[k])
      {
        var created := artifacts[i].created;
        var filename := BaseName(artifacts[i].path);
        results := results + [created + " " + filename + " (JFrog sha: " + ShortSha(artifacts[i]) + ")"];
      }
    }
  }

  /**
   * `ArtifactoryQueryTool(environment)`: the Docker and Helm repositories are
   * the environment's virtual ones, the PyPI repository its local one.
   */
  function NewQueryTool(client: SearchSource, environment: string := "dev"): (tool: ArtifactoryQueryTool)
    ensures tool.client == client && tool.environment == environment
    ensures RepoEnvironment("docker", "virtual", tool.dockerRepo) == Some(environment)
    ensures RepoEnvironment("helm", "virtual", tool.helmRepo) == Some(environment)
    ensures RepoEnvironment("pypi", "local", tool.pypiRepo) == Some(environment)
    ensures environment == "dev" ==>
      && tool.dockerRepo == "dexcom-docker-dev-virtual"
      && tool.helmRepo == "dexcom-helm-dev-virtual"
      && tool.pypiRepo == "dexcom-pypi-dev-local"
  {
    DevRepoNames();
    RepoNameRoundTrip("docker", environment, "virtual");
    RepoNameRoundTrip("helm", environment, "virtual");
    RepoNameRoundTrip("pypi", environment, "local");
    ArtifactoryQueryTool(client, environment,
      RepoName("docker", environment, "virtual"),
      RepoName("helm", environment, "virtual"),
      RepoName("pypi", environment, "local"))
  }
}
