# query-artifactory, modelled in Dafny

This project models the core of `query_artifactory.py`, the command-line tool that asks JFrog Artifactory for the newest Docker image tags, Helm charts and PyPI wheels of an item.

- **`JFrogClient`** builds the `jf rt s` (search) and `jf rt curl` argument lists. A search is modelled as a `SearchSource`: a function from the request to the artifacts the CLI returns. It returns `[]` when the command fails or prints invalid JSON.
- **`ArtifactoryQueryTool`** derives the Docker, Helm and PyPI repository names from the environment. It answers three queries:
  - `query_docker` pages through the image artifacts 100 at a time. It keeps the newest artifact of every tag of the wanted length and stops on an empty page, once `limit` tags are known, on a short page, or after 50 calls. It then returns one line per tag, sorted in descending string order and cut to `limit`.
  - `query_helm` runs one search and returns one line per chart. The chart is shown by its file name with ".tgz" removed.
  - `query_pypi` runs one search and returns one line per wheel, showing the file name.

The Python semantics the tool relies on are written out explicitly:

- string comparison by code point (`>` and `sorted(reverse=True)`);
- `str.split`;
- `pathlib.Path(...).name`;
- `str.replace`;
- slicing with `[:n]`, including a negative `n`;
- `str(int)`;
- the insertion order of a `dict`.

Modules:

| file | module | contents |
|---|---|---|
| `wrappers.dfy` | `Wrappers` | `Option` |
| `py_strings.dfy` | `PyStrings` | the Python string operations above and the lexical order, with their laws |
| `decimal.dfy` | `Decimal` | `str(n)` and the parser that reads it back |
| `sorting.dfy` | `Sorting` | `sorted(..., reverse=True)` as the unique non-increasing permutation |
| `jfrog_client.dfy` | `JFrogClient` | artifacts, search requests and the CLI argument lists |
| `formatting.dfy` | `Formatting` | the short digest and the Docker, Helm and PyPI result lines |
| `docker_tags.dfy` | `DockerTags` | the tag table, the crawl and the report as specification functions, and their lemmas |
| `query_tool.dfy` | `QueryTool` | the tool value and the three queries as methods with the original loops, proved equal to the specification functions |

The tool's attributes are set once by `__init__` and never reassigned, so the tool is a datatype value whose methods change nothing. `tag_artifacts` is a `TagTable`: a map together with the order in which keys were first inserted, because Python dicts iterate in insertion order.

## Model

| member | source | states |
|---|---|---|
| JFrogClient.DefaultSearch | bin/query-artifactory/query_artifactory.py:95-102 | the search request with the defaults of the signature; `DefaultSearchCommand` states the defaults |
| JFrogClient.DefaultSearchCommand | bin/query-artifactory/query_artifactory.py:95-111 | with no limit or offset given, the search runs `jf rt s --sort-by=created --sort-order=desc --limit=5 --offset=0 <pattern>` |
| JFrogClient.SearchCommand | bin/query-artifactory/query_artifactory.py:103-111 | the search command is `jf rt s`, four options, then the pattern as the last of eight arguments |
| JFrogClient.SearchCommandRoundTrip | bin/query-artifactory/query_artifactory.py:103-111 | every field of the request can be read back from the argument list, including the decimal limit and offset |
| JFrogClient.SearchCommandInjective | bin/query-artifactory/query_artifactory.py:103-111 | different requests give different argument lists |
| JFrogClient.SearchCommandExample | bin/query-artifactory/query_artifactory.py:103-111 | `search("pattern/*", limit=10)` runs exactly `jf rt s --sort-by=created --sort-order=desc --limit=10 --offset=0 pattern/*` |
| JFrogClient.SearchOffsetExample | bin/query-artifactory/query_artifactory.py:109 | the offset is passed on as `--offset=50` |
| JFrogClient.CurlCommand | bin/query-artifactory/query_artifactory.py:88-93 | `jf rt curl <endpoint>`, with `--silent` appended exactly when asked for |
| JFrogClient.CurlCommandExample | bin/query-artifactory/query_artifactory.py:88-93 | `curl("/test/endpoint")` runs `jf rt curl /test/endpoint --silent` |
| Decimal.Digits | bin/query-artifactory/query_artifactory.py:108-109 | the digits of `str(n)`: at least one, no leading zero except for 0 itself |
| Decimal.IntToString | bin/query-artifactory/query_artifactory.py:108-109 | `str(n)` for the limit and offset; `ParseIntToString` proves it loses nothing and `Digits` that the text has no leading zeros |
| Decimal.ParseIntToString | bin/query-artifactory/query_artifactory.py:108-109 | the decimal text of any integer, negative ones included, reads back as that integer |
| PyStrings.LessTotal | bin/query-artifactory/query_artifactory.py:181 | Python string comparison is total: two strings are equal or one is smaller |
| PyStrings.LessTransitive | bin/query-artifactory/query_artifactory.py:181 | Python string comparison is transitive |
| PyStrings.LessAsymmetric | bin/query-artifactory/query_artifactory.py:181 | no two strings are each smaller than the other |
| PyStrings.LessOnPrefix | bin/query-artifactory/query_artifactory.py:238 | strings whose first `w` characters already compare smaller compare smaller |
| PyStrings.Less | bin/query-artifactory/query_artifactory.py:181 | `>` on strings, by code point; `LessTotal`, `LessTransitive` and `LessAsymmetric` prove it a strict total order |
| PyStrings.Split | bin/query-artifactory/query_artifactory.py:171 | `split('/')` gives at least one part |
| PyStrings.SplitPartsFree | bin/query-artifactory/query_artifactory.py:171 | no part of `split('/')` contains `/` |
| PyStrings.JoinSplit | bin/query-artifactory/query_artifactory.py:171 | joining the parts with the separator gives the original string |
| PyStrings.SplitJoin | bin/query-artifactory/query_artifactory.py:171 | splitting a join of separator-free parts gives the parts back |
| PyStrings.BaseName | bin/query-artifactory/query_artifactory.py:252 | `Path(path).name` is "" or a component of the path other than "" and "." |
| PyStrings.BaseNameIsLastName | bin/query-artifactory/query_artifactory.py:252 | `Path(path).name` is "" exactly when every `/`-part is "" or "."; otherwise it is a part after which every part is "" or "." |
| PyStrings.BaseNameOfChild | bin/query-artifactory/query_artifactory.py:252 | the name of `dir/file` is `file` |
| PyStrings.RemoveAll | bin/query-artifactory/query_artifactory.py:253 | `str.replace(pat, "")` never makes the string longer; `RemoveTgzFirst` states that every ".tgz" is removed from left to right, `RemoveAllFree` that nothing else is |
| PyStrings.RemoveAllFree | bin/query-artifactory/query_artifactory.py:253 | `replace` changes nothing when the pattern does not occur |
| PyStrings.RemoveTgzFirst | bin/query-artifactory/query_artifactory.py:253 | `replace(".tgz", "")` keeps the text before the first ".tgz", drops that occurrence and goes on with the rest, for any rest |
| PyStrings.RemoveTgzTwice | bin/query-artifactory/query_artifactory.py:253 | both occurrences go: `"x.tgz.tgz"` becomes `"x"` |
| PyStrings.RemoveTgzSuffix | bin/query-artifactory/query_artifactory.py:253 | `replace(".tgz", "")` on `stem.tgz` gives `stem` when `stem` holds no ".tgz" |
| PyStrings.SliceTo | bin/query-artifactory/query_artifactory.py:238 | `s[:n]` is a prefix of `s`, of length `min(n, len)` for `n >= 0` and `max(0, len + n)` for negative `n` |
| Sorting.SortDescending | bin/query-artifactory/query_artifactory.py:238 | `sorted(..., reverse=True)` is a permutation in which no element is smaller than one after it |
| Sorting.SortedPermutationUnique | bin/query-artifactory/query_artifactory.py:238 | any two such sorts of the same lines agree, so the sorting algorithm does not matter |
| Formatting.ShortSha | bin/query-artifactory/query_artifactory.py:231-233 | the digest is the first 8 characters of `sha1`, or of `actualSha1` when `sha1` is empty, or "unknown" when both are empty |
| Formatting.DockerLine | bin/query-artifactory/query_artifactory.py:234 | the Docker result line; `DockerLineStartsWithCreated` and `DockerLineDeterminesTag` state what it shows |
| Formatting.DockerLineStartsWithCreated | bin/query-artifactory/query_artifactory.py:234 | a Docker line begins with its timestamp |
| Formatting.DockerLineShaWidth | bin/query-artifactory/query_artifactory.py:231-234 | two equal Docker lines show digests of one width, so their timestamp and tag together have one width: a digest has 1 to 8 characters, and the label " (JFrog sha: " cannot be shifted onto itself by 1 to 7 characters |
| Formatting.ShaLabelNotShifted | bin/query-artifactory/query_artifactory.py:234 | two copies of " (JFrog sha: " in one line start at the same place or more than 7 characters apart |
| Formatting.DockerLineDeterminesTag | bin/query-artifactory/query_artifactory.py:234 | when either the timestamps have one width or the tags have one length, the line determines the tag and the timestamp |
| Formatting.ChartName | bin/query-artifactory/query_artifactory.py:252-253 | the chart shown for a path; `ChartNameOfChartPath` states it |
| Formatting.ChartNameOfChartPath | bin/query-artifactory/query_artifactory.py:252-253 | a chart stored as `dir/stem.tgz` is shown as `stem` |
| Formatting.HelmLine | bin/query-artifactory/query_artifactory.py:258 | the Helm result line; `HelmLineShowsChart` states the chart it shows and `QueryHelm` that each chart gets one |
| Formatting.HelmLineShowsChart | bin/query-artifactory/query_artifactory.py:250-258 | a chart stored as `dir/stem.tgz` is shown by `stem`, after its created time and before its short SHA |
| Formatting.PypiLine | bin/query-artifactory/query_artifactory.py:276 | the PyPI result line; `PypiLineShowsFile` states the file it shows |
| Formatting.PypiLineShowsFile | bin/query-artifactory/query_artifactory.py:272-276 | a wheel stored as `dir/file` is shown by `file`, unchanged |
| DockerTags.TagOf | bin/query-artifactory/query_artifactory.py:171-173 | a tag exists exactly when the path has at least 3 `/`-parts, and it contains no `/` |
| DockerTags.TagOfImagePath | bin/query-artifactory/query_artifactory.py:170-173 | the tag of `repo/item/tag/...` is `tag` |
| DockerTags.MatchingTag | bin/query-artifactory/query_artifactory.py:171-175 | an artifact is filed under its tag exactly when the tag exists and has exactly `tag_length` characters |
| DockerTags.TagTable.Put | bin/query-artifactory/query_artifactory.py:183-186 | dict assignment; `TagTable.PutValid` states its effect |
| DockerTags.TagTable.PutValid | bin/query-artifactory/query_artifactory.py:183-186 | dict assignment: the value is stored, a new key goes last, an existing key keeps its place, and no key repeats |
| DockerTags.Record | bin/query-artifactory/query_artifactory.py:168-186 | an artifact without a matching tag leaves the table unchanged |
| DockerTags.RecordValid | bin/query-artifactory/query_artifactory.py:168-186 | recording an artifact never repeats a tag |
| DockerTags.Absorb | bin/query-artifactory/query_artifactory.py:166-186 | the loop over one batch; `AbsorbKeepsNewest`, `AbsorbValid` and `AbsorbAddsMatchingTags` state what it keeps |
| DockerTags.TableSize | bin/query-artifactory/query_artifactory.py:196 | `len(tag_artifacts)` equals the number of tags in the iteration order |
| DockerTags.AbsorbValid | bin/query-artifactory/query_artifactory.py:168-186 | processing a batch never repeats a tag |
| DockerTags.AbsorbAddsMatchingTags | bin/query-artifactory/query_artifactory.py:168-186 | a batch never removes a tag, and every tag it adds is the `tag_length`-character tag of one of its artifacts |
| DockerTags.AbsorbConcat | bin/query-artifactory/query_artifactory.py:150-186 | processing two batches one after the other is processing their concatenation |
| DockerTags.AbsorbKeepsNewest | bin/query-artifactory/query_artifactory.py:168-186 | most recent wins: the table holds exactly the matching tags seen, each with an artifact no other is newer than, and the first such artifact on equal timestamps, because the comparison is strict |
| DockerTags.KeptTagsHaveLength | bin/query-artifactory/query_artifactory.py:175 | only tags of exactly `tag_length` characters are recorded |
| DockerTags.PageRequest | bin/query-artifactory/query_artifactory.py:146-158 | the search of call `k`; `PageRequestCommand` states it |
| DockerTags.PageRequestCommand | bin/query-artifactory/query_artifactory.py:146-158 | call `k` runs `jf rt s --sort-by=created --sort-order=desc --limit=100 --offset=<100 * k> <pattern>` |
| DockerTags.PageRequests | bin/query-artifactory/query_artifactory.py:146-158 | the first `n` calls, call `k` being the search at offset `100 * k` |
| DockerTags.TableAfterValid | bin/query-artifactory/query_artifactory.py:150-209 | the table never holds a tag twice, whatever the pages |
| DockerTags.TableAfterFetched | bin/query-artifactory/query_artifactory.py:150-186 | the table after `n` calls is every artifact fetched so far processed in order |
| DockerTags.GoesOn | bin/query-artifactory/query_artifactory.py:160-207 | defines whether call `k` lets the loop go on, as the negation of the three `break` tests; `CrawlWhenStopped`, `CrawlGoesOnBeforeLast` and `CrawlLastStops` are the properties proved about it |
| DockerTags.NextCall | bin/query-artifactory/query_artifactory.py:156-207 | unfolds the definitions of `TableAfter` and `GoesOn` for one call: call `k` processes its page into the table left by the calls before it, and goes on exactly when the page is non-empty and full and fewer than `limit` tags are known |
| DockerTags.CallsFrom | bin/query-artifactory/query_artifactory.py:150 | the loop makes between 1 and 50 calls |
| DockerTags.CallsFromStops | bin/query-artifactory/query_artifactory.py:150-209 | every call but the last lets the loop go on, and the last one stops it unless the cap was reached |
| DockerTags.CrawlAll | bin/query-artifactory/query_artifactory.py:143-209 | the crawl makes 1 to 50 calls and leaves the table of the pages it fetched, without repeated tags |
| DockerTags.CrawlWhenStopped | bin/query-artifactory/query_artifactory.py:160-207 | the crawl ends after call `k` when it is the first call with an empty page, `limit` tags reached or a short page |
| DockerTags.CrawlWhenCapped | bin/query-artifactory/query_artifactory.py:150 | the crawl ends after 50 calls when none of them stopped it |
| DockerTags.AllGoOnEach | bin/query-artifactory/query_artifactory.py:150-209 | when each of the first `n` calls went on, every one of them did |
| DockerTags.CrawlEnd | bin/query-artifactory/query_artifactory.py:150-209 | a loop that stops at its first stopping call, or after 50 calls, made exactly the crawl's calls |
| DockerTags.CrawlGoesOnBeforeLast | bin/query-artifactory/query_artifactory.py:160-209 | every call before the last had a full page and left fewer than `limit` tags |
| DockerTags.CrawlLastStops | bin/query-artifactory/query_artifactory.py:160-207 | the last call stopped the loop unless it was the 50th |
| DockerTags.CrawlStopsAtFirstExit | bin/query-artifactory/query_artifactory.py:150-209 | the crawl stops at the first call that meets a stop condition, or after 50 calls |
| DockerTags.CrawlKeepsNewest | bin/query-artifactory/query_artifactory.py:143-209 | after the crawl, the table keeps the newest artifact (first seen on ties) of every matching tag on the fetched pages, and no other tag |
| DockerTags.CrawlEmptyFirstPage | bin/query-artifactory/query_artifactory.py:160-162 | an empty first page ends the crawl after one call with no tags |
| DockerTags.Report | bin/query-artifactory/query_artifactory.py:220-239 | no tags give no lines, and never more than `limit` lines; `ReportShape` states the rest |
| DockerTags.Lines | bin/query-artifactory/query_artifactory.py:227-235 | one line per tag, in the table's insertion order; `LinesRender` states what each line shows |
| DockerTags.ReportIsSortedPrefix | bin/query-artifactory/query_artifactory.py:238 | the report is a prefix of the sorted lines, of length `min(limit, #tags)` (Python slicing for negative `limit`) |
| DockerTags.SortedPrefix | bin/query-artifactory/query_artifactory.py:238 | a cut sorted list stays sorted, and no line left out is greater than a line kept |
| DockerTags.ReportShape | bin/query-artifactory/query_artifactory.py:220-239 | the report is in descending order, has the sliced length, holds only lines of the table, and holds the greatest ones |
| DockerTags.LinesRender | bin/query-artifactory/query_artifactory.py:228-235 | every line is the rendering of some tag of the table |
| DockerTags.ReportRenders | bin/query-artifactory/query_artifactory.py:228-239 | every reported line renders a tag of the table |
| DockerTags.ReportOfEmptyTable | bin/query-artifactory/query_artifactory.py:220-224 | no tags gives no lines, whatever the limit |
| DockerTags.ReportNewestFirst | bin/query-artifactory/query_artifactory.py:237-238 | with fixed-width timestamps, a line never has an older timestamp than a line after it |
| DockerTags.LinesDistinct | bin/query-artifactory/query_artifactory.py:227-235 | when the tags have one length, no two tags of the table render the same line, whatever the timestamps |
| DockerTags.ReportTagsDistinct | bin/query-artifactory/query_artifactory.py:227-238 | when the tags have one length, no tag is reported twice, whatever the timestamps |
| DockerTags.CrawlReportDistinct | bin/query-artifactory/query_artifactory.py:134-239 | the report of a whole crawl never shows a tag twice, whatever the timestamps, including a missing `created` read as "" (line 177) |
| DockerTags.CrawlReportDistinctNewestFirst | bin/query-artifactory/query_artifactory.py:134-239 | the report of a whole crawl shows no tag twice, and is newest first when the timestamps have one width |
| QueryTool.RepoEnvironment | bin/query-artifactory/query_artifactory.py:129-132 | a repository name read back gives an environment that rebuilds the same name |
| QueryTool.RepoName | bin/query-artifactory/query_artifactory.py:130-132 | the naming scheme; `RepoNameRoundTrip` proves the name determines the environment |
| QueryTool.RepoNameRoundTrip | bin/query-artifactory/query_artifactory.py:129-132 | the repository name determines the environment it was made for |
| QueryTool.DevRepoNames | bin/query-artifactory/query_artifactory.py:127-132 | the dev repositories are dexcom-docker-dev-virtual, dexcom-helm-dev-virtual and dexcom-pypi-dev-local |
| QueryTool.NewQueryTool | bin/query-artifactory/query_artifactory.py:127-132 | the Docker and Helm repositories are the environment's virtual ones, the PyPI one its local one, and "dev" is the default |
| QueryTool.ArtifactoryQueryTool.DockerPattern | bin/query-artifactory/query_artifactory.py:143 | the Docker search pattern; `QueryDocker` states that every search uses it |
| QueryTool.ArtifactoryQueryTool.HelmPattern | bin/query-artifactory/query_artifactory.py:243 | the Helm search pattern; `QueryHelm` states that the search uses it |
| QueryTool.ArtifactoryQueryTool.PypiPattern | bin/query-artifactory/query_artifactory.py:265 | the PyPI search pattern; `QueryPypi` states that the search uses it |
| QueryTool.ArtifactoryQueryTool.RecordBatch | bin/query-artifactory/query_artifactory.py:166-186 | the batch loop updates the table exactly as the per-artifact rule does |
| QueryTool.ArtifactoryQueryTool.FetchPage | bin/query-artifactory/query_artifactory.py:144-207 | one pass of the paging loop fetches call `k`'s page, leaves the table of the first `k + 1` calls, and goes on exactly when the crawl does |
| QueryTool.ArtifactoryQueryTool.CollectTags | bin/query-artifactory/query_artifactory.py:143-209 | the paging loop makes exactly the crawl's calls, call `k` with limit 100 and offset `100 * k`, and leaves the crawl's table |
| QueryTool.ArtifactoryQueryTool.QueryDocker | bin/query-artifactory/query_artifactory.py:134-239 | the result is the report of the crawled table, and the searches made are the crawl's pages in order |
| QueryTool.ArtifactoryQueryTool.QueryHelm | bin/query-artifactory/query_artifactory.py:241-261 | one search for `<helm repo>/<item>/*.tgz` with the given limit, and one chart line per artifact in the order returned |
| QueryTool.ArtifactoryQueryTool.QueryPypi | bin/query-artifactory/query_artifactory.py:263-279 | one search for `<pypi repo>/<item>/*.whl` with the given limit, and one package line per artifact in the order returned |

## Left out

- `JFrogClient._run_command` is not modelled: running the subprocess, its 30-second timeout, a missing `jf` binary and the logged errors. A failed or undecodable search is the `SearchSource` returning `[]`.
- `json.loads` is not modelled. An artifact is a record of four strings, and a field missing from the JSON reads as "". Values that are not strings, and JSON that is valid but is not a list of objects, are outside the model.
- The output of `curl` is not modelled; only the argument list it runs is.
- `all_tags` and `batch_tag_count` are left out: they feed only debug logging. All logging, colours, `main`, argument parsing and printing are left out too.
- The other scripts of the repository are not part of this model.
- DockerTags.ReportNewestFirst: proved only when every kept timestamp has the same width. The tool sorts whole lines as strings, so "newest first" follows from that order only for fixed-width ISO 8601 timestamps.
- DockerTags.ReportTagsDistinct: stated for tables whose tags all have one length. Every table a crawl builds is one of them (`KeptTagsHaveLength`), so `CrawlReportDistinct` needs no assumption.
- DockerTags.CrawlReportDistinctNewestFirst: its newest-first half assumes fixed-width timestamps, for the reason given for `ReportNewestFirst`; its no-repeat half assumes nothing.
- QueryTool.ArtifactoryQueryTool.QueryDocker: `query_docker` is one Python function; the model splits it into methods that call each other. `RecordBatch` is the loop over one batch (lines 166-186). `FetchPage` is one pass of the paging loop (lines 144-207), and `CollectTags` is the paging loop itself (lines 143-209). `QueryDocker` calls `CollectTags`, then formats and sorts the lines (lines 220-239).
- QueryTool.ArtifactoryQueryTool.QueryDocker: the searches it makes are reported as a ghost sequence, because the model's search has no observable side effect.
