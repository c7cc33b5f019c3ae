/**
 * How `ArtifactoryQueryTool` renders an artifact: the shortened digest and
 * the Docker, Helm and PyPI result lines (query_artifactory.py lines
 * 228-235, 246-259 and 268-277).
 */
module Formatting {
  import opened PyStrings
  import opened JFrogClient

  /**
   * The digest shown for an artifact: the first eight characters of `sha1`,
   * of `actualSha1` when `sha1` is empty or missing, and "unknown" when both are.
   */
  function ShortSha(a: Artifact): (sha: string)
    ensures sha != ""
    ensures a.sha1 != "" ==> sha <= a.sha1 && |sha| == Min(8, |a.sha1|)
    ensures a.sha1 == "" && a.actualSha1 != "" ==> sha <= a.actualSha1 && |sha| == Min(8, |a.actualSha1|)
    ensures a.sha1 == "" && a.actualSha1 == "" ==> sha == "unknown"
  {
    var digest := if a.sha1 != "" then a.sha1 else a.actualSha1;
    var short := SliceTo(digest, 8);
    if short != "" then short else "unknown"
  }

  /** The Docker result line for `tag`, kept with `created` and `artifact`. */
  function DockerLine(repo: string, item: string, tag: string, created: string, artifact: Artifact): string
  {
    created + " " + repo + "/" + item + ", Tag: " + tag + " (JFrog sha: " + ShortSha(artifact) + ")"
  }

  /** A Docker line begins with the timestamp it was made from. */
  lemma DockerLineStartsWithCreated(repo: string, item: string, tag: string, created: string, artifact: Artifact)
    ensures |created| <= |DockerLine(repo, item, tag, created, artifact)|
    ensures DockerLine(repo, item, tag, created, artifact)[..|created|] == created
  {
    var rest := " " + repo + "/" + item + ", Tag: " + tag + " (JFrog sha: " + ShortSha(artifact) + ")";
    assert DockerLine(repo, item, tag, created, artifact) == created + rest;
  }

  /** Shifted by 1 to 7 characters, " (JFrog sha: " disagrees with itself in its first two characters. */
  lemma ShaLabelNoPeriod()
    ensures forall d :: 1 <= d <= 7 ==> " (JFrog sha: "[d] != ' ' || " (JFrog sha: "[d + 1] != '('
  {
  }

  /**
   * The label in front of the digest, " (JFrog sha: ", never lines up with
   * itself at a shift of 1 to 7 characters: two copies of it in one string
   * start at the same place or more than 7 apart.
   */
  lemma ShaLabelNotShifted(line: string, p: nat, q: nat)
    requires p + 13 <= |line| && line[p..p + 13] == " (JFrog sha: "
    requires q + 13 <= |line| && line[q..q + 13] == " (JFrog sha: "
    ensures p == q || p + 7 < q || q + 7 < p
  {
    var shaLabel := " (JFrog sha: ";
    ShaLabelNoPeriod();
    assert line[p] == line[p..p + 13][0] == ' ' && line[p + 1] == line[p..p + 13][1] == '(';
    assert line[q] == line[q..q + 13][0] == ' ' && line[q + 1] == line[q..q + 13][1] == '(';
    assert forall j :: p <= j < p + 13 ==> line[j] == line[p..p + 13][j - p] == shaLabel[j - p];
    assert forall j :: q <= j < q + 13 ==> line[j] == line[q..q + 13][j - q] == shaLabel[j - q];
  }

  /** The label " (JFrog sha: " sits right after the tag in a Docker line. */
  lemma ShaLabelAt(repo: string, item: string, tag: string, created: string, artifact: Artifact)
    ensures var front := created + " " + repo + "/" + item + ", Tag: " + tag;
      var line := DockerLine(repo, item, tag, created, artifact);
      |line| == |front| + 13 + |ShortSha(artifact)| + 1 &&
      line[|front|..|front| + 13] == " (JFrog sha: "
  {
    var front := created + " " + repo + "/" + item + ", Tag: " + tag;
    var shaLabel := " (JFrog sha: ";
    var rest := ShortSha(artifact) + ")";
    assert DockerLine(repo, item, tag, created, artifact) == front + shaLabel + rest;
    assert (front + shaLabel + rest)[|front|..|front| + 13] == shaLabel;
  }

  /**
   * Two equal Docker lines show digests of one width, and so spend the same
   * number of characters on timestamp and tag together: a digest has 1 to 8
   * characters, and the shaLabel in front of it cannot be shifted onto itself.
   */
  lemma DockerLineShaWidth(repo: string, item: string,
                           tag1: string, created1: string, artifact1: Artifact,
                           tag2: string, created2: string, artifact2: Artifact)
    requires DockerLine(repo, item, tag1, created1, artifact1) == DockerLine(repo, item, tag2, created2, artifact2)
    ensures |ShortSha(artifact1)| == |ShortSha(artifact2)|
    ensures |created1| + |tag1| == |created2| + |tag2|
  {
    var line := DockerLine(repo, item, tag1, created1, artifact1);
    var front1 := created1 + " " + repo + "/" + item + ", Tag: " + tag1;
    var front2 := created2 + " " + repo + "/" + item + ", Tag: " + tag2;
    ShaLabelAt(repo, item, tag1, created1, artifact1);
    ShaLabelAt(repo, item, tag2, created2, artifact2);
    assert 1 <= |ShortSha(artifact1)| <= 8 && 1 <= |ShortSha(artifact2)| <= 8;
    ShaLabelNotShifted(line, |front1|, |front2|);
  }

  /**
   * A Docker line determines its tag and its timestamp when either the
   * timestamps have one width or the tags have one length.
   */
  lemma DockerLineDeterminesTag(repo: string, item: string,
                                tag1: string, created1: string, artifact1: Artifact,
                                tag2: string, created2: string, artifact2: Artifact)
    requires |created1| == |created2| || |tag1| == |tag2|
    requires DockerLine(repo, item, tag1, created1, artifact1) == DockerLine(repo, item, tag2, created2, artifact2)
    ensures tag1 == tag2 && created1 == created2
  {
    DockerLineShaWidth(repo, item, tag1, created1, artifact1, tag2, created2, artifact2);
    var line := DockerLine(repo, item, tag1, created1, artifact1);
    var head1 := created1 + " " + repo + "/" + item + ", Tag: ";
    var head2 := created2 + " " + repo + "/" + item + ", Tag: ";
    TaggedPrefix(repo, item, tag1, created1, artifact1);
    TaggedPrefix(repo, item, tag2, created2, artifact2);
    assert head1 + tag1 == line[..|head1 + tag1|] == head2 + tag2;
    CancelPrefix(head1, tag1, head2, tag2);
    DockerLineStartsWithCreated(repo, item, tag1, created1, artifact1);
    DockerLineStartsWithCreated(repo, item, tag2, created2, artifact2);
  }

  /** A Docker line starts with its timestamp, the repository, the item and the tag. */
  lemma TaggedPrefix(repo: string, item: string, tag: string, created: string, artifact: Artifact)
    ensures var front := created + " " + repo + "/" + item + ", Tag: " + tag;
      var line := DockerLine(repo, item, tag, created, artifact);
      |front| <= |line| && line[..|front|] == front
  {
    var front := created + " " + repo + "/" + item + ", Tag: " + tag;
    var withLabel := front + " (JFrog sha: ";
    var withSha := withLabel + ShortSha(artifact);
    var line := withSha + ")";
    assert line == DockerLine(repo, item, tag, created, artifact);
    PrefixOfConcat(withSha, ")");
    PrefixOfConcat(withLabel, ShortSha(artifact));
    PrefixOfConcat(front, " (JFrog sha: ");
    PrefixOfPrefix(front, withLabel, withSha);
    PrefixOfPrefix(front, withSha, line);
  }

  /** A prefix of a prefix is a prefix. */
  lemma PrefixOfPrefix(a: string, b: string, c: string)
    requires |a| <= |b| <= |c| && b[..|a|] == a && c[..|b|] == b
    ensures c[..|a|] == a
  {
    assert forall k :: 0 <= k < |a| ==> c[k] == b[k];
  }

  /** The first part of a concatenation is a prefix of it. */
  lemma PrefixOfConcat(a: string, b: string)
    ensures (a + b)[..|a|] == a
  {
  }

  /** Equal concatenations with equally long first parts have equal parts. */
  lemma CancelPrefix(a1: string, b1: string, a2: string, b2: string)
    requires a1 + b1 == a2 + b2 && |a1| == |a2|
    ensures a1 == a2 && b1 == b2
  {
    assert a1 == (a1 + b1)[..|a1|] && a2 == (a2 + b2)[..|a2|];
    assert b1 == (a1 + b1)[|a1|..] && b2 == (a2 + b2)[|a2|..];
  }

  /** The chart name shown for a Helm result: the file name with every ".tgz" removed. */
  function ChartName(path: string): string
  {
    RemoveAll(BaseName(path), ".tgz")
  }

  /** A chart stored as `dir/stem.tgz` is shown as `stem`. */
  lemma ChartNameOfChartPath(dir: string, stem: string)
    requires '/' !in stem && Free(stem, ".tgz")
    ensures ChartName(dir + "/" + (stem + ".tgz")) == stem
  {
    var file := stem + ".tgz";
    assert '/' !in file by {
      forall k | 0 <= k < |file| ensures file[k] != '/' {
        if k < |stem| { assert file[k] == stem[k]; }
      }
    }
    assert file[|file| - 1] == 'z';
    BaseNameOfChild(dir, file);
    RemoveTgzSuffix(stem);
  }

  /** The Helm result line (line 258). */
  function HelmLine(a: Artifact): string
  {
    a.created + " " + ChartName(a.path) + " (JFrog SHA: " + ShortSha(a) + ")"
  }

  /** A chart stored as `dir/stem.tgz` is shown as `stem` in its line. */
  lemma HelmLineShowsChart(a: Artifact, dir: string, stem: string)
    requires a.path == dir + "/" + (stem + ".tgz")
    requires '/' !in stem && Free(stem, ".tgz")
    ensures HelmLine(a) == a.created + " " + stem + " (JFrog SHA: " + ShortSha(a) + ")"
  {
    ChartNameOfChartPath(dir, stem);
  }

  /** The PyPI result line (line 276): the file name is shown unchanged. */
  function PypiLine(a: Artifact): string
  {
    a.created + " " + BaseName(a.path) + " (JFrog sha: " + ShortSha(a) + ")"
  }

  /** A package stored as `dir/file` is shown as `file`. */
  lemma PypiLineShowsFile(a: Artifact, dir: string, file: string)
    requires a.path == dir + "/" + file
    requires '/' !in file && IsPathName(file)
    ensures PypiLine(a) == a.created + " " + file + " (JFrog sha: " + ShortSha(a) + ")"
  {
    BaseNameOfChild(dir, file);
  }
}
