/**
 * The scorecard document fetched per commit and the row written to the warehouse,
 * with the row mapper that builds one from the other. The overall score and the
 * checks are never computed with, only copied.
 */
module Scorecard {
  import opened GoStrconv
  import opened CommitLog

  /** A Go `float64`, kept as its IEEE 754 bit pattern: it is only ever copied. */
  datatype Float64 = Float64(bits: bv64)

  datatype Documentation = Documentation(short: string, url: string)

  /** One check result: its name, its integer score, the reason, details and documentation links. */
  datatype Check = Check(name: string, score: int64, reason: string, details: seq<string>, documentation: Documentation)

  /** The repository and commit a scorecard or a row is about. */
  datatype RepoRef = RepoRef(name: string, commit: string)

  /** The version and commit of the scorecard tool that produced the scores. */
  datatype ScorecardVersion = ScorecardVersion(version: string, commit: string)

  /** `ScorecardData`: the decoded response of the scorecard API. */
  datatype ScorecardData = ScorecardData(
    date: Time, repo: RepoRef, scorecard: ScorecardVersion, score: Float64, checks: seq<Check>)

  /** `ScorecardRow`: the shape inserted into the warehouse table. */
  datatype ScorecardRow = ScorecardRow(
    date: Time, repo: RepoRef, scorecard: ScorecardVersion, score: Float64, checks: seq<Check>)

  /** `fmt.Sprintf("github.com/%s/%s", project, repo)`. */
  function RepoName(project: string, repo: string): (name: string)
    ensures |name| == |"github.com/"| + |project| + 1 + |repo|
    ensures name[..|"github.com/"|] == "github.com/"
  {
    "github.com/" + project + "/" + repo
  }

  /**
   * The row for a commit: its time and hash come from the commit record, the
   * repository name is synthesized from `project` and `repo`, and the scorecard
   * version, score and checks come from the fetched data.
   */
  function MapRow(commit: RepoData, data: ScorecardData, project: string, repo: string): ScorecardRow
  {
    ScorecardRow(
      commit.date,
      RepoRef(RepoName(project, repo), commit.commit),
      ScorecardVersion(data.scorecard.version, data.scorecard.commit),
      data.score,
      data.checks)
  }

  /**
   * Two rows for the same project and repository are equal exactly when the commit
   * hashes and times agree and the fetched scorecard version, score and checks agree:
   * those are copied unchanged, and the commit's directory and the fetched date and
   * repository fields play no part.
   */
  lemma MapRowDependsOn(c1: RepoData, d1: ScorecardData, c2: RepoData, d2: ScorecardData, project: string, repo: string)
    ensures MapRow(c1, d1, project, repo) == MapRow(c2, d2, project, repo) <==>
      && c1.commit == c2.commit && c1.date == c2.date
      && d1.scorecard == d2.scorecard && d1.score == d2.score && d1.checks == d2.checks
  {
  }

  /** The synthesized name identifies the project and repository when the project has no '/'. */
  lemma {:induction false} RepoNameInjective(p1: string, r1: string, p2: string, r2: string)
    requires '/' !in p1 && '/' !in p2
    ensures RepoName(p1, r1) == RepoName(p2, r2) <==> p1 == p2 && r1 == r2
  {
    if RepoName(p1, r1) == RepoName(p2, r2) {
      var n := RepoName(p1, r1);
      var k := |"github.com/"|;
      assert n[k..] == p1 + "/" + r1 == p2 + "/" + r2 by {
        assert RepoName(p1, r1)[k..] == p1 + "/" + r1;
        assert RepoName(p2, r2)[k..] == p2 + "/" + r2;
      }
      SlashSplit(p1, r1, p2, r2);
    }
  }

  /** `p + "/" + r` splits uniquely at its first '/'. */
  lemma {:induction false} SlashSplit(p1: string, r1: string, p2: string, r2: string)
    requires '/' !in p1 && '/' !in p2
    requires p1 + "/" + r1 == p2 + "/" + r2
    ensures p1 == p2 && r1 == r2
  {
    var s := p1 + "/" + r1;
    assert s[0] == if p1 == [] then '/' else p1[0];
    assert s[0] == if p2 == [] then '/' else p2[0];
    if p1 != [] {
      assert s[1..] == p1[1..] + "/" + r1;
      assert s[1..] == p2[1..] + "/" + r2;
      SlashSplit(p1[1..], r1, p2[1..], r2);
      assert p1 == [p1[0]] + p1[1..];
      assert p2 == [p2[0]] + p2[1..];
    } else {
      assert r1 == s[1..] == r2;
    }
  }

  /** With a '/' inside the project name, two different pairs give the same repository name. */
  lemma RepoNameAmbiguous()
    ensures RepoName("a/b", "c") == RepoName("a", "b/c")
  {
  }
}
