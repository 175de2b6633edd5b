/**
 * The driving loop of `main`: for every listed commit, fetch its scorecard, map it
 * to a row and insert the row. A failed fetch or a failed insert is reported and
 * only that commit is skipped; no step is retried and the run never aborts there.
 * The network fetch and the warehouse insert are not modelled: their answers for
 * each commit are given as inputs.
 */
module Backfill {
  import opened Wrappers
  import opened GoStrconv
  import opened CommitLog
  import opened Scorecard

  /**
   * What the outside world answers for one commit: the result of `getScorecardData`
   * (a failed request, body read or JSON decode is an `Err`), and the result of
   * `saveToBigQuery` should the row get that far.
   */
  datatype Attempt = Attempt(fetch: Result<ScorecardData, string>, save: Result<(), string>)

  /** What happened to one commit, as the run reports it. */
  datatype CommitOutcome =
    | FetchFailed(fetchError: string)
    | SaveFailed(row: ScorecardRow, saveError: string)
    | Saved(row: ScorecardRow)

  /** The outcome for one commit. */
  function Outcome(commit: RepoData, attempt: Attempt, project: string, repo: string): CommitOutcome
  {
    match attempt.fetch
    case Err(e) => FetchFailed(e)
    case Ok(data) =>
      var row := MapRow(commit, data, project, repo);
      match attempt.save
      case Err(e) => SaveFailed(row, e)
      case Ok(_) => Saved(row)
  }

  /** The rows that reach the warehouse, in commit order. */
  function SavedRows(commits: seq<RepoData>, attempts: seq<Attempt>, project: string, repo: string): seq<ScorecardRow>
    requires |attempts| == |commits|
  {
    if commits == [] then []
    else
      var n := |commits| - 1;
      var init := SavedRows(commits[..n], attempts[..n], project, repo);
      match Outcome(commits[n], attempts[n], project, repo)
      case Saved(row) => init + [row]
      case _ => init
  }

  /**
   * The `for range commits` loop: every commit is attempted, in order; each one's
   * outcome is reported, and the rows saved are exactly those of `SavedRows`.
   */
  method ProcessCommits(commits: seq<RepoData>, attempts: seq<Attempt>, project: string, repo: string)
    returns (saved: seq<ScorecardRow>, report: seq<CommitOutcome>)
    requires |attempts| == |commits|
    ensures |report| == |commits|
    ensures forall i | 0 <= i < |commits| :: report[i] == Outcome(commits[i], attempts[i], project, repo)
    ensures saved == SavedRows(commits, attempts, project, repo)
  {
    saved, report := [], [];
    for i := 0 to |commits|
      invariant |report| == i
      invariant forall k | 0 <= k < i :: report[k] == Outcome(commits[k], attempts[k], project, repo)
      invariant saved == SavedRows(commits[..i], attempts[..i], project, repo)
    {
      assert commits[..i + 1][..i] == commits[..i];
      assert attempts[..i + 1][..i] == attempts[..i];
      var commit := commits[i];
      var scorecardData := attempts[i].fetch;
      if scorecardData.Err? {
        report := report + [FetchFailed(scorecardData.error)];
        continue;
      }
      // The struct literal of `main`, which `MapRow` specifies.
      var row := ScorecardRow(
        commit.date,
        RepoRef(RepoName(project, repo), commit.commit),
        ScorecardVersion(scorecardData.value.scorecard.version, scorecardData.value.scorecard.commit),
        scorecardData.value.score,
        scorecardData.value.checks);
      var err := attempts[i].save;
      if err.Err? {
        report := report + [SaveFailed(row, err.error)];
        continue;
      }
      saved := saved + [row];
      report := report + [Saved(row)];
    }
    assert commits[..|commits|] == commits;
    assert attempts[..|attempts|] == attempts;
  }

  /**
   * `main` from the commit listing on: a failed `git log` ends the run with nothing
   * saved; otherwise every listed commit is processed.
   */
  method Run(repoDir: string, project: string, repo: string,
             gitOutput: Result<string, ProcessError>, attempts: seq<Attempt>)
    returns (saved: seq<ScorecardRow>, report: seq<CommitOutcome>)
    requires gitOutput.Ok? ==> |attempts| == |ParseLog(gitOutput.value, repoDir)|
    ensures gitOutput.Err? ==> saved == [] && report == []
    ensures gitOutput.Ok? ==> saved == SavedRows(ParseLog(gitOutput.value, repoDir), attempts, project, repo)
    ensures gitOutput.Ok? ==> |report| == |ParseLog(gitOutput.value, repoDir)|
    ensures gitOutput.Ok? ==> forall i | 0 <= i < |report| ::
      report[i] == Outcome(ParseLog(gitOutput.value, repoDir)[i], attempts[i], project, repo)
  {
    var commits := GetCommitsFromDate(repoDir, gitOutput);
    if commits.Err? {
      return [], [];
    }
    saved, report := ProcessCommits(commits.value, attempts, project, repo);
  }

  // ---------------------------------------------------------------------------
  // Properties of the loop

  /** The rows saved for two batches of commits are those of the first followed by those of the second. */
  lemma {:induction false} SavedRowsAppend(
    c1: seq<RepoData>, a1: seq<Attempt>, c2: seq<RepoData>, a2: seq<Attempt>, project: string, repo: string)
    requires |a1| == |c1| && |a2| == |c2|
    ensures SavedRows(c1 + c2, a1 + a2, project, repo) ==
            SavedRows(c1, a1, project, repo) + SavedRows(c2, a2, project, repo)
    decreases |c2|
  {
    if c2 == [] {
      assert c1 + c2 == c1 && a1 + a2 == a1;
    } else {
      var n := |c2| - 1;
      SavedRowsAppend(c1, a1, c2[..n], a2[..n], project, repo);
      assert (c1 + c2)[..|c1| + n] == c1 + c2[..n];
      assert (a1 + a2)[..|a1| + n] == a1 + a2[..n];
      assert (c1 + c2)[|c1| + n] == c2[n] && (a1 + a2)[|a1| + n] == a2[n];
    }
  }

  /**
   * A commit whose fetch or insert fails contributes no row and does not stop the
   * commits after it from being processed.
   */
  lemma FailureSkipsOnlyThatCommit(
    c1: seq<RepoData>, a1: seq<Attempt>, c: RepoData, a: Attempt, c2: seq<RepoData>, a2: seq<Attempt>,
    project: string, repo: string)
    requires |a1| == |c1| && |a2| == |c2|
    requires a.fetch.Err? || a.save.Err?
    ensures SavedRows(c1 + [c] + c2, a1 + [a] + a2, project, repo) ==
            SavedRows(c1, a1, project, repo) + SavedRows(c2, a2, project, repo)
  {
    SavedRowsAppend(c1 + [c], a1 + [a], c2, a2, project, repo);
    SavedRowsAppend(c1, a1, [c], [a], project, repo);
    assert [c][..0] == [] && [a][..0] == [];
  }

  /** A commit whose fetch and insert both succeed contributes exactly its mapped row. */
  lemma SuccessSavesMappedRow(
    c1: seq<RepoData>, a1: seq<Attempt>, c: RepoData, data: ScorecardData, c2: seq<RepoData>, a2: seq<Attempt>,
    project: string, repo: string)
    requires |a1| == |c1| && |a2| == |c2|
    ensures SavedRows(c1 + [c] + c2, a1 + [Attempt(Ok(data), Ok(()))] + a2, project, repo) ==
            SavedRows(c1, a1, project, repo) + [MapRow(c, data, project, repo)] + SavedRows(c2, a2, project, repo)
  {
    var a := Attempt(Ok(data), Ok(()));
    SavedRowsAppend(c1 + [c], a1 + [a], c2, a2, project, repo);
    SavedRowsAppend(c1, a1, [c], [a], project, repo);
    assert [c][..0] == [] && [a][..0] == [];
  }

  /** At most one row per commit is saved, and every saved row names the synthesized repository. */
  lemma {:induction false} SavedRowsBounds(commits: seq<RepoData>, attempts: seq<Attempt>, project: string, repo: string)
    requires |attempts| == |commits|
    ensures |SavedRows(commits, attempts, project, repo)| <= |commits|
    ensures forall k | 0 <= k < |SavedRows(commits, attempts, project, repo)| ::
      SavedRows(commits, attempts, project, repo)[k].repo.name == RepoName(project, repo)
  {
    if commits != [] {
      var n := |commits| - 1;
      SavedRowsBounds(commits[..n], attempts[..n], project, repo);
    }
  }

  /** The saved rows are exactly the rows reported as saved, in the same order. */
  lemma {:induction false} SavedRowsAreReported(commits: seq<RepoData>, attempts: seq<Attempt>, project: string, repo: string)
    requires |attempts| == |commits|
    ensures SavedRows(commits, attempts, project, repo) == SavedIn(Outcomes(commits, attempts, project, repo))
  {
    if commits != [] {
      var n := |commits| - 1;
      SavedRowsAreReported(commits[..n], attempts[..n], project, repo);
      assert Outcomes(commits, attempts, project, repo)[..n] == Outcomes(commits[..n], attempts[..n], project, repo);
    }
  }

  /** The per-commit outcomes, in commit order. */
  function Outcomes(commits: seq<RepoData>, attempts: seq<Attempt>, project: string, repo: string): seq<CommitOutcome>
    requires |attempts| == |commits|
  {
    seq(|commits|, i requires 0 <= i < |commits| => Outcome(commits[i], attempts[i], project, repo))
  }

  /** The rows of the `Saved` outcomes of a report. */
  function SavedIn(report: seq<CommitOutcome>): seq<ScorecardRow>
  {
    if report == [] then []
    else
      var init := SavedIn(report[..|report| - 1]);
      match report[|report| - 1]
      case Saved(row) => init + [row]
      case _ => init
  }

  // ---------------------------------------------------------------------------
  // End to end

  /**
   * One commit `abc123` at time T1 and a fetched scorecard with score 7.5 and a
   * `Binary-Artifacts` check: one row is saved, with that score and those checks,
   * commit `abc123`, time T1 and the synthesized repository name.
   */
  lemma OneCommitExample(t1: int64, project: string, repo: string, checkRest: Check)
    ensures
      var commit := RepoData("repo", "abc123", Unix(t1));
      var checks := [Check("Binary-Artifacts", 10, "no binaries found in the repo", [], Documentation("", "")), checkRest];
      var data := ScorecardData(Unix(0), RepoRef("", ""), ScorecardVersion("v4", "0a1b"), Float64(0x401E_0000_0000_0000), checks);
      SavedRows([commit], [Attempt(Ok(data), Ok(()))], project, repo) ==
        [ScorecardRow(Unix(t1), RepoRef(RepoName(project, repo), "abc123"), ScorecardVersion("v4", "0a1b"),
                      Float64(0x401E_0000_0000_0000), checks)]
  {
  }

  /**
   * From `git log` output to the warehouse: when the listing succeeds with what
   * `git log` printed for some commits, the rows saved are the mapped rows of those
   * commits whose fetch and insert succeeded, in the printed order.
   */
  method RunOnGitLog(entries: seq<LogEntry>, repoDir: string, project: string, repo: string, attempts: seq<Attempt>)
    returns (saved: seq<ScorecardRow>)
    requires forall i | 0 <= i < |entries| :: ValidHash(entries[i].hash)
    requires |attempts| == |entries|
    ensures saved == SavedRows(Records(entries, repoDir), attempts, project, repo)
  {
    ParseGitLog(entries, repoDir);
    var report;
    saved, report := Run(repoDir, project, repo, Ok(GitLog(entries)), attempts);
  }
}
