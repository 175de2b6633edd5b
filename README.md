# scorecard-commits backfill, modelled in Dafny

The program backfills OpenSSF Scorecard results for the recent commits of a git
repository. `getCommitsFromDate` runs `git log --format=%H,%ct` and parses its output
into commit records. The `main` loop then fetches the scorecard for each commit from
the scorecard API, maps it to a `ScorecardRow` and inserts the row into a BigQuery
table. A failed fetch or insert skips only that commit.

This project models the three deterministic parts of `main.go`:

- **The commit-log parser** (`commit_log.dfy`, module `CommitLog`). `ParseLine`,
  `ParseLines` and `ParseLog` are the specification. `GetCommitsFromDate` is the Go
  loop written as a Dafny `for` loop with `continue`, and it is proved equal to
  `ParseLog`. The lemmas pin down the skip-on-malformed behaviour:
  - a line is kept exactly when it is `hash,ts` with one comma and `ts` parses;
  - a skipped line does not affect the lines around it;
  - the output has no more records than lines, and every record names the repository
    directory;
  - blank output gives no records;
  - parsing what `git log` prints gives back the printed commits, in order
    (`ParseGitLog`).
- **The Go library calls the parser relies on**. `strings.Split`, `strings.TrimSpace`
  and `unicode.IsSpace` are in `go_strings.dfy`. `strconv.ParseInt(s, 10, 64)` is in
  `go_strconv.dfy`, with `FormatInt`, the decimal rendering git prints for `%ct`, used
  to state the round trip. Split and Join are proved inverse both ways. `ParseInt` is
  proved to invert `FormatInt` on the whole int64 range, to accept a sign, and to reject empty text, trailing non-digits and overflow.
- **The row mapper** (`scorecard.dfy`, module `Scorecard`). `MapRow` is the struct
  literal at main.go:115-133. `RepoName` is the `github.com/<project>/<repo>` name.
- **The driving loop** (`backfill.dfy`, module `Backfill`). `ProcessCommits` is the
  `for range commits` loop. The network fetch and the warehouse insert are inputs: one
  `Attempt` per commit. The method is proved to report one outcome per commit and to
  save exactly `SavedRows`. The lemmas show that a failing commit only removes its own
  row, that a succeeding commit adds exactly its mapped row, and that the whole pipeline
  applied to `git log` output saves the mapped rows of the succeeding commits.

Representation choices:

- `time.Time` is `Time = Unix(seconds: int64)`, the value `time.Unix(t, 0)` was built from.
- The float64 `Score` is `Float64(bits: bv64)`, because it is only copied.
- Go's `int` check score is `int64`.
- Strings are sequences of Unicode code points.

A failed `git log` (main.go:100-103) and an unparsable day count (main.go:90-94) print
an error and `return` from `main`, so the process exits with status 0. The 100-commit
limit is git's `-n 100` (main.go:150), not the parser's, so it is not a property of the
model.

## Model

| member | source | states |
|---|---|---|
| GoStrings.Split | main.go:158-159 | `strings.Split` with a one-character separator gives one piece more than there are separators, and no piece contains the separator |
| GoStrings.JoinSplit | main.go:158-159 | joining the pieces of a split with the separator gives back the original text |
| GoStrings.SplitJoin | main.go:158-159 | splitting a join of separator-free pieces gives back exactly those pieces |
| GoStrings.TrimSpace | main.go:158 | the trimmed output is a slice of the output, only white space was cut, and it neither starts nor ends with white space |
| GoStrings.TrimSpaceAllSpace | main.go:158 | output made only of white space trims to the empty string |
| GoStrings.TrimSpaceTrailing | main.go:158 | text that neither starts nor ends with white space keeps all its characters when trailing white space (git's final line break) is trimmed |
| GoStrconv.ParseInt | main.go:164 | accepted text is an optional sign followed by at least one decimal digit and nothing else, and it ends with a digit |
| GoStrconv.ParseFormatInt | main.go:164 | parsing the decimal rendering of any int64 gives back that int64 |
| GoStrconv.ParsePlusSign | main.go:164 | a leading '+' is accepted and does not change the value |
| GoStrconv.ParseOverflow | main.go:164-167 | a magnitude above 2^63, signed or unsigned, is an error |
| GoStrconv.ParseBoundary | main.go:164-167 | 2^63 is an error unsigned but parses as the minimum int64 with a '-' |
| GoStrconv.ParseRejects | main.go:164-167 | empty text, a lone sign, an inner non-digit (`12a3`), a doubled sign (`+-5`), and text ending in a non-digit such as a space are errors |
| CommitLog.Lines | main.go:158 | the trimmed output always splits into at least one line |
| CommitLog.GetCommitsFromDate | main.go:148-176 | a failed git command is the only error and is passed through unchanged; otherwise the loop returns exactly `ParseLog` of the output, so parsing never fails |
| CommitLog.ParseLineFields | main.go:159-171 | a line `h,ts` without other commas gives the record with commit `h` verbatim, time `time.Unix(ts, 0)` and name `repoDir` when `ts` parses, and is skipped when it does not |
| CommitLog.ParseLineFieldCount | main.go:159-162 | a line with no comma, or with two or more commas, is skipped |
| CommitLog.ParseLineKept | main.go:159-171 | a kept line is exactly the record's commit, a comma, and a comma-free field that parses to the record's time; the record's name is `repoDir` |
| CommitLog.ParseLinesAppend | main.go:157-173 | the records of two blocks of lines are the records of the first followed by those of the second, so line order is kept |
| CommitLog.SkipMalformed | main.go:159-167 | a skipped line leaves the records of the lines before and after it as if it were absent |
| CommitLog.ParseLinesBounds | main.go:157-173 | there are at most as many records as lines, every record is the record of some line, and every record's name is `repoDir` |
| CommitLog.ParseLinesAllKept | main.go:157-173 | when every line is kept, record i is the record of line i |
| CommitLog.ParseLogBlank | main.go:158-162 | empty or white-space-only output yields no records |
| CommitLog.ParseLogBounds | main.go:157-175 | the number of records is at most the number of lines of the trimmed output, every record is the record of one of those lines, and every record names `repoDir` |
| CommitLog.LogLineParses | main.go:150-171 | a `%H,%ct` line for a hexadecimal hash contains no line break and parses to the record for that hash and time |
| CommitLog.GitLogLines | main.go:150-158 | trimming and splitting the output of `git log` gives back the printed lines |
| CommitLog.ParseGitLog | main.go:150-175 | parsing the output `git log --format=%H,%ct` prints for some commits gives exactly their records, in the printed order |
| Scorecard.RepoName | main.go:121 | the synthesized name starts with `github.com/` and has the length of `github.com/<project>/<repo>` |
| Scorecard.MapRowDependsOn | main.go:115-133 | two mapped rows are equal exactly when the commit hash and time and the fetched scorecard version, score and checks are equal; the fetched date and repository and the commit's directory are ignored |
| Scorecard.RepoNameInjective | main.go:121 | for project names without '/', the synthesized name determines the project and the repository |
| Scorecard.RepoNameAmbiguous | main.go:121 | a '/' in the project name lets two different project/repository pairs give the same name |
| Backfill.ProcessCommits | main.go:106-143 | every commit is attempted in order with one reported outcome each, and the saved rows are exactly `SavedRows` |
| Backfill.Run | main.go:99-143 | a failed commit listing saves nothing and reports nothing; otherwise report entry i is the outcome of parsed commit i, and the saved rows are `SavedRows` of the parsed records |
| Backfill.RunOnGitLog | main.go:99-175 | on `git log` output, the rows saved are the mapped rows of the printed commits whose fetch and insert succeeded, in printed order |
| Backfill.SavedRowsAppend | main.go:106-143 | the rows saved for two batches of commits are those of the first batch followed by those of the second |
| Backfill.FailureSkipsOnlyThatCommit | main.go:106-143 | a commit whose fetch or insert fails adds no row and does not stop the commits after it |
| Backfill.SuccessSavesMappedRow | main.go:114-142 | a commit whose fetch and insert both succeed adds exactly its mapped row, between the rows of the commits before and after it |
| Backfill.SavedRowsBounds | main.go:106-143 | at most one row is saved per commit, and every saved row carries the synthesized repository name |
| Backfill.SavedRowsAreReported | main.go:106-143 | the saved rows are exactly the rows of the commits reported as saved, in the same order |
| Backfill.OneCommitExample | main.go:115-133 | commit `abc123` at time T1 with a fetched score of 7.5 saves one row with that score, those checks, commit `abc123` and time T1 |

## Left out

- Running `git log`: the `--since` date, `-n 100` and the working directory (main.go:150-152). The command's result is an input to `GetCommitsFromDate`. The 100-commit limit is git's, not the parser's.
- `getScorecardData` (main.go:178-198): the HTTP request, reading the body and JSON decoding. Its result for each commit is `Attempt.fetch`, with a failure at any of those steps as `Err`.
- `saveToBigQuery` (main.go:200-218): the BigQuery client, the `openssf`/`phren`/`scorecard` table and the insert. Its result for each row is `Attempt.save`, which is ignored when the fetch already failed.
- Command-line handling (main.go:78-98): the usage check, the `days` argument (default 20) and its `strconv.Atoi` parse, and `time.Now().AddDate`. These depend on the environment.
- Console output: the per-commit messages become `CommitOutcome` values. The final "All data saved" line, printed whatever the outcomes, is not modelled.
- GoStrconv.ParseInt: a syntax error and a range error are both `None`, because the parser discards the error value.
- GoStrings.TrimSpace: strings are Unicode code points rather than UTF-8 bytes, so invalid UTF-8 in the output is not modelled.
- The fetched `date` is kept only as Unix seconds, with no sub-second part or zone. It is never copied into a row.
- The unused Go types `ScoreCardVersion` and `Commit` (main.go:40-47) have no counterpart of their own.
