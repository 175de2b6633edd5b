/**
 * The commit lister: `getCommitsFromDate` runs `git log --format=%H,%ct` and turns
 * its output into commit records. Each line is `hash,unix-seconds`; a line that does
 * not split into exactly two comma-separated fields, or whose second field is not a
 * base-10 int64, is skipped, and the remaining lines keep their order.
 */
module CommitLog {
  import opened Wrappers
  import opened GoStrings
  import opened GoStrconv

  /** A `time.Time` built by `time.Unix(seconds, 0)`. */
  datatype Time = Unix(seconds: int64)

  /** `RepoData`: the repository directory, the commit hash and the commit time. */
  datatype RepoData = RepoData(name: string, commit: string, date: Time)

  /** The failure of the `git` subprocess, passed on unchanged. */
  datatype ProcessError = ProcessError(message: string)

  /** The record for one output line, or `None` when the line is skipped. */
  function ParseLine(line: string, repoDir: string): Option<RepoData>
  {
    var parts := Split(line, ',');
    if |parts| != 2 then None
    else
      match ParseInt(parts[1])
      case None => None
      case Some(t) => Some(RepoData(repoDir, parts[0], Unix(t)))
  }

  /** The records of the lines that are kept, in line order. */
  function ParseLines(lines: seq<string>, repoDir: string): seq<RepoData>
  {
    if lines == [] then []
    else
      var init := ParseLines(lines[..|lines| - 1], repoDir);
      match ParseLine(lines[|lines| - 1], repoDir)
      case None => init
      case Some(rec) => init + [rec]
  }

  /** The output lines: the trimmed output split at line breaks. */
  function Lines(output: string): (lines: seq<string>)
    ensures |lines| > 0
  {
    Split(TrimSpace(output), '\n')
  }

  /** The records `getCommitsFromDate` returns for a successful `git log` run with this output. */
  function ParseLog(output: string, repoDir: string): seq<RepoData>
  {
    ParseLines(Lines(output), repoDir)
  }

  /**
   * `getCommitsFromDate` once the command has run: a failed command is the only error,
   * passed through; otherwise the loop over the output lines collects the records and
   * the parse itself never fails.
   */
  method GetCommitsFromDate(repoDir: string, output: Result<string, ProcessError>)
    returns (r: Result<seq<RepoData>, ProcessError>)
    ensures output.Err? ==> r == Err(output.error)
    ensures output.Ok? ==> r == Ok(ParseLog(output.value, repoDir))
  {
    if output.Err? {
      return Err(output.error);
    }
    var lines := Split(TrimSpace(output.value), '\n');
    var commits: seq<RepoData> := [];
    for i := 0 to |lines|
      invariant commits == ParseLines(lines[..i], repoDir)
    {
      assert lines[..i + 1][..i] == lines[..i];
      var parts := Split(lines[i], ',');
      if |parts| != 2 {
        continue;
      }
      var commit := parts[0];
      var commitTime := ParseInt(parts[1]);
      if commitTime.None? {
        continue;
      }
      commits := commits + [RepoData(repoDir, commit, Unix(commitTime.value))];
    }
    assert lines[..|lines|] == lines;
    return Ok(commits);
  }

  // ---------------------------------------------------------------------------
  // One line

  /** A line `h,ts` with no other comma gives the record for `h` at time `ts`, if `ts` parses. */
  lemma ParseLineFields(h: string, ts: string, repoDir: string)
    requires ',' !in h && ',' !in ts
    ensures ParseLine(h + [','] + ts, repoDir) ==
      match ParseInt(ts)
      case None => None
      case Some(t) => Some(RepoData(repoDir, h, Unix(t)))
  {
    SplitJoin([h, ts], ',');
  }

  /** A line without exactly one comma (none, or two and more) is skipped. */
  lemma ParseLineFieldCount(line: string, repoDir: string)
    requires Count(line, ',') != 1
    ensures ParseLine(line, repoDir) == None
  {
  }

  /**
   * A kept line is exactly `commit,ts` for the record's commit, with a comma-free
   * `ts` that parses to the record's time, and the record names `repoDir`.
   */
  lemma ParseLineKept(line: string, repoDir: string, rec: RepoData)
    requires ParseLine(line, repoDir) == Some(rec)
    ensures rec.name == repoDir && ',' !in rec.commit
    ensures |rec.commit| < |line| && line[|rec.commit|] == ','
    ensures line == rec.commit + [','] + line[|rec.commit| + 1..]
    ensures ',' !in line[|rec.commit| + 1..]
    ensures ParseInt(line[|rec.commit| + 1..]) == Some(rec.date.seconds)
  {
    var parts := Split(line, ',');
    JoinSplit(line, ',');
    assert parts == [parts[0], parts[1]];
    assert Join(parts, ',') == parts[0] + [','] + parts[1];
    assert line[|rec.commit| + 1..] == parts[1];
  }

  // ---------------------------------------------------------------------------
  // Many lines

  /** Parsing is line by line: the records of two blocks of lines are concatenated. */
  lemma {:induction false} ParseLinesAppend(a: seq<string>, b: seq<string>, repoDir: string)
    ensures ParseLines(a + b, repoDir) == ParseLines(a, repoDir) + ParseLines(b, repoDir)
    decreases |b|
  {
    if b == [] {
      assert a + b == a;
    } else {
      var b' := b[..|b| - 1];
      ParseLinesAppend(a, b', repoDir);
      assert (a + b)[..|a + b| - 1] == a + b';
      assert (a + b)[|a + b| - 1] == b[|b| - 1];
    }
  }

  /** A skipped line does not stop the parse: the lines after it are parsed as if it were absent. */
  lemma SkipMalformed(before: seq<string>, line: string, after: seq<string>, repoDir: string)
    requires ParseLine(line, repoDir) == None
    ensures ParseLines(before + [line] + after, repoDir) ==
            ParseLines(before, repoDir) + ParseLines(after, repoDir)
  {
    ParseLinesAppend(before + [line], after, repoDir);
    ParseLinesAppend(before, [line], repoDir);
    assert [line][..0] == [];
  }

  /**
   * There are never more records than lines, every record is the record of some line,
   * and every record names `repoDir`.
   */
  lemma {:induction false} ParseLinesBounds(lines: seq<string>, repoDir: string)
    ensures |ParseLines(lines, repoDir)| <= |lines|
    ensures forall k | 0 <= k < |ParseLines(lines, repoDir)| ::
      exists i | 0 <= i < |lines| :: ParseLine(lines[i], repoDir) == Some(ParseLines(lines, repoDir)[k])
    ensures forall k | 0 <= k < |ParseLines(lines, repoDir)| :: ParseLines(lines, repoDir)[k].name == repoDir
  {
    if lines != [] {
      var n := |lines| - 1;
      var init := lines[..n];
      ParseLinesBounds(init, repoDir);
      var recs := ParseLines(lines, repoDir);
      forall k | 0 <= k < |recs|
        ensures exists i | 0 <= i < |lines| :: ParseLine(lines[i], repoDir) == Some(recs[k])
      {
        if k < |ParseLines(init, repoDir)| {
          var i :| 0 <= i < |init| && ParseLine(init[i], repoDir) == Some(ParseLines(init, repoDir)[k]);
          assert lines[i] == init[i];
        } else {
          assert ParseLine(lines[n], repoDir) == Some(recs[k]);
        }
      }
      forall k | 0 <= k < |recs|
        ensures recs[k].name == repoDir
      {
        var i :| 0 <= i < |lines| && ParseLine(lines[i], repoDir) == Some(recs[k]);
      }
    }
  }

  /** When every line is kept, the records are the lines' records one for one. */
  lemma {:induction false} ParseLinesAllKept(lines: seq<string>, repoDir: string)
    requires forall i | 0 <= i < |lines| :: ParseLine(lines[i], repoDir).Some?
    ensures |ParseLines(lines, repoDir)| == |lines|
    ensures forall i | 0 <= i < |lines| :: ParseLines(lines, repoDir)[i] == ParseLine(lines[i], repoDir).value
  {
    if lines != [] {
      ParseLinesAllKept(lines[..|lines| - 1], repoDir);
    }
  }

  /** Empty or white-space-only output is one empty line, which is skipped: no records. */
  lemma ParseLogBlank(output: string, repoDir: string)
    requires AllSpace(output)
    ensures ParseLog(output, repoDir) == []
  {
    TrimSpaceAllSpace(output);
    assert Lines(output) == [[]];
    assert ParseLines(Lines(output), repoDir) == ParseLines([], repoDir);
  }

  /** Every record comes from a line of the output and names `repoDir`; there are no more records than lines. */
  lemma ParseLogBounds(output: string, repoDir: string)
    ensures |ParseLog(output, repoDir)| <= Count(TrimSpace(output), '\n') + 1
    ensures forall k | 0 <= k < |ParseLog(output, repoDir)| ::
      exists i | 0 <= i < |Lines(output)| :: ParseLine(Lines(output)[i], repoDir) == Some(ParseLog(output, repoDir)[k])
    ensures forall k | 0 <= k < |ParseLog(output, repoDir)| :: ParseLog(output, repoDir)[k].name == repoDir
  {
    ParseLinesBounds(Lines(output), repoDir);
  }

  // ---------------------------------------------------------------------------
  // What `git log --format=%H,%ct` prints

  /** One commit as `git log` reports it: its full hash and its committer time in Unix seconds. */
  datatype LogEntry = LogEntry(hash: string, time: int64)

  predicate IsHexDigit(c: char)
  {
    '0' <= c <= '9' || 'a' <= c <= 'f'
  }

  /** `%H`: a non-empty run of lower-case hexadecimal digits. */
  predicate ValidHash(h: string)
  {
    h != [] && forall i | 0 <= i < |h| :: IsHexDigit(h[i])
  }

  /** `%H,%ct` for one entry. */
  function LogLine(e: LogEntry): string
  {
    e.hash + [','] + FormatInt(e.time)
  }

  /** The lines `git log` prints, one per entry. */
  function LogLines(entries: seq<LogEntry>): seq<string>
  {
    seq(|entries|, i requires 0 <= i < |entries| => LogLine(entries[i]))
  }

  lemma LogLinesAt(entries: seq<LogEntry>)
    ensures |LogLines(entries)| == |entries|
    ensures forall i | 0 <= i < |entries| :: LogLines(entries)[i] == LogLine(entries[i])
  {
  }

  /** The whole output: one line per entry, each ended by a line break. */
  function GitLog(entries: seq<LogEntry>): string
  {
    if entries == [] then [] else Join(LogLines(entries), '\n') + ['\n']
  }

  /** The record the parser should produce for an entry. */
  function Record(e: LogEntry, repoDir: string): RepoData
  {
    RepoData(repoDir, e.hash, Unix(e.time))
  }

  /** The records the parser should produce for a sequence of entries. */
  function Records(entries: seq<LogEntry>, repoDir: string): seq<RepoData>
  {
    seq(|entries|, i requires 0 <= i < |entries| => Record(entries[i], repoDir))
  }

  lemma FormatIntChars(v: int64)
    ensures FormatInt(v) != []
    ensures forall i | 0 <= i < |FormatInt(v)| :: IsDigit(FormatInt(v)[i]) || FormatInt(v)[i] == '-'
    ensures IsDigit(FormatInt(v)[|FormatInt(v)| - 1])
  {
  }

  /** Each printed line has no line break and parses to its entry's record. */
  lemma LogLineParses(e: LogEntry, repoDir: string)
    requires ValidHash(e.hash)
    ensures '\n' !in LogLine(e)
    ensures ParseLine(LogLine(e), repoDir) == Some(Record(e, repoDir))
  {
    FormatIntChars(e.time);
    assert ',' !in e.hash && ',' !in FormatInt(e.time);
    assert '\n' !in e.hash && '\n' !in FormatInt(e.time);
    ParseLineFields(e.hash, FormatInt(e.time), repoDir);
    ParseFormatInt(e.time);
  }

  /** Trimming and splitting the printed output gives back the printed lines. */
  lemma GitLogLines(entries: seq<LogEntry>)
    requires entries != []
    requires forall i | 0 <= i < |entries| :: ValidHash(entries[i].hash)
    requires forall i | 0 <= i < |entries| :: '\n' !in LogLine(entries[i])
    ensures Lines(GitLog(entries)) == LogLines(entries)
  {
    var lines := LogLines(entries);
    LogLinesAt(entries);
    var text := Join(lines, '\n');
    TextEnds(entries);
    TrimSpaceTrailing(text, ['\n']);
    assert TrimSpace(GitLog(entries)) == text;
    assert forall i | 0 <= i < |lines| :: '\n' !in lines[i];
    SplitJoin(lines, '\n');
  }

  /** A printed line starts with the first digit of the hash and ends with the last digit of the time. */
  lemma LogLineEnds(e: LogEntry)
    requires ValidHash(e.hash)
    ensures LogLine(e) != [] && IsHexDigit(LogLine(e)[0])
    ensures IsDigit(LogLine(e)[|LogLine(e)| - 1])
  {
    FormatIntChars(e.time);
    assert IsHexDigit(e.hash[0]);
  }

  /** The printed lines joined together start with a hash digit and end with a time digit. */
  lemma TextEnds(entries: seq<LogEntry>)
    requires entries != []
    requires forall i | 0 <= i < |entries| :: ValidHash(entries[i].hash)
    ensures var text := Join(LogLines(entries), '\n');
      text != [] && !IsSpace(text[0]) && !IsSpace(text[|text| - 1])
  {
    var lines := LogLines(entries);
    LogLinesAt(entries);
    var n := |lines| - 1;
    LogLineEnds(entries[0]);
    LogLineEnds(entries[n]);
    assert lines[0] == LogLine(entries[0]) && lines[n] == LogLine(entries[n]);
    JoinFirst(lines, '\n');
    JoinLast(lines, '\n');
    var text := Join(lines, '\n');
    assert IsHexDigit(text[0]) && IsDigit(text[|text| - 1]);
  }

  /** The parser reads back exactly the commits `git log` printed, in the order it printed them. */
  lemma ParseGitLog(entries: seq<LogEntry>, repoDir: string)
    requires forall i | 0 <= i < |entries| :: ValidHash(entries[i].hash)
    ensures ParseLog(GitLog(entries), repoDir) == Records(entries, repoDir)
  {
    if entries == [] {
      ParseLogBlank([], repoDir);
    } else {
      var lines := LogLines(entries);
      LogLinesAt(entries);
      forall i | 0 <= i < |lines|
        ensures '\n' !in LogLine(entries[i])
        ensures ParseLine(lines[i], repoDir) == Some(Record(entries[i], repoDir))
      {
        LogLineParses(entries[i], repoDir);
      }
      GitLogLines(entries);
      ParseLinesAllKept(lines, repoDir);
      var recs := ParseLines(lines, repoDir);
      assert ParseLog(GitLog(entries), repoDir) == recs;
      assert |recs| == |Records(entries, repoDir)|;
      forall i | 0 <= i < |recs|
        ensures recs[i] == Records(entries, repoDir)[i]
      {
        assert recs[i] == ParseLine(lines[i], repoDir).value;
      }
    }
  }
}
