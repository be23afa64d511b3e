/**
  The data model of the analyzer, the boundary to git and the filesystem,
  and the one-line log format shared by the commit queries
  (git_commit_analyzer.py: `GitCommit`, `GitFileChange`, `_run_git_command`).
 */
module GitLog {
  import opened Wrappers
  import opened PyText

  /** Commit dates are opaque ordered values. */
  type Timestamp = int

  /**
    Everything the analyzer asks of the outside world:
    - `git(args)`: the standard output of `git args` run in the repository
      root, or the error raised for a non-zero exit status;
    - `pathExists(p)`: `os.path.exists` of `p` joined to the repository root;
    - `importTargets(p)`: the import targets the scanner's regular expressions
      find in file `p`, in match order (empty when the file cannot be read);
    - `parseIsoDate(s)`: `datetime.fromisoformat(s)`, `None` where it raises;
    - `now`: what `datetime.now()` returns.
   */
  datatype Env = Env(
    git: seq<string> -> Result<string>,
    pathExists: string -> bool,
    importTargets: string -> seq<string>,
    parseIsoDate: string -> Option<Timestamp>,
    now: Timestamp)

  /** `GitCommit`. */
  datatype Commit = Commit(
    hash: string,
    author: string,
    email: string,
    date: Timestamp,
    message: string,
    filesChanged: seq<string>,
    additions: nat,
    deletions: nat)

  /** `GitFileChange`. */
  datatype FileChange = FileChange(
    filePath: string,
    changeType: char,
    additions: int,
    deletions: int,
    oldPath: Option<string>)

  /** The five fields of one `%H|%an|%ae|%ad|%s` log line. */
  datatype LogRecord = LogRecord(
    hash: string,
    author: string,
    email: string,
    dateText: string,
    message: string)

  // ---------------------------------------------------------------------
  // Running git
  // ---------------------------------------------------------------------

  /** `_run_git_command`: git's output with surrounding whitespace stripped; a failure is passed on. */
  function RunGit(env: Env, args: seq<string>): (r: Result<string>)
    ensures r.Err? <==> env.git(args).Err?
    ensures r.Ok? ==> |r.value| <= |env.git(args).value|
  {
    match env.git(args)
    case Ok(out) => Ok(Strip(out))
    case Err(e) => Err(e)
  }

  const LogFormatArgs: seq<string> := ["log", "--oneline", "--pretty=format:%H|%an|%ae|%ad|%s", "--date=iso"]

  /** Python truthiness of an optional string. */
  predicate Given(o: Option<string>) {
    o.Some? && o.value != ""
  }

  /** The `git log` argument list built by the commit queries. */
  function LogCommand(since: Option<string>, until: Option<string>, maxCount: Option<int>): (args: seq<string>)
    ensures |args| == 4 + (if Given(since) then 2 else 0) + (if Given(until) then 2 else 0)
                        + (if maxCount.Some? && maxCount.value != 0 then 2 else 0)
    ensures args[..4] == LogFormatArgs
  {
    LogFormatArgs
    + (if Given(since) then ["--since", since.value] else [])
    + (if Given(until) then ["--until", until.value] else [])
    + (if maxCount.Some? && maxCount.value != 0 then ["-n", IntToString(maxCount.value)] else [])
  }

  // ---------------------------------------------------------------------
  // The log-line format
  // ---------------------------------------------------------------------

  /** `output.split('\n')`. */
  function LogLines(output: string): (lines: seq<string>)
    ensures |lines| >= 1
    ensures forall i :: 0 <= i < |lines| ==> '\n' !in lines[i]
  {
    SplitPieces(output, '\n');
    Split(output, '\n')
  }

  /** `line.split('|', 4)` unpacked into five fields; `None` where there are fewer. */
  function SplitRecord(line: string): (r: Option<LogRecord>)
    ensures r.Some? <==> Count(line, '|') >= 4
    ensures r.Some? ==> line == r.value.hash + "|" + r.value.author + "|" + r.value.email + "|"
                                + r.value.dateText + "|" + r.value.message
    ensures r.Some? ==> '|' !in r.value.hash && '|' !in r.value.author && '|' !in r.value.email && '|' !in r.value.dateText
  {
    var parts := SplitN(line, '|', 4);
    SplitNJoin(line, '|', 4);
    SplitNLength(line, '|', 4);
    SplitNHeads(line, '|', 4);
    if |parts| != 5 then None
    else
      JoinFive(parts, "|");
      Some(LogRecord(parts[0], parts[1], parts[2], parts[3], parts[4]))
  }

  /**
    One log line: skipped when blank, split at the first four `|`, and
    skipped unless that gives five fields.
   */
  function ParseLogLine(line: string): (r: Option<LogRecord>)
    ensures r.Some? <==> Strip(line) != "" && Count(line, '|') >= 4
    ensures r.Some? ==> r == SplitRecord(line)
  {
    if Strip(line) == "" then None else SplitRecord(line)
  }

  /** `datetime.fromisoformat(date_str.replace(' ', 'T', 1))`, `None` where it raises. */
  function ParseLogDate(env: Env, dateText: string): Option<Timestamp> {
    env.parseIsoDate(ReplaceFirst(dateText, ' ', 'T'))
  }

  /** The fast query's date: the parsed date, or `datetime.now()` when parsing fails. */
  function DateOrNow(env: Env, dateText: string): (d: Timestamp)
    ensures ParseLogDate(env, dateText).Some? ==> d == ParseLogDate(env, dateText).value
    ensures ParseLogDate(env, dateText).None? ==> d == env.now
  {
    ParseLogDate(env, dateText).GetOr(env.now)
  }
}
