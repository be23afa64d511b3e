/**
  The aggregating analyses of git_commit_analyzer.py: the single-prefix
  file analysis (`get_files_by_commit_prefix`), the requirement dispatcher
  (`get_related_files_by_requirement`, the second definition), and the
  multi-prefix analyses of `RequirementAnalyzer`
  (`analyze_multiple_prefixes`, `analyze_requirement`).
 */
module Aggregate {
  import opened Wrappers
  import opened PyText
  import opened Dicts
  import opened GitLog
  import opened PrefixMatch
  import opened Details
  import opened PrefixQuery
  import opened Dependencies

  // ---------------------------------------------------------------------
  // Tallies over a list of commits
  // ---------------------------------------------------------------------

  /** `set(files)`. */
  function Elements(files: seq<string>): (r: set<string>)
    ensures forall f :: f in r <==> f in files
  {
    set f | f in files
  }

  /** The union of the commits' `files_changed`. */
  function DirectFiles(commits: seq<Commit>): set<string>
    decreases |commits|
  {
    if commits == [] then {}
    else DirectFiles(commits[..|commits| - 1]) + Elements(commits[|commits| - 1].filesChanged)
  }

  function Additions(commits: seq<Commit>): nat
    decreases |commits|
  {
    if commits == [] then 0 else Additions(commits[..|commits| - 1]) + commits[|commits| - 1].additions
  }

  function Deletions(commits: seq<Commit>): nat
    decreases |commits|
  {
    if commits == [] then 0 else Deletions(commits[..|commits| - 1]) + commits[|commits| - 1].deletions
  }

  /** A file is a direct file exactly when some commit changed it. */
  lemma {:induction false} DirectFilesIff(commits: seq<Commit>, f: string)
    ensures f in DirectFiles(commits) <==> exists c :: c in commits && f in c.filesChanged
    decreases |commits|
  {
    if commits != [] {
      var init, last := commits[..|commits| - 1], commits[|commits| - 1];
      DirectFilesIff(init, f);
      assert commits == init + [last];
      if exists c :: c in commits && f in c.filesChanged {
        var c :| c in commits && f in c.filesChanged;
        if c != last {
          assert c in init;
        }
      }
    }
  }

  /** The sums over a concatenation split into the sums over the parts. */
  lemma {:induction false} TotalsAppend(xs: seq<Commit>, ys: seq<Commit>)
    ensures Additions(xs + ys) == Additions(xs) + Additions(ys)
    ensures Deletions(xs + ys) == Deletions(xs) + Deletions(ys)
    ensures DirectFiles(xs + ys) == DirectFiles(xs) + DirectFiles(ys)
    decreases |ys|
  {
    if ys == [] {
      assert xs + ys == xs;
    } else {
      var init := ys[..|ys| - 1];
      assert (xs + ys)[..|xs + ys| - 1] == xs + init;
      TotalsAppend(xs, init);
    }
  }

  /** The loop that collects the direct files and adds up the line counts. */
  method Tally(commits: seq<Commit>) returns (direct: set<string>, additions: nat, deletions: nat)
    ensures direct == DirectFiles(commits)
    ensures additions == Additions(commits) && deletions == Deletions(commits)
  {
    direct, additions, deletions := {}, 0, 0;
    for i := 0 to |commits|
      invariant direct == DirectFiles(commits[..i])
      invariant additions == Additions(commits[..i]) && deletions == Deletions(commits[..i])
    {
      assert commits[..i + 1] == commits[..i] + [commits[i]];
      TotalsAppend(commits[..i], [commits[i]]);
      direct := direct + Elements(commits[i].filesChanged);
      additions := additions + commits[i].additions;
      deletions := deletions + commits[i].deletions;
    }
    assert commits[..|commits|] == commits;
  }

  /** `min(c.date for c in commits)`. */
  function MinDate(commits: seq<Commit>): (d: Timestamp)
    requires commits != []
    ensures exists i :: 0 <= i < |commits| && commits[i].date == d
    ensures forall i :: 0 <= i < |commits| ==> d <= commits[i].date
    decreases |commits|
  {
    if |commits| == 1 then commits[0].date
    else
      var d := MinDate(commits[..|commits| - 1]);
      assert forall i :: 0 <= i < |commits| - 1 ==> commits[..|commits| - 1][i] == commits[i];
      if commits[|commits| - 1].date < d then commits[|commits| - 1].date else d
  }

  /** `max(c.date for c in commits)`. */
  function MaxDate(commits: seq<Commit>): (d: Timestamp)
    requires commits != []
    ensures exists i :: 0 <= i < |commits| && commits[i].date == d
    ensures forall i :: 0 <= i < |commits| ==> commits[i].date <= d
    decreases |commits|
  {
    if |commits| == 1 then commits[0].date
    else
      var d := MaxDate(commits[..|commits| - 1]);
      assert forall i :: 0 <= i < |commits| - 1 ==> commits[..|commits| - 1][i] == commits[i];
      if commits[|commits| - 1].date > d then commits[|commits| - 1].date else d
  }

  datatype TimeRange = TimeRange(start: Timestamp, end: Timestamp)

  /** The `time_range` entry: the earliest and latest commit dates, `None` without commits. */
  function TimeRangeOf(commits: seq<Commit>): (r: Option<TimeRange>)
    ensures r.Some? <==> commits != []
    ensures r.Some? ==> r.value.start <= r.value.end
  {
    if commits == [] then None
    else
      assert MinDate(commits) <= commits[0].date <= MaxDate(commits);
      Some(TimeRange(MinDate(commits), MaxDate(commits)))
  }

  // ---------------------------------------------------------------------
  // get_files_by_commit_prefix and the pattern path
  // ---------------------------------------------------------------------

  datatype Summary = Summary(
    totalCommits: nat,
    totalFiles: nat,
    totalAdditions: nat,
    totalDeletions: nat,
    timeRange: Option<TimeRange>)

  /**
    The result of the single-prefix analysis; `prefix` is `None` for the
    pattern path, whose result has no `prefix` entry. Without commits the
    summary has no `time_range` entry: `timeRange` is `None`.
   */
  datatype FileAnalysis = FileAnalysis(
    prefix: Option<string>,
    commits: seq<Commit>,
    directFiles: set<string>,
    relatedFiles: set<string>,
    fileChanges: Dict<string, seq<FileChange>>,
    summary: Summary)

  /** What the analysis makes of the selected commits. */
  function FileAnalysisOf(env: Env, prefix: Option<string>, commits: seq<Commit>, includeDependencies: bool): FileAnalysis {
    var direct := DirectFiles(commits);
    var related := direct + (if includeDependencies then DependenciesOf(env, direct) else {});
    FileAnalysis(prefix, commits, direct, related, GroupByPath(AllChanges(env, commits)),
                 Summary(|commits|, |related|, Additions(commits), Deletions(commits), TimeRangeOf(commits)))
  }

  /** What `get_files_by_commit_prefix` returns; the failures of `get_commits_by_prefix` are passed on. */
  function FilesByCommitPrefixSpec(env: Env, prefix: string, includeDependencies: bool, since: Option<string>)
    : Result<FileAnalysis>
  {
    var commits :- CommitsByPrefixSpec(env, prefix, since, None, None);
    Ok(FileAnalysisOf(env, Some(prefix), commits, includeDependencies))
  }

  /** The result for an empty commit list. */
  lemma FileAnalysisOfNothing(env: Env, prefix: Option<string>, includeDependencies: bool)
    ensures FileAnalysisOf(env, prefix, [], includeDependencies)
         == FileAnalysis(prefix, [], {}, {}, Empty(), Summary(0, 0, 0, 0, None))
  {
    assert DependenciesOf(env, {}) == {};
  }

  /** The shared tail of both paths, once commits are found. */
  method AnalyzeCommits(env: Env, prefix: Option<string>, commits: seq<Commit>, includeDependencies: bool)
    returns (a: FileAnalysis)
    ensures a == FileAnalysisOf(env, prefix, commits, includeDependencies)
  {
    var direct, additions, deletions := Tally(commits);
    var fileChanges := FileChangesByCommits(env, commits);
    var related := direct;
    if includeDependencies {
      var deps := FindDependencyFiles(env, direct);
      related := related + deps;
    }
    var range := if commits == [] then None else Some(TimeRange(MinDate(commits), MaxDate(commits)));
    a := FileAnalysis(prefix, commits, direct, related, fileChanges,
                      Summary(|commits|, |related|, additions, deletions, range));
  }

  /** `get_files_by_commit_prefix`. */
  method FilesByCommitPrefix(env: Env, prefix: string, includeDependencies: bool, since: Option<string>)
    returns (r: Result<FileAnalysis>)
    ensures r == FilesByCommitPrefixSpec(env, prefix, includeDependencies, since)
  {
    var commits :- CommitsByPrefix(env, prefix, since, None, None);
    if commits == [] {
      FileAnalysisOfNothing(env, Some(prefix), includeDependencies);
      return Ok(FileAnalysis(Some(prefix), [], {}, {}, Empty(), Summary(0, 0, 0, 0, None)));
    }
    var a := AnalyzeCommits(env, Some(prefix), commits, includeDependencies);
    r := Ok(a);
  }

  /** The files relate to the commits as the analysis promises. */
  lemma FileAnalysisFacts(env: Env, prefix: Option<string>, commits: seq<Commit>, includeDependencies: bool)
    ensures var a := FileAnalysisOf(env, prefix, commits, includeDependencies);
      && a.directFiles <= a.relatedFiles
      && (!includeDependencies ==> a.relatedFiles == a.directFiles)
      && (forall f :: f in a.directFiles <==> exists c :: c in commits && f in c.filesChanged)
      && (forall f :: f in a.relatedFiles - a.directFiles ==> env.pathExists(f))
      && a.summary.totalCommits == |commits| && a.summary.totalFiles == |a.relatedFiles|
      && (a.summary.timeRange.Some? ==>
            forall c :: c in commits ==> a.summary.timeRange.value.start <= c.date <= a.summary.timeRange.value.end)
  {
    var a := FileAnalysisOf(env, prefix, commits, includeDependencies);
    forall f ensures f in a.directFiles <==> exists c :: c in commits && f in c.filesChanged {
      DirectFilesIff(commits, f);
    }
    DependenciesExist(env, a.directFiles);
  }

  /** The record of a log line that is not skipped and whose message `search` accepts. */
  function SearchedLine(search: string -> bool, line: string): (r: Option<LogRecord>)
    ensures r.Some? <==> ParseLogLine(line).Some? && search(ParseLogLine(line).value.message)
    ensures r.Some? ==> r == ParseLogLine(line)
  {
    match ParseLogLine(line)
    case Some(rec) => if search(rec.message) then Some(rec) else None
    case None => None
  }

  /**
    What `_get_files_by_pattern_matching` returns, with `search(message)`
    standing for a case-insensitive `re.search` of the user's pattern.
   */
  function FilesByPatternSpec(env: Env, search: string -> bool, includeDependencies: bool, since: Option<string>)
    : Result<FileAnalysis>
  {
    var output :- RunGit(env, LogCommand(since, None, None));
    if output == "" then Ok(FileAnalysisOf(env, None, [], includeDependencies))
    else
      var commits :- DetailsAll(Fetcher(env), Picked(l => SearchedLine(search, l), LogLines(output)));
      Ok(FileAnalysisOf(env, None, commits, includeDependencies))
  }

  /** `_get_files_by_pattern_matching`. */
  method FilesByPattern(env: Env, search: string -> bool, includeDependencies: bool, since: Option<string>)
    returns (r: Result<FileAnalysis>)
    ensures r == FilesByPatternSpec(env, search, includeDependencies, since)
  {
    var output :- RunGit(env, LogCommand(since, None, None));
    FileAnalysisOfNothing(env, None, includeDependencies);
    if output == "" {
      return Ok(FileAnalysis(None, [], {}, {}, Empty(), Summary(0, 0, 0, 0, None)));
    }
    var commits :- CollectDetails(Fetcher(env), l => SearchedLine(search, l), LogLines(output));
    if commits == [] {
      return Ok(FileAnalysis(None, [], {}, {}, Empty(), Summary(0, 0, 0, 0, None)));
    }
    var a := AnalyzeCommits(env, None, commits, includeDependencies);
    r := Ok(a);
  }

  /** The dispatcher's test: a `:` anywhere, or a trailing space or `-`. */
  predicate LooksLikePrefix(pattern: string) {
    ':' in pattern || EndsWith(pattern, " ") || EndsWith(pattern, "-")
  }

  /** What the second `get_related_files_by_requirement` returns. */
  function RelatedFilesSpec(env: Env, pattern: string, search: string -> bool, includeDependencies: bool, since: Option<string>)
    : Result<FileAnalysis>
  {
    if LooksLikePrefix(pattern) then FilesByCommitPrefixSpec(env, pattern, includeDependencies, since)
    else FilesByPatternSpec(env, search, includeDependencies, since)
  }

  /** `get_related_files_by_requirement` (the second definition, which replaces the first). */
  method RelatedFilesByRequirement(env: Env, pattern: string, search: string -> bool, includeDependencies: bool,
                                   since: Option<string>)
    returns (r: Result<FileAnalysis>)
    ensures r == RelatedFilesSpec(env, pattern, search, includeDependencies, since)
  {
    if ':' in pattern || EndsWith(pattern, " ") || EndsWith(pattern, "-") {
      r := FilesByCommitPrefix(env, pattern, includeDependencies, since);
    } else {
      r := FilesByPattern(env, search, includeDependencies, since);
    }
  }

  /** The prefix path is taken, and its result carries the pattern as `prefix`, exactly when the pattern looks like a prefix. */
  lemma RelatedFilesRoute(env: Env, pattern: string, search: string -> bool, includeDependencies: bool, since: Option<string>)
    ensures var r := RelatedFilesSpec(env, pattern, search, includeDependencies, since);
      r.Ok? ==> (r.value.prefix.Some? <==> ':' in pattern || EndsWith(pattern, " ") || EndsWith(pattern, "-"))
    ensures var r := RelatedFilesSpec(env, pattern, search, includeDependencies, since);
      r.Ok? && r.value.prefix.Some? ==> r.value.prefix.value == pattern
  {
    if LooksLikePrefix(pattern) {
      var commits := CommitsByPrefixSpec(env, pattern, since, None, None);
      if commits.Ok? {
        assert RelatedFilesSpec(env, pattern, search, includeDependencies, since)
            == Ok(FileAnalysisOf(env, Some(pattern), commits.value, includeDependencies));
      }
    } else {
      PatternPathHasNoPrefix(env, search, includeDependencies, since);
    }
  }

  lemma PatternPathHasNoPrefix(env: Env, search: string -> bool, includeDependencies: bool, since: Option<string>)
    ensures var r := FilesByPatternSpec(env, search, includeDependencies, since);
      r.Ok? ==> r.value.prefix.None?
  {
  }

  lemma RouteExamples()
    ensures LooksLikePrefix("REQ-123:") && LooksLikePrefix("feat ") && LooksLikePrefix("JIRA-")
    ensures !LooksLikePrefix("login.*page")
  {
    assert "REQ-123:"[7] == ':';
    assert "feat "[4..] == " ";
    assert "JIRA-"[4..] == "-";
    assert "login.*page"[10..] != " " && "login.*page"[10..] != "-";
  }

  // ---------------------------------------------------------------------
  // analyze_multiple_prefixes
  // ---------------------------------------------------------------------

  /** One entry of `prefix_results`; its summary always has a time range. */
  datatype PrefixResult = PrefixResult(
    prefix: string,
    commits: seq<Commit>,
    files: set<string>,
    directFiles: set<string>,
    summary: Summary)

  function PrefixResultOf(env: Env, prefix: string, commits: seq<Commit>): (r: PrefixResult)
    ensures r.prefix == prefix && r.commits == commits
  {
    var direct := DirectFiles(commits);
    var files := direct + DependenciesOf(env, direct);
    PrefixResult(prefix, commits, files, direct,
                 Summary(|commits|, |files|, Additions(commits), Deletions(commits), TimeRangeOf(commits)))
  }

  /** The analyser `analyze_multiple_prefixes` applies to each prefix's list. */
  function Analyze(env: Env): (analyze: Analyzer)
    ensures forall p, cs :: analyze(p, cs) == PrefixResultOf(env, p, cs)
  {
    (p, cs) => PrefixResultOf(env, p, cs)
  }

  /** What the loop over the per-prefix lists has gathered so far. */
  datatype Gathering = Gathering(
    results: Dict<string, PrefixResult>,
    commits: seq<Commit>,
    files: set<string>,
    directFiles: set<string>)

  /** How one prefix's commit list is analysed. */
  type Analyzer = (string, seq<Commit>) -> PrefixResult

  /** The loop over `prefix_commits.items()`: empty lists are passed over. */
  function Gather(analyze: Analyzer, byPrefix: Dict<string, seq<Commit>>, keys: seq<string>): (g: Gathering)
    requires forall k :: k in keys ==> k in byPrefix.table
    ensures g.results.Valid()
    decreases |keys|
  {
    if keys == [] then Gathering(Empty(), [], {}, {})
    else
      var init := keys[..|keys| - 1];
      var k := keys[|keys| - 1];
      assert forall x :: x in init ==> x in keys;
      var g := Gather(analyze, byPrefix, init);
      var cs := byPrefix.table[k];
      if cs == [] then g
      else
        var r := analyze(k, cs);
        Gathering(g.results.Put(k, r), g.commits + cs, g.files + r.files, g.directFiles + r.directFiles)
  }

  /** The deduplication loop: each commit under its hash, a later one with the same hash replacing the earlier. */
  function Unique(commits: seq<Commit>): (d: Dict<string, Commit>)
    ensures d.Valid()
    decreases |commits|
  {
    if commits == [] then Empty()
    else
      var c := commits[|commits| - 1];
      Unique(commits[..|commits| - 1]).Put(c.hash, c)
  }

  datatype MultiSummary = MultiSummary(
    totalCommits: nat,
    totalFiles: nat,
    totalDirectFiles: nat,
    totalAdditions: nat,
    totalDeletions: nat,
    dateRange: Option<TimeRange>)

  datatype MultiAnalysis = MultiAnalysis(
    prefixes: seq<string>,
    prefixResults: Dict<string, PrefixResult>,
    combinedCommits: seq<Commit>,
    combinedFiles: set<string>,
    combinedDirectFiles: set<string>,
    summary: MultiSummary)

  function MultiAnalysisOf(env: Env, prefixes: seq<string>, byPrefix: Dict<string, seq<Commit>>): MultiAnalysis
    requires byPrefix.Valid()
  {
    var g := Gather(Analyze(env), byPrefix, byPrefix.keys);
    var combined := Unique(g.commits).Values();
    MultiAnalysis(prefixes, g.results, combined, g.files, g.directFiles,
                  MultiSummary(|combined|, |g.files|, |g.directFiles|, Additions(combined), Deletions(combined),
                               TimeRangeOf(combined)))
  }

  /** What `analyze_multiple_prefixes` returns; a failing log call is passed on. */
  function AnalyzeMultiplePrefixesSpec(env: Env, prefixes: seq<string>, since: Option<string>): Result<MultiAnalysis> {
    var byPrefix :- FastQuery(env, prefixes, since, None, None);
    Ok(MultiAnalysisOf(env, prefixes, byPrefix))
  }

  /** The per-prefix step of the loop. */
  method PrefixResultFor(env: Env, prefix: string, commits: seq<Commit>) returns (r: PrefixResult)
    ensures r == PrefixResultOf(env, prefix, commits)
  {
    var direct, additions, deletions := Tally(commits);
    var deps := FindDependencyFiles(env, direct);
    var files := direct + deps;
    var range := if commits == [] then None else Some(TimeRange(MinDate(commits), MaxDate(commits)));
    r := PrefixResult(prefix, commits, files, direct, Summary(|commits|, |files|, additions, deletions, range));
  }

  method GatherResults(env: Env, byPrefix: Dict<string, seq<Commit>>) returns (g: Gathering)
    requires byPrefix.Valid()
    ensures g == Gather(Analyze(env), byPrefix, byPrefix.keys)
  {
    g := Gathering(Empty(), [], {}, {});
    var keys := byPrefix.keys;
    for i := 0 to |keys|
      invariant forall k :: k in keys[..i] ==> k in byPrefix.table
      invariant g == Gather(Analyze(env), byPrefix, keys[..i])
    {
      assert keys[..i + 1][..i] == keys[..i];
      assert forall k :: k in keys[..i + 1] ==> k in byPrefix.table;
      var prefix := keys[i];
      var commits := byPrefix.table[prefix];
      if commits != [] {
        var r := PrefixResultFor(env, prefix, commits);
        g := Gathering(g.results.Put(prefix, r), g.commits + commits, g.files + r.files, g.directFiles + r.directFiles);
      }
    }
    assert keys[..|keys|] == keys;
  }

  method Deduplicate(commits: seq<Commit>) returns (unique: Dict<string, Commit>)
    ensures unique == Unique(commits)
  {
    unique := Empty();
    for i := 0 to |commits|
      invariant unique == Unique(commits[..i])
    {
      assert commits[..i + 1][..i] == commits[..i];
      unique := unique.Put(commits[i].hash, commits[i]);
    }
    assert commits[..|commits|] == commits;
  }

  /** `RequirementAnalyzer.analyze_multiple_prefixes`. */
  method AnalyzeMultiplePrefixes(env: Env, prefixes: seq<string>, since: Option<string>) returns (r: Result<MultiAnalysis>)
    ensures r == AnalyzeMultiplePrefixesSpec(env, prefixes, since)
  {
    var byPrefix :- CommitsByMultiplePrefixesFast(env, prefixes, since, None, None);
    var g := GatherResults(env, byPrefix);
    var unique := Deduplicate(g.commits);
    var combined := unique.Values();
    var range := if combined == [] then None else Some(TimeRange(MinDate(combined), MaxDate(combined)));
    r := Ok(MultiAnalysis(prefixes, g.results, combined, g.files, g.directFiles,
                          MultiSummary(|combined|, |g.files|, |g.directFiles|, Additions(combined), Deletions(combined), range)));
  }

  // ---------------------------------------------------------------------
  // What the multi-prefix analysis guarantees
  // ---------------------------------------------------------------------

  /** `g` holds a result for exactly the non-empty lists of `keys`, and unions over those results. */
  ghost predicate GatherHolds(analyze: Analyzer, byPrefix: Dict<string, seq<Commit>>, keys: seq<string>, g: Gathering)
    requires forall k :: k in keys ==> k in byPrefix.table
  {
    && (forall p :: p in g.results.table <==> p in keys && byPrefix.table[p] != [])
    && (forall p :: p in g.results.table ==> g.results.table[p] == analyze(p, byPrefix.table[p]))
    && (forall f :: f in g.files <==> exists p :: p in g.results.table && f in g.results.table[p].files)
    && (forall f :: f in g.directFiles <==> exists p :: p in g.results.table && f in g.results.table[p].directFiles)
    && (forall c :: c in g.commits <==> exists p :: p in g.results.table && c in byPrefix.table[p])
  }

  lemma GatherFacts(analyze: Analyzer, byPrefix: Dict<string, seq<Commit>>, keys: seq<string>)
    requires forall k :: k in keys ==> k in byPrefix.table
    ensures GatherHolds(analyze, byPrefix, keys, Gather(analyze, byPrefix, keys))
  {
    var g := Gather(analyze, byPrefix, keys);
    GatherTable(analyze, byPrefix, keys);
    GatherUnions(analyze, byPrefix, keys);
    forall f ensures f in g.files <==> exists p :: p in g.results.table && f in g.results.table[p].files {
      if f in g.files {
        var p :| Listed(byPrefix, keys, p) && f in analyze(p, byPrefix.table[p]).files;
        assert p in g.results.table;
      }
    }
    forall f ensures f in g.directFiles <==> exists p :: p in g.results.table && f in g.results.table[p].directFiles {
      if f in g.directFiles {
        var p :| Listed(byPrefix, keys, p) && f in analyze(p, byPrefix.table[p]).directFiles;
        assert p in g.results.table;
      }
    }
    forall c ensures c in g.commits <==> exists p :: p in g.results.table && c in byPrefix.table[p] {
      if c in g.commits {
        var p :| Listed(byPrefix, keys, p) && c in byPrefix.table[p];
        assert p in g.results.table;
      }
    }
  }

  /** `p` is one of `keys` with a non-empty list. */
  predicate Listed(byPrefix: Dict<string, seq<Commit>>, keys: seq<string>, p: string) {
    p in keys && p in byPrefix.table && byPrefix.table[p] != []
  }

  lemma {:induction false} GatherTable(analyze: Analyzer, byPrefix: Dict<string, seq<Commit>>, keys: seq<string>)
    requires forall k :: k in keys ==> k in byPrefix.table
    ensures var g := Gather(analyze, byPrefix, keys);
      && (forall p :: p in g.results.table <==> p in keys && byPrefix.table[p] != [])
      && (forall p :: p in g.results.table ==> g.results.table[p] == analyze(p, byPrefix.table[p]))
    decreases |keys|
  {
    if keys != [] {
      var init := keys[..|keys| - 1];
      assert keys == init + [keys[|keys| - 1]];
      assert forall x :: x in init ==> x in keys;
      GatherTable(analyze, byPrefix, init);
    }
  }

  /** The gathered sets and commits, stated over the listed keys. */
  lemma GatherUnions(analyze: Analyzer, byPrefix: Dict<string, seq<Commit>>, keys: seq<string>)
    requires forall k :: k in keys ==> k in byPrefix.table
    ensures var g := Gather(analyze, byPrefix, keys);
      && (forall f :: f in g.files <==>
            exists p :: Listed(byPrefix, keys, p) && f in analyze(p, byPrefix.table[p]).files)
      && (forall f :: f in g.directFiles <==>
            exists p :: Listed(byPrefix, keys, p) && f in analyze(p, byPrefix.table[p]).directFiles)
      && (forall c :: c in g.commits <==> exists p :: Listed(byPrefix, keys, p) && c in byPrefix.table[p])
  {
    GatherFiles(analyze, byPrefix, keys);
    GatherDirectFiles(analyze, byPrefix, keys);
    GatherCommits(analyze, byPrefix, keys);
  }

  lemma {:induction false} GatherFiles(analyze: Analyzer, byPrefix: Dict<string, seq<Commit>>, keys: seq<string>)
    requires forall k :: k in keys ==> k in byPrefix.table
    ensures forall f :: f in Gather(analyze, byPrefix, keys).files <==>
      exists p :: Listed(byPrefix, keys, p) && f in analyze(p, byPrefix.table[p]).files
    decreases |keys|
  {
    if keys != [] {
      var init := keys[..|keys| - 1];
      var k := keys[|keys| - 1];
      assert keys == init + [k];
      assert forall x :: x in init ==> x in keys;
      GatherFiles(analyze, byPrefix, init);
      var g := Gather(analyze, byPrefix, init);
      var g' := Gather(analyze, byPrefix, keys);
      forall f ensures f in g'.files <==> exists p :: Listed(byPrefix, keys, p) && f in analyze(p, byPrefix.table[p]).files {
        if f in g.files {
          var p :| Listed(byPrefix, init, p) && f in analyze(p, byPrefix.table[p]).files;
          assert Listed(byPrefix, keys, p);
        } else if f in g'.files {
          assert Listed(byPrefix, keys, k);
        }
        if exists p :: Listed(byPrefix, keys, p) && f in analyze(p, byPrefix.table[p]).files {
          var p :| Listed(byPrefix, keys, p) && f in analyze(p, byPrefix.table[p]).files;
          if p != k {
            assert Listed(byPrefix, init, p);
          }
        }
      }
    }
  }

  lemma {:induction false} GatherDirectFiles(analyze: Analyzer, byPrefix: Dict<string, seq<Commit>>, keys: seq<string>)
    requires forall k :: k in keys ==> k in byPrefix.table
    ensures forall f :: f in Gather(analyze, byPrefix, keys).directFiles <==>
      exists p :: Listed(byPrefix, keys, p) && f in analyze(p, byPrefix.table[p]).directFiles
    decreases |keys|
  {
    if keys != [] {
      var init := keys[..|keys| - 1];
      var k := keys[|keys| - 1];
      assert keys == init + [k];
      assert forall x :: x in init ==> x in keys;
      GatherDirectFiles(analyze, byPrefix, init);
      var g := Gather(analyze, byPrefix, init);
      var g' := Gather(analyze, byPrefix, keys);
      forall f ensures f in g'.directFiles <==> exists p :: Listed(byPrefix, keys, p) && f in analyze(p, byPrefix.table[p]).directFiles {
        if f in g.directFiles {
          var p :| Listed(byPrefix, init, p) && f in analyze(p, byPrefix.table[p]).directFiles;
          assert Listed(byPrefix, keys, p);
        } else if f in g'.directFiles {
          assert Listed(byPrefix, keys, k);
        }
        if exists p :: Listed(byPrefix, keys, p) && f in analyze(p, byPrefix.table[p]).directFiles {
          var p :| Listed(byPrefix, keys, p) && f in analyze(p, byPrefix.table[p]).directFiles;
          if p != k {
            assert Listed(byPrefix, init, p);
          }
        }
      }
    }
  }

  lemma {:induction false} GatherCommits(analyze: Analyzer, byPrefix: Dict<string, seq<Commit>>, keys: seq<string>)
    requires forall k :: k in keys ==> k in byPrefix.table
    ensures forall c :: c in Gather(analyze, byPrefix, keys).commits <==>
      exists p :: Listed(byPrefix, keys, p) && c in byPrefix.table[p]
    decreases |keys|
  {
    if keys != [] {
      var init := keys[..|keys| - 1];
      var k := keys[|keys| - 1];
      assert keys == init + [k];
      assert forall x :: x in init ==> x in keys;
      GatherCommits(analyze, byPrefix, init);
      var g := Gather(analyze, byPrefix, init);
      var g' := Gather(analyze, byPrefix, keys);
      forall c ensures c in g'.commits <==> exists p :: Listed(byPrefix, keys, p) && c in byPrefix.table[p] {
        if c in g.commits {
          var p :| Listed(byPrefix, init, p) && c in byPrefix.table[p];
          assert Listed(byPrefix, keys, p);
        } else if c in g'.commits {
          assert Listed(byPrefix, keys, k);
        }
        if exists p :: Listed(byPrefix, keys, p) && c in byPrefix.table[p] {
          var p :| Listed(byPrefix, keys, p) && c in byPrefix.table[p];
          if p != k {
            assert Listed(byPrefix, init, p);
          }
        }
      }
    }
  }

  /** Every kept commit sits under its own hash and comes from the list; every hash of the list is kept. */
  ghost predicate Deduplicated(commits: seq<Commit>, d: Dict<string, Commit>) {
    && (forall h :: h in d.table ==> d.table[h].hash == h && d.table[h] in commits)
    && (forall c :: c in commits ==> c.hash in d.table)
  }

  lemma {:induction false} UniqueFacts(commits: seq<Commit>)
    ensures Deduplicated(commits, Unique(commits))
    decreases |commits|
  {
    if commits != [] {
      var init := commits[..|commits| - 1];
      assert commits == init + [commits[|commits| - 1]];
      UniqueFacts(init);
    }
  }

  /** `list(unique_commits.values())`: one commit per distinct hash of the list, each taken from it. */
  lemma CombinedCommitsDistinct(commits: seq<Commit>)
    ensures var vs := Unique(commits).Values();
      && (forall i, j :: 0 <= i < j < |vs| ==> vs[i].hash != vs[j].hash)
      && (forall v :: v in vs ==> v in commits)
      && (forall c :: c in commits ==> exists v :: v in vs && v.hash == c.hash)
  {
    UniqueFacts(commits);
    DeduplicatedValues(commits, Unique(commits));
  }

  /** The values of any table keyed by hash that deduplicates `commits`. */
  lemma DeduplicatedValues(commits: seq<Commit>, d: Dict<string, Commit>)
    requires d.Valid() && Deduplicated(commits, d)
    ensures var vs := d.Values();
      && (forall i, j :: 0 <= i < j < |vs| ==> vs[i].hash != vs[j].hash)
      && (forall v :: v in vs ==> v in commits)
      && (forall c :: c in commits ==> exists v :: v in vs && v.hash == c.hash)
  {
    ValuesByPosition(commits, d);
    ValuesCover(commits, d);
  }

  /** Every hash of the list is the hash of some value of the table. */
  lemma ValuesCover(commits: seq<Commit>, d: Dict<string, Commit>)
    requires d.Valid() && Deduplicated(commits, d)
    ensures forall c :: c in commits ==> exists v :: v in d.Values() && v.hash == c.hash
  {
    var vs := d.Values();
    forall c | c in commits ensures exists v :: v in vs && v.hash == c.hash {
      var i :| 0 <= i < |d.keys| && d.keys[i] == c.hash;
      assert d.keys[i] in d.table;
      assert vs[i] in vs && vs[i].hash == c.hash;
    }
  }

  /** The value at each position is a commit of the list filed under the key at that position. */
  lemma ValuesByPosition(commits: seq<Commit>, d: Dict<string, Commit>)
    requires d.Valid() && Deduplicated(commits, d)
    ensures forall i :: 0 <= i < |d.keys| ==> d.Values()[i].hash == d.keys[i] && d.Values()[i] in commits
  {
    forall i | 0 <= i < |d.keys| ensures d.Values()[i].hash == d.keys[i] && d.Values()[i] in commits {
      assert d.keys[i] in d.table;
    }
  }

  /** The combined view holds a result for exactly the prefixes with commits, each the analysis of that prefix's list. */
  lemma MultiAnalysisTable(env: Env, prefixes: seq<string>, byPrefix: Dict<string, seq<Commit>>)
    requires byPrefix.Valid()
    ensures var a := MultiAnalysisOf(env, prefixes, byPrefix);
      && (forall p :: p in a.prefixResults.table <==> p in byPrefix.table && byPrefix.table[p] != [])
      && (forall p :: p in a.prefixResults.table ==>
            && a.prefixResults.table[p] == PrefixResultOf(env, p, byPrefix.table[p])
            && a.prefixResults.table[p].commits == byPrefix.table[p]
            && a.prefixResults.table[p].directFiles <= a.prefixResults.table[p].files)
  {
    var analyze := Analyze(env);
    var g := Gather(analyze, byPrefix, byPrefix.keys);
    assert MultiAnalysisOf(env, prefixes, byPrefix).prefixResults == g.results;
    GatherTable(analyze, byPrefix, byPrefix.keys);
    forall p | p in g.results.table
      ensures g.results.table[p].directFiles <= g.results.table[p].files
    {
      PrefixResultFacts(env, p, byPrefix.table[p]);
    }
  }

  /** The combined file sets are the unions of the per-prefix sets. */
  lemma MultiAnalysisFiles(env: Env, prefixes: seq<string>, byPrefix: Dict<string, seq<Commit>>)
    requires byPrefix.Valid()
    ensures var a := MultiAnalysisOf(env, prefixes, byPrefix);
      && (forall f :: f in a.combinedFiles <==> exists p :: p in a.prefixResults.table && f in a.prefixResults.table[p].files)
      && (forall f :: f in a.combinedDirectFiles <==>
            exists p :: p in a.prefixResults.table && f in a.prefixResults.table[p].directFiles)
  {
    var analyze := Analyze(env);
    var g := Gather(analyze, byPrefix, byPrefix.keys);
    var a := MultiAnalysisOf(env, prefixes, byPrefix);
    assert a.prefixResults == g.results && a.combinedFiles == g.files && a.combinedDirectFiles == g.directFiles;
    GatherFacts(analyze, byPrefix, byPrefix.keys);
  }

  /** Every hash of every result's commits is the hash of some commit of `vs`. */
  ghost predicate HashesCovered(results: Dict<string, PrefixResult>, vs: seq<Commit>) {
    forall p, c :: p in results.table && c in results.table[p].commits ==> exists v :: v in vs && v.hash == c.hash
  }

  /** Deduplicating the commits of a set of results: one per distinct hash, each from some result, every hash kept. */
  lemma CombinedFromResults(results: Dict<string, PrefixResult>, commits: seq<Commit>)
    requires forall c :: c in commits <==> exists p :: p in results.table && c in results.table[p].commits
    ensures forall i, j :: 0 <= i < j < |Unique(commits).Values()| ==>
      Unique(commits).Values()[i].hash != Unique(commits).Values()[j].hash
    ensures forall v :: v in Unique(commits).Values() ==> exists p :: p in results.table && v in results.table[p].commits
    ensures HashesCovered(results, Unique(commits).Values())
  {
    CombinedCommitsDistinct(commits);
    CoveredBy(results, commits, Unique(commits).Values());
  }

  /** When `vs` carries the hash of every commit of the list, it carries every hash of every result. */
  lemma CoveredBy(results: Dict<string, PrefixResult>, commits: seq<Commit>, vs: seq<Commit>)
    requires forall c :: c in commits <==> exists p :: p in results.table && c in results.table[p].commits
    requires forall c :: c in commits ==> exists v :: v in vs && v.hash == c.hash
    ensures HashesCovered(results, vs)
  {
    forall p, c | p in results.table && c in results.table[p].commits
      ensures exists v :: v in vs && v.hash == c.hash
    {
      assert c in commits;
      var v :| v in vs && v.hash == c.hash;
    }
    assert forall p, c :: p in results.table && c in results.table[p].commits ==> exists v :: v in vs && v.hash == c.hash;
  }

  /**
    When the analyser keeps each list as its result's commits, deduplicating
    the gathered commits leaves one per distinct hash, each from some result,
    and every hash of every result kept.
   */
  lemma GatheredCommitsCombined(analyze: Analyzer, byPrefix: Dict<string, seq<Commit>>, keys: seq<string>, g: Gathering)
    requires forall k :: k in keys ==> k in byPrefix.table
    requires forall p, cs :: analyze(p, cs).commits == cs
    requires g == Gather(analyze, byPrefix, keys)
    ensures forall i, j :: 0 <= i < j < |Unique(g.commits).Values()| ==>
      Unique(g.commits).Values()[i].hash != Unique(g.commits).Values()[j].hash
    ensures forall v :: v in Unique(g.commits).Values() ==>
      exists p :: p in g.results.table && v in g.results.table[p].commits
    ensures HashesCovered(g.results, Unique(g.commits).Values())
  {
    GatherFacts(analyze, byPrefix, keys);
    forall p | p in g.results.table ensures g.results.table[p].commits == byPrefix.table[p] {
    }
    CombinedFromResults(g.results, g.commits);
  }

  /**
    The combined commits: one per distinct hash, each from some prefix's
    list, and every hash of every list represented.
   */
  lemma MultiAnalysisCommits(env: Env, prefixes: seq<string>, byPrefix: Dict<string, seq<Commit>>)
    requires byPrefix.Valid()
    ensures var a := MultiAnalysisOf(env, prefixes, byPrefix);
      && (forall i, j :: 0 <= i < j < |a.combinedCommits| ==> a.combinedCommits[i].hash != a.combinedCommits[j].hash)
      && (forall v :: v in a.combinedCommits ==>
            exists p :: p in a.prefixResults.table && v in a.prefixResults.table[p].commits)
      && HashesCovered(a.prefixResults, a.combinedCommits)
      && a.summary.totalCommits == |a.combinedCommits|
  {
    var analyze := Analyze(env);
    var g := Gather(analyze, byPrefix, byPrefix.keys);
    var a := MultiAnalysisOf(env, prefixes, byPrefix);
    assert a.prefixResults == g.results;
    assert a.combinedCommits == Unique(g.commits).Values();
    GatheredCommitsCombined(analyze, byPrefix, byPrefix.keys, g);
  }

  /** Each per-prefix result: its direct files among its files, which are the union of the commits' changed files. */
  lemma PrefixResultFacts(env: Env, prefix: string, commits: seq<Commit>)
    ensures var r := PrefixResultOf(env, prefix, commits);
      && r.directFiles <= r.files
      && (forall f :: f in r.directFiles <==> exists c :: c in commits && f in c.filesChanged)
      && (forall f :: f in r.files - r.directFiles ==> env.pathExists(f))
  {
    var r := PrefixResultOf(env, prefix, commits);
    forall f ensures f in r.directFiles <==> exists c :: c in commits && f in c.filesChanged {
      DirectFilesIff(commits, f);
    }
    DependenciesExist(env, r.directFiles);
  }

  /** A prefix result is an analysis of the commits the fast query filed under a kept, requested prefix. */
  lemma AnalyzeMultiplePrefixesKeys(env: Env, prefixes: seq<string>, since: Option<string>)
    ensures var r := AnalyzeMultiplePrefixesSpec(env, prefixes, since);
      r.Ok? ==> forall p :: p in r.value.prefixResults.table ==>
        && Kept(prefixes, p)
        && FastQuery(env, prefixes, since, None, None).Ok?
        && p in FastQuery(env, prefixes, since, None, None).value.table
        && r.value.prefixResults.table[p] == PrefixResultOf(env, p, FastQuery(env, prefixes, since, None, None).value.table[p])
        && r.value.prefixResults.table[p].commits != []
  {
    var q := FastQuery(env, prefixes, since, None, None);
    if q.Ok? {
      FastQueryKeys(env, prefixes, since, None, None);
      MultiAnalysisTable(env, prefixes, q.value);
    }
  }

  // ---------------------------------------------------------------------
  // analyze_requirement
  // ---------------------------------------------------------------------

  /** The five prefix templates for a requirement id, followed by the extra patterns. */
  function RequirementPrefixes(requirementId: string, patterns: Option<seq<string>>): seq<string> {
    [requirementId + ":", "feat(" + requirementId + "):", "fix(" + requirementId + "):",
     "feat: " + requirementId, "fix: " + requirementId]
    + patterns.GetOr([])
  }

  /** `RequirementAnalyzer.analyze_requirement`. */
  method AnalyzeRequirement(env: Env, requirementId: string, patterns: Option<seq<string>>, since: Option<string>)
    returns (r: Result<MultiAnalysis>)
    ensures r == AnalyzeMultiplePrefixesSpec(env, RequirementPrefixes(requirementId, patterns), since)
  {
    var extra := if patterns.None? then [] else patterns.value;
    var prefixes := [requirementId + ":", "feat(" + requirementId + "):", "fix(" + requirementId + "):",
                     "feat: " + requirementId, "fix: " + requirementId] + extra;
    r := AnalyzeMultiplePrefixes(env, prefixes, since);
  }

  /**
    The extra patterns come after the templates, so a pattern that
    normalises like a template takes its place: the pattern is kept and the
    template receives no commits.
   */
  lemma PatternOverridesTemplate(requirementId: string, patterns: seq<string>, j: nat, t: nat)
    requires j < |patterns| && t < 5
    requires forall k :: j < k < |patterns| ==> NormalizePrefix(patterns[k]) != NormalizePrefix(patterns[j])
    requires NormalizePrefix(RequirementPrefixes(requirementId, Some(patterns))[t]) == NormalizePrefix(patterns[j])
    requires RequirementPrefixes(requirementId, Some(patterns))[t] != patterns[j]
    ensures Kept(RequirementPrefixes(requirementId, Some(patterns)), patterns[j])
    ensures !Kept(RequirementPrefixes(requirementId, Some(patterns)), RequirementPrefixes(requirementId, Some(patterns))[t])
  {
    var ps := RequirementPrefixes(requirementId, Some(patterns));
    assert forall k :: 0 <= k < |patterns| ==> ps[5 + k] == patterns[k];
    NormalizedPrefixesLastWins(ps, 5 + j);
  }
}
