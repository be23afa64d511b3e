/**
  Per-commit detail queries of git_commit_analyzer.py: the batched file and
  stat resolvers, `_get_commit_details`, and the numstat/name-status
  combinator `_get_commit_file_changes` with the grouping by file path built
  on it (`get_file_changes_by_commits`).
 */
module Details {
  import opened Wrappers
  import opened PyText
  import opened GitLog
  import opened Dicts
  import Stats

  // ---------------------------------------------------------------------
  // Output lines
  // ---------------------------------------------------------------------

  /** `[line.strip() for line in lines if line.strip()]`. */
  function StrippedLines(lines: seq<string>): (r: seq<string>)
    ensures |r| <= |lines|
    decreases |lines|
  {
    if lines == [] then []
    else
      var rest := StrippedLines(lines[1..]);
      var t := Strip(lines[0]);
      if t == [] then rest else [t] + rest
  }

  /** Every kept line is non-blank and already stripped. */
  lemma {:induction false} StrippedLinesAreStripped(lines: seq<string>)
    ensures forall l :: l in StrippedLines(lines) ==> l != "" && Strip(l) == l
    decreases |lines|
  {
    if lines != [] {
      StrippedLinesAreStripped(lines[1..]);
      var t := Strip(lines[0]);
      if t != "" {
        StripOfStripped(t);
      }
    }
  }

  /** `[line.strip() for line in lines]`. */
  function StripEach(lines: seq<string>): (ts: seq<string>)
    ensures |ts| == |lines|
    ensures forall i :: 0 <= i < |lines| ==> ts[i] == Strip(lines[i])
  {
    seq(|lines|, i requires 0 <= i < |lines| => Strip(lines[i]))
  }

  /** `[t for t in ts if t]`: the non-empty strings of `ts`, in order. */
  function NonBlank(ts: seq<string>): (r: seq<string>)
    ensures forall x :: x in r <==> x in ts && x != ""
    decreases |ts|
  {
    if ts == [] then []
    else (if ts[0] == "" then [] else [ts[0]]) + NonBlank(ts[1..])
  }

  /** The comprehension is the stripped lines with the empty results filtered out, in order. */
  lemma {:induction false} StrippedLinesKeep(lines: seq<string>)
    ensures StrippedLines(lines) == NonBlank(StripEach(lines))
    decreases |lines|
  {
    if lines != [] {
      var ts := StripEach(lines);
      StripEachTail(lines);
      assert NonBlank(ts) == (if ts[0] == "" then [] else [ts[0]]) + NonBlank(StripEach(lines[1..]));
      StrippedLinesKeep(lines[1..]);
    }
  }

  lemma StripEachTail(lines: seq<string>)
    requires lines != []
    ensures StripEach(lines)[0] == Strip(lines[0])
    ensures StripEach(lines)[1..] == StripEach(lines[1..])
  {
    var ts, rest := StripEach(lines), StripEach(lines[1..]);
    forall i | 0 <= i < |rest| ensures ts[1..][i] == rest[i] {
      assert lines[1..][i] == lines[i + 1];
    }
  }

  /** A string is kept exactly when it is non-empty and the stripped form of some line. */
  lemma StrippedLinesIff(lines: seq<string>, x: string)
    ensures x in StrippedLines(lines) <==> x != "" && exists l :: l in lines && Strip(l) == x
  {
    StrippedLinesKeep(lines);
    var ts := StripEach(lines);
    if x in ts {
      var i :| 0 <= i < |ts| && ts[i] == x;
      assert lines[i] in lines;
    }
    if exists l :: l in lines && Strip(l) == x {
      var l :| l in lines && Strip(l) == x;
      var i :| 0 <= i < |lines| && lines[i] == l;
      assert ts[i] == x;
    }
  }

  /** The file names `git show --name-only --format=` prints. */
  function ChangedFiles(out: string): (files: seq<string>)
    ensures |files| <= |Split(out, '\n')|
    ensures forall f :: f in files ==> f != "" && Strip(f) == f
    ensures forall x :: x in files <==> x != "" && exists l :: l in Split(out, '\n') && Strip(l) == x
  {
    var lines := Split(out, '\n');
    StrippedLinesAreStripped(lines);
    assert forall x :: x in StrippedLines(lines) <==> x != "" && exists l :: l in lines && Strip(l) == x by {
      forall x ensures x in StrippedLines(lines) <==> x != "" && exists l :: l in lines && Strip(l) == x {
        StrippedLinesIff(lines, x);
      }
    }
    StrippedLines(lines)
  }

  // ---------------------------------------------------------------------
  // Batched resolvers
  // ---------------------------------------------------------------------

  const BatchSize: nat := 50

  /** What one hash resolves to: the fetched value, or the default when its own git call fails. */
  function Resolved<V>(fetch: string -> Result<V>, default: V, h: string): V {
    match fetch(h)
    case Ok(v) => v
    case Err(_) => default
  }

  /**
    The loop shared by `_get_commits_files_batch` and
    `_get_commits_stats_batch`: hashes in batches of fifty; within a batch
    each hash is fetched in turn until one fails, and then the whole batch is
    fetched again one hash at a time, a failing hash getting the default.
   */
  method ResolveInBatches<V>(hashes: seq<string>, fetch: string -> Result<V>, default: V) returns (info: map<string, V>)
    ensures forall h :: h in info <==> h in hashes
    ensures forall h :: h in info ==> info[h] == Resolved(fetch, default, h)
  {
    info := map[];
    if |hashes| == 0 {
      return;
    }
    var i := 0;
    while i < |hashes|
      invariant 0 <= i <= |hashes|
      invariant forall h :: h in info <==> h in hashes[..i]
      invariant forall h :: h in info ==> info[h] == Resolved(fetch, default, h)
    {
      var end := if i + BatchSize <= |hashes| then i + BatchSize else |hashes|;
      var batch := hashes[i..end];
      var j := 0;
      var failed := false;
      while j < |batch| && !failed
        invariant 0 <= j <= |batch|
        invariant forall h :: h in info <==> h in hashes[..i] || h in batch[..j]
        invariant forall h :: h in info ==> info[h] == Resolved(fetch, default, h)
        decreases |batch| - j, if failed then 0 else 1
      {
        var r := fetch(batch[j]);
        if r.Ok? {
          info := info[batch[j] := r.value];
          assert batch[..j + 1] == batch[..j] + [batch[j]];
          j := j + 1;
        } else {
          failed := true;
        }
      }
      if failed {
        var k := 0;
        while k < |batch|
          invariant 0 <= k <= |batch|
          invariant forall h :: h in info <==> h in hashes[..i] || h in batch[..j] || h in batch[..k]
          invariant forall h :: h in info ==> info[h] == Resolved(fetch, default, h)
        {
          var r := fetch(batch[k]);
          info := info[batch[k] := if r.Ok? then r.value else default];
          assert batch[..k + 1] == batch[..k] + [batch[k]];
          k := k + 1;
        }
        assert batch[..k] == batch;
      } else {
        assert batch[..j] == batch;
      }
      assert hashes[..end] == hashes[..i] + batch;
      assert forall h :: h in batch[..j] ==> h in batch;
      i := end;
    }
    assert hashes[..i] == hashes;
  }

  function FilesFetch(env: Env, h: string): Result<seq<string>> {
    match RunGit(env, ["show", "--name-only", "--format=", h])
    case Ok(out) => Ok(ChangedFiles(out))
    case Err(e) => Err(e)
  }

  function StatsFetch(env: Env, h: string): Result<(nat, nat)> {
    match RunGit(env, ["show", "--stat", "--format=", h])
    case Ok(out) => Ok(Stats.ParseStats(out))
    case Err(e) => Err(e)
  }

  /** `_get_commits_files_batch`: every hash maps to its changed files, or `[]` where git fails for it. */
  method CommitsFilesBatch(env: Env, hashes: seq<string>) returns (info: map<string, seq<string>>)
    ensures forall h :: h in info <==> h in hashes
    ensures forall h :: h in info ==> info[h] == (if FilesFetch(env, h).Ok? then FilesFetch(env, h).value else [])
    ensures forall h, l :: h in info && l in info[h] ==> l != "" && Strip(l) == l
  {
    info := ResolveInBatches(hashes, h => FilesFetch(env, h), []);
    forall h | h in info
      ensures forall l :: l in info[h] ==> l != "" && Strip(l) == l
    {
      FilesFetchStripped(env, h);
    }
  }

  /** Every name `_get_commits_files_batch` records is non-empty and already stripped. */
  lemma FilesFetchStripped(env: Env, h: string)
    ensures FilesFetch(env, h).Ok? ==> forall l :: l in FilesFetch(env, h).value ==> l != "" && Strip(l) == l
  {
    if FilesFetch(env, h).Ok? {
      var out := RunGit(env, ["show", "--name-only", "--format=", h]).value;
      StrippedLinesAreStripped(Split(out, '\n'));
    }
  }

  /** `_get_commits_stats_batch`: every hash maps to its parsed stats, or `(0, 0)` where git fails for it. */
  method CommitsStatsBatch(env: Env, hashes: seq<string>) returns (info: map<string, (nat, nat)>)
    ensures forall h :: h in info <==> h in hashes
    ensures forall h :: h in info ==> info[h] == (if StatsFetch(env, h).Ok? then StatsFetch(env, h).value else (0, 0))
  {
    info := ResolveInBatches(hashes, h => StatsFetch(env, h), (0, 0));
  }

  // ---------------------------------------------------------------------
  // One commit in detail
  // ---------------------------------------------------------------------

  /** `git show --pretty=format:%H|%an|%ae|%ad|%s --date=iso --name-only <hash>`. */
  function DetailArgs(hash: string): seq<string> {
    ["show", "--pretty=format:%H|%an|%ae|%ad|%s", "--date=iso", "--name-only", hash]
  }

  /**
    `_get_commit_details`. Nothing is guarded: a failing git call, a header
    line without five fields and an unparsable date all raise, here `Err`.
    The stat query uses the hash read back from the header, which the
    source assigns over its argument.
   */
  function CommitDetails(env: Env, hash: string): (r: Result<Commit>)
    ensures r.Ok? ==> RunGit(env, DetailArgs(hash)).Ok?
  {
    var basic :- RunGit(env, DetailArgs(hash));
    var lines := Split(basic, '\n');
    match SplitRecord(lines[0])
    case None => Err("not enough values to unpack")
    case Some(header) =>
      match ParseLogDate(env, header.dateText)
      case None => Err("invalid isoformat string")
      case Some(date) =>
        var stats :- StatsFetch(env, header.hash);
        Ok(Commit(header.hash, header.author, header.email, date, header.message, StrippedLines(lines[1..]), stats.0, stats.1))
  }

  /** The header line of the detail output. */
  function DetailHeaderLine(env: Env, hash: string): string
    requires RunGit(env, DetailArgs(hash)).Ok?
  {
    Split(RunGit(env, DetailArgs(hash)).value, '\n')[0]
  }

  /**
    `_get_commit_details` succeeds exactly when git answers, its first line
    has at least four `|`, the date field parses and the stat query for the
    header's hash succeeds.
   */
  lemma CommitDetailsOk(env: Env, hash: string)
    ensures CommitDetails(env, hash).Ok? <==>
      && RunGit(env, DetailArgs(hash)).Ok?
      && Count(DetailHeaderLine(env, hash), '|') >= 4
      && ParseLogDate(env, SplitRecord(DetailHeaderLine(env, hash)).value.dateText).Some?
      && StatsFetch(env, SplitRecord(DetailHeaderLine(env, hash)).value.hash).Ok?
  {
  }

  /**
    A commit read in detail: its first five fields are the header line's,
    split at the first four `|`; its files are the stripped non-blank lines
    after the header; its counts are the parsed stat summary of its hash.
   */
  lemma CommitDetailsFields(env: Env, hash: string)
    requires CommitDetails(env, hash).Ok?
    ensures var c := CommitDetails(env, hash).value;
      var line := DetailHeaderLine(env, hash);
      && line == c.hash + "|" + c.author + "|" + c.email + "|" + SplitRecord(line).value.dateText + "|" + c.message
      && '|' !in c.hash && '|' !in c.author && '|' !in c.email
      && ParseLogDate(env, SplitRecord(line).value.dateText) == Some(c.date)
      && c.filesChanged == StrippedLines(Split(RunGit(env, DetailArgs(hash)).value, '\n')[1..])
      && StatsFetch(env, c.hash) == Ok((c.additions, c.deletions))
  {
  }

  // ---------------------------------------------------------------------
  // Numstat and name-status
  // ---------------------------------------------------------------------

  /** A numstat line: it holds a tab and its first tab field is all digits. */
  predicate IsNumstatLine(line: string) {
    '\t' in line && IsDigits(Split(line, '\t')[0])
  }

  /** A name-status line, as the `elif` tests it: any other line starting with A, M, D, R or C. */
  predicate IsStatusLine(line: string) {
    !IsNumstatLine(line) && line != [] && line[0] in "AMDRC"
  }

  /** The lines of `lines` satisfying `p`, in order. */
  function Select(lines: seq<string>, p: string -> bool): (r: seq<string>)
    ensures |r| <= |lines|
    ensures forall i :: 0 <= i < |r| ==> p(r[i]) && r[i] in lines
    decreases |lines|
  {
    if lines == [] then []
    else
      var init := Select(lines[..|lines| - 1], p);
      var last := lines[|lines| - 1];
      assert forall l :: l in lines[..|lines| - 1] ==> l in lines;
      if p(last) then init + [last] else init
  }

  /** Python's `int(field) if field != '-' else 0`, `None` where `int` raises. */
  function FieldCount(field: string): Option<int> {
    if field == "-" then Some(0) else PyInt(field)
  }

  /**
    The change built from numstat line `line` and the name-status line paired
    with it, if any: `Ok(None)` when the line has fewer than three tab fields,
    `Err` when a count does not parse (the source's `except` then drops every
    change of the commit).
   */
  function ChangeOf(line: string, status: Option<string>): Result<Option<FileChange>> {
    var parts := Split(line, '\t');
    if |parts| < 3 then Ok(None)
    else
      match FieldCount(parts[0])
      case None => Err("invalid literal for int()")
      case Some(additions) =>
        match FieldCount(parts[1])
        case None => Err("invalid literal for int()")
        case Some(deletions) =>
          if status == Some("") then Err("string index out of range") else
          var changeType := if status.Some? then status.value[0] else 'M';
          var statusParts := if status.Some? then Split(status.value, '\t') else [];
          if changeType == 'R' && |statusParts| >= 3 then
            Ok(Some(FileChange(statusParts[2], changeType, additions, deletions, Some(statusParts[1]))))
          else
            Ok(Some(FileChange(parts[2], changeType, additions, deletions, None)))
  }

  /** The status line paired with the `i`-th numstat line. */
  function StatusFor(statuses: seq<string>, i: nat): Option<string> {
    if i < |statuses| then Some(statuses[i]) else None
  }

  /** How one numstat line and its status line become a change; `ChangeOf` in the model. */
  type Builder = (string, Option<string>) -> Result<Option<FileChange>>

  /** The changes built by `build` from the first `n` numstat lines, or `Err` once one of them raises. */
  function PairUpTo(build: Builder, nums: seq<string>, statuses: seq<string>, n: nat): Result<seq<FileChange>>
    requires n <= |nums|
    decreases n
  {
    if n == 0 then Ok([])
    else
      match PairUpTo(build, nums, statuses, n - 1)
      case Err(e) => Err(e)
      case Ok(cs) =>
        match build(nums[n - 1], StatusFor(statuses, n - 1))
        case Err(e) => Err(e)
        case Ok(None) => Ok(cs)
        case Ok(Some(c)) => Ok(cs + [c])
  }

  /** The numstat and name-status lines of the stripped output lines. */
  function NumstatLines(lines: seq<string>): seq<string> {
    Select(lines, IsNumstatLine)
  }

  function StatusLines(lines: seq<string>): (r: seq<string>)
    ensures forall i :: 0 <= i < |r| ==> r[i] != [] && r[i][0] in "AMDRC"
  {
    Select(lines, IsStatusLine)
  }

  const NumstatArgsHead: seq<string> := ["show", "--numstat", "--name-status", "--format="]

  /** What `_get_commit_file_changes` returns, as one expression. */
  function FileChanges(env: Env, hash: string): seq<FileChange> {
    match RunGit(env, NumstatArgsHead + [hash])
    case Err(_) => []
    case Ok(out) =>
      var lines := StrippedLines(Split(out, '\n'));
      var nums := NumstatLines(lines);
      match PairUpTo(ChangeOf, nums, StatusLines(lines), |nums|)
      case Err(_) => []
      case Ok(cs) => cs
  }

  /** Once a prefix raises, every longer prefix raises. */
  lemma {:induction false} PairUpToErrStays(build: Builder, nums: seq<string>, statuses: seq<string>, m: nat, n: nat)
    requires m <= n <= |nums|
    requires PairUpTo(build, nums, statuses, m).Err?
    ensures PairUpTo(build, nums, statuses, n).Err?
    decreases n - m
  {
    if m < n {
      PairUpToErrStays(build, nums, statuses, m + 1, n);
    }
  }

  /** The first loop of `_get_commit_file_changes`: the numstat and name-status lines, in order. */
  method ClassifyLines(lines: seq<string>) returns (nums: seq<string>, statuses: seq<string>)
    requires forall l :: l in lines ==> l != []
    ensures nums == NumstatLines(lines)
    ensures statuses == StatusLines(lines)
  {
    nums, statuses := [], [];
    var k := 0;
    while k < |lines|
      invariant 0 <= k <= |lines|
      invariant nums == Select(lines[..k], IsNumstatLine)
      invariant statuses == Select(lines[..k], IsStatusLine)
    {
      var line := lines[k];
      assert line in lines;
      assert lines[..k + 1][..k] == lines[..k];
      if IsNumstatLine(line) {
        nums := nums + [line];
      } else if line[0] in "AMDRC" {
        statuses := statuses + [line];
      }
      k := k + 1;
    }
    assert lines[..k] == lines;
  }

  /** The second loop of `_get_commit_file_changes`: pair the `i`-th numstat line with the `i`-th status line. */
  method PairChanges(build: Builder, nums: seq<string>, statuses: seq<string>) returns (changes: seq<FileChange>)
    ensures PairUpTo(build, nums, statuses, |nums|).Ok? ==> changes == PairUpTo(build, nums, statuses, |nums|).value
    ensures PairUpTo(build, nums, statuses, |nums|).Err? ==> changes == []
  {
    changes := [];
    var i := 0;
    while i < |nums|
      invariant 0 <= i <= |nums|
      invariant PairUpTo(build, nums, statuses, i) == Ok(changes)
    {
      var r := build(nums[i], StatusFor(statuses, i));
      if r.Err? {
        PairUpToErrStays(build, nums, statuses, i + 1, |nums|);
        return [];
      }
      if r.value.Some? {
        changes := changes + [r.value.value];
      }
      i := i + 1;
    }
  }

  /** `_get_commit_file_changes`: the output lines classified, then paired; `[]` on any failure. */
  method CommitFileChanges(env: Env, hash: string) returns (changes: seq<FileChange>)
    ensures changes == FileChanges(env, hash)
  {
    var run := RunGit(env, NumstatArgsHead + [hash]);
    if run.Err? {
      return [];
    }
    var lines := StrippedLines(Split(run.value, '\n'));
    StrippedLinesAreStripped(Split(run.value, '\n'));
    var nums, statuses := ClassifyLines(lines);
    changes := PairChanges(ChangeOf, nums, statuses);
  }

  // ---------------------------------------------------------------------
  // What the combinator guarantees
  // ---------------------------------------------------------------------

  /** The change types a change can carry: the first letter of a name-status line, or `M`. */
  predicate TypedChange(c: FileChange) {
    && c.changeType in "AMDRC"
    && (c.oldPath.Some? ==> c.changeType == 'R')
  }

  lemma ChangeOfTyped(line: string, status: Option<string>)
    requires status.Some? ==> status.value != [] && status.value[0] in "AMDRC"
    ensures ChangeOf(line, status).Ok? && ChangeOf(line, status).value.Some? ==> TypedChange(ChangeOf(line, status).value.value)
  {
    var r := ChangeOf(line, status);
    if r.Ok? && r.value.Some? {
      var c := r.value.value;
      var parts := Split(line, '\t');
      assert |parts| >= 3 && status != Some("");
      var changeType := if status.Some? then status.value[0] else 'M';
      assert c.changeType == changeType;
      assert changeType in "AMDRC";
    }
  }

  /** A builder that types every change it builds for the given status lines. */
  predicate TypesChanges(build: Builder, nums: seq<string>, statuses: seq<string>) {
    forall i :: 0 <= i < |nums| ==>
      build(nums[i], StatusFor(statuses, i)).Ok? && build(nums[i], StatusFor(statuses, i)).value.Some? ==>
        TypedChange(build(nums[i], StatusFor(statuses, i)).value.value)
  }

  lemma {:induction false} PairUpToTyped(build: Builder, nums: seq<string>, statuses: seq<string>, n: nat)
    requires n <= |nums|
    requires TypesChanges(build, nums, statuses)
    ensures PairUpTo(build, nums, statuses, n).Ok? ==> |PairUpTo(build, nums, statuses, n).value| <= n
    ensures PairUpTo(build, nums, statuses, n).Ok? ==> forall c :: c in PairUpTo(build, nums, statuses, n).value ==> TypedChange(c)
    decreases n
  {
    if n > 0 {
      PairUpToTyped(build, nums, statuses, n - 1);
    }
  }

  lemma ChangeOfTypesChanges(nums: seq<string>, statuses: seq<string>)
    requires forall i :: 0 <= i < |statuses| ==> statuses[i] != [] && statuses[i][0] in "AMDRC"
    ensures TypesChanges(ChangeOf, nums, statuses)
  {
    forall i | 0 <= i < |nums|
      ensures ChangeOf(nums[i], StatusFor(statuses, i)).Ok? && ChangeOf(nums[i], StatusFor(statuses, i)).value.Some? ==>
        TypedChange(ChangeOf(nums[i], StatusFor(statuses, i)).value.value)
    {
      ChangeOfTyped(nums[i], StatusFor(statuses, i));
    }
  }

  /**
    Every change carries one of the types A, M, D, R, C, a previous path only
    when it is a rename, and there is at most one change per numstat line.
   */
  lemma FileChangesTyped(env: Env, hash: string)
    ensures forall c :: c in FileChanges(env, hash) ==> TypedChange(c)
    ensures RunGit(env, NumstatArgsHead + [hash]).Ok? ==>
      |FileChanges(env, hash)| <= |NumstatLines(StrippedLines(Split(RunGit(env, NumstatArgsHead + [hash]).value, '\n')))|
  {
    if RunGit(env, NumstatArgsHead + [hash]).Ok? {
      var lines := StrippedLines(Split(RunGit(env, NumstatArgsHead + [hash]).value, '\n'));
      var nums := NumstatLines(lines);
      ChangeOfTypesChanges(nums, StatusLines(lines));
      PairUpToTyped(ChangeOf, nums, StatusLines(lines), |nums|);
    }
  }

  /** A failing git call gives no changes. */
  lemma FileChangesOfFailure(env: Env, hash: string)
    requires RunGit(env, NumstatArgsHead + [hash]).Err?
    ensures FileChanges(env, hash) == []
  {
  }

  /** A binary numstat line `-\t-\tpath` is neither a numstat nor a name-status line, so it is dropped. */
  lemma BinaryNumstatDropped(path: string)
    ensures !IsNumstatLine("-\t-\t" + path)
    ensures !IsStatusLine("-\t-\t" + path)
  {
    var line := "-\t-\t" + path;
    assert line[1] == '\t' && line[0] == '-';
    assert Split(line, '\t')[0] == "-";
  }

  // ---------------------------------------------------------------------
  // Well-formed numstat and name-status lines
  // ---------------------------------------------------------------------

  /** A numstat line `a\td\tpath` with decimal counts. */
  function NumstatLine(a: string, d: string, path: string): string {
    a + "\t" + d + "\t" + path
  }

  /** A name-status line `code\tfirst\tsecond`; a rename has `R` codes and old and new paths. */
  function StatusLine(code: string, first: string, second: string): string {
    code + "\t" + first + "\t" + second
  }

  lemma NumstatLineFields(a: string, d: string, path: string)
    requires IsDigits(a) && IsDigits(d) && '\t' !in path
    ensures Split(NumstatLine(a, d, path), '\t') == [a, d, path]
    ensures IsNumstatLine(NumstatLine(a, d, path))
  {
    assert '\t' !in a && '\t' !in d;
    SplitThree(a, d, path, '\t');
    assert NumstatLine(a, d, path) == a + ['\t'] + d + ['\t'] + path;
  }

  lemma StatusLineFields(code: string, first: string, second: string)
    requires code != [] && code[0] in "AMDRC"
    requires '\t' !in code && '\t' !in first && '\t' !in second
    ensures Split(StatusLine(code, first, second), '\t') == [code, first, second]
    ensures IsStatusLine(StatusLine(code, first, second))
  {
    SplitThree(code, first, second, '\t');
    assert StatusLine(code, first, second) == code + ['\t'] + first + ['\t'] + second;
    assert !IsDigit(code[0]);
  }

  lemma FieldCountOfDigits(a: string)
    requires IsDigits(a)
    ensures FieldCount(a) == Some(DecimalValue(a))
  {
    assert a[0] != '-';
    PyIntOfDigits(a);
  }

  /** `ChangeOf` once the numstat line is known to split into two decimal counts and a path. */
  lemma ChangeOfFields(line: string, status: Option<string>, a: string, d: string, path: string)
    requires Split(line, '\t') == [a, d, path] && IsDigits(a) && IsDigits(d)
    requires status != Some("")
    ensures ChangeOf(line, status) == Ok(Some(
      var changeType := if status.Some? then status.value[0] else 'M';
      var statusParts := if status.Some? then Split(status.value, '\t') else [];
      if changeType == 'R' && |statusParts| >= 3 then
        FileChange(statusParts[2], changeType, DecimalValue(a), DecimalValue(d), Some(statusParts[1]))
      else
        FileChange(path, changeType, DecimalValue(a), DecimalValue(d), None)))
  {
    FieldCountOfDigits(a);
    FieldCountOfDigits(d);
  }

  /** A numstat line paired with a rename status line: the change is on the new path and records the old one. */
  lemma ChangeOfRename(a: string, d: string, path: string, code: string, oldPath: string, newPath: string)
    requires IsDigits(a) && IsDigits(d) && '\t' !in path
    requires code != [] && code[0] == 'R'
    requires '\t' !in code && '\t' !in oldPath && '\t' !in newPath
    ensures ChangeOf(NumstatLine(a, d, path), Some(StatusLine(code, oldPath, newPath)))
         == Ok(Some(FileChange(newPath, 'R', DecimalValue(a), DecimalValue(d), Some(oldPath))))
  {
    NumstatLineFields(a, d, path);
    StatusLineFields(code, oldPath, newPath);
    ChangeOfFields(NumstatLine(a, d, path), Some(StatusLine(code, oldPath, newPath)), a, d, path);
  }

  /** A numstat line paired with a non-rename status line takes that line's type and keeps its own path. */
  lemma ChangeOfStatus(a: string, d: string, path: string, code: string, first: string, second: string)
    requires IsDigits(a) && IsDigits(d) && '\t' !in path
    requires code != [] && code[0] in "AMDC"
    requires '\t' !in code && '\t' !in first && '\t' !in second
    ensures ChangeOf(NumstatLine(a, d, path), Some(StatusLine(code, first, second)))
         == Ok(Some(FileChange(path, code[0], DecimalValue(a), DecimalValue(d), None)))
  {
    NumstatLineFields(a, d, path);
    StatusLineFields(code, first, second);
    ChangeOfFields(NumstatLine(a, d, path), Some(StatusLine(code, first, second)), a, d, path);
  }

  /** A numstat line with no status line left to pair with is a modification. */
  lemma ChangeOfUnpaired(a: string, d: string, path: string)
    requires IsDigits(a) && IsDigits(d) && '\t' !in path
    ensures ChangeOf(NumstatLine(a, d, path), None)
         == Ok(Some(FileChange(path, 'M', DecimalValue(a), DecimalValue(d), None)))
  {
    NumstatLineFields(a, d, path);
    ChangeOfFields(NumstatLine(a, d, path), None, a, d, path);
  }

  lemma PairOutput(num: string, status: string)
    requires Stripped(num) && Stripped(status) && '\n' !in num && '\n' !in status
    ensures Strip(num + "\n" + status) == num + "\n" + status
    ensures Split(num + "\n" + status, '\n') == [num, status]
  {
    var out := num + "\n" + status;
    assert out == num + ['\n'] + status;
    assert out[0] == num[0] && out[|out| - 1] == status[|status| - 1];
    StripOfStripped(out);
    SplitCons(num, status, '\n');
    SplitOfPiece(status, '\n');
  }

  lemma StrippedPair(lines: seq<string>)
    requires |lines| == 2 && Stripped(lines[0]) && Stripped(lines[1])
    ensures StrippedLines(lines) == lines
  {
    StripOfStripped(lines[0]);
    StripOfStripped(lines[1]);
    assert lines[1..][1..] == [];
    assert lines == [lines[0]] + lines[1..];
  }

  lemma ClassifiedPair(lines: seq<string>)
    requires |lines| == 2 && IsNumstatLine(lines[0]) && IsStatusLine(lines[1])
    ensures NumstatLines(lines) == [lines[0]]
    ensures StatusLines(lines) == [lines[1]]
  {
    var init := lines[..1];
    assert init[..0] == [] && init[0] == lines[0];
    assert !IsStatusLine(lines[0]) && !IsNumstatLine(lines[1]);
    assert Select(init, IsNumstatLine) == [lines[0]];
    assert Select(init, IsStatusLine) == [];
  }

  /** An output of one numstat line followed by one name-status line gives the change built from the two. */
  lemma FileChangesOfPair(env: Env, hash: string, num: string, status: string)
    requires env.git(NumstatArgsHead + [hash]) == Ok(num + "\n" + status)
    requires Stripped(num) && Stripped(status) && '\n' !in num && '\n' !in status
    requires IsNumstatLine(num) && IsStatusLine(status)
    ensures FileChanges(env, hash) == match ChangeOf(num, Some(status))
                                      case Ok(Some(c)) => [c]
                                      case _ => []
  {
    PairOutput(num, status);
    StrippedPair([num, status]);
    ClassifiedPair([num, status]);
    assert PairUpTo(ChangeOf, [num], [status], 0) == Ok([]);
  }

  /** The three-field line `x\ty\tz` starts with `x` and ends with `z`, and holds no newline when its fields hold none. */
  lemma TabLineShape(x: string, y: string, z: string)
    requires x != [] && z != []
    requires '\n' !in x && '\n' !in y && '\n' !in z
    ensures (x + "\t" + y + "\t" + z)[0] == x[0]
    ensures (x + "\t" + y + "\t" + z)[|x + "\t" + y + "\t" + z| - 1] == z[|z| - 1]
    ensures '\n' !in x + "\t" + y + "\t" + z
  {
  }

  lemma RenameLiterals()
    ensures IsDigits("3") && IsDigits("1") && DecimalValue("3") == 3 && DecimalValue("1") == 1
    ensures '\t' !in "newname.py" && '\t' !in "oldname.py" && '\t' !in "R100"
    ensures '\n' !in "newname.py" && '\n' !in "oldname.py" && '\n' !in "R100" && '\n' !in "3" && '\n' !in "1"
    ensures "newname.py"[9] == 'y'
  {
    assert "3"[..0] == [] && "1"[..0] == [];
  }

  /**
    `git show --numstat --name-status` printing `3\t1\tnewname.py` and then
    `R100\toldname.py\tnewname.py` gives one change of type `R` on the new
    path, with the old path recorded.
   */
  lemma RenameExample(env: Env, hash: string)
    requires env.git(NumstatArgsHead + [hash]) == Ok(NumstatLine("3", "1", "newname.py") + "\n" + StatusLine("R100", "oldname.py", "newname.py"))
    ensures FileChanges(env, hash) == [FileChange("newname.py", 'R', 3, 1, Some("oldname.py"))]
  {
    RenameLiterals();
    NumstatLineFields("3", "1", "newname.py");
    StatusLineFields("R100", "oldname.py", "newname.py");
    ChangeOfRename("3", "1", "newname.py", "R100", "oldname.py", "newname.py");
    TabLineShape("3", "1", "newname.py");
    TabLineShape("R100", "oldname.py", "newname.py");
    FileChangesOfPair(env, hash, NumstatLine("3", "1", "newname.py"), StatusLine("R100", "oldname.py", "newname.py"));
  }

  // ---------------------------------------------------------------------
  // Changes grouped by file path
  // ---------------------------------------------------------------------

  /** The changes of `cs` on path `p`, in order. */
  function OnPath(cs: seq<FileChange>, p: string): (r: seq<FileChange>)
    ensures forall c :: c in r ==> c in cs && c.filePath == p
    decreases |cs|
  {
    if cs == [] then []
    else
      var init := OnPath(cs[..|cs| - 1], p);
      var last := cs[|cs| - 1];
      assert forall c :: c in cs[..|cs| - 1] ==> c in cs;
      if last.filePath == p then init + [last] else init
  }

  function Paths(cs: seq<FileChange>): (ps: seq<string>)
    ensures |ps| == |cs|
    ensures forall i :: 0 <= i < |cs| ==> ps[i] == cs[i].filePath
  {
    seq(|cs|, i requires 0 <= i < |cs| => cs[i].filePath)
  }

  lemma OnPathSnoc(cs: seq<FileChange>, c: FileChange, p: string)
    ensures OnPath(cs + [c], p) == if c.filePath == p then OnPath(cs, p) + [c] else OnPath(cs, p)
  {
    assert (cs + [c])[..|cs|] == cs;
  }

  lemma PathsSnoc(cs: seq<FileChange>, c: FileChange)
    ensures Paths(cs + [c]) == Paths(cs) + [c.filePath]
  {
  }

  lemma FirstOccurrencesSnoc(ks: seq<string>, k: string)
    ensures FirstOccurrences(ks + [k]) == if k in FirstOccurrences(ks) then FirstOccurrences(ks) else FirstOccurrences(ks) + [k]
  {
    assert (ks + [k])[..|ks|] == ks;
  }

  lemma PathsHas(cs: seq<FileChange>, x: FileChange)
    requires x in cs
    ensures x.filePath in Paths(cs)
  {
    var i :| 0 <= i < |cs| && cs[i] == x;
    assert Paths(cs)[i] == x.filePath;
  }

  /** A path with no change in `cs` has no changes on it. */
  lemma OnPathAbsent(cs: seq<FileChange>, p: string)
    requires p !in Paths(cs)
    ensures OnPath(cs, p) == []
  {
    if OnPath(cs, p) != [] {
      var x := OnPath(cs, p)[0];
      PathsHas(cs, x);
    }
  }

  /** What `get_file_changes_by_commits` does with one more change. */
  function AddChange(d: Dict<string, seq<FileChange>>, c: FileChange): (e: Dict<string, seq<FileChange>>)
    requires d.Valid()
    ensures e.Valid()
  {
    d.Put(c.filePath, (if c.filePath in d.table then d.table[c.filePath] else []) + [c])
  }

  /**
    The dict of lists `get_file_changes_by_commits` grows: one key per path,
    in order of first appearance, each holding the changes on that path in
    order.
   */
  function GroupByPath(cs: seq<FileChange>): (d: Dict<string, seq<FileChange>>)
    ensures d.Valid()
    decreases |cs|
  {
    if cs == [] then Empty() else AddChange(GroupByPath(cs[..|cs| - 1]), cs[|cs| - 1])
  }

  lemma GroupByPathSnoc(cs: seq<FileChange>, c: FileChange)
    ensures GroupByPath(cs + [c]) == AddChange(GroupByPath(cs), c)
  {
    assert (cs + [c])[..|cs|] == cs;
  }

  /** The grouping keeps one key per path, in order of first appearance, with exactly the changes on that path in order. */
  lemma {:induction false} GroupByPathContents(cs: seq<FileChange>)
    ensures GroupByPath(cs).keys == FirstOccurrences(Paths(cs))
    ensures forall p :: p in GroupByPath(cs).table ==> GroupByPath(cs).table[p] == OnPath(cs, p)
    decreases |cs|
  {
    if cs != [] {
      var init, c := cs[..|cs| - 1], cs[|cs| - 1];
      assert cs == init + [c];
      GroupByPathContents(init);
      GroupByPathSnoc(init, c);
      GroupsStep(init, c, GroupByPath(init));
    }
  }

  /** Adding one change keeps the grouping's keys and lists as the grouping of the longer list. */
  lemma GroupsStep(init: seq<FileChange>, c: FileChange, d0: Dict<string, seq<FileChange>>)
    requires d0.Valid()
    requires d0.keys == FirstOccurrences(Paths(init))
    requires forall p :: p in d0.table ==> d0.table[p] == OnPath(init, p)
    ensures AddChange(d0, c).keys == FirstOccurrences(Paths(init + [c]))
    ensures forall p :: p in AddChange(d0, c).table ==> AddChange(d0, c).table[p] == OnPath(init + [c], p)
  {
    PathsSnoc(init, c);
    FirstOccurrencesSnoc(Paths(init), c.filePath);
    if c.filePath !in d0.table {
      OnPathAbsent(init, c.filePath);
    }
    var e := AddChange(d0, c);
    forall p | p in e.table
      ensures e.table[p] == OnPath(init + [c], p)
    {
      OnPathSnoc(init, c, p);
    }
  }

  /** The changes of `commits`, commit by commit. */
  function AllChanges(env: Env, commits: seq<Commit>): seq<FileChange>
    decreases |commits|
  {
    if commits == [] then [] else AllChanges(env, commits[..|commits| - 1]) + FileChanges(env, commits[|commits| - 1].hash)
  }

  lemma AllChangesSnoc(env: Env, commits: seq<Commit>, c: Commit)
    ensures AllChanges(env, commits + [c]) == AllChanges(env, commits) + FileChanges(env, c.hash)
  {
    assert (commits + [c])[..|commits|] == commits;
  }

  /** The inner loop of `get_file_changes_by_commits`: each change appended to the list of its path. */
  method AddChanges(grouped: Dict<string, seq<FileChange>>, before: seq<FileChange>, changes: seq<FileChange>)
    returns (byPath: Dict<string, seq<FileChange>>)
    requires grouped == GroupByPath(before)
    ensures byPath == GroupByPath(before + changes)
  {
    byPath := grouped;
    var j := 0;
    assert before + changes[..0] == before;
    while j < |changes|
      invariant 0 <= j <= |changes|
      invariant byPath == GroupByPath(before + changes[..j])
    {
      var c := changes[j];
      var list := if c.filePath in byPath.table then byPath.table[c.filePath] else [];
      AddChangeStep(byPath, before + changes[..j], c);
      byPath := byPath.Put(c.filePath, list + [c]);
      AppendSlice(before, changes, j);
      j := j + 1;
    }
    assert changes[..j] == changes;
  }

  lemma AppendSlice<T>(a: seq<T>, b: seq<T>, j: nat)
    requires j < |b|
    ensures a + b[..j + 1] == (a + b[..j]) + [b[j]]
  {
    assert b[..j + 1] == b[..j] + [b[j]];
  }

  lemma AddChangeStep(d: Dict<string, seq<FileChange>>, done: seq<FileChange>, c: FileChange)
    requires d == GroupByPath(done)
    ensures d.Put(c.filePath, (if c.filePath in d.table then d.table[c.filePath] else []) + [c]) == GroupByPath(done + [c])
  {
    GroupByPathSnoc(done, c);
  }

  /** One pass of the outer loop of `get_file_changes_by_commits`: the changes of commit `c` added to the grouping. */
  method AddCommit(env: Env, grouped: Dict<string, seq<FileChange>>, done: seq<Commit>, c: Commit)
    returns (byPath: Dict<string, seq<FileChange>>)
    requires grouped == GroupByPath(AllChanges(env, done))
    ensures byPath == GroupByPath(AllChanges(env, done) + FileChanges(env, c.hash))
  {
    var changes := CommitFileChanges(env, c.hash);
    byPath := AddChanges(grouped, AllChanges(env, done), changes);
  }

  /** The changes of the first `i + 1` commits: those of the first `i`, then those of commit `i`. */
  lemma AllChangesStep(env: Env, commits: seq<Commit>, i: nat)
    requires i < |commits|
    ensures AllChanges(env, commits[..i + 1]) == AllChanges(env, commits[..i]) + FileChanges(env, commits[i].hash)
  {
    assert commits[..i + 1] == commits[..i] + [commits[i]];
    AllChangesSnoc(env, commits[..i], commits[i]);
  }

  /** `get_file_changes_by_commits`: the changes of all commits grouped by path. */
  method FileChangesByCommits(env: Env, commits: seq<Commit>) returns (byPath: Dict<string, seq<FileChange>>)
    ensures byPath == GroupByPath(AllChanges(env, commits))
  {
    byPath := Empty();
    var i := 0;
    while i < |commits|
      invariant 0 <= i <= |commits|
      invariant byPath == GroupByPath(AllChanges(env, commits[..i]))
    {
      byPath := AddCommit(env, byPath, commits[..i], commits[i]);
      AllChangesStep(env, commits, i);
      i := i + 1;
    }
    assert commits[..i] == commits;
  }
}
