/**
  The two commit queries of git_commit_analyzer.py: `get_commits_by_prefix`,
  which reads every matching commit in detail one by one, and
  `get_commits_by_multiple_prefixes_fast`, which reads the log once, matches
  every prefix in memory and resolves the matched commits' files and stats
  in batches.
 */
module PrefixQuery {
  import opened Wrappers
  import opened PyText
  import opened Dicts
  import opened GitLog
  import opened PrefixMatch
  import opened Details

  lemma SliceSnoc<T>(s: seq<T>, i: nat)
    requires i < |s|
    ensures s[..i + 1] == s[..i] + [s[i]]
  {
  }

  lemma AppendAssoc<T>(a: seq<T>, b: seq<T>, c: seq<T>)
    ensures (a + b) + c == a + (b + c)
  {
  }

  // ---------------------------------------------------------------------
  // get_commits_by_prefix
  // ---------------------------------------------------------------------

  /** The values `pick` gives the lines of `lines`, in order, where it gives one. */
  function Picked<T>(pick: string -> Option<T>, lines: seq<string>): (r: seq<T>)
    ensures |r| <= |lines|
    decreases |lines|
  {
    if lines == [] then []
    else
      var init := Picked(pick, lines[..|lines| - 1]);
      match pick(lines[|lines| - 1])
      case Some(x) => init + [x]
      case None => init
  }

  lemma {:induction false} PickedAppend<T>(pick: string -> Option<T>, xs: seq<string>, ys: seq<string>)
    ensures Picked(pick, xs + ys) == Picked(pick, xs) + Picked(pick, ys)
    decreases |ys|
  {
    if ys == [] {
      assert xs + ys == xs;
    } else {
      var init := ys[..|ys| - 1];
      assert (xs + ys)[..|xs + ys| - 1] == xs + init;
      assert (xs + ys)[|xs + ys| - 1] == ys[|ys| - 1];
      PickedAppend(pick, xs, init);
    }
  }

  /** A value is picked exactly when `pick` gives it for some line. */
  lemma {:induction false} PickedIff<T>(pick: string -> Option<T>, lines: seq<string>, x: T)
    ensures x in Picked(pick, lines) <==> exists l :: l in lines && pick(l) == Some(x)
    decreases |lines|
  {
    if lines != [] {
      var init, last := lines[..|lines| - 1], lines[|lines| - 1];
      assert lines == init + [last];
      PickedIff(pick, init, x);
      if pick(last) == Some(x) {
        assert last in lines;
      }
      if exists l :: l in lines && pick(l) == Some(x) {
        var l :| l in lines && pick(l) == Some(x);
        if l != last {
          assert l in init;
        }
      }
    }
  }

  /** The record of a log line that is not skipped and whose message matches the normalised prefix `np`. */
  function MatchingLine(np: string, line: string): (r: Option<LogRecord>)
    ensures r.Some? <==> ParseLogLine(line).Some? && MatchesNormalized(ParseLogLine(line).value.message, np)
    ensures r.Some? ==> r == ParseLogLine(line)
  {
    match ParseLogLine(line)
    case Some(rec) => if MatchesNormalized(rec.message, np) then Some(rec) else None
    case None => None
  }

  /** Each record read in detail, in order; the first failure is passed on. */
  function DetailsAll(fetch: string -> Result<Commit>, recs: seq<LogRecord>): Result<seq<Commit>>
    decreases |recs|
  {
    if recs == [] then Ok([])
    else
      var init :- DetailsAll(fetch, recs[..|recs| - 1]);
      var c :- fetch(recs[|recs| - 1].hash);
      Ok(init + [c])
  }

  lemma {:induction false} DetailsAllErrStays(fetch: string -> Result<Commit>, xs: seq<LogRecord>, ys: seq<LogRecord>)
    requires DetailsAll(fetch, xs).Err?
    ensures DetailsAll(fetch, xs + ys) == DetailsAll(fetch, xs)
    decreases |ys|
  {
    if ys == [] {
      assert xs + ys == xs;
    } else {
      assert (xs + ys)[..|xs + ys| - 1] == xs + ys[..|ys| - 1];
      DetailsAllErrStays(fetch, xs, ys[..|ys| - 1]);
    }
  }

  /** Reading succeeds exactly when every record reads, and then gives one commit per record, in order. */
  lemma {:induction false} DetailsAllOk(fetch: string -> Result<Commit>, recs: seq<LogRecord>)
    ensures DetailsAll(fetch, recs).Ok? <==> forall i :: 0 <= i < |recs| ==> fetch(recs[i].hash).Ok?
    ensures DetailsAll(fetch, recs).Ok? ==>
      && |DetailsAll(fetch, recs).value| == |recs|
      && forall i :: 0 <= i < |recs| ==> fetch(recs[i].hash) == Ok(DetailsAll(fetch, recs).value[i])
    decreases |recs|
  {
    if recs != [] {
      var init := recs[..|recs| - 1];
      DetailsAllOk(fetch, init);
      assert forall i :: 0 <= i < |init| ==> init[i] == recs[i];
    }
  }

  /** `CommitDetails` as a function value, for the loop below. */
  function Fetcher(env: Env): (fetch: string -> Result<Commit>)
    ensures forall h :: fetch(h) == CommitDetails(env, h)
  {
    h => CommitDetails(env, h)
  }

  /** `MatchingLine` as a function value, for the loop below. */
  function LinePicker(np: string): (pick: string -> Option<LogRecord>)
    ensures forall l :: pick(l) == MatchingLine(np, l)
  {
    l => MatchingLine(np, l)
  }

  /** What `get_commits_by_prefix` returns; a failing git call or detail read raises, here `Err`. */
  function CommitsByPrefixSpec(env: Env, prefix: string, since: Option<string>, until: Option<string>, maxCount: Option<int>)
    : Result<seq<Commit>>
  {
    var output :- RunGit(env, LogCommand(since, until, maxCount));
    if output == "" then Ok([])
    else
      var np := NormalizePrefix(prefix);
      DetailsAll(Fetcher(env), Picked(LinePicker(np), LogLines(output)))
  }

  /** The loop of `get_commits_by_prefix`: every line `pick` selects read in detail by `fetch`, in order. */
  method CollectDetails(fetch: string -> Result<Commit>, pick: string -> Option<LogRecord>, lines: seq<string>)
    returns (r: Result<seq<Commit>>)
    ensures r == DetailsAll(fetch, Picked(pick, lines))
  {
    var commits := [];
    var i := 0;
    while i < |lines|
      invariant 0 <= i <= |lines|
      invariant DetailsAll(fetch, Picked(pick, lines[..i])) == Ok(commits)
    {
      CollectStep(fetch, pick, lines, i, commits);
      var picked := pick(lines[i]);
      if picked.Some? {
        var detailed := fetch(picked.value.hash);
        if detailed.Err? {
          CollectFails(fetch, pick, lines, i);
          PrefixErrStays(fetch, pick, lines, i + 1);
          return Err(detailed.error);
        }
        commits := commits + [detailed.value];
      }
      i := i + 1;
    }
    assert lines[..i] == lines;
    r := Ok(commits);
  }

  /** One line of the loop: a skipped line keeps the reads, a picked one adds its read when that succeeds. */
  lemma CollectStep(fetch: string -> Result<Commit>, pick: string -> Option<LogRecord>, lines: seq<string>, i: nat, commits: seq<Commit>)
    requires i < |lines|
    requires DetailsAll(fetch, Picked(pick, lines[..i])) == Ok(commits)
    ensures pick(lines[i]).None? ==> DetailsAll(fetch, Picked(pick, lines[..i + 1])) == Ok(commits)
    ensures pick(lines[i]).Some? && fetch(pick(lines[i]).value.hash).Ok? ==>
      DetailsAll(fetch, Picked(pick, lines[..i + 1])) == Ok(commits + [fetch(pick(lines[i]).value.hash).value])
  {
    SliceSnoc(lines, i);
  }

  /** A failure in the reads of the first `n` lines is the failure of the reads of all of them. */
  lemma PrefixErrStays(fetch: string -> Result<Commit>, pick: string -> Option<LogRecord>, lines: seq<string>, n: nat)
    requires n <= |lines|
    requires DetailsAll(fetch, Picked(pick, lines[..n])).Err?
    ensures DetailsAll(fetch, Picked(pick, lines)) == DetailsAll(fetch, Picked(pick, lines[..n]))
  {
    var xs, ys := lines[..n], lines[n..];
    assert lines == xs + ys;
    assert DetailsAll(fetch, Picked(pick, xs + ys)) == DetailsAll(fetch, Picked(pick, xs)) by {
      PickedErrStays(fetch, pick, xs, ys);
    }
  }

  /** A failure among the lines read so far is the failure of the reads of any longer list of lines. */
  lemma PickedErrStays(fetch: string -> Result<Commit>, pick: string -> Option<LogRecord>, xs: seq<string>, ys: seq<string>)
    requires DetailsAll(fetch, Picked(pick, xs)).Err?
    ensures DetailsAll(fetch, Picked(pick, xs + ys)) == DetailsAll(fetch, Picked(pick, xs))
  {
    PickedAppend(pick, xs, ys);
    DetailsAllErrStays(fetch, Picked(pick, xs), Picked(pick, ys));
  }

  /** A failing read of a picked line fails the reads up to and including it. */
  lemma CollectFails(fetch: string -> Result<Commit>, pick: string -> Option<LogRecord>, lines: seq<string>, i: nat)
    requires i < |lines| && pick(lines[i]).Some? && fetch(pick(lines[i]).value.hash).Err?
    requires DetailsAll(fetch, Picked(pick, lines[..i])).Ok?
    ensures DetailsAll(fetch, Picked(pick, lines[..i + 1])) == Err(fetch(pick(lines[i]).value.hash).error)
  {
    SliceSnoc(lines, i);
    assert lines[..i + 1][..i] == lines[..i];
    assert Picked(pick, lines[..i + 1]) == Picked(pick, lines[..i]) + [pick(lines[i]).value];
  }

  /** `get_commits_by_prefix`. */
  method CommitsByPrefix(env: Env, prefix: string, since: Option<string>, until: Option<string>, maxCount: Option<int>)
    returns (r: Result<seq<Commit>>)
    ensures r == CommitsByPrefixSpec(env, prefix, since, until, maxCount)
  {
    var run := RunGit(env, LogCommand(since, until, maxCount));
    if run.Err? {
      return Err(run.error);
    }
    if run.value == "" {
      return Ok([]);
    }
    var np := NormalizePrefix(prefix);
    r := CollectDetails(Fetcher(env), LinePicker(np), LogLines(run.value));
  }

  /**
    On success the query returns one commit per matching log line, in log
    order, each the detailed read of that line's hash; it fails exactly when
    one of those reads fails.
   */
  lemma CommitsByPrefixOk(env: Env, prefix: string, since: Option<string>, until: Option<string>, maxCount: Option<int>)
    requires RunGit(env, LogCommand(since, until, maxCount)).Ok?
    requires RunGit(env, LogCommand(since, until, maxCount)).value != ""
    ensures var recs := Picked(LinePicker(NormalizePrefix(prefix)), LogLines(RunGit(env, LogCommand(since, until, maxCount)).value));
      var read := Fetcher(env);
      && (CommitsByPrefixSpec(env, prefix, since, until, maxCount).Ok? <==>
            forall i :: 0 <= i < |recs| ==> read(recs[i].hash).Ok?)
      && (CommitsByPrefixSpec(env, prefix, since, until, maxCount).Ok? ==>
            && |CommitsByPrefixSpec(env, prefix, since, until, maxCount).value| == |recs|
            && forall i :: 0 <= i < |recs| ==>
                 read(recs[i].hash) == Ok(CommitsByPrefixSpec(env, prefix, since, until, maxCount).value[i]))
  {
    var recs := Picked(LinePicker(NormalizePrefix(prefix)), LogLines(RunGit(env, LogCommand(since, until, maxCount)).value));
    CommitsByPrefixReads(env, prefix, since, until, maxCount);
    DetailsAllOk(Fetcher(env), recs);
  }

  /** Past a successful, non-empty log call, the query is the detailed reads of the matching lines. */
  lemma CommitsByPrefixReads(env: Env, prefix: string, since: Option<string>, until: Option<string>, maxCount: Option<int>)
    requires RunGit(env, LogCommand(since, until, maxCount)).Ok?
    requires RunGit(env, LogCommand(since, until, maxCount)).value != ""
    ensures CommitsByPrefixSpec(env, prefix, since, until, maxCount) ==
      DetailsAll(Fetcher(env), Picked(LinePicker(NormalizePrefix(prefix)), LogLines(RunGit(env, LogCommand(since, until, maxCount)).value)))
  {
  }

  /** A record is read in detail exactly when it is the record of a log line whose message matches the prefix. */
  lemma CommitsByPrefixSelects(lines: seq<string>, prefix: string, rec: LogRecord)
    ensures rec in Picked(LinePicker(NormalizePrefix(prefix)), lines) <==>
      (exists l :: l in lines && ParseLogLine(l) == Some(rec)) && Matches(rec.message, prefix)
  {
    var np := NormalizePrefix(prefix);
    var pick := LinePicker(np);
    PickedIff(pick, lines, rec);
    if exists l :: l in lines && ParseLogLine(l) == Some(rec) {
      var l :| l in lines && ParseLogLine(l) == Some(rec);
      assert Matches(rec.message, prefix) ==> pick(l) == Some(rec);
    }
  }

  // ---------------------------------------------------------------------
  // get_commits_by_multiple_prefixes_fast: matching
  // ---------------------------------------------------------------------

  /** `{prefix.rstrip(': ').lower(): prefix for prefix in prefixes}`. */
  function NormalizedPrefixes(prefixes: seq<string>): (d: Dict<string, string>)
    ensures d.Valid()
    decreases |prefixes|
  {
    if prefixes == [] then Empty()
    else
      var last := prefixes[|prefixes| - 1];
      NormalizedPrefixes(prefixes[..|prefixes| - 1]).Put(NormalizePrefix(last), last)
  }

  /** The table files every prefix under its normalisation, and every value under its own normalisation. */
  lemma {:induction false} NormalizedPrefixesValues(prefixes: seq<string>)
    ensures forall p :: p in prefixes ==> NormalizePrefix(p) in NormalizedPrefixes(prefixes).table
    ensures forall np :: np in NormalizedPrefixes(prefixes).table ==>
      NormalizedPrefixes(prefixes).table[np] in prefixes && NormalizePrefix(NormalizedPrefixes(prefixes).table[np]) == np
    decreases |prefixes|
  {
    if prefixes != [] {
      var init := prefixes[..|prefixes| - 1];
      assert prefixes == init + [prefixes[|prefixes| - 1]];
      NormalizedPrefixesValues(init);
    }
  }

  /** Of the prefixes that normalise alike, the last one is the value kept. */
  lemma {:induction false} NormalizedPrefixesLastWins(prefixes: seq<string>, j: nat)
    requires j < |prefixes|
    requires forall k :: j < k < |prefixes| ==> NormalizePrefix(prefixes[k]) != NormalizePrefix(prefixes[j])
    ensures NormalizePrefix(prefixes[j]) in NormalizedPrefixes(prefixes).table
    ensures NormalizedPrefixes(prefixes).table[NormalizePrefix(prefixes[j])] == prefixes[j]
    decreases |prefixes|
  {
    var init := prefixes[..|prefixes| - 1];
    if j < |prefixes| - 1 {
      NormalizedPrefixesLastWins(init, j);
    }
  }

  /** The originals, in table order, of the normalised prefixes among `keys` that `message` matches. */
  function MatchedPrefixes(message: string, keys: seq<string>, table: map<string, string>): (r: seq<string>)
    requires forall k :: k in keys ==> k in table
    ensures |r| <= |keys|
    decreases |keys|
  {
    if keys == [] then []
    else
      var init := keys[..|keys| - 1];
      var k := keys[|keys| - 1];
      assert forall x :: x in init ==> x in keys;
      var r := MatchedPrefixes(message, init, table);
      if MatchesNormalized(message, k) then r + [table[k]] else r
  }

  /** An original is matched exactly when it is the value of a key that matches. */
  lemma {:induction false} MatchedPrefixesIff(message: string, keys: seq<string>, table: map<string, string>, p: string)
    requires forall k :: k in keys ==> k in table
    ensures p in MatchedPrefixes(message, keys, table) <==> exists k :: k in keys && table[k] == p && MatchesNormalized(message, k)
    decreases |keys|
  {
    if keys != [] {
      var init, last := keys[..|keys| - 1], keys[|keys| - 1];
      assert keys == init + [last];
      assert forall x :: x in init ==> x in keys;
      MatchedPrefixesIff(message, init, table, p);
      var r := MatchedPrefixes(message, init, table);
      assert MatchedPrefixes(message, keys, table) == if MatchesNormalized(message, last) then r + [table[last]] else r;
      if p in MatchedPrefixes(message, keys, table) {
        if p in r {
          var k :| k in init && table[k] == p && MatchesNormalized(message, k);
          assert k in keys;
        } else {
          assert p == table[last] && MatchesNormalized(message, last);
        }
      }
      if exists k :: k in keys && table[k] == p && MatchesNormalized(message, k) {
        var k :| k in keys && table[k] == p && MatchesNormalized(message, k);
        if k != last {
          assert k in init;
        }
      }
    }
  }

  /** One key of the inner loop: a matching key adds its original, any other adds nothing. */
  lemma MatchedStep(message: string, keys: seq<string>, table: map<string, string>, i: nat)
    requires forall k :: k in keys ==> k in table
    requires i < |keys|
    ensures forall k :: k in keys[..i + 1] ==> k in table
    ensures forall k :: k in keys[..i] ==> k in table
    ensures MatchedPrefixes(message, keys[..i + 1], table) ==
      if MatchesNormalized(message, keys[i]) then MatchedPrefixes(message, keys[..i], table) + [table[keys[i]]]
      else MatchedPrefixes(message, keys[..i], table)
  {
    SliceSnoc(keys, i);
    assert keys[..i + 1][..i] == keys[..i];
    assert forall k :: k in keys[..i + 1] ==> k in keys;
  }

  /** The inner loop of the matching step: the originals of every matching normalised prefix, in table order. */
  method MatchPrefixes(message: string, normalized: Dict<string, string>) returns (matched: seq<string>)
    requires normalized.Valid()
    ensures matched == MatchedPrefixes(message, normalized.keys, normalized.table)
  {
    matched := [];
    var keys := normalized.keys;
    var i := 0;
    while i < |keys|
      invariant 0 <= i <= |keys|
      invariant forall k :: k in keys[..i] ==> k in normalized.table
      invariant matched == MatchedPrefixes(message, keys[..i], normalized.table)
    {
      MatchedStep(message, keys, normalized.table, i);
      var k := keys[i];
      if MatchesNormalized(message, k) {
        matched := matched + [normalized.table[k]];
      }
      i := i + 1;
    }
    assert keys[..i] == keys;
  }

  /** A matched commit: the originals of the prefixes it matched and its log record. */
  datatype Match = Match(prefixes: seq<string>, record: LogRecord)

  /** What the matching step makes of one log line: its record and matched prefixes, unless it is skipped or matches none. */
  function LineMatch(normalized: Dict<string, string>, line: string): (r: Option<Match>)
    requires normalized.Valid()
    ensures r.Some? ==> ParseLogLine(line).Some? && r.value.record == ParseLogLine(line).value
    ensures r.Some? ==> r.value.prefixes == MatchedPrefixes(r.value.record.message, normalized.keys, normalized.table) != []
  {
    match ParseLogLine(line)
    case None => None
    case Some(rec) =>
      var matched := MatchedPrefixes(rec.message, normalized.keys, normalized.table);
      if matched == [] then None else Some(Match(matched, rec))
  }

  /** `LineMatch` as a function value, for the fold below. */
  function LineMatcher(normalized: Dict<string, string>): (pick: string -> Option<Match>)
    requires normalized.Valid()
    ensures forall l :: pick(l) == LineMatch(normalized, l)
  {
    l => LineMatch(normalized, l)
  }

  /** `matching_commits`: each matched line's match under its hash (a repeated hash keeps its first position and takes the later value). */
  function MatchingCommits(pick: string -> Option<Match>, lines: seq<string>): (m: Dict<string, Match>)
    ensures m.Valid()
    decreases |lines|
  {
    if lines == [] then Empty()
    else
      var m := MatchingCommits(pick, lines[..|lines| - 1]);
      match pick(lines[|lines| - 1])
      case None => m
      case Some(x) => m.Put(x.record.hash, x)
  }

  /** The body of the outer loop: parse one line and match its message. */
  method MatchLine(line: string, normalized: Dict<string, string>) returns (found: Option<Match>)
    requires normalized.Valid()
    ensures found == LineMatch(normalized, line)
  {
    var parsed := ParseLogLine(line);
    found := None;
    if parsed.Some? {
      var matched := MatchPrefixes(parsed.value.message, normalized);
      if matched != [] {
        found := Some(Match(matched, parsed.value));
      }
    }
  }

  /** The outer loop of the matching step. */
  method CollectMatches(lines: seq<string>, normalized: Dict<string, string>) returns (m: Dict<string, Match>)
    requires normalized.Valid()
    ensures m == MatchingCommits(LineMatcher(normalized), lines)
  {
    m := Empty();
    var i := 0;
    while i < |lines|
      invariant 0 <= i <= |lines|
      invariant m == MatchingCommits(LineMatcher(normalized), lines[..i])
    {
      MatchingStep(LineMatcher(normalized), lines, i);
      var found := MatchLine(lines[i], normalized);
      if found.Some? {
        m := m.Put(found.value.record.hash, found.value);
      }
      i := i + 1;
    }
    assert lines[..i] == lines;
  }

  /** One line of the outer loop: a line without a match keeps the table, a matched one is put under its hash. */
  lemma MatchingStep(pick: string -> Option<Match>, lines: seq<string>, i: nat)
    requires i < |lines|
    ensures pick(lines[i]).None? ==> MatchingCommits(pick, lines[..i + 1]) == MatchingCommits(pick, lines[..i])
    ensures pick(lines[i]).Some? ==>
      MatchingCommits(pick, lines[..i + 1]) == MatchingCommits(pick, lines[..i]).Put(pick(lines[i]).value.record.hash, pick(lines[i]).value)
  {
    SliceSnoc(lines, i);
    assert lines[..i + 1][..i] == lines[..i];
  }

  /** Every match kept is what `pick` gives some line. */
  lemma {:induction false} MatchingCommitsFrom(pick: string -> Option<Match>, lines: seq<string>)
    ensures forall h :: h in MatchingCommits(pick, lines).table ==>
      exists l :: l in lines && pick(l) == Some(MatchingCommits(pick, lines).table[h])
    decreases |lines|
  {
    if lines != [] {
      var init, last := lines[..|lines| - 1], lines[|lines| - 1];
      MatchingCommitsFrom(pick, init);
      assert forall l :: l in init ==> l in lines;
      assert last in lines;
    }
  }

  /** Nothing is kept when `pick` gives nothing for any line. */
  lemma {:induction false} MatchingCommitsNone(pick: string -> Option<Match>, lines: seq<string>)
    requires forall l :: l in lines ==> pick(l).None?
    ensures MatchingCommits(pick, lines).keys == []
    decreases |lines|
  {
    if lines != [] {
      var init := lines[..|lines| - 1];
      assert forall l :: l in init ==> l in lines;
      MatchingCommitsNone(pick, init);
      assert lines[|lines| - 1] in lines;
    }
  }

  /** Every prefix a line matched is a requested prefix, and the one kept for its normalisation. */
  lemma LineMatchPrefixes(prefixes: seq<string>, line: string)
    ensures var normalized := NormalizedPrefixes(prefixes);
      LineMatch(normalized, line).Some? ==>
        forall p :: p in LineMatch(normalized, line).value.prefixes ==>
          p in prefixes && NormalizePrefix(p) in normalized.table && normalized.table[NormalizePrefix(p)] == p
  {
    var normalized := NormalizedPrefixes(prefixes);
    NormalizedPrefixesValues(prefixes);
    var r := LineMatch(normalized, line);
    if r.Some? {
      forall p | p in r.value.prefixes
        ensures p in prefixes && NormalizePrefix(p) in normalized.table && normalized.table[NormalizePrefix(p)] == p
      {
        MatchedPrefixesIff(r.value.record.message, normalized.keys, normalized.table, p);
      }
    }
  }

  /** A line matches nothing when its message matches none of the requested prefixes. */
  lemma LineMatchNone(prefixes: seq<string>, line: string)
    requires ParseLogLine(line).Some? ==> forall p :: p in prefixes ==> !Matches(ParseLogLine(line).value.message, p)
    ensures LineMatch(NormalizedPrefixes(prefixes), line).None?
  {
    var normalized := NormalizedPrefixes(prefixes);
    NormalizedPrefixesValues(prefixes);
    var parsed := ParseLogLine(line);
    if parsed.Some? {
      var matched := MatchedPrefixes(parsed.value.message, normalized.keys, normalized.table);
      if matched != [] {
        MatchedPrefixesIff(parsed.value.message, normalized.keys, normalized.table, matched[0]);
        assert false;
      }
    }
  }

  // ---------------------------------------------------------------------
  // get_commits_by_multiple_prefixes_fast: building the result
  // ---------------------------------------------------------------------

  /** Python's truthiness test `if max_count`. */
  predicate Capped(maxCount: Option<int>) {
    maxCount.Some? && maxCount.value != 0
  }

  /**
    The innermost loop: the commit appended to each matched prefix's list in
    turn, leaving the loop once a list has reached `max_count`; the prefixes
    after that one do not get the commit.
   */
  function Distribute(results: Dict<string, seq<Commit>>, matched: seq<string>, c: Commit, maxCount: Option<int>)
    : (d: Dict<string, seq<Commit>>)
    requires results.Valid()
    requires forall p :: p in matched ==> p in results.table
    ensures d.Valid() && d.keys == results.keys
    ensures forall p :: p in d.table <==> p in results.table
    decreases |matched|
  {
    if matched == [] then results
    else
      var p := matched[0];
      var r := results.Put(p, results.table[p] + [c]);
      if Capped(maxCount) && |r.table[p]| >= maxCount.value then r
      else Distribute(r, matched[1..], c, maxCount)
  }

  method DistributeCommit(results: Dict<string, seq<Commit>>, matched: seq<string>, c: Commit, maxCount: Option<int>)
    returns (d: Dict<string, seq<Commit>>)
    requires results.Valid()
    requires forall p :: p in matched ==> p in results.table
    ensures d == Distribute(results, matched, c, maxCount)
  {
    d := results;
    var i := 0;
    while i < |matched|
      invariant 0 <= i <= |matched|
      invariant d.Valid() && forall p :: p in matched ==> p in d.table
      invariant Distribute(results, matched, c, maxCount) == Distribute(d, matched[i..], c, maxCount)
    {
      var p := matched[i];
      assert matched[i..][1..] == matched[i + 1..];
      d := d.Put(p, d.table[p] + [c]);
      if Capped(maxCount) && |d.table[p]| >= maxCount.value {
        return;
      }
      i := i + 1;
    }
  }

  /** Python's `d.get(k, default)`. */
  function Get<V>(m: map<string, V>, k: string, default: V): V {
    if k in m then m[k] else default
  }

  /** The commit the fast query builds from a matched log record and the batch results. */
  function CommitOf(env: Env, rec: LogRecord, filesInfo: map<string, seq<string>>, statsInfo: map<string, (nat, nat)>): Commit {
    var stats := Get(statsInfo, rec.hash, (0, 0));
    Commit(rec.hash, rec.author, rec.email, DateOrNow(env, rec.dateText), rec.message,
           Get(filesInfo, rec.hash, []), stats.0, stats.1)
  }

  /** The prefixes every matched commit is filed under. */
  predicate Requested(m: Dict<string, Match>, results: Dict<string, seq<Commit>>) {
    forall h, p :: h in m.table && p in m.table[h].prefixes ==> p in results.table
  }

  /** The loop over `matching_commits`: each commit built once and distributed to its matched prefixes, in order. */
  function FanOut(env: Env, m: Dict<string, Match>, hashes: seq<string>, filesInfo: map<string, seq<string>>,
                  statsInfo: map<string, (nat, nat)>, results: Dict<string, seq<Commit>>, maxCount: Option<int>)
    : (d: Dict<string, seq<Commit>>)
    requires results.Valid() && Requested(m, results)
    requires forall h :: h in hashes ==> h in m.table
    ensures d.Valid() && d.keys == results.keys
    ensures forall p :: p in d.table <==> p in results.table
    decreases |hashes|
  {
    if hashes == [] then results
    else
      var init := hashes[..|hashes| - 1];
      var h := hashes[|hashes| - 1];
      assert forall x :: x in init ==> x in hashes;
      var d := FanOut(env, m, init, filesInfo, statsInfo, results, maxCount);
      Distribute(d, m.table[h].prefixes, CommitOf(env, m.table[h].record, filesInfo, statsInfo), maxCount)
  }

  /** The result-building loop. */
  method BuildResults(env: Env, m: Dict<string, Match>, filesInfo: map<string, seq<string>>,
                      statsInfo: map<string, (nat, nat)>, results: Dict<string, seq<Commit>>, maxCount: Option<int>)
    returns (d: Dict<string, seq<Commit>>)
    requires m.Valid() && results.Valid() && Requested(m, results)
    ensures d == FanOut(env, m, m.keys, filesInfo, statsInfo, results, maxCount)
  {
    d := results;
    var hashes := m.keys;
    var i := 0;
    while i < |hashes|
      invariant 0 <= i <= |hashes|
      invariant forall h :: h in hashes[..i] ==> h in m.table
      invariant d == FanOut(env, m, hashes[..i], filesInfo, statsInfo, results, maxCount)
    {
      FanOutStep(env, m, hashes, i, filesInfo, statsInfo, results, maxCount);
      var h := hashes[i];
      var matched := m.table[h].prefixes;
      var c := CommitOf(env, m.table[h].record, filesInfo, statsInfo);
      d := DistributeCommit(d, matched, c, maxCount);
      i := i + 1;
    }
    assert hashes[..i] == hashes;
  }

  /** One step of the result-building loop: the next hash's commit is distributed to its prefixes. */
  lemma FanOutStep(env: Env, m: Dict<string, Match>, hashes: seq<string>, i: nat, filesInfo: map<string, seq<string>>,
                   statsInfo: map<string, (nat, nat)>, results: Dict<string, seq<Commit>>, maxCount: Option<int>)
    requires results.Valid() && Requested(m, results)
    requires i < |hashes| && forall h :: h in hashes ==> h in m.table
    ensures forall h :: h in hashes[..i] ==> h in m.table
    ensures forall h :: h in hashes[..i + 1] ==> h in m.table
    ensures var d := FanOut(env, m, hashes[..i], filesInfo, statsInfo, results, maxCount);
      && (forall p :: p in m.table[hashes[i]].prefixes ==> p in d.table)
      && FanOut(env, m, hashes[..i + 1], filesInfo, statsInfo, results, maxCount)
         == Distribute(d, m.table[hashes[i]].prefixes, CommitOf(env, m.table[hashes[i]].record, filesInfo, statsInfo), maxCount)
  {
    SliceSnoc(hashes, i);
    assert hashes[..i + 1][..i] == hashes[..i];
    assert hashes[i] in hashes[..i + 1];
  }

  /** `files_info` as the batch step fills it. */
  function FilesMap(env: Env, hashes: seq<string>): map<string, seq<string>> {
    map h | h in hashes :: if FilesFetch(env, h).Ok? then FilesFetch(env, h).value else []
  }

  /** `stats_info` as the batch step fills it. */
  function StatsMap(env: Env, hashes: seq<string>): map<string, (nat, nat)> {
    map h | h in hashes :: if StatsFetch(env, h).Ok? then StatsFetch(env, h).value else (0, 0)
  }

  /** The matched commits of the log output `output` for the requested prefixes. */
  function MatchTable(prefixes: seq<string>, output: string): (m: Dict<string, Match>)
    ensures m.Valid()
  {
    var normalized := NormalizedPrefixes(prefixes);
    MatchingCommits(LineMatcher(normalized), LogLines(output))
  }

  /** Every prefix a commit is filed under is a requested prefix, and the one kept for its normalisation. */
  lemma MatchTablePrefixes(prefixes: seq<string>, output: string)
    ensures FiledUnderKept(prefixes, MatchTable(prefixes, output))
  {
    var normalized := NormalizedPrefixes(prefixes);
    var pick := LineMatcher(normalized);
    var m := MatchTable(prefixes, output);
    MatchingCommitsFrom(pick, LogLines(output));
    forall h, p | h in m.table && p in m.table[h].prefixes ensures Kept(prefixes, p) {
      var l :| l in LogLines(output) && pick(l) == Some(m.table[h]);
      LineMatchPrefixes(prefixes, l);
    }
  }

  /** Every prefix a commit of `m` is filed under is kept. */
  predicate FiledUnderKept(prefixes: seq<string>, m: Dict<string, Match>) {
    forall h, p :: h in m.table && p in m.table[h].prefixes ==> Kept(prefixes, p)
  }

  lemma MatchTableRequested(prefixes: seq<string>, output: string)
    ensures Requested(MatchTable(prefixes, output), FromKeys(prefixes, []))
  {
    var m := MatchTable(prefixes, output);
    var r: Dict<string, seq<Commit>> := FromKeys(prefixes, []);
    MatchTablePrefixes(prefixes, output);
    forall h, p | h in m.table && p in m.table[h].prefixes ensures p in r.table {
      assert Kept(prefixes, p);
    }
  }

  predicate NonEmpty(cs: seq<Commit>) {
    cs != []
  }

  /** The per-prefix lists before empty ones are dropped. */
  function FannedOut(env: Env, prefixes: seq<string>, output: string, maxCount: Option<int>): (d: Dict<string, seq<Commit>>)
    ensures d.Valid()
  {
    var m := MatchTable(prefixes, output);
    MatchTableRequested(prefixes, output);
    FanOut(env, m, m.keys, FilesMap(env, m.keys), StatsMap(env, m.keys), FromKeys(prefixes, []), maxCount)
  }

  /** What `get_commits_by_multiple_prefixes_fast` returns; only the log call can raise. */
  function FastQuery(env: Env, prefixes: seq<string>, since: Option<string>, until: Option<string>, maxCount: Option<int>)
    : (r: Result<Dict<string, seq<Commit>>>)
    ensures r.Err? <==> prefixes != [] && env.git(LogCommand(since, until, None)).Err?
    ensures r.Ok? ==> r.value.Valid()
  {
    if prefixes == [] then Ok(Empty())
    else
      var output :- RunGit(env, LogCommand(since, until, None));
      if output == "" then Ok(Empty())
      else if MatchTable(prefixes, output).keys == [] then Ok(FromKeys(prefixes, []))
      else Ok(FannedOut(env, prefixes, output, maxCount).Where(NonEmpty))
  }

  /** The batch step of the fast query. */
  method FetchBatches(env: Env, hashes: seq<string>) returns (filesInfo: map<string, seq<string>>, statsInfo: map<string, (nat, nat)>)
    ensures filesInfo == FilesMap(env, hashes)
    ensures statsInfo == StatsMap(env, hashes)
  {
    filesInfo := CommitsFilesBatch(env, hashes);
    statsInfo := CommitsStatsBatch(env, hashes);
  }

  /** `get_commits_by_multiple_prefixes_fast`. */
  method CommitsByMultiplePrefixesFast(env: Env, prefixes: seq<string>, since: Option<string>, until: Option<string>,
                                       maxCount: Option<int>)
    returns (r: Result<Dict<string, seq<Commit>>>)
    ensures r == FastQuery(env, prefixes, since, until, maxCount)
  {
    if prefixes == [] {
      return Ok(Empty());
    }
    var run := RunGit(env, LogCommand(since, until, None));
    if run.Err? {
      return Err(run.error);
    }
    var output := run.value;
    if output == "" {
      return Ok(Empty());
    }
    var normalized := NormalizedPrefixes(prefixes);
    var m := CollectMatches(LogLines(output), normalized);
    if m.keys == [] {
      return Ok(FromKeys(prefixes, []));
    }
    var filesInfo, statsInfo := FetchBatches(env, m.keys);
    MatchTableRequested(prefixes, output);
    var results := BuildResults(env, m, filesInfo, statsInfo, FromKeys(prefixes, []), maxCount);
    r := Ok(results.Where(NonEmpty));
  }

  // ---------------------------------------------------------------------
  // get_commits_by_multiple_prefixes_fast: what the result holds
  // ---------------------------------------------------------------------

  /** `p` is requested and is the original kept for its normalisation (the last requested one that normalises alike). */
  predicate Kept(prefixes: seq<string>, p: string) {
    var normalized := NormalizedPrefixes(prefixes);
    p in prefixes && NormalizePrefix(p) in normalized.table && normalized.table[NormalizePrefix(p)] == p
  }

  /** The originals matched by one message are distinct, since distinct normalisations have distinct originals. */
  lemma {:induction false} MatchedPrefixesDistinct(message: string, keys: seq<string>, table: map<string, string>)
    requires Distinct(keys)
    requires forall k :: k in keys ==> k in table && NormalizePrefix(table[k]) == k
    ensures Distinct(MatchedPrefixes(message, keys, table))
    decreases |keys|
  {
    if keys != [] {
      var init, last := keys[..|keys| - 1], keys[|keys| - 1];
      assert forall x :: x in init ==> x in keys;
      assert forall i :: 0 <= i < |init| ==> init[i] == keys[i];
      MatchedPrefixesDistinct(message, init, table);
      var r := MatchedPrefixes(message, init, table);
      if MatchesNormalized(message, last) {
        forall k | k in init ensures table[k] != table[last] {
          var j :| 0 <= j < |init| && init[j] == k;
          assert keys[j] != keys[|keys| - 1];
        }
        MatchedPrefixesIff(message, init, table, table[last]);
        assert table[last] !in r;
        var r' := r + [table[last]];
        assert forall i :: 0 <= i < |r| ==> r'[i] == r[i] && r[i] in r;
      }
    }
  }

  /**
    The prefixes a matched commit is filed under: exactly the kept originals
    its message matches, each once.
   */
  lemma MatchTableIff(prefixes: seq<string>, output: string, h: string, p: string)
    requires h in MatchTable(prefixes, output).table
    ensures var x := MatchTable(prefixes, output).table[h];
      && (p in x.prefixes <==> Kept(prefixes, p) && Matches(x.record.message, p))
      && Distinct(x.prefixes)
  {
    var normalized := NormalizedPrefixes(prefixes);
    var pick := LineMatcher(normalized);
    var x := MatchTable(prefixes, output).table[h];
    MatchingCommitsFrom(pick, LogLines(output));
    var l :| l in LogLines(output) && pick(l) == Some(x);
    NormalizedPrefixesValues(prefixes);
    var message := x.record.message;
    assert x.prefixes == MatchedPrefixes(message, normalized.keys, normalized.table);
    MatchedPrefixesIff(message, normalized.keys, normalized.table, p);
    MatchedPrefixesDistinct(message, normalized.keys, normalized.table);
    if Kept(prefixes, p) && Matches(message, p) {
      assert NormalizePrefix(p) in normalized.keys;
    }
  }

  /** A prefix not in `matched` keeps its list, whatever the cap. */
  lemma {:induction false} DistributeUntouched(results: Dict<string, seq<Commit>>, matched: seq<string>, c: Commit,
                                               maxCount: Option<int>, p: string)
    requires results.Valid()
    requires forall q :: q in matched ==> q in results.table
    requires p in results.table && p !in matched
    ensures Distribute(results, matched, c, maxCount).table[p] == results.table[p]
    decreases |matched|
  {
    if matched != [] {
      var r := results.Put(matched[0], results.table[matched[0]] + [c]);
      assert forall q :: q in matched[1..] ==> q in matched;
      if !(Capped(maxCount) && |r.table[matched[0]]| >= maxCount.value) {
        DistributeUntouched(r, matched[1..], c, maxCount, p);
      }
    }
  }

  /**
    The first matched prefix always gets the commit, even when its list has
    already reached `max_count`: the cap only stops the prefixes after it.
   */
  lemma DistributeFirst(results: Dict<string, seq<Commit>>, matched: seq<string>, c: Commit, maxCount: Option<int>)
    requires results.Valid()
    requires forall q :: q in matched ==> q in results.table
    requires matched != [] && matched[0] !in matched[1..]
    ensures Distribute(results, matched, c, maxCount).table[matched[0]] == results.table[matched[0]] + [c]
  {
    var r := results.Put(matched[0], results.table[matched[0]] + [c]);
    assert forall q :: q in matched[1..] ==> q in matched;
    if !(Capped(maxCount) && |r.table[matched[0]]| >= maxCount.value) {
      DistributeUntouched(r, matched[1..], c, maxCount, matched[0]);
    }
  }

  /** Without a cap every matched prefix gets the commit once, and no other list changes. */
  lemma {:induction false} DistributeUncapped(results: Dict<string, seq<Commit>>, matched: seq<string>, c: Commit,
                                              maxCount: Option<int>, p: string)
    requires results.Valid() && !Capped(maxCount) && Distinct(matched)
    requires forall q :: q in matched ==> q in results.table
    requires p in results.table
    ensures Distribute(results, matched, c, maxCount).table[p] == results.table[p] + (if p in matched then [c] else [])
    decreases |matched|
  {
    if matched != [] {
      var r := results.Put(matched[0], results.table[matched[0]] + [c]);
      var rest := matched[1..];
      assert forall q :: q in rest ==> q in matched;
      assert forall i, j :: 0 <= i < j < |rest| ==> rest[i] == matched[i + 1] && rest[j] == matched[j + 1];
      DistributeUncapped(r, rest, c, maxCount, p);
      if p == matched[0] {
        assert p !in rest by {
          forall i | 0 <= i < |rest| ensures rest[i] != p {
            assert rest[i] == matched[i + 1];
          }
        }
      }
    }
  }

  /** The commits among `hashes`, in order, whose match is filed under `p`. */
  function CommitsFor(env: Env, m: Dict<string, Match>, hashes: seq<string>, filesInfo: map<string, seq<string>>,
                      statsInfo: map<string, (nat, nat)>, p: string): (cs: seq<Commit>)
    requires forall h :: h in hashes ==> h in m.table
    ensures |cs| <= |hashes|
    decreases |hashes|
  {
    if hashes == [] then []
    else
      var init := hashes[..|hashes| - 1];
      var h := hashes[|hashes| - 1];
      assert forall x :: x in init ==> x in hashes;
      CommitsFor(env, m, init, filesInfo, statsInfo, p)
      + (if p in m.table[h].prefixes then [CommitOf(env, m.table[h].record, filesInfo, statsInfo)] else [])
  }

  /** Without a cap each prefix's list gains exactly the commits filed under it, in log order. */
  lemma {:induction false} FanOutUncapped(env: Env, m: Dict<string, Match>, hashes: seq<string>, filesInfo: map<string, seq<string>>,
                                          statsInfo: map<string, (nat, nat)>, results: Dict<string, seq<Commit>>,
                                          maxCount: Option<int>, p: string)
    requires results.Valid() && Requested(m, results) && !Capped(maxCount)
    requires forall h :: h in hashes ==> h in m.table && Distinct(m.table[h].prefixes)
    requires p in results.table
    ensures FanOut(env, m, hashes, filesInfo, statsInfo, results, maxCount).table[p]
         == results.table[p] + CommitsFor(env, m, hashes, filesInfo, statsInfo, p)
    decreases |hashes|
  {
    if hashes != [] {
      var init := hashes[..|hashes| - 1];
      var h := hashes[|hashes| - 1];
      assert forall x :: x in init ==> x in hashes;
      FanOutUncapped(env, m, init, filesInfo, statsInfo, results, maxCount, p);
      var d := FanOut(env, m, init, filesInfo, statsInfo, results, maxCount);
      var c := CommitOf(env, m.table[h].record, filesInfo, statsInfo);
      DistributeUncapped(d, m.table[h].prefixes, c, maxCount, p);
      AppendAssoc(results.table[p], CommitsFor(env, m, init, filesInfo, statsInfo, p), if p in m.table[h].prefixes then [c] else []);
    }
  }

  /** A prefix no commit is filed under keeps its list, whatever the cap. */
  lemma {:induction false} FanOutUntouched(env: Env, m: Dict<string, Match>, hashes: seq<string>, filesInfo: map<string, seq<string>>,
                                           statsInfo: map<string, (nat, nat)>, results: Dict<string, seq<Commit>>,
                                           maxCount: Option<int>, p: string)
    requires results.Valid() && Requested(m, results)
    requires forall h :: h in hashes ==> h in m.table && p !in m.table[h].prefixes
    requires p in results.table
    ensures FanOut(env, m, hashes, filesInfo, statsInfo, results, maxCount).table[p] == results.table[p]
    decreases |hashes|
  {
    if hashes != [] {
      var init := hashes[..|hashes| - 1];
      var h := hashes[|hashes| - 1];
      assert forall x :: x in init ==> x in hashes;
      FanOutUntouched(env, m, init, filesInfo, statsInfo, results, maxCount, p);
      var d := FanOut(env, m, init, filesInfo, statsInfo, results, maxCount);
      DistributeUntouched(d, m.table[h].prefixes, CommitOf(env, m.table[h].record, filesInfo, statsInfo), maxCount, p);
    }
  }

  /**
    The query's keys are requested prefixes, and only a kept original can have
    commits; once some commit matched, every key has a non-empty list.
   */
  lemma FastQueryKeys(env: Env, prefixes: seq<string>, since: Option<string>, until: Option<string>, maxCount: Option<int>)
    ensures var r := FastQuery(env, prefixes, since, until, maxCount);
      r.Ok? ==>
        && (forall p :: p in r.value.table ==> p in prefixes)
        && (forall p :: p in r.value.table && r.value.table[p] != [] ==> Kept(prefixes, p))
    ensures var r := FastQuery(env, prefixes, since, until, maxCount);
      var run := RunGit(env, LogCommand(since, until, None));
      r.Ok? && prefixes != [] && run.Ok? && run.value != "" && MatchTable(prefixes, run.value).keys != [] ==>
        forall p :: p in r.value.table ==> r.value.table[p] != []
  {
    var r := FastQuery(env, prefixes, since, until, maxCount);
    if r.Ok? && prefixes != [] {
      var output := RunGit(env, LogCommand(since, until, None)).value;
      var m := MatchTable(prefixes, output);
      if output != "" && m.keys != [] {
        var results := FromKeys(prefixes, []);
        MatchTableRequested(prefixes, output);
        var d := FanOut(env, m, m.keys, FilesMap(env, m.keys), StatsMap(env, m.keys), results, maxCount);
        assert r.value == d.Where(NonEmpty);
        forall p | p in r.value.table && r.value.table[p] != []
          ensures Kept(prefixes, p)
        {
          if !Kept(prefixes, p) {
            forall h | h in m.keys ensures h in m.table && p !in m.table[h].prefixes {
              MatchTableIff(prefixes, output, h, p);
            }
            FanOutUntouched(env, m, m.keys, FilesMap(env, m.keys), StatsMap(env, m.keys), results, maxCount, p);
            assert false;
          }
        }
      }
    }
  }

  /** Some commit among `hashes` is filed under `p` exactly when `p` gets a commit. */
  lemma {:induction false} CommitsForNonEmpty(env: Env, m: Dict<string, Match>, hashes: seq<string>,
                                              filesInfo: map<string, seq<string>>, statsInfo: map<string, (nat, nat)>, p: string)
    requires forall h :: h in hashes ==> h in m.table
    ensures CommitsFor(env, m, hashes, filesInfo, statsInfo, p) != [] <==> exists h :: h in hashes && p in m.table[h].prefixes
    decreases |hashes|
  {
    if hashes != [] {
      var init := hashes[..|hashes| - 1];
      var h := hashes[|hashes| - 1];
      assert forall x :: x in init ==> x in hashes;
      assert hashes == init + [h];
      CommitsForNonEmpty(env, m, init, filesInfo, statsInfo, p);
    }
  }

  /**
    Without a cap, once some commit matched, the query keeps exactly the
    requested prefixes with at least one commit: the kept originals that some
    matched message matches.
   */
  lemma FastQueryExact(env: Env, prefixes: seq<string>, since: Option<string>, until: Option<string>,
                       maxCount: Option<int>, p: string)
    requires !Capped(maxCount) && prefixes != []
    requires RunGit(env, LogCommand(since, until, None)).Ok?
    requires RunGit(env, LogCommand(since, until, None)).value != ""
    requires MatchTable(prefixes, RunGit(env, LogCommand(since, until, None)).value).keys != []
    ensures var m := MatchTable(prefixes, RunGit(env, LogCommand(since, until, None)).value);
      var r := FastQuery(env, prefixes, since, until, maxCount);
      && r.Ok?
      && (p in r.value.table <==> p in prefixes && CommitsFor(env, m, m.keys, FilesMap(env, m.keys), StatsMap(env, m.keys), p) != [])
      && (p in r.value.table <==> Kept(prefixes, p) && exists h :: h in m.keys && Matches(m.table[h].record.message, p))
  {
    var output := RunGit(env, LogCommand(since, until, None)).value;
    var m := MatchTable(prefixes, output);
    var results := FromKeys(prefixes, []);
    MatchTableRequested(prefixes, output);
    var filesInfo, statsInfo := FilesMap(env, m.keys), StatsMap(env, m.keys);
    var d := FanOut(env, m, m.keys, filesInfo, statsInfo, results, maxCount);
    var r := FastQuery(env, prefixes, since, until, maxCount);
    assert r == Ok(d.Where(NonEmpty));
    forall h | h in m.keys
      ensures h in m.table && Distinct(m.table[h].prefixes)
      ensures p in m.table[h].prefixes <==> Kept(prefixes, p) && Matches(m.table[h].record.message, p)
    {
      MatchTableIff(prefixes, output, h, p);
    }
    CommitsForNonEmpty(env, m, m.keys, filesInfo, statsInfo, p);
    if p in prefixes {
      FanOutUncapped(env, m, m.keys, filesInfo, statsInfo, results, maxCount, p);
    }
  }

  /**
    Without a cap, each prefix of the result lists the matched commits filed
    under it, in log order; with `MatchTableIff` these are the commits whose
    message the prefix matches, for a kept original.
   */
  lemma FastQueryUncapped(env: Env, prefixes: seq<string>, since: Option<string>, until: Option<string>,
                          maxCount: Option<int>, p: string)
    requires !Capped(maxCount)
    requires FastQuery(env, prefixes, since, until, maxCount).Ok?
    requires p in FastQuery(env, prefixes, since, until, maxCount).value.table
    ensures RunGit(env, LogCommand(since, until, None)).Ok?
    ensures var m := MatchTable(prefixes, RunGit(env, LogCommand(since, until, None)).value);
      FastQuery(env, prefixes, since, until, maxCount).value.table[p]
        == CommitsFor(env, m, m.keys, FilesMap(env, m.keys), StatsMap(env, m.keys), p)
  {
    var output := RunGit(env, LogCommand(since, until, None)).value;
    var m := MatchTable(prefixes, output);
    if m.keys != [] {
      var results := FromKeys(prefixes, []);
      MatchTableRequested(prefixes, output);
      forall h | h in m.keys ensures h in m.table && Distinct(m.table[h].prefixes) {
        MatchTableIff(prefixes, output, h, p);
      }
      FanOutUncapped(env, m, m.keys, FilesMap(env, m.keys), StatsMap(env, m.keys), results, maxCount, p);
    }
  }

  /** When no logged message matches any prefix, every requested prefix maps to an empty list. */
  lemma FastQueryNoMatch(env: Env, prefixes: seq<string>, since: Option<string>, until: Option<string>, maxCount: Option<int>)
    requires prefixes != []
    requires RunGit(env, LogCommand(since, until, None)).Ok?
    requires RunGit(env, LogCommand(since, until, None)).value != ""
    requires forall l :: l in LogLines(RunGit(env, LogCommand(since, until, None)).value) && ParseLogLine(l).Some? ==>
      forall p :: p in prefixes ==> !Matches(ParseLogLine(l).value.message, p)
    ensures FastQuery(env, prefixes, since, until, maxCount) == Ok(FromKeys(prefixes, []))
  {
    var output := RunGit(env, LogCommand(since, until, None)).value;
    var normalized := NormalizedPrefixes(prefixes);
    forall l | l in LogLines(output) ensures LineMatch(normalized, l).None? {
      LineMatchNone(prefixes, l);
    }
    MatchingCommitsNone(LineMatcher(normalized), LogLines(output));
  }

  lemma NormalizeFeat(a: string, b: string)
    requires a == "feat:" && b == "feat"
    ensures NormalizePrefix(a) == b && NormalizePrefix(b) == b
  {
    assert RStripChars(a, PrefixTrim) == RStripChars(b, PrefixTrim);
  }

  /**
    Of `feat:` and `feat`, which normalise alike, only the later one is kept:
    the fast query never files a commit under `feat:`.
   */
  lemma ShadowedPrefixGetsNothing(env: Env, since: Option<string>, until: Option<string>, maxCount: Option<int>)
    ensures var r := FastQuery(env, ["feat:", "feat"], since, until, maxCount);
      r.Ok? && "feat:" in r.value.table ==> r.value.table["feat:"] == []
  {
    var prefixes := ["feat:", "feat"];
    NormalizeFeat("feat:", "feat");
    NormalizedPrefixesLastWins(prefixes, 1);
    assert !Kept(prefixes, "feat:");
    FastQueryKeys(env, prefixes, since, until, maxCount);
  }
}
