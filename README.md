# Requirement change analysis, modelled in Dafny

This project models the core of a tool that finds the code changes made for
one requirement in a git repository, and proves properties of that model.
Commits are selected by a message prefix such as `REQ-123:` or `feat(REQ-123):`.
A requirement's commits are found among the one-line `git log` records,
matched by a normalised prefix. Each matched commit is read in detail, with
its changed files and its insertion and deletion counts. The files it touched
are grouped and their local imports followed, giving a set of related files.
Several prefixes can be analysed in one query, with the per-prefix results
combined. A small part of the code reviewer is modelled too: language
detection by file extension, the code-file test and the summary report.

The modules follow the program:

- `Wrappers`: `Option` and `Result`.
- `PyText`: the Python string operations the code relies on (`strip`,
  `split`, `split(sep, n)`, `join`, `lower`, `replace`, `int`), each defined
  as Python defines it.
- `Dicts`: insertion-ordered dictionaries (`Dict`: a key sequence plus a map).
- `GitLog`: the entities (`Commit`, `FileChange`, `LogRecord`), the boundary
  to git and the filesystem (`Env`), and the log-line format.
- `Stats`: `_parse_stats`, with the two regular expressions written out as
  leftmost searches.
- `Details`: `_get_commit_details`, the batch helpers,
  `_get_commit_file_changes` and `get_file_changes_by_commits`.
- `PrefixMatch`: the prefix-matching rule.
- `PrefixQuery`: `get_commits_by_prefix` and
  `get_commits_by_multiple_prefixes_fast`.
- `Dependencies`: `_find_dependency_files` and its Python, JavaScript and
  TypeScript, and Java scanners, with `os.path.dirname`, `join` and
  `normpath`.
- `Aggregate`: `get_files_by_commit_prefix`, the pattern path,
  `get_related_files_by_requirement`, and
  `RequirementAnalyzer.analyze_multiple_prefixes` and `analyze_requirement`.
- `Reviewer`: `_detect_language`, `_is_code_file` and
  `_generate_summary_report`.

Python's loops are Dafny methods with loop invariants. Each method is proved
equal to a reference function, and the properties of the source are
proved as lemmas about those functions. Everything outside the program
is a field of `GitLog.Env`:

- `git`: the output of a git command, or its failure;
- `pathExists`: whether a path exists;
- `importTargets`: what the import regular expressions find in a file;
- `parseIsoDate`: `datetime.fromisoformat`;
- `now`: the current time.

The git analyzer object keeps only its repository path, which never changes,
so its methods are modelled on values, not as a class.

Long requirement prefixes without spaces, such as the first two entries of
the program's own demonstration list (git_commit_analyzer.py:1193-1194),
never use the two-word fallback. The third entry (line 1195) holds one ASCII
space, so its fallback applies, but its two-word key is the whole prefix. `rstrip(': ')` at line 116 leaves a full-width `：` in
place. A prefix with no whitespace also gives a single `split()` token at
lines 137-138, so the fallback's `len(key_parts) >= 2` test fails.
`PrefixMatch.FullWidthColonKept` and
`PrefixMatch.LongUnspacedPrefixRejectsSharedOpening` state this behaviour.

## Model

| member | source | states |
|---|---|---|
| `GitLog.RunGit` | git_commit_analyzer.py:52-82 | the command fails exactly when git fails; on success the output is no longer than git's raw output (whitespace stripped) |
| `GitLog.LogCommand` | git_commit_analyzer.py:100-108 | the `git log` arguments: the four format arguments first, then two more for each of `--since`, `--until` and a truthy `-n` cap |
| `GitLog.LogLines` | git_commit_analyzer.py:118 | `output.split('\n')` gives at least one line, and no line holds a line break |
| `GitLog.SplitRecord` | git_commit_analyzer.py:122-126 | a line gives five fields exactly when it holds at least four pipe characters; the fields joined with pipes give the line back, and the first four hold no pipe |
| `GitLog.ParseLogLine` | git_commit_analyzer.py:119-124 | a line gives a record exactly when it is not blank and holds at least four pipe characters |
| `GitLog.DateOrNow` | git_commit_analyzer.py:239-242 | the parsed date when `fromisoformat` succeeds, otherwise `now` |
| `Dicts.FirstOccurrences` | git_commit_analyzer.py:190 | a dict's key order: distinct keys, the same elements as the input |
| `Dicts.Dict.Put` | git_commit_analyzer.py:219 | `d[k] = v` keeps the dict valid; an existing key keeps its position and a new key goes last |
| `Dicts.Dict.Values` | git_commit_analyzer.py:950 | `list(d.values())` lists the values in key order |
| `Dicts.Dict.Where` | git_commit_analyzer.py:267 | a filtering dict comprehension keeps exactly the entries whose value passes, in key order |
| `Dicts.FromKeys` | git_commit_analyzer.py:234 | `{k: v for k in ks}`: keys in order of first occurrence, each mapped to `v` |
| `PyText.Strip` | git_commit_analyzer.py:71 | `strip()` gives a string no longer than its input, with no whitespace at either end |
| `PyText.LStripSpaceDropsSpace` | git_commit_analyzer.py:71 | `lstrip()` removes whitespace only |
| `PyText.RStripSpaceDropsSpace` | git_commit_analyzer.py:71 | `rstrip()` removes whitespace only |
| `PyText.RStripChars` | git_commit_analyzer.py:116 | `rstrip(chars)` removes exactly the trailing run of characters from `chars` |
| `PyText.Lower` | git_commit_analyzer.py:129 | `lower()` keeps the length and maps each character by itself |
| `PyText.SplitJoin` | git_commit_analyzer.py:118 | joining `s.split(sep)` with `sep` gives `s` back |
| `PyText.SplitLength` | git_commit_analyzer.py:118 | `s.split(sep)` has one more piece than `s` has separators |
| `PyText.SplitPieces` | git_commit_analyzer.py:118 | no piece of `s.split(sep)` holds the separator |
| `PyText.SplitNJoin` | git_commit_analyzer.py:122 | joining `s.split(sep, n)` with `sep` gives `s` back |
| `PyText.SplitNLength` | git_commit_analyzer.py:122-124 | `s.split(sep, n)` has `n + 1` pieces exactly when `s` holds at least `n` separators |
| `PyText.SplitNHeads` | git_commit_analyzer.py:122 | no piece of `s.split(sep, n)` but the last holds the separator |
| `PyText.WordsCons` | git_commit_analyzer.py:137 | `split()` takes a word followed by whitespace as its first token |
| `PyText.WordsSkipSpace` | git_commit_analyzer.py:137 | leading whitespace does not change the tokens of `split()` |
| `PyText.ReplaceFirst` | git_commit_analyzer.py:145 | `replace(a, b, 1)` changes only the first `a`, and nothing when there is none |
| `PyText.NatToStringRoundTrip` | git_commit_analyzer.py:452-457 | reading back the decimal digits of a number gives the number |
| `PyText.PyIntOfDigits` | git_commit_analyzer.py:517-518 | `int()` of a digit string is its decimal value |
| `Stats.FirstBothContains` | git_commit_analyzer.py:452-457 | the combined pattern matches only text holding both `insertion` and `deletion` |
| `Stats.ParseStatsAbsent` | git_commit_analyzer.py:460-468 | with neither word in the output both counts are 0 |
| `Stats.ParseStatsInsertionsOnly` | git_commit_analyzer.py:460-468 | without `deletion` the deletions are 0 and the insertions are the leftmost insertion count |
| `Stats.ParseStatsDeletionsOnly` | git_commit_analyzer.py:460-468 | without `insertion` the insertions are 0 and the deletions are the leftmost deletion count |
| `Stats.ParseStatsSummaryLine` | git_commit_analyzer.py:452-457 | the `git show --stat` summary `N file(s) changed, A insertion(s)(+), B deletion(s)(-)` gives `(A, B)` |
| `Stats.ParseStatsInsertionsLine` | git_commit_analyzer.py:460-463 | a summary line with insertions only gives `(A, 0)` |
| `Stats.ParseStatsDeletionsLine` | git_commit_analyzer.py:464-466 | a summary line with deletions only gives `(0, B)` |
| `Details.StripEach` | git_commit_analyzer.py:430 | one stripped line per line, position by position |
| `Details.NonBlank` | git_commit_analyzer.py:430 | a string is kept exactly when it occurs and is non-empty |
| `Details.StrippedLinesKeep` | git_commit_analyzer.py:430 | the comprehension is the stripped lines with the empty ones filtered out, in order |
| `Details.StrippedLinesIff` | git_commit_analyzer.py:430 | a string is kept exactly when it is non-empty and the stripped form of some line |
| `Details.StrippedLinesAreStripped` | git_commit_analyzer.py:430 | every kept line is non-empty, with no whitespace at either end |
| `Details.ChangedFiles` | git_commit_analyzer.py:430 | the file names of a `--name-only` output: no more than its lines, each non-empty and stripped, and a name is listed exactly when it is the stripped form of some line |
| `Details.ResolveInBatches` | git_commit_analyzer.py:269-303 | every hash gets exactly one entry: its fetched value, or the default when its own git call fails |
| `Details.CommitsFilesBatch` | git_commit_analyzer.py:269-303 | each hash maps to its changed files, or `[]` when git fails for that hash; every file name is non-empty and stripped |
| `Details.CommitsStatsBatch` | git_commit_analyzer.py:305-338 | each hash maps to its parsed stats, or `(0, 0)` when git fails for that hash |
| `Details.CommitDetailsOk` | git_commit_analyzer.py:407-445 | the detail read succeeds exactly when git answers, the header has five fields, the date parses and the stat query succeeds |
| `Details.CommitDetailsFields` | git_commit_analyzer.py:407-445 | a detailed commit's fields are the header's fields, its files are the stripped non-blank lines after the header, and its counts are the parsed stat summary |
| `Details.ClassifyLines` | git_commit_analyzer.py:501-511 | the numstat lines and the name-status lines, each in output order |
| `Details.PairChanges` | git_commit_analyzer.py:514-541 | the changes built from the numstat lines paired in order with the status lines; `[]` once a count fails to parse |
| `Details.CommitFileChanges` | git_commit_analyzer.py:492-547 | the method computes `FileChanges`, the changes of one commit |
| `Details.PairUpToErrStays` | git_commit_analyzer.py:545-547 | once one line raises, the whole commit gives no changes |
| `Details.ChangeOfTyped` | git_commit_analyzer.py:522-533 | a built change has type A, M, D, R or C, and carries a previous path only when it is a rename |
| `Details.FileChangesTyped` | git_commit_analyzer.py:492-547 | every change of a commit is typed, and there is at most one change per numstat line |
| `Details.FileChangesOfFailure` | git_commit_analyzer.py:545-547 | a failing git call gives no changes |
| `Details.BinaryNumstatDropped` | git_commit_analyzer.py:507-511 | a binary numstat line `-\t-\tpath` is neither a numstat line nor a status line, so it is dropped |
| `Details.ChangeOfRename` | git_commit_analyzer.py:529-533 | a rename status line gives a change on the new path that records the old path |
| `Details.ChangeOfStatus` | git_commit_analyzer.py:525-527 | any other status line gives its type letter, and the numstat line's path is kept |
| `Details.ChangeOfUnpaired` | git_commit_analyzer.py:522-523 | a numstat line with no status line left is a modification (`M`) |
| `Details.FileChangesOfPair` | git_commit_analyzer.py:492-547 | an output of one numstat line and one status line gives the change built from the two |
| `Details.RenameExample` | git_commit_analyzer.py:492-547 | `3\t1\tnewname.py` followed by `R100\toldname.py\tnewname.py` gives one rename on `newname.py` from `oldname.py` |
| `Details.OnPathAbsent` | git_commit_analyzer.py:485-488 | a path that no change touches has no changes on it |
| `Details.GroupByPathContents` | git_commit_analyzer.py:470-490 | one key per path, in order of first appearance, each holding exactly the changes on that path, in order |
| `Details.AddChanges` | git_commit_analyzer.py:485-488 | appending a commit's changes extends the grouping to the longer change list |
| `Details.FileChangesByCommits` | git_commit_analyzer.py:470-490 | the result is the grouping by path of every commit's changes, commit by commit |
| `PrefixMatch.NormalizePrefix` | git_commit_analyzer.py:116 | `rstrip(': ').lower()`: the result has no trailing `:` or space |
| `PrefixMatch.FallbackKeyValue` | git_commit_analyzer.py:137-139 | the fallback key is the first two whitespace-separated tokens joined by one space |
| `PrefixMatch.MatchesIff` | git_commit_analyzer.py:129-140 | a message matches when its normalised form starts with the normalised prefix, or, for a prefix longer than ten characters with two or more words, with its first two words |
| `PrefixMatch.TrailingTrimIgnored` | git_commit_analyzer.py:116 | a trailing `:` or space on the prefix does not change matching |
| `PrefixMatch.CaseInsensitive` | git_commit_analyzer.py:116-129 | matching ignores case in both the message and the prefix |
| `PrefixMatch.EmptyPrefixMatchesAll` | git_commit_analyzer.py:132 | a prefix that normalises to the empty string matches every message |
| `PrefixMatch.ShortPrefixAnchored` | git_commit_analyzer.py:135 | a normalised prefix of at most ten characters must start the normalised message |
| `PrefixMatch.UnspacedPrefixAnchored` | git_commit_analyzer.py:137-138 | a prefix without whitespace never uses the fallback, however long it is |
| `PrefixMatch.FixMatchesFixing` | git_commit_analyzer.py:129-140 | `fix:` matches `fixing typo` |
| `PrefixMatch.FixRejectsLater` | git_commit_analyzer.py:129-140 | `fix:` does not match `I will fix later` |
| `PrefixMatch.FullWidthColonKept` | git_commit_analyzer.py:116 | a full-width colon is not trimmed |
| `PrefixMatch.LongUnspacedPrefixRejectsSharedOpening` | git_commit_analyzer.py:135-140 | the long Chinese prefix does not match a message that shares only its opening |
| `PrefixMatch.LongPrefixMatchesFirstTwoWords` | git_commit_analyzer.py:135-140 | a long two-word prefix also matches a message that starts with just its first two words |
| `PrefixQuery.PickedIff` | git_commit_analyzer.py:118-152 | a value is picked exactly when some line gives it |
| `PrefixQuery.DetailsAllOk` | git_commit_analyzer.py:151-152 | reading succeeds exactly when every record reads, and then gives one commit per record, in order |
| `PrefixQuery.CollectDetails` | git_commit_analyzer.py:118-152 | the loop reads in detail, in order, every line the matcher selects |
| `PrefixQuery.CommitsByPrefix` | git_commit_analyzer.py:84-154 | the method computes `CommitsByPrefixSpec`: an empty log gives `[]`, and a failing git call raises |
| `PrefixQuery.CommitsByPrefixOk` | git_commit_analyzer.py:84-154 | one commit per matching log line, in log order, each the detailed read of that line's hash; the query fails exactly when one of those reads fails |
| `PrefixQuery.CommitsByPrefixSelects` | git_commit_analyzer.py:118-142 | a record is read exactly when it comes from a log line whose message matches the prefix |
| `PrefixQuery.NormalizedPrefixesValues` | git_commit_analyzer.py:190 | every requested prefix has its normalisation as a key, and each value is a requested prefix filed under its own normalisation |
| `PrefixQuery.NormalizedPrefixesLastWins` | git_commit_analyzer.py:190 | among prefixes that normalise alike, the last one is kept |
| `PrefixQuery.MatchedPrefixesIff` | git_commit_analyzer.py:205-216 | an original is matched exactly when it is the value of a normalised key that the message matches |
| `PrefixQuery.MatchPrefixes` | git_commit_analyzer.py:205-216 | the originals of every matching normalised prefix, in table order |
| `PrefixQuery.MatchedPrefixesDistinct` | git_commit_analyzer.py:205-216 | the prefixes matched by one message are distinct |
| `PrefixQuery.CollectMatches` | git_commit_analyzer.py:194-219 | `matching_commits`: each matched log line under its hash, a repeated hash keeping its first position |
| `PrefixQuery.MatchingCommitsFrom` | git_commit_analyzer.py:194-219 | every kept match comes from some log line |
| `PrefixQuery.MatchingCommitsNone` | git_commit_analyzer.py:218-222 | nothing is kept when no line matches |
| `PrefixQuery.LineMatchPrefixes` | git_commit_analyzer.py:205-216 | every prefix a line matched is a requested prefix, the one kept for its normalisation |
| `PrefixQuery.LineMatchNone` | git_commit_analyzer.py:218 | a line whose message matches no requested prefix matches nothing |
| `PrefixQuery.DistributeCommit` | git_commit_analyzer.py:259-264 | the commit goes to each matched prefix in turn, stopping after the first list that has reached `max_count` |
| `PrefixQuery.DistributeUntouched` | git_commit_analyzer.py:259-264 | a prefix not matched keeps its list |
| `PrefixQuery.DistributeFirst` | git_commit_analyzer.py:259-264 | the first matched prefix always gets the commit, even when its list is already at `max_count` |
| `PrefixQuery.DistributeUncapped` | git_commit_analyzer.py:259-260 | without a cap every matched prefix gets the commit once, and no other list changes |
| `PrefixQuery.BuildResults` | git_commit_analyzer.py:236-264 | each matched commit is built once from its record and the batch results, then distributed to its prefixes, in log order |
| `PrefixQuery.FetchBatches` | git_commit_analyzer.py:225-231 | the files and stats of every matched hash |
| `PrefixQuery.MatchTablePrefixes` | git_commit_analyzer.py:194-219 | every prefix a commit is filed under is a requested prefix, the one kept for its normalisation |
| `PrefixQuery.MatchTableIff` | git_commit_analyzer.py:194-219 | a matched commit is filed under exactly the kept prefixes its message matches, each once |
| `PrefixQuery.FanOutUncapped` | git_commit_analyzer.py:236-260 | without a cap each list gains exactly the commits filed under that prefix, in log order |
| `PrefixQuery.FanOutUntouched` | git_commit_analyzer.py:236-264 | a prefix that no commit is filed under keeps its list |
| `PrefixQuery.CommitsByMultiplePrefixesFast` | git_commit_analyzer.py:156-267 | the method computes `FastQuery`: no prefixes or an empty log give `{}`, and only the log call can raise |
| `PrefixQuery.FastQueryKeys` | git_commit_analyzer.py:234-267 | the result's keys are requested prefixes and only a kept original has commits; once some message matched, every key has a non-empty list |
| `PrefixQuery.CommitsForNonEmpty` | git_commit_analyzer.py:236-260 | a prefix collects some commit exactly when some matched commit is filed under it |
| `PrefixQuery.FastQueryExact` | git_commit_analyzer.py:234-267 | without a cap, once some message matched, a prefix is a key exactly when it is kept and some matched message matches it |
| `PrefixQuery.FastQueryUncapped` | git_commit_analyzer.py:236-267 | without a cap each prefix lists the matched commits filed under it, in log order |
| `PrefixQuery.FastQueryNoMatch` | git_commit_analyzer.py:221-222 | when no message matches, every requested prefix maps to an empty list |
| `PrefixQuery.ShadowedPrefixGetsNothing` | git_commit_analyzer.py:190 | of `feat:` and `feat`, which normalise alike, only the later is kept, and no commit is filed under `feat:` |
| `Dependencies.LastSlashEnd` | git_commit_analyzer.py:815 | `p.rfind('/') + 1`: the prefix up to the last slash, with no slash after it |
| `Dependencies.NormComponentsClean` | git_commit_analyzer.py:816-818 | a normalised path keeps no empty or `.` component, and no `..` when rooted |
| `Dependencies.DirName` | git_commit_analyzer.py:815 | `os.path.dirname`: a prefix of the path, no longer than it |
| `Dependencies.PathJoin` | git_commit_analyzer.py:816-817 | `os.path.join(a, b)` ends with `b`, and starts with `a` unless `b` is absolute |
| `Dependencies.NormPath` | git_commit_analyzer.py:816-818 | `os.path.normpath` never returns an empty path, and a rooted path stays rooted |
| `Dependencies.NormPathOfPlain` | git_commit_analyzer.py:816-818 | a relative path of plain components is already normal |
| `Dependencies.JoinSplitReplaces` | git_commit_analyzer.py:847-848 | `'/'.join(s.split('.'))` is `s.replace('.', '/')` |
| `Dependencies.GatheredIff` | git_commit_analyzer.py:738-762 | a path is gathered exactly when some target contributes it |
| `Dependencies.PythonCandidates` | git_commit_analyzer.py:781-784 | two candidates, the module path with dots as slashes plus `.py` and plus `/__init__.py` |
| `Dependencies.PythonHits` | git_commit_analyzer.py:778-788 | an empty or relative target gives nothing; otherwise only existing candidates |
| `Dependencies.PythonTargetHits` | git_commit_analyzer.py:778-788 | the candidate loop for one target collects exactly `PythonHits`: the existing candidates of a non-relative module |
| `Dependencies.FirstExisting` | git_commit_analyzer.py:821-825 | the first candidate that exists: every earlier one is missing |
| `Dependencies.ScriptHits` | git_commit_analyzer.py:813-825 | a target gives at most one path, and nothing unless it is relative |
| `Dependencies.ScriptTargetHits` | git_commit_analyzer.py:813-825 | the body for one target gives exactly `ScriptHits`: the first existing candidate of a relative target |
| `Dependencies.JavaHits` | git_commit_analyzer.py:847-851 | a target gives its package path exactly when that path exists |
| `Dependencies.JavaPathReplacesDots` | git_commit_analyzer.py:847-848 | a Java target's path is the package name with dots made slashes, plus `.java` |
| `Dependencies.PythonDependencies` | git_commit_analyzer.py:764-793 | the union of what each import target contributes |
| `Dependencies.ScriptDependencies` | git_commit_analyzer.py:795-830 | the union of what each relative target contributes |
| `Dependencies.FirstExistingIndex` | git_commit_analyzer.py:821-825 | the extension loop stops at the first existing candidate |
| `Dependencies.JavaDependencies` | git_commit_analyzer.py:832-856 | the union of the existing package paths of the targets |
| `Dependencies.ScannerFor` | git_commit_analyzer.py:755-760 | no scanner exactly when the file ends in none of `.py`, `.js`, `.ts` and `.java` |
| `Dependencies.ScanFile` | git_commit_analyzer.py:750-760 | the dependencies of one file: none when it does not exist or no scanner applies |
| `Dependencies.FindDependencyFiles` | git_commit_analyzer.py:738-762 | the union of the dependencies of the files |
| `Dependencies.DependenciesExist` | git_commit_analyzer.py:738-762 | only existing paths are reported, and nothing for a missing file or an unscanned extension |
| `Dependencies.PythonDependencyIff` | git_commit_analyzer.py:764-793 | a Python file depends on exactly the existing candidates of its non-relative targets |
| `Dependencies.ScriptHitsIff` | git_commit_analyzer.py:813-825 | one script target contributes the first of its candidates that exists, if it is relative, and nothing else |
| `Dependencies.ScriptDependencyIff` | git_commit_analyzer.py:795-830 | a script file depends on exactly the first existing candidate of each relative target |
| `Dependencies.JavaDependencyIff` | git_commit_analyzer.py:832-856 | a Java file depends on exactly the existing package paths of its targets |
| `Dependencies.ParentImportResolved` | git_commit_analyzer.py:815-822 | `../lib/api` imported from `src/app.js` is first looked for as `lib/api.js` |
| `Aggregate.DirectFilesIff` | git_commit_analyzer.py:376-379 | a file is a direct file exactly when some commit changed it |
| `Aggregate.TotalsAppend` | git_commit_analyzer.py:376-379 | the totals over a concatenation are the sums of the totals over the parts |
| `Aggregate.Tally` | git_commit_analyzer.py:373-379 | the direct files, and the sums of additions and deletions |
| `Aggregate.MinDate` | git_commit_analyzer.py:401 | the date of some commit, and no later than any commit's date |
| `Aggregate.MaxDate` | git_commit_analyzer.py:402 | the date of some commit, and no earlier than any commit's date |
| `Aggregate.TimeRangeOf` | git_commit_analyzer.py:400-403 | present exactly when there are commits, with the start no later than the end |
| `Aggregate.FileAnalysisOfNothing` | git_commit_analyzer.py:357-370 | no commits give empty sets, no changes and zero totals |
| `Aggregate.AnalyzeCommits` | git_commit_analyzer.py:373-405 | the method computes `FileAnalysisOf`, the analysis of the commits |
| `Aggregate.FilesByCommitPrefix` | git_commit_analyzer.py:340-405 | the analysis of the commits the prefix selects; a failure of the commit query is passed on |
| `Aggregate.FileAnalysisFacts` | git_commit_analyzer.py:373-405 | the direct files are within the related files, and equal to them without dependencies; they are exactly the files the commits changed; every other related file exists; the counts and the time range cover the commits |
| `Aggregate.FilesByPattern` | git_commit_analyzer.py:641-736 | the analysis of the commits whose message the pattern search accepts |
| `Aggregate.RelatedFilesByRequirement` | git_commit_analyzer.py:616-639 | the prefix path or the pattern path, as the dispatcher's test chooses |
| `Aggregate.RelatedFilesRoute` | git_commit_analyzer.py:631-637 | the prefix path is taken, and its result carries the pattern, exactly when the pattern holds a `:` or ends in a space or `-` |
| `Aggregate.GatherResults` | git_commit_analyzer.py:910-944 | the loop over the per-prefix lists computes `Gather`: empty lists are skipped |
| `Aggregate.PrefixResultFor` | git_commit_analyzer.py:913-940 | the per-prefix step gives `PrefixResultOf`: the tallied direct files and counts, the direct files plus their dependencies, and the time range |
| `Aggregate.Deduplicate` | git_commit_analyzer.py:947-949 | the loop computes `Unique`: each commit under its hash, a later commit replacing an earlier one |
| `Aggregate.AnalyzeMultiplePrefixes` | git_commit_analyzer.py:888-969 | the combined analysis of the fast query's result; a failing log call is passed on |
| `Aggregate.GatherFacts` | git_commit_analyzer.py:910-944 | one result per non-empty list, and the combined sets and commits are unions over those results |
| `Aggregate.MultiAnalysisTable` | git_commit_analyzer.py:910-940 | a result for exactly the prefixes with commits, each the analysis of that prefix's list |
| `Aggregate.MultiAnalysisFiles` | git_commit_analyzer.py:943-944 | the combined file sets are the unions of the per-prefix sets |
| `Aggregate.CombinedCommitsDistinct` | git_commit_analyzer.py:947-950 | one commit per distinct hash of the list, each taken from it |
| `Aggregate.CoveredBy` | git_commit_analyzer.py:942-950 | a list carrying the hash of every gathered commit carries every hash of every result |
| `Aggregate.MultiAnalysisCommits` | git_commit_analyzer.py:942-950 | the combined commits: one per distinct hash, each from some prefix's list, every hash represented |
| `Aggregate.PrefixResultFacts` | git_commit_analyzer.py:913-940 | each result's direct files are within its files, are exactly the files its commits changed, and every other file exists |
| `Aggregate.AnalyzeMultiplePrefixesKeys` | git_commit_analyzer.py:901-940 | a prefix result is the analysis of the non-empty list the fast query filed under a kept, requested prefix |
| `Aggregate.AnalyzeRequirement` | git_commit_analyzer.py:971-998 | the combined analysis of the five templates for the id, followed by the extra patterns |
| `Aggregate.PatternOverridesTemplate` | git_commit_analyzer.py:990-996 | an extra pattern that normalises like a template replaces it: the pattern is kept and the template receives no commits |
| `Reviewer.DetectLanguage` | ai_code_reviewer.py:199-229 | the language listed for the lower-cased extension, or `text` when it is not listed |
| `Reviewer.SplitExt` | ai_code_reviewer.py:201 | `os.path.splitext`: the two parts concatenate to the path, and the extension is empty or a dot followed by no dot or slash |
| `Reviewer.IsCodeFile` | ai_code_reviewer.py:320-328 | a code file has a lower-cased extension of a dot and at least one more character |
| `Reviewer.TextMeansUnlisted` | ai_code_reviewer.py:203-229 | the result is `text` exactly when the extension is not listed |
| `Reviewer.CodeFilesHaveLanguage` | ai_code_reviewer.py:320-328 | every code file has a listed language other than `text` |
| `Reviewer.CaseInsensitive` | ai_code_reviewer.py:201 | the language and the code-file test do not depend on the case of the path |
| `Reviewer.ExtensionAdded` | ai_code_reviewer.py:201 | a dot and a dot-free, slash-free suffix after a named last component make that suffix the extension |
| `Reviewer.NoDotNoExtension` | ai_code_reviewer.py:201 | a path with no dot after its last slash has no extension |
| `Reviewer.DotFileHasNoExtension` | ai_code_reviewer.py:201 | a leading-dot name such as `.py` has no extension |
| `Reviewer.UpperCaseJavaFile` | ai_code_reviewer.py:199-229 | `src/Main.JAVA` is Java and a code file |
| `Reviewer.MarkdownIsNotCode` | ai_code_reviewer.py:320-328 | Markdown has a language but is not code |
| `Reviewer.DotFileIsText` | ai_code_reviewer.py:320-328 | `lib/.py` has no language and is not code |
| `Reviewer.TallyReviews` | ai_code_reviewer.py:250-260 | the number of done reviews whose response holds an issue keyword, and the number holding a high-priority keyword |
| `Reviewer.CountFile` | ai_code_reviewer.py:243-260 | a failed file is skipped; otherwise its language count goes up by one and its reviews are tallied |
| `Reviewer.GenerateSummaryReport` | ai_code_reviewer.py:231-270 | the report built from the loop over the files, with the timestamp passed in |
| `Reviewer.LanguageStatsTotal` | ai_code_reviewer.py:247-248 | the language counts add up to the number of files that did not fail |
| `Reviewer.LanguageStatsCounts` | ai_code_reviewer.py:247-248 | a language is listed exactly when some file that did not fail has it, with the number of such files |
| `Reviewer.FileHitsBounded` | ai_code_reviewer.py:250-260 | each keyword count is at most the number of done reviews |
| `Reviewer.ReviewHitsOfQuiet` | ai_code_reviewer.py:255-260 | reviews without keywords, or that failed, add nothing |
| `Reviewer.SummaryReportFacts` | ai_code_reviewer.py:262-270 | the commit count is the list's length, the reviewed count is passed through, the languages add up to the files that did not fail, and both issue counts are bounded by the done reviews |

## Left out

- The git subprocess, the filesystem and the clock are oracles in
  `GitLog.Env`. Time-outs and `git` being missing are part of `env.git`
  failing.
- The import regular expressions of the three scanners, and reading the
  file, are the oracle `env.importTargets`: one list of targets per file,
  with an unreadable file giving none. For JavaScript the two patterns'
  matches are taken as one list.
- `Dependencies.NormPath` models POSIX `os.path.normpath`. The model has no
  Windows path rules and no symbolic links.
- `datetime.fromisoformat` is the oracle `env.parseIsoDate`, and dates are
  ordered integers. The review timestamp, `datetime.now().isoformat()`, is
  the parameter `now` of `Reviewer.GenerateSummaryReport`.
- Logging, `print` and warnings are left out. They do not change results.
- `export_analysis_report`, `analyze_requirement_by_prefix`, the module-level
  convenience functions, the command-line entry point and the other files of
  the repository are not part of this model.
- The first definition of `get_related_files_by_requirement` (lines 549-614)
  is replaced by the second when the class is created, so only the second one
  is modelled.
- `Aggregate.FilesByPattern` takes the case-insensitive `re.search` of the
  user's pattern as the predicate `search`. Regular expression matching
  itself is not modelled. Nor is the `re.error` that `re.compile` raises at
  line 668 for an invalid pattern: the model's search always succeeds.
- The date that `get_commits_by_prefix` parses for a matched line
  (lines 144-148) is never used: the commit comes from the detail read. The
  model leaves that parse out.
- `PrefixQuery.DistributeCommit`: the cap does not bound the lists. The
  source's `break` only stops the distribution to the later prefixes.
  `PrefixQuery.DistributeFirst` states this: `max_count` is not an upper
  bound on a list's length.
- `PyText.Lower` maps ASCII letters only. Python's `str.lower` also maps
  non-ASCII letters. Digits (`isdigit`, `\d`, `int`) are ASCII only.
- `Reviewer.GenerateSummaryReport` assumes `ai_response` is absent or a
  string. An explicit `None`, where the source's `.lower()` would raise, is
  not modelled.
- `Details.ChangeOfTyped`: an empty status line, where Python's
  `status_line[0]` raises `IndexError`, is modelled as an error. Stripped
  status lines are never empty, so this case cannot occur.
- The batch helpers fetch in groups of fifty hashes. Their results do not
  depend on the grouping. An exception other than a failed git call is not
  modelled.
