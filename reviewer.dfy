/**
  The three pure or counting helpers of the code reviewer
  (ai_code_reviewer.py): the extension-to-language lookup
  (`_detect_language`), the code-file test (`_is_code_file`) and the
  summary counter over review results (`_generate_summary_report`).
 */
module Reviewer {
  import opened Wrappers
  import opened PyText
  import opened Dicts
  import opened GitLog

  // ---------------------------------------------------------------------
  // os.path.splitext
  // ---------------------------------------------------------------------

  /** `s.rfind(c)`: the index of the last `c`, or -1. */
  function RFind(s: string, c: char): (i: int)
    ensures -1 <= i < |s|
    ensures i >= 0 ==> s[i] == c
    ensures forall k :: i < k < |s| ==> s[k] != c
    decreases |s|
  {
    if s == [] then -1
    else if s[|s| - 1] == c then |s| - 1
    else RFind(s[..|s| - 1], c)
  }

  /**
    `os.path.splitext(p)` on POSIX: the extension runs from the last dot of
    the last component, provided some character other than a dot precedes
    that dot within the component (so `.bashrc` has none).
   */
  function SplitExt(p: string): (r: (string, string))
    ensures r.0 + r.1 == p
    ensures r.1 == "" || (r.1[0] == '.' && '/' !in r.1 && '.' !in r.1[1..])
  {
    var sep := RFind(p, '/');
    var dot := RFind(p, '.');
    if dot > sep && HasStem(p, sep, dot) then
      assert p[..dot] + p[dot..] == p;
      (p[..dot], p[dot..])
    else
      (p, "")
  }

  /** Some character strictly between `sep` and `dot` is not a dot. */
  predicate HasStem(p: string, sep: int, dot: int) {
    exists k :: sep < k < dot && 0 <= k < |p| && p[k] != '.'
  }

  /** The lower-cased extension both helpers look up. */
  function LowerExt(p: string): string {
    Lower(SplitExt(p).1)
  }

  // ---------------------------------------------------------------------
  // _detect_language and _is_code_file (ai_code_reviewer.py:199-229, 320-328)
  // ---------------------------------------------------------------------

  const LanguageMap: map<string, string> := map[
    ".py" := "python", ".js" := "javascript", ".ts" := "typescript", ".java" := "java",
    ".cpp" := "cpp", ".c" := "c", ".cs" := "csharp", ".php" := "php", ".rb" := "ruby",
    ".go" := "go", ".rs" := "rust", ".swift" := "swift", ".kt" := "kotlin",
    ".scala" := "scala", ".html" := "html", ".css" := "css", ".sql" := "sql",
    ".sh" := "bash", ".yml" := "yaml", ".yaml" := "yaml", ".json" := "json",
    ".xml" := "xml", ".md" := "markdown"]

  const CodeExtensions: set<string> := {
    ".py", ".js", ".ts", ".java", ".cpp", ".c", ".cs",
    ".php", ".rb", ".go", ".rs", ".swift", ".kt", ".scala"}

  /** `_detect_language`: the language of the lower-cased extension, `text` when it is not listed. */
  function DetectLanguage(path: string): (language: string)
    ensures LowerExt(path) in LanguageMap ==> language == LanguageMap[LowerExt(path)]
    ensures LowerExt(path) !in LanguageMap ==> language == "text"
  {
    var ext := LowerExt(path);
    if ext in LanguageMap then LanguageMap[ext] else "text"
  }

  /** `_is_code_file`: the lower-cased extension is one of the fourteen code extensions. */
  predicate IsCodeFile(path: string)
    ensures IsCodeFile(path) ==> 2 <= |LowerExt(path)| && LowerExt(path)[0] == '.'
  {
    LowerExt(path) in CodeExtensions
  }

  /** No listed extension maps to `text`, so `text` means exactly "extension not listed". */
  lemma TextMeansUnlisted(path: string)
    ensures DetectLanguage(path) == "text" <==> LowerExt(path) !in LanguageMap
  {
    NoLanguageIsText();
  }

  lemma NoLanguageIsText()
    ensures forall e :: e in LanguageMap ==> LanguageMap[e] != "text"
  {
  }

  /** Every code file has a detected language other than `text`. */
  lemma CodeFilesHaveLanguage(path: string)
    ensures IsCodeFile(path) ==> LowerExt(path) in LanguageMap && DetectLanguage(path) != "text"
  {
    assert CodeExtensions <= LanguageMap.Keys;
    TextMeansUnlisted(path);
  }

  // ---------------------------------------------------------------------
  // Case does not matter
  // ---------------------------------------------------------------------

  lemma {:induction false} RFindLower(s: string, c: char)
    requires !('A' <= c <= 'Z') && !('a' <= c <= 'z')
    ensures RFind(Lower(s), c) == RFind(s, c)
    decreases |s|
  {
    if s != [] {
      assert Lower(s)[..|s| - 1] == Lower(s[..|s| - 1]);
      RFindLower(s[..|s| - 1], c);
    }
  }

  lemma LowerTwice(s: string)
    ensures Lower(Lower(s)) == Lower(s)
  {
  }

  lemma HasStemLower(p: string, sep: int, dot: int)
    ensures HasStem(Lower(p), sep, dot) <==> HasStem(p, sep, dot)
  {
    if HasStem(p, sep, dot) {
      var k :| sep < k < dot && 0 <= k < |p| && p[k] != '.';
      assert Lower(p)[k] != '.';
    }
    if HasStem(Lower(p), sep, dot) {
      var k :| sep < k < dot && 0 <= k < |p| && Lower(p)[k] != '.';
      assert p[k] != '.';
    }
  }

  lemma LowerSuffix(s: string, i: nat)
    requires i <= |s|
    ensures Lower(s)[i..] == Lower(s[i..])
  {
  }

  lemma SplitExtLower(p: string)
    ensures SplitExt(Lower(p)).1 == Lower(SplitExt(p).1)
  {
    RFindLower(p, '/');
    RFindLower(p, '.');
    var sep := RFind(p, '/');
    var dot := RFind(p, '.');
    HasStemLower(p, sep, dot);
    if dot > sep && HasStem(p, sep, dot) {
      LowerSuffix(p, dot);
    }
  }

  /** The language and the code-file test do not depend on the case of the path. */
  lemma CaseInsensitive(path: string)
    ensures DetectLanguage(Lower(path)) == DetectLanguage(path)
    ensures IsCodeFile(Lower(path)) <==> IsCodeFile(path)
  {
    SplitExtLower(path);
    LowerTwice(SplitExt(path).1);
  }

  // ---------------------------------------------------------------------
  // Which part is the extension
  // ---------------------------------------------------------------------

  /** The last component of `p` holds some character other than a dot. */
  predicate NamedComponent(p: string) {
    exists k :: 0 <= k < |p| && p[k] != '.' && k > RFind(p, '/')
  }

  lemma {:induction false} RFindAppend(s: string, t: string, c: char)
    requires c !in t
    ensures RFind(s + t, c) == RFind(s, c)
    decreases |t|
  {
    if t != [] {
      var u := s + t;
      assert u[|u| - 1] == t[|t| - 1] != c;
      assert u[..|u| - 1] == s + t[..|t| - 1];
      assert c !in t[..|t| - 1];
      RFindAppend(s, t[..|t| - 1], c);
    } else {
      assert s + t == s;
    }
  }

  /**
    Adding `.` and a dot-free, slash-free suffix to a path whose last
    component is named makes that suffix, dot included, the extension.
   */
  lemma ExtensionAdded(p: string, e: string)
    requires NamedComponent(p)
    requires '.' !in e && '/' !in e
    ensures SplitExt(p + "." + e) == (p, "." + e)
  {
    var q := p + "." + e;
    assert q == (p + ".") + e;
    RFindAppend(p + ".", e, '.');
    RFindAppend(p + ".", e, '/');
    RFindAppend(p, ".", '/');
    assert RFind(p + ".", '.') == |p|;
    var k :| 0 <= k < |p| && p[k] != '.' && k > RFind(p, '/');
    assert q[k] == p[k];
    assert q[..|p|] == p;
    assert q[|p|..] == "." + e;
  }

  /** A path with no dot after its last slash has no extension. */
  lemma NoDotNoExtension(p: string)
    requires RFind(p, '.') < RFind(p, '/') || '.' !in p
    ensures SplitExt(p) == (p, "")
  {
  }

  /** A leading-dot name such as `.py` has no extension. */
  lemma DotFileHasNoExtension(dir: string, name: string)
    requires '.' !in name && '/' !in name
    requires dir == "" || dir[|dir| - 1] == '/'
    ensures SplitExt(dir + "." + name) == (dir + "." + name, "")
  {
    var q := dir + "." + name;
    assert q == (dir + ".") + name;
    RFindAppend(dir + ".", name, '.');
    RFindAppend(dir + ".", name, '/');
    RFindAppend(dir, ".", '/');
    assert RFind(dir, '/') == |dir| - 1;
    assert RFind(q, '.') == |dir|;
  }

  /** A component that starts with something other than a dot is named. */
  lemma NamedAfterSlash(dir: string, name: string)
    requires dir == "" || dir[|dir| - 1] == '/'
    requires '/' !in name && name != [] && name[0] != '.'
    ensures NamedComponent(dir + name)
  {
    RFindAppend(dir, name, '/');
    assert (dir + name)[|dir|] == name[0];
  }

  /** A name after a directory separator, then a dot and an extension: that extension, lower-cased. */
  lemma NamedFileExtension(dir: string, name: string, e: string)
    requires dir == "" || dir[|dir| - 1] == '/'
    requires '/' !in name && name != [] && name[0] != '.'
    requires '.' !in e && '/' !in e
    ensures LowerExt(dir + name + "." + e) == Lower("." + e)
  {
    NamedAfterSlash(dir, name);
    ExtensionAdded(dir + name, e);
  }

  lemma LowerDotJava(e: string)
    requires e == "JAVA"
    ensures Lower("." + e) == ".java"
  {
    var d := "." + e;
    assert d[0] == '.' && d[1] == 'J' && d[2] == 'A' && d[3] == 'V' && d[4] == 'A';
    var l := Lower(d);
    assert l[0] == '.' && l[1] == 'j' && l[2] == 'a' && l[3] == 'v' && l[4] == 'a';
  }

  lemma JavaExtension()
    ensures LowerExt("src/Main.JAVA") == ".java"
  {
    NamedFileExtension("src/", "Main", "JAVA");
    JavaPathPieces("src/", "Main", "JAVA", "src/Main.JAVA");
    LowerDotJava("JAVA");
  }

  lemma JavaPathPieces(dir: string, name: string, e: string, p: string)
    requires dir == "src/" && name == "Main" && e == "JAVA" && p == "src/Main.JAVA"
    ensures dir + name + "." + e == p
  {
    assert dir + name == "src/Main";
  }

  /** The extension is matched without regard to case. */
  lemma UpperCaseJavaFile()
    ensures DetectLanguage("src/Main.JAVA") == "java" && IsCodeFile("src/Main.JAVA")
  {
    JavaExtension();
  }

  lemma MarkdownExtension()
    ensures LowerExt("docs/README.md") == ".md"
  {
    NamedFileExtension("docs/", "README", "md");
    MarkdownPathPieces("docs/", "README", "md", "docs/README.md");
    assert Lower(".md") == ".md" by {
      var l := Lower(".md");
      assert l[0] == '.' && l[1] == 'm' && l[2] == 'd';
    }
  }

  lemma MarkdownPathPieces(dir: string, name: string, e: string, p: string)
    requires dir == "docs/" && name == "README" && e == "md" && p == "docs/README.md"
    ensures dir + name + "." + e == p
  {
    assert dir + name == "docs/README";
  }

  /** Markdown has a language but is not code. */
  lemma MarkdownIsNotCode()
    ensures DetectLanguage("docs/README.md") == "markdown" && !IsCodeFile("docs/README.md")
  {
    MarkdownExtension();
  }

  /** A file named `.py` has no extension, hence no language and is not code. */
  lemma DotFileIsText()
    ensures DetectLanguage("lib/.py") == "text" && !IsCodeFile("lib/.py")
  {
    DotFileHasNoExtension("lib/", "py");
    assert "lib/" + "." + "py" == "lib/.py";
    assert Lower("") == "";
  }

  // ---------------------------------------------------------------------
  // _generate_summary_report (ai_code_reviewer.py:231-270)
  // ---------------------------------------------------------------------

  /** One review of a file: failed (it carries `error`) or done, with its `ai_response` if present. */
  datatype Review = ReviewFailed | Reviewed(aiResponse: Option<string>)

  /** One file's result: failed (it carries `error`) or reviewed, with `language` and `reviews` if present. */
  datatype FileResult =
    | FileFailed
    | FileReviewed(language: Option<string>, reviews: Option<Dict<string, Review>>)

  datatype ReviewSummary = ReviewSummary(
    prefix: string,
    totalCommits: nat,
    filesReviewed: nat,
    totalIssuesFound: nat,
    highPriorityIssues: nat,
    languagesAnalyzed: Dict<string, nat>,
    reviewTimestamp: string)

  const IssueKeywords: seq<string> := ["错误", "bug", "问题", "风险", "漏洞"]
  const HighPriorityKeywords: seq<string> := ["严重", "高风险", "紧急", "重要"]

  /** `any(keyword in text for keyword in keywords)`. */
  predicate AnyIn(keywords: seq<string>, text: string) {
    exists k :: k in keywords && Contains(text, k)
  }

  ghost predicate FileWellFormed(f: FileResult) {
    f.FileReviewed? && f.reviews.Some? ==> f.reviews.value.Valid()
  }

  /** Python dictionaries: every table valid, including each file's reviews. */
  ghost predicate WellFormed(results: Dict<string, FileResult>) {
    results.Valid() && forall p :: p in results.table ==> FileWellFormed(results.table[p])
  }

  ghost predicate AllWellFormed(fs: seq<FileResult>) {
    forall i :: 0 <= i < |fs| ==> FileWellFormed(fs[i])
  }

  /** The reviews a file contributes: none for a failed file, none when `reviews` is absent. */
  function ReviewsOf(f: FileResult): seq<Review>
    requires FileWellFormed(f)
  {
    if f.FileFailed? || f.reviews.None? then [] else f.reviews.value.Values()
  }

  function LanguageOf(f: FileResult): string
    requires f.FileReviewed?
  {
    f.language.GetOr("unknown")
  }

  /** 1 when a done review's lower-cased response holds one of the keywords. */
  function Flag(keywords: seq<string>, d: Review): nat {
    if d.Reviewed? && AnyIn(keywords, Lower(d.aiResponse.GetOr(""))) then 1 else 0
  }

  function ReviewHits(keywords: seq<string>, ds: seq<Review>): nat
    decreases |ds|
  {
    if ds == [] then 0 else ReviewHits(keywords, ds[..|ds| - 1]) + Flag(keywords, ds[|ds| - 1])
  }

  function FileHits(keywords: seq<string>, fs: seq<FileResult>): nat
    requires AllWellFormed(fs)
    decreases |fs|
  {
    if fs == [] then 0
    else FileHits(keywords, fs[..|fs| - 1]) + ReviewHits(keywords, ReviewsOf(fs[|fs| - 1]))
  }

  function CountOf(stats: Dict<string, nat>, language: string): nat {
    if language in stats.table then stats.table[language] else 0
  }

  /** `language_stats` after one more file. */
  function Counted(stats: Dict<string, nat>, f: FileResult): (stats': Dict<string, nat>)
    requires stats.Valid()
    ensures stats'.Valid()
  {
    if f.FileFailed? then stats else stats.Put(LanguageOf(f), CountOf(stats, LanguageOf(f)) + 1)
  }

  /** `language_stats` after the files `fs`. */
  function LanguageStats(fs: seq<FileResult>): (stats: Dict<string, nat>)
    ensures stats.Valid()
    decreases |fs|
  {
    if fs == [] then Empty() else Counted(LanguageStats(fs[..|fs| - 1]), fs[|fs| - 1])
  }

  function SummaryReportOf(prefix: string, commits: seq<Commit>, results: Dict<string, FileResult>,
                           successfulReviews: nat, now: string): ReviewSummary
    requires WellFormed(results)
  {
    var fs := results.Values();
    assert AllWellFormed(fs) by {
      forall i | 0 <= i < |fs| ensures FileWellFormed(fs[i]) {
        assert results.keys[i] in results.table;
      }
    }
    ReviewSummary(prefix, |commits|, successfulReviews, FileHits(IssueKeywords, fs),
                  FileHits(HighPriorityKeywords, fs), LanguageStats(fs), now)
  }

  /** The inner loop over one file's `reviews`. */
  method TallyReviews(reviews: Dict<string, Review>) returns (issues: nat, highPriority: nat)
    requires reviews.Valid()
    ensures issues == ReviewHits(IssueKeywords, reviews.Values())
    ensures highPriority == ReviewHits(HighPriorityKeywords, reviews.Values())
  {
    issues, highPriority := 0, 0;
    var ds := reviews.Values();
    for j := 0 to |reviews.keys|
      invariant issues == ReviewHits(IssueKeywords, ds[..j])
      invariant highPriority == ReviewHits(HighPriorityKeywords, ds[..j])
    {
      assert ds[..j + 1][..j] == ds[..j];
      var data := reviews.table[reviews.keys[j]];
      if data.ReviewFailed? {
        continue;
      }
      var response := Lower(data.aiResponse.GetOr(""));
      if AnyIn(IssueKeywords, response) {
        issues := issues + 1;
      }
      if AnyIn(HighPriorityKeywords, response) {
        highPriority := highPriority + 1;
      }
    }
    assert ds[..|reviews.keys|] == ds;
  }

  /** One pass of the loop over `review_results`: a failed file is passed over. */
  method CountFile(fileResult: FileResult, stats: Dict<string, nat>) returns (stats': Dict<string, nat>, issues: nat, high: nat)
    requires stats.Valid() && FileWellFormed(fileResult)
    ensures stats' == Counted(stats, fileResult)
    ensures issues == ReviewHits(IssueKeywords, ReviewsOf(fileResult))
    ensures high == ReviewHits(HighPriorityKeywords, ReviewsOf(fileResult))
  {
    stats', issues, high := stats, 0, 0;
    if fileResult.FileFailed? {
      return;
    }
    var language := fileResult.language.GetOr("unknown");
    stats' := stats.Put(language, CountOf(stats, language) + 1);
    if fileResult.reviews.Some? {
      issues, high := TallyReviews(fileResult.reviews.value);
    }
  }

  /** `SmartCodeReviewer._generate_summary_report`; the timestamp is the parameter `now`. */
  method GenerateSummaryReport(prefix: string, commits: seq<Commit>, reviewResults: Dict<string, FileResult>,
                               successfulReviews: nat, now: string) returns (report: ReviewSummary)
    requires WellFormed(reviewResults)
    ensures report == SummaryReportOf(prefix, commits, reviewResults, successfulReviews, now)
  {
    var totalIssues, highPriorityIssues := 0, 0;
    var languageStats: Dict<string, nat> := Empty();
    ghost var fs := reviewResults.Values();
    assert AllWellFormed(fs) by {
      forall i | 0 <= i < |fs| ensures FileWellFormed(fs[i]) {
        assert reviewResults.keys[i] in reviewResults.table;
      }
    }
    for i := 0 to |reviewResults.keys|
      invariant totalIssues == FileHits(IssueKeywords, fs[..i])
      invariant highPriorityIssues == FileHits(HighPriorityKeywords, fs[..i])
      invariant languageStats == LanguageStats(fs[..i])
    {
      assert fs[..i + 1][..i] == fs[..i];
      var issues, high;
      languageStats, issues, high := CountFile(reviewResults.table[reviewResults.keys[i]], languageStats);
      totalIssues := totalIssues + issues;
      highPriorityIssues := highPriorityIssues + high;
    }
    assert fs[..|reviewResults.keys|] == fs;
    report := ReviewSummary(prefix, |commits|, successfulReviews, totalIssues, highPriorityIssues, languageStats, now);
  }

  // ---------------------------------------------------------------------
  // What the summary counts
  // ---------------------------------------------------------------------

  /** The number of files that did not fail. */
  function ReviewedFiles(fs: seq<FileResult>): nat
    decreases |fs|
  {
    if fs == [] then 0 else ReviewedFiles(fs[..|fs| - 1]) + (if fs[|fs| - 1].FileReviewed? then 1 else 0)
  }

  /** The number of reviewed files whose language is `language`. */
  function CountLanguage(fs: seq<FileResult>, language: string): nat
    decreases |fs|
  {
    if fs == [] then 0
    else
      var f := fs[|fs| - 1];
      CountLanguage(fs[..|fs| - 1], language) + (if f.FileReviewed? && LanguageOf(f) == language then 1 else 0)
  }

  /** The number of reviews that did not fail. */
  function DoneReviews(ds: seq<Review>): nat
    decreases |ds|
  {
    if ds == [] then 0 else DoneReviews(ds[..|ds| - 1]) + (if ds[|ds| - 1].Reviewed? then 1 else 0)
  }

  /** The number of reviews that did not fail, over the files that did not fail. */
  function ReviewedEntries(fs: seq<FileResult>): nat
    requires AllWellFormed(fs)
    decreases |fs|
  {
    if fs == [] then 0 else ReviewedEntries(fs[..|fs| - 1]) + DoneReviews(ReviewsOf(fs[|fs| - 1]))
  }

  /** Sum of the values of `table` over `keys`. */
  function SumOver(keys: seq<string>, table: map<string, nat>): nat
    requires forall k :: k in keys ==> k in table
    decreases |keys|
  {
    if keys == [] then 0
    else
      assert forall k :: k in keys[..|keys| - 1] ==> k in keys;
      SumOver(keys[..|keys| - 1], table) + table[keys[|keys| - 1]]
  }

  /** The sum of the values of a dictionary. */
  function Total(d: Dict<string, nat>): nat
    requires d.Valid()
  {
    SumOver(d.keys, d.table)
  }

  lemma {:induction false} SumOverUpdate(keys: seq<string>, table: map<string, nat>, k: string, v: nat)
    requires forall x :: x in keys ==> x in table
    requires Distinct(keys)
    ensures k in keys ==> SumOver(keys, table[k := v]) + table[k] == SumOver(keys, table) + v
    ensures k !in keys ==> SumOver(keys, table[k := v]) == SumOver(keys, table)
    decreases |keys|
  {
    if keys != [] {
      var init := keys[..|keys| - 1];
      var last := keys[|keys| - 1];
      assert keys == init + [last];
      assert forall x :: x in init ==> x in keys;
      assert Distinct(init);
      assert last !in init;
      SumOverUpdate(init, table, k, v);
    }
  }

  /** Each `Put` of a count one higher raises the total by one. */
  lemma TotalOfIncrement(d: Dict<string, nat>, language: string)
    requires d.Valid()
    ensures Total(d.Put(language, CountOf(d, language) + 1)) == Total(d) + 1
  {
    var d' := d.Put(language, CountOf(d, language) + 1);
    SumOverUpdate(d.keys, d.table, language, CountOf(d, language) + 1);
    if language !in d.table {
      assert d'.keys[..|d'.keys| - 1] == d.keys;
    }
  }

  /** The language counts add up to the number of files that did not fail. */
  lemma {:induction false} LanguageStatsTotal(fs: seq<FileResult>)
    ensures Total(LanguageStats(fs)) == ReviewedFiles(fs)
    decreases |fs|
  {
    if fs != [] {
      LanguageStatsTotal(fs[..|fs| - 1]);
      var f := fs[|fs| - 1];
      if f.FileReviewed? {
        TotalOfIncrement(LanguageStats(fs[..|fs| - 1]), LanguageOf(f));
      }
    }
  }

  /** Each language is listed exactly when some file that did not fail has it, with the number of such files. */
  lemma {:induction false} LanguageStatsCounts(fs: seq<FileResult>, language: string)
    ensures language in LanguageStats(fs).table <==> CountLanguage(fs, language) > 0
    ensures language in LanguageStats(fs).table ==> LanguageStats(fs).table[language] == CountLanguage(fs, language)
    decreases |fs|
  {
    if fs != [] {
      LanguageStatsCounts(fs[..|fs| - 1], language);
    }
  }

  lemma {:induction false} ReviewHitsBounded(keywords: seq<string>, ds: seq<Review>)
    ensures ReviewHits(keywords, ds) <= DoneReviews(ds)
    decreases |ds|
  {
    if ds != [] {
      ReviewHitsBounded(keywords, ds[..|ds| - 1]);
    }
  }

  /** Each done review adds at most one to a keyword count, so the count is at most the number of done reviews. */
  lemma {:induction false} FileHitsBounded(keywords: seq<string>, fs: seq<FileResult>)
    requires AllWellFormed(fs)
    ensures FileHits(keywords, fs) <= ReviewedEntries(fs)
    decreases |fs|
  {
    if fs != [] {
      FileHitsBounded(keywords, fs[..|fs| - 1]);
      ReviewHitsBounded(keywords, ReviewsOf(fs[|fs| - 1]));
    }
  }

  /** A review whose response holds no keyword, or that failed, adds nothing. */
  lemma ReviewHitsOfQuiet(keywords: seq<string>, ds: seq<Review>)
    requires forall i :: 0 <= i < |ds| ==> Flag(keywords, ds[i]) == 0
    ensures ReviewHits(keywords, ds) == 0
    decreases |ds|
  {
    if ds != [] {
      ReviewHitsOfQuiet(keywords, ds[..|ds| - 1]);
    }
  }

  /**
    The summary: the commit count is the length of the list, the reviewed
    count is passed through, the languages add up to the files that did not
    fail, and both issue counts are bounded by the done reviews.
   */
  lemma SummaryReportFacts(prefix: string, commits: seq<Commit>, results: Dict<string, FileResult>,
                           successfulReviews: nat, now: string)
    requires WellFormed(results)
    ensures var r := SummaryReportOf(prefix, commits, results, successfulReviews, now);
      var fs := results.Values();
      && AllWellFormed(fs)
      && r.prefix == prefix
      && r.totalCommits == |commits|
      && r.filesReviewed == successfulReviews
      && r.reviewTimestamp == now
      && Total(r.languagesAnalyzed) == ReviewedFiles(fs)
      && r.totalIssuesFound <= ReviewedEntries(fs)
      && r.highPriorityIssues <= ReviewedEntries(fs)
  {
    var fs := results.Values();
    assert AllWellFormed(fs) by {
      forall i | 0 <= i < |fs| ensures FileWellFormed(fs[i]) {
        assert results.keys[i] in results.table;
      }
    }
    LanguageStatsTotal(fs);
    FileHitsBounded(IssueKeywords, fs);
    FileHitsBounded(HighPriorityKeywords, fs);
  }
}
