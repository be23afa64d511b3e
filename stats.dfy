/**
  `_parse_stats` (git_commit_analyzer.py): the insertion and deletion counts
  read from the summary of `git show --stat`.

  The regular expressions are written out as the searches they perform:
  `re.search(r'(\d+)\s+insertion.*?(\d+)\s+deletion', s)` first and, when it
  finds nothing, `re.search(r'(\d+)\s+insertion', s)` and
  `re.search(r'(\d+)\s+deletion', s)` separately. A search tries every
  start position from the left, so each search below is written on the
  suffix that starts at the position being tried.
 */
module Stats {
  import opened Wrappers
  import opened PyText

  /** The length of the run of digits that starts `s`. */
  function DigitRun(s: string): (n: nat)
    ensures n <= |s|
    ensures AllDigits(s[..n])
    ensures n == |s| || !IsDigit(s[n])
  {
    if s != [] && IsDigit(s[0]) then
      var n := 1 + DigitRun(s[1..]);
      assert forall k :: 1 <= k < n ==> s[..n][k] == s[1..][..n - 1][k - 1];
      n
    else
      0
  }

  /** The length of the run of whitespace that starts `s`. */
  function SpaceRun(s: string): (n: nat)
    ensures n <= |s|
  {
    if s != [] && IsSpace(s[0]) then 1 + SpaceRun(s[1..]) else 0
  }

  /** A match of `(\d+)\s+word`: the value of group 1 and the text after the match. */
  datatype Hit = Hit(count: nat, rest: string)

  /**
    `(\d+)\s+word` matched at the start of `s`. Both runs are greedy, and
    for a `word` that starts with a non-space giving characters back cannot
    help (the character given back is a digit where whitespace is needed, or
    whitespace where `word` starts), so each run is maximal.
   */
  function CountAt(s: string, word: string): (h: Option<Hit>)
    ensures h.Some? ==> s != [] && IsDigit(s[0])
    ensures h.Some? ==> |h.value.rest| < |s| && h.value.rest == s[|s| - |h.value.rest|..]
  {
    var d := DigitRun(s);
    var t := s[d..];
    var sp := SpaceRun(t);
    var u := t[sp..];
    if d > 0 && sp > 0 && StartsWith(u, word) then
      assert u == s[d + sp..];
      assert u[|word|..] == s[d + sp + |word|..];
      Some(Hit(DecimalValue(s[..d]), u[|word|..]))
    else
      None
  }

  /** `re.search(r'(\d+)\s+word', s)`: group 1 of the leftmost match. */
  function FirstCount(s: string, word: string): Option<nat>
    decreases |s|
  {
    match CountAt(s, word)
    case Some(h) => Some(h.count)
    case None => if s == [] then None else FirstCount(s[1..], word)
  }

  /**
    `.*?(\d+)\s+word` at the start of `s`: the lazy `.*?` grows one character
    at a time and cannot cross a line break, so this is the count of the
    first match of `(\d+)\s+word` on the rest of the current line.
   */
  function LazyCount(s: string, word: string): Option<nat>
    decreases |s|
  {
    match CountAt(s, word)
    case Some(h) => Some(h.count)
    case None => if s != [] && s[0] != '\n' then LazyCount(s[1..], word) else None
  }

  /** `(\d+)\s+insertion.*?(\d+)\s+deletion` matched at the start of `s`. */
  function BothAt(s: string): Option<(nat, nat)> {
    match CountAt(s, "insertion")
    case None => None
    case Some(h) =>
      match LazyCount(h.rest, "deletion")
      case None => None
      case Some(d) => Some((h.count, d))
  }

  /** `re.search(r'(\d+)\s+insertion.*?(\d+)\s+deletion', s)`. */
  function FirstBoth(s: string): Option<(nat, nat)>
    decreases |s|
  {
    match BothAt(s)
    case Some(p) => Some(p)
    case None => if s == [] then None else FirstBoth(s[1..])
  }

  /** `_parse_stats`: the additions and deletions of a `git show --stat` output. */
  function ParseStats(s: string): (nat, nat) {
    match FirstBoth(s)
    case Some(p) => p
    case None => (FirstCount(s, "insertion").GetOr(0), FirstCount(s, "deletion").GetOr(0))
  }

  // ---------------------------------------------------------------------
  // Occurrence of the key words
  // ---------------------------------------------------------------------

  lemma {:induction false} ContainsSuffix(s: string, j: nat, w: string)
    requires j <= |s| && Contains(s[j..], w)
    ensures Contains(s, w)
    decreases j
  {
    if j > 0 {
      assert s[1..][j - 1..] == s[j..];
      ContainsSuffix(s[1..], j - 1, w);
    }
  }

  lemma CountAtContains(s: string, w: string)
    requires CountAt(s, w).Some?
    ensures Contains(s, w)
  {
    var d := DigitRun(s);
    var sp := SpaceRun(s[d..]);
    assert s[d..][sp..] == s[d + sp..];
    ContainsSuffix(s, d + sp, w);
  }

  lemma {:induction false} LazyCountContains(s: string, w: string)
    requires LazyCount(s, w).Some?
    ensures Contains(s, w)
    decreases |s|
  {
    if CountAt(s, w).Some? {
      CountAtContains(s, w);
    } else {
      LazyCountContains(s[1..], w);
    }
  }

  lemma {:induction false} FirstCountContains(s: string, w: string)
    requires FirstCount(s, w).Some?
    ensures Contains(s, w)
    decreases |s|
  {
    if CountAt(s, w).Some? {
      CountAtContains(s, w);
    } else {
      FirstCountContains(s[1..], w);
    }
  }

  lemma {:induction false} FirstBothContains(s: string)
    requires FirstBoth(s).Some?
    ensures Contains(s, "insertion") && Contains(s, "deletion")
    decreases |s|
  {
    if BothAt(s).Some? {
      var h := CountAt(s, "insertion").value;
      CountAtContains(s, "insertion");
      LazyCountContains(h.rest, "deletion");
      ContainsSuffix(s, |s| - |h.rest|, "deletion");
    } else {
      FirstBothContains(s[1..]);
    }
  }

  // ---------------------------------------------------------------------
  // What the parser guarantees
  // ---------------------------------------------------------------------

  /** Without any `insertion` or `deletion` text the counts are zero. */
  lemma ParseStatsAbsent(s: string)
    requires !Contains(s, "insertion") && !Contains(s, "deletion")
    ensures ParseStats(s) == (0, 0)
  {
    if FirstBoth(s).Some? {
      FirstBothContains(s);
    }
    if FirstCount(s, "insertion").Some? {
      FirstCountContains(s, "insertion");
    }
    if FirstCount(s, "deletion").Some? {
      FirstCountContains(s, "deletion");
    }
  }

  /** Without `deletion` text only the leftmost insertion count is read; deletions are zero. */
  lemma ParseStatsInsertionsOnly(s: string)
    requires !Contains(s, "deletion")
    ensures ParseStats(s) == (FirstCount(s, "insertion").GetOr(0), 0)
  {
    if FirstBoth(s).Some? {
      FirstBothContains(s);
    }
    if FirstCount(s, "deletion").Some? {
      FirstCountContains(s, "deletion");
    }
  }

  /** Without `insertion` text only the leftmost deletion count is read; insertions are zero. */
  lemma ParseStatsDeletionsOnly(s: string)
    requires !Contains(s, "insertion")
    ensures ParseStats(s) == (0, FirstCount(s, "deletion").GetOr(0))
  {
    if FirstBoth(s).Some? {
      FirstBothContains(s);
    }
    if FirstCount(s, "insertion").Some? {
      FirstCountContains(s, "insertion");
    }
  }

  // ---------------------------------------------------------------------
  // Reading the searches on concrete text
  // ---------------------------------------------------------------------

  predicate NoDigit(t: string) {
    forall k :: 0 <= k < |t| ==> !IsDigit(t[k])
  }

  /** No count of `w` starts inside `x` when `y` follows it. */
  predicate NoCountBefore(x: string, y: string, w: string)
    decreases |x|
  {
    x == [] || (CountAt(x + y, w).None? && NoCountBefore(x[1..], y, w))
  }

  /** The combined pattern matches nowhere inside `x` when `y` follows it. */
  predicate NoBothBefore(x: string, y: string)
    decreases |x|
  {
    x == [] || (BothAt(x + y).None? && NoBothBefore(x[1..], y))
  }

  /** The lazy search walks through `x` (no count, no line break) when `y` follows it. */
  predicate LazyPasses(x: string, y: string, w: string)
    decreases |x|
  {
    x == [] || (CountAt(x + y, w).None? && x[0] != '\n' && LazyPasses(x[1..], y, w))
  }

  lemma {:induction false} DigitRunOfDigits(t: string, x: string)
    requires AllDigits(t) && (x == [] || !IsDigit(x[0]))
    ensures DigitRun(t + x) == |t|
    decreases |t|
  {
    if t == [] {
      assert t + x == x;
    } else {
      assert (t + x)[1..] == t[1..] + x;
      DigitRunOfDigits(t[1..], x);
    }
  }

  lemma SpaceRunOne(y: string)
    requires y != [] && !IsSpace(y[0])
    ensures SpaceRun(" " + y) == 1
  {
    assert (" " + y)[1..] == y;
  }

  /** Digits, one space and `w`: a count with the value of the digits, followed by `r`. */
  lemma CountAtDigits(t: string, w: string, r: string)
    requires w != [] && !IsSpace(w[0])
    requires IsDigits(t)
    ensures CountAt(t + (" " + (w + r)), w) == Some(Hit(DecimalValue(t), r))
  {
    var s := t + (" " + (w + r));
    DigitRunOfDigits(t, " " + (w + r));
    assert s[..|t|] == t;
    assert s[|t|..] == " " + (w + r);
    SpaceRunOne(w + r);
    assert (" " + (w + r))[1..] == w + r;
    assert (w + r)[..|w|] == w;
    assert (w + r)[|w|..] == r;
  }

  /** Digits, one space and a character other than `w`'s first: no count of `w` starts there. */
  lemma NoCountAtDigits(t: string, r: string, w: string)
    requires w != [] && AllDigits(t)
    requires r != [] && !IsSpace(r[0]) && r[0] != w[0]
    ensures CountAt(t + (" " + r), w).None?
  {
    var s := t + (" " + r);
    DigitRunOfDigits(t, " " + r);
    assert s[|t|..] == " " + r;
    SpaceRunOne(r);
    assert (" " + r)[1..] == r;
  }

  lemma {:induction false} NoCountInDigits(t: string, r: string, w: string)
    requires w != [] && AllDigits(t)
    requires r != [] && !IsSpace(r[0]) && r[0] != w[0]
    ensures NoCountBefore(t, " " + r, w)
    decreases |t|
  {
    if t != [] {
      NoCountAtDigits(t, r, w);
      NoCountInDigits(t[1..], r, w);
    }
  }

  lemma {:induction false} NoCountInText(x: string, y: string, w: string)
    requires NoDigit(x)
    ensures NoCountBefore(x, y, w)
    decreases |x|
  {
    if x != [] {
      assert !IsDigit((x + y)[0]);
      NoCountInText(x[1..], y, w);
    }
  }

  lemma {:induction false} NoCountConcat(x1: string, x2: string, y: string, w: string)
    requires NoCountBefore(x1, x2 + y, w) && NoCountBefore(x2, y, w)
    ensures NoCountBefore(x1 + x2, y, w)
    decreases |x1|
  {
    if x1 == [] {
      assert x1 + x2 == x2;
    } else {
      assert (x1 + x2) + y == x1 + (x2 + y);
      assert (x1 + x2)[1..] == x1[1..] + x2;
      NoCountConcat(x1[1..], x2, y, w);
    }
  }

  lemma {:induction false} NoBothFromNoCount(x: string, y: string)
    requires NoCountBefore(x, y, "insertion")
    ensures NoBothBefore(x, y)
    decreases |x|
  {
    if x != [] {
      NoBothFromNoCount(x[1..], y);
    }
  }

  lemma {:induction false} LazyPassesText(x: string, y: string, w: string)
    requires NoDigit(x) && '\n' !in x
    ensures LazyPasses(x, y, w)
    decreases |x|
  {
    if x != [] {
      assert !IsDigit((x + y)[0]);
      assert x[0] in x;
      LazyPassesText(x[1..], y, w);
    }
  }

  lemma {:induction false} FirstCountSkip(x: string, y: string, w: string)
    requires NoCountBefore(x, y, w)
    ensures FirstCount(x + y, w) == FirstCount(y, w)
    decreases |x|
  {
    if x == [] {
      assert x + y == y;
    } else {
      assert (x + y)[1..] == x[1..] + y;
      FirstCountSkip(x[1..], y, w);
    }
  }

  lemma {:induction false} FirstBothSkip(x: string, y: string)
    requires NoBothBefore(x, y)
    ensures FirstBoth(x + y) == FirstBoth(y)
    decreases |x|
  {
    if x == [] {
      assert x + y == y;
    } else {
      assert (x + y)[1..] == x[1..] + y;
      FirstBothSkip(x[1..], y);
    }
  }

  lemma {:induction false} LazyCountSkip(x: string, y: string, w: string)
    requires LazyPasses(x, y, w)
    ensures LazyCount(x + y, w) == LazyCount(y, w)
    decreases |x|
  {
    if x == [] {
      assert x + y == y;
    } else {
      assert (x + y)[1..] == x[1..] + y;
      LazyCountSkip(x[1..], y, w);
    }
  }

  lemma {:induction false} NoDigitSuffix(x: string)
    requires NoDigit(x) && x != []
    ensures NoDigit(x[1..])
  {
    assert forall k :: 0 <= k < |x| - 1 ==> x[1..][k] == x[k + 1];
  }

  lemma {:induction false} FirstCountNoDigit(x: string, w: string)
    requires NoDigit(x)
    ensures FirstCount(x, w).None?
    decreases |x|
  {
    if x != [] {
      NoDigitSuffix(x);
      FirstCountNoDigit(x[1..], w);
    }
  }

  lemma {:induction false} LazyCountNoDigit(x: string, w: string)
    requires NoDigit(x)
    ensures LazyCount(x, w).None?
    decreases |x|
  {
    if x != [] {
      NoDigitSuffix(x);
      LazyCountNoDigit(x[1..], w);
    }
  }

  lemma {:induction false} FirstBothNoDigit(x: string)
    requires NoDigit(x)
    ensures FirstBoth(x).None?
    decreases |x|
  {
    if x != [] {
      NoDigitSuffix(x);
      FirstBothNoDigit(x[1..]);
    }
  }

  lemma NoDigitConcat(x: string, y: string)
    requires NoDigit(x) && NoDigit(y)
    ensures NoDigit(x + y)
  {
    assert forall k :: |x| <= k < |x + y| ==> (x + y)[k] == y[k - |x|];
  }

  // ---------------------------------------------------------------------
  // The summary line git prints
  // ---------------------------------------------------------------------

  /** The text after the file count in `N files changed, `: a space, then `file…`, and no digit. */
  predicate FilesWord(fw: string) {
    |fw| >= 2 && fw[0] == ' ' && fw[1] == 'f' && NoDigit(fw)
  }

  /** The opening `N file(s) changed, ` holds no count of a word that does not start with `f`. */
  lemma HeadHasNoCount(f: string, fw: string, rest: string, w: string)
    requires w != [] && w[0] != 'f'
    requires IsDigits(f) && FilesWord(fw)
    ensures NoCountBefore(f + fw, rest, w)
  {
    assert fw == " " + fw[1..];
    assert fw + rest == " " + (fw[1..] + rest);
    NoCountInDigits(f, fw[1..] + rest, w);
    NoCountInText(fw, rest, w);
    NoCountConcat(f, fw, rest, w);
  }

  /** All three searches skip the opening `N file(s) changed, `. */
  lemma HeadSkipped(f: string, fw: string, rest: string)
    requires IsDigits(f) && FilesWord(fw)
    ensures FirstBoth(f + fw + rest) == FirstBoth(rest)
    ensures FirstCount(f + fw + rest, "insertion") == FirstCount(rest, "insertion")
    ensures FirstCount(f + fw + rest, "deletion") == FirstCount(rest, "deletion")
  {
    HeadHasNoCount(f, fw, rest, "insertion");
    HeadHasNoCount(f, fw, rest, "deletion");
    NoBothFromNoCount(f + fw, rest);
    FirstBothSkip(f + fw, rest);
    FirstCountSkip(f + fw, rest, "insertion");
    FirstCountSkip(f + fw, rest, "deletion");
  }

  lemma NoDigitWord(w: string, tail: string)
    requires w == " insertion" || w == " deletion"
    requires NoDigit(tail)
    ensures NoDigit(w + tail)
  {
    assert NoDigit(w);
    NoDigitConcat(w, tail);
  }

  /** `A insertion(s)…B deletion(s)…` on one line: the combined pattern reads both counts. */
  lemma BothCounts(a: string, insTail: string, b: string, delTail: string)
    requires IsDigits(a) && IsDigits(b) && NoDigit(insTail) && '\n' !in insTail
    ensures FirstBoth(a + (" " + ("insertion" + (insTail + (b + (" " + ("deletion" + delTail)))))))
         == Some((DecimalValue(a), DecimalValue(b)))
  {
    var del := b + (" " + ("deletion" + delTail));
    var r := insTail + del;
    var x := a + (" " + ("insertion" + r));
    assert LazyCount(r, "deletion") == Some(DecimalValue(b)) by {
      LazyPassesText(insTail, del, "deletion");
      LazyCountSkip(insTail, del, "deletion");
      CountAtDigits(b, "deletion", delTail);
    }
    assert BothAt(x) == Some((DecimalValue(a), DecimalValue(b))) by {
      CountAtDigits(a, "insertion", r);
    }
  }

  lemma SummaryShape(f: string, fw: string, a: string, insTail: string, b: string, delTail: string)
    ensures f + fw + a + " insertion" + insTail + b + " deletion" + delTail
         == f + fw + (a + (" " + ("insertion" + (insTail + (b + (" " + ("deletion" + delTail)))))))
  {
    assert " insertion" == " " + "insertion";
    assert " deletion" == " " + "deletion";
  }

  /**
    The summary line of `git show --stat` with both counts,
    `N file(s) changed, A insertion(s)(+), B deletion(s)(-)`, gives `(A, B)`.
   */
  lemma ParseStatsSummaryLine(f: string, fw: string, a: string, insTail: string, b: string, delTail: string)
    requires IsDigits(f) && FilesWord(fw) && IsDigits(a) && IsDigits(b)
    requires NoDigit(insTail) && '\n' !in insTail
    ensures ParseStats(f + fw + a + " insertion" + insTail + b + " deletion" + delTail) == (DecimalValue(a), DecimalValue(b))
  {
    var rest := a + (" " + ("insertion" + (insTail + (b + (" " + ("deletion" + delTail))))));
    SummaryShape(f, fw, a, insTail, b, delTail);
    HeadSkipped(f, fw, rest);
    BothCounts(a, insTail, b, delTail);
  }

  lemma ExamplePieces(f: string, fw: string, a: string, insTail: string, b: string)
    requires f == "2" && fw == " files changed, " && a == "10" && insTail == "s(+), " && b == "5"
    ensures IsDigits(f) && FilesWord(fw) && IsDigits(a) && IsDigits(b)
    ensures NoDigit(insTail) && '\n' !in insTail
    ensures DecimalValue(a) == 10 && DecimalValue(b) == 5
  {
    assert a[..1] == "1" && a[..1][..0] == [] && b[..0] == [];
    assert DecimalValue(a[..1]) == 1;
  }

  lemma ExampleText(s: string, f: string, fw: string, a: string, insTail: string, b: string, delTail: string)
    requires s == "2 files changed, 10 insertions(+), 5 deletions(-)"
    requires f == "2" && fw == " files changed, " && a == "10" && insTail == "s(+), " && b == "5" && delTail == "s(-)"
    ensures s == f + fw + a + " insertion" + insTail + b + " deletion" + delTail
  {
    var files, ins, del := "2 files changed, ", "10 insertions(+), ", "5 deletions(-)";
    assert f + fw == files;
    assert a + " insertion" + insTail == ins;
    assert b + " deletion" + delTail == del;
    ExampleLine(s);
    RegroupEight(f, fw, a, " insertion", insTail, b, " deletion", delTail);
  }

  lemma ExampleLine(s: string)
    requires s == "2 files changed, 10 insertions(+), 5 deletions(-)"
    ensures s == "2 files changed, " + "10 insertions(+), " + "5 deletions(-)"
  {
  }

  lemma RegroupEight(x1: string, x2: string, x3: string, x4: string, x5: string, x6: string, x7: string, x8: string)
    ensures x1 + x2 + x3 + x4 + x5 + x6 + x7 + x8 == (x1 + x2) + (x3 + x4 + x5) + (x6 + x7 + x8)
  {
  }

  lemma ExampleParsed(s: string)
    requires s == "2 files changed, 10 insertions(+), 5 deletions(-)"
    ensures ParseStats(s) == (10, 5)
  {
    var f, fw, a, insTail, b, delTail := "2", " files changed, ", "10", "s(+), ", "5", "s(-)";
    ExamplePieces(f, fw, a, insTail, b);
    ExampleText(s, f, fw, a, insTail, b, delTail);
    ParseStatsSummaryLine(f, fw, a, insTail, b, delTail);
  }

  /** `2 files changed, 10 insertions(+), 5 deletions(-)` gives `(10, 5)`. */
  lemma ParseStatsExample()
    ensures ParseStats("2 files changed, 10 insertions(+), 5 deletions(-)") == (10, 5)
  {
    ExampleParsed("2 files changed, 10 insertions(+), 5 deletions(-)");
  }

  /** After an insertion count with no digits behind it, no combined match starts inside the count. */
  lemma {:induction false} NoBothInInsertionCount(t: string, tail: string)
    requires AllDigits(t) && NoDigit(tail)
    ensures NoBothBefore(t, " " + ("insertion" + tail))
    decreases |t|
  {
    if t != [] {
      CountAtDigits(t, "insertion", tail);
      LazyCountNoDigit(tail, "deletion");
      NoBothInInsertionCount(t[1..], tail);
    }
  }

  /** `A insertion(s)…` with no digits after it: only the insertion count is found. */
  lemma InsertionCountOnly(a: string, tail: string)
    requires IsDigits(a) && NoDigit(tail)
    ensures FirstBoth(a + (" " + ("insertion" + tail))).None?
    ensures FirstCount(a + (" " + ("insertion" + tail)), "insertion") == Some(DecimalValue(a))
    ensures FirstCount(a + (" " + ("insertion" + tail)), "deletion").None?
  {
    var after := " " + ("insertion" + tail);
    NoDigitWord(" insertion", tail);
    assert after == " insertion" + tail;
    NoBothInInsertionCount(a, tail);
    FirstBothSkip(a, after);
    FirstBothNoDigit(after);
    CountAtDigits(a, "insertion", tail);
    NoCountInDigits(a, "insertion" + tail, "deletion");
    FirstCountSkip(a, after, "deletion");
    FirstCountNoDigit(after, "deletion");
  }

  /** `N file(s) changed, A insertion(s)(+)`, with no deletions reported, gives `(A, 0)`. */
  lemma ParseStatsInsertionsLine(f: string, fw: string, a: string, tail: string)
    requires IsDigits(f) && FilesWord(fw) && IsDigits(a) && NoDigit(tail)
    ensures ParseStats(f + fw + a + " insertion" + tail) == (DecimalValue(a), 0)
  {
    var rest := a + (" " + ("insertion" + tail));
    assert f + fw + a + " insertion" + tail == f + fw + rest;
    HeadSkipped(f, fw, rest);
    InsertionCountOnly(a, tail);
  }

  /** `B deletion(s)…` with no digits after it: only the deletion count is found. */
  lemma DeletionCountOnly(b: string, tail: string)
    requires IsDigits(b) && NoDigit(tail)
    ensures FirstBoth(b + (" " + ("deletion" + tail))).None?
    ensures FirstCount(b + (" " + ("deletion" + tail)), "insertion").None?
    ensures FirstCount(b + (" " + ("deletion" + tail)), "deletion") == Some(DecimalValue(b))
  {
    var after := " " + ("deletion" + tail);
    NoDigitWord(" deletion", tail);
    assert after == " deletion" + tail;
    NoCountInDigits(b, "deletion" + tail, "insertion");
    NoBothFromNoCount(b, after);
    FirstBothSkip(b, after);
    FirstBothNoDigit(after);
    FirstCountSkip(b, after, "insertion");
    FirstCountNoDigit(after, "insertion");
    CountAtDigits(b, "deletion", tail);
  }

  /** `N file(s) changed, B deletion(s)(-)`, with no insertions reported, gives `(0, B)`. */
  lemma ParseStatsDeletionsLine(f: string, fw: string, b: string, tail: string)
    requires IsDigits(f) && FilesWord(fw) && IsDigits(b) && NoDigit(tail)
    ensures ParseStats(f + fw + b + " deletion" + tail) == (0, DecimalValue(b))
  {
    var rest := b + (" " + ("deletion" + tail));
    assert f + fw + b + " deletion" + tail == f + fw + rest;
    HeadSkipped(f, fw, rest);
    DeletionCountOnly(b, tail);
  }
}
