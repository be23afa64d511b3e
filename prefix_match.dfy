/**
  The commit-message prefix matcher shared by `get_commits_by_prefix` and
  `get_commits_by_multiple_prefixes_fast` (git_commit_analyzer.py), and what
  it guarantees.
 */
module PrefixMatch {
  import opened Wrappers
  import opened PyText

  const PrefixTrim: set<char> := {':', ' '}

  /** `prefix.rstrip(': ').lower()`. */
  function NormalizePrefix(prefix: string): (np: string)
    ensures |np| <= |prefix|
    ensures np == [] || np[|np| - 1] !in PrefixTrim
  {
    var t := RStripChars(prefix, PrefixTrim);
    var np := Lower(t);
    assert np != [] ==> np[|np| - 1] == LowerChar(t[|t| - 1]);
    np
  }

  /** `message.lower().strip()`. */
  function NormalizeMessage(message: string): string {
    Strip(Lower(message))
  }

  /** The two-token key of a long normalised prefix: its first two whitespace-separated tokens joined by one space. */
  function FallbackKey(np: string): (k: Option<string>)
    ensures k.Some? <==> |np| > 10 && |Words(np)| >= 2
  {
    var w := Words(np);
    if |np| > 10 && |w| >= 2 then Some(Join(w[..2], " ")) else None
  }

  /** The matching rule used by both commit queries, on an already normalised prefix. */
  predicate MatchesNormalized(message: string, np: string) {
    var nm := NormalizeMessage(message);
    || StartsWith(nm, np)
    || (FallbackKey(np).Some? && StartsWith(nm, FallbackKey(np).value))
  }

  /** Does commit message `message` match the prefix `prefix`? */
  predicate Matches(message: string, prefix: string) {
    MatchesNormalized(message, NormalizePrefix(prefix))
  }

  // ---------------------------------------------------------------------
  // What the matcher guarantees
  // ---------------------------------------------------------------------

  /** The two-token key spelled out. */
  lemma FallbackKeyValue(np: string)
    requires FallbackKey(np).Some?
    ensures |Words(np)| >= 2
    ensures FallbackKey(np).value == Words(np)[0] + " " + Words(np)[1]
  {
    var w := Words(np);
    var two := w[..2];
    assert two[1..] == [w[1]];
    assert Join(two[1..], " ") == w[1];
  }

  /** The matching rule in one statement, over the normalised message and prefix. */
  lemma MatchesIff(message: string, prefix: string, nm: string, np: string)
    requires nm == NormalizeMessage(message) && np == NormalizePrefix(prefix)
    ensures Matches(message, prefix) <==>
        || StartsWith(nm, np)
        || (|np| > 10 && |Words(np)| >= 2 && StartsWith(nm, Words(np)[0] + " " + Words(np)[1]))
  {
    if FallbackKey(np).Some? {
      FallbackKeyValue(np);
    }
  }

  /** A trailing `:` or space on the prefix makes no difference. */
  lemma TrailingTrimIgnored(message: string, prefix: string, c: char)
    requires c in PrefixTrim
    ensures NormalizePrefix(prefix + [c]) == NormalizePrefix(prefix)
    ensures Matches(message, prefix + [c]) == Matches(message, prefix)
  {
    assert (prefix + [c])[..|prefix|] == prefix;
  }

  lemma {:induction false} LowerIdempotent(s: string)
    ensures Lower(Lower(s)) == Lower(s)
  {
  }

  lemma {:induction false} RStripCommutesWithLower(s: string)
    ensures RStripChars(Lower(s), PrefixTrim) == Lower(RStripChars(s, PrefixTrim))
    decreases |s|
  {
    if |s| > 0 {
      var c := s[|s| - 1];
      assert Lower(s)[..|s| - 1] == Lower(s[..|s| - 1]);
      assert LowerChar(c) in PrefixTrim <==> c in PrefixTrim;
      if c in PrefixTrim {
        RStripCommutesWithLower(s[..|s| - 1]);
      }
    }
  }

  /** Matching is case-insensitive in both the message and the prefix. */
  lemma CaseInsensitive(message: string, prefix: string)
    ensures Matches(Lower(message), prefix) == Matches(message, prefix)
    ensures Matches(message, Lower(prefix)) == Matches(message, prefix)
  {
    LowerIdempotent(message);
    RStripCommutesWithLower(prefix);
    LowerIdempotent(RStripChars(prefix, PrefixTrim));
  }

  /** A prefix that normalises to the empty string matches every message. */
  lemma EmptyPrefixMatchesAll(message: string, prefix: string)
    requires NormalizePrefix(prefix) == ""
    ensures Matches(message, prefix)
  {
  }

  /** A normalised prefix of at most ten characters must start the message exactly. */
  lemma ShortPrefixAnchored(message: string, prefix: string)
    requires |NormalizePrefix(prefix)| <= 10
    ensures Matches(message, prefix) <==> StartsWith(NormalizeMessage(message), NormalizePrefix(prefix))
  {
  }

  /** Without whitespace in the normalised prefix the fallback never applies, however long the prefix. */
  lemma UnspacedPrefixAnchored(message: string, prefix: string)
    requires NoSpace(NormalizePrefix(prefix))
    ensures Matches(message, prefix) <==> StartsWith(NormalizeMessage(message), NormalizePrefix(prefix))
  {
    var np := NormalizePrefix(prefix);
    if np != [] {
      WordsOfWord(np);
    }
  }

  lemma NormalizeFix(p: string)
    requires p == "fix:"
    ensures NormalizePrefix(p) == "fix"
  {
    assert RStripChars(p, PrefixTrim) == RStripChars("fix", PrefixTrim);
  }

  /** A lower-case message without surrounding whitespace is already normalised. */
  lemma NormalizedMessage(m: string)
    requires Lower(m) == m
    requires m != [] && !IsSpace(m[0]) && !IsSpace(m[|m| - 1])
    ensures NormalizeMessage(m) == m
  {
    assert RStripSpace(m) == m;
    assert LStripSpace(m) == m;
  }

  lemma LowerFixingTypo(m: string)
    requires m == "fixing typo"
    ensures Lower(m) == m && m[0] == 'f' && m[|m| - 1] == 'o'
  {
  }

  lemma LowerFixLater(m: string)
    requires m == "I will fix later"
    ensures Lower(m) == "i will fix later"
  {
  }

  /** `fix:` matches `fixing typo`. */
  lemma FixMatchesFixing()
    ensures Matches("fixing typo", "fix:")
  {
    NormalizeFix("fix:");
    LowerFixingTypo("fixing typo");
    NormalizedMessage("fixing typo");
    ShortPrefixAnchored("fixing typo", "fix:");
    assert "fixing typo"[..3] == "fix";
  }

  /** `fix:` does not match `I will fix later`. */
  lemma FixRejectsLater()
    ensures !Matches("I will fix later", "fix:")
  {
    var m, lm := "I will fix later", "i will fix later";
    LowerFixLater(m);
    LowerIdempotent(m);
    NormalizedMessage(lm);
    assert NormalizeMessage(m) == lm;
    NormalizeFix("fix:");
    ShortPrefixAnchored(m, "fix:");
    assert lm[..3][0] == 'i';
  }

  /** A full-width colon is not trimmed. */
  lemma FullWidthColonKept()
    ensures NormalizePrefix("需求：") == "需求："
  {
  }

  lemma LongChineseHasNoSpace(q: string)
    requires q == "需求描述：wps鸿蒙版（oh）弹窗管理开发"
    ensures NoSpace(q)
  {
  }

  lemma NormalizeLongChinese(p: string)
    requires p == "需求描述：WPS鸿蒙版（OH）弹窗管理开发"
    ensures NormalizePrefix(p) == "需求描述：wps鸿蒙版（oh）弹窗管理开发"
    ensures NoSpace(NormalizePrefix(p))
  {
    assert RStripChars(p, PrefixTrim) == p;
    LongChineseHasNoSpace("需求描述：wps鸿蒙版（oh）弹窗管理开发");
  }

  /**
    The long Chinese requirement prefix does not match a message that shares
    only its opening: a prefix without whitespace has a single token, so the
    two-token fallback never applies and the whole prefix must start the message.
   */
  lemma LongUnspacedPrefixRejectsSharedOpening()
    ensures !Matches("需求描述：WPS鸿蒙版 弹窗功能调整", "需求描述：WPS鸿蒙版（OH）弹窗管理开发")
  {
    var m := "需求描述：WPS鸿蒙版 弹窗功能调整";
    var p := "需求描述：WPS鸿蒙版（OH）弹窗管理开发";
    NormalizeLongChinese(p);
    UnspacedPrefixAnchored(m, p);
    assert |NormalizeMessage(m)| <= |m| < |NormalizePrefix(p)|;
  }

  lemma NormalizeTicket(p: string)
    requires p == "ab-12 cd ef:"
    ensures NormalizePrefix(p) == "ab-12 cd ef"
  {
    assert p[..|p| - 1] == "ab-12 cd ef";
    assert RStripChars(p, PrefixTrim) == RStripChars("ab-12 cd ef", PrefixTrim);
    assert RStripChars("ab-12 cd ef", PrefixTrim) == "ab-12 cd ef";
  }

  lemma TicketWordA(w: string)
    requires w == "ab-12"
    ensures IsWord(w)
  {
  }

  lemma TicketWordB(w: string)
    requires w == "cd"
    ensures IsWord(w)
  {
  }

  lemma WordsTicket(np: string)
    requires np == "ab-12 cd ef"
    ensures |Words(np)| >= 2 && Words(np)[0] == "ab-12" && Words(np)[1] == "cd"
  {
    var a, b, rest := "ab-12", "cd", " ef";
    TicketWordA(a);
    TicketWordB(b);
    assert np == a + (" " + (b + rest));
    WordsCons(a, " " + (b + rest));
    WordsSkipSpace(" ", b + rest);
    WordsCons(b, rest);
  }

  lemma NormalizeTicketMessage(m: string)
    requires m == "ab-12 cd fix"
    ensures NormalizeMessage(m) == m
  {
    assert Lower(m) == m;
    NormalizedMessage(m);
  }

  lemma TicketMatches(m: string, p: string, np: string)
    requires m == "ab-12 cd fix" && p == "ab-12 cd ef:" && np == NormalizePrefix(p)
    ensures Matches(m, p)
  {
    NormalizeTicket(p);
    WordsTicket(np);
    NormalizeTicketMessage(m);
    var key := Words(np)[0] + " " + Words(np)[1];
    assert key == "ab-12 cd";
    assert m[..8] == key;
    MatchesIff(m, p, NormalizeMessage(m), np);
  }

  /**
    A prefix longer than ten characters with at least two words also matches
    a message that starts with just its first two words.
   */
  lemma LongPrefixMatchesFirstTwoWords()
    ensures Matches("ab-12 cd fix", "ab-12 cd ef:")
  {
    TicketMatches("ab-12 cd fix", "ab-12 cd ef:", NormalizePrefix("ab-12 cd ef:"));
  }
}
