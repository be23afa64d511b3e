/**
  The handful of Python `str` operations the analyzer relies on, with the
  Python semantics written out: `isspace`, `strip`, `rstrip(chars)`, `lower`,
  `startswith`, `endswith`, `split(sep)`, `split(sep, maxsplit)`, `split()`,
  `join`, `replace`, `isdigit`, `int(...)`, `str(int)` and substring `in`.
  Case mapping and digits are restricted to ASCII (see README).
 */
module PyText {
  import opened Wrappers

  // ---------------------------------------------------------------------
  // Characters
  // ---------------------------------------------------------------------

  /** `c.isspace()`: the whitespace set that `strip()` and `split()` use. */
  predicate IsSpace(c: char) {
    || ('\t' <= c <= '\r')
    || ('\U{1C}' <= c <= '\U{1F}')
    || c == ' ' || c == '\U{85}' || c == '\U{A0}' || c == '\U{1680}'
    || ('\U{2000}' <= c <= '\U{200A}')
    || c == '\U{2028}' || c == '\U{2029}' || c == '\U{202F}' || c == '\U{205F}'
    || c == '\U{3000}'
  }

  /** ASCII decimal digit. */
  predicate IsDigit(c: char) {
    '0' <= c <= '9'
  }

  function DigitValue(c: char): (d: nat)
    requires IsDigit(c)
    ensures d < 10
  {
    c as int - '0' as int
  }

  function DigitChar(d: nat): (c: char)
    requires d < 10
    ensures IsDigit(c) && DigitValue(c) == d
  {
    ('0' as int + d) as char
  }

  /** ASCII case mapping of one character. */
  function LowerChar(c: char): (r: char)
    ensures 'A' <= c <= 'Z' ==> 'a' <= r <= 'z'
    ensures !('A' <= c <= 'Z') ==> r == c
  {
    if 'A' <= c <= 'Z' then (c as int + 32) as char else c
  }

  // ---------------------------------------------------------------------
  // Predicates on strings
  // ---------------------------------------------------------------------

  predicate NoSpace(s: string) {
    forall i :: 0 <= i < |s| ==> !IsSpace(s[i])
  }

  predicate AllSpace(s: string) {
    forall i :: 0 <= i < |s| ==> IsSpace(s[i])
  }

  predicate AllDigits(s: string) {
    forall i :: 0 <= i < |s| ==> IsDigit(s[i])
  }

  /** `s.isdigit()`: non-empty and made of digits only. */
  predicate IsDigits(s: string) {
    |s| > 0 && AllDigits(s)
  }

  /** `s.startswith(p)`. */
  predicate StartsWith(s: string, p: string) {
    |p| <= |s| && s[..|p|] == p
  }

  /** `s.endswith(p)`. */
  predicate EndsWith(s: string, p: string) {
    |p| <= |s| && s[|s| - |p|..] == p
  }

  /** `sub in s` for strings. */
  predicate Contains(s: string, sub: string)
    decreases |s|
  {
    StartsWith(s, sub) || (|s| > 0 && Contains(s[1..], sub))
  }

  // ---------------------------------------------------------------------
  // strip / rstrip / lower
  // ---------------------------------------------------------------------

  /** `s.lstrip()`. */
  function LStripSpace(s: string): (r: string)
    ensures |r| <= |s| && r == s[|s| - |r|..]
    ensures r == [] || !IsSpace(r[0])
    decreases |s|
  {
    if |s| > 0 && IsSpace(s[0]) then
      var r := LStripSpace(s[1..]);
      assert s[1..][|s| - 1 - |r|..] == s[|s| - |r|..];
      r
    else
      s
  }

  /** `lstrip()` removes whitespace only. */
  lemma {:induction false} LStripSpaceDropsSpace(s: string)
    ensures AllSpace(s[..|s| - |LStripSpace(s)|])
    decreases |s|
  {
    if |s| > 0 && IsSpace(s[0]) {
      var k := |s| - |LStripSpace(s)|;
      LStripSpaceDropsSpace(s[1..]);
      assert forall i :: 1 <= i < k ==> s[..k][i] == s[1..][..k - 1][i - 1];
    }
  }

  /** `s.rstrip()`. */
  function RStripSpace(s: string): (r: string)
    ensures |r| <= |s| && r == s[..|r|]
    ensures r == [] || !IsSpace(r[|r| - 1])
    decreases |s|
  {
    if |s| > 0 && IsSpace(s[|s| - 1]) then
      var t := s[..|s| - 1];
      var r := RStripSpace(t);
      assert t[..|r|] == s[..|r|];
      r
    else
      s
  }

  /** `rstrip()` removes whitespace only. */
  lemma {:induction false} RStripSpaceDropsSpace(s: string)
    ensures AllSpace(s[|RStripSpace(s)|..])
    decreases |s|
  {
    if |s| > 0 && IsSpace(s[|s| - 1]) {
      var t := s[..|s| - 1];
      var r := RStripSpace(t);
      RStripSpaceDropsSpace(t);
      assert s[|r|..] == t[|r|..] + [s[|s| - 1]];
    }
  }

  /** `s.rstrip(chars)`: drop the trailing run of characters from `chars`. */
  function RStripChars(s: string, chars: set<char>): (r: string)
    ensures |r| <= |s| && r == s[..|r|]
    ensures r == [] || r[|r| - 1] !in chars
    ensures forall i :: |r| <= i < |s| ==> s[i] in chars
    decreases |s|
  {
    if |s| > 0 && s[|s| - 1] in chars then RStripChars(s[..|s| - 1], chars) else s
  }

  /** `s.strip()`. */
  function Strip(s: string): (r: string)
    ensures |r| <= |s|
    ensures r == [] || (!IsSpace(r[0]) && !IsSpace(r[|r| - 1]))
  {
    LStripSpace(RStripSpace(s))
  }

  /** Non-empty, with no whitespace at either end: what a non-blank `strip()` returns. */
  predicate Stripped(t: string) {
    t != [] && !IsSpace(t[0]) && !IsSpace(t[|t| - 1])
  }

  /** A string with no whitespace at either end is its own `strip()`. */
  lemma StripOfStripped(t: string)
    requires t == [] || (!IsSpace(t[0]) && !IsSpace(t[|t| - 1]))
    ensures Strip(t) == t
  {
    assert RStripSpace(t) == t;
    assert LStripSpace(t) == t;
  }

  /** `s.lower()` (ASCII letters only). */
  function Lower(s: string): (r: string)
    ensures |r| == |s|
    ensures forall i :: 0 <= i < |s| ==> r[i] == LowerChar(s[i])
  {
    seq(|s|, i requires 0 <= i < |s| => LowerChar(s[i]))
  }

  // ---------------------------------------------------------------------
  // Searching, counting, splitting, joining
  // ---------------------------------------------------------------------

  /** Index of the first `c` in `s`, or `|s|` when there is none. */
  function Find(s: string, c: char): (r: nat)
    ensures r <= |s|
    ensures r < |s| ==> s[r] == c
    ensures forall j :: 0 <= j < r ==> s[j] != c
    ensures r == |s| <==> c !in s
    decreases |s|
  {
    if |s| == 0 then 0 else if s[0] == c then 0 else 1 + Find(s[1..], c)
  }

  /** Index of the first whitespace character of `s`, or `|s|`. */
  function FindSpace(s: string): (r: nat)
    ensures r <= |s|
    ensures r < |s| ==> IsSpace(s[r])
    ensures NoSpace(s[..r])
    decreases |s|
  {
    if |s| == 0 then 0 else if IsSpace(s[0]) then 0 else 1 + FindSpace(s[1..])
  }

  /** `s.count(c)`. */
  function Count(s: string, c: char): (n: nat)
    ensures n <= |s|
    decreases |s|
  {
    if s == [] then 0 else (if s[0] == c then 1 else 0) + Count(s[1..], c)
  }

  /** `sep.join(parts)`. */
  function Join(parts: seq<string>, sep: string): (r: string)
    decreases |parts|
  {
    if |parts| == 0 then ""
    else if |parts| == 1 then parts[0]
    else parts[0] + sep + Join(parts[1..], sep)
  }

  lemma JoinCons(head: string, rest: seq<string>, sep: string)
    requires rest != []
    ensures Join([head] + rest, sep) == head + sep + Join(rest, sep)
    ensures forall k :: 1 <= k < |rest| + 1 ==> ([head] + rest)[k] == rest[k - 1]
  {
    assert ([head] + rest)[1..] == rest;
  }

  /** Joining after a new first piece, or after one more character at the front of the first piece. */
  lemma JoinFront(c: char, rest: seq<string>, sep: string, t: string)
    requires rest != [] && Join(rest, sep) == t
    ensures Join([""] + rest, sep) == sep + t
    ensures Join([[c] + rest[0]] + rest[1..], sep) == [c] + t
  {
    JoinNewFirst(rest, sep);
    assert rest == [rest[0]] + rest[1..];
    JoinFrontPiece(c, rest[0], rest[1..], sep);
  }

  lemma JoinNewFirst(rest: seq<string>, sep: string)
    requires rest != []
    ensures Join([""] + rest, sep) == sep + Join(rest, sep)
  {
    var x := [""] + rest;
    assert x[1..] == rest;
    var e: string := x[0];
    assert e == [];
    assert e + sep == sep;
  }

  lemma JoinFrontPiece(c: char, head: string, tail: seq<string>, sep: string)
    ensures Join([[c] + head] + tail, sep) == [c] + Join([head] + tail, sep)
  {
    if tail != [] {
      JoinCons([c] + head, tail, sep);
      JoinCons(head, tail, sep);
      var j := Join(tail, sep);
      assert ([c] + head) + sep + j == [c] + (head + sep + j);
    }
  }

  lemma JoinFive(parts: seq<string>, sep: string)
    requires |parts| == 5
    ensures Join(parts, sep) == parts[0] + sep + parts[1] + sep + parts[2] + sep + parts[3] + sep + parts[4]
  {
    var p1, p2, p3, p4 := parts[1..], parts[2..], parts[3..], parts[4..];
    assert p1[1..] == p2 && p2[1..] == p3 && p3[1..] == p4;
    assert Join(p4, sep) == parts[4];
    assert Join(p3, sep) == parts[3] + sep + parts[4];
    assert Join(p2, sep) == parts[2] + sep + (parts[3] + sep + parts[4]);
    assert Join(p1, sep) == parts[1] + sep + (parts[2] + sep + (parts[3] + sep + parts[4]));
  }

  /** `s.split(sep)` for a one-character separator. */
  function Split(s: string, sep: char): (r: seq<string>)
    ensures |r| >= 1
    decreases |s|
  {
    if s == [] then [""]
    else if s[0] == sep then [""] + Split(s[1..], sep)
    else
      var r := Split(s[1..], sep);
      [[s[0]] + r[0]] + r[1..]
  }

  /** There is one more piece than there are separators. */
  lemma {:induction false} SplitLength(s: string, sep: char)
    ensures |Split(s, sep)| == Count(s, sep) + 1
    decreases |s|
  {
    if s != [] {
      SplitLength(s[1..], sep);
    }
  }

  /** No piece holds the separator. */
  lemma {:induction false} SplitPieces(s: string, sep: char)
    ensures forall k :: 0 <= k < |Split(s, sep)| ==> sep !in Split(s, sep)[k]
    decreases |s|
  {
    if s != [] {
      var r := Split(s, sep);
      var rest := Split(s[1..], sep);
      SplitPieces(s[1..], sep);
      if s[0] == sep {
        assert r == [""] + rest;
        assert forall k :: 1 <= k < |r| ==> r[k] == rest[k - 1];
      } else {
        assert r == [[s[0]] + rest[0]] + rest[1..];
        assert forall k :: 1 <= k < |r| ==> r[k] == rest[k];
        assert sep !in rest[0];
      }
    }
  }

  /** Joining the pieces with the separator gives `s` back. */
  lemma {:induction false} SplitJoin(s: string, sep: char)
    ensures Join(Split(s, sep), [sep]) == s
    decreases |s|
  {
    if s != [] {
      var rest := Split(s[1..], sep);
      SplitJoin(s[1..], sep);
      JoinFront(s[0], rest, [sep], s[1..]);
      assert s == [s[0]] + s[1..];
    }
  }

  /** A string without the separator is one piece. */
  lemma {:induction false} SplitOfPiece(a: string, sep: char)
    requires sep !in a
    ensures Split(a, sep) == [a]
    decreases |a|
  {
    if a != [] {
      SplitOfPiece(a[1..], sep);
      assert a == [a[0]] + a[1..];
    }
  }

  /** A separator-free piece followed by the separator splits off as the first piece. */
  lemma {:induction false} SplitCons(a: string, rest: string, sep: char)
    requires sep !in a
    ensures Split(a + [sep] + rest, sep) == [a] + Split(rest, sep)
    decreases |a|
  {
    var s := a + [sep] + rest;
    if a == [] {
      assert s[1..] == rest;
    } else {
      assert s[1..] == a[1..] + [sep] + rest;
      SplitCons(a[1..], rest, sep);
      assert a == [a[0]] + a[1..];
    }
  }

  lemma SplitThree(x: string, y: string, z: string, sep: char)
    requires sep !in x && sep !in y && sep !in z
    ensures Split(x + [sep] + y + [sep] + z, sep) == [x, y, z]
  {
    assert x + [sep] + y + [sep] + z == x + [sep] + (y + [sep] + z);
    SplitCons(x, y + [sep] + z, sep);
    SplitCons(y, z, sep);
    SplitOfPiece(z, sep);
  }

  /** `s.split(sep, n)`: at most `n` splits, from the left. */
  function SplitN(s: string, sep: char, n: nat): (r: seq<string>)
    ensures 1 <= |r| <= n + 1
    decreases |s|
  {
    if s == [] then [""]
    else if s[0] == sep && n > 0 then [""] + SplitN(s[1..], sep, n - 1)
    else
      var r := SplitN(s[1..], sep, n);
      [[s[0]] + r[0]] + r[1..]
  }

  /** Joining the pieces of `s.split(sep, n)` with `sep` gives `s` back. */
  lemma {:induction false} SplitNJoin(s: string, sep: char, n: nat)
    ensures Join(SplitN(s, sep, n), [sep]) == s
    decreases |s|
  {
    if s != [] {
      var m := if s[0] == sep && n > 0 then n - 1 else n;
      var rest := SplitN(s[1..], sep, m);
      SplitNJoin(s[1..], sep, m);
      JoinFront(s[0], rest, [sep], s[1..]);
      assert s == [s[0]] + s[1..];
    }
  }

  /** `s.split(sep, n)` gives all `n + 1` pieces exactly when `s` holds at least `n` separators. */
  lemma {:induction false} SplitNLength(s: string, sep: char, n: nat)
    ensures |SplitN(s, sep, n)| == n + 1 <==> Count(s, sep) >= n
    decreases |s|
  {
    if s != [] {
      if s[0] == sep && n > 0 {
        SplitNLength(s[1..], sep, n - 1);
      } else if n > 0 {
        SplitNLength(s[1..], sep, n);
      }
    }
  }

  /** No piece of `s.split(sep, n)` but the last holds a separator. */
  lemma {:induction false} SplitNHeads(s: string, sep: char, n: nat)
    ensures forall k :: 0 <= k < |SplitN(s, sep, n)| - 1 ==> sep !in SplitN(s, sep, n)[k]
    decreases |s|
  {
    if s != [] {
      var r := SplitN(s, sep, n);
      if s[0] == sep && n > 0 {
        var rest := SplitN(s[1..], sep, n - 1);
        SplitNHeads(s[1..], sep, n - 1);
        assert r == [""] + rest;
        assert forall k :: 1 <= k < |r| ==> r[k] == rest[k - 1];
      } else if n > 0 {
        var rest := SplitN(s[1..], sep, n);
        SplitNHeads(s[1..], sep, n);
        assert r == [[s[0]] + rest[0]] + rest[1..];
        assert forall k :: 1 <= k < |r| ==> r[k] == rest[k];
        if |rest| > 1 {
          assert sep !in rest[0];
          assert sep != s[0];
          assert sep !in [s[0]] + rest[0];
        }
      }
    }
  }

  /** When fewer than `n` splits were made, the last piece holds no separator either. */
  lemma {:induction false} SplitNLast(s: string, sep: char, n: nat)
    ensures |SplitN(s, sep, n)| <= n ==> sep !in SplitN(s, sep, n)[|SplitN(s, sep, n)| - 1]
    decreases |s|
  {
    if s != [] {
      if s[0] == sep && n > 0 {
        SplitNLast(s[1..], sep, n - 1);
      } else if n > 0 {
        SplitNLast(s[1..], sep, n);
      }
    }
  }

  predicate IsWord(w: string) {
    w != [] && NoSpace(w)
  }

  /** `s.split()`: the maximal runs of non-whitespace characters, in order. */
  function Words(s: string): (r: seq<string>)
    ensures forall i :: 0 <= i < |r| ==> IsWord(r[i])
    decreases |s|
  {
    if s == [] then []
    else if IsSpace(s[0]) then Words(s[1..])
    else
      var k := FindSpace(s);
      assert FindSpace(s) == 1 + FindSpace(s[1..]);
      var w := s[..k];
      var rest := Words(s[k..]);
      var r := [w] + rest;
      assert forall i :: 1 <= i < |r| ==> r[i] == rest[i - 1];
      r
  }

  lemma {:induction false} WordsOfAllSpace(s: string)
    requires AllSpace(s)
    ensures Words(s) == []
    decreases |s|
  {
    if s != [] {
      WordsOfAllSpace(s[1..]);
    }
  }

  lemma {:induction false} FindSpaceAt(s: string, k: nat)
    requires k <= |s| && NoSpace(s[..k]) && (k < |s| ==> IsSpace(s[k]))
    ensures FindSpace(s) == k
    decreases k
  {
    if k > 0 {
      assert s[1..][..k - 1] == s[..k][1..];
      assert !IsSpace(s[..k][0]);
      FindSpaceAt(s[1..], k - 1);
    }
  }

  /** A word followed by whitespace (or nothing) is the first token. */
  lemma WordsCons(w: string, rest: string)
    requires IsWord(w)
    requires rest == [] || IsSpace(rest[0])
    ensures Words(w + rest) == [w] + Words(rest)
  {
    var s := w + rest;
    assert !IsSpace(s[0]);
    assert s[..|w|] == w;
    FindSpaceAt(s, |w|);
    assert s[|w|..] == rest;
  }

  /** A word with no whitespace is its own single token. */
  lemma WordsOfWord(s: string)
    requires IsWord(s)
    ensures Words(s) == [s]
  {
    WordsCons(s, []);
    assert s + [] == s;
  }

  /** Leading whitespace does not change the tokens. */
  lemma {:induction false} WordsSkipSpace(sp: string, rest: string)
    requires AllSpace(sp)
    ensures Words(sp + rest) == Words(rest)
    decreases |sp|
  {
    if sp != [] {
      assert (sp + rest)[1..] == sp[1..] + rest;
      WordsSkipSpace(sp[1..], rest);
    } else {
      assert sp + rest == rest;
    }
  }

  /** `s.replace(a, b)` for one-character strings. */
  function ReplaceAll(s: string, a: char, b: char): (r: string)
    ensures |r| == |s|
    ensures forall i :: 0 <= i < |s| ==> r[i] == (if s[i] == a then b else s[i])
  {
    seq(|s|, i requires 0 <= i < |s| => if s[i] == a then b else s[i])
  }

  /** `s.replace(a, b, 1)` for one-character strings. */
  function ReplaceFirst(s: string, a: char, b: char): (r: string)
    ensures |r| == |s|
    ensures a !in s ==> r == s
    ensures a in s ==> r == s[..Find(s, a)] + [b] + s[Find(s, a) + 1..]
  {
    var i := Find(s, a);
    if i == |s| then s else s[..i] + [b] + s[i + 1..]
  }

  // ---------------------------------------------------------------------
  // Numbers
  // ---------------------------------------------------------------------

  /** The value of a string of decimal digits (`int(s)` on a digit string). */
  function DecimalValue(s: string): nat
    requires AllDigits(s)
    decreases |s|
  {
    if s == [] then 0 else 10 * DecimalValue(s[..|s| - 1]) + DigitValue(s[|s| - 1])
  }

  /** `str(n)` for a natural number. */
  function NatToString(n: nat): (r: string)
    ensures IsDigits(r)
    decreases n
  {
    if n < 10 then [DigitChar(n)] else NatToString(n / 10) + [DigitChar(n % 10)]
  }

  /** `str(i)` for any integer. */
  function IntToString(i: int): (r: string)
    ensures r != []
    ensures i < 0 <==> r[0] == '-'
  {
    if i < 0 then "-" + NatToString(-i) else NatToString(i)
  }

  lemma {:induction false} NatToStringRoundTrip(n: nat)
    ensures DecimalValue(NatToString(n)) == n
    decreases n
  {
    if n >= 10 {
      NatToStringRoundTrip(n / 10);
      var s := NatToString(n);
      assert s[..|s| - 1] == NatToString(n / 10);
    }
  }

  /** Digits with single underscores between them, as `int()` accepts. */
  predicate UnderscoredDigits(s: string) {
    && |s| > 0
    && IsDigit(s[0]) && IsDigit(s[|s| - 1])
    && (forall i :: 0 <= i < |s| ==> IsDigit(s[i]) || s[i] == '_')
    && (forall i :: 0 <= i < |s| - 1 ==> s[i] == '_' ==> s[i + 1] != '_')
  }

  function RemoveUnderscores(s: string): (r: string)
    requires forall i :: 0 <= i < |s| ==> IsDigit(s[i]) || s[i] == '_'
    ensures AllDigits(r)
    decreases |s|
  {
    if s == [] then []
    else if s[0] == '_' then RemoveUnderscores(s[1..])
    else [s[0]] + RemoveUnderscores(s[1..])
  }

  /** Python's `int(s)`: surrounding whitespace, an optional sign, then digits. `None` where `int` raises. */
  function PyInt(s: string): (r: Option<int>)
  {
    var t := Strip(s);
    var body := SignlessBody(t);
    if UnderscoredDigits(body) then
      var v: int := DecimalValue(RemoveUnderscores(body));
      Some(if |t| > 0 && t[0] == '-' then -v else v)
    else
      None
  }

  /** What `int()` reads after an optional leading sign. */
  function SignlessBody(t: string): (r: string)
    ensures |r| <= |t|
  {
    if |t| > 0 && (t[0] == '+' || t[0] == '-') then t[1..] else t
  }

  /** On a plain digit string `int()` is the decimal value. */
  lemma PyIntOfDigits(s: string)
    requires IsDigits(s)
    ensures PyInt(s) == Some(DecimalValue(s))
  {
    var c0, c1 := s[0], s[|s| - 1];
    assert !IsSpace(c0) && !IsSpace(c1);
    assert RStripSpace(s) == s;
    assert LStripSpace(s) == s;
    assert SignlessBody(s) == s;
    assert UnderscoredDigits(s);
    RemoveUnderscoresOfDigits(s);
  }

  lemma {:induction false} RemoveUnderscoresOfDigits(s: string)
    requires AllDigits(s)
    ensures RemoveUnderscores(s) == s
    decreases |s|
  {
    if s != [] {
      RemoveUnderscoresOfDigits(s[1..]);
    }
  }
}
