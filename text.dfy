/** Python string operations used by the prompt formatter and the indexer,
    stated over `seq<char>` (one `char` per Unicode code point, as Python's
    `str` counts them). */
module Text {

  /** Python's `str.isspace()`: the characters `strip()` removes when called
      without arguments. */
  predicate IsSpace(c: char) {
    c == ' ' || ('\t' <= c <= '\r') || ('\U{1C}' <= c <= '\U{1F}')
    || c == '\U{85}' || c == '\U{A0}' || c == '\U{1680}'
    || ('\U{2000}' <= c <= '\U{200A}') || c == '\U{2028}' || c == '\U{2029}'
    || c == '\U{202F}' || c == '\U{205F}' || c == '\U{3000}'
  }

  predicate AllSpace(s: string) {
    forall k :: 0 <= k < |s| ==> IsSpace(s[k])
  }

  /** Every character of `s` at an index in `[lo, hi)` is whitespace. */
  predicate SpaceBetween(s: string, lo: int, hi: int) {
    forall k :: lo <= k < hi && 0 <= k < |s| ==> IsSpace(s[k])
  }

  /** Neither the first nor the last character is whitespace. */
  predicate NoEdgeSpace(s: string) {
    |s| == 0 || (!IsSpace(s[0]) && !IsSpace(s[|s| - 1]))
  }

  predicate IsPrefix(p: string, s: string) {
    |p| <= |s| && s[..|p|] == p
  }

  predicate EndsWith(s: string, suffix: string) {
    |suffix| <= |s| && s[|s| - |suffix|..] == suffix
  }

  /** `s.lstrip()`. */
  function LStrip(s: string): string
    decreases |s|
  {
    if |s| > 0 && IsSpace(s[0]) then LStrip(s[1..]) else s
  }

  /** `s.rstrip()`. */
  function RStrip(s: string): string
    decreases |s|
  {
    if |s| > 0 && IsSpace(s[|s| - 1]) then RStrip(s[..|s| - 1]) else s
  }

  /** `lstrip` leaves a suffix of `s` that does not start with whitespace, and
      removes only whitespace. */
  lemma {:induction false} LStripFacts(s: string)
    ensures var r := LStrip(s);
      |r| <= |s| && r == s[|s| - |r|..] && SpaceBetween(s, 0, |s| - |r|)
      && (|r| == 0 || !IsSpace(r[0]))
    decreases |s|
  {
    if |s| > 0 && IsSpace(s[0]) {
      LStripFacts(s[1..]);
      var r := LStrip(s[1..]);
      assert s[1..][|s| - 1 - |r|..] == s[|s| - |r|..];
      forall k | 1 <= k < |s| - |r| ensures IsSpace(s[k]) {
        assert s[k] == s[1..][k - 1];
      }
    }
  }

  /** `rstrip` leaves a prefix of `s` that does not end with whitespace, and
      removes only whitespace. */
  lemma {:induction false} RStripFacts(s: string)
    ensures var r := RStrip(s);
      IsPrefix(r, s) && SpaceBetween(s, |r|, |s|) && (|r| == 0 || !IsSpace(r[|r| - 1]))
    decreases |s|
  {
    if |s| > 0 && IsSpace(s[|s| - 1]) {
      var t := s[..|s| - 1];
      RStripFacts(t);
      var r := RStrip(t);
      assert s[..|r|] == t[..|r|];
      forall k | |r| <= k < |s| - 1 ensures IsSpace(s[k]) {
        assert s[k] == t[k];
      }
    }
  }

  /** `s.strip()`. */
  function Strip(s: string): string {
    RStrip(LStrip(s))
  }

  /** `s.strip()` has no whitespace at either end. */
  lemma StripHasNoEdgeSpace(s: string)
    ensures NoEdgeSpace(Strip(s))
  {
    var l := LStrip(s);
    LStripFacts(s);
    RStripFacts(l);
    var r := RStrip(l);
    if |r| > 0 {
      assert r[0] == l[0];
    }
  }

  /** `s.strip()` removes whitespace from both ends and nothing else: the
      result is the piece `s[i..i + |r|]` with only whitespace around it. */
  lemma StripIsTrimmedPiece(s: string)
    ensures var r := Strip(s);
      var i := |s| - |LStrip(s)|;
      0 <= i && i + |r| <= |s| && r == s[i..i + |r|]
      && SpaceBetween(s, 0, i) && SpaceBetween(s, i + |r|, |s|)
  {
    var l := LStrip(s);
    LStripFacts(s);
    var i := |s| - |l|;
    var r := RStrip(l);
    RStripFacts(l);
    assert l[..|r|] == s[i..i + |r|];
    forall k | i + |r| <= k < |s| ensures IsSpace(s[k]) {
      assert s[k] == l[k - i];
    }
  }

  lemma {:induction false} LStripSpacePrefix(p: string, t: string)
    requires AllSpace(p)
    requires |t| == 0 || !IsSpace(t[0])
    ensures LStrip(p + t) == t
    decreases |p|
  {
    if |p| == 0 {
      assert p + t == t;
    } else {
      assert (p + t)[1..] == p[1..] + t;
      LStripSpacePrefix(p[1..], t);
    }
  }

  lemma {:induction false} RStripSpaceSuffix(t: string, q: string)
    requires AllSpace(q)
    requires |t| == 0 || !IsSpace(t[|t| - 1])
    ensures RStrip(t + q) == t
    decreases |q|
  {
    if |q| == 0 {
      assert t + q == t;
    } else {
      assert (t + q)[..|t + q| - 1] == t + q[..|q| - 1];
      RStripSpaceSuffix(t, q[..|q| - 1]);
    }
  }

  /** Stripping whitespace padding off a word with no whitespace at its ends gives the word back. */
  lemma StripPadded(p: string, w: string, q: string)
    requires AllSpace(p) && AllSpace(q) && NoEdgeSpace(w)
    ensures Strip(p + w + q) == w
  {
    if |w| == 0 {
      assert p + w + q == p + q;
      LStripSpacePrefix(p + q, []);
      assert p + q + [] == p + q;
      assert LStrip(p + q) == [];
    } else {
      assert p + w + q == p + (w + q);
      LStripSpacePrefix(p, w + q);
      RStripSpaceSuffix(w, q);
    }
  }

  /** Python's `s.replace("\n", " ")`. */
  function ReplaceNewlines(s: string): string
    decreases |s|
  {
    if |s| == 0 then "" else [if s[0] == '\n' then ' ' else s[0]] + ReplaceNewlines(s[1..])
  }

  /** Replacing newlines keeps the length and every other character, and
      leaves no newline behind. */
  lemma {:induction false} ReplaceNewlinesFacts(s: string)
    ensures var r := ReplaceNewlines(s);
      |r| == |s| && '\n' !in r
      && forall k :: 0 <= k < |s| ==> r[k] == if s[k] == '\n' then ' ' else s[k]
    decreases |s|
  {
    if |s| > 0 {
      ReplaceNewlinesFacts(s[1..]);
      var r := ReplaceNewlines(s);
      forall k | 0 <= k < |s| ensures r[k] == if s[k] == '\n' then ' ' else s[k] {
        if k > 0 { assert r[k] == ReplaceNewlines(s[1..])[k - 1]; }
      }
    }
  }

  /** A string without whitespace at its ends keeps that shape when its newlines are replaced. */
  lemma ReplaceNewlinesKeepsEdges(s: string)
    requires NoEdgeSpace(s)
    ensures NoEdgeSpace(ReplaceNewlines(s))
  {
    ReplaceNewlinesFacts(s);
  }

  /** ASCII lower-casing of one character. */
  function LowerChar(c: char): (d: char)
    ensures 'A' <= c <= 'Z' ==> 'a' <= d <= 'z' && d as int - c as int == 32
    ensures !('A' <= c <= 'Z') ==> d == c
  {
    if 'A' <= c <= 'Z' then (c as int + 32) as char else c
  }

  /** Python's `s.lower()` restricted to ASCII letters. */
  function LowerAscii(s: string): string
    decreases |s|
  {
    if |s| == 0 then "" else [LowerChar(s[0])] + LowerAscii(s[1..])
  }

  lemma {:induction false} LowerAsciiAt(s: string)
    ensures |LowerAscii(s)| == |s|
    ensures forall k :: 0 <= k < |s| ==> LowerAscii(s)[k] == LowerChar(s[k])
    decreases |s|
  {
    if |s| > 0 {
      LowerAsciiAt(s[1..]);
      forall k | 0 < k < |s| ensures LowerAscii(s)[k] == LowerChar(s[k]) {
        assert LowerAscii(s)[k] == LowerAscii(s[1..])[k - 1];
      }
    }
  }

  /** Python's `"\n".join(lines)`. */
  function JoinLines(lines: seq<string>): string
    decreases |lines|
  {
    if |lines| == 0 then ""
    else if |lines| == 1 then lines[0]
    else lines[0] + "\n" + JoinLines(lines[1..])
  }

  /** Python's `s.split("\n")`: always at least one piece, and none holds a newline. */
  function SplitLines(s: string): (r: seq<string>)
    ensures |r| >= 1
    ensures forall k :: 0 <= k < |r| ==> '\n' !in r[k]
    decreases |s|
  {
    if |s| == 0 then [""]
    else
      var rest := SplitLines(s[1..]);
      if s[0] == '\n' then [""] + rest
      else
        [[s[0]] + rest[0]] + rest[1..]
  }

  lemma {:induction false} SplitLinesAfterPlainText(a: string, t: string)
    requires '\n' !in a
    ensures SplitLines(a + t) == [a + SplitLines(t)[0]] + SplitLines(t)[1..]
    decreases |a|
  {
    if |a| == 0 {
      assert a + t == t;
      assert a + SplitLines(t)[0] == SplitLines(t)[0];
    } else {
      assert (a + t)[0] == a[0];
      assert (a + t)[1..] == a[1..] + t;
      assert '\n' !in a[1..] by { assert a == [a[0]] + a[1..]; }
      SplitLinesAfterPlainText(a[1..], t);
      assert [a[0]] + (a[1..] + SplitLines(t)[0]) == a + SplitLines(t)[0];
    }
  }

  /** Splitting the newline-join of newline-free lines gives the lines back. */
  lemma {:induction false} SplitJoinLines(lines: seq<string>)
    requires |lines| >= 1
    requires forall k :: 0 <= k < |lines| ==> '\n' !in lines[k]
    ensures SplitLines(JoinLines(lines)) == lines
    decreases |lines|
  {
    if |lines| == 1 {
      assert JoinLines(lines) == lines[0] + "";
      SplitLinesAfterPlainText(lines[0], "");
    } else {
      var j := JoinLines(lines[1..]);
      assert JoinLines(lines) == lines[0] + ("\n" + j);
      SplitLinesAfterPlainText(lines[0], "\n" + j);
      assert ("\n" + j)[1..] == j;
      assert SplitLines("\n" + j) == [""] + SplitLines(j);
      SplitJoinLines(lines[1..]);
      assert lines[0] + "" == lines[0];
    }
  }

  /** Python's `s[:n]` for any integer `n` (a negative `n` counts from the end). */
  function PySliceTo(s: string, n: int): (r: string)
    ensures IsPrefix(r, s)
    ensures 0 <= n ==> |r| == if n <= |s| then n else |s|
    ensures n < 0 ==> |r| == if |s| + n >= 0 then |s| + n else 0
  {
    if n >= 0 then (if n <= |s| then s[..n] else s)
    else if |s| + n >= 0 then s[..|s| + n]
    else ""
  }

  function DigitChar(d: nat): (c: char)
    requires d < 10
    ensures '0' <= c <= '9'
  {
    ('0' as int + d) as char
  }

  /** Python's `str(n)` for a natural number: its decimal digits, no leading zero. */
  function NatToString(n: nat): (s: string)
    ensures |s| >= 1
    ensures forall k :: 0 <= k < |s| ==> '0' <= s[k] <= '9'
    decreases n
  {
    if n < 10 then [DigitChar(n)] else NatToString(n / 10) + [DigitChar(n % 10)]
  }

  /** Python's `str(i)` for any integer. */
  function IntToString(i: int): string {
    if i < 0 then "-" + NatToString(-i) else NatToString(i)
  }

  /** Reading decimal digits back as a number; the inverse of NatToString. */
  function DigitsValue(s: string): int
    decreases |s|
  {
    if |s| == 0 then 0 else DigitsValue(s[..|s| - 1]) * 10 + (s[|s| - 1] as int - '0' as int)
  }

  lemma {:induction false} DigitsValueOfNatToString(n: nat)
    ensures DigitsValue(NatToString(n)) == n
    decreases n
  {
    var s := NatToString(n);
    if n < 10 {
      assert s[..0] == [];
    } else {
      assert s[..|s| - 1] == NatToString(n / 10);
      DigitsValueOfNatToString(n / 10);
    }
  }

  lemma NatToStringInjective(a: nat, b: nat)
    requires NatToString(a) == NatToString(b)
    ensures a == b
  {
    DigitsValueOfNatToString(a);
    DigitsValueOfNatToString(b);
  }

  /** Decimal rendering is injective: distinct integers give distinct strings. */
  lemma IntToStringInjective(a: int, b: int)
    requires a != b
    ensures IntToString(a) != IntToString(b)
  {
    var sa, sb := IntToString(a), IntToString(b);
    if a < 0 && b < 0 {
      if sa == sb {
        assert sa[1..] == NatToString(-a);
        assert sb[1..] == NatToString(-b);
        NatToStringInjective(-a, -b);
      }
    } else if a < 0 {
      assert sa[0] == '-' && '0' <= sb[0] <= '9';
    } else if b < 0 {
      assert sb[0] == '-' && '0' <= sa[0] <= '9';
    } else if sa == sb {
      NatToStringInjective(a, b);
    }
  }

  /** Python's `<` on strings: lexicographic order of code points. */
  predicate StrLess(a: string, b: string)
    decreases |a|
  {
    if |a| == 0 then |b| > 0
    else if |b| == 0 then false
    else a[0] < b[0] || (a[0] == b[0] && StrLess(a[1..], b[1..]))
  }

  predicate StrictlySorted(xs: seq<string>) {
    forall i, j :: 0 <= i < j < |xs| ==> StrLess(xs[i], xs[j])
  }

  /** `StrLess` is a strict order: never both ways between two strings. */
  lemma {:induction false} StrLessAsymmetric(a: string, b: string)
    ensures StrLess(a, b) ==> !StrLess(b, a)
    decreases |a|
  {
    if |a| > 0 && |b| > 0 && a[0] == b[0] {
      StrLessAsymmetric(a[1..], b[1..]);
    }
  }

  /** A strictly sorted list is determined by its elements: this is what makes
      it the result of Python's `sorted` on a set. */
  lemma {:induction false} SortedIsUnique(xs: seq<string>, ys: seq<string>)
    requires StrictlySorted(xs) && StrictlySorted(ys)
    requires forall x :: x in xs <==> x in ys
    ensures xs == ys
    decreases |xs|
  {
    if |ys| > 0 {
      assert ys[0] in xs;
    }
    if |xs| > 0 {
      assert xs[0] in xs;
      assert |ys| > 0;
      assert ys[0] in ys;
      if xs[0] != ys[0] {
        var i :| 0 <= i < |xs| && xs[i] == ys[0];
        var j :| 0 <= j < |ys| && ys[j] == xs[0];
        assert StrLess(xs[0], ys[0]) && StrLess(ys[0], xs[0]);
        StrLessAsymmetric(xs[0], ys[0]);
        assert false;
      }
      forall x ensures x in xs[1..] <==> x in ys[1..] {
        if x in xs[1..] {
          var i :| 1 <= i < |xs| && xs[i] == x;
          StrLessAsymmetric(xs[0], x);
          assert x != xs[0];
          assert x in ys;
          var j :| 0 <= j < |ys| && ys[j] == x;
          assert j != 0;
        }
        if x in ys[1..] {
          var j :| 1 <= j < |ys| && ys[j] == x;
          StrLessAsymmetric(ys[0], x);
          assert x != ys[0];
          assert x in xs;
          var i :| 0 <= i < |xs| && xs[i] == x;
          assert i != 0;
        }
      }
      assert StrictlySorted(xs[1..]) && StrictlySorted(ys[1..]);
      SortedIsUnique(xs[1..], ys[1..]);
      assert xs == [xs[0]] + xs[1..] && ys == [ys[0]] + ys[1..];
    }
  }
}
