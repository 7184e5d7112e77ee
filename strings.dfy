/**
 * Character and string helpers with the meaning JavaScript gives them in the
 * archive's build scripts: decimal digits and `parseInt(s, 10)`, the decimal
 * text of a number and `padStart`, code-point lexicographic order (which is
 * JavaScript's `<` on strings without characters above U+FFFF, such as the
 * ASCII dates the scripts compare), `split`/`join`, upper-casing of one
 * character and `trim`.
 */
module Strings {

  // ---------------------------------------------------------------------------
  // Decimal digits
  // ---------------------------------------------------------------------------

  predicate IsDigit(c: char) { '0' <= c <= '9' }

  predicate IsLowerAscii(c: char) { 'a' <= c <= 'z' }

  predicate AllDigits(s: string) { forall i :: 0 <= i < |s| ==> IsDigit(s[i]) }

  function Pow10(k: nat): (p: nat)
    ensures p >= 1
  {
    if k == 0 then 1 else 10 * Pow10(k - 1)
  }

  function DigitChar(d: nat): (c: char)
    requires d < 10
    ensures IsDigit(c)
  {
    ('0' as int + d) as char
  }

  function DigitValue(c: char): (d: nat)
    requires IsDigit(c)
    ensures d < 10 && DigitChar(d) == c
  {
    c as int - '0' as int
  }

  /** `parseInt(s, 10)` on a string made only of decimal digits. */
  function DigitsValue(s: string): (n: nat)
    requires AllDigits(s)
    ensures n < Pow10(|s|)
  {
    if |s| == 0 then 0 else 10 * DigitsValue(s[..|s| - 1]) + DigitValue(s[|s| - 1])
  }

  /** `n.toString()`: the shortest decimal text of `n`. */
  function NatToString(n: nat): (s: string)
    ensures 1 <= |s| && AllDigits(s)
    ensures |s| > 1 ==> s[0] != '0'
    ensures DigitsValue(s) == n
  {
    if n < 10 then [DigitChar(n)]
    else
      var s := NatToString(n / 10) + [DigitChar(n % 10)];
      assert s[..|s| - 1] == NatToString(n / 10);
      s
  }

  /** The decimal text of `n` in exactly `width` digits, with leading zeros. */
  function FixedDigits(n: nat, width: nat): (s: string)
    requires n < Pow10(width)
    ensures |s| == width && AllDigits(s)
  {
    if width == 0 then "" else FixedDigits(n / 10, width - 1) + [DigitChar(n % 10)]
  }

  function Repeat(c: char, k: nat): (s: string)
    ensures |s| == k && forall i :: 0 <= i < k ==> s[i] == c
  {
    if k == 0 then "" else Repeat(c, k - 1) + [c]
  }

  /** `s.padStart(width, [fill])` with a one-character fill string. */
  function PadStart(s: string, width: nat, fill: char): (r: string)
    ensures |r| == if |s| >= width then |s| else width
    ensures r[|r| - |s|..] == s
    ensures forall i :: 0 <= i < |r| - |s| ==> r[i] == fill
  {
    if |s| >= width then s else Repeat(fill, width - |s|) + s
  }

  /** Reading a fixed-width digit string and writing it back at the same width gives it back. */
  lemma {:induction false} FixedDigitsOfValue(s: string)
    requires AllDigits(s)
    ensures FixedDigits(DigitsValue(s), |s|) == s
  {
    if |s| > 0 {
      var init := s[..|s| - 1];
      var n := DigitsValue(s);
      assert n / 10 == DigitsValue(init) && n % 10 == DigitValue(s[|s| - 1]);
      FixedDigitsOfValue(init);
      assert s == init + [s[|s| - 1]];
    }
  }

  lemma {:induction false} FixedDigitsOfZero(width: nat)
    ensures FixedDigits(0, width) == Repeat('0', width)
  {
    if width > 0 {
      FixedDigitsOfZero(width - 1);
    }
  }

  lemma Pow10Step(n: nat, width: nat)
    requires width >= 1 && n < Pow10(width)
    ensures n / 10 < Pow10(width - 1)
  {
    assert Pow10(width) == 10 * Pow10(width - 1);
  }

  lemma {:induction false} NatToStringFits(n: nat, width: nat)
    requires width >= 1 && n < Pow10(width)
    ensures |NatToString(n)| <= width
  {
    if n >= 10 {
      Pow10Step(n, width);
      NatToStringFits(n / 10, width - 1);
    }
  }

  lemma PadStartAppend(t: string, c: char, width: nat, fill: char)
    requires |t| < width
    ensures PadStart(t + [c], width, fill) == PadStart(t, width - 1, fill) + [c]
  {
    assert PadStart(t + [c], width, fill) == Repeat(fill, width - 1 - |t|) + t + [c];
  }

  /**
   * `n.toString().padStart(width, '0')` is the fixed-width decimal text of `n`
   * whenever `n` fits in `width` digits.
   */
  lemma {:induction false} PaddedNatToString(n: nat, width: nat)
    requires width >= 1 && n < Pow10(width)
    ensures PadStart(NatToString(n), width, '0') == FixedDigits(n, width)
  {
    NatToStringFits(n, width);
    Pow10Step(n, width);
    if n < 10 {
      PaddedDigit(n, width);
    } else {
      PaddedNatToString(n / 10, width - 1);
      PaddedStep(n, width);
    }
  }

  /** A single digit padded to `width` is `width - 1` zeros and the digit. */
  lemma PaddedDigit(n: nat, width: nat)
    requires width >= 1 && n < 10 && n < Pow10(width)
    ensures PadStart(NatToString(n), width, '0') == FixedDigits(n, width)
  {
    assert NatToString(n) == [DigitChar(n)];
    PadDigit(DigitChar(n), width);
    FixedDigit(n, width);
  }

  lemma PadDigit(c: char, width: nat)
    requires width >= 1
    ensures PadStart([c], width, '0') == Repeat('0', width - 1) + [c]
  {
    if width == 1 {
      assert Repeat('0', 0) + [c] == [c];
    }
  }

  lemma FixedDigit(n: nat, width: nat)
    requires width >= 1 && n < 10 && n < Pow10(width)
    ensures FixedDigits(n, width) == Repeat('0', width - 1) + [DigitChar(n)]
  {
    assert n % 10 == n && n / 10 == 0;
    Pow10Step(n, width);
    FixedDigitsOfZero(width - 1);
  }

  /** Padding `n` is padding `n / 10` one place narrower and writing the last digit after it. */
  lemma PaddedStep(n: nat, width: nat)
    requires width >= 1 && n >= 10 && n < Pow10(width)
    requires |NatToString(n)| <= width && n / 10 < Pow10(width - 1)
    requires PadStart(NatToString(n / 10), width - 1, '0') == FixedDigits(n / 10, width - 1)
    ensures PadStart(NatToString(n), width, '0') == FixedDigits(n, width)
  {
    var c := DigitChar(n % 10);
    var t := NatToString(n / 10);
    assert NatToString(n) == t + [c];
    PadStartAppend(t, c, width, '0');
  }

  // ---------------------------------------------------------------------------
  // Code-point lexicographic order. JavaScript's `<` compares UTF-16 code
  // units, which agree with code points on strings without characters above
  // U+FFFF, the ASCII dates among them. As a stand-in for `localeCompare` it
  // is a fixed total order, not locale collation: the two can disagree on
  // upper case and non-ASCII letters.
  // ---------------------------------------------------------------------------

  predicate LexLess(a: string, b: string)
    decreases |a|
  {
    if |a| == 0 then |b| > 0
    else |b| > 0 && (a[0] < b[0] || (a[0] == b[0] && LexLess(a[1..], b[1..])))
  }

  predicate LexLe(a: string, b: string) { a == b || LexLess(a, b) }

  lemma {:induction false} LexLessIrreflexive(a: string)
    ensures !LexLess(a, a)
  {
    if |a| > 0 {
      LexLessIrreflexive(a[1..]);
    }
  }

  lemma {:induction false} LexLessTransitive(a: string, b: string, c: string)
    requires LexLess(a, b) && LexLess(b, c)
    ensures LexLess(a, c)
  {
    if |a| > 0 && a[0] == b[0] && b[0] == c[0] {
      LexLessTransitive(a[1..], b[1..], c[1..]);
    }
  }

  lemma {:induction false} LexLessTotal(a: string, b: string)
    ensures a == b || LexLess(a, b) || LexLess(b, a)
  {
    if |a| > 0 && |b| > 0 && a[0] == b[0] {
      LexLessTotal(a[1..], b[1..]);
      if a[1..] == b[1..] {
        assert a == [a[0]] + a[1..] && b == [b[0]] + b[1..];
      }
    }
  }

  lemma LexLessAsymmetric(a: string, b: string)
    requires LexLess(a, b)
    ensures !LexLess(b, a)
  {
    if LexLess(b, a) {
      LexLessTransitive(a, b, a);
      LexLessIrreflexive(a);
    }
  }

  lemma LexLeTransitive(a: string, b: string, c: string)
    requires LexLe(a, b) && LexLe(b, c)
    ensures LexLe(a, c)
  {
    if a != b && b != c {
      LexLessTransitive(a, b, c);
    }
  }

  /** The smallest string of a non-empty list, found by one left-to-right scan. */
  function LexMin(s: seq<string>): (m: string)
    requires |s| > 0
    ensures forall i :: 0 <= i < |s| ==> LexLe(m, s[i])
  {
    if |s| == 1 then s[0]
    else
      var m := LexMin(s[..|s| - 1]);
      var last := s[|s| - 1];
      assert forall i :: 0 <= i < |s| - 1 ==> s[i] == s[..|s| - 1][i];
      if LexLess(last, m) then
        assert forall i :: 0 <= i < |s| - 1 ==> LexLe(last, s[i]) by {
          forall i | 0 <= i < |s| - 1 ensures LexLe(last, s[i]) {
            if m != s[i] { LexLessTransitive(last, m, s[i]); }
          }
        }
        last
      else
        LexLessTotal(last, m);
        m
  }

  /** The largest string of a non-empty list, found by one left-to-right scan. */
  function LexMax(s: seq<string>): (m: string)
    requires |s| > 0
    ensures forall i :: 0 <= i < |s| ==> LexLe(s[i], m)
  {
    if |s| == 1 then s[0]
    else
      var m := LexMax(s[..|s| - 1]);
      var last := s[|s| - 1];
      assert forall i :: 0 <= i < |s| - 1 ==> s[i] == s[..|s| - 1][i];
      if LexLess(m, last) then
        assert forall i :: 0 <= i < |s| - 1 ==> LexLe(s[i], last) by {
          forall i | 0 <= i < |s| - 1 ensures LexLe(s[i], last) {
            if m != s[i] { LexLessTransitive(s[i], m, last); }
          }
        }
        last
      else
        LexLessTotal(last, m);
        m
  }

  /** The minimum and the maximum are elements of the list. */
  lemma {:induction false} LexBoundsMember(s: seq<string>)
    requires |s| > 0
    ensures LexMin(s) in s && LexMax(s) in s
  {
    if |s| > 1 {
      var init := s[..|s| - 1];
      LexBoundsMember(init);
      assert forall x :: x in init ==> x in s;
    }
  }

  /** One more string moves the minimum only when it is strictly smaller. */
  lemma LexMinSnoc(s: seq<string>, x: string)
    requires |s| > 0
    ensures LexMin(s + [x]) == if LexLess(x, LexMin(s)) then x else LexMin(s)
  {
    assert (s + [x])[..|s|] == s;
  }

  /** One more string moves the maximum only when it is strictly larger. */
  lemma LexMaxSnoc(s: seq<string>, x: string)
    requires |s| > 0
    ensures LexMax(s + [x]) == if LexLess(LexMax(s), x) then x else LexMax(s)
  {
    assert (s + [x])[..|s|] == s;
  }

  /** A string of the list that is below or equal to all of them is its minimum. */
  lemma LexMinUnique(s: seq<string>, m: string)
    requires m in s && forall i :: 0 <= i < |s| ==> LexLe(m, s[i])
    ensures LexMin(s) == m
  {
    LexBoundsMember(s);
    var l := LexMin(s);
    if l != m {
      var i :| 0 <= i < |s| && s[i] == l;
      var j :| 0 <= j < |s| && s[j] == m;
      assert LexLess(m, l) && LexLess(l, m);
      LexLessAsymmetric(m, l);
    }
  }

  lemma LexMaxUnique(s: seq<string>, m: string)
    requires m in s && forall i :: 0 <= i < |s| ==> LexLe(s[i], m)
    ensures LexMax(s) == m
  {
    LexBoundsMember(s);
    var l := LexMax(s);
    if l != m {
      var i :| 0 <= i < |s| && s[i] == l;
      var j :| 0 <= j < |s| && s[j] == m;
      assert LexLess(m, l) && LexLess(l, m);
      LexLessAsymmetric(m, l);
    }
  }

  /** `s.slice(0, k)` */
  function Prefix(s: string, k: nat): (p: string)
    ensures |p| <= k && |p| <= |s|
  {
    if |s| <= k then s else s[..k]
  }

  /** Cutting two ordered strings to the same length keeps them ordered. */
  lemma {:induction false} PrefixMonotone(a: string, b: string, k: nat)
    requires LexLe(a, b)
    ensures LexLe(Prefix(a, k), Prefix(b, k))
  {
    if a != b && k > 0 && |a| > 0 {
      if a[0] == b[0] {
        PrefixMonotone(a[1..], b[1..], k - 1);
        PrefixCons(a, k);
        PrefixCons(b, k);
      } else {
        assert Prefix(a, k)[0] == a[0] && Prefix(b, k)[0] == b[0];
      }
    }
  }

  /** A prefix of a non-empty string is its first character and a prefix of the rest. */
  lemma PrefixCons(s: string, k: nat)
    requires |s| > 0 && k > 0
    ensures |Prefix(s, k)| > 0 && Prefix(s, k)[0] == s[0] && Prefix(s, k)[1..] == Prefix(s[1..], k - 1)
  {
  }

  // ---------------------------------------------------------------------------
  // split, join and upper-casing
  // ---------------------------------------------------------------------------

  /** `String.prototype.toUpperCase` on one character, for the ASCII letters. */
  function Upper(c: char): char
  {
    if IsLowerAscii(c) then (c as int - 32) as char else c
  }

  /** `s.split(sep)` for a one-character separator. */
  function Split(s: string, sep: char): (parts: seq<string>)
    ensures |parts| >= 1
    ensures forall i :: 0 <= i < |parts| ==> sep !in parts[i]
  {
    if |s| == 0 then [""]
    else
      var rest := Split(s[1..], sep);
      if s[0] == sep then [""] + rest
      else [[s[0]] + rest[0]] + rest[1..]
  }

  /** `parts.join(sep)` */
  function Join(parts: seq<string>, sep: string): string
  {
    if |parts| == 0 then ""
    else if |parts| == 1 then parts[0]
    else parts[0] + sep + Join(parts[1..], sep)
  }

  /** A string without the separator splits into itself alone. */
  lemma {:induction false} SplitNone(a: string, sep: char)
    requires sep !in a
    ensures Split(a, sep) == [a]
  {
    if |a| > 0 {
      SplitNone(a[1..], sep);
      assert a == [a[0]] + a[1..];
    }
  }

  /** A leading piece without the separator is split off whole. */
  lemma {:induction false} SplitAfter(a: string, b: string, sep: char)
    requires sep !in a
    ensures Split(a + [sep] + b, sep) == [a] + Split(b, sep)
  {
    if |a| == 0 {
      assert a + [sep] + b == [sep] + b;
      assert ([sep] + b)[1..] == b;
    } else {
      SplitAfter(a[1..], b, sep);
      var s := a + [sep] + b;
      assert s[1..] == a[1..] + [sep] + b;
      assert [a[0]] + a[1..] == a;
    }
  }

  /** Joining the pieces of a split with the separator gives back the string. */
  lemma {:induction false} JoinSplit(s: string, sep: char)
    ensures Join(Split(s, sep), [sep]) == s
  {
    if |s| > 0 {
      var rest := Split(s[1..], sep);
      JoinSplit(s[1..], sep);
      if s[0] == sep {
        assert ([""] + rest)[1..] == rest;
      } else {
        var parts := [[s[0]] + rest[0]] + rest[1..];
        if |rest| > 1 {
          assert parts[1..] == rest[1..];
          assert Join(rest, [sep]) == rest[0] + [sep] + Join(rest[1..], [sep]);
        }
      }
      assert s == [s[0]] + s[1..];
    }
  }

  // ---------------------------------------------------------------------------
  // trim
  // ---------------------------------------------------------------------------

  /** The white space and line terminators that `String.prototype.trim` removes. */
  predicate IsJsSpace(c: char)
  {
    || c == '\t' || c == '\n' || c == '\U{B}' || c == '\U{C}' || c == '\r' || c == ' '
    || c == '\U{A0}' || c == '\U{1680}' || ('\U{2000}' <= c <= '\U{200A}')
    || c == '\U{2028}' || c == '\U{2029}' || c == '\U{202F}' || c == '\U{205F}'
    || c == '\U{3000}' || c == '\U{FEFF}'
  }

  predicate AllSpace(s: string) { forall i :: 0 <= i < |s| ==> IsJsSpace(s[i]) }

  function TrimStart(s: string): (r: string)
    ensures |r| <= |s| && r == s[|s| - |r|..]
    ensures AllSpace(s[..|s| - |r|])
    ensures |r| > 0 ==> !IsJsSpace(r[0])
  {
    if |s| > 0 && IsJsSpace(s[0]) then TrimStart(s[1..]) else s
  }

  function TrimEnd(s: string): (r: string)
    ensures |r| <= |s| && r == s[..|r|]
    ensures AllSpace(s[|r|..])
    ensures |r| > 0 ==> !IsJsSpace(r[|r| - 1])
  {
    if |s| > 0 && IsJsSpace(s[|s| - 1]) then TrimEnd(s[..|s| - 1]) else s
  }

  /** The number of white-space characters `trim` removes from the front of `s`. */
  function TrimOffset(s: string): (lo: nat)
    ensures lo <= |s|
  {
    |s| - |TrimStart(s)|
  }

  /**
   * `s.trim()`: the run of `s` left once the white space at both ends is
   * removed; it neither starts nor ends with white space.
   */
  function Trim(s: string): (r: string)
    ensures |r| == 0 || (!IsJsSpace(r[0]) && !IsJsSpace(r[|r| - 1]))
    ensures TrimOffset(s) + |r| <= |s| && r == s[TrimOffset(s)..TrimOffset(s) + |r|]
    ensures AllSpace(s[..TrimOffset(s)]) && AllSpace(s[TrimOffset(s) + |r|..])
  {
    var t := TrimStart(s);
    var r := TrimEnd(t);
    SliceOfSuffix(s, t, r);
    r
  }

  /** A prefix `r` of a suffix `t` of `s` is a slice of `s`, and what follows it in `t` is what follows it in `s`. */
  lemma SliceOfSuffix(s: string, t: string, r: string)
    requires |t| <= |s| && t == s[|s| - |t|..]
    requires |r| <= |t| && r == t[..|r|]
    ensures |s| - |t| + |r| <= |s| && r == s[|s| - |t|..|s| - |t| + |r|]
    ensures s[|s| - |t| + |r|..] == t[|r|..]
    ensures |r| > 0 ==> r[0] == t[0]
  {
  }

  lemma TrimIdempotent(s: string)
    ensures Trim(Trim(s)) == Trim(s)
  {
    var r := Trim(s);
    if |r| > 0 {
      assert TrimStart(r) == r;
      assert TrimEnd(r) == r;
    }
  }
}
