/**
 * Character-level building blocks shared by the number normalizers and the
 * CSV renderer: digits and their values, decimal rendering of naturals,
 * single-character replacement, filtering, joining and splitting.
 */
module Strings {

  predicate IsDigit(c: char) {
    '0' <= c <= '9'
  }

  predicate AllDigits(s: string) {
    forall i :: 0 <= i < |s| ==> IsDigit(s[i])
  }

  function DigitValue(c: char): (d: nat)
    requires IsDigit(c)
    ensures d < 10
  {
    c as int - '0' as int
  }

  function DigitChar(d: nat): (c: char)
    requires d < 10
    ensures IsDigit(c) && DigitValue(c) == d
  {
    ('0' as int + d) as char
  }

  /** The value of a digit string read most significant digit first. */
  function DigitsValue(s: string): nat
    requires AllDigits(s)
  {
    if |s| == 0 then 0 else DigitsValue(s[..|s| - 1]) * 10 + DigitValue(s[|s| - 1])
  }

  lemma DigitsValueSnoc(s: string, c: char)
    requires AllDigits(s) && IsDigit(c)
    ensures AllDigits(s + [c])
    ensures DigitsValue(s + [c]) == DigitsValue(s) * 10 + DigitValue(c)
  {
    assert (s + [c])[..|s + [c]| - 1] == s;
  }

  /** Leading zeros do not change the value of a digit string. */
  lemma {:induction false} LeadingZeroValue(s: string)
    requires AllDigits(s)
    ensures AllDigits("0" + s)
    ensures DigitsValue("0" + s) == DigitsValue(s)
  {
    if |s| > 0 {
      var init := s[..|s| - 1];
      LeadingZeroValue(init);
      assert "0" + s == ("0" + init) + [s[|s| - 1]];
      DigitsValueSnoc("0" + init, s[|s| - 1]);
    }
  }

  /** Decimal rendering of a natural number, without leading zeros (Swift's `description`). */
  function NatToDigits(n: nat): (s: string)
    ensures |s| >= 1 && AllDigits(s)
    ensures |s| > 1 ==> s[0] != '0'
  {
    if n < 10 then [DigitChar(n)] else NatToDigits(n / 10) + [DigitChar(n % 10)]
  }

  /** Reading back a rendered natural gives the natural. */
  lemma {:induction false} NatToDigitsValue(n: nat)
    ensures DigitsValue(NatToDigits(n)) == n
  {
    if n >= 10 {
      NatToDigitsValue(n / 10);
      DigitsValueSnoc(NatToDigits(n / 10), DigitChar(n % 10));
    }
  }

  /** `count` zero characters. */
  function Zeros(count: nat): (s: string)
    ensures |s| == count && AllDigits(s)
    ensures DigitsValue(s) == 0
  {
    if count == 0 then "" else
      var z := Zeros(count - 1);
      LeadingZeroValue(z);
      "0" + z
  }

  lemma {:induction false} ZerosPrefixValue(count: nat, s: string)
    requires AllDigits(s)
    ensures AllDigits(Zeros(count) + s)
    ensures DigitsValue(Zeros(count) + s) == DigitsValue(s)
  {
    if count > 0 {
      ZerosPrefixValue(count - 1, s);
      assert Zeros(count) == "0" + Zeros(count - 1);
      var t := Zeros(count - 1) + s;
      assert Zeros(count) + s == "0" + t;
      LeadingZeroValue(t);
      assert DigitsValue("0" + t) == DigitsValue(t);
    } else {
      assert Zeros(count) + s == s;
    }
  }

  /** The literal starts with a minus sign. */
  predicate HasSign(t: string) {
    |t| > 0 && t[0] == '-'
  }

  /** The literal without its optional leading minus. */
  function Unsigned(t: string): string {
    if HasSign(t) then t[1..] else t
  }

  /** Keeps the characters that satisfy `keep`, in order (Swift's `filter`). */
  function Filter(s: string, keep: char -> bool): (r: string)
    ensures |r| <= |s|
    ensures forall i :: 0 <= i < |r| ==> keep(r[i])
  {
    if |s| == 0 then "" else (if keep(s[0]) then [s[0]] else "") + Filter(s[1..], keep)
  }

  lemma {:induction false} FilterConcat(a: string, b: string, keep: char -> bool)
    ensures Filter(a + b, keep) == Filter(a, keep) + Filter(b, keep)
  {
    if |a| > 0 {
      assert (a + b)[1..] == a[1..] + b;
      FilterConcat(a[1..], b, keep);
    } else {
      assert a + b == b;
    }
  }

  /** Filtering a string whose every character is kept changes nothing. */
  lemma {:induction false} FilterKeepsAll(s: string, keep: char -> bool)
    requires forall i :: 0 <= i < |s| ==> keep(s[i])
    ensures Filter(s, keep) == s
  {
    if |s| > 0 {
      FilterKeepsAll(s[1..], keep);
    }
  }

  /** `a` can be obtained from `b` by deleting characters. */
  predicate IsSubsequence(a: string, b: string)
    decreases |b|
  {
    if |a| == 0 then true
    else if |b| == 0 then false
    else if a[0] == b[0] then IsSubsequence(a[1..], b[1..])
    else IsSubsequence(a, b[1..])
  }

  lemma {:induction false} SubsequenceOfTail(a: string, b: string)
    requires |b| > 0 && IsSubsequence(a, b[1..])
    ensures IsSubsequence(a, b)
    decreases |b|, 0
  {
    if |a| > 0 && a[0] == b[0] {
      SubsequenceDropHead(a, b[1..]);
    }
  }

  lemma {:induction false} SubsequenceDropHead(a: string, c: string)
    requires |a| > 0 && IsSubsequence(a, c)
    ensures IsSubsequence(a[1..], c)
    decreases |c|, 1
  {
    if a[0] == c[0] {
      SubsequenceOfTail(a[1..], c);
    } else {
      SubsequenceDropHead(a, c[1..]);
      SubsequenceOfTail(a[1..], c);
    }
  }

  lemma {:induction false} FilterIsSubsequence(s: string, keep: char -> bool)
    ensures IsSubsequence(Filter(s, keep), s)
  {
    if |s| > 0 {
      FilterIsSubsequence(s[1..], keep);
      if keep(s[0]) {
        assert Filter(s, keep) == [s[0]] + Filter(s[1..], keep);
        assert Filter(s, keep)[1..] == Filter(s[1..], keep);
      } else {
        assert Filter(s, keep) == Filter(s[1..], keep);
        SubsequenceOfTail(Filter(s, keep), s);
      }
    }
  }

  /** Replaces every occurrence of the character `pattern` by `replacement`. */
  function ReplaceAll(s: string, pattern: char, replacement: string): (r: string)
    ensures |replacement| <= 1 ==> |r| <= |s|
    ensures forall c :: c in r ==> c in replacement || (c != pattern && c in s)
  {
    if |s| == 0 then "" else (if s[0] == pattern then replacement else [s[0]]) + ReplaceAll(s[1..], pattern, replacement)
  }

  lemma {:induction false} ReplaceAllConcat(a: string, b: string, pattern: char, replacement: string)
    ensures ReplaceAll(a + b, pattern, replacement) == ReplaceAll(a, pattern, replacement) + ReplaceAll(b, pattern, replacement)
  {
    if |a| > 0 {
      assert (a + b)[1..] == a[1..] + b;
      ReplaceAllConcat(a[1..], b, pattern, replacement);
    } else {
      assert a + b == b;
    }
  }

  lemma ReplaceAllSingle(c: char, pattern: char, replacement: string)
    ensures ReplaceAll([c], pattern, replacement) == if c == pattern then replacement else [c]
  {
    assert [c][1..] == "";
  }

  /** Number of occurrences of `c` in `s`. */
  function Occurrences(s: string, c: char): nat
  {
    if |s| == 0 then 0 else (if s[0] == c then 1 else 0) + Occurrences(s[1..], c)
  }

  lemma {:induction false} OccurrencesZero(s: string, c: char)
    ensures Occurrences(s, c) == 0 <==> forall i :: 0 <= i < |s| ==> s[i] != c
  {
    if |s| > 0 {
      OccurrencesZero(s[1..], c);
      assert forall i :: 1 <= i < |s| ==> s[i] == s[1..][i - 1];
    }
  }

  /** Joins the parts with `separator` between consecutive parts (Swift's `joined(separator:)`). */
  function Join(parts: seq<string>, separator: char): string
  {
    if |parts| == 0 then ""
    else if |parts| == 1 then parts[0]
    else parts[0] + [separator] + Join(parts[1..], separator)
  }

  lemma {:induction false} JoinOccurrences(parts: seq<string>, separator: char, c: char)
    requires separator != c
    requires forall i :: 0 <= i < |parts| ==> Occurrences(parts[i], c) == 0
    ensures Occurrences(Join(parts, separator), c) == 0
  {
    if |parts| > 1 {
      JoinOccurrences(parts[1..], separator, c);
      OccurrencesConcat(parts[0] + [separator], Join(parts[1..], separator), c);
      OccurrencesConcat(parts[0], [separator], c);
      assert Occurrences([separator], c) == 0;
    }
  }

  /** Splits at every occurrence of `separator`; the inverse of `Join`. */
  function Split(s: string, separator: char): (parts: seq<string>)
    ensures |parts| == Occurrences(s, separator) + 1
    ensures forall i :: 0 <= i < |parts| ==> Occurrences(parts[i], separator) == 0
  {
    if |s| == 0 then [""]
    else
      var rest := Split(s[1..], separator);
      if s[0] == separator then [""] + rest
      else [[s[0]] + rest[0]] + rest[1..]
  }

  lemma {:induction false} SplitWithoutSeparator(s: string, separator: char)
    requires Occurrences(s, separator) == 0
    ensures Split(s, separator) == [s]
  {
    if |s| > 0 {
      SplitWithoutSeparator(s[1..], separator);
      assert [s[0]] + s[1..] == s;
    }
  }

  lemma {:induction false} SplitAfterPart(part: string, separator: char, rest: string)
    requires Occurrences(part, separator) == 0
    ensures Split(part + [separator] + rest, separator) == [part] + Split(rest, separator)
  {
    if |part| == 0 {
      assert part + [separator] + rest == [separator] + rest;
      assert ([separator] + rest)[1..] == rest;
    } else {
      var s := part + [separator] + rest;
      assert s[1..] == part[1..] + [separator] + rest;
      SplitAfterPart(part[1..], separator, rest);
      assert [part[0]] + part[1..] == part;
    }
  }

  /** Splitting a join gives back the parts, provided no part contains the separator. */
  lemma {:induction false} SplitJoin(parts: seq<string>, separator: char)
    requires |parts| >= 1
    requires forall i :: 0 <= i < |parts| ==> Occurrences(parts[i], separator) == 0
    ensures Split(Join(parts, separator), separator) == parts
  {
    if |parts| == 1 {
      SplitWithoutSeparator(parts[0], separator);
    } else {
      SplitJoin(parts[1..], separator);
      SplitAfterPart(parts[0], separator, Join(parts[1..], separator));
    }
  }

  lemma {:induction false} OccurrencesConcat(a: string, b: string, c: char)
    ensures Occurrences(a + b, c) == Occurrences(a, c) + Occurrences(b, c)
  {
    if |a| > 0 {
      assert (a + b)[1..] == a[1..] + b;
      OccurrencesConcat(a[1..], b, c);
    } else {
      assert a + b == b;
    }
  }

  lemma {:induction false} DigitsHaveNoOccurrence(s: string, c: char)
    requires AllDigits(s) && !IsDigit(c)
    ensures Occurrences(s, c) == 0
  {
    if |s| > 0 {
      DigitsHaveNoOccurrence(s[1..], c);
    }
  }
}
