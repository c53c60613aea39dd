/**
 * The earlier integer normalizer (`OCRView.Coordinator.parseNumber`): only
 * newlines and lower-case `o` are substituted, only digits and `-` survive
 * the filter, and the rest is parsed as a 64-bit `Int`.
 */
module LegacyNormalizer {
  import opened Wrappers
  import opened Strings

  const IntMin: int := -0x8000_0000_0000_0000
  const IntMax: int := 0x7FFF_FFFF_FFFF_FFFF

  predicate InIntRange(v: int) {
    IntMin <= v <= IntMax
  }

  /** The replacement chain as written: newlines removed, then `o` replaced by `0`. Neither survives. */
  function SubstitutionChain(text: string): (r: string)
    ensures |r| <= |text|
    ensures forall c :: c in r ==> c != '\n' && c != 'o'
  {
    ReplaceAll(ReplaceAll(text, '\n', ""), 'o', "0")
  }

  /** The filter's accepted list: the ten digits and `-`. */
  predicate Accepted(c: char) {
    IsDigit(c) || c == '-'
  }

  /** Substitute, then keep only digits and `-`. */
  function Clean(text: string): (r: string)
    ensures forall i :: 0 <= i < |r| ==> Accepted(r[i])
  {
    Filter(SubstitutionChain(text), Accepted)
  }

  /**
   * Digit-by-digit accumulation with an overflow check after every digit, as
   * Swift's integer parser does; a negative literal accumulates downwards so
   * that the most negative `Int` is reachable.
   */
  function ScanInt(rest: string, acc: int, negative: bool): Option<int>
    decreases |rest|
  {
    if |rest| == 0 then Some(acc)
    else if !IsDigit(rest[0]) then None
    else
      var next := if negative then acc * 10 - DigitValue(rest[0]) else acc * 10 + DigitValue(rest[0]);
      if !InIntRange(next) then None else ScanInt(rest[1..], next, negative)
  }

  /** An optional leading `-` followed by at least one digit and nothing else. */
  predicate IsIntLiteral(t: string) {
    |Unsigned(t)| >= 1 && AllDigits(Unsigned(t))
  }

  function LiteralValue(t: string): int
    requires IsIntLiteral(t)
  {
    if HasSign(t) then -(DigitsValue(Unsigned(t)) as int) else DigitsValue(Unsigned(t))
  }

  /** `Int(String)` on a cleaned string: succeeds exactly on integer literals whose value fits in 64 bits. */
  function ParseInt(t: string): (r: Option<int>)
    ensures r.Some? <==> IsIntLiteral(t) && InIntRange(LiteralValue(t))
    ensures r.Some? ==> r.value == LiteralValue(t)
  {
    var body := Unsigned(t);
    ScanIntFrom("", body, HasSign(t));
    assert "" + body == body;
    if |body| == 0 then None else ScanInt(body, 0, HasSign(t))
  }

  /**
   * `Coordinator.parseNumber` of the integer scanner: a number exactly when
   * the cleaned text is an integer literal within the 64-bit range.
   */
  function ParseNumber(text: string): (r: Option<int>)
    ensures r.Some? <==> IsIntLiteral(Clean(text)) && InIntRange(LiteralValue(Clean(text)))
    ensures r.Some? ==> r.value == LiteralValue(Clean(text))
  {
    ParseInt(Clean(text))
  }

  function Signed(v: nat, negative: bool): int {
    if negative then -(v as int) else v
  }

  lemma {:induction false} DigitsValuePrefix(p: string, rest: string)
    requires AllDigits(p) && AllDigits(rest)
    ensures AllDigits(p + rest)
    ensures DigitsValue(p) <= DigitsValue(p + rest)
    decreases |rest|
  {
    if |rest| == 0 {
      assert p + rest == p;
    } else {
      var init := rest[..|rest| - 1];
      assert p + rest == (p + init) + [rest[|rest| - 1]];
      DigitsValuePrefix(p, init);
      DigitsValueSnoc(p + init, rest[|rest| - 1]);
    }
  }

  /**
   * After reading the digits `p` without overflow, the scanner decides the
   * whole literal `p + rest`: it succeeds exactly when the rest is digits and
   * the final value fits, because the magnitude only grows.
   */
  lemma {:induction false} ScanIntFrom(p: string, rest: string, negative: bool)
    requires AllDigits(p) && InIntRange(Signed(DigitsValue(p), negative))
    ensures var r := ScanInt(rest, Signed(DigitsValue(p), negative), negative);
      && (r.Some? <==> AllDigits(rest) && InIntRange(Signed(DigitsValue(p + rest), negative)))
      && (r.Some? ==> AllDigits(p + rest) && r.value == Signed(DigitsValue(p + rest), negative))
    decreases |rest|
  {
    if |rest| == 0 {
      assert p + rest == p;
    } else if !IsDigit(rest[0]) {
      assert !AllDigits(rest);
    } else {
      var c := rest[0];
      var q := p + [c];
      DigitsValueSnoc(p, c);
      assert p + rest == q + rest[1..];
      if InIntRange(Signed(DigitsValue(q), negative)) {
        ScanIntFrom(q, rest[1..], negative);
        assert AllDigits(rest) <==> AllDigits(rest[1..]) by {
          assert forall i :: 1 <= i < |rest| ==> rest[i] == rest[1..][i - 1];
        }
      } else {
        if AllDigits(rest) {
          assert AllDigits(rest[1..]) by {
            assert forall i :: 0 <= i < |rest| - 1 ==> rest[1..][i] == rest[i + 1];
          }
          DigitsValuePrefix(q, rest[1..]);
        }
      }
    }
  }

  /** `"\(number)"`: the decimal description of an integer. */
  function IntToString(v: int): string {
    (if v < 0 then "-" else "") + NatToDigits(if v < 0 then -v else v)
  }

  /** Parsing the description of any 64-bit integer gives back that integer. */
  lemma ParseIntToString(v: int)
    requires InIntRange(v)
    ensures ParseInt(IntToString(v)) == Some(v)
  {
    var m: nat := if v < 0 then -v else v;
    var digits := NatToDigits(m);
    NatToDigitsValue(m);
    var t := IntToString(v);
    assert Unsigned(t) == digits && (HasSign(t) <==> v < 0) by {
      if v < 0 {
        assert t == "-" + digits;
        assert t[1..] == digits;
      } else {
        assert t == digits;
      }
    }
    assert IsIntLiteral(t);
    assert LiteralValue(t) == v;
  }

  /** Re-normalizing the description of a parsed number gives the same number. */
  lemma NormalizeIntToString(v: int)
    requires InIntRange(v)
    ensures ParseNumber(IntToString(v)) == Some(v)
  {
    var t := IntToString(v);
    assert forall i :: 0 <= i < |t| ==> Accepted(t[i]) && t[i] != '\n' && t[i] != 'o' by {
      var m: nat := if v < 0 then -v else v;
      forall i | 0 <= i < |t|
        ensures Accepted(t[i]) && t[i] != '\n' && t[i] != 'o'
      {
        if v < 0 && i > 0 {
          assert t[i] == NatToDigits(m)[i - 1];
        } else if v >= 0 {
          assert t[i] == NatToDigits(m)[i];
        }
      }
    }
    ReplaceNothing(t, '\n', "");
    ReplaceNothing(t, 'o', "0");
    FilterKeepsAll(t, Accepted);
    ParseIntToString(v);
  }

  lemma {:induction false} ReplaceNothing(s: string, pattern: char, replacement: string)
    requires forall i :: 0 <= i < |s| ==> s[i] != pattern
    ensures ReplaceAll(s, pattern, replacement) == s
  {
    if |s| > 0 {
      ReplaceNothing(s[1..], pattern, replacement);
      assert [s[0]] + s[1..] == s;
    }
  }

  /** The cleaned text keeps characters of the substituted text in their order, and cleaning it again changes nothing. */
  lemma CleanIsSubsequence(text: string)
    ensures IsSubsequence(Clean(text), SubstitutionChain(text))
    ensures Clean(Clean(text)) == Clean(text)
  {
    FilterIsSubsequence(SubstitutionChain(text), Accepted);
    var c := Clean(text);
    ReplaceNothing(c, '\n', "");
    ReplaceNothing(c, 'o', "0");
    FilterKeepsAll(c, Accepted);
  }

  /** What one raw character reads as: digits and `-` stand for themselves, `o` for zero, anything else for nothing. */
  function Reading(c: char): string {
    if Accepted(c) then [c] else if c == 'o' then "0" else ""
  }

  function ReadAll(text: string): string {
    if |text| == 0 then "" else Reading(text[0]) + ReadAll(text[1..])
  }

  /**
   * The two replacements followed by the filter read every character by
   * the table: each `o` becomes a zero, each newline and every other
   * character outside digits and `-` (points, commas, upper-case `O`)
   * disappears.
   */
  lemma {:induction false} CleanReadsEachChar(text: string)
    ensures Clean(text) == ReadAll(text)
  {
    if |text| > 0 {
      var c, rest := text[0], text[1..];
      assert text == [c] + rest;
      ReplaceAllConcat([c], rest, '\n', "");
      ReplaceAllSingle(c, '\n', "");
      var a1, b1 := ReplaceAll([c], '\n', ""), ReplaceAll(rest, '\n', "");
      ReplaceAllConcat(a1, b1, 'o', "0");
      var a2, b2 := ReplaceAll(a1, 'o', "0"), ReplaceAll(b1, 'o', "0");
      if c == '\n' {
        assert a2 == "";
      } else {
        ReplaceAllSingle(c, 'o', "0");
        if c == 'o' {
          assert a2 == "0" && a2[1..] == "";
        } else {
          assert a2 == [c] && a2[1..] == "";
        }
      }
      assert Filter(a2, Accepted) == Reading(c);
      FilterConcat(a2, b2, Accepted);
      CleanReadsEachChar(rest);
    }
  }

  /** Points and commas are dropped, not read as separators; a lower-case `o` is a zero. */
  lemma ExamplePointDropped(text: string)
    requires text == "3.5"
    ensures ParseNumber(text) == Some(35)
  {
    CleanPointDropped();
    var cleaned := Clean(text);
    assert cleaned[1..] == "5";
    assert ScanInt("5", 3, false) == Some(35);
  }

  lemma CleanPointDropped()
    ensures Clean("3.5") == "35"
  {
    assert ReplaceAll("3.5", '\n', "") == "3.5";
    assert ReplaceAll("3.5", 'o', "0") == "3.5";
    assert Filter("3.5", Accepted) == "35";
  }

  lemma ExampleLetterO(text: string)
    requires text == "-1o"
    ensures ParseNumber(text) == Some(-10)
  {
    CleanLetterO();
    var cleaned := Clean(text);
    assert HasSign(cleaned) && Unsigned(cleaned) == "10";
    assert ScanInt("0", -1, true) == Some(-10);
  }

  lemma CleanLetterO()
    ensures Clean("-1o") == "-10"
  {
    assert ReplaceAll("-1o", '\n', "") == "-1o";
    assert ReplaceAll("-1o", 'o', "0") == "-10";
  }

  /** Nothing left, or a lone sign: no number. */
  lemma ExampleRejected()
    ensures ParseNumber("") == None && ParseNumber("-") == None
  {
  }

  /** A minus inside the digits is kept by the filter and then rejected by the parser. */
  lemma ExampleInnerMinus(text: string)
    requires text == "1-2"
    ensures ParseNumber(text) == None
  {
    CleanInnerMinus();
    var cleaned := Clean(text);
    assert !HasSign(cleaned) && cleaned[1..] == "-2";
    assert ScanInt("-2", 1, false) == None;
  }

  lemma CleanInnerMinus()
    ensures Clean("1-2") == "1-2"
  {
    assert ReplaceAll("1-2", '\n', "") == "1-2";
    assert ReplaceAll("1-2", 'o', "0") == "1-2";
  }

  /** One past the largest `Int` does not parse; the smallest does. */
  lemma ExampleRange()
    ensures ParseInt(IntToString(IntMax + 1)) == None
    ensures ParseInt(IntToString(IntMin)) == Some(IntMin)
  {
    NatToDigitsValue(IntMax + 1);
    assert Unsigned(IntToString(IntMax + 1)) == NatToDigits(IntMax + 1);
    ParseIntToString(IntMin);
  }

  // ---------------------------------------------------------------------
  // The coordinator's delegate callback.

  /** `capturedStrings`: the first string, if any and if it parses, replaces the text by the number's description. */
  function CapturedStrings(scannedText: string, strings: seq<string>): (r: string)
    ensures |strings| == 0 ==> r == scannedText
    ensures |strings| > 0 && ParseNumber(strings[0]).None? ==> r == scannedText
    ensures |strings| > 0 && ParseNumber(strings[0]).Some? ==>
      ParseInt(r) == ParseNumber(strings[0])
  {
    if |strings| == 0 then scannedText
    else match ParseNumber(strings[0])
      case None => scannedText
      case Some(v) => ParseIntToString(v); IntToString(v)
  }
}
