/**
 * Exact decimal numbers and the decimal-literal recognizer that stands in for
 * Swift's `Double(String)` on the strings the normalizer produces (only
 * digits, `-` and `.` survive its filter, so exponents, hexadecimal forms,
 * `inf` and `nan` never reach the parser).
 */
module Decimals {
  import opened Wrappers
  import opened Strings

  /** The value (-1)^negative * mantissa / 10^scale, kept exactly instead of rounded to a Double. */
  datatype Decimal = Decimal(negative: bool, mantissa: nat, scale: nat)

  function Pow10(n: nat): (p: nat)
    ensures p >= 1
  {
    if n == 0 then 1 else 10 * Pow10(n - 1)
  }

  function ToReal(d: Decimal): real
  {
    (if d.negative then -1.0 else 1.0) * (d.mantissa as real) / (Pow10(d.scale) as real)
  }

  /** Double comparison with 0.0, under which -0.0 and 0.000 are zero as well. */
  predicate IsZero(d: Decimal) {
    d.mantissa == 0
  }

  predicate IsLiteralChar(c: char) {
    IsDigit(c) || c == '.'
  }

  function DigitsOf(s: string): (r: string)
    ensures AllDigits(r)
  {
    Filter(s, IsDigit)
  }

  /** The characters after the first point, or nothing when there is no point. */
  function FractionPart(s: string): string {
    if |s| == 0 then "" else if s[0] == '.' then s[1..] else FractionPart(s[1..])
  }

  /** Digits with at most one point among them and at least one digit. */
  predicate IsUnsignedLiteral(body: string) {
    && (forall i :: 0 <= i < |body| ==> IsLiteralChar(body[i]))
    && Occurrences(body, '.') <= 1
    && |DigitsOf(body)| >= 1
  }

  /** What the parser accepts: an optional leading `-`, then an unsigned literal. */
  predicate IsDecimalLiteral(t: string) {
    IsUnsignedLiteral(Unsigned(t))
  }

  /** The exact value a literal denotes: all its digits form the mantissa, the digits after the point the scale. */
  function LiteralValue(t: string): Decimal
    requires IsDecimalLiteral(t)
  {
    var body := Unsigned(t);
    Decimal(HasSign(t), DigitsValue(DigitsOf(body)), |DigitsOf(FractionPart(body))|)
  }

  /**
   * Left-to-right scanner over an unsigned literal: accumulates the mantissa,
   * counts the digits after the point and rejects any other character or a
   * second point. Returns the mantissa and the scale.
   */
  function Scan(rest: string, mantissa: nat, seenPoint: bool, scale: nat, seenDigit: bool): Option<(nat, nat)>
    decreases |rest|
  {
    if |rest| == 0 then (if seenDigit then Some((mantissa, scale)) else None)
    else if IsDigit(rest[0]) then
      Scan(rest[1..], mantissa * 10 + DigitValue(rest[0]), seenPoint, if seenPoint then scale + 1 else scale, true)
    else if rest[0] == '.' && !seenPoint then
      Scan(rest[1..], mantissa, true, scale, seenDigit)
    else None
  }

  /** Parses a numeric literal; succeeds exactly on decimal literals and yields the value they denote. */
  function ParseDecimal(t: string): (r: Option<Decimal>)
    ensures r.Some? <==> IsDecimalLiteral(t)
    ensures r.Some? ==> r.value == LiteralValue(t)
  {
    var body := Unsigned(t);
    ScanFrom("", body);
    assert "" + body == body;
    match Scan(body, 0, false, 0, false)
    case None => None
    case Some(mk) => Some(Decimal(HasSign(t), mk.0, mk.1))
  }

  lemma DigitsOfSnoc(p: string, c: char)
    ensures DigitsOf(p + [c]) == DigitsOf(p) + (if IsDigit(c) then [c] else "")
  {
    FilterConcat(p, [c], IsDigit);
    assert [c][1..] == "";
  }

  lemma {:induction false} FractionPartSnoc(p: string, c: char)
    ensures FractionPart(p + [c]) == if Occurrences(p, '.') > 0 then FractionPart(p) + [c] else ""
  {
    if |p| > 0 {
      assert (p + [c])[1..] == p[1..] + [c];
      if p[0] != '.' {
        FractionPartSnoc(p[1..], c);
      }
    } else {
      assert p + [c] == [c];
    }
  }

  lemma {:induction false} FractionPartWithoutPoint(p: string)
    requires Occurrences(p, '.') == 0
    ensures FractionPart(p) == ""
  {
    if |p| > 0 {
      FractionPartWithoutPoint(p[1..]);
    }
  }

  /** The scanner state after reading `p`: mantissa so far, point seen, scale so far, digit seen. */
  predicate ValidPrefix(p: string) {
    (forall i :: 0 <= i < |p| ==> IsLiteralChar(p[i])) && Occurrences(p, '.') <= 1
  }

  /** Reading one more accepted character updates the scanner state the way `Scan` does. */
  lemma ScanStep(p: string, c: char)
    requires ValidPrefix(p)
    requires IsDigit(c) || (c == '.' && Occurrences(p, '.') == 0)
    ensures ValidPrefix(p + [c])
    ensures IsDigit(c) ==> DigitsValue(DigitsOf(p + [c])) == DigitsValue(DigitsOf(p)) * 10 + DigitValue(c)
    ensures !IsDigit(c) ==> DigitsValue(DigitsOf(p + [c])) == DigitsValue(DigitsOf(p))
    ensures (Occurrences(p + [c], '.') == 1) == (c == '.' || Occurrences(p, '.') == 1)
    ensures |DigitsOf(FractionPart(p + [c]))| ==
      if IsDigit(c) && Occurrences(p, '.') == 1 then |DigitsOf(FractionPart(p))| + 1 else |DigitsOf(FractionPart(p))|
    ensures (|DigitsOf(p + [c])| > 0) == (IsDigit(c) || |DigitsOf(p)| > 0)
  {
    var q := p + [c];
    OccurrencesConcat(p, [c], '.');
    assert Occurrences([c], '.') == (if c == '.' then 1 else 0);
    assert forall i :: 0 <= i < |q| ==> IsLiteralChar(q[i]) by {
      forall i | 0 <= i < |q|
        ensures IsLiteralChar(q[i])
      {
        if i < |p| {
          assert q[i] == p[i];
        }
      }
    }
    DigitsOfSnoc(p, c);
    FractionPartSnoc(p, c);
    if IsDigit(c) {
      DigitsValueSnoc(DigitsOf(p), c);
      if Occurrences(p, '.') > 0 {
        DigitsOfSnoc(FractionPart(p), c);
      } else {
        FractionPartWithoutPoint(p);
      }
    } else {
      FractionPartWithoutPoint(p);
      assert DigitsOf(q) == DigitsOf(p);
    }
  }

  /** A character the scanner rejects makes the whole literal invalid. */
  lemma ScanReject(p: string, rest: string)
    requires ValidPrefix(p)
    requires |rest| > 0 && !(IsDigit(rest[0]) || (rest[0] == '.' && Occurrences(p, '.') == 0))
    ensures !IsUnsignedLiteral(p + rest)
  {
    var c := rest[0];
    var s := p + rest;
    assert s[|p|] == c;
    if c == '.' {
      OccurrencesConcat(p, rest, '.');
      assert rest == [c] + rest[1..];
      OccurrencesConcat([c], rest[1..], '.');
    }
  }

  /** The scanner, started on the state reached after reading the prefix `p`, decides the whole literal `p + rest`. */
  lemma {:induction false} ScanFrom(p: string, rest: string)
    requires ValidPrefix(p)
    ensures
      var r := Scan(rest, DigitsValue(DigitsOf(p)), Occurrences(p, '.') == 1, |DigitsOf(FractionPart(p))|, |DigitsOf(p)| > 0);
      && (r.Some? <==> IsUnsignedLiteral(p + rest))
      && (r.Some? ==> r.value == (DigitsValue(DigitsOf(p + rest)), |DigitsOf(FractionPart(p + rest))|))
    decreases |rest|
  {
    if |rest| == 0 {
      assert p + rest == p;
    } else {
      var c := rest[0];
      if IsDigit(c) || (c == '.' && Occurrences(p, '.') == 0) {
        assert p + rest == (p + [c]) + rest[1..];
        ScanStep(p, c);
        ScanFrom(p + [c], rest[1..]);
      } else {
        ScanReject(p, rest);
      }
    }
  }

  /**
   * Canonical rendering: optional `-`, the mantissa padded with leading
   * zeros to more than `scale` digits, and a point before the last `scale`
   * digits when the scale is positive.
   */
  function Show(d: Decimal): string {
    var padded := PaddedDigits(d);
    var split := |padded| - d.scale;
    (if d.negative then "-" else "")
      + (if d.scale == 0 then padded else padded[..split] + "." + padded[split..])
  }

  lemma {:induction false} FractionAfterPoint(a: string, b: string)
    requires Occurrences(a, '.') == 0
    ensures FractionPart(a + "." + b) == b
  {
    if |a| == 0 {
      assert a + "." + b == "." + b;
    } else {
      assert (a + "." + b)[1..] == a[1..] + "." + b;
      FractionAfterPoint(a[1..], b);
    }
  }

  /** A digit string with no point is a literal with no fraction digits. */
  lemma WholeLiteral(a: string)
    requires |a| >= 1 && AllDigits(a)
    ensures IsUnsignedLiteral(a)
    ensures DigitsOf(a) == a && DigitsOf(FractionPart(a)) == ""
  {
    FilterKeepsAll(a, IsDigit);
    DigitsHaveNoOccurrence(a, '.');
    FractionPartWithoutPoint(a);
  }

  lemma PointedDigits(a: string, b: string)
    requires AllDigits(a) && AllDigits(b)
    ensures DigitsOf(a + "." + b) == a + b
  {
    FilterConcat(a + ".", b, IsDigit);
    FilterConcat(a, ".", IsDigit);
    FilterKeepsAll(a, IsDigit);
    FilterKeepsAll(b, IsDigit);
    assert Filter(".", IsDigit) == "";
  }

  lemma PointedOccurrences(a: string, b: string)
    requires AllDigits(a) && AllDigits(b)
    ensures Occurrences(a + "." + b, '.') == 1
  {
    DigitsHaveNoOccurrence(a, '.');
    DigitsHaveNoOccurrence(b, '.');
    OccurrencesConcat(a + ".", b, '.');
    OccurrencesConcat(a, ".", '.');
    assert Occurrences(".", '.') == 1;
  }

  lemma PointedChars(a: string, b: string)
    requires AllDigits(a) && AllDigits(b)
    ensures forall i :: 0 <= i < |a + "." + b| ==> IsLiteralChar((a + "." + b)[i])
  {
    var body := a + "." + b;
    forall i | 0 <= i < |body|
      ensures IsLiteralChar(body[i])
    {
      if i < |a| {
        assert body[i] == a[i];
      } else if i > |a| {
        assert body[i] == b[i - |a| - 1];
      }
    }
  }

  /** Digits, a point and digits form a literal whose fraction digits are the ones after the point. */
  lemma PointedLiteral(a: string, b: string)
    requires |a| >= 1 && AllDigits(a) && AllDigits(b)
    ensures IsUnsignedLiteral(a + "." + b)
    ensures DigitsOf(a + "." + b) == a + b && DigitsOf(FractionPart(a + "." + b)) == b
  {
    PointedDigits(a, b);
    PointedOccurrences(a, b);
    PointedChars(a, b);
    DigitsHaveNoOccurrence(a, '.');
    FractionAfterPoint(a, b);
    FilterKeepsAll(b, IsDigit);
  }

  /** The digits `Show` renders: the mantissa padded with leading zeros to more than `scale` digits. */
  function PaddedDigits(d: Decimal): (padded: string)
    ensures AllDigits(padded) && |padded| > d.scale
    ensures DigitsValue(padded) == d.mantissa
  {
    var digits := NatToDigits(d.mantissa);
    var zeros := Zeros(if |digits| <= d.scale then d.scale + 1 - |digits| else 0);
    ZerosPrefixValue(|zeros|, digits);
    NatToDigitsValue(d.mantissa);
    zeros + digits
  }

  lemma ShowUnsigned(d: Decimal)
    ensures HasSign(Show(d)) == d.negative
    ensures Unsigned(Show(d)) ==
      var padded := PaddedDigits(d);
      var split := |padded| - d.scale;
      if d.scale == 0 then padded else padded[..split] + "." + padded[split..]
  {
    var padded := PaddedDigits(d);
    var split := |padded| - d.scale;
    var body := if d.scale == 0 then padded else padded[..split] + "." + padded[split..];
    assert Show(d) == (if d.negative then "-" else "") + body;
    assert body[0] == padded[0];
    if d.negative {
      assert Show(d) == "-" + body;
      assert Show(d)[1..] == body;
    }
  }

  /** Every character is a digit, `-` or `.`. */
  predicate NumeralChars(s: string) {
    forall i :: 0 <= i < |s| ==> IsDigit(s[i]) || s[i] == '-' || s[i] == '.'
  }

  lemma NumeralCharsConcat(a: string, b: string)
    requires NumeralChars(a) && NumeralChars(b)
    ensures NumeralChars(a + b)
  {
    forall i | 0 <= i < |a + b|
      ensures IsDigit((a + b)[i]) || (a + b)[i] == '-' || (a + b)[i] == '.'
    {
      if i >= |a| {
        assert (a + b)[i] == b[i - |a|];
      }
    }
  }

  lemma DigitSlices(s: string, k: nat)
    requires AllDigits(s) && k <= |s|
    ensures NumeralChars(s[..k]) && NumeralChars(s[k..])
  {
    forall i | 0 <= i < |s| - k
      ensures IsDigit(s[k..][i])
    {
      assert s[k..][i] == s[k + i];
    }
  }

  lemma ShowShape(d: Decimal)
    ensures var padded := PaddedDigits(d);
      var split := |padded| - d.scale;
      Show(d) == (if d.negative then "-" else "") + (if d.scale == 0 then padded else padded[..split] + "." + padded[split..])
  {
  }

  /** A rendered decimal consists of digits, at most a leading `-` and at most one point. */
  lemma ShowChars(d: Decimal)
    ensures forall i :: 0 <= i < |Show(d)| ==> IsDigit(Show(d)[i]) || Show(d)[i] == '-' || Show(d)[i] == '.'
  {
    var padded := PaddedDigits(d);
    var split := |padded| - d.scale;
    var sign := if d.negative then "-" else "";
    assert NumeralChars(padded) && NumeralChars(sign) && NumeralChars(".");
    ShowShape(d);
    if d.scale == 0 {
      NumeralCharsConcat(sign, padded);
    } else {
      DigitSlices(padded, split);
      NumeralCharsConcat(padded[..split], ".");
      NumeralCharsConcat(padded[..split] + ".", padded[split..]);
      NumeralCharsConcat(sign, padded[..split] + "." + padded[split..]);
    }
    assert NumeralChars(Show(d));
  }

  /** Parsing a rendered decimal gives back exactly that decimal: sign, mantissa and scale. */
  lemma ParseShow(d: Decimal)
    ensures ParseDecimal(Show(d)) == Some(d)
  {
    var t := Show(d);
    ShowUnsigned(d);
    var padded := PaddedDigits(d);
    var body := Unsigned(t);
    if d.scale == 0 {
      assert body == padded;
      WholeLiteral(padded);
    } else {
      var split := |padded| - d.scale;
      var a := padded[..split];
      var b := padded[split..];
      assert padded == a + b;
      assert body == a + "." + b;
      PointedLiteral(a, b);
    }
    assert IsDecimalLiteral(t);
    assert LiteralValue(t) == d;
    var r := ParseDecimal(t);
    assert r.Some? && r.value == d;
  }

  // ---------------------------------------------------------------------
  // Swift's text for a `Double`.

  /** One more trailing zero after the point leaves the value unchanged. */
  lemma ScaleUp(negative: bool, m: nat, s: nat)
    ensures ToReal(Decimal(negative, m * 10, s + 1)) == ToReal(Decimal(negative, m, s))
  {
    var p := Pow10(s) as real;
    assert Pow10(s + 1) as real == 10.0 * p;
    assert (m * 10) as real == 10.0 * (m as real);
    assert (10.0 * (m as real)) / (10.0 * p) == (m as real) / p;
  }

  /** The same value with the trailing zeros after the point removed. */
  function Trimmed(d: Decimal): (t: Decimal)
    ensures t.negative == d.negative && t.scale <= d.scale
    ensures ToReal(t) == ToReal(d)
    ensures t.scale > 0 ==> t.mantissa % 10 != 0
    decreases d.scale
  {
    if d.scale > 0 && d.mantissa % 10 == 0 then
      ScaleUp(d.negative, d.mantissa / 10, d.scale - 1);
      assert Decimal(d.negative, d.mantissa / 10 * 10, d.scale - 1 + 1) == d;
      Trimmed(Decimal(d.negative, d.mantissa / 10, d.scale - 1))
    else d
  }

  /**
   * The decimal `Description` renders: trimmed of trailing zeros after the
   * point, with one `0` after the point put back for a whole number.
   */
  function Shown(d: Decimal): (shown: Decimal)
    ensures ToReal(shown) == ToReal(d) && shown.negative == d.negative && shown.scale >= 1
  {
    var t := Trimmed(d);
    ScaleUp(t.negative, t.mantissa, 0);
    if t.scale == 0 then Decimal(t.negative, t.mantissa * 10, 1) else t
  }

  /**
   * Swift's `description` of a `Double` with this value, in its plain
   * notation: the shortest digits after the point, and `.0` for a whole
   * number (so 1 prints as `1.0`, 2.50 as `2.5`, negative zero as `-0.0`).
   */
  function Description(d: Decimal): string {
    Show(Shown(d))
  }

  /**
   * The text `Description` gives is itself a decimal literal of the same
   * value, made of digits, an optional `-` and a point.
   */
  lemma DescriptionReadsBack(d: Decimal)
    ensures forall i :: 0 <= i < |Description(d)| ==> IsDigit(Description(d)[i]) || Description(d)[i] == '-' || Description(d)[i] == '.'
    ensures ParseDecimal(Description(d)).Some? && ToReal(ParseDecimal(Description(d)).value) == ToReal(d)
  {
    ShowChars(Shown(d));
    ParseShow(Shown(d));
  }
}
