/**
 * The noisy-text-to-number normalizer of the live scanner view
 * (`OCRScannerView.Coordinator.parseNumber`): common OCR misreads are mapped
 * to digits, a comma becomes the decimal point, newlines disappear,
 * everything outside digits, `-`, `,` and `.` is dropped and what is left is
 * parsed as a decimal number.
 */
module Normalizer {
  import opened Wrappers
  import opened Strings
  import opened Decimals

  // ---------------------------------------------------------------------
  // The cleaning step as written: a chain of replacements, then a filter.

  /** The characters the chain replaces. */
  predicate IsPattern(c: char) {
    c == ',' || c == '\n' || c == 'o' || c == '|' || c == 'l' || c == 'L' || c == 'z' || c == 'Z' || c == 's' || c == 'S'
  }

  /**
   * The replacement chain exactly as written: ten whole-string replacements,
   * in order. Every occurrence of every pattern is replaced, and no
   * replacement makes the text longer.
   */
  function SubstitutionChain(text: string): (r: string)
    ensures |r| <= |text|
    ensures forall c :: c in r ==> !IsPattern(c)
  {
    var s1 := ReplaceAll(text, ',', ".");
    var s2 := ReplaceAll(s1, '\n', "");
    var s3 := ReplaceAll(s2, 'o', "0");
    var s4 := ReplaceAll(s3, '|', "1");
    var s5 := ReplaceAll(s4, 'l', "1");
    var s6 := ReplaceAll(s5, 'L', "1");
    var s7 := ReplaceAll(s6, 'z', "2");
    var s8 := ReplaceAll(s7, 'Z', "2");
    var s9 := ReplaceAll(s8, 's', "2");
    ReplaceAll(s9, 'S', "2")
  }

  /** The filter's accepted list: the ten digits, `-`, `,` and `.`. */
  predicate Accepted(c: char) {
    IsDigit(c) || c == '-' || c == ',' || c == '.'
  }

  /** The replacement chain followed by the filter, as the source composes them. */
  function ChainThenFilter(text: string): string {
    Filter(SubstitutionChain(text), Accepted)
  }

  /** The replacements as a map from each character to its replacement. Upper-case `O` is not in it. */
  function MapChar(c: char): string {
    match c
    case ',' => "."
    case '\n' => ""
    case 'o' => "0"
    case '|' => "1"
    case 'l' => "1"
    case 'L' => "1"
    case 'z' => "2"
    case 'Z' => "2"
    case 's' => "2"
    case 'S' => "2"
    case _ => [c]
  }

  function MapString(s: string): string {
    if |s| == 0 then "" else MapChar(s[0]) + MapString(s[1..])
  }

  // ---------------------------------------------------------------------
  // The cleaning step as a reading table, and the parse.

  /** Characters a cleaned string can contain. */
  predicate IsCleanChar(c: char) {
    IsDigit(c) || c == '-' || c == '.'
  }

  /**
   * What one raw character reads as: digits, `-` and `.` stand for
   * themselves, the comma for the point, the confusable letters for their
   * digits; anything else (upper-case `O` and newlines included) reads as
   * nothing.
   */
  function Reading(c: char): (r: string)
    ensures |r| <= 1
    ensures |r| == 1 ==> IsCleanChar(r[0])
  {
    if IsCleanChar(c) then [c]
    else match c
      case ',' => "."
      case 'o' => "0"
      case '|' => "1"
      case 'l' => "1"
      case 'L' => "1"
      case 'z' => "2"
      case 'Z' => "2"
      case 's' => "2"
      case 'S' => "2"
      case _ => ""
  }

  /** The cleaned text: the reading of every character, in order. Only digits, `-` and `.` remain. */
  function Clean(text: string): (r: string)
    ensures |r| <= |text|
    ensures forall i :: 0 <= i < |r| ==> IsCleanChar(r[i])
  {
    if |text| == 0 then "" else Reading(text[0]) + Clean(text[1..])
  }

  /** `Coordinator.parseNumber`: the cleaned text read as a decimal literal, if it is one. */
  function ParseNumber(text: string): (r: Option<Decimal>)
    ensures r.Some? <==> IsDecimalLiteral(Clean(text))
    ensures r.Some? ==> r.value == LiteralValue(Clean(text))
  {
    ParseDecimal(Clean(text))
  }

  // ---------------------------------------------------------------------
  // The chain and filter read every character by the table.

  lemma ChainConcat(a: string, b: string)
    ensures SubstitutionChain(a + b) == SubstitutionChain(a) + SubstitutionChain(b)
  {
    var a1 := ReplaceAll(a, ',', "."); var b1 := ReplaceAll(b, ',', ".");
    ReplaceAllConcat(a, b, ',', ".");
    var a2 := ReplaceAll(a1, '\n', ""); var b2 := ReplaceAll(b1, '\n', "");
    ReplaceAllConcat(a1, b1, '\n', "");
    var a3 := ReplaceAll(a2, 'o', "0"); var b3 := ReplaceAll(b2, 'o', "0");
    ReplaceAllConcat(a2, b2, 'o', "0");
    var a4 := ReplaceAll(a3, '|', "1"); var b4 := ReplaceAll(b3, '|', "1");
    ReplaceAllConcat(a3, b3, '|', "1");
    var a5 := ReplaceAll(a4, 'l', "1"); var b5 := ReplaceAll(b4, 'l', "1");
    ReplaceAllConcat(a4, b4, 'l', "1");
    var a6 := ReplaceAll(a5, 'L', "1"); var b6 := ReplaceAll(b5, 'L', "1");
    ReplaceAllConcat(a5, b5, 'L', "1");
    var a7 := ReplaceAll(a6, 'z', "2"); var b7 := ReplaceAll(b6, 'z', "2");
    ReplaceAllConcat(a6, b6, 'z', "2");
    var a8 := ReplaceAll(a7, 'Z', "2"); var b8 := ReplaceAll(b7, 'Z', "2");
    ReplaceAllConcat(a7, b7, 'Z', "2");
    var a9 := ReplaceAll(a8, 's', "2"); var b9 := ReplaceAll(b8, 's', "2");
    ReplaceAllConcat(a8, b8, 's', "2");
    ReplaceAllConcat(a9, b9, 'S', "2");
  }

  lemma ReplaceShort(s: string, pattern: char, replacement: string)
    requires |s| <= 1
    ensures ReplaceAll(s, pattern, replacement) == if |s| == 1 && s[0] == pattern then replacement else s
  {
    if |s| == 1 {
      assert s == [s[0]];
      ReplaceAllSingle(s[0], pattern, replacement);
    }
  }

  lemma ChainSingle(c: char)
    ensures SubstitutionChain([c]) == MapChar(c)
  {
    var s1 := ReplaceAll([c], ',', "."); ReplaceShort([c], ',', ".");
    var s2 := ReplaceAll(s1, '\n', ""); ReplaceShort(s1, '\n', "");
    var s3 := ReplaceAll(s2, 'o', "0"); ReplaceShort(s2, 'o', "0");
    var s4 := ReplaceAll(s3, '|', "1"); ReplaceShort(s3, '|', "1");
    var s5 := ReplaceAll(s4, 'l', "1"); ReplaceShort(s4, 'l', "1");
    var s6 := ReplaceAll(s5, 'L', "1"); ReplaceShort(s5, 'L', "1");
    var s7 := ReplaceAll(s6, 'z', "2"); ReplaceShort(s6, 'z', "2");
    var s8 := ReplaceAll(s7, 'Z', "2"); ReplaceShort(s7, 'Z', "2");
    var s9 := ReplaceAll(s8, 's', "2"); ReplaceShort(s8, 's', "2");
    ReplaceShort(s9, 'S', "2");
  }

  /** The chain of whole-string replacements equals one per-character map. */
  lemma {:induction false} ChainIsCharacterMap(s: string)
    ensures SubstitutionChain(s) == MapString(s)
  {
    if |s| == 0 {
      assert SubstitutionChain(s) == "";
    } else {
      assert s == [s[0]] + s[1..];
      ChainConcat([s[0]], s[1..]);
      ChainSingle(s[0]);
      ChainIsCharacterMap(s[1..]);
    }
  }

  lemma {:induction false} MapStringConcat(a: string, b: string)
    ensures MapString(a + b) == MapString(a) + MapString(b)
  {
    if |a| > 0 {
      assert (a + b)[1..] == a[1..] + b;
      MapStringConcat(a[1..], b);
    } else {
      assert a + b == b;
    }
  }

  lemma {:induction false} MapIdempotent(s: string)
    ensures MapString(MapString(s)) == MapString(s)
  {
    if |s| > 0 {
      MapIdempotent(s[1..]);
      MapStringConcat(MapChar(s[0]), MapString(s[1..]));
      var m := MapChar(s[0]);
      if |m| == 1 {
        assert m[1..] == "";
      }
    }
  }

  /** No replacement produces a character that any pattern matches, so running the chain twice changes nothing. */
  lemma ChainIdempotent(s: string)
    ensures SubstitutionChain(SubstitutionChain(s)) == SubstitutionChain(s)
  {
    ChainIsCharacterMap(s);
    MapIdempotent(s);
    ChainIsCharacterMap(MapString(s));
  }

  /** No replacement's output is matched by any pattern: the map leaves its own outputs alone. */
  lemma ReplacementsAreFixed(c: char)
    ensures forall k :: 0 <= k < |MapChar(c)| ==> !IsPattern(MapChar(c)[k]) && MapChar(MapChar(c)[k]) == [MapChar(c)[k]]
  {
  }

  /** The same ten replacements applied in the opposite order. */
  function ReversedChain(text: string): string {
    var s1 := ReplaceAll(text, 'S', "2");
    var s2 := ReplaceAll(s1, 's', "2");
    var s3 := ReplaceAll(s2, 'Z', "2");
    var s4 := ReplaceAll(s3, 'z', "2");
    var s5 := ReplaceAll(s4, 'L', "1");
    var s6 := ReplaceAll(s5, 'l', "1");
    var s7 := ReplaceAll(s6, '|', "1");
    var s8 := ReplaceAll(s7, 'o', "0");
    var s9 := ReplaceAll(s8, '\n', "");
    ReplaceAll(s9, ',', ".")
  }

  lemma ReversedConcat(a: string, b: string)
    ensures ReversedChain(a + b) == ReversedChain(a) + ReversedChain(b)
  {
    var a1 := ReplaceAll(a, 'S', "2"); var b1 := ReplaceAll(b, 'S', "2");
    ReplaceAllConcat(a, b, 'S', "2");
    var a2 := ReplaceAll(a1, 's', "2"); var b2 := ReplaceAll(b1, 's', "2");
    ReplaceAllConcat(a1, b1, 's', "2");
    var a3 := ReplaceAll(a2, 'Z', "2"); var b3 := ReplaceAll(b2, 'Z', "2");
    ReplaceAllConcat(a2, b2, 'Z', "2");
    var a4 := ReplaceAll(a3, 'z', "2"); var b4 := ReplaceAll(b3, 'z', "2");
    ReplaceAllConcat(a3, b3, 'z', "2");
    var a5 := ReplaceAll(a4, 'L', "1"); var b5 := ReplaceAll(b4, 'L', "1");
    ReplaceAllConcat(a4, b4, 'L', "1");
    var a6 := ReplaceAll(a5, 'l', "1"); var b6 := ReplaceAll(b5, 'l', "1");
    ReplaceAllConcat(a5, b5, 'l', "1");
    var a7 := ReplaceAll(a6, '|', "1"); var b7 := ReplaceAll(b6, '|', "1");
    ReplaceAllConcat(a6, b6, '|', "1");
    var a8 := ReplaceAll(a7, 'o', "0"); var b8 := ReplaceAll(b7, 'o', "0");
    ReplaceAllConcat(a7, b7, 'o', "0");
    var a9 := ReplaceAll(a8, '\n', ""); var b9 := ReplaceAll(b8, '\n', "");
    ReplaceAllConcat(a8, b8, '\n', "");
    ReplaceAllConcat(a9, b9, ',', ".");
  }

  /** The first five reversed steps on one character: only `S`, `s`, `Z`, `z` and `L` change. */
  lemma ReversedHead(c: char)
    ensures ReplaceAll(ReplaceAll(ReplaceAll(ReplaceAll(ReplaceAll([c], 'S', "2"), 's', "2"), 'Z', "2"), 'z', "2"), 'L', "1")
      == if c == 'S' || c == 's' || c == 'Z' || c == 'z' then "2" else if c == 'L' then "1" else [c]
  {
    var s1 := ReplaceAll([c], 'S', "2"); ReplaceShort([c], 'S', "2");
    var s2 := ReplaceAll(s1, 's', "2"); ReplaceShort(s1, 's', "2");
    var s3 := ReplaceAll(s2, 'Z', "2"); ReplaceShort(s2, 'Z', "2");
    var s4 := ReplaceAll(s3, 'z', "2"); ReplaceShort(s3, 'z', "2");
    ReplaceShort(s4, 'L', "1");
  }

  /** The last five reversed steps on one character that the first five left alone. */
  lemma ReversedTail(c: char)
    requires c != 'S' && c != 's' && c != 'Z' && c != 'z' && c != 'L'
    ensures ReplaceAll(ReplaceAll(ReplaceAll(ReplaceAll(ReplaceAll([c], 'l', "1"), '|', "1"), 'o', "0"), '\n', ""), ',', ".") == MapChar(c)
  {
    var s6 := ReplaceAll([c], 'l', "1"); ReplaceShort([c], 'l', "1");
    var s7 := ReplaceAll(s6, '|', "1"); ReplaceShort(s6, '|', "1");
    var s8 := ReplaceAll(s7, 'o', "0"); ReplaceShort(s7, 'o', "0");
    var s9 := ReplaceAll(s8, '\n', ""); ReplaceShort(s8, '\n', "");
    ReplaceShort(s9, ',', ".");
  }

  lemma ReversedSingle(c: char)
    ensures ReversedChain([c]) == MapChar(c)
  {
    ReversedHead(c);
    var h := if c == 'S' || c == 's' || c == 'Z' || c == 'z' then '2' else if c == 'L' then '1' else c;
    ReversedTail(h);
  }

  /**
   * The order of the chain does not matter: running the ten replacements
   * last to first gives the same text as running them as written.
   */
  lemma {:induction false} ChainOrderIrrelevant(s: string)
    ensures ReversedChain(s) == SubstitutionChain(s)
  {
    if |s| == 0 {
      assert ReversedChain(s) == "" && SubstitutionChain(s) == "";
    } else {
      assert s == [s[0]] + s[1..];
      ReversedConcat([s[0]], s[1..]);
      ChainConcat([s[0]], s[1..]);
      ReversedSingle(s[0]);
      ChainSingle(s[0]);
      ChainOrderIrrelevant(s[1..]);
    }
  }

  lemma FilterMapSingle(c: char)
    ensures Filter(MapChar(c), Accepted) == Reading(c)
  {
    var m := MapChar(c);
    if |m| == 1 {
      assert m[1..] == "";
    }
  }

  /**
   * The replacement chain followed by the filter reads every character by
   * the table: every occurrence of a confusable letter is substituted, every
   * comma becomes a point, and every other character outside the accepted
   * list is dropped, so no comma survives.
   */
  lemma {:induction false} ChainThenFilterIsClean(s: string)
    ensures ChainThenFilter(s) == Clean(s)
  {
    if |s| == 0 {
      assert ChainThenFilter(s) == "";
    } else {
      assert s == [s[0]] + s[1..];
      ChainConcat([s[0]], s[1..]);
      FilterConcat(SubstitutionChain([s[0]]), SubstitutionChain(s[1..]), Accepted);
      ChainSingle(s[0]);
      FilterMapSingle(s[0]);
      ChainThenFilterIsClean(s[1..]);
    }
  }

  // ---------------------------------------------------------------------
  // Properties of the cleaned text.

  lemma {:induction false} CleanConcat(a: string, b: string)
    ensures Clean(a + b) == Clean(a) + Clean(b)
  {
    if |a| > 0 {
      assert (a + b)[1..] == a[1..] + b;
      CleanConcat(a[1..], b);
    } else {
      assert a + b == b;
    }
  }

  /** Text already made of digits, `-` and `.` is left as it is. */
  lemma {:induction false} CleanFixesCleanText(s: string)
    requires forall i :: 0 <= i < |s| ==> IsCleanChar(s[i])
    ensures Clean(s) == s
  {
    if |s| > 0 {
      CleanFixesCleanText(s[1..]);
    }
  }

  /** Cleaning a cleaned string changes nothing. */
  lemma CleanIdempotent(s: string)
    ensures Clean(Clean(s)) == Clean(s)
  {
    CleanFixesCleanText(Clean(s));
  }

  /** Normalizing the rendering of a number gives back that number: the normalizer's fixed points. */
  lemma NormalizeShow(d: Decimal)
    ensures ParseNumber(Show(d)) == Some(d)
  {
    ShowChars(d);
    CleanFixesCleanText(Show(d));
    ParseShow(d);
  }

  /** Upper-case `O` is dropped, not read as zero, and the comma is the decimal point. */
  lemma ExampleUpperCaseO(text: string)
    requires text == "1O2,5"
    ensures ParseNumber(text) == Some(Decimal(false, 125, 1))
    ensures ToReal(Decimal(false, 125, 1)) == 12.5
  {
    assert text[1..] == "O2,5";
    assert Clean("O2,5") == "2.5";
    var cleaned := Clean(text);
    assert cleaned == "12.5";
    assert cleaned[1..] == "2.5";
    assert Scan("2.5", 1, false, 0, true) == Some((125, 1));
    assert ParseDecimal(cleaned) == Some(Decimal(false, 125, 1));
    assert Pow10(1) == 10;
  }

  /** Every occurrence of a confusable letter is substituted. */
  lemma ExampleLowerCaseL(text: string)
    requires text == "l23"
    ensures ParseNumber(text) == Some(Decimal(false, 123, 0))
  {
    assert text[1..] == "23";
    assert Clean("23") == "23";
    var cleaned := Clean(text);
    assert cleaned == "123";
    assert cleaned[1..] == "23";
    assert Scan("23", 1, false, 0, true) == Some((123, 0));
  }

  lemma ExampleUpperCaseS(text: string)
    requires text == "S2"
    ensures ParseNumber(text) == Some(Decimal(false, 22, 0))
  {
    assert text[1..] == "2";
    assert Clean("2") == "2";
    var cleaned := Clean(text);
    assert cleaned == "22";
    assert cleaned[1..] == "2";
    assert Scan("2", 2, false, 0, true) == Some((22, 0));
  }

  /** Characters outside the table vanish, so separated digit groups are joined. */
  lemma ExampleSpace(text: string)
    requires text == "12 34"
    ensures ParseNumber(text) == Some(Decimal(false, 1234, 0))
  {
    assert text[1..] == "2 34";
    assert Clean("2 34") == "234";
    var cleaned := Clean(text);
    assert cleaned == "1234";
    assert cleaned[1..] == "234";
    assert Scan("234", 1, false, 0, true) == Some((1234, 0));
  }

  /** The comma is a decimal separator, not a thousands separator. */
  lemma ExampleComma(text: string)
    requires text == "1,000"
    ensures ParseNumber(text) == Some(Decimal(false, 1000, 3))
    ensures ToReal(Decimal(false, 1000, 3)) == 1.0
  {
    assert text[1..] == ",000";
    assert Clean(",000") == ".000";
    var cleaned := Clean(text);
    assert cleaned == "1.000";
    assert cleaned[1..] == ".000";
    assert Scan(".000", 1, false, 0, true) == Some((1000, 3));
    assert Pow10(3) == 1000;
  }

  lemma ExampleTwoCommas()
    ensures ParseNumber("1,2,3") == None
  {
  }

  /** Nothing left, a lone sign, letters only, two points, an inner minus: no number. */
  lemma ExampleRejected()
    ensures ParseNumber("") == None && ParseNumber("-") == None
  {
  }

  lemma ExampleLettersOnly()
    ensures ParseNumber("abc") == None
  {
    assert Clean("abc") == "";
  }

  lemma ExampleTwoPoints()
    ensures ParseNumber("-4.5.6") == None
  {
  }

  lemma ExampleInnerMinus()
    ensures ParseNumber("1-2") == None
  {
  }

  // ---------------------------------------------------------------------
  // The coordinator's delegate callback.

  /** The two bindings the scanner view writes into. */
  datatype ScannerBindings = ScannerBindings(scannedText: string, scannedNumber: Option<Decimal>)

  /** `capturedString`: always shows the raw text; replaces the number only when the text parses. */
  function CapturedString(b: ScannerBindings, text: string): (r: ScannerBindings)
    ensures r.scannedText == text
    ensures ParseNumber(text).Some? ==> r.scannedNumber == ParseNumber(text)
    ensures ParseNumber(text).None? ==> r.scannedNumber == b.scannedNumber
  {
    match ParseNumber(text)
    case Some(n) => ScannerBindings(text, Some(n))
    case None => ScannerBindings(text, b.scannedNumber)
  }
}
