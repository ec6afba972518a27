/**
 * The two core functions of script.js used together: convert() parses the
 * input in the source radix and formats the value in the target radix.
 * The lemmas here relate parseToBigInt and bigIntToBaseStr to each other.
 */
module Converter {
  import opened Digits
  import opened JsText
  import opened Parser
  import opened Formatter

  /** Division by the radix undoes multiplication by it when the remainder is a digit. */
  lemma DivModDigit(q: int, d: int, base: int)
    requires IsRadix(base) && 0 <= q && 0 <= d < base
    ensures (q * base + d) / base == q && (q * base + d) % base == d
  {
    var m := q * base + d;
    var q', r' := m / base, m % base;
    assert m == base * q' + r' && 0 <= r' < base;
    if q' < q {
      MulMonoLeft(base, q' + 1, q);
    }
    if q' > q {
      MulMonoLeft(base, q + 1, q');
    }
  }

  /** A string of symbols, none of which is white space or a lower-case letter, is left alone by trim and upper-case. */
  lemma SymbolsNormalized(s: string)
    requires forall i :: 0 <= i < |s| ==> s[i] == '-' || DigitValue(s[i]).Some?
    ensures Trim(s) == s && UpperCase(s) == s
  {
    TrimFixed(s);
    UpperCaseFixed(s);
  }

  /** Appending the symbol of d to digits worth q gives digits worth q * base + d. */
  lemma HornerAppendSymbol(prefix: string, q: int, d: nat, base: int)
    requires IsRadix(base) && d < base
    requires forall i :: 0 <= i < |prefix| ==> DigitValue(prefix[i]).Some?
    requires Horner(Values(prefix), base) == q
    ensures forall i :: 0 <= i <= |prefix| ==> DigitValue((prefix + [Symbol(d)])[i]).Some?
    ensures Horner(Values(prefix + [Symbol(d)]), base) == q * base + d
  {
    SymbolBijection(d, Symbol(d));
    HornerSnoc(prefix, Symbol(d), base);
  }

  /** The values of the symbols of m, read back with Horner's rule, give m. */
  lemma {:induction false} HornerOfDigits(m: nat, base: int)
    requires IsRadix(base)
    ensures forall i :: 0 <= i < |DigitsOf(m, base)| ==> DigitValue(DigitsOf(m, base)[i]).Some?
    ensures Horner(Values(DigitsOf(m, base)), base) == m
  {
    if m > 0 {
      var q, d := m / base, m % base;
      DivDecreases(m, base);
      HornerOfDigits(q, base);
      assert DigitsOf(m, base) == DigitsOf(q, base) + [Symbol(d)];
      HornerAppendSymbol(DigitsOf(q, base), q, d, base);
    }
  }

  /** A canonical digit string is the formatted form of the value it parses to. */
  lemma {:induction false} DigitsOfHorner(ds: string, base: int)
    requires IsRadix(base) && IsCanonicalDigits(ds, base)
    ensures Horner(Values(ds), base) > 0
    ensures DigitsOf(Horner(Values(ds), base), base) == ds
  {
    var p, c := ds[..|ds| - 1], ds[|ds| - 1];
    assert ds == p + [c];
    var v := DigitValue(c).value;
    SymbolBijection(v, c);
    HornerSnoc(p, c, base);
    var h := Horner(Values(p), base);
    if p == [] {
      assert h == 0;
      assert v != 0 by {
        SymbolBijection(0, c);
      }
    } else {
      assert p[0] == ds[0];
      DigitsOfHorner(p, base);
    }
    DivModDigit(h, v, base);
  }

  /** An unsigned string of digits of the radix parses to their Horner value. */
  lemma ParseDigits(ds: string, base: int)
    requires ds != []
    requires forall i :: 0 <= i < |ds| ==> IsDigitOf(ds[i], base)
    ensures forall i :: 0 <= i < |ds| ==> DigitValue(ds[i]).Some?
    ensures Parse(ds, base) == Success(Horner(Values(ds), base))
  {
    SymbolsNormalized(ds);
    assert DigitValue(ds[0]).Some?;
    assert Magnitude(ds) == ds;
  }

  /**
   * Round trip: for a radix from 2 to 36, parsing what bigIntToBaseStr
   * prints gives back the number.
   */
  lemma RoundTrip(n: int, base: int)
    requires IsRadix(base)
    ensures Parse(Format(n, base), base) == Success(n)
  {
    if n == 0 {
      ParseZero(base);
    } else {
      var m := if n < 0 then -n else n;
      var ds := DigitsOf(m, base);
      DigitsOfCanonical(m, base);
      HornerOfDigits(m, base);
      ParseDigits(ds, base);
      if n < 0 {
        SymbolsNormalized(ds);
        ParseNegative(ds, base);
      }
    }
  }

  /** "0" parses to 0 in every radix from 2 to 36. */
  lemma ParseZero(base: int)
    requires IsRadix(base)
    ensures Parse("0", base) == Success(0)
  {
    assert Values("0") == [0];
    assert Horner([0], base) == 0;
    ParseDigits("0", base);
  }

  /** Canonical digits parse to a positive value whose formatted form is those digits. */
  lemma ParseCanonicalDigits(ds: string, base: int)
    requires IsRadix(base) && IsCanonicalDigits(ds, base)
    ensures Parse(ds, base).Success? && Parse(ds, base).value > 0
    ensures DigitsOf(Parse(ds, base).value, base) == ds
    ensures Parse("-" + ds, base) == Success(-Parse(ds, base).value)
  {
    DigitsOfHorner(ds, base);
    ParseDigits(ds, base);
    SymbolsNormalized(ds);
    ParseNegative(ds, base);
  }

  /**
   * Canonical output is unique: a canonical string parses, and formatting
   * its value in the same radix gives the very same string back.
   */
  lemma CanonicalUnique(s: string, base: int)
    requires IsRadix(base) && IsCanonical(s, base)
    ensures Parse(s, base).Success? && Format(Parse(s, base).value, base) == s
  {
    if s == "0" {
      ParseZero(base);
    } else if IsCanonicalDigits(s, base) {
      ParseCanonicalDigits(s, base);
    } else {
      var ds := s[1..];
      assert s == "-" + ds;
      ParseCanonicalDigits(ds, base);
    }
  }

  /** convert() trims the input before parsing; parsing trims again, to the same effect. */
  lemma ParseTrimmed(str: string, base: int)
    ensures Parse(Trim(str), base) == Parse(str, base)
  {
    TrimTwice(str);
  }

  /**
   * convert(): trim the field, refuse an empty one, parse it in radix
   * `from`, format the value in radix `to`. The result is the canonical
   * form of the parsed value, which parses back to it in radix `to`;
   * errors are those of the parser.
   */
  method Convert(input: string, from: int, to: int) returns (r: Result<string>)
    requires IsRadix(to)
    ensures r.Failure? <==> Parse(input, from).Failure?
    ensures r.Failure? ==> r.error == Parse(input, from).error
    ensures r.Success? ==>
      r.value == Format(Parse(input, from).value, to)
      && IsCanonical(r.value, to)
      && Parse(r.value, to) == Parse(input, from)
  {
    var val := Trim(input);
    ParseTrimmed(input, from);
    if val == [] {
      return Failure(EmptyInput);
    }
    var parsed := ParseToBigInt(val, from);
    match parsed
    case Failure(e) =>
      return Failure(e);
    case Success(v) =>
      var out := BigIntToBaseStr(v, to);
      FormatCanonical(v, to);
      RoundTrip(v, to);
      return Success(out);
  }

  /** "255" in radix 10 is 255. */
  lemma ScenarioDecimal()
    ensures Parse("255", 10) == Success(255)
  {
    ParseDigits("255", 10);
    assert Values("255") == [2, 5, 5];
    assert Horner([2, 5, 5], 10) == 255 by {
      assert [2, 5, 5][..2] == [2, 5] && [2, 5][..1] == [2];
      assert Horner([2, 5], 10) == 25;
    }
  }

  /** 255 is "11111111" in radix 2. */
  lemma ScenarioBinaryOutput()
    ensures Format(255, 2) == "11111111"
  {
    assert DigitsOf(15, 2) == "1111";
  }

  /** "FF" in radix 16 is 255. */
  lemma ParseFF()
    ensures Parse("FF", 16) == Success(255)
  {
    ParseDigits("FF", 16);
    assert Values("FF") == [15, 15];
    assert [15, 15][..1] == [15];
  }

  /** "-FF" in radix 16 is -255. */
  lemma ScenarioNegativeHex()
    ensures Parse("-FF", 16) == Success(-255)
  {
    ParseFF();
    SymbolsNormalized("FF");
    ParseNegative("FF", 16);
    assert "-" + "FF" == "-FF";
  }

  /** -255 is "-255" in radix 10. */
  lemma ScenarioNegativeDecimalOutput()
    ensures Format(-255, 10) == "-255"
  {
    assert DigitsOf(2, 10) == "2";
    assert DigitsOf(25, 10) == "25";
  }

  /** "10" in radix 2 is 2. */
  lemma ScenarioBinary()
    ensures Parse("10", 2) == Success(2)
  {
    ParseDigits("10", 2);
    assert Values("10") == [1, 0];
    assert [1, 0][..1] == [1];
  }

  /** 2 is "10" in radix 2. */
  lemma ScenarioBinaryTwo()
    ensures Format(2, 2) == "10"
  {
    assert DigitsOf(1, 2) == "1";
  }

  /** "Z" in radix 36 is 35, and back. */
  lemma ScenarioBase36()
    ensures Parse("Z", 36) == Success(35) && Format(35, 36) == "Z"
  {
    ParseDigits("Z", 36);
  }

  /** Lower-case input is accepted; output is upper case. */
  lemma ScenarioLowerCase()
    ensures Parse("ff", 16) == Success(255) && Format(255, 16) == "FF"
  {
    assert DigitsOf(15, 16) == "F";
    ParseFF();
    assert UpperCase("ff") == UpperCase("FF") by {
      assert UpperCase("ff") == "FF";
    }
    ParseIgnoresCase("ff", "FF", 16);
  }

  /** A sign surrounded by white space throws 'Empty after removing sign'. */
  lemma ScenarioBareSign()
    ensures Parse(" -\t", 10) == Failure(EmptyAfterSign)
  {
    assert TrimStart(" -\t") == "-\t";
    assert Trim(" -\t") == "-";
    ParseBareSign(" -\t", 10);
  }

  /** 'G' is a symbol (value 16) but not a digit of radix 16. */
  lemma ScenarioDigitOutOfRange()
    ensures Parse("G", 16) == Failure(DigitOutOfRange('G', 16))
  {
    SymbolsNormalized("G");
    ParseFirstBadDigit("G", 16, 0);
  }

  /** Grouping separators and a leading plus sign are not symbols. */
  lemma ScenarioInvalidCharacters()
    ensures Parse("1_000", 10) == Failure(InvalidCharacter('_'))
    ensures Parse("+5", 10) == Failure(InvalidCharacter('+'))
  {
    TrimFixed("1_000");
    assert Magnitude("1_000") == "1_000";
    ParseFirstBadDigit("1_000", 10, 1);
    TrimFixed("+5");
    assert Magnitude("+5") == "+5";
    ParseFirstBadDigit("+5", 10, 0);
  }

  /** "-0" parses to 0, which formats as "0". */
  lemma ScenarioMinusZero()
    ensures Parse("-0", 10) == Success(0) && Format(0, 10) == "0"
  {
    ParseZero(10);
    SymbolsNormalized("0");
    ParseNegative("0", 10);
    assert "-" + "0" == "-0";
  }
}
