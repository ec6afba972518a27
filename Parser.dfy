/**
 * parseToBigInt (script.js): a signed digit string in a given radix to an
 * unbounded integer, or the error that the source throws.
 */
module Parser {
  import opened Digits
  import opened JsText

  /** The exceptions parseToBigInt throws, with the character and radix they name. */
  datatype ParseError =
    | EmptyInput
    | EmptyAfterSign
    | InvalidCharacter(ch: char)
    | DigitOutOfRange(ch: char, base: int)

  datatype Result<T> = Success(value: T) | Failure(error: ParseError)

  /** The input as the digit loop sees it: trimmed, then upper-cased. */
  function Normalized(str: string): string
  {
    UpperCase(Trim(str))
  }

  /** The normalized input starts with a minus sign. */
  predicate HasSign(str: string)
  {
    var s := Normalized(str);
    s != [] && s[0] == '-'
  }

  /** The normalized input without its sign: the characters folded into the value. */
  function Magnitude(str: string): string
  {
    var s := Normalized(str);
    if HasSign(str) then s[1..] else s
  }

  /** The error for a character that is not a digit of the radix. */
  function DigitError(c: char, base: int): ParseError
  {
    if DigitValue(c).None? then InvalidCharacter(c) else DigitOutOfRange(c, base)
  }

  /** The error for the first character, left to right, that is not a digit of `base`. */
  function FirstError(s: string, base: int): (r: Option<ParseError>)
    ensures r == None <==> forall i :: 0 <= i < |s| ==> IsDigitOf(s[i], base)
    ensures r.Some? ==> r.value.InvalidCharacter? || r.value.DigitOutOfRange?
  {
    if s == [] then None
    else if !IsDigitOf(s[0], base) then Some(DigitError(s[0], base))
    else FirstError(s[1..], base)
  }

  /** The digit values of a string of symbols. */
  function Values(s: string): seq<nat>
    requires forall i :: 0 <= i < |s| ==> DigitValue(s[i]).Some?
  {
    seq(|s|, i requires 0 <= i < |s| => DigitValue(s[i]).value)
  }

  /** Horner's rule, folding the digits left to right: acc * base + d. */
  function Horner(ds: seq<nat>, base: int): int
  {
    if ds == [] then 0 else Horner(ds[..|ds| - 1], base) * base + ds[|ds| - 1]
  }

  function Pow(b: int, e: nat): int
  {
    if e == 0 then 1 else b * Pow(b, e - 1)
  }

  /** Positional notation: the sum of ds[i] * base^(|ds| - 1 - i). */
  function Positional(ds: seq<nat>, base: int): int
  {
    if ds == [] then 0 else ds[0] * Pow(base, |ds| - 1) + Positional(ds[1..], base)
  }

  /** The digit loop of parseToBigInt: the first error, or else the Horner value of the digits. */
  function Fold(s: string, base: int): Result<int>
  {
    match FirstError(s, base)
    case Some(e) => Failure(e)
    case None => Success(Horner(Values(s), base))
  }

  /** What parseToBigInt(str, base) returns or throws. */
  function Parse(str: string, base: int): Result<int>
  {
    if Trim(str) == [] then Failure(EmptyInput)
    else if Magnitude(str) == [] then Failure(EmptyAfterSign)
    else match Fold(Magnitude(str), base)
      case Failure(e) => Failure(e)
      case Success(v) => Success(if HasSign(str) then -v else v)
  }

  /** Once a prefix is all digits, the first error is that of the rest. */
  lemma {:induction false} FirstErrorAfter(s: string, base: int, i: nat)
    requires i <= |s|
    requires forall j :: 0 <= j < i ==> IsDigitOf(s[j], base)
    ensures FirstError(s, base) == FirstError(s[i..], base)
  {
    if i > 0 {
      assert IsDigitOf(s[0], base);
      assert s[1..][i - 1..] == s[i..];
      FirstErrorAfter(s[1..], base, i - 1);
    }
  }

  /** Horner's rule computes the positional value of the digits. */
  lemma {:induction false} HornerIsPositional(ds: seq<nat>, base: int)
    ensures Horner(ds, base) == Positional(ds, base)
  {
    if ds != [] {
      var init := ds[..|ds| - 1];
      HornerIsPositional(init, base);
      PositionalAppend(init, ds[|ds| - 1], base);
      assert init + [ds[|ds| - 1]] == ds;
    }
  }

  /** Appending a digit shifts the positional value by one place. */
  lemma {:induction false} PositionalAppend(ds: seq<nat>, d: nat, base: int)
    ensures Positional(ds + [d], base) == Positional(ds, base) * base + d
  {
    if ds == [] {
      assert [d][1..] == [];
    } else {
      var rest := ds[1..];
      assert (ds + [d])[1..] == rest + [d];
      PositionalAppend(rest, d, base);
      var p := Pow(base, |rest|);
      calc {
        Positional(ds + [d], base);
        ds[0] * (base * p) + Positional(rest + [d], base);
        ds[0] * (base * p) + Positional(rest, base) * base + d;
        { assert ds[0] * (base * p) == (ds[0] * p) * base; }
        (ds[0] * p + Positional(rest, base)) * base + d;
      }
    }
  }

  /** Appending a symbol to a string of symbols folds its value into the Horner value. */
  lemma HornerSnoc(p: string, c: char, base: int)
    requires forall j :: 0 <= j < |p| ==> DigitValue(p[j]).Some?
    requires DigitValue(c).Some?
    ensures Horner(Values(p + [c]), base) == Horner(Values(p), base) * base + DigitValue(c).value
  {
    var ds := Values(p + [c]);
    assert ds[..|ds| - 1] == Values(p);
  }

  /** Folding one more symbol of s into the Horner value of the prefix before it. */
  lemma HornerStep(s: string, i: nat, base: int)
    requires i < |s|
    requires forall j :: 0 <= j <= i ==> DigitValue(s[j]).Some?
    ensures Horner(Values(s[..i + 1]), base) == Horner(Values(s[..i]), base) * base + DigitValue(s[i]).value
  {
    var ds := Values(s[..i + 1]);
    assert ds[..|ds| - 1] == Values(s[..i]);
  }

  /**
   * The digit loop of parseToBigInt: each character becomes a digit value
   * (0-9 from the character code minus 48, A-Z minus 55), a character that is
   * no symbol or whose value is not below the radix throws, and the
   * accumulator becomes val * base + digit.
   */
  method FoldDigits(s: string, base: int) returns (r: Result<int>)
    ensures r == Fold(s, base)
  {
    var val := 0;
    for i := 0 to |s|
      invariant forall j :: 0 <= j < i ==> IsDigitOf(s[j], base)
      invariant val == Horner(Values(s[..i]), base)
    {
      var ch := s[i];
      var digit: int;
      if '0' <= ch <= '9' {
        digit := ch as int - 48;
      } else if 'A' <= ch <= 'Z' {
        digit := ch as int - 55;
      } else {
        FirstErrorAfter(s, base, i);
        return Failure(InvalidCharacter(ch));
      }
      if digit >= base {
        FirstErrorAfter(s, base, i);
        return Failure(DigitOutOfRange(ch, base));
      }
      assert DigitValue(ch) == Some(digit);
      HornerStep(s, i, base);
      val := val * base + digit;
    }
    assert s[..|s|] == s;
    return Success(val);
  }

  /**
   * parseToBigInt: trim and upper-case, strip one leading minus sign,
   * run the digit loop, and negate the result when there was a sign.
   */
  method ParseToBigInt(str: string, base: int) returns (r: Result<int>)
    ensures r == Parse(str, base)
  {
    if Trim(str) == [] {
      return Failure(EmptyInput);
    }
    var s := UpperCase(Trim(str));
    var negative := false;
    if s[0] == '-' {
      negative := true;
      s := s[1..];
    }
    if s == [] {
      return Failure(EmptyAfterSign);
    }
    assert s == Magnitude(str) && negative == HasSign(str);
    var folded := FoldDigits(s, base);
    match folded
    case Failure(e) =>
      return Failure(e);
    case Success(val) =>
      return Success(if negative then -val else val);
  }

  /** Upper-casing keeps the length and maps only '-' to '-'. */
  lemma NormalizedShape(str: string)
    ensures |Normalized(str)| == |Trim(str)|
    ensures Trim(str) != [] ==> (HasSign(str) <==> Trim(str)[0] == '-')
    ensures |Magnitude(str)| == if HasSign(str) then |Trim(str)| - 1 else |Trim(str)|
  {
  }

  /** An empty or all-white-space input, and only such an input, throws 'Empty input'. */
  lemma ParseEmptyInput(str: string, base: int)
    ensures Parse(str, base) == Failure(EmptyInput) <==> forall i :: 0 <= i < |str| ==> IsSpace(str[i])
  {
    TrimEmpty(str);
  }

  /** A lone minus sign, and only that, throws 'Empty after removing sign'. */
  lemma ParseBareSign(str: string, base: int)
    ensures Parse(str, base) == Failure(EmptyAfterSign) <==> Trim(str) == "-"
  {
    NormalizedShape(str);
  }

  /**
   * The first character of the magnitude, left to right, that is not a digit
   * of the radix decides the error: InvalidCharacter when it is outside the
   * alphabet, DigitOutOfRange naming it and the radix when its value is too big.
   */
  lemma ParseFirstBadDigit(str: string, base: int, i: nat)
    requires i < |Magnitude(str)|
    requires forall j :: 0 <= j < i ==> IsDigitOf(Magnitude(str)[j], base)
    requires !IsDigitOf(Magnitude(str)[i], base)
    ensures Parse(str, base) == Failure(DigitError(Magnitude(str)[i], base))
    ensures DigitValue(Magnitude(str)[i]).None? ==> Parse(str, base) == Failure(InvalidCharacter(Magnitude(str)[i]))
    ensures DigitValue(Magnitude(str)[i]).Some? ==> Parse(str, base) == Failure(DigitOutOfRange(Magnitude(str)[i], base))
  {
    NormalizedShape(str);
    FirstErrorAfter(Magnitude(str), base, i);
  }

  /**
   * Parsing succeeds exactly when something follows the optional sign and
   * every character of it is a digit of the radix; the value is then the
   * positional value of the digits, negated when the trimmed input starts
   * with '-'.
   */
  lemma ParseSuccess(str: string, base: int)
    ensures Parse(str, base).Success? <==>
      Magnitude(str) != [] && forall i :: 0 <= i < |Magnitude(str)| ==> IsDigitOf(Magnitude(str)[i], base)
    ensures Parse(str, base).Success? ==>
      var p := Positional(Values(Magnitude(str)), base);
      Parse(str, base).value == if Trim(str)[0] == '-' then -p else p
  {
    NormalizedShape(str);
    if Parse(str, base).Success? {
      HornerIsPositional(Values(Magnitude(str)), base);
    }
  }

  /** Parsing is case-insensitive: inputs that upper-case alike parse alike. */
  lemma ParseIgnoresCase(s: string, t: string, base: int)
    requires UpperCase(s) == UpperCase(t)
    ensures Parse(s, base) == Parse(t, base)
  {
    TrimUpperCase(s);
    TrimUpperCase(t);
    assert Normalized(s) == Normalized(t);
  }

  /**
   * A leading '-' negates the value of an unsigned, already trimmed input
   * and leaves its errors unchanged; in particular "-0" parses to 0.
   */
  lemma ParseNegative(t: string, base: int)
    requires t != [] && !IsSpace(t[0]) && !IsSpace(t[|t| - 1]) && t[0] != '-'
    ensures Parse("-" + t, base) ==
      match Parse(t, base)
      case Success(v) => Success(-v)
      case Failure(e) => Failure(e)
  {
    TrimFixed(t);
    TrimFixed("-" + t);
    assert Normalized("-" + t)[1..] == UpperCase(t);
    assert Magnitude("-" + t) == Magnitude(t);
  }
}
