/**
 * bigIntToBaseStr (script.js): an unbounded integer to its digit string in
 * a radix from 2 to 36.
 */
module Formatter {
  import opened Digits

  /** A radix the formatter accepts: base 1 never ends, 0 divides by zero, above 36 leaves the alphabet. */
  predicate IsRadix(base: int)
  {
    2 <= base <= 36
  }

  /** The symbols of a natural number, most significant first; empty for 0. */
  function DigitsOf(m: nat, base: int): string
    requires IsRadix(base)
    decreases m
  {
    if m == 0 then [] else DigitsOf(m / base, base) + [Symbol(m % base)]
  }

  /** What bigIntToBaseStr(n, base) returns. */
  function Format(n: int, base: int): string
    requires IsRadix(base)
  {
    if n == 0 then "0"
    else if n < 0 then "-" + DigitsOf(-n, base)
    else DigitsOf(n, base)
  }

  /** A digit string with no leading zero: at least one digit, each a digit of the radix. */
  predicate IsCanonicalDigits(ds: string, base: int)
  {
    ds != [] && ds[0] != '0' && forall i :: 0 <= i < |ds| ==> IsDigitOf(ds[i], base)
  }

  /** The canonical forms: "0", or canonical digits with an optional leading '-'. */
  predicate IsCanonical(s: string, base: int)
  {
    s == "0" || IsCanonicalDigits(s, base) || (s != [] && s[0] == '-' && IsCanonicalDigits(s[1..], base))
  }

  /** The digits of a positive number are canonical digits of the radix. */
  lemma {:induction false} DigitsOfCanonical(m: nat, base: int)
    requires IsRadix(base) && m > 0
    ensures IsCanonicalDigits(DigitsOf(m, base), base)
  {
    var d := m % base;
    SymbolBijection(d, Symbol(d));
    DivDecreases(m, base);
    if m / base == 0 {
      assert DigitsOf(m, base) == [Symbol(d)];
    } else {
      DigitsOfCanonical(m / base, base);
    }
  }

  /**
   * The output is canonical: exactly "0" for zero; otherwise a '-' exactly
   * when n is negative, followed by a non-empty run of upper-case symbols,
   * each a digit of the radix, the first not '0'.
   */
  lemma FormatCanonical(n: int, base: int)
    requires IsRadix(base)
    ensures Format(n, base) == "0" <==> n == 0
    ensures n != 0 ==> (Format(n, base)[0] == '-' <==> n < 0)
    ensures n != 0 ==>
      var ds := if n < 0 then Format(n, base)[1..] else Format(n, base);
      IsCanonicalDigits(ds, base)
    ensures IsCanonical(Format(n, base), base)
  {
    if n != 0 {
      var m := if n < 0 then -n else n;
      DigitsOfCanonical(m, base);
      if n < 0 {
        assert Format(n, base)[1..] == DigitsOf(m, base);
      }
    }
  }

  lemma MulMonoLeft(a: int, b: int, c: int)
    requires a >= 0 && b <= c
    ensures a * b <= a * c
  {
  }

  /** Dividing a positive number by the radix makes it smaller. */
  lemma DivDecreases(num: nat, base: int)
    requires IsRadix(base) && num > 0
    ensures 0 <= num / base < num
    ensures num == (num / base) * base + num % base
  {
    var q, r := num / base, num % base;
    assert num == base * q + r && 0 <= r < base;
    if q < 0 {
      MulMonoLeft(base, q, -1);
    }
    if q >= num {
      MulMonoLeft(base, num, q);
    }
  }

  /** One turn of the loop: num's last symbol moves to the front of out and num shrinks. */
  lemma DigitsOfStep(num: nat, base: int, out: string)
    requires IsRadix(base) && num > 0
    ensures 0 <= num / base < num
    ensures DigitsOf(num, base) + out == DigitsOf(num / base, base) + ([Symbol(num % base)] + out)
  {
    DivDecreases(num, base);
  }

  /**
   * bigIntToBaseStr, step by step: take the magnitude, then repeatedly
   * prepend the symbol of num % base and divide num by base until it is 0.
   */
  method BigIntToBaseStr(n: int, base: int) returns (s: string)
    requires IsRadix(base)
    ensures s == Format(n, base)
  {
    if n == 0 {
      return "0";
    }
    var negative := n < 0;
    var num: nat := if negative then -n else n;
    ghost var magnitude := num;
    var out := "";
    while num > 0
      invariant 0 <= num
      invariant DigitsOf(num, base) + out == DigitsOf(magnitude, base)
      decreases num
    {
      var rem := num % base;
      var ch: char;
      if rem < 10 {
        ch := (rem + 48) as char;
      } else {
        ch := (rem - 10 + 65) as char;
      }
      assert ch == Symbol(rem);
      DigitsOfStep(num, base, out);
      out := [ch] + out;
      num := num / base;
    }
    assert out == DigitsOf(magnitude, base);
    return if negative then "-" + out else out;
  }
}
