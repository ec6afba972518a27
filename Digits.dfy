/**
 * The digit alphabet shared by the parser and the formatter of script.js:
 * the 36 symbols 0-9 then A-Z, standing for the values 0 to 35.
 * The source writes the mapping inline twice (once per direction); here it
 * is defined once, with the fixed alphabet string as its reference.
 */
module Digits {

  datatype Option<T> = None | Some(value: T)

  /** The symbols in value order: the symbol for value d is Alphabet[d]. */
  const Alphabet: string := "0123456789ABCDEFGHIJKLMNOPQRSTUVWXYZ"

  /** The value of an (upper-case) symbol, or None for any other character. */
  function DigitValue(c: char): Option<nat>
  {
    if '0' <= c <= '9' then Some(c as int - '0' as int)
    else if 'A' <= c <= 'Z' then Some(c as int - 'A' as int + 10)
    else None
  }

  /** The symbol written for a digit value; letters are upper case. */
  function Symbol(d: nat): char
    requires d < 36
  {
    if d < 10 then ('0' as int + d) as char
    else ('A' as int + (d - 10)) as char
  }

  /** A character is a digit of radix `base` when it is a symbol whose value is below `base`. */
  predicate IsDigitOf(c: char, base: int)
  {
    DigitValue(c).Some? && DigitValue(c).value < base
  }

  /** Symbol writes the alphabet forwards: the symbol for d is the d-th letter of Alphabet. */
  lemma SymbolInAlphabet(d: nat)
    requires d < 36
    ensures Symbol(d) == Alphabet[d]
  {
  }

  /** The mapping is a bijection between 0..35 and the alphabet, in both directions. */
  lemma SymbolBijection(d: nat, c: char)
    requires d < 36
    ensures DigitValue(c) == Some(d) <==> Symbol(d) == c
  {
  }

  /**
   * DigitValue reads the alphabet backwards: it fails exactly on characters
   * outside the alphabet and otherwise gives the symbol's position in it.
   */
  lemma DigitValueInAlphabet(c: char)
    ensures DigitValue(c).None? <==> c !in Alphabet
    ensures DigitValue(c).Some? ==> DigitValue(c).value < |Alphabet| && Alphabet[DigitValue(c).value] == c
  {
    match DigitValue(c)
    case Some(v) =>
      SymbolBijection(v, c);
      SymbolInAlphabet(v);
    case None =>
      forall i | 0 <= i < |Alphabet| ensures Alphabet[i] != c {
        SymbolBijection(i, c);
        SymbolInAlphabet(i);
      }
  }
}
