/**
 * The two JavaScript string built-ins that parseToBigInt applies to its
 * input: String.prototype.trim and String.prototype.toUpperCase.
 * Characters are Unicode code points, as `for (let ch of s)` sees them.
 */
module JsText {

  /**
   * The characters trim removes: the ECMAScript WhiteSpace code points
   * (TAB, VT, FF, ZWNBSP and every Space_Separator) and its LineTerminators
   * (LF, CR, LS, PS).
   */
  predicate IsSpace(c: char)
  {
    c == '\t' || c == '\n' || c == '\U{000B}' || c == '\U{000C}' || c == '\r'
    || c == ' ' || c == '\U{00A0}' || c == '\U{1680}'
    || ('\U{2000}' <= c <= '\U{200A}')
    || c == '\U{2028}' || c == '\U{2029}' || c == '\U{202F}' || c == '\U{205F}'
    || c == '\U{3000}' || c == '\U{FEFF}'
  }

  function TrimStart(s: string): string
  {
    if s != [] && IsSpace(s[0]) then TrimStart(s[1..]) else s
  }

  function TrimEnd(s: string): string
  {
    if s != [] && IsSpace(s[|s| - 1]) then TrimEnd(s[..|s| - 1]) else s
  }

  /** s without its leading and trailing white space. */
  function Trim(s: string): string
  {
    TrimEnd(TrimStart(s))
  }

  /** Upper-casing of one character, for the ASCII letters a-z. */
  function ToUpper(c: char): char
  {
    if 'a' <= c <= 'z' then (c as int - 32) as char else c
  }

  function UpperCase(s: string): string
  {
    seq(|s|, i requires 0 <= i < |s| => ToUpper(s[i]))
  }

  lemma {:induction false} TrimStartSlice(s: string) returns (lo: nat)
    ensures lo <= |s| && TrimStart(s) == s[lo..]
    ensures forall i :: 0 <= i < lo ==> IsSpace(s[i])
    ensures lo < |s| ==> !IsSpace(s[lo])
  {
    if s != [] && IsSpace(s[0]) {
      var k := TrimStartSlice(s[1..]);
      lo := k + 1;
      assert s[1..][k..] == s[lo..];
      forall i | 0 <= i < lo ensures IsSpace(s[i]) {
        if i > 0 { assert s[i] == s[1..][i - 1]; }
      }
    } else {
      lo := 0;
    }
  }

  lemma {:induction false} TrimEndSlice(s: string) returns (hi: nat)
    ensures hi <= |s| && TrimEnd(s) == s[..hi]
    ensures forall i :: hi <= i < |s| ==> IsSpace(s[i])
    ensures 0 < hi ==> !IsSpace(s[hi - 1])
  {
    if s != [] && IsSpace(s[|s| - 1]) {
      hi := TrimEndSlice(s[..|s| - 1]);
      assert s[..|s| - 1][..hi] == s[..hi];
    } else {
      hi := |s|;
    }
  }

  /**
   * trim removes exactly the longest all-space prefix and suffix:
   * the result is the slice s[lo..hi], everything outside it is white space,
   * and a non-empty result starts and ends with a non-space character.
   */
  lemma TrimSlice(s: string) returns (lo: nat, hi: nat)
    ensures lo <= hi <= |s| && Trim(s) == s[lo..hi]
    ensures forall i :: 0 <= i < lo ==> IsSpace(s[i])
    ensures forall i :: hi <= i < |s| ==> IsSpace(s[i])
    ensures lo < hi ==> !IsSpace(s[lo]) && !IsSpace(s[hi - 1])
  {
    lo := TrimStartSlice(s);
    var k := TrimEndSlice(s[lo..]);
    hi := lo + k;
    assert s[lo..][..k] == s[lo..hi];
    forall i | hi <= i < |s| ensures IsSpace(s[i]) {
      assert s[i] == s[lo..][i - lo];
    }
    if lo < hi {
      assert s[lo..][k - 1] == s[hi - 1];
      if k == 1 {
        assert s[lo] == s[hi - 1];
      }
    }
  }

  /** trim leaves nothing exactly when every character is white space. */
  lemma TrimEmpty(s: string)
    ensures Trim(s) == [] <==> forall i :: 0 <= i < |s| ==> IsSpace(s[i])
  {
    var lo, hi := TrimSlice(s);
    if lo < hi {
      assert !IsSpace(s[lo]);
    }
  }

  /** A string with no white space at either end is its own trim. */
  lemma TrimFixed(s: string)
    requires s != [] ==> !IsSpace(s[0]) && !IsSpace(s[|s| - 1])
    ensures Trim(s) == s
  {
    var lo, hi := TrimSlice(s);
  }

  /** trim is idempotent. */
  lemma TrimTwice(s: string)
    ensures Trim(Trim(s)) == Trim(s)
  {
    var lo, hi := TrimSlice(s);
    TrimFixed(Trim(s));
  }

  /** Upper-casing never creates or removes white space, so trim and upper-case commute. */
  lemma {:induction false} TrimUpperCase(s: string)
    ensures Trim(UpperCase(s)) == UpperCase(Trim(s))
  {
    var lo, hi := TrimSlice(s);
    var ulo, uhi := TrimSlice(UpperCase(s));
    assert forall i :: 0 <= i < |s| ==> (IsSpace(UpperCase(s)[i]) <==> IsSpace(s[i]));
    if ulo < lo { assert IsSpace(s[ulo]); }
    if lo < ulo { assert IsSpace(UpperCase(s)[lo]); }
    if lo >= hi {
      assert ulo >= uhi;
    }
  }

  /** A string without lower-case ASCII letters is its own upper-case form. */
  lemma UpperCaseFixed(s: string)
    requires forall i :: 0 <= i < |s| ==> !('a' <= s[i] <= 'z')
    ensures UpperCase(s) == s
  {
  }
}
