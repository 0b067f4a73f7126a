// Cheap shape tests for address strings (lib/bstr.js, `isBase58` and
// `isBech32`).  A JavaScript value that is not a string is `None`.
module Bstr {
  import opened Common
  import opened Charset

  // ---------------------------------------------------------------------
  // isBase58

  /** The class `[1-9A-Za-z]`: the digits other than 0 and the ASCII letters. */
  predicate IsBase58Char(ch: CodeUnit)
  {
    0x31 <= ch <= 0x39 || IsUpper(ch) || IsLower(ch)
  }

  /** `isBase58(str)`: a string matching `^[1-9A-Za-z]+$`. */
  function IsBase58(v: Option<JsString>): bool
  {
    v.Some? && |v.value| > 0 && forall i :: 0 <= i < |v.value| ==> IsBase58Char(v.value[i])
  }

  /**
   * `isBase58` accepts exactly the non-empty strings of ASCII letters and
   * digits without the digit 0; a value that is not a string is refused.
   */
  lemma Base58Chars(v: Option<JsString>)
    ensures IsBase58(v) <==>
      v.Some? && |v.value| > 0 && forall i :: 0 <= i < |v.value| ==> IsAlnum(v.value[i]) && v.value[i] != 0x30
  {
  }

  /**
   * The class is wider than the Base58 alphabet: `0` is refused, but `I`,
   * `O` and `l`, which Base58 leaves out, are accepted.
   */
  lemma Base58Wider()
    ensures !IsBase58(Some(ZERO)) && IsBase58(Some(EYE_OH_ELL))
    ensures !IsBase58(Some([])) && !IsBase58(None)
  {
    assert !IsBase58Char(ZERO[0]);
    assert IsBase58Char(EYE_OH_ELL[0]) && IsBase58Char(EYE_OH_ELL[1]) && IsBase58Char(EYE_OH_ELL[2]);
  }

  /** The strings `0` and `IOl`. */
  const ZERO: JsString := [0x30]
  const EYE_OH_ELL: JsString := [0x49, 0x4f, 0x6c]

  // ---------------------------------------------------------------------
  // isBech32

  predicate IsLetter(ch: CodeUnit)
  {
    IsUpper(ch) || IsLower(ch)
  }

  /** Code unit `1`, between the human-readable part and the data. */
  const ONE: CodeUnit := 0x31

  /** A code unit of the class `[qpzry9x8gf2tvdw0s3jn54khce6mua7l]`, compared without case. */
  predicate IsDataChar(ch: CodeUnit)
  {
    ToLower(ch) in CHARSET
  }

  /**
   * `^[a-zA-Z]{1,3}1[qpzry9x8gf2tvdw0s3jn54khce6mua7l]+$` matching `s` with
   * the `1` at position `k`.
   */
  predicate MatchesAt(s: JsString, k: nat)
  {
    1 <= k <= 3 && k + 1 < |s| &&
    (forall i :: 0 <= i < k ==> IsLetter(s[i])) &&
    s[k] == ONE &&
    (forall i :: k < i < |s| ==> IsDataChar(s[i]))
  }

  /** The number of ASCII letters `s` begins with. */
  function LeadingLetters(s: JsString): (k: nat)
    ensures k <= |s|
    ensures forall i :: 0 <= i < k ==> IsLetter(s[i])
    ensures k < |s| ==> !IsLetter(s[k])
    decreases |s|
  {
    if s == [] || !IsLetter(s[0]) then 0 else 1 + LeadingLetters(s[1..])
  }

  /**
   * The pattern of `isBech32`, matched without backtracking: the letters run
   * up to the first code unit that is not a letter, which must be the `1`.
   */
  predicate Bech32Pattern(s: JsString)
  {
    var k := LeadingLetters(s);
    1 <= k <= 3 && k + 1 < |s| && s[k] == ONE &&
    forall i :: k < i < |s| ==> IsDataChar(s[i])
  }

  /** The letter run is the only place the pattern can put its `1`. */
  lemma Bech32PatternMatches(s: JsString)
    ensures Bech32Pattern(s) <==> exists k: nat :: MatchesAt(s, k)
  {
    if exists k: nat :: MatchesAt(s, k) {
      var k: nat :| MatchesAt(s, k);
      assert !IsLetter(s[k]);
      assert LeadingLetters(s) == k;
    }
    if Bech32Pattern(s) {
      assert MatchesAt(s, LeadingLetters(s));
    }
  }

  /**
   * `isBech32(str)`: a string of one case, 8 to 90 code units long, of the
   * form `hrp '1' data` with a human-readable part of one to three letters.
   */
  function IsBech32(v: Option<JsString>): bool
  {
    match v
    case None => false
    case Some(s) =>
      if UpperAll(s) != s && LowerAll(s) != s then false
      else if |s| < 8 || |s| > 90 then false
      else Bech32Pattern(s)
  }

  lemma UpperAllFixed(s: JsString)
    ensures UpperAll(s) == s <==> !HasLower(s)
  {
    if HasLower(s) {
      var i :| 0 <= i < |s| && IsLower(s[i]);
      assert UpperAll(s)[i] != s[i];
    } else {
      assert UpperAll(s) == s;
    }
  }

  lemma LowerAllFixed(s: JsString)
    ensures LowerAll(s) == s <==> !HasUpper(s)
  {
    if HasUpper(s) {
      var i :| 0 <= i < |s| && IsUpper(s[i]);
      assert LowerAll(s)[i] != s[i];
    } else {
      assert LowerAll(s) == s;
    }
  }

  /**
   * The case test of `isBech32` refuses exactly the strings with both
   * lower-case and upper-case letters.
   */
  lemma Bech32MixedCase(s: JsString)
    ensures (UpperAll(s) != s && LowerAll(s) != s) <==> HasLower(s) && HasUpper(s)
    ensures HasLower(s) && HasUpper(s) ==> !IsBech32(Some(s))
  {
    UpperAllFixed(s);
    LowerAllFixed(s);
  }

  /**
   * `isBech32` accepts exactly the strings of one case, 8 to 90 code units
   * long, that the pattern matches somewhere; never a value that is not a
   * string.
   */
  lemma Bech32Accepts(v: Option<JsString>)
    ensures IsBech32(v) <==>
      v.Some? && !(HasLower(v.value) && HasUpper(v.value)) && 8 <= |v.value| <= 90 &&
      exists k: nat :: MatchesAt(v.value, k)
  {
    if v.Some? {
      Bech32MixedCase(v.value);
      Bech32PatternMatches(v.value);
    }
  }

  /** Too short or too long a string is refused. */
  lemma Bech32Length(s: JsString)
    requires |s| < 8 || |s| > 90
    ensures !IsBech32(Some(s))
  {
  }

  /**
   * An accepted string has at least four data characters after its `1`, each
   * one a CashAddr symbol in either case: the string is at least eight long
   * and its human-readable part at most three.
   */
  lemma Bech32DataPart(s: JsString)
    requires IsBech32(Some(s))
    ensures var k := LeadingLetters(s);
      k < |s| && s[k] == ONE && |s| - k - 1 >= 4 &&
      forall i :: k < i < |s| ==> Lookup(s[i]) != -1
  {
    var k := LeadingLetters(s);
    forall i | k < i < |s|
      ensures Lookup(s[i]) != -1
    {
      DataCharSymbol(s[i]);
    }
  }

  /** A code unit of the data class is a character of the alphabet, in either case. */
  lemma DataCharSymbol(ch: CodeUnit)
    requires IsDataChar(ch)
    ensures Lookup(ch) != -1
  {
    var v :| 0 <= v < 32 && CHARSET[v] == ToLower(ch);
    LookupCharset(v);
    if IsUpper(ch) {
      assert ToUpper(CHARSET[v]) == ch;
    }
  }
}
