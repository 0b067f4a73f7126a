// The 32-symbol alphabet of CashAddr and its reverse lookup table
// (lib/cashaddr-browser.js, `CHARSET` and `TABLE`).
module Charset {
  import opened Common

  /** The characters `qpzry9x8gf2tvdw0s3jn54khce6mua7l`, as code units; symbol `v` is written `CHARSET[v]`. */
  const CHARSET: seq<CodeUnit> :=
    ([0x71, 0x70, 0x7a, 0x72, 0x79, 0x39, 0x78, 0x38] +
     [0x67, 0x66, 0x32, 0x74, 0x76, 0x64, 0x77, 0x30]) +
    ([0x73, 0x33, 0x6a, 0x6e, 0x35, 0x34, 0x6b, 0x68] +
     [0x63, 0x65, 0x36, 0x6d, 0x75, 0x61, 0x37, 0x6c])

  /** The symbol each ASCII code unit stands for, either case, or -1; one row per 16 code units. */
  const TABLE: seq<int> :=
    (([-1, -1, -1, -1, -1, -1, -1, -1, -1, -1, -1, -1, -1, -1, -1, -1] +
      [-1, -1, -1, -1, -1, -1, -1, -1, -1, -1, -1, -1, -1, -1, -1, -1]) +
     ([-1, -1, -1, -1, -1, -1, -1, -1, -1, -1, -1, -1, -1, -1, -1, -1] +
      [15, -1, 10, 17, 21, 20, 26, 30,  7,  5, -1, -1, -1, -1, -1, -1])) +
    (([-1, 29, -1, 24, 13, 25,  9,  8, 23, -1, 18, 22, 31, 27, 19, -1] +
      [1,  0,  3, 16, 11, 28, 12, 14,  6,  4,  2, -1, -1, -1, -1, -1]) +
     ([-1, 29, -1, 24, 13, 25,  9,  8, 23, -1, 18, 22, 31, 27, 19, -1] +
      [1,  0,  3, 16, 11, 28, 12, 14,  6,  4,  2, -1, -1, -1, -1, -1]))

  /** `(ch & 0xff80) ? -1 : TABLE[ch]`: code units of 0x80 and above are never symbols. */
  function Lookup(ch: CodeUnit): int
  {
    if ch >= 0x80 then -1 else TABLE[ch]
  }

  predicate IsLower(ch: CodeUnit)
  {
    0x61 <= ch <= 0x7a
  }

  predicate IsUpper(ch: CodeUnit)
  {
    0x41 <= ch <= 0x5a
  }

  predicate IsDigit(ch: CodeUnit)
  {
    0x30 <= ch <= 0x39
  }

  predicate IsAlnum(ch: CodeUnit)
  {
    IsLower(ch) || IsUpper(ch) || IsDigit(ch)
  }

  predicate HasLower(s: JsString)
  {
    exists i :: 0 <= i < |s| && IsLower(s[i])
  }

  predicate HasUpper(s: JsString)
  {
    exists i :: 0 <= i < |s| && IsUpper(s[i])
  }

  predicate HasDigit(s: JsString)
  {
    exists i :: 0 <= i < |s| && IsDigit(s[i])
  }

  /** ASCII upper case; every other code unit is left alone. */
  function ToUpper(ch: CodeUnit): CodeUnit
  {
    if IsLower(ch) then ch - 0x20 else ch
  }

  /** ASCII lower case; every other code unit is left alone. */
  function ToLower(ch: CodeUnit): CodeUnit
  {
    if IsUpper(ch) then ch + 0x20 else ch
  }

  /** `str.toUpperCase()`, on ASCII letters. */
  function UpperAll(s: JsString): (r: JsString)
    ensures |r| == |s|
  {
    seq(|s|, i requires 0 <= i < |s| => ToUpper(s[i]))
  }

  /** `str.toLowerCase()`, on ASCII letters. */
  function LowerAll(s: JsString): (r: JsString)
    ensures |r| == |s|
  {
    seq(|s|, i requires 0 <= i < |s| => ToLower(s[i]))
  }

  /** The characters of a sequence of symbols. */
  function Spell(syms: seq<nat>): (r: seq<CodeUnit>)
    requires forall i :: 0 <= i < |syms| ==> syms[i] < 32
    ensures |r| == |syms|
  {
    seq(|syms|, i requires 0 <= i < |syms| => CHARSET[syms[i]])
  }

  lemma SpellSnoc(syms: seq<nat>, v: nat)
    requires (forall i :: 0 <= i < |syms| ==> syms[i] < 32) && v < 32
    ensures Spell(syms + [v]) == Spell(syms) + [CHARSET[v]]
  {
  }

  // ---------------------------------------------------------------------
  // The table inverts the alphabet

  /** Every symbol is read back from its character, in lower case and in upper case. */
  lemma LookupCharset(v: nat)
    requires v < 32
    ensures Lookup(CHARSET[v]) == v && Lookup(ToUpper(CHARSET[v])) == v
  {
    if v < 8 {
      CharsetRow0(v);
    } else if v < 16 {
      CharsetRow1(v);
    } else if v < 24 {
      CharsetRow2(v);
    } else {
      CharsetRow3(v);
    }
  }

  /**
   * Every code unit the table accepts is the character of that symbol, up to
   * case; every other code unit, including every one of 0x80 and above, is -1.
   */
  lemma LookupValid(ch: CodeUnit)
    ensures Lookup(ch) == -1 || (0 <= Lookup(ch) < 32 && CHARSET[Lookup(ch)] == ToLower(ch))
  {
    if ch < 0x10 {
      TableRow0(ch);
    } else if ch < 0x20 {
      TableRow1(ch);
    } else if ch < 0x30 {
      TableRow2(ch);
    } else if ch < 0x40 {
      TableRow3(ch);
    } else if ch < 0x50 {
      TableRow4(ch);
    } else if ch < 0x60 {
      TableRow5(ch);
    } else if ch < 0x70 {
      TableRow6(ch);
    } else if ch < 0x80 {
      TableRow7(ch);
    }
  }

  /** Whatever the table gives is -1 or a symbol. */
  lemma LookupRange(ch: CodeUnit)
    ensures Lookup(ch) == -1 || 0 <= Lookup(ch) < 32
  {
    LookupValid(ch);
  }

  // The tables, checked a row at a time.

  lemma TableRow0(ch: nat)
    requires 0 <= ch < 0x10
    ensures TABLE[ch] == -1 || (0 <= TABLE[ch] < 32 && CHARSET[TABLE[ch]] == ToLower(ch))
  {
    assert ch == 0 || ch == 1 || ch == 2 || ch == 3 || ch == 4 || ch == 5 || ch == 6 || ch == 7
      || ch == 8 || ch == 9 || ch == 10 || ch == 11 || ch == 12 || ch == 13 || ch == 14 || ch == 15;
  }

  lemma TableRow1(ch: nat)
    requires 0x10 <= ch < 0x20
    ensures TABLE[ch] == -1 || (0 <= TABLE[ch] < 32 && CHARSET[TABLE[ch]] == ToLower(ch))
  {
    assert ch == 16 || ch == 17 || ch == 18 || ch == 19 || ch == 20 || ch == 21 || ch == 22 || ch == 23
      || ch == 24 || ch == 25 || ch == 26 || ch == 27 || ch == 28 || ch == 29 || ch == 30 || ch == 31;
  }

  lemma TableRow2(ch: nat)
    requires 0x20 <= ch < 0x30
    ensures TABLE[ch] == -1 || (0 <= TABLE[ch] < 32 && CHARSET[TABLE[ch]] == ToLower(ch))
  {
    assert ch == 32 || ch == 33 || ch == 34 || ch == 35 || ch == 36 || ch == 37 || ch == 38 || ch == 39
      || ch == 40 || ch == 41 || ch == 42 || ch == 43 || ch == 44 || ch == 45 || ch == 46 || ch == 47;
  }

  lemma TableRow3(ch: nat)
    requires 0x30 <= ch < 0x40
    ensures TABLE[ch] == -1 || (0 <= TABLE[ch] < 32 && CHARSET[TABLE[ch]] == ToLower(ch))
  {
    assert ch == 48 || ch == 49 || ch == 50 || ch == 51 || ch == 52 || ch == 53 || ch == 54 || ch == 55
      || ch == 56 || ch == 57 || ch == 58 || ch == 59 || ch == 60 || ch == 61 || ch == 62 || ch == 63;
  }

  lemma TableRow4(ch: nat)
    requires 0x40 <= ch < 0x50
    ensures TABLE[ch] == -1 || (0 <= TABLE[ch] < 32 && CHARSET[TABLE[ch]] == ToLower(ch))
  {
    assert ch == 64 || ch == 65 || ch == 66 || ch == 67 || ch == 68 || ch == 69 || ch == 70 || ch == 71
      || ch == 72 || ch == 73 || ch == 74 || ch == 75 || ch == 76 || ch == 77 || ch == 78 || ch == 79;
  }

  lemma TableRow5(ch: nat)
    requires 0x50 <= ch < 0x60
    ensures TABLE[ch] == -1 || (0 <= TABLE[ch] < 32 && CHARSET[TABLE[ch]] == ToLower(ch))
  {
    assert ch == 80 || ch == 81 || ch == 82 || ch == 83 || ch == 84 || ch == 85 || ch == 86 || ch == 87
      || ch == 88 || ch == 89 || ch == 90 || ch == 91 || ch == 92 || ch == 93 || ch == 94 || ch == 95;
  }

  lemma TableRow6(ch: nat)
    requires 0x60 <= ch < 0x70
    ensures TABLE[ch] == -1 || (0 <= TABLE[ch] < 32 && CHARSET[TABLE[ch]] == ToLower(ch))
  {
    assert ch == 96 || ch == 97 || ch == 98 || ch == 99 || ch == 100 || ch == 101 || ch == 102 || ch == 103
      || ch == 104 || ch == 105 || ch == 106 || ch == 107 || ch == 108 || ch == 109 || ch == 110 || ch == 111;
  }

  lemma TableRow7(ch: nat)
    requires 0x70 <= ch < 0x80
    ensures TABLE[ch] == -1 || (0 <= TABLE[ch] < 32 && CHARSET[TABLE[ch]] == ToLower(ch))
  {
    assert ch == 112 || ch == 113 || ch == 114 || ch == 115 || ch == 116 || ch == 117 || ch == 118 || ch == 119
      || ch == 120 || ch == 121 || ch == 122 || ch == 123 || ch == 124 || ch == 125 || ch == 126 || ch == 127;
  }

  lemma CharsetRow0(v: nat)
    requires 0 <= v < 8
    ensures Lookup(CHARSET[v]) == v && Lookup(ToUpper(CHARSET[v])) == v
  {
    assert v == 0 || v == 1 || v == 2 || v == 3 || v == 4 || v == 5 || v == 6 || v == 7;
  }

  lemma CharsetRow1(v: nat)
    requires 8 <= v < 16
    ensures Lookup(CHARSET[v]) == v && Lookup(ToUpper(CHARSET[v])) == v
  {
    assert v == 8 || v == 9 || v == 10 || v == 11 || v == 12 || v == 13 || v == 14 || v == 15;
  }

  lemma CharsetRow2(v: nat)
    requires 16 <= v < 24
    ensures Lookup(CHARSET[v]) == v && Lookup(ToUpper(CHARSET[v])) == v
  {
    assert v == 16 || v == 17 || v == 18 || v == 19 || v == 20 || v == 21 || v == 22 || v == 23;
  }

  lemma CharsetRow3(v: nat)
    requires 24 <= v < 32
    ensures Lookup(CHARSET[v]) == v && Lookup(ToUpper(CHARSET[v])) == v
  {
    assert v == 24 || v == 25 || v == 26 || v == 27 || v == 28 || v == 29 || v == 30 || v == 31;
  }

  /** Every character of the alphabet is a lower-case letter or a digit. */
  lemma CharsetAlnum(v: nat)
    requires v < 32
    ensures IsLower(CHARSET[v]) || IsDigit(CHARSET[v])
  {
  }

  // ---------------------------------------------------------------------
  // The table ignores case

  /** A code unit and its upper-case form stand for the same symbol, or both for none. */
  lemma LookupUpper(ch: CodeUnit)
    ensures Lookup(ToUpper(ch)) == Lookup(ch)
  {
    LookupValid(ch);
    LookupValid(ToUpper(ch));
    if Lookup(ch) != -1 {
      LookupCharset(Lookup(ch));
    } else if Lookup(ToUpper(ch)) != -1 {
      LookupCharset(Lookup(ToUpper(ch)));
    }
  }

  /** Upper-casing a slice is slicing the upper-cased string. */
  lemma UpperAllSlice(s: JsString, a: nat, b: nat)
    requires a <= b <= |s|
    ensures UpperAll(s)[a..b] == UpperAll(s[a..b])
  {
  }

  /** An upper-cased string has no lower-case letter, and the digits it had. */
  lemma UpperAllClasses(s: JsString)
    ensures !HasLower(UpperAll(s)) && HasDigit(UpperAll(s)) == HasDigit(s)
  {
    if HasDigit(s) {
      var i :| 0 <= i < |s| && IsDigit(s[i]);
      assert IsDigit(UpperAll(s)[i]);
    }
  }
}
