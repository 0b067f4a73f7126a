// The CashAddr string grammar: prefix, separator, data symbols and eight
// checksum symbols (lib/cashaddr-browser.js, `serialize` and `deserialize`).
module Serialization {
  import opened Bits
  import opened Common
  import opened Checksum
  import opened Charset
  import opened Regroup

  /** The code unit of ':'. */
  const SEPARATOR: CodeUnit := 0x3a

  /**
   * The checksum symbol of each prefix character: its low five bits.  The
   * encoder masks the code unit with 0x1f; the decoder first sets bit 5,
   * which the mask clears again, so both take the code unit modulo 32.
   */
  function PrefixSymbols(prefix: JsString): (r: seq<nat>)
    ensures |r| == |prefix|
  {
    seq(|prefix|, i requires 0 <= i < |prefix| => prefix[i] % 32)
  }

  /** The checksum state after the prefix and the separator, which contributes a bare step. */
  function PrefixState(prefix: JsString): Word
  {
    Polymod(Fold(Of(1), PrefixSymbols(prefix)))
  }

  /** The eight checksum symbols written after data that leaves the state at `c`. */
  function ChecksumSymbols(c: Word): (r: seq<nat>)
    ensures |r| == 8 && forall i :: 0 <= i < 8 ==> r[i] < 32
  {
    DigitsBelow(Xor(PolymodN(c, 8), Of(1)), 8);
    Digits(Xor(PolymodN(c, 8), Of(1)), 8)
  }

  /** The encoder takes prefix code units from 0x20 to 0xff and throws on any other. */
  predicate PrefixPrintable(prefix: JsString)
  {
    forall i :: 0 <= i < |prefix| ==> 0x20 <= prefix[i] < 0x100
  }

  /**
   * `serialize(prefix, data)`: the prefix, ':', the characters of the data
   * symbols and of the eight checksum symbols.
   */
  function Serialized(prefix: JsString, data: seq<nat>): Result<JsString>
  {
    if !PrefixPrintable(prefix) then Err(InvalidPrefixCharacter)
    else if !Fits(data, 5) then Err(InvalidValue)
    else
      var checksum := ChecksumSymbols(Fold(PrefixState(prefix), data));
      Ok(prefix + [SEPARATOR] + Spell(data) + Spell(checksum))
  }

  /** `serialize`, as the source computes it. */
  method Serialize(prefix: JsString, data: seq<nat>) returns (r: Result<JsString>)
    ensures r == Serialized(prefix, data)
  {
    var ok, str, chk := WritePrefix(prefix);
    if !ok {
      return Err(InvalidPrefixCharacter);
    }
    chk := ComputePolymod(chk);
    str := str + [SEPARATOR];
    for i := 0 to |data|
      invariant Fits(data[..i], 5)
      invariant chk == Fold(PrefixState(prefix), data[..i])
      invariant str == prefix + [SEPARATOR] + Spell(data[..i])
    {
      var ch := data[i];
      if ch >= 32 {
        DataRejected(data, i);
        return Err(InvalidValue);
      }
      DataStep(data, i);
      chk := ComputePolymod(chk);
      chk := Xor(chk, Of(ch));
      str := str + [CHARSET[ch]];
    }
    TakeAll(data);
    str := AppendChecksum(str, chk);
    return Ok(str);
  }

  /**
   * The prefix loop of `serialize`: each code unit is checked, fed to the
   * checksum by its low five bits and copied to the output.
   */
  method WritePrefix(prefix: JsString) returns (ok: bool, str: JsString, chk: Word)
    ensures ok <==> PrefixPrintable(prefix)
    ensures ok ==> str == prefix && chk == Fold(Of(1), PrefixSymbols(prefix))
  {
    chk := Of(1);
    str := [];
    for i := 0 to |prefix|
      invariant forall j :: 0 <= j < i ==> 0x20 <= prefix[j] < 0x100
      invariant chk == Fold(Of(1), PrefixSymbols(prefix[..i]))
      invariant str == prefix[..i]
    {
      var ch := prefix[i];
      if ch >= 0x100 || ch < 0x20 {
        PrefixRejected(prefix, i);
        return false, str, chk;
      }
      PrefixStep(prefix, i);
      chk := ComputePolymod(chk);
      chk := Xor(chk, Of(ch % 32));
      str := str + [ch];
    }
    TakeAll(prefix);
    ok := true;
  }

  /** The tail of `serialize`: eight bare steps, xor 1, then the eight digits of the state as characters. */
  method AppendChecksum(head: JsString, c: Word) returns (str: JsString)
    ensures str == head + Spell(ChecksumSymbols(c))
  {
    var chk := c;
    for i := 0 to 8
      invariant chk == PolymodN(c, i)
    {
      chk := ComputePolymod(chk);
    }
    chk := Xor(chk, Of(1));
    DigitsBelow(chk, 8);
    str := head;
    for i := 0 to 8
      invariant str == head + Spell(Digits(chk, 8)[..i])
    {
      var v := Lo(Shr(chk, (7 - i) * 5));
      ChecksumStep(chk, i);
      str := str + [CHARSET[v]];
    }
    TakeAll(Digits(chk, 8));
  }

  lemma PrefixRejected(prefix: JsString, i: nat)
    requires i < |prefix| && (prefix[i] >= 0x100 || prefix[i] < 0x20)
    ensures !PrefixPrintable(prefix)
  {
  }

  lemma PrefixStep(prefix: JsString, i: nat)
    requires i < |prefix|
    ensures Fold(Of(1), PrefixSymbols(prefix[..i + 1])) == Xor(Polymod(Fold(Of(1), PrefixSymbols(prefix[..i]))), Of(prefix[i] % 32))
    ensures prefix[..i + 1] == prefix[..i] + [prefix[i]]
  {
    PrefixSymbolsSnoc(prefix, i);
    FoldSnoc(Of(1), PrefixSymbols(prefix[..i]), prefix[i] % 32);
  }

  lemma PrefixSymbolsSnoc(prefix: JsString, i: nat)
    requires i < |prefix|
    ensures PrefixSymbols(prefix[..i + 1]) == PrefixSymbols(prefix[..i]) + [prefix[i] % 32]
    ensures prefix[..i + 1] == prefix[..i] + [prefix[i]]
  {
    assert prefix[..i + 1] == prefix[..i] + [prefix[i]];
  }

  lemma DataRejected(data: seq<nat>, i: nat)
    requires i < |data| && data[i] >= 32
    ensures !Fits(data, 5)
  {
  }

  lemma DataStep(data: seq<nat>, i: nat)
    requires i < |data| && data[i] < 32 && Fits(data[..i], 5)
    ensures Fits(data[..i + 1], 5)
    ensures forall c :: Fold(c, data[..i + 1]) == Xor(Polymod(Fold(c, data[..i])), Of(data[i]))
    ensures Spell(data[..i + 1]) == Spell(data[..i]) + [CHARSET[data[i]]]
  {
    DataSnoc(data, i);
    forall c {
      FoldSnoc(c, data[..i], data[i]);
    }
  }

  lemma DataSnoc(data: seq<nat>, i: nat)
    requires i < |data| && data[i] < 32 && Fits(data[..i], 5)
    ensures data[..i + 1] == data[..i] + [data[i]]
    ensures Fits(data[..i + 1], 5)
    ensures Spell(data[..i + 1]) == Spell(data[..i]) + [CHARSET[data[i]]]
  {
    assert data[..i + 1] == data[..i] + [data[i]];
    SpellSnoc(data[..i], data[i]);
  }

  lemma ChecksumStep(x: Word, i: nat)
    requires i < 8
    ensures Digits(x, 8)[..i + 1] == Digits(x, 8)[..i] + [Lo(Shr(x, (7 - i) * 5))]
    ensures Spell(Digits(x, 8)[..i + 1]) == Spell(Digits(x, 8)[..i]) + [CHARSET[Lo(Shr(x, (7 - i) * 5))]]
  {
    DigitsAt(x, 8, i);
    DigitsBelow(x, 8);
    SpellSnoc(Digits(x, 8)[..i], Lo(Shr(x, (7 - i) * 5)));
  }

  // ---------------------------------------------------------------------
  // Deserializing

  /**
   * Where the first loop of the decoder stops: at the first code unit that is
   * not an ASCII letter or digit, or at the end.
   */
  function ScanEnd(str: JsString): (k: nat)
    ensures k <= |str|
    ensures forall i :: 0 <= i < k ==> IsAlnum(str[i])
    ensures k < |str| ==> !IsAlnum(str[k])
    decreases |str|
  {
    if str == [] || !IsAlnum(str[0]) then 0 else 1 + ScanEnd(str[1..])
  }

  /** Every code unit of `s` stands for a symbol. */
  predicate AllSymbols(s: JsString)
  {
    forall i :: 0 <= i < |s| ==> Lookup(s[i]) != -1
  }

  lemma SymbolsBelow(s: JsString)
    requires AllSymbols(s)
    ensures forall i :: 0 <= i < |s| ==> 0 <= Lookup(s[i]) < 32
  {
    forall i | 0 <= i < |s|
      ensures 0 <= Lookup(s[i]) < 32
    {
      LookupRange(s[i]);
    }
  }

  /** The symbols the code units of `s` stand for. */
  function Symbols(s: JsString): (r: seq<nat>)
    requires AllSymbols(s)
    ensures |r| == |s|
  {
    SymbolsBelow(s);
    seq(|s|, i requires 0 <= i < |s| => Lookup(s[i]) as nat)
  }

  /** The data symbols are all but the last eight; there are none if fewer than eight follow the separator. */
  function DataLength(n: nat): nat
  {
    if n < 8 then 0 else n - 8
  }

  /**
   * `deserialize(str, defaultPrefix)`: the prefix and the data symbols of a
   * string whose checksum holds.  Without a separator the default prefix is
   * used and the whole string is data; without a default prefix either, the
   * source fails reading the length of an undefined prefix.
   */
  function Deserialized(str: JsString, defaultPrefix: Option<JsString>): Result<(JsString, seq<nat>)>
  {
    if |str| < 8 then Err(InvalidLength)
    else
      var k := ScanEnd(str);
      var separated := k < |str|;
      if separated && str[k] != SEPARATOR then Err(InvalidScanCharacter)
      else if separated && HasDigit(str[..k]) then Err(NumberInPrefix)
      else if separated && k == 0 then Err(EmptyPrefix)
      else if HasLower(str[..k]) && HasUpper(str[..k]) then Err(MixedCase)
      else if !separated && defaultPrefix.None? then Err(MissingPrefix)
      else
        var prefix := if separated then str[..k] else defaultPrefix.value;
        var rest := if separated then str[k + 1..] else str;
        ReadSymbols(prefix, rest)
  }

  /**
   * The data loop of `deserialize`: every code unit after the separator must
   * stand for a symbol, and the symbols must bring the state after the prefix
   * to 1; the last eight are the checksum.
   */
  function ReadSymbols(prefix: JsString, rest: JsString): Result<(JsString, seq<nat>)>
  {
    if !AllSymbols(rest) then Err(InvalidCharacter)
    else
      var syms := Symbols(rest);
      if Fold(PrefixState(prefix), syms) != Of(1) then Err(InvalidChecksum)
      else Ok((prefix, syms[..DataLength(|rest|)]))
  }

  /** `deserialize`, as the source computes it. */
  method Deserialize(str: JsString, defaultPrefix: Option<JsString>) returns (r: Result<(JsString, seq<nat>)>)
    ensures r == Deserialized(str, defaultPrefix)
  {
    if |str| < 8 {
      return Err(InvalidLength);
    }
    var lower, upper, hasNumber := false, false, false;
    var prefixSize := 0;
    for i := 0 to |str|
      invariant forall j :: 0 <= j < i ==> IsAlnum(str[j])
      invariant lower == HasLower(str[..i]) && upper == HasUpper(str[..i]) && hasNumber == HasDigit(str[..i])
      invariant prefixSize == 0
    {
      var ch := str[i];
      ScanStep(str, i);
      if IsLower(ch) {
        lower := true;
        continue;
      }
      if IsUpper(ch) {
        upper := true;
        continue;
      }
      if IsDigit(ch) {
        hasNumber := true;
        continue;
      }
      ScanEndAt(str, i);
      if ch == SEPARATOR {
        if hasNumber {
          return Err(NumberInPrefix);
        }
        if i == 0 {
          return Err(EmptyPrefix);
        }
        prefixSize := i;
        break;
      }
      return Err(InvalidScanCharacter);
    }
    if prefixSize == 0 {
      ScanEndAt(str, |str|);
      assert str[..|str|] == str;
    }
    if upper && lower {
      return Err(MixedCase);
    }
    var prefix: JsString;
    if prefixSize == 0 {
      if defaultPrefix.None? {
        return Err(MissingPrefix);
      }
      prefix := defaultPrefix.value;
    } else {
      prefix := str[..prefixSize];
      prefixSize := prefixSize + 1;
    }
    var chk := FoldPrefix(prefix);
    r := ReadData(str[prefixSize..], prefix, chk);
  }

  /** The checksum state after the prefix characters and the separator. */
  method FoldPrefix(prefix: JsString) returns (chk: Word)
    ensures chk == PrefixState(prefix)
  {
    chk := Of(1);
    for i := 0 to |prefix|
      invariant chk == Fold(Of(1), PrefixSymbols(prefix)[..i])
    {
      var ch := prefix[i];
      PrefixSymbolsAt(prefix, i);
      chk := ComputePolymod(chk);
      chk := Xor(chk, Of(ch % 32));
    }
    TakeAll(PrefixSymbols(prefix));
    chk := ComputePolymod(chk);
  }

  /**
   * The rest of `deserialize`, over the code units after the separator (the
   * source's index `i` is `prefixSize` plus the index here): every code unit
   * read as a symbol and fed to the checksum, all but the last eight kept.
   */
  method ReadData(rest: JsString, prefix: JsString, c: Word) returns (r: Result<(JsString, seq<nat>)>)
    ensures !AllSymbols(rest) ==> r == Err(InvalidCharacter)
    ensures AllSymbols(rest) && Fold(c, Symbols(rest)) != Of(1) ==> r == Err(InvalidChecksum)
    ensures AllSymbols(rest) && Fold(c, Symbols(rest)) == Of(1) ==>
      r == Ok((prefix, Symbols(rest)[..DataLength(|rest|)]))
  {
    var chk := c;
    var data := new nat[|rest|];
    ghost var syms: seq<nat> := [];
    for i := 0 to |rest|
      invariant AllSymbols(rest[..i]) && syms == Symbols(rest[..i])
      invariant chk == Fold(c, syms)
      invariant forall j :: 0 <= j < i && j < DataLength(data.Length) ==> data[j] == syms[j]
    {
      var v := Lookup(rest[i]);
      if v == -1 {
        SymbolMissing(rest, i);
        return Err(InvalidCharacter);
      }
      LookupRange(rest[i]);
      SymbolsSnoc(rest, i, v);
      chk := ComputePolymod(chk);
      chk := Xor(chk, Of(v));
      if i + 8 < |rest| {
        data[i] := v;
      }
      syms := syms + [v];
    }
    TakeAll(rest);
    if chk != Of(1) {
      return Err(InvalidChecksum);
    }
    var kept := data[..DataLength(data.Length)];
    assert kept == syms[..DataLength(data.Length)];
    return Ok((prefix, kept));
  }

  lemma PrefixSymbolsAt(prefix: JsString, i: nat)
    requires i < |prefix|
    ensures PrefixSymbols(prefix)[..i + 1] == PrefixSymbols(prefix)[..i] + [prefix[i] % 32]
  {
  }

  lemma SymbolMissing(s: JsString, i: nat)
    requires i < |s| && Lookup(s[i]) == -1
    ensures !AllSymbols(s)
  {
  }

  /** One more code unit of the scan updates the three case flags. */
  lemma ScanStep(str: JsString, i: nat)
    requires i < |str|
    ensures HasLower(str[..i + 1]) == (HasLower(str[..i]) || IsLower(str[i]))
    ensures HasUpper(str[..i + 1]) == (HasUpper(str[..i]) || IsUpper(str[i]))
    ensures HasDigit(str[..i + 1]) == (HasDigit(str[..i]) || IsDigit(str[i]))
  {
    assert str[..i + 1] == str[..i] + [str[i]];
  }

  /** The scan stops exactly at the first code unit that is not a letter or digit. */
  lemma ScanEndAt(str: JsString, k: nat)
    requires k <= |str| && forall j :: 0 <= j < k ==> IsAlnum(str[j])
    requires k < |str| ==> !IsAlnum(str[k])
    ensures ScanEnd(str) == k
  {
  }

  lemma SymbolsSnoc(s: JsString, i: nat, v: nat)
    requires i < |s| && AllSymbols(s[..i]) && v == Lookup(s[i])
    ensures AllSymbols(s[..i + 1])
    ensures Symbols(s[..i + 1]) == Symbols(s[..i]) + [v]
  {
    assert s[..i + 1] == s[..i] + [s[i]];
  }

  // ---------------------------------------------------------------------
  // What serialize writes

  /**
   * `serialize` fails exactly on a prefix code unit outside 0x20..0xff or a
   * data value of 32 or more, the prefix being checked first; otherwise it
   * writes |prefix| + |data| + 9 code units: the prefix, ':', the character of
   * each data symbol, then eight checksum characters of the alphabet.
   */
  lemma SerializedShape(prefix: JsString, data: seq<nat>)
    ensures Serialized(prefix, data).Ok? <==> PrefixPrintable(prefix) && Fits(data, 5)
    ensures !PrefixPrintable(prefix) ==> Serialized(prefix, data) == Err(InvalidPrefixCharacter)
    ensures PrefixPrintable(prefix) && !Fits(data, 5) ==> Serialized(prefix, data) == Err(InvalidValue)
    ensures Serialized(prefix, data).Ok? ==>
      var s := Serialized(prefix, data).value;
      |s| == |prefix| + |data| + 9 && s[..|prefix|] == prefix && s[|prefix|] == SEPARATOR &&
      (forall i :: 0 <= i < |data| ==> s[|prefix| + 1 + i] == CHARSET[data[i]]) &&
      (forall i :: |prefix| + 1 + |data| <= i < |s| ==> s[i] in CHARSET)
  {
    if PrefixPrintable(prefix) && Fits(data, 5) {
      var cs := ChecksumSymbols(Fold(PrefixState(prefix), data));
      var s := Serialized(prefix, data).value;
      assert s == prefix + [SEPARATOR] + Spell(data) + Spell(cs);
      SpelledLayout(prefix, data, cs, s);
    }
  }

  /**
   * Everything `serialize` writes after its separator is a lower-case letter
   * or a digit, so the scan of `deserialize` finds no second ':' in it.
   */
  lemma SerializedTailAlnum(prefix: JsString, data: seq<nat>)
    requires Serialized(prefix, data).Ok?
    ensures var s := Serialized(prefix, data).value;
      forall i :: |prefix| < i < |s| ==> (IsLower(s[i]) || IsDigit(s[i])) && s[i] != SEPARATOR
  {
    SerializedShape(prefix, data);
    Pow2Values();
    var s := Serialized(prefix, data).value;
    forall i | |prefix| < i < |s|
      ensures IsLower(s[i]) || IsDigit(s[i])
    {
      if i < |prefix| + 1 + |data| {
        var j := i - |prefix| - 1;
        assert s[|prefix| + 1 + j] == CHARSET[data[j]];
        CharsetAlnum(data[j]);
      } else {
        var v :| 0 <= v < |CHARSET| && CHARSET[v] == s[i];
        CharsetAlnum(v);
      }
    }
  }

  /** Where each part of `prefix ':' data checksum` sits in the written string. */
  lemma SpelledLayout(prefix: JsString, data: seq<nat>, cs: seq<nat>, s: JsString)
    requires Fits(data, 5) && |cs| == 8 && forall i :: 0 <= i < 8 ==> cs[i] < 32
    requires s == prefix + [SEPARATOR] + Spell(data) + Spell(cs)
    ensures |s| == |prefix| + |data| + 9 && s[..|prefix|] == prefix && s[|prefix|] == SEPARATOR
    ensures forall i :: 0 <= i < |data| ==> s[|prefix| + 1 + i] == CHARSET[data[i]]
    ensures forall i :: |prefix| + 1 + |data| <= i < |s| ==> s[i] in CHARSET
  {
    var head := |prefix| + 1;
    var tail := head + |data|;
    assert s == (prefix + [SEPARATOR]) + (Spell(data) + Spell(cs));
    forall i | 0 <= i < |data|
      ensures s[head + i] == CHARSET[data[i]]
    {
      assert s[head + i] == Spell(data)[i];
    }
    forall i | tail <= i < |s|
      ensures s[i] in CHARSET
    {
      assert s[i] == Spell(cs)[i - tail] == CHARSET[cs[i - tail]];
      assert s[i] in CHARSET;
    }
  }

  // ---------------------------------------------------------------------
  // When deserialize fails

  /** Too short a string, or a separator in front, is rejected before anything else. */
  lemma DeserializedEarlyErrors(str: JsString, defaultPrefix: Option<JsString>)
    ensures |str| < 8 ==> Deserialized(str, defaultPrefix) == Err(InvalidLength)
    ensures |str| >= 8 && str[0] == SEPARATOR ==> Deserialized(str, defaultPrefix) == Err(EmptyPrefix)
  {
    if |str| >= 8 && str[0] == SEPARATOR {
      ScanEndAt(str, 0);
      assert str[..0] == [];
    }
  }

  /**
   * The errors of the scan, for a string whose first code unit that is not a
   * letter or a digit is at `k`: any such code unit other than ':' is
   * rejected; before ':' a digit is rejected, and so are upper- and
   * lower-case letters together.
   */
  lemma DeserializedScanErrors(str: JsString, defaultPrefix: Option<JsString>, k: nat)
    requires |str| >= 8 && k < |str| && !IsAlnum(str[k])
    requires forall j :: 0 <= j < k ==> IsAlnum(str[j])
    ensures str[k] != SEPARATOR ==> Deserialized(str, defaultPrefix) == Err(InvalidScanCharacter)
    ensures str[k] == SEPARATOR && HasDigit(str[..k]) ==> Deserialized(str, defaultPrefix) == Err(NumberInPrefix)
    ensures str[k] == SEPARATOR && !HasDigit(str[..k]) && HasLower(str[..k]) && HasUpper(str[..k]) ==>
      Deserialized(str, defaultPrefix) == Err(MixedCase)
  {
    ScanEndAt(str, k);
  }

  /**
   * Without a separator the whole string is scanned: upper- and lower-case
   * letters together are rejected, and so is the want of a default prefix.
   */
  lemma DeserializedUnseparated(str: JsString, defaultPrefix: Option<JsString>)
    requires |str| >= 8 && forall j :: 0 <= j < |str| ==> IsAlnum(str[j])
    ensures HasLower(str) && HasUpper(str) ==> Deserialized(str, defaultPrefix) == Err(MixedCase)
    ensures !(HasLower(str) && HasUpper(str)) && defaultPrefix.None? ==> Deserialized(str, defaultPrefix) == Err(MissingPrefix)
  {
    ScanEndAt(str, |str|);
    TakeAll(str);
  }

  // ---------------------------------------------------------------------
  // What deserialize returns

  /** The code units after the separator, or the whole string if it has none. */
  function DataPart(str: JsString): (r: JsString)
    ensures |r| <= |str|
  {
    var k := ScanEnd(str);
    if k < |str| then str[k + 1..] else str
  }

  /**
   * A string `deserialize` accepts has only symbol characters after the
   * separator, and their symbols bring the checksum of the prefix to exactly
   * 1; the data are those symbols without the last eight, every one below 32.
   */
  lemma DeserializedOk(str: JsString, defaultPrefix: Option<JsString>)
    requires Deserialized(str, defaultPrefix).Ok?
    ensures var (prefix, data) := Deserialized(str, defaultPrefix).value;
      var rest := DataPart(str);
      AllSymbols(rest) && Fold(PrefixState(prefix), Symbols(rest)) == Of(1) &&
      |data| == DataLength(|rest|) && data == Symbols(rest)[..|data|] && Fits(data, 5) &&
      (ScanEnd(str) < |str| ==> prefix == str[..ScanEnd(str)] && |data| == DataLength(|str| - |prefix| - 1))
  {
    var rest := DataPart(str);
    SymbolsBelow(rest);
  }

  // ---------------------------------------------------------------------
  // Round trip

  /** A prefix of ASCII letters, all lower case or all upper case. */
  predicate ValidPrefix(prefix: JsString)
  {
    |prefix| > 0 &&
    ((forall i :: 0 <= i < |prefix| ==> IsLower(prefix[i])) || (forall i :: 0 <= i < |prefix| ==> IsUpper(prefix[i])))
  }

  /** The characters of symbols are read back as those symbols. */
  lemma SymbolsOfSpell(syms: seq<nat>)
    requires forall i :: 0 <= i < |syms| ==> syms[i] < 32
    ensures AllSymbols(Spell(syms)) && Symbols(Spell(syms)) == syms
  {
    forall i | 0 <= i < |syms|
      ensures Lookup(Spell(syms)[i]) == syms[i]
    {
      LookupCharset(syms[i]);
    }
  }

  /** The string `serialize` writes splits at its separator into the prefix and the spelled symbols. */
  lemma SerializedParts(prefix: JsString, data: seq<nat>, cs: seq<nat>, s: JsString)
    requires ValidPrefix(prefix) && Fits(data, 5) && Fits(cs, 5)
    requires s == prefix + [SEPARATOR] + Spell(data) + Spell(cs)
    ensures ScanEnd(s) == |prefix| && s[..|prefix|] == prefix && s[|prefix|] == SEPARATOR
    ensures !HasDigit(prefix) && !(HasLower(prefix) && HasUpper(prefix))
    ensures DataPart(s) == Spell(data + cs)
  {
    var tail := Spell(data) + Spell(cs);
    assert s == prefix + ([SEPARATOR] + tail);
    ScanEndAt(s, |prefix|);
    assert s[|prefix| + 1..] == tail;
    SpellAppend(data, cs);
  }

  lemma SpellAppend(a: seq<nat>, b: seq<nat>)
    requires Fits(a, 5) && Fits(b, 5)
    ensures Fits(a + b, 5) && Spell(a) + Spell(b) == Spell(a + b)
  {
    Pow2Values();
  }

  /**
   * `deserialize` reads back what `serialize` writes: the prefix and the data
   * symbols, whatever the default prefix, for a prefix of ASCII letters of one
   * case.
   */
  lemma RoundTrip(prefix: JsString, data: seq<nat>, defaultPrefix: Option<JsString>)
    requires ValidPrefix(prefix) && Fits(data, 5)
    ensures Serialized(prefix, data).Ok?
    ensures Deserialized(Serialized(prefix, data).value, defaultPrefix) == Ok((prefix, data))
  {
    var c := Fold(PrefixState(prefix), data);
    var cs := ChecksumSymbols(c);
    var s := Serialized(prefix, data).value;
    SerializedParts(prefix, data, cs, s);
    SymbolsOfSpell(data + cs);
    FoldAppend(PrefixState(prefix), data, cs);
    ChecksumResidue(c);
    assert (data + cs)[..|data|] == data;
  }

  // ---------------------------------------------------------------------
  // Error detection

  /** The data loop refuses symbols that differ from accepted ones at exactly one position. */
  lemma ReadSymbolsSubstitution(prefix: JsString, rest: JsString, rest': JsString, j: nat)
    requires ReadSymbols(prefix, rest).Ok?
    requires |rest'| == |rest| && j < |rest| && forall i :: 0 <= i < |rest| && i != j ==> rest'[i] == rest[i]
    requires Lookup(rest'[j]) != -1 && Lookup(rest'[j]) != Lookup(rest[j])
    ensures ReadSymbols(prefix, rest') == Err(InvalidChecksum)
  {
    assert AllSymbols(rest');
    SymbolsBelow(rest);
    SymbolsBelow(rest');
    SubstitutionDetected(PrefixState(prefix), Symbols(rest), Symbols(rest'), j);
  }

  /**
   * Replacing one character after the separator of a string `deserialize`
   * accepts by a character that stands for another symbol is caught by the
   * checksum.
   */
  lemma DeserializedSubstitution(str: JsString, str': JsString, defaultPrefix: Option<JsString>, j: nat)
    requires Deserialized(str, defaultPrefix).Ok?
    requires ScanEnd(str) < j < |str| && |str'| == |str|
    requires forall i :: 0 <= i < |str| && i != j ==> str'[i] == str[i]
    requires Lookup(str'[j]) != -1 && Lookup(str'[j]) != Lookup(str[j])
    ensures Deserialized(str', defaultPrefix) == Err(InvalidChecksum)
  {
    var k := ScanEnd(str);
    var prefix, rest, rest' := str[..k], str[k + 1..], str'[k + 1..];
    assert Deserialized(str', defaultPrefix) == ReadSymbols(prefix, rest') && ReadSymbols(prefix, rest).Ok? by {
      SeparatedOk(str, defaultPrefix);
      SameBefore(str, str', j, k);
      ScanEndAt(str', k);
      SeparatedRead(str', defaultPrefix, k);
    }
    var m := j - k - 1;
    SameAfter(str, str', j, k, rest, rest', m);
    ReadSymbolsSubstitution(prefix, rest, rest', m);
  }

  lemma SameBefore(a: JsString, b: JsString, j: nat, k: nat)
    requires k < j && |a| == |b| && forall i :: 0 <= i < |a| && i != j ==> b[i] == a[i]
    ensures k < |a| ==> b[..k] == a[..k] && b[k] == a[k]
  {
  }

  lemma SameAfter(a: JsString, b: JsString, j: nat, k: nat, r: JsString, r': JsString, m: nat)
    requires k < j < |a| == |b| && forall i :: 0 <= i < |a| && i != j ==> b[i] == a[i]
    requires r == a[k + 1..] && r' == b[k + 1..] && m == j - k - 1
    ensures |r'| == |r| && m < |r| && r'[m] == b[j] && r[m] == a[j]
    ensures forall i :: 0 <= i < |r| && i != m ==> r'[i] == r[i]
  {
  }

  /** An accepted string with a separator passed the scan checks and was read by the data loop. */
  lemma SeparatedOk(str: JsString, defaultPrefix: Option<JsString>)
    requires Deserialized(str, defaultPrefix).Ok? && ScanEnd(str) < |str|
    ensures var k := ScanEnd(str);
      |str| >= 8 && str[k] == SEPARATOR && k != 0 &&
      !HasDigit(str[..k]) && !(HasLower(str[..k]) && HasUpper(str[..k])) &&
      Deserialized(str, defaultPrefix) == ReadSymbols(str[..k], str[k + 1..])
  {
  }

  // ---------------------------------------------------------------------
  // Case

  /** Upper-casing moves no code unit in or out of the letters and digits, so the scan stops at the same place. */
  lemma ScanEndUpper(s: JsString)
    ensures ScanEnd(UpperAll(s)) == ScanEnd(s)
  {
    ScanEndAt(UpperAll(s), ScanEnd(s));
  }

  /** Upper-case code units stand for the same symbols. */
  lemma UpperSymbols(r: JsString)
    ensures AllSymbols(UpperAll(r)) == AllSymbols(r)
    ensures AllSymbols(r) ==> Symbols(UpperAll(r)) == Symbols(r)
  {
    forall i | 0 <= i < |r|
      ensures Lookup(UpperAll(r)[i]) == Lookup(r[i])
    {
      LookupUpper(r[i]);
    }
  }

  /** An upper-cased prefix feeds the same checksum symbols, since case is bit 5. */
  lemma UpperPrefixState(p: JsString)
    ensures PrefixState(UpperAll(p)) == PrefixState(p)
  {
    assert PrefixSymbols(UpperAll(p)) == PrefixSymbols(p);
  }

  /** What the checks of `deserialize` look at, in a string and in its upper-cased form. */
  lemma UpperParts(s: JsString)
    requires !HasUpper(s)
    ensures var u, k := UpperAll(s), ScanEnd(s);
      ScanEnd(u) == k && |u| == |s| &&
      !HasUpper(s[..k]) && !HasLower(u[..k]) && HasDigit(u[..k]) == HasDigit(s[..k]) &&
      u[..k] == UpperAll(s[..k]) && PrefixState(u[..k]) == PrefixState(s[..k]) &&
      (k < |s| ==> (u[k] == SEPARATOR <==> s[k] == SEPARATOR)) &&
      (k < |s| ==> u[k + 1..] == UpperAll(s[k + 1..]))
  {
    var k := ScanEnd(s);
    ScanEndUpper(s);
    UpperAllSlice(s, 0, k);
    UpperAllClasses(s[..k]);
    UpperPrefixState(s[..k]);
    if k < |s| {
      UpperAllSlice(s, k + 1, |s|);
    }
  }

  /** The data loop reads upper-case symbols as lower-case ones, under any prefix with the same checksum state. */
  lemma ReadSymbolsUpper(prefix: JsString, prefix': JsString, rest: JsString)
    requires PrefixState(prefix') == PrefixState(prefix)
    ensures ReadSymbols(prefix, rest).Err? ==> ReadSymbols(prefix', UpperAll(rest)) == ReadSymbols(prefix, rest)
    ensures ReadSymbols(prefix, rest).Ok? ==> ReadSymbols(prefix', UpperAll(rest)) == Ok((prefix', ReadSymbols(prefix, rest).value.1))
    ensures ReadSymbols(prefix, rest).Ok? ==> ReadSymbols(prefix, rest).value.0 == prefix
  {
    UpperSymbols(rest);
  }

  /**
   * `deserialize` reads a string written in upper case as it reads its
   * lower-case form: the same error, or the same data symbols under the
   * upper-cased prefix (a default prefix is returned as given).
   */
  lemma DeserializedUpper(s: JsString, defaultPrefix: Option<JsString>)
    requires !HasUpper(s)
    ensures Deserialized(s, defaultPrefix).Err? ==>
      Deserialized(UpperAll(s), defaultPrefix) == Deserialized(s, defaultPrefix)
    ensures Deserialized(s, defaultPrefix).Ok? ==>
      var (prefix, data) := Deserialized(s, defaultPrefix).value;
      Deserialized(UpperAll(s), defaultPrefix) == Ok((if ScanEnd(s) < |s| then UpperAll(prefix) else prefix, data))
  {
    if ScanEnd(s) < |s| {
      UpperSeparated(s, defaultPrefix);
    } else {
      UpperUnseparated(s, defaultPrefix);
    }
  }

  /** A string whose prefix passes the scan checks is read by the data loop alone. */
  lemma SeparatedRead(str: JsString, defaultPrefix: Option<JsString>, k: nat)
    requires |str| >= 8 && k == ScanEnd(str) && k < |str| && str[k] == SEPARATOR && k != 0
    requires !HasDigit(str[..k]) && !(HasLower(str[..k]) && HasUpper(str[..k]))
    ensures Deserialized(str, defaultPrefix) == ReadSymbols(str[..k], str[k + 1..])
  {
  }

  /** A string without a separator, of one case, is read by the data loop under the default prefix. */
  lemma UnseparatedRead(str: JsString, defaultPrefix: Option<JsString>)
    requires |str| >= 8 && ScanEnd(str) == |str| && !(HasLower(str[..|str|]) && HasUpper(str[..|str|]))
    ensures Deserialized(str, defaultPrefix) ==
      if defaultPrefix.None? then Err(MissingPrefix) else ReadSymbols(defaultPrefix.value, str)
  {
  }

  lemma UpperSeparated(s: JsString, defaultPrefix: Option<JsString>)
    requires !HasUpper(s) && ScanEnd(s) < |s|
    ensures Deserialized(s, defaultPrefix).Err? ==>
      Deserialized(UpperAll(s), defaultPrefix) == Deserialized(s, defaultPrefix)
    ensures Deserialized(s, defaultPrefix).Ok? ==>
      Deserialized(UpperAll(s), defaultPrefix) == Ok((UpperAll(Deserialized(s, defaultPrefix).value.0), Deserialized(s, defaultPrefix).value.1))
  {
    var k := ScanEnd(s);
    if |s| >= 8 && s[k] == SEPARATOR && !HasDigit(s[..k]) && k != 0 {
      UpperSeparatedRead(s, defaultPrefix);
      UpperPrefixState(s[..k]);
      ReadSymbolsUpper(s[..k], UpperAll(s[..k]), s[k + 1..]);
    } else {
      UpperSeparatedEarly(s, defaultPrefix);
    }
  }

  lemma UpperSeparatedEarly(s: JsString, defaultPrefix: Option<JsString>)
    requires !HasUpper(s) && ScanEnd(s) < |s|
    requires var k := ScanEnd(s);
      |s| < 8 || s[k] != SEPARATOR || HasDigit(s[..k]) || k == 0
    ensures Deserialized(UpperAll(s), defaultPrefix) == Deserialized(s, defaultPrefix)
  {
    UpperParts(s);
  }

  lemma UpperSeparatedRead(s: JsString, defaultPrefix: Option<JsString>)
    requires !HasUpper(s) && |s| >= 8
    requires var k := ScanEnd(s);
      k < |s| && s[k] == SEPARATOR && !HasDigit(s[..k]) && k != 0
    ensures var k := ScanEnd(s);
      Deserialized(s, defaultPrefix) == ReadSymbols(s[..k], s[k + 1..]) &&
      Deserialized(UpperAll(s), defaultPrefix) == ReadSymbols(UpperAll(s[..k]), UpperAll(s[k + 1..]))
  {
    var u, k := UpperAll(s), ScanEnd(s);
    UpperParts(s);
    SeparatedRead(u, defaultPrefix, k);
    SeparatedRead(s, defaultPrefix, k);
  }

  lemma UpperUnseparated(s: JsString, defaultPrefix: Option<JsString>)
    requires !HasUpper(s) && ScanEnd(s) == |s|
    ensures Deserialized(UpperAll(s), defaultPrefix) == Deserialized(s, defaultPrefix)
  {
    var u := UpperAll(s);
    if |s| >= 8 {
      assert ScanEnd(u) == |u| == |s| && !HasLower(u[..|u|]) && !HasUpper(s[..|s|]) by {
        UpperParts(s);
      }
      UnseparatedRead(u, defaultPrefix);
      UnseparatedRead(s, defaultPrefix);
      if defaultPrefix.Some? {
        ReadSymbolsUpper(defaultPrefix.value, defaultPrefix.value, s);
      }
    }
  }
}
