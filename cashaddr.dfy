// CashAddr addresses (lib/cashaddr-browser.js, `encode`, `decode` and `test`):
// a version byte -- the address type and a code for the hash length -- and
// the hash, regrouped into 5-bit symbols and serialized with a prefix.
module CashAddr {
  import opened Bits
  import opened Common
  import opened Checksum
  import opened Charset
  import opened Regroup
  import opened Serialization

  /** `encodedSize`: the size code of each hash length, in bytes, that the format allows. */
  const ENCODED_SIZE: map<nat, nat> :=
    map[20 := 0, 24 := 1, 28 := 2, 32 := 3, 40 := 4, 48 := 5, 56 := 6, 64 := 7]

  /** The decoded address; `kind` is the `type` field (0 = P2PKH, 1 = P2SH). */
  datatype AddrResult = AddrResult(prefix: JsString, kind: nat, hash: seq<nat>)

  // ---------------------------------------------------------------------
  // The version byte

  /** `(type << 3) | size`, stored in a byte. */
  function Header(kind: Byte, size: nat): Byte
    requires size < 8
  {
    (((kind as bv8) << 3) | (size as bv8)) as nat
  }

  /** `(h >> 3) & 0x1f`: the address type read back from the version byte. */
  function TypeField(h: Byte): nat
  {
    (((h as bv8) >> 3) & 0x1f) as nat
  }

  /** The hash length the version byte announces: `20 + 4 * (h & 3)`, doubled when `h & 4` is set. */
  function SizeField(h: Byte): nat
  {
    var size := 20 + 4 * (((h as bv8) & 0x03) as nat);
    if (h as bv8) & 0x04 != 0 then 2 * size else size
  }

  /** For the types `encode` accepts, the version byte is the type times eight plus the size code. */
  lemma HeaderValue(kind: Byte, size: nat)
    requires kind <= 1 && size < 8
    ensures Header(kind, size) == kind * 8 + size
  {
    if kind == 0 {
      assert size == 0 || size == 1 || size == 2 || size == 3 || size == 4 || size == 5 || size == 6 || size == 7;
    } else {
      assert size == 0 || size == 1 || size == 2 || size == 3 || size == 4 || size == 5 || size == 6 || size == 7;
    }
  }

  lemma ShiftThree(h: Byte)
    ensures (h as bv8) >> 3 == (h / 8) as bv8
  {
  }

  lemma TypeMask(x: Byte)
    requires x < 32
    ensures ((x as bv8) & 0x1f) as nat == x
  {
  }

  lemma SizeMask(x: Byte)
    ensures ((x as bv8) & 0x03) as nat == x % 4
  {
    assert (x as bv8) & 0x03 == (x % 4) as bv8;
  }

  lemma DoubleBit(x: Byte)
    ensures ((x as bv8) & 0x04 != 0) == ((x / 4) % 2 == 1)
  {
  }

  /** The type field is the version byte without its three low bits. */
  lemma TypeFieldValue(h: Byte)
    ensures TypeField(h) == h / 8
  {
    ShiftThree(h);
    TypeMask(h / 8);
  }

  /**
   * The decoder's size formula inverts `encodedSize`: every version byte
   * announces one of the allowed lengths, namely the one whose size code is
   * its low three bits.
   */
  lemma SizeFieldValue(h: Byte)
    ensures SizeField(h) in ENCODED_SIZE && ENCODED_SIZE[SizeField(h)] == h % 8
  {
    SizeMask(h);
    DoubleBit(h);
    CodeParts(h);
    SizeOfCode(h % 8);
  }

  lemma CodeParts(h: nat)
    ensures h % 4 == (h % 8) % 4 && (h / 4) % 2 == (h % 8) / 4
  {
  }

  lemma SizeOfCode(code: nat)
    requires code < 8
    ensures var size := 20 + 4 * (code % 4);
      var len := if code / 4 == 1 then 2 * size else size;
      len in ENCODED_SIZE && ENCODED_SIZE[len] == code
  {
    assert code == 0 || code == 1 || code == 2 || code == 3 || code == 4 || code == 5 || code == 6 || code == 7;
  }

  /** Every allowed length has a distinct size code below eight. */
  lemma EncodedSizeCodes(len: nat)
    requires len in ENCODED_SIZE
    ensures ENCODED_SIZE[len] < 8
    ensures forall other :: other in ENCODED_SIZE && ENCODED_SIZE[other] == ENCODED_SIZE[len] ==> other == len
  {
  }

  /**
   * The fields `decode` reads from the version byte are the ones `encode`
   * put there: the type, and the hash length whose size code it carries.
   */
  lemma HeaderFields(kind: Byte, hash: seq<Byte>)
    requires kind <= 1 && |hash| in ENCODED_SIZE
    ensures ENCODED_SIZE[|hash|] < 8
    ensures TypeField(Header(kind, ENCODED_SIZE[|hash|])) == kind
    ensures SizeField(Header(kind, ENCODED_SIZE[|hash|])) == |hash|
  {
    var h := Header(kind, ENCODED_SIZE[|hash|]);
    HeaderValue(kind, ENCODED_SIZE[|hash|]);
    TypeFieldValue(h);
    SizeFieldValue(h);
    EncodedSizeCodes(|hash|);
  }

  // ---------------------------------------------------------------------
  // encode

  /**
   * `encode(prefix, type, hash)`: the version byte followed by the hash,
   * regrouped into padded 5-bit symbols and serialized under the prefix.
   * Only types 0 and 1 and the lengths of `encodedSize` are accepted.
   */
  function Encoded(prefix: JsString, kind: Byte, hash: seq<Byte>): Result<JsString>
  {
    if kind > 1 then Err(InvalidType)
    else if |hash| !in ENCODED_SIZE then Err(NonStandardLength)
    else
      var data: seq<nat> := [Header(kind, ENCODED_SIZE[|hash|])] + hash;
      match Converted(data, 8, 5, true)
      case Err(e) => Err(e)
      case Ok(converted) => Serialized(prefix, converted)
  }

  /** `encode`, as the source computes it. */
  method Encode(prefix: JsString, kind: Byte, hash: seq<Byte>) returns (r: Result<JsString>)
    ensures r == Encoded(prefix, kind, hash)
  {
    if kind > 1 {
      return Err(InvalidType);
    }
    if |hash| !in ENCODED_SIZE {
      return Err(NonStandardLength);
    }
    var size := ENCODED_SIZE[|hash|];
    var data: seq<nat> := [Header(kind, size)] + hash;
    var converted := Convert(data, 8, 5, true);
    if converted.Err? {
      return Err(converted.error);
    }
    r := Serialize(prefix, converted.value);
  }

  // ---------------------------------------------------------------------
  // decode

  /**
   * The padding checks of `decode` on the deserialized symbols: the bits
   * past the last whole byte, `(n * 5) % 8` of them, must be fewer than five
   * and clear in the last symbol (`last & ((1 << extrabits) - 1)`, which for
   * an empty symbol list reads `undefined` and passes).
   */
  function PaddingError(data: seq<nat>): Option<Error>
  {
    var extrabits := (|data| * 5) % 8;
    if extrabits >= 5 then Some(InvalidPadding)
    else if |data| > 0 && data[|data| - 1] % Pow2(extrabits) != 0 then Some(NonZeroPadding)
    else None
  }

  /**
   * `decode(str, defaultPrefix)`: deserialize, check the padding, regroup
   * into bytes, then split off the version byte and check the hash length it
   * announces.  An empty byte list reads the version byte as `undefined`,
   * announcing 20 bytes, so it fails the length check.
   */
  function Decoded(str: JsString, defaultPrefix: Option<JsString>): Result<AddrResult>
  {
    match Deserialized(str, defaultPrefix)
    case Err(e) => Err(e)
    case Ok((prefix, data)) => Unpacked(prefix, data)
  }

  /** What `decode` does with the deserialized prefix and data symbols. */
  function Unpacked(prefix: JsString, data: seq<nat>): Result<AddrResult>
  {
    var padding := PaddingError(data);
    if padding.Some? then Err(padding.value)
    else
      match Converted(data, 5, 8, false)
      case Err(e) => Err(e)
      case Ok(converted) =>
        if |converted| == 0 then Err(InvalidDataLength)
        else
          var h: Byte := converted[0];
          var hash := converted[1..];
          if SizeField(h) != |hash| then Err(InvalidDataLength)
          else Ok(AddrResult(prefix, TypeField(h), hash))
  }

  /** `decode`, as the source computes it. */
  method Decode(str: JsString, defaultPrefix: Option<JsString>) returns (r: Result<AddrResult>)
    ensures r == Decoded(str, defaultPrefix)
  {
    var des := Deserialize(str, defaultPrefix);
    if des.Err? {
      return Err(des.error);
    }
    var (prefix, data) := des.value;
    var extrabits := (|data| * 5) % 8;
    if extrabits >= 5 {
      return Err(InvalidPadding);
    }
    if |data| > 0 && data[|data| - 1] % Pow2(extrabits) != 0 {
      return Err(NonZeroPadding);
    }
    var converted := Convert(data, 5, 8, false);
    if converted.Err? {
      return Err(converted.error);
    }
    var bytes := converted.value;
    if |bytes| == 0 {
      return Err(InvalidDataLength);
    }
    var h: Byte := bytes[0];
    var hash := bytes[1..];
    if SizeField(h) != |hash| {
      return Err(InvalidDataLength);
    }
    return Ok(AddrResult(prefix, TypeField(h), hash));
  }

  // ---------------------------------------------------------------------
  // test

  /** `test(str)`: whether `decode` without a default prefix succeeds. */
  method Test(str: JsString) returns (b: bool)
    ensures b <==> Decoded(str, None).Ok?
  {
    var r := Decode(str, None);
    b := r.Ok?;
  }

  // ---------------------------------------------------------------------
  // What encode writes

  lemma BytesFit(kind: Byte, size: nat, hash: seq<Byte>)
    requires size < 8
    ensures Fits([Header(kind, size)] + hash, 8)
  {
    assert Pow2(8) == 256;
  }

  /**
   * `encode` rejects a type other than 0 and 1, then a hash length outside
   * `encodedSize`; past those checks it fails only on a prefix `serialize`
   * refuses, and otherwise writes the prefix, ':', one character for each
   * five bits of the version byte and the hash (rounded up), and eight
   * checksum characters.
   */
  lemma EncodedOutcome(prefix: JsString, kind: Byte, hash: seq<Byte>)
    ensures kind > 1 ==> Encoded(prefix, kind, hash) == Err(InvalidType)
    ensures kind <= 1 && |hash| !in ENCODED_SIZE ==> Encoded(prefix, kind, hash) == Err(NonStandardLength)
    ensures kind <= 1 && |hash| in ENCODED_SIZE ==>
      (Encoded(prefix, kind, hash).Ok? <==> PrefixPrintable(prefix)) &&
      (!PrefixPrintable(prefix) ==> Encoded(prefix, kind, hash) == Err(InvalidPrefixCharacter))
    ensures Encoded(prefix, kind, hash).Ok? ==>
      |Encoded(prefix, kind, hash).value| == |prefix| + 9 + ((|hash| + 1) * 8 + 4) / 5
  {
    if kind <= 1 && |hash| in ENCODED_SIZE {
      var data: seq<nat> := [Header(kind, ENCODED_SIZE[|hash|])] + hash;
      BytesFit(kind, ENCODED_SIZE[|hash|], hash);
      var z := ConvertedPadded(data, 8, 5);
      SerializedShape(prefix, Converted(data, 8, 5, true).value);
    }
  }

  /** The top `a` of `a + 3` big-endian bits of `x` are the bits of `x / 8`. */
  lemma BitsOfTop(x: nat, a: nat)
    ensures BitsOf(x, a + 3)[..a] == BitsOf(x / 8, a)
  {
    assert BitsOf(x, a + 3) == BitsOf(x / 2, a + 2) + [x % 2 == 1];
    assert BitsOf(x / 2, a + 2) == BitsOf(x / 2 / 2, a + 1) + [x / 2 % 2 == 1];
    assert BitsOf(x / 2 / 2, a + 1) == BitsOf(x / 2 / 2 / 2, a) + [x / 2 / 2 % 2 == 1];
    assert x / 2 / 2 / 2 == x / 8;
  }

  /** The first symbol of the regrouped bytes is the top five bits of the first byte. */
  lemma FirstSymbol(h: Byte, hash: seq<nat>)
    ensures Converted([h] + hash, 8, 5, true).Ok? ==> Converted([h] + hash, 8, 5, true).value[0] == h / 8
  {
    var b := Flatten([h] + hash, 8);
    FlattenCons(h, hash, 8);
    BitsOfTop(h, 5);
    assert b[..5] == BitsOf(h, 8)[..5];
    ValueBitsOf(h / 8, 5);
    Pow2Values();
  }

  /**
   * The first data character of an encoded address is the character of its
   * type: the version byte `type << 3 | size` begins with the five bits of
   * the type.
   */
  lemma EncodedFirstSymbol(prefix: JsString, kind: Byte, hash: seq<Byte>)
    ensures Encoded(prefix, kind, hash).Ok? ==>
      |Encoded(prefix, kind, hash).value| > |prefix| + 1 &&
      Encoded(prefix, kind, hash).value[|prefix| + 1] == CHARSET[kind]
  {
    if kind <= 1 && |hash| in ENCODED_SIZE {
      var out := EncodedSymbols(kind, hash);
      SerializedShape(prefix, out);
    }
  }

  /** The symbols `encode` hands to `serialize` are five-bit and begin with the type. */
  lemma EncodedSymbols(kind: Byte, hash: seq<Byte>) returns (out: seq<nat>)
    requires kind <= 1 && |hash| in ENCODED_SIZE
    ensures var data: seq<nat> := [Header(kind, ENCODED_SIZE[|hash|])] + hash;
      Converted(data, 8, 5, true) == Ok(out)
    ensures Fits(out, 5) && |out| > 0 && out[0] == kind
  {
    var h := Header(kind, ENCODED_SIZE[|hash|]);
    var data: seq<nat> := [h] + hash;
    HeaderValue(kind, ENCODED_SIZE[|hash|]);
    BytesFit(kind, ENCODED_SIZE[|hash|], hash);
    var z := ConvertedPadded(data, 8, 5);
    FirstSymbol(h, hash);
    out := Converted(data, 8, 5, true).value;
  }

  // ---------------------------------------------------------------------
  // The padding checks of decode

  /** The five bits of each byte that `decode` reads at a given position are the low bits of the symbol. */
  lemma ModHalf(x: nat, e: nat)
    requires 1 <= e <= 4
    ensures (x % Pow2(e)) / 2 == (x / 2) % Pow2(e - 1) && (x % Pow2(e)) % 2 == x % 2
  {
    assert Pow2(1) == 2 && Pow2(2) == 4 && Pow2(3) == 8 && Pow2(4) == 16;
    if e == 2 {
      ModHalf4(x);
    } else if e == 3 {
      ModHalf8(x);
    } else if e == 4 {
      ModHalf16(x);
    }
  }

  lemma ModHalf4(x: nat)
    ensures (x % 4) / 2 == (x / 2) % 2 && (x % 4) % 2 == x % 2
  {
  }

  lemma ModHalf8(x: nat)
    ensures (x % 8) / 2 == (x / 2) % 4 && (x % 8) % 2 == x % 2
  {
  }

  lemma ModHalf16(x: nat)
    ensures (x % 16) / 2 == (x / 2) % 8 && (x % 16) % 2 == x % 2
  {
  }

  /** The last `e` big-endian bits of `x` are the bits of `x` modulo `2^e`. */
  lemma {:induction false} LowBits(x: nat, w: nat, e: nat)
    requires e <= w && e <= 4
    ensures BitsOf(x, w)[w - e..] == BitsOf(x % Pow2(e), e)
    decreases e
  {
    if e > 0 {
      LowBits(x / 2, w - 1, e - 1);
      ModHalf(x, e);
      calc {
        BitsOf(x, w)[w - e..];
        BitsOf(x / 2, w - 1)[w - e..] + [x % 2 == 1];
        BitsOf((x / 2) % Pow2(e - 1), e - 1) + [x % 2 == 1];
        BitsOf((x % Pow2(e)) / 2, e - 1) + [(x % Pow2(e)) % 2 == 1];
        BitsOf(x % Pow2(e), e);
      }
    }
  }

  lemma {:induction false} BitsOfZero(e: nat)
    ensures BitsOf(0, e) == Zeros(e)
    decreases e
  {
    if e > 0 {
      BitsOfZero(e - 1);
      assert Zeros(e) == Zeros(e - 1) + [false];
    }
  }

  /** A value below `2^e` is written as `e` zero bits exactly when it is zero. */
  lemma BitsOfZeros(y: nat, e: nat)
    requires y < Pow2(e)
    ensures BitsOf(y, e) == Zeros(e) <==> y == 0
  {
    ValueBitsOf(y, e);
    ValueZeros(e);
    BitsOfZero(e);
  }

  lemma ModEight(g: nat, l: nat, m: nat)
    requires g * 8 + l == m && l < 8
    ensures m % 8 == l
  {
  }

  /** The bits left over after cutting `n` symbols into bytes are the last `(5 * n) % 8` bits. */
  lemma LeftoverBits(data: seq<nat>)
    ensures var b := Flatten(data, 5);
      |Leftover(b, 8)| == (|data| * 5) % 8 && Leftover(b, 8) == b[|b| - |Leftover(b, 8)|..]
  {
    var b := Flatten(data, 5);
    FlattenLength(data, 5);
    GroupsLength(b, 8);
    ModEight(|Groups(b, 8)|, |Leftover(b, 8)|, |b|);
    FlattenOfGroups(b, 8);
  }

  /**
   * The two padding checks of `decode` are exactly what the strict regrouping
   * into bytes demands: fewer than five leftover bits, all of them zero.
   */
  lemma DecodedPadding(data: seq<nat>)
    requires Fits(data, 5)
    ensures PaddingError(data) == None <==> CleanTail(Flatten(data, 5), 5, 8)
    ensures PaddingError(data) == Some(InvalidPadding) <==> |Leftover(Flatten(data, 5), 8)| >= 5
  {
    var b := Flatten(data, 5);
    var rest := Leftover(b, 8);
    var e := (|data| * 5) % 8;
    LeftoverBits(data);
    PadGroupZero(rest, 8);
    if e < 5 {
      if |data| == 0 {
        assert rest == [] == Zeros(0);
      } else {
        var last := data[|data| - 1];
        assert b == Flatten(data[..|data| - 1], 5) + BitsOf(last, 5);
        assert rest == BitsOf(last, 5)[5 - e..];
        LowBits(last, 5, e);
        BitsOfZeros(last % Pow2(e), e);
      }
    }
  }

  // ---------------------------------------------------------------------
  // What decode returns

  /** Once the padding checks pass, the strict regrouping into bytes cannot fail. */
  lemma DecodedNeverInvalidBits(str: JsString, defaultPrefix: Option<JsString>)
    ensures Decoded(str, defaultPrefix) != Err(InvalidBits)
  {
    var des := Deserialized(str, defaultPrefix);
    if des.Ok? {
      DeserializedOk(str, defaultPrefix);
      var (prefix, data) := des.value;
      DecodedPadding(data);
    }
  }

  /**
   * A decoded address is the regrouped bytes split after the version byte:
   * its type is the version byte without the size code -- below 32, since
   * `decode` does not limit it to 0 and 1 -- and its hash has exactly the
   * length the version byte announces, one `encodedSize` allows.
   */
  lemma DecodedFields(str: JsString, defaultPrefix: Option<JsString>)
    requires Decoded(str, defaultPrefix).Ok?
    ensures Deserialized(str, defaultPrefix).Ok?
    ensures var (prefix, data) := Deserialized(str, defaultPrefix).value;
      var a := Decoded(str, defaultPrefix).value;
      Converted(data, 5, 8, false).Ok? &&
      var bytes := Converted(data, 5, 8, false).value;
      |bytes| == |a.hash| + 1 && a.hash == bytes[1..] && a.prefix == prefix &&
      a.kind == bytes[0] / 8 && a.kind < 32 &&
      SizeField(bytes[0]) == |a.hash| && |a.hash| in ENCODED_SIZE && ENCODED_SIZE[|a.hash|] == bytes[0] % 8 &&
      Fits(a.hash, 8)
  {
    var (prefix, data) := Deserialized(str, defaultPrefix).value;
    var bytes := Converted(data, 5, 8, false).value;
    assert Pow2(8) == 256;
    var h: Byte := bytes[0];
    TypeFieldValue(h);
    SizeFieldValue(h);
  }

  /**
   * `decode` reads back what `encode` writes: the prefix, the type and the
   * hash, whatever the default prefix, for a prefix of ASCII letters of one
   * case.
   */
  lemma DecodeEncode(prefix: JsString, kind: Byte, hash: seq<Byte>, defaultPrefix: Option<JsString>)
    requires ValidPrefix(prefix) && kind <= 1 && |hash| in ENCODED_SIZE
    ensures Encoded(prefix, kind, hash).Ok?
    ensures Decoded(Encoded(prefix, kind, hash).value, defaultPrefix) == Ok(AddrResult(prefix, kind, hash))
  {
    var code := ENCODED_SIZE[|hash|];
    var h := Header(kind, code);
    var data: seq<nat> := [h] + hash;
    BytesFit(kind, code, hash);
    var z := ConvertedPadded(data, 8, 5);
    var out := Converted(data, 8, 5, true).value;
    RoundTrip(prefix, out, defaultPrefix);
    ToBytes(data, z);
    DecodedPadding(out);
    ConvertRoundTrip(data);
    HeaderFields(kind, hash);
    assert data[1..] == hash;
  }

  /** `test` accepts every address `encode` writes under a prefix of one-case ASCII letters. */
  lemma TestEncoded(prefix: JsString, kind: Byte, hash: seq<Byte>)
    requires ValidPrefix(prefix) && kind <= 1 && |hash| in ENCODED_SIZE
    ensures Encoded(prefix, kind, hash).Ok? && Decoded(Encoded(prefix, kind, hash).value, None).Ok?
  {
    DecodeEncode(prefix, kind, hash, None);
  }

  /** `test` rejects every string without a separator, since it gives `decode` no default prefix. */
  lemma TestNeedsSeparator(str: JsString)
    requires forall i :: 0 <= i < |str| ==> str[i] != SEPARATOR
    ensures !Decoded(str, None).Ok?
  {
    var k := ScanEnd(str);
    if k < |str| {
      assert str[k] != SEPARATOR;
    }
  }

  /**
   * `decode` reads an address written in upper case as it reads its
   * lower-case form: the same error, or the same type and hash under the
   * upper-cased prefix; so `test` gives the same answer for both.
   */
  lemma DecodedUpper(str: JsString, defaultPrefix: Option<JsString>)
    requires !HasUpper(str)
    ensures Decoded(str, defaultPrefix).Err? ==>
      Decoded(UpperAll(str), defaultPrefix) == Decoded(str, defaultPrefix)
    ensures Decoded(str, defaultPrefix).Ok? ==>
      var a := Decoded(str, defaultPrefix).value;
      Decoded(UpperAll(str), defaultPrefix) ==
        Ok(AddrResult(if ScanEnd(str) < |str| then UpperAll(a.prefix) else a.prefix, a.kind, a.hash))
  {
    DeserializedUpper(str, defaultPrefix);
    var r := Deserialized(str, defaultPrefix);
    if r.Ok? {
      UnpackedPrefix(r.value.0, if ScanEnd(str) < |str| then UpperAll(r.value.0) else r.value.0, r.value.1);
    }
  }

  /** The prefix passes through the checks of `decode` untouched. */
  lemma UnpackedPrefix(prefix: JsString, prefix': JsString, data: seq<nat>)
    ensures Unpacked(prefix, data).Err? ==> Unpacked(prefix', data) == Unpacked(prefix, data)
    ensures Unpacked(prefix, data).Ok? ==>
      var a := Unpacked(prefix, data).value;
      a.prefix == prefix && Unpacked(prefix', data) == Ok(AddrResult(prefix', a.kind, a.hash))
  {
  }

  /**
   * An address `decode` accepts stops decoding, with a checksum error, when
   * one character after its separator is replaced by the character of
   * another symbol.
   */
  lemma DecodedSubstitution(str: JsString, str': JsString, defaultPrefix: Option<JsString>, j: nat)
    requires Decoded(str, defaultPrefix).Ok?
    requires ScanEnd(str) < j < |str| && |str'| == |str|
    requires forall i :: 0 <= i < |str| && i != j ==> str'[i] == str[i]
    requires Lookup(str'[j]) != -1 && Lookup(str'[j]) != Lookup(str[j])
    ensures Decoded(str', defaultPrefix) == Err(InvalidChecksum)
  {
    DeserializedSubstitution(str, str', defaultPrefix, j);
  }
}
