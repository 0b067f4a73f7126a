// 64-bit words.
//
// The checksum of the CashAddr codec is kept in a 64-bit unsigned integer
// (the `U64` type of the n64 library).  This module models such a word as its
// 64 bits, least significant first, so that the operations the codec applies
// to it -- exclusive or, and, shifts -- are the bitwise operations they are in
// the library, including the bits a left shift pushes out at the top.
module Bits {

  const WIDTH: nat := 64

  /** An unsigned 64-bit integer as its bits; `w[i]` is the bit of weight 2^i. */
  type Word = w: seq<bool> | |w| == WIDTH witness seq(WIDTH, i => false)

  /** 2^k */
  function Pow2(k: nat): (r: nat)
    ensures r >= 1
  {
    if k == 0 then 1 else 2 * Pow2(k - 1)
  }

  /** The low `n` bits of `x`, least significant first. */
  function FromNat(x: nat, n: nat): (r: seq<bool>)
    ensures |r| == n
  {
    if n == 0 then [] else [x % 2 == 1] + FromNat(x / 2, n - 1)
  }

  lemma Pow2Plus5(k: nat)
    ensures Pow2(k + 5) == 32 * Pow2(k)
  {
    assert Pow2(k + 5) == 2 * Pow2(k + 4);
    assert Pow2(k + 4) == 2 * Pow2(k + 3);
    assert Pow2(k + 3) == 2 * Pow2(k + 2);
    assert Pow2(k + 2) == 2 * Pow2(k + 1);
  }

  /** The powers of two the codec's masks and bounds are made of. */
  lemma Pow2Values()
    ensures Pow2(5) == 0x20 && Pow2(35) == 0x8_0000_0000 && Pow2(40) == 0x100_0000_0000
  {
    Pow2Plus5(0);
    Pow2Plus5(5);
    Pow2Plus5(10);
    Pow2Plus5(15);
    Pow2Plus5(20);
    Pow2Plus5(25);
    Pow2Plus5(30);
    Pow2Plus5(35);
  }

  /** The number whose bits, least significant first, are `s`. */
  function ToNat(s: seq<bool>): (r: nat)
    ensures r < Pow2(|s|)
  {
    if s == [] then 0 else (if s[0] then 1 else 0) + 2 * ToNat(s[1..])
  }

  /**
   * `U64.fromNumber(x)` for `0 <= x < 2^64`: bit `i` is bit `i` of `x`.
   * (Written bit by bit rather than through `FromNat`, which `OfFromNat`
   * relates it to, so that the solver does not unfold 64 levels of recursion
   * wherever a word is built from a number.)
   */
  function Of(x: nat): Word
  {
    seq(WIDTH, i requires 0 <= i < WIDTH => Halve(x, i) % 2 == 1)
  }

  /** `x` shifted right by `k` bits, i.e. `x / 2^k`. */
  function Halve(x: nat, k: nat): nat
  {
    if k == 0 then x else Halve(x / 2, k - 1)
  }

  function Xor(a: Word, b: Word): Word
  {
    seq(WIDTH, i requires 0 <= i < WIDTH => a[i] != b[i])
  }

  function And(a: Word, b: Word): Word
  {
    seq(WIDTH, i requires 0 <= i < WIDTH => a[i] && b[i])
  }

  /** `a << k`: bits pushed past the top are lost. */
  function Shl(a: Word, k: nat): Word
  {
    seq(WIDTH, i requires 0 <= i < WIDTH => i >= k && a[i - k])
  }

  /** `a >>> k`: zeros come in at the top. */
  function Shr(a: Word, k: nat): Word
  {
    seq(WIDTH, i requires 0 <= i < WIDTH => i + k < WIDTH && a[i + k])
  }

  /** All bits from position `k` upwards are clear, i.e. the value is below 2^k. */
  predicate Below(a: Word, k: nat)
  {
    forall j :: k <= j < WIDTH ==> !a[j]
  }

  // ---------------------------------------------------------------------
  // Conversions

  /** `ToNat` inverts `FromNat` on values that fit. */
  lemma {:induction false} ToNatFromNat(x: nat, n: nat)
    requires x < Pow2(n)
    ensures ToNat(FromNat(x, n)) == x
    decreases n
  {
    if n > 0 {
      ToNatFromNat(x / 2, n - 1);
    }
  }

  /** `FromNat` inverts `ToNat`, padding with clear bits. */
  lemma {:induction false} FromNatToNat(s: seq<bool>, n: nat)
    requires |s| <= n
    ensures FromNat(ToNat(s), n) == s + seq(n - |s|, i => false)
    decreases n
  {
    if s == [] {
      if n > 0 {
        FromNatToNat(s, n - 1);
      }
    } else {
      var t := ToNat(s);
      assert t % 2 == 1 <==> s[0];
      assert t / 2 == ToNat(s[1..]);
      FromNatToNat(s[1..], n - 1);
    }
  }

  /** Bit `i` of `FromNat(x, n)` is bit `i` of `x`. */
  lemma {:induction false} FromNatBit(x: nat, n: nat, i: nat)
    requires i < n
    ensures FromNat(x, n)[i] == (Halve(x, i) % 2 == 1)
    decreases n
  {
    if i > 0 {
      FromNatBit(x / 2, n - 1, i - 1);
    }
  }

  /** `Of` is `FromNat` at the width of a word. */
  lemma OfFromNat(x: nat)
    ensures Of(x) == FromNat(x, WIDTH)
  {
    forall i | 0 <= i < WIDTH
      ensures Of(x)[i] == FromNat(x, WIDTH)[i]
    {
      FromNatBit(x, WIDTH, i);
    }
  }

  /** The bits of `x` from position `k` upwards are clear when `x < 2^k`. */
  lemma {:induction false} FromNatHigh(x: nat, n: nat, k: nat)
    requires x < Pow2(k)
    ensures forall j :: k <= j < n ==> !FromNat(x, n)[j]
    decreases n
  {
    if n > 0 && k > 0 {
      FromNatHigh(x / 2, n - 1, k - 1);
    } else if n > 0 {
      FromNatHigh(x / 2, n - 1, 0);
    }
  }

  /** The bits of 2^k - 1: the low `k` bits are set and the others clear. */
  lemma {:induction false} FromNatOnes(x: nat, k: nat, n: nat)
    requires x + 1 == Pow2(k)
    ensures forall j :: 0 <= j < n ==> FromNat(x, n)[j] == (j < k)
    decreases n
  {
    if n > 0 {
      var r := FromNat(x, n);
      assert r == [x % 2 == 1] + FromNat(x / 2, n - 1);
      if k > 0 {
        FromNatOnes(x / 2, k - 1, n - 1);
      } else {
        FromNatOnes(x / 2, 0, n - 1);
      }
    }
  }

  // ---------------------------------------------------------------------
  // Laws of the bitwise operations

  lemma XorAssoc(a: Word, b: Word, c: Word)
    ensures Xor(Xor(a, b), c) == Xor(a, Xor(b, c))
  {
  }

  lemma XorComm(a: Word, b: Word)
    ensures Xor(a, b) == Xor(b, a)
  {
  }

  /** Exclusive or with itself clears every bit, so exclusive or with a fixed word is its own inverse. */
  lemma XorCancel(a: Word, b: Word)
    ensures Xor(a, Xor(a, b)) == b
  {
  }

  lemma XorZero(a: Word)
    ensures Xor(a, Of(0)) == a
  {
    OfFromNat(0);
    FromNatHigh(0, WIDTH, 0);
  }

  /** Exclusive or keeps a word below 2^k when both operands are. */
  lemma XorBelow(a: Word, b: Word, k: nat)
    requires Below(a, k) && Below(b, k)
    ensures Below(Xor(a, b), k)
  {
  }
}
