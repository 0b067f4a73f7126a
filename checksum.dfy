// The CashAddr checksum: a BCH code over GF(32) whose 40-bit state is kept
// in a 64-bit word (lib/cashaddr-browser.js, `polymod` and the loops of
// `serialize` and `deserialize` that drive it).
module Checksum {
  import opened Bits
  import opened Common

  const CHECKSUM_MASK: Word := Of(0x07ffffffff)

  const GENERATOR: seq<Word> := [
    Of(0x98f2bc8e61),
    Of(0x79b76d99e2),
    Of(0xf33e5fb3c4),
    Of(0xae2eabe2a8),
    Of(0x1e4f43e470)
  ]

  /**
   * The first `n` iterations of the generator loop of `polymod`: every one of
   * the first `n` generators whose bit in `b` is set is exclusive-ored into `c`.
   */
  function Feedback(c: Word, b: Word, n: nat): Word
    requires n <= |GENERATOR|
  {
    if n == 0 then c
    else
      var d := Feedback(c, b, n - 1);
      if b[n - 1] then Xor(d, GENERATOR[n - 1]) else d
  }

  /** One step of the checksum: shift the state up one symbol and reduce by the generators. */
  function Polymod(pre: Word): Word
  {
    Feedback(Shl(And(pre, CHECKSUM_MASK), 5), Shr(pre, 35), |GENERATOR|)
  }

  /** `polymod`, as the source computes it. */
  method ComputePolymod(pre: Word) returns (c: Word)
    ensures c == Polymod(pre)
  {
    var b := Shr(pre, 35);
    var start := Shl(And(pre, CHECKSUM_MASK), 5);
    c := start;
    for i := 0 to |GENERATOR|
      invariant c == Feedback(start, b, i)
    {
      if b[i] {
        c := Xor(c, GENERATOR[i]);
      }
    }
  }

  /** The checksum state after feeding `syms` to state `c`: each symbol is `polymod` then exclusive or. */
  function Fold(c: Word, syms: seq<nat>): Word
  {
    if syms == [] then c
    else Xor(Polymod(Fold(c, syms[..|syms| - 1])), Of(syms[|syms| - 1]))
  }

  /** `n` bare `polymod` steps, as at the separator and after the data. */
  function PolymodN(c: Word, n: nat): Word
  {
    if n == 0 then c else Polymod(PolymodN(c, n - 1))
  }

  /** The low five bits of `x` as a number: `x.lo & 0x1f`. */
  function Lo(x: Word): (r: nat)
    ensures r < 32
  {
    ToNat(x[..5])
  }

  /** `x & (2^k - 1)`: the low `k` bits of `x`. */
  function Low(x: Word, k: nat): Word
  {
    seq(WIDTH, i requires 0 <= i < WIDTH => i < k && x[i])
  }

  /** The low `5 * n` bits of `x` as `n` five-bit digits, most significant first. */
  function Digits(x: Word, n: nat): (r: seq<nat>)
    ensures |r| == n
    decreases n
  {
    if n == 0 then [] else Digits(Shr(x, 5), n - 1) + [Lo(x)]
  }

  /** Every digit is a five-bit symbol. */
  lemma {:induction false} DigitsBelow(x: Word, n: nat)
    ensures forall i :: 0 <= i < n ==> Digits(x, n)[i] < 32
    decreases n
  {
    if n > 0 {
      DigitsBelow(Shr(x, 5), n - 1);
    }
  }

  lemma ShrShr(x: Word, k: nat)
    ensures Shr(Shr(x, 5), k) == Shr(x, k + 5)
  {
  }

  /** Digit `i` of `n`, counted from the most significant, is `(x >> (n - 1 - i) * 5).lo & 0x1f`. */
  lemma {:induction false} DigitsAt(x: Word, n: nat, i: nat)
    requires i < n
    ensures Digits(x, n)[i] == Lo(Shr(x, (n - 1 - i) * 5))
    decreases n
  {
    if i == n - 1 {
      assert Shr(x, 0) == x;
    } else {
      DigitsAt(Shr(x, 5), n - 1, i);
      ShrShr(x, (n - 2 - i) * 5);
    }
  }

  // ---------------------------------------------------------------------
  // Facts about the constants

  lemma MaskBits()
    ensures forall j :: 0 <= j < WIDTH ==> CHECKSUM_MASK[j] == (j < 35)
  {
    Pow2Values();
    OfFromNat(0x07ffffffff);
    FromNatOnes(0x07ffffffff, 35, WIDTH);
  }

  lemma GeneratorsBelow()
    ensures forall i :: 0 <= i < |GENERATOR| ==> Below(GENERATOR[i], 40)
  {
    Pow2Values();
    forall i | 0 <= i < |GENERATOR|
      ensures Below(GENERATOR[i], 40)
    {
      GeneratorBelow(i);
    }
  }

  lemma GeneratorBelow(i: nat)
    requires i < |GENERATOR| && Pow2(40) == 0x100_0000_0000
    ensures Below(GENERATOR[i], 40)
  {
    if i == 0 {
      OfFromNat(0x98f2bc8e61);
      FromNatHigh(0x98f2bc8e61, WIDTH, 40);
    } else if i == 1 {
      OfFromNat(0x79b76d99e2);
      FromNatHigh(0x79b76d99e2, WIDTH, 40);
    } else if i == 2 {
      OfFromNat(0xf33e5fb3c4);
      FromNatHigh(0xf33e5fb3c4, WIDTH, 40);
    } else if i == 3 {
      OfFromNat(0xae2eabe2a8);
      FromNatHigh(0xae2eabe2a8, WIDTH, 40);
    } else {
      OfFromNat(0x1e4f43e470);
      FromNatHigh(0x1e4f43e470, WIDTH, 40);
    }
  }

  // ---------------------------------------------------------------------
  // The state stays below 2^40

  lemma {:induction false} FeedbackBelow(c: Word, b: Word, n: nat)
    requires n <= |GENERATOR| && Below(c, 40)
    ensures Below(Feedback(c, b, n), 40)
  {
    if n > 0 {
      GeneratorsBelow();
      FeedbackBelow(c, b, n - 1);
      XorBelow(Feedback(c, b, n - 1), GENERATOR[n - 1], 40);
    }
  }

  /** Every checksum step leaves a value below 2^40 in the 64-bit word, so no bit is ever lost at the top. */
  lemma PolymodBelow(pre: Word)
    ensures Below(Polymod(pre), 40)
  {
    ShiftedBelow(pre);
    FeedbackBelow(Shl(And(pre, CHECKSUM_MASK), 5), Shr(pre, 35), |GENERATOR|);
  }

  lemma ShiftedBelow(pre: Word)
    ensures Below(Shl(And(pre, CHECKSUM_MASK), 5), 40)
  {
    MaskBits();
  }

  // ---------------------------------------------------------------------
  // Linearity

  lemma {:induction false} FeedbackXor(c: Word, d: Word, b: Word, n: nat)
    requires n <= |GENERATOR|
    ensures Feedback(Xor(c, d), b, n) == Xor(Feedback(c, b, n), d)
  {
    if n > 0 {
      FeedbackXor(c, d, b, n - 1);
      if b[n - 1] {
        var e := Feedback(c, b, n - 1);
        XorAssoc(e, d, GENERATOR[n - 1]);
        XorComm(d, GENERATOR[n - 1]);
        XorAssoc(e, GENERATOR[n - 1], d);
      }
    }
  }

  /** A value below 2^35 does not change bits 35 and up, the ones `polymod` feeds back. */
  lemma TopBitsXor(a: Word, b: Word)
    requires Below(b, 35)
    ensures Shr(Xor(a, b), 35) == Shr(a, 35)
  {
  }

  /** The shifted part of a step is linear for values below 2^35. */
  lemma ShiftedXor(a: Word, b: Word)
    requires Below(b, 35)
    ensures Shl(And(Xor(a, b), CHECKSUM_MASK), 5) == Xor(Shl(And(a, CHECKSUM_MASK), 5), Shl(b, 5))
  {
    MaskBits();
  }

  /** Adding a value below 2^35 before a step adds that value shifted up one symbol after it. */
  lemma PolymodXor(a: Word, b: Word)
    requires Below(b, 35)
    ensures Polymod(Xor(a, b)) == Xor(Polymod(a), Shl(b, 5))
  {
    TopBitsXor(a, b);
    ShiftedXor(a, b);
    FeedbackXor(Shl(And(a, CHECKSUM_MASK), 5), Shl(b, 5), Shr(a, 35), |GENERATOR|);
  }

  /** A digit pushed below the next higher digits of `x` rebuilds the low bits of `x`. */
  lemma DigitStep(x: Word, n: nat)
    requires 0 < n <= 8
    ensures Below(Low(Shr(x, 5), 5 * (n - 1)), 35)
    ensures Xor(Shl(Low(Shr(x, 5), 5 * (n - 1)), 5), Of(Lo(x))) == Low(x, 5 * n)
  {
    OfFromNat(Lo(x));
    FromNatToNat(x[..5], WIDTH);
  }

  /** Feeding one more symbol is one more step followed by exclusive or with that symbol. */
  lemma FoldSnoc(c: Word, s: seq<nat>, v: nat)
    ensures Fold(c, s + [v]) == Xor(Polymod(Fold(c, s)), Of(v))
  {
    assert (s + [v])[..|s|] == s;
  }

  /** Feeding the top `n` digits of `x` adds the low `5 * n` bits of `x` to `n` bare steps. */
  lemma {:induction false} FoldDigits(c: Word, x: Word, n: nat)
    requires n <= 8
    ensures Fold(c, Digits(x, n)) == Xor(PolymodN(c, n), Low(x, 5 * n))
    decreases n
  {
    if n == 0 {
      assert Low(x, 0) == Of(0) by {
        OfFromNat(0);
        FromNatHigh(0, WIDTH, 0);
      }
      XorZero(c);
    } else {
      var s := Digits(Shr(x, 5), n - 1);
      var p := PolymodN(c, n - 1);
      var t := Low(Shr(x, 5), 5 * (n - 1));
      var d := Of(Lo(x));
      DigitStep(x, n);
      calc {
        Fold(c, Digits(x, n));
        { FoldSnoc(c, s, Lo(x)); }
        Xor(Polymod(Fold(c, s)), d);
        { FoldDigits(c, Shr(x, 5), n - 1); }
        Xor(Polymod(Xor(p, t)), d);
        { PolymodXor(p, t); }
        Xor(Xor(Polymod(p), Shl(t, 5)), d);
        { XorAssoc(Polymod(p), Shl(t, 5), d); }
        Xor(PolymodN(c, n), Xor(Shl(t, 5), d));
        Xor(PolymodN(c, n), Low(x, 5 * n));
      }
    }
  }

  lemma {:induction false} FoldAppend(c: Word, s: seq<nat>, t: seq<nat>)
    ensures Fold(c, s + t) == Fold(Fold(c, s), t)
    decreases |t|
  {
    if t == [] {
      assert s + t == s;
    } else {
      var t' := t[..|t| - 1];
      InitOfConcat(s, t);
      FoldAppend(c, s, t');
    }
  }

  /**
   * The eight checksum digits appended by the encoder bring the state back to 1:
   * after `n` bare steps ending in state `r`, the digits of `r` xor 1 fold the
   * state of the same prefix to exactly 1.
   */
  lemma ChecksumResidue(c: Word)
    ensures Fold(c, Digits(Xor(PolymodN(c, 8), Of(1)), 8)) == Of(1)
  {
    var r := PolymodN(c, 8);
    var x := Xor(r, Of(1));
    FoldDigits(c, x, 8);
    PolymodBelow(PolymodN(c, 7));
    OfFromNat(1);
    FromNatHigh(1, WIDTH, 1);
    XorBelow(r, Of(1), 40);
    assert Low(x, 40) == x;
    XorCancel(r, Of(1));
  }

  // ---------------------------------------------------------------------
  // Error detection

  /** The low five bits of generator `i` are the single bit `i`. */
  lemma GeneratorLow(i: nat, j: nat)
    requires i < |GENERATOR| && j < 5
    ensures GENERATOR[i][j] == (i == j)
  {
    assert j == 0 || j == 1 || j == 2 || j == 3 || j == 4;
    if i == 0 {
      assert GENERATOR[0] == Of(0x98f2bc8e61);
    } else if i == 1 {
      assert GENERATOR[1] == Of(0x79b76d99e2);
    } else if i == 2 {
      assert GENERATOR[2] == Of(0xf33e5fb3c4);
    } else if i == 3 {
      assert GENERATOR[3] == Of(0xae2eabe2a8);
    } else {
      assert GENERATOR[4] == Of(0x1e4f43e470);
    }
  }

  /** In the low five bits, the first `n` generators add exactly the first `n` fed-back bits. */
  lemma {:induction false} FeedbackLow(c: Word, b: Word, n: nat, j: nat)
    requires n <= |GENERATOR| && j < 5
    ensures Feedback(c, b, n)[j] == (c[j] != (j < n && b[j]))
  {
    if n > 0 {
      FeedbackLow(c, b, n - 1, j);
      GeneratorLow(n - 1, j);
    }
  }

  /**
   * One checksum step loses nothing on 40-bit states: the five bits it feeds
   * back reappear as the low five bits of the result, and the generators'
   * contribution can then be cancelled.
   */
  lemma PolymodInjective(a: Word, b: Word)
    requires Below(a, 40) && Below(b, 40) && Polymod(a) == Polymod(b)
    ensures a == b
  {
    var sa, sb := Shl(And(a, CHECKSUM_MASK), 5), Shl(And(b, CHECKSUM_MASK), 5);
    forall j | 35 <= j < 40
      ensures a[j] == b[j]
    {
      FeedbackLow(sa, Shr(a, 35), |GENERATOR|, j - 35);
      FeedbackLow(sb, Shr(b, 35), |GENERATOR|, j - 35);
    }
    var top := Shr(a, 35);
    assert top == Shr(b, 35);
    var f := Feedback(Of(0), top, |GENERATOR|);
    PolymodSplit(a);
    PolymodSplit(b);
    XorCancel(f, sa);
    XorCancel(f, sb);
    assert sa == sb;
    MaskBits();
    forall j | 0 <= j < 35
      ensures a[j] == b[j]
    {
      assert sa[j + 5] == a[j] && sb[j + 5] == b[j];
    }
  }

  /** A step is the shifted state plus what the fed-back bits alone contribute. */
  lemma PolymodSplit(a: Word)
    ensures Polymod(a) == Xor(Feedback(Of(0), Shr(a, 35), |GENERATOR|), Shl(And(a, CHECKSUM_MASK), 5))
  {
    var s := Shl(And(a, CHECKSUM_MASK), 5);
    XorZero(s);
    XorComm(s, Of(0));
    FeedbackXor(Of(0), s, Shr(a, 35), |GENERATOR|);
  }

  /** A symbol below 32 is read back from the low five bits of its word. */
  lemma LoOf(v: nat)
    requires v < 32
    ensures Lo(Of(v)) == v && Below(Of(v), 5)
  {
    Pow2Values();
    ToNatFromNat(v, 5);
    OfFromNat(v);
    FromNatToNat(FromNat(v, 5), WIDTH);
    assert Of(v)[..5] == FromNat(v, 5);
  }

  /** After at least one symbol the state is below 2^40. */
  lemma FoldBelow(c: Word, s: seq<nat>)
    requires s != [] && s[|s| - 1] < 32
    ensures Below(Fold(c, s), 40)
  {
    PolymodBelow(Fold(c, s[..|s| - 1]));
    LoOf(s[|s| - 1]);
    XorBelow(Polymod(Fold(c, s[..|s| - 1])), Of(s[|s| - 1]), 40);
  }

  /** Two different 40-bit states stay different whatever symbols are fed to both. */
  lemma {:induction false} FoldDistinct(x: Word, y: Word, t: seq<nat>)
    requires Below(x, 40) && Below(y, 40) && x != y
    requires forall i :: 0 <= i < |t| ==> t[i] < 32
    ensures Fold(x, t) != Fold(y, t)
    decreases |t|
  {
    if t != [] {
      var t' := t[..|t| - 1];
      FoldDistinct(x, y, t');
      if t' != [] {
        FoldBelow(x, t');
        FoldBelow(y, t');
      }
      var px, py := Polymod(Fold(x, t')), Polymod(Fold(y, t'));
      if px == py {
        PolymodInjective(Fold(x, t'), Fold(y, t'));
      }
      var v := Of(t[|t| - 1]);
      XorComm(px, v);
      XorComm(py, v);
      XorCancel(v, px);
      XorCancel(v, py);
    }
  }

  /** Feeding two different symbols after the same symbols leaves two different 40-bit states. */
  lemma SymbolDistinct(c: Word, pre: seq<nat>, u: nat, v: nat)
    requires u < 32 && v < 32 && u != v
    ensures Below(Fold(c, pre + [u]), 40) && Below(Fold(c, pre + [v]), 40)
    ensures Fold(c, pre + [u]) != Fold(c, pre + [v])
  {
    var p := Polymod(Fold(c, pre));
    FoldSnoc(c, pre, u);
    FoldSnoc(c, pre, v);
    LoOf(u);
    LoOf(v);
    FoldBelow(c, pre + [u]);
    FoldBelow(c, pre + [v]);
    XorCancel(p, Of(u));
    XorCancel(p, Of(v));
  }

  /**
   * The checksum detects every substitution of one symbol: two symbol
   * sequences that differ at exactly one position leave different states.
   */
  lemma SubstitutionDetected(c: Word, d: seq<nat>, e: seq<nat>, j: nat)
    requires |d| == |e| && j < |d| && d[j] != e[j]
    requires forall i :: 0 <= i < |d| && i != j ==> d[i] == e[i]
    requires forall i :: 0 <= i < |d| ==> d[i] < 32 && e[i] < 32
    ensures Fold(c, d) != Fold(c, e)
  {
    var pre, t := d[..j], d[j + 1..];
    assert d == (pre + [d[j]]) + t;
    assert e == (pre + [e[j]]) + t;
    SymbolDistinct(c, pre, d[j], e[j]);
    FoldDistinct(Fold(c, pre + [d[j]]), Fold(c, pre + [e[j]]), t);
    FoldAppend(c, pre + [d[j]], t);
    FoldAppend(c, pre + [e[j]], t);
  }
}
