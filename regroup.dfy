// Regrouping a stream of `frombits`-bit values into `tobits`-bit values
// (lib/cashaddr-browser.js, `convert`): 8-bit bytes become 5-bit symbols when
// encoding and back when decoding.
module Regroup {
  import opened Bits
  import opened Common

  /**
   * The `w`-bit binary representation of `x`, most significant bit first:
   * the order in which `convert` streams bits.  `Bits.FromNat` lists the same
   * bits least significant first (`BitsOfFromNat`).
   */
  function BitsOf(x: nat, w: nat): (r: seq<bool>)
    ensures |r| == w
  {
    if w == 0 then [] else BitsOf(x / 2, w - 1) + [x % 2 == 1]
  }

  /** The number whose binary representation, most significant bit first, is `s`. */
  function Value(s: seq<bool>): (r: nat)
    ensures r < Pow2(|s|)
  {
    if s == [] then 0 else 2 * Value(s[..|s| - 1]) + (if s[|s| - 1] then 1 else 0)
  }

  /** `n` zero bits. */
  function Zeros(n: nat): (r: seq<bool>)
    ensures |r| == n
  {
    seq(n, i => false)
  }

  /** Every value fits in `w` bits: `(value >> w) === 0`. */
  predicate Fits(data: seq<nat>, w: nat)
  {
    forall i :: 0 <= i < |data| ==> data[i] < Pow2(w)
  }

  /** The bit stream of `data`, each value contributing `w` bits, most significant first. */
  function Flatten(data: seq<nat>, w: nat): (r: seq<bool>)
  {
    if data == [] then [] else Flatten(data[..|data| - 1], w) + BitsOf(data[|data| - 1], w)
  }

  /** The complete `t`-bit groups at the front of `b`, as numbers. */
  function Groups(b: seq<bool>, t: nat): seq<nat>
    requires t > 0
    decreases |b|
  {
    if |b| < t then [] else [Value(b[..t])] + Groups(b[t..], t)
  }

  /** The bits of `b` left over after its complete `t`-bit groups. */
  function Leftover(b: seq<bool>, t: nat): (r: seq<bool>)
    requires t > 0
    ensures |r| < t
    decreases |b|
  {
    if |b| < t then b else Leftover(b[t..], t)
  }

  /** `b` splits into complete `t`-bit groups with nothing left over. */
  predicate Covered(b: seq<bool>, t: nat)
    requires t > 0
    decreases |b|
  {
    b == [] || (|b| >= t && Covered(b[t..], t))
  }

  /** `(acc >>> bits) & maxv`: the `t` bits of `acc` just above its low `bits` bits. */
  function Field(acc: seq<bool>, bits: nat, t: nat): nat
    requires bits + t <= |acc|
  {
    Value(acc[|acc| - bits - t..|acc| - bits])
  }

  /** The last group, padded with zero bits: `(acc << (tobits - bits)) & maxv`. */
  function PadGroup(rest: seq<bool>, t: nat): nat
    requires |rest| <= t
  {
    Value(rest + Zeros(t - |rest|))
  }

  /** The groups of `b`, with the leftover bits padded into one more group if there are any. */
  function Padded(b: seq<bool>, t: nat): seq<nat>
    requires t > 0
  {
    var rest := Leftover(b, t);
    Groups(b, t) + if |rest| > 0 then [PadGroup(rest, t)] else []
  }

  /** Without padding, the leftover bits must be fewer than `frombits` and all zero. */
  predicate CleanTail(b: seq<bool>, frombits: nat, t: nat)
    requires t > 0
  {
    var rest := Leftover(b, t);
    |rest| < frombits && PadGroup(rest, t) == 0
  }

  /**
   * `convert(data, output, frombits, tobits, pad, 0)`: the bit stream of `data`
   * cut into `tobits`-bit groups.  Leftover bits are padded into one more group
   * when `pad` is set; otherwise they must be fewer than `frombits` and all zero.
   */
  function Converted(data: seq<nat>, frombits: nat, tobits: nat, pad: bool): (r: Result<seq<nat>>)
    requires 1 <= frombits <= 8 && 1 <= tobits <= 8
    ensures r.Ok? ==> Fits(r.value, tobits)
  {
    GroupsFit(Flatten(data, frombits), tobits);
    PaddedFit(Flatten(data, frombits), tobits);
    if !Fits(data, frombits) then Err(InvalidBits)
    else if pad then Ok(Padded(Flatten(data, frombits), tobits))
    else if !CleanTail(Flatten(data, frombits), frombits, tobits) then Err(InvalidBits)
    else Ok(Groups(Flatten(data, frombits), tobits))
  }

  /**
   * `convert`, as the source computes it.  The accumulator is kept as the bits
   * shifted into it so far; `bits` of them, at the low end, are still pending.
   */
  method Convert(data: seq<nat>, frombits: nat, tobits: nat, pad: bool) returns (r: Result<seq<nat>>)
    requires 1 <= frombits <= 8 && 1 <= tobits <= 8
    ensures r == Converted(data, frombits, tobits, pad)
  {
    var acc: seq<bool> := [];
    var bits: nat := 0;
    var output: seq<nat> := [];
    ghost var done: nat := 0;
    for i := 0 to |data|
      invariant Fits(data[..i], frombits)
      invariant acc == Flatten(data[..i], frombits)
      invariant bits < tobits && done + bits == |acc|
      invariant Covered(acc[..done], tobits)
      invariant output == Groups(acc[..done], tobits)
    {
      var value := data[i];
      if value >= Pow2(frombits) {
        ConvertedUnfit(data, frombits, tobits, pad, i);
        return Err(InvalidBits);
      }
      StepInvariant(data, i, frombits, acc, done);
      acc := acc + BitsOf(value, frombits);
      bits := bits + frombits;
      bits, output, done := Emit(acc, bits, tobits, output, done);
    }
    assert data[..|data|] == data;
    ConvertedFromState(data, frombits, tobits, pad, acc, done);
    if pad {
      if bits > 0 {
        output := output + [PadGroup(acc[|acc| - bits..], tobits)];
      }
    } else if bits >= frombits || PadGroup(acc[|acc| - bits..], tobits) != 0 {
      return Err(InvalidBits);
    }
    return Ok(output);
  }

  /** The inner loop of `convert`: cut complete `tobits`-bit groups off the pending bits. */
  method Emit(acc: seq<bool>, bits: nat, tobits: nat, output: seq<nat>, ghost done: nat)
    returns (bits': nat, output': seq<nat>, ghost done': nat)
    requires tobits > 0 && done + bits == |acc|
    requires Covered(acc[..done], tobits) && output == Groups(acc[..done], tobits)
    ensures bits' < tobits && done' + bits' == |acc|
    ensures Covered(acc[..done'], tobits) && output' == Groups(acc[..done'], tobits)
  {
    bits', output', done' := bits, output, done;
    while bits' >= tobits
      invariant done' + bits' == |acc|
      invariant Covered(acc[..done'], tobits)
      invariant output' == Groups(acc[..done'], tobits)
      decreases bits'
    {
      bits' := bits' - tobits;
      var group := Field(acc, bits', tobits);
      EmitStep(acc, done', bits', tobits);
      output' := output' + [group];
      done' := done' + tobits;
    }
  }

  /** One iteration of the inner loop appends the next complete group. */
  lemma EmitStep(acc: seq<bool>, done: nat, bits: nat, tobits: nat)
    requires tobits > 0 && done + bits + tobits == |acc| && Covered(acc[..done], tobits)
    ensures Covered(acc[..done + tobits], tobits)
    ensures Groups(acc[..done + tobits], tobits) == Groups(acc[..done], tobits) + [Field(acc, bits, tobits)]
  {
    assert Field(acc, bits, tobits) == Value(acc[done..done + tobits]);
    GroupsSnoc(acc[..done], acc[done..done + tobits], tobits);
    PrefixSplit(acc, done, done + tobits);
  }

  /** `Converted` in terms of the state the loop of `convert` ends in. */
  lemma ConvertedFromState(data: seq<nat>, frombits: nat, tobits: nat, pad: bool, acc: seq<bool>, done: nat)
    requires 1 <= frombits <= 8 && 1 <= tobits <= 8
    requires Fits(data, frombits) && acc == Flatten(data, frombits)
    requires done <= |acc| && |acc| - done < tobits && Covered(acc[..done], tobits)
    ensures var out, rest := Groups(acc[..done], tobits), acc[done..];
      Converted(data, frombits, tobits, pad) ==
        if pad then Ok(if |rest| > 0 then out + [PadGroup(rest, tobits)] else out)
        else if |rest| >= frombits || PadGroup(rest, tobits) != 0 then Err(InvalidBits)
        else Ok(out)
  {
    FinalGroups(acc, done, tobits);
    var out := Groups(acc[..done], tobits);
    assert out + [] == out;
  }

  lemma ConvertedUnfit(data: seq<nat>, frombits: nat, tobits: nat, pad: bool, i: nat)
    requires 1 <= frombits <= 8 && 1 <= tobits <= 8
    requires i < |data| && data[i] >= Pow2(frombits)
    ensures Converted(data, frombits, tobits, pad) == Err(InvalidBits)
  {
  }

  /** What one more value does to the bit stream and the complete groups of the loop of `convert`. */
  lemma StepInvariant(data: seq<nat>, i: nat, w: nat, acc: seq<bool>, done: nat)
    requires i < |data| && data[i] < Pow2(w) && Fits(data[..i], w)
    requires acc == Flatten(data[..i], w) && done <= |acc|
    ensures Fits(data[..i + 1], w)
    ensures acc + BitsOf(data[i], w) == Flatten(data[..i + 1], w)
    ensures (acc + BitsOf(data[i], w))[..done] == acc[..done]
  {
    FlattenSnoc(data, i, w);
    AppendPrefix(acc, BitsOf(data[i], w), done);
    assert data[..i + 1] == data[..i] + [data[i]];
    FitsSnoc(data[..i], data[i], w);
  }

  lemma FlattenSnoc(data: seq<nat>, i: nat, w: nat)
    requires i < |data|
    ensures Flatten(data[..i + 1], w) == Flatten(data[..i], w) + BitsOf(data[i], w)
  {
    assert data[..i + 1][..i] == data[..i];
  }

  lemma AppendPrefix(a: seq<bool>, b: seq<bool>, k: nat)
    requires k <= |a|
    ensures (a + b)[..k] == a[..k]
  {
  }

  lemma PrefixSplit(a: seq<bool>, i: nat, j: nat)
    requires i <= j <= |a|
    ensures a[..i] + a[i..j] == a[..j]
  {
  }

  /** When fewer than `t` bits follow the complete groups, those bits are the leftover. */
  lemma FinalGroups(acc: seq<bool>, done: nat, t: nat)
    requires t > 0 && done <= |acc| && |acc| - done < t && Covered(acc[..done], t)
    ensures Groups(acc, t) == Groups(acc[..done], t)
    ensures Leftover(acc, t) == acc[done..]
  {
    GroupsAppend(acc[..done], acc[done..], t);
    assert acc[..done] + acc[done..] == acc;
  }

  // ---------------------------------------------------------------------
  // Lemmas about groups

  lemma {:induction false} GroupsShort(c: seq<bool>, t: nat)
    requires t > 0 && |c| < t
    ensures Groups(c, t) == [] && Leftover(c, t) == c
  {
  }

  lemma SplitFront(a: seq<bool>, c: seq<bool>, t: nat)
    requires t <= |a|
    ensures (a + c)[..t] == a[..t] && (a + c)[t..] == a[t..] + c
  {
  }

  /** Complete groups in front of other bits are cut off first. */
  lemma {:induction false} GroupsAppend(a: seq<bool>, c: seq<bool>, t: nat)
    requires t > 0 && Covered(a, t)
    ensures Groups(a + c, t) == Groups(a, t) + Groups(c, t)
    ensures Leftover(a + c, t) == Leftover(c, t)
    decreases |a|
  {
    if a == [] {
      assert a + c == c;
    } else {
      SplitFront(a, c, t);
      GroupsAppend(a[t..], c, t);
    }
  }

  /** Appending one complete group adds one number. */
  lemma {:induction false} GroupsSnoc(a: seq<bool>, g: seq<bool>, t: nat)
    requires t > 0 && Covered(a, t) && |g| == t
    ensures Covered(a + g, t)
    ensures Groups(a + g, t) == Groups(a, t) + [Value(g)]
    decreases |a|
  {
    if a == [] {
      assert a + g == g;
      assert g[..t] == g && g[t..] == [];
    } else {
      SplitFront(a, g, t);
      GroupsSnoc(a[t..], g, t);
    }
  }

  // ---------------------------------------------------------------------
  // Binary representations

  /** `Value` reads back what `BitsOf` writes, for values that fit. */
  lemma {:induction false} ValueBitsOf(x: nat, w: nat)
    requires x < Pow2(w)
    ensures Value(BitsOf(x, w)) == x
    decreases w
  {
    if w > 0 {
      var s := BitsOf(x, w);
      assert s[..w - 1] == BitsOf(x / 2, w - 1);
      ValueBitsOf(x / 2, w - 1);
    }
  }

  /** Bit `i` of `BitsOf(x, w)`, counted from the top, is bit `w - 1 - i` of `FromNat(x, w)`. */
  lemma {:induction false} BitsOfFromNat(x: nat, w: nat, i: nat)
    requires i < w
    ensures BitsOf(x, w)[i] == FromNat(x, w)[w - 1 - i]
    decreases w
  {
    if i < w - 1 {
      BitsOfFromNat(x / 2, w - 1, i);
    }
  }

  /** `BitsOf` writes back what `Value` reads. */
  lemma {:induction false} BitsOfValue(s: seq<bool>)
    ensures BitsOf(Value(s), |s|) == s
    decreases |s|
  {
    if s != [] {
      var init := s[..|s| - 1];
      BitsOfValue(init);
      assert Value(s) / 2 == Value(init);
      assert s == init + [s[|s| - 1]];
    }
  }

  lemma {:induction false} ValueZeros(n: nat)
    ensures Value(Zeros(n)) == 0
    decreases n
  {
    if n > 0 {
      assert Zeros(n)[..n - 1] == Zeros(n - 1);
      ValueZeros(n - 1);
    }
  }

  // ---------------------------------------------------------------------
  // Flattening and regrouping

  lemma {:induction false} FlattenAppend(d: seq<nat>, e: seq<nat>, w: nat)
    ensures Flatten(d + e, w) == Flatten(d, w) + Flatten(e, w)
    decreases |e|
  {
    if e == [] {
      assert d + e == d;
    } else {
      var e', x := e[..|e| - 1], e[|e| - 1];
      InitOfConcat(d, e);
      FlattenAppend(d, e', w);
      calc {
        Flatten(d + e, w);
        Flatten(d + e', w) + BitsOf(x, w);
        (Flatten(d, w) + Flatten(e', w)) + BitsOf(x, w);
        Flatten(d, w) + (Flatten(e', w) + BitsOf(x, w));
        Flatten(d, w) + Flatten(e, w);
      }
    }
  }

  /** Grouping the bit stream of `w`-bit values by `w` gives the values back, with nothing left over. */
  lemma {:induction false} GroupsOfFlatten(d: seq<nat>, w: nat)
    requires w > 0 && Fits(d, w)
    ensures Covered(Flatten(d, w), w) && Groups(Flatten(d, w), w) == d
    decreases |d|
  {
    if d != [] {
      var init, last := d[..|d| - 1], d[|d| - 1];
      GroupsOfFlatten(init, w);
      GroupsSnoc(Flatten(init, w), BitsOf(last, w), w);
      ValueBitsOf(last, w);
      InitLast(d);
    }
  }

  lemma FlattenSingle(x: nat, w: nat)
    ensures Flatten([x], w) == BitsOf(x, w)
  {
    assert [x][..0] == [];
  }

  lemma FlattenCons(x: nat, d: seq<nat>, w: nat)
    ensures Flatten([x] + d, w) == BitsOf(x, w) + Flatten(d, w)
  {
    FlattenAppend([x], d, w);
    FlattenSingle(x, w);
  }

  /** The groups of a bit stream, flattened again and followed by the leftover, are the bit stream. */
  lemma {:induction false} FlattenOfGroups(b: seq<bool>, t: nat)
    requires t > 0
    ensures Flatten(Groups(b, t), t) + Leftover(b, t) == b
    decreases |b|
  {
    if |b| >= t {
      var head, tail := b[..t], b[t..];
      var g, rest := Groups(tail, t), Leftover(tail, t);
      calc {
        Flatten(Groups(b, t), t) + Leftover(b, t);
        Flatten([Value(head)] + g, t) + rest;
        { FlattenCons(Value(head), g, t); BitsOfValue(head); }
        (head + Flatten(g, t)) + rest;
        head + (Flatten(g, t) + rest);
        { FlattenOfGroups(tail, t); }
        head + tail;
        b;
      }
    }
  }

  /** Every group is a `t`-bit value. */
  lemma {:induction false} GroupsFit(b: seq<bool>, t: nat)
    requires t > 0
    ensures Fits(Groups(b, t), t)
    decreases |b|
  {
    if |b| >= t {
      GroupsFit(b[t..], t);
    }
  }

  /** Padded `t`-bit groups of a bit stream: the bit stream followed by fewer than `t` zero bits. */
  lemma {:induction false} PaddedBits(b: seq<bool>, t: nat) returns (z: nat)
    requires t > 0
    ensures z < t && Fits(Padded(b, t), t)
    ensures Flatten(Padded(b, t), t) == b + Zeros(z)
  {
    var g := Groups(b, t);
    var rest := Leftover(b, t);
    FlattenOfGroups(b, t);
    GroupsFit(b, t);
    if |rest| > 0 {
      z := t - |rest|;
      var p := PadGroup(rest, t);
      FitsSnoc(g, p, t);
      calc {
        Flatten(Padded(b, t), t);
        Flatten(g + [p], t);
        { FlattenAppend(g, [p], t); FlattenSingle(p, t); }
        Flatten(g, t) + BitsOf(p, t);
        { BitsOfValue(rest + Zeros(z)); }
        Flatten(g, t) + (rest + Zeros(z));
        b + Zeros(z);
      }
    } else {
      z := 0;
      assert Padded(b, t) == g by {
        assert g + [] == g;
      }
      assert rest == [] && b + Zeros(0) == b && Flatten(g, t) + [] == Flatten(g, t);
    }
  }

  lemma FitsSnoc(d: seq<nat>, x: nat, w: nat)
    requires Fits(d, w) && x < Pow2(w)
    ensures Fits(d + [x], w)
  {
  }

  /** The bit stream of bytes followed by fewer than five zero bits regroups into those bytes with a clean tail. */
  lemma ToBytes(data: seq<nat>, z: nat)
    requires Fits(data, 8) && z < 5
    ensures Groups(Flatten(data, 8) + Zeros(z), 8) == data
    ensures CleanTail(Flatten(data, 8) + Zeros(z), 5, 8)
  {
    var b := Flatten(data, 8);
    GroupsOfFlatten(data, 8);
    GroupsAppend(b, Zeros(z), 8);
    GroupsShort(Zeros(z), 8);
    assert data + [] == data;
    ValueZeros(8);
    assert Zeros(z) + Zeros(8 - z) == Zeros(8);
  }

  /**
   * Regrouping 8-bit bytes into padded 5-bit symbols and those back into
   * bytes without padding gives the bytes back: the padding is fewer than
   * five zero bits, which the unpadded direction accepts and drops.
   */
  lemma ConvertRoundTrip(data: seq<nat>)
    requires Fits(data, 8)
    ensures Converted(data, 8, 5, true).Ok?
    ensures Converted(Converted(data, 8, 5, true).value, 5, 8, false) == Ok(data)
  {
    var b := Flatten(data, 8);
    var z := PaddedBits(b, 5);
    ToBytes(data, z);
  }

  lemma PaddedFit(b: seq<bool>, t: nat)
    requires t > 0
    ensures Fits(Padded(b, t), t)
  {
    GroupsFit(b, t);
    if |Leftover(b, t)| > 0 {
      FitsSnoc(Groups(b, t), PadGroup(Leftover(b, t), t), t);
    } else {
      assert Padded(b, t) == Groups(b, t) + [];
    }
  }

  // ---------------------------------------------------------------------
  // Lengths

  lemma {:induction false} FlattenLength(d: seq<nat>, w: nat)
    ensures |Flatten(d, w)| == |d| * w
    decreases |d|
  {
    if d != [] {
      FlattenLength(d[..|d| - 1], w);
      assert (|d| - 1) * w + w == |d| * w;
    }
  }

  /** The complete groups and the leftover account for every bit. */
  lemma {:induction false} GroupsLength(b: seq<bool>, t: nat)
    requires t > 0
    ensures |Groups(b, t)| * t + |Leftover(b, t)| == |b|
    decreases |b|
  {
    if |b| >= t {
      GroupsLength(b[t..], t);
      assert (1 + |Groups(b[t..], t)|) * t == t + |Groups(b[t..], t)| * t;
    }
  }

  /** Quotients by a width of one to eight bits: the floor, and the ceiling as `convert` pads. */
  lemma DivParts(g: nat, r: nat, t: nat)
    requires 1 <= t <= 8 && r < t
    ensures (g * t + r) / t == g
    ensures (g * t + r + t - 1) / t == g + (if r > 0 then 1 else 0)
  {
    if t == 1 {
    } else if t == 2 {
    } else if t == 3 {
    } else if t == 4 {
    } else if t == 5 {
    } else if t == 6 {
    } else if t == 7 {
    } else {
    }
  }

  /** How many values `convert` emits from `|b|` bits, without and with padding. */
  lemma GroupsCount(b: seq<bool>, t: nat)
    requires 1 <= t <= 8
    ensures |Groups(b, t)| == |b| / t
    ensures |Padded(b, t)| == (|b| + t - 1) / t
  {
    GroupsLength(b, t);
    DivParts(|Groups(b, t)|, |Leftover(b, t)|, t);
  }

  /** A value of zero has no bit set. */
  lemma {:induction false} ValueZero(s: seq<bool>)
    requires Value(s) == 0
    ensures s == Zeros(|s|)
    decreases |s|
  {
    if s != [] {
      var init := s[..|s| - 1];
      ValueZero(init);
      assert s == init + [s[|s| - 1]];
    }
  }

  // ---------------------------------------------------------------------
  // What convert promises

  /**
   * With padding, `convert` accepts any data whose values fit in `frombits`
   * bits and emits ceil(n * frombits / tobits) values below 2^tobits, whose
   * bits are the input bits followed by fewer than `tobits` zero bits.
   */
  lemma ConvertedPadded(data: seq<nat>, frombits: nat, tobits: nat) returns (z: nat)
    requires 1 <= frombits <= 8 && 1 <= tobits <= 8 && Fits(data, frombits)
    ensures Converted(data, frombits, tobits, true).Ok?
    ensures var out := Converted(data, frombits, tobits, true).value;
      |out| == (|data| * frombits + tobits - 1) / tobits && Fits(out, tobits) &&
      z < tobits && Flatten(out, tobits) == Flatten(data, frombits) + Zeros(z)
  {
    var b := Flatten(data, frombits);
    z := PaddedBits(b, tobits);
    FlattenLength(data, frombits);
    GroupsCount(b, tobits);
  }

  /**
   * Without padding, what `convert` accepts loses fewer than `frombits` bits,
   * all zero: the input bits are the output bits followed by those, and there
   * are floor(n * frombits / tobits) output values.
   */
  lemma ConvertedStrict(data: seq<nat>, frombits: nat, tobits: nat) returns (z: nat)
    requires 1 <= frombits <= 8 && 1 <= tobits <= 8 && Converted(data, frombits, tobits, false).Ok?
    ensures var out := Converted(data, frombits, tobits, false).value;
      Fits(data, frombits) && |out| == |data| * frombits / tobits &&
      z < frombits && Flatten(data, frombits) == Flatten(out, tobits) + Zeros(z)
  {
    var b := Flatten(data, frombits);
    var rest := Leftover(b, tobits);
    z := |rest|;
    FlattenOfGroups(b, tobits);
    PadGroupZero(rest, tobits);
    FlattenLength(data, frombits);
    GroupsCount(b, tobits);
  }

  /** Without padding, data whose bits do not end in fewer than `frombits` zero bits past the last group is refused. */
  lemma ConvertedStrictRefuses(data: seq<nat>, frombits: nat, tobits: nat)
    requires 1 <= frombits <= 8 && 1 <= tobits <= 8 && Fits(data, frombits)
    requires var rest := Leftover(Flatten(data, frombits), tobits);
      |rest| >= frombits || rest != Zeros(|rest|)
    ensures Converted(data, frombits, tobits, false) == Err(InvalidBits)
  {
    var rest := Leftover(Flatten(data, frombits), tobits);
    PadGroupZero(rest, tobits);
  }

  /** The padded last group is zero exactly when the leftover bits are all clear. */
  lemma PadGroupZero(rest: seq<bool>, t: nat)
    requires |rest| <= t
    ensures PadGroup(rest, t) == 0 <==> rest == Zeros(|rest|)
  {
    var p := rest + Zeros(t - |rest|);
    if PadGroup(rest, t) == 0 {
      ValueZero(p);
      assert rest == p[..|rest|];
    }
    if rest == Zeros(|rest|) {
      assert p == Zeros(t);
      ValueZeros(t);
    }
  }
}
