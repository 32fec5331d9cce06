/** The two single-pole low-pass filters of the user maths. */
module Filters {
  import opened Arithmetic
  import opened Words

  // ---------- Weights ----------

  /** A weight and its complement make a whole. */
  lemma Complement(w: byte, m: nat)
    ensures (0x100 - w) * m + w * m == 0x100 * m
  {
  }

  /** A weight is at most 255. */
  lemma PartBelow(w: byte, m: nat)
    ensures 0 <= w * m <= 0x100 * m - m
  {
    Larger(m, w, 0xff);
  }

  // ---------- Exponential decay in integers ----------

  /** What both filters compute on small values: y loses w/256 of itself and gains k. */
  function Decay(y: nat, w: byte, k: nat): nat {
    (0x100 - w) * y / 0x100 + k
  }

  function DecayOf(w: byte, k: nat): nat -> nat {
    (y: nat) => Decay(y, w, k)
  }

  /** The greatest fixed point. */
  function Top(w: byte, k: nat): nat
    requires w > 0
  {
    0x100 * k / w
  }

  ghost predicate Fixed(y: nat, w: byte, k: nat) {
    0x100 * (k - 1) < w * y <= 0x100 * k
  }

  /** The loss in one step, rounded up. */
  lemma Loss(y: nat, w: byte) returns (i: nat)
    ensures forall k :: Decay(y, w, k) == y - i + k
    ensures 0x100 * i - 0x100 < w * y <= 0x100 * i
  {
    var rest := (0x100 - w) * y;
    assert rest == 0x100 * y - w * y;
    assert rest <= 0x100 * y;
    i := y - rest / 0x100;
  }

  lemma TopOf(w: byte, k: nat)
    requires w > 0
    ensures w * Top(w, k) <= 0x100 * k < w * Top(w, k) + w
  {
  }

  lemma AtMostTop(y: nat, w: byte, k: nat)
    requires w > 0 && y <= Top(w, k)
    ensures y <= Decay(y, w, k) <= Top(w, k)
    ensures Decay(y, w, k) == y <==> Fixed(y, w, k)
  {
    var u := Top(w, k);
    var i := Loss(y, w);
    TopOf(w, k);
    Less(w, y, u);
    PartBelow(w, u - y);
    Balance(w * y, w * u, w * (u - y), k, i, y, u, w);
  }

  lemma AtLeastTop(y: nat, w: byte, k: nat)
    requires w > 0 && y >= Top(w, k)
    ensures Top(w, k) <= Decay(y, w, k) <= y
    ensures Decay(y, w, k) == y <==> y == Top(w, k)
    ensures Fixed(Top(w, k), w, k)
  {
    var u := Top(w, k);
    var i := Loss(y, w);
    TopOf(w, k);
    Less(w, u, y);
    PartBelow(w, y - u);
    Above(w, y, u);
    Excess(w * y, w * u, w * (y - u), k, i, y, u, w);
  }

  /** The arithmetic of one step from below, the products given. */
  lemma Balance(wy: nat, wu: nat, rest: nat, k: nat, i: int, y: nat, u: nat, w: byte)
    requires wu == wy + rest && rest <= 0x100 * (u - y) - (u - y) && y <= u
    requires wu <= 0x100 * k < wu + w && 0x100 * i - 0x100 < wy <= 0x100 * i
    ensures y <= y - i + k <= u
    ensures i == k <==> 0x100 * (k - 1) < wy <= 0x100 * k
  {
  }

  /** And from above. */
  lemma Excess(wy: nat, wu: nat, rest: nat, k: nat, i: int, y: nat, u: nat, w: byte)
    requires wy == wu + rest && rest <= 0x100 * (y - u) - (y - u) && u <= y && (y > u ==> wy >= wu + w)
    requires wu <= 0x100 * k < wu + w && 0x100 * i - 0x100 < wy <= 0x100 * i
    ensures u <= y - i + k <= y
    ensures i == k <==> y == u
    ensures 0x100 * (k - 1) < wu <= 0x100 * k
  {
  }

  function Iterate(f: nat -> nat, y: nat, n: nat): nat {
    if n == 0 then y else f(Iterate(f, y, n - 1))
  }

  /** f moves every number towards u, and those above it strictly. */
  ghost predicate Pulls(f: nat -> nat, u: nat) {
    forall p: nat :: (p <= u ==> p <= f(p) <= u) && (p > u ==> u <= f(p) < p)
  }

  lemma {:induction false} PulledTowards(f: nat -> nat, u: nat, y: nat, n: nat)
    requires Pulls(f, u)
    ensures var p := Iterate(f, y, n);
      && (y <= u ==> y <= p <= f(p) <= u) && (y > u ==> u <= f(p) <= p <= y)
      && (f(p) == p || Distance(p, u) <= Distance(y, u) - n)
      && (n >= Distance(y, u) ==> f(p) == p)
  {
    if n > 0 {
      PulledTowards(f, u, y, n - 1);
    }
  }

  lemma DecayPulls(w: byte, k: nat)
    requires w > 0
    ensures Pulls(DecayOf(w, k), Top(w, k))
  {
    var f := DecayOf(w, k);
    forall p: nat
      ensures p <= Top(w, k) ==> p <= f(p) <= Top(w, k)
      ensures p > Top(w, k) ==> Top(w, k) <= f(p) < p
    {
      assert f(p) == Decay(p, w, k);
      if p <= Top(w, k) {
        AtMostTop(p, w, k);
      } else {
        AtLeastTop(p, w, k);
      }
    }
  }

  /** Iterated decay moves monotonically, and after as many steps as it starts away from the
      greatest fixed point it stands still: at that point from above, at a fixed point from below. */
  lemma DecaySettles(y: nat, w: byte, k: nat, n: nat)
    requires w > 0
    ensures var f := DecayOf(w, k);
      var u, p := Top(w, k), Iterate(f, y, n);
      && (y <= u ==> y <= p <= Iterate(f, y, n + 1) <= u)
      && (y >= u ==> y >= p >= Iterate(f, y, n + 1) >= u)
      && (n >= Distance(y, u) ==> Iterate(f, y, n + 1) == p && Fixed(p, w, k) && (y >= u ==> p == u))
  {
    var f := DecayOf(w, k);
    var u, p := Top(w, k), Iterate(f, y, n);
    DecayPulls(w, k);
    PulledTowards(f, u, y, n);
    if p <= u {
      AtMostTop(p, w, k);
    } else {
      AtLeastTop(p, w, k);
    }
    AtLeastTop(u, w, k);
  }

  // ---------- The 16-bit filter ----------

  const MAX16: uint32 := 0x100 * 0xffff

  /** The accumulator after a sample, in 32-bit arithmetic. */
  function Filter16(acc: uint32, x: uint16, w: byte): uint32 {
    ToU32(ToU32((0x100 - w) * acc) / 0x100 + w * x)
  }

  lemma Weighed16(kept: nat, share: nat, added: nat, rest: nat, m: uint16)
    requires kept <= 0x100 * share && added <= rest && share + rest == 0x100 * m
    ensures kept < U32_MODULUS && ToU32(ToU32(kept) / 0x100 + added) == kept / 0x100 + added <= 0x100 * m
  {
  }

  /** Samples up to m keep the accumulator up to 256 m, and nothing wraps. */
  lemma Filter16IsDecay(acc: uint32, x: uint16, w: byte, m: uint16)
    requires x <= m && acc <= 0x100 * m
    ensures (0x100 - w) * acc < U32_MODULUS && Decay(acc, w, w * x) < U32_MODULUS
    ensures Filter16(acc, x, w) == Decay(acc, w, w * x) <= 0x100 * m
  {
    Complement(w, acc);
    Larger(0x100 - w, acc, 0x100 * m);
    Regroup(0x100 - w, 0x100, m);
    Larger(w, x, m);
    Complement(w, m);
    Weighed16((0x100 - w) * acc, (0x100 - w) * m, w * x, w * m, m);
  }

  /** The accumulator is 256ths of the value: of the old one the rest that the sample's weight leaves
      is kept, rounded down, and as many 256ths of the sample are added. */
  lemma Filter16InPlain(acc: uint32, x: uint16, w: byte)
    requires acc <= 0x100 * 0xffff
    ensures var kept := Filter16(acc, x, w) - w * x;
      0x100 * kept <= (0x100 - w) * acc < 0x100 * kept + 0x100
  {
    Filter16IsDecay(acc, x, w, 0xffff);
  }

  datatype Sample = Sample(value: uint16, weight: byte)

  function Run16(acc: uint32, samples: seq<Sample>): uint32 {
    if samples == [] then acc
    else
      var last := samples[|samples| - 1];
      Filter16(Run16(acc, samples[..|samples| - 1]), last.value, last.weight)
  }

  lemma {:induction false} Run16StaysBelow(acc: uint32, samples: seq<Sample>, m: uint16)
    requires acc <= 0x100 * m && forall s <- samples :: s.value <= m
    ensures Run16(acc, samples) <= 0x100 * m
  {
    if samples != [] {
      var front, last := samples[..|samples| - 1], samples[|samples| - 1];
      Run16StaysBelow(acc, front, m);
      Filter16IsDecay(Run16(acc, front), last.value, last.weight, m);
    }
  }

  function Repeat16(acc: uint32, x: uint16, w: byte, n: nat): uint32 {
    if n == 0 then acc else Filter16(Repeat16(acc, x, w, n - 1), x, w)
  }

  lemma {:induction false} Repeat16IsDecay(acc: uint32, x: uint16, w: byte, n: nat)
    requires acc <= MAX16
    ensures Repeat16(acc, x, w, n) == Iterate(DecayOf(w, w * x), acc, n) <= MAX16
  {
    if n > 0 {
      Repeat16IsDecay(acc, x, w, n - 1);
      Filter16IsDecay(Repeat16(acc, x, w, n - 1), x, w, 0xffff);
    }
  }

  lemma TopExact(w: byte, x: nat)
    requires w > 0
    ensures Top(w, w * x) == 0x100 * x
  {
    TopOf(w, w * x);
    Regroup(w, 0x100, x);
    Above(w, Top(w, w * x), 0x100 * x);
    Above(w, 0x100 * x, Top(w, w * x));
  }

  lemma FixedIsNear(p: nat, x: nat, w: byte)
    requires w > 0 && Fixed(p, w, w * x) && p <= 0x100 * x
    ensures 0 <= w * (0x100 * x - p) < 0x100
  {
    Regroup(w, 0x100, x);
    Less(w, p, 0x100 * x);
  }

  /** Under a constant sample the accumulator moves monotonically and settles: from above at
      exactly 256 times the sample, from below short of it by less than 256 / weight. */
  lemma Filter16Settles(acc: uint32, x: uint16, w: byte, n: nat)
    requires w > 0 && acc <= MAX16
    ensures var u, p, next := 0x100 * x, Repeat16(acc, x, w, n), Repeat16(acc, x, w, n + 1);
      && (acc <= u ==> acc <= p <= next <= u)
      && (acc >= u ==> acc >= p >= next >= u)
      && (n >= Distance(acc, u) ==> next == p && (acc >= u ==> p == u) && 0 <= w * (u - p) < 0x100)
  {
    Repeat16IsDecay(acc, x, w, n);
    Repeat16IsDecay(acc, x, w, n + 1);
    TopExact(w, x);
    DecaySettles(acc, w, w * x, n);
    if n >= Distance(acc, 0x100 * x) {
      FixedIsNear(Repeat16(acc, x, w, n), x, w);
    }
  }

  // ---------- The 32-bit filter ----------

  /** The top of the unscaled range. */
  const SCALE: uint32 := 0x100_0000

  function Mantissa(x: uint32): (m: uint32)
    ensures m < SCALE
  {
    if x < SCALE then x else Mantissa(x / 2)
  }

  function Halvings(x: uint32): nat {
    if x < SCALE then 0 else Halvings(x / 2) + 1
  }

  function ShiftLeft(x: nat, n: nat): nat {
    if n == 0 then x else 2 * ShiftLeft(x, n - 1)
  }

  /** part / 256 of x, taken of its mantissa and scaled up again. */
  function Share(part: nat, x: uint32): uint32
    requires part <= 0x100
  {
    if x < SCALE then ToU32(part * x) / 0x100 else ToU32(2 * Share(part, x / 2))
  }

  function Filter32(acc: uint32, x: uint32, w: byte): uint32 {
    ToU32(Share(0x100 - w, acc) + Share(w, x))
  }

  /** 256 shares are at most part times x. */
  lemma {:induction false} ShareBelow(part: nat, x: uint32)
    requires part <= 0x100
    ensures 0x100 * Share(part, x) <= part * x
  {
    Larger(x, part, 0x100);
    if x < SCALE {
      WholeShare(part * x);
    } else {
      var half := x / 2;
      ShareBelow(part, half);
      Larger(half, part, 0x100);
      Larger(part, 2 * half, x);
      Regroup(part, 2, half);
      DoubleShare(Share(part, half), part * half, half);
    }
  }

  lemma HalfQuotient(x: nat, p: nat)
    requires p in {2, 4, 8, 16, 32, 64, 128, 256}
    ensures x / 2 / (p / 2) == x / p
  {
    var q, r := x / p, x % p;
    assert p == 2 * (p / 2);
    DivisionIsUnique(x, p, q, r);
    AddHalves(q, p / 2);
    DivisionIsUnique(x / 2, p / 2, q, r / 2);
  }

  lemma AddHalves(q: nat, half: nat)
    ensures 2 * half * q == 2 * (half * q)
  {
  }

  /** From 2^24 on, with p the power of two that leaves 24 bits of x: the share is taken of x / p,
      and scaled up by p. */
  lemma {:induction false} ShareInPlain(part: nat, x: uint32, p: nat)
    requires part <= 0x100 && p in {2, 4, 8, 16, 32, 64, 128, 256} && 0x80_0000 * p <= x < 0x100_0000 * p
    ensures Share(part, x) == part * (x / p) / 0x100 * p
  {
    var half := x / 2;
    HalfQuotient(x, p);
    ShareBelow(part, half);
    Larger(half, part, 0x100);
    DoubleShare(Share(part, half), part * half, half);
    if p == 2 {
      ShareUnscaled(part, half);
    } else {
      ShareInPlain(part, half, p / 2);
      Regroup(2, part * (x / p) / 0x100, p / 2);
    }
  }

  lemma WholeShare(product: nat)
    requires product < 0x100 * SCALE
    ensures ToU32(product) == product && 0x100 * (ToU32(product) / 0x100) <= product
  {
  }

  lemma DoubleShare(share: nat, product: nat, half: uint32)
    requires 0x100 * share <= product <= 0x100 * half && 2 * half < U32_MODULUS
    ensures ToU32(2 * share) == 2 * share
  {
  }

  /** Halving, weighing the mantissa and shifting back computes the share, and wraps nowhere. */
  lemma {:induction false} ShareByShift(part: nat, x: uint32)
    requires part <= 0x100
    ensures part * Mantissa(x) < U32_MODULUS
    ensures ShiftLeft(part * Mantissa(x) / 0x100, Halvings(x)) == Share(part, x)
  {
    Larger(Mantissa(x), part, 0x100);
    if x < SCALE {
      WholeShare(part * x);
    } else {
      var half := x / 2;
      ShareByShift(part, half);
      ShareBelow(part, half);
      Larger(half, part, 0x100);
      DoubleShare(Share(part, half), part * half, half);
    }
  }

  /** So in 32-bit words. */
  lemma ShareInWords(part: nat, x: uint32)
    requires part <= 0x100
    ensures ToU32(ShiftLeft(ToU32(part * Mantissa(x)) / 0x100, Halvings(x))) == Share(part, x)
  {
    ShareByShift(part, x);
    Larger(Mantissa(x), part, 0x100);
    NoWrap(part * Mantissa(x));
    NoWrap(Share(part, x));
  }

  /** A weighted mean is at most the larger value. */
  lemma MeanBelow(a: nat, b: nat, x: nat, y: nat, w: byte)
    requires 0x100 * a <= (0x100 - w) * x && 0x100 * b <= w * y
    ensures a + b <= Max(x, y)
  {
    var m := Max(x, y);
    Larger(0x100 - w, x, m);
    Larger(w, y, m);
    Complement(w, m);
  }

  /** Whatever the inputs, no sum wraps and the result is at most the larger of old and new. */
  lemma Filter32Below(acc: uint32, x: uint32, w: byte)
    ensures Filter32(acc, x, w) == Share(0x100 - w, acc) + Share(w, x) <= Max(acc, x)
  {
    ShareBelow(0x100 - w, acc);
    ShareBelow(w, x);
    MeanBelow(Share(0x100 - w, acc), Share(w, x), acc, x, w);
  }

  function Gain(w: byte, x: nat): nat {
    w * x / 0x100
  }

  /** Below 2^24 nothing is scaled. */
  lemma Filter32IsDecay(acc: uint32, x: uint32, w: byte)
    requires acc < SCALE && x < SCALE
    ensures Filter32(acc, x, w) == Decay(acc, w, Gain(w, x)) < SCALE
    ensures Filter32(acc, x, w) == (0x100 - w) * acc / 0x100 + w * x / 0x100
  {
    ShareUnscaled(0x100 - w, acc);
    ShareUnscaled(w, x);
    Filter32Below(acc, x, w);
  }

  lemma ShareUnscaled(part: nat, x: uint32)
    requires part <= 0x100 && x < SCALE
    ensures Share(part, x) == part * x / 0x100
  {
    Larger(x, part, 0x100);
    WholeShare(part * x);
  }

  function Repeat32(acc: uint32, x: uint32, w: byte, n: nat): uint32 {
    if n == 0 then acc else Filter32(Repeat32(acc, x, w, n - 1), x, w)
  }

  lemma {:induction false} Repeat32IsDecay(acc: uint32, x: uint32, w: byte, n: nat)
    requires acc < SCALE && x < SCALE
    ensures Repeat32(acc, x, w, n) == Iterate(DecayOf(w, Gain(w, x)), acc, n) < SCALE
  {
    if n > 0 {
      Repeat32IsDecay(acc, x, w, n - 1);
      Filter32IsDecay(Repeat32(acc, x, w, n - 1), x, w);
    }
  }

  /** The value the filter settles at from above. */
  function Settled32(x: uint32, w: byte): nat
    requires w > 0
  {
    Top(w, Gain(w, x))
  }

  /** Where iteration stands still it is short of the input by less than 512 / weight. */
  lemma FixedIsClose(p: nat, x: uint32, w: byte)
    requires w > 0 && Fixed(p, w, Gain(w, x))
    ensures p <= x && w * (x - p) < 0x200
  {
    assert w * p <= w * x;
    Above(w, p, x);
    Less(w, p, x);
  }

  /** Under a constant input, all below 2^24, the filter moves monotonically and settles at most
      512 / weight below the input. */
  lemma Filter32Settles(acc: uint32, x: uint32, w: byte, n: nat)
    requires w > 0 && acc < SCALE && x < SCALE
    ensures var u, y, next := Settled32(x, w), Repeat32(acc, x, w, n), Repeat32(acc, x, w, n + 1);
      && (acc <= u ==> acc <= y <= next <= u)
      && (acc >= u ==> acc >= y >= next >= u)
      && (n >= Distance(acc, u) ==>
            next == y && (acc >= u ==> y == u) && y <= x && w * (x - y) < 0x200)
  {
    Repeat32IsDecay(acc, x, w, n);
    Repeat32IsDecay(acc, x, w, n + 1);
    DecaySettles(acc, w, Gain(w, x), n);
    if n >= Distance(acc, Settled32(x, w)) {
      FixedIsClose(Repeat32(acc, x, w, n), x, w);
    }
  }

  // ---------- The filters in place ----------

  class FilterValue {
    var value: uint32

    constructor (value: uint32)
      ensures this.value == value
    {
      this.value := value;
    }

    /** What is returned are the accumulator's low 16 bits. */
    method LowPass16(x: uint16, weight: byte) returns (r: uint16)
      modifies this
      ensures value == Filter16(old(value), x, weight) && r == value % 0x1_0000
      ensures value == ((0x100 - weight) * old(value) % 0x1_0000_0000 / 0x100 + weight * x) % 0x1_0000_0000
    {
      value := ToU32((0x100 - weight) * value);
      value := value / 0x100;
      value := ToU32(value + weight * x);
      r := value % 0x1_0000;
    }

    method LowPass32(x: uint32, weight: byte) returns (r: uint32)
      modifies this
      ensures value == Filter32(old(value), x, weight) && r == value
    {
      var input, inputShift, valueShift := x, 0, 0;
      while SCALE <= input
        invariant Mantissa(input) == Mantissa(x) && inputShift + Halvings(input) == Halvings(x)
      {
        input := input / 2;
        inputShift := inputShift + 1;
      }
      while SCALE <= value
        invariant Mantissa(value) == Mantissa(old(value)) && valueShift + Halvings(value) == Halvings(old(value))
        decreases value
      {
        value := value / 2;
        valueShift := valueShift + 1;
      }
      value := ToU32((0x100 - weight) * value);
      value := value / 0x100;
      value := ToU32(ShiftLeft(value, valueShift));
      assert value == Share(0x100 - weight, old(value)) by { ShareInWords(0x100 - weight, old(value)); }
      var share: uint32 := ToU32(weight * input);
      share := share / 0x100;
      share := ToU32(ShiftLeft(share, inputShift));
      assert share == Share(weight, x) by { ShareInWords(weight, x); }
      value := ToU32(value + share);
      r := value;
    }
  }
}
