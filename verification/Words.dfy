/** Machine words as bounded integers, their bytes, and the few C idioms every module shares. */
module Words {

  const U32_MODULUS := 0x1_0000_0000

  type byte = x: int | 0 <= x < 0x100
  type uint16 = x: int | 0 <= x < 0x1_0000
  type uint32 = x: int | 0 <= x < 0x1_0000_0000
  type sint32 = x: int | -0x8000_0000 <= x <= 0x7fff_ffff

  datatype Option<+T> = None | Some(value: T)

  function Min(a: int, b: int): int {
    if a > b then b else a
  }

  function Max(a: int, b: int): int {
    if a < b then b else a
  }

  function Distance(a: int, b: int): nat {
    if a > b then a - b else b - a
  }

  /** Conversion to a 32-bit unsigned word: arithmetic modulo 2^32. */
  function ToU32(x: int): uint32 {
    x % U32_MODULUS
  }

  lemma NoWrap(x: nat)
    requires x < U32_MODULUS
    ensures ToU32(x) == x
  {
  }

  /** Conversion to a 32-bit two's complement word. */
  function ToS32(x: int): sint32 {
    (x + 0x8000_0000) % U32_MODULUS - 0x8000_0000
  }

  lemma Assoc<T>(a: seq<T>, b: seq<T>, c: seq<T>)
    ensures (a + b) + c == a + (b + c)
  {
  }

  lemma TailOf<T>(a: T, b: seq<T>)
    ensures ([a] + b)[1..] == b
  {
  }

  // ---------- Big-endian bytes ----------

  /** The low n bytes of w, most significant first. */
  function Bytes(w: nat, n: nat): (b: seq<byte>)
    ensures |b| == n
  {
    if n == 0 then [] else Bytes(w / 0x100, n - 1) + [w % 0x100]
  }

  function Number(b: seq<byte>): (w: nat)
    ensures |b| == 0 ==> w == 0
    ensures |b| == 1 ==> w < 0x100
    ensures |b| == 2 ==> w < 0x1_0000
    ensures |b| == 3 ==> w < 0x100_0000
    ensures |b| == 4 ==> w < 0x1_0000_0000
  {
    if b == [] then 0 else Number(b[..|b| - 1]) * 0x100 + b[|b| - 1]
  }

  /** The number w fits n bytes. */
  predicate Fits(w: nat, n: nat) {
    if n == 0 then w == 0 else Fits(w / 0x100, n - 1)
  }

  lemma FitsIn(w: nat)
    ensures w < 0x100_0000 ==> Fits(w, 3)
    ensures w < 0x1_0000_0000 ==> Fits(w, 4)
  {
    var q := w / 0x100;
    var r := q / 0x100;
    var t := r / 0x100;
    assert w < 0x100_0000 ==> t == 0 && Fits(r, 1) && Fits(q, 2);
    assert w < 0x1_0000_0000 ==> t / 0x100 == 0 && Fits(t, 1) && Fits(r, 2) && Fits(q, 3);
  }

  lemma {:induction false} NumberOfBytes(w: nat, n: nat)
    requires Fits(w, n)
    ensures Number(Bytes(w, n)) == w
  {
    if n > 0 {
      NumberOfBytes(w / 0x100, n - 1);
      assert Bytes(w, n)[..n - 1] == Bytes(w / 0x100, n - 1);
    }
  }

  lemma {:induction false} BytesOfNumber(b: seq<byte>)
    ensures Bytes(Number(b), |b|) == b
  {
    if b != [] {
      BytesOfNumber(b[..|b| - 1]);
      assert b == b[..|b| - 1] + [b[|b| - 1]];
    }
  }

  /** The shifts by 16, 8 and 0 bits of the source are these bytes. */
  lemma ThreeBytes(w: nat)
    ensures Bytes(w, 3) == [w / 0x1_0000 % 0x100, w / 0x100 % 0x100, w % 0x100]
  {
    var q := w / 0x100;
    assert w / 0x1_0000 == q / 0x100;
    assert Bytes(q / 0x100, 1) == [q / 0x100 % 0x100];
    assert Bytes(q, 2) == [q / 0x100 % 0x100, q % 0x100];
  }

  lemma FourBytes(w: uint32)
    ensures Bytes(w, 4) == [w / 0x100_0000, w / 0x1_0000 % 0x100, w / 0x100 % 0x100, w % 0x100]
  {
    var q := w / 0x100;
    ThreeBytes(q);
    assert w / 0x1_0000 == q / 0x100 && w / 0x100_0000 == q / 0x1_0000;
  }

  /** a shifted left by n bytes. */
  function Shifted(a: nat, n: nat): nat {
    if n == 0 then a else Shifted(a, n - 1) * 0x100
  }

  /** Bytes only looks at the low bytes of its number. */
  lemma {:induction false} BytesIgnoreHigh(high: nat, low: nat, n: nat)
    ensures Bytes(Shifted(high, n) + low, n) == Bytes(low, n)
  {
    if n > 0 {
      BytesIgnoreHigh(high, low / 0x100, n - 1);
      assert (Shifted(high, n) + low) / 0x100 == Shifted(high, n - 1) + low / 0x100;
    }
  }

  lemma {:induction false} NumberPrepend(a: byte, b: seq<byte>)
    ensures Number([a] + b) == Shifted(a, |b|) + Number(b)
  {
    var x, n := [a] + b, |b|;
    if n == 0 {
      assert x[..0] == [];
    } else {
      NumberPrepend(a, b[..n - 1]);
      assert x[..n] == [a] + b[..n - 1];
    }
  }

  lemma ShiftedByThree(a: nat)
    ensures Shifted(a, 3) == a * 0x100_0000
  {
    assert Shifted(a, 1) == a * 0x100;
    assert Shifted(a, 2) == Shifted(a, 1) * 0x100;
  }
}
