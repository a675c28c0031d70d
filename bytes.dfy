/** Unsigned bytes and the bit arithmetic the codec performs on them. */
module Bytes {

  /** Rust's `u8`. Arithmetic whose result must stay a `u8` is a proof obligation,
      so an overflow (a panic in Rust) shows up as a verification failure. */
  type u8 = x: int | 0 <= x < 256

  /** One bit, as produced by `% 2`. */
  type Bit = b: int | 0 <= b < 2

  /** 2^i for the shift amounts that apply to a byte: `x << i` is `x * Pow2(i)`
      and `x >> i` is `x / Pow2(i)` for a `u8` value and `i < 8`. */
  function Pow2(i: nat): nat
    requires i <= 8
  {
    if i == 0 then 1
    else if i == 1 then 2
    else if i == 2 then 4
    else if i == 3 then 8
    else if i == 4 then 16
    else if i == 5 then 32
    else if i == 6 then 64
    else if i == 7 then 128
    else 256
  }

  /** A buffer holding bits 0 to i - 1 has room for bit i: adding `b << i` keeps it below
      2^(i + 1), so below 256. */
  lemma ShiftedBitFits(buffer: nat, b: Bit, i: nat)
    requires i < 8 && buffer < Pow2(i)
    ensures buffer + b * Pow2(i) < Pow2(i + 1) <= 256
  {
    if i == 0 {} else if i == 1 {} else if i == 2 {} else if i == 3 {}
    else if i == 4 {} else if i == 5 {} else if i == 6 {} else {}
  }

  /** `(b >> i) % 2`: bit i of b, counting from the least significant bit. */
  function BitOf(b: u8, i: nat): Bit
    requires i < 8
  {
    (b / Pow2(i)) % 2
  }

  /** The eight bits of b, least significant first. */
  function ByteBits(b: u8): seq<Bit>
  {
    seq(8, i requires 0 <= i < 8 => BitOf(b, i))
  }

  /** The value of up to eight bits read least significant first: bit i contributes
      `bits[i] << i`, which is how the decoder fills its byte accumulator. */
  function Accumulate(bits: seq<Bit>): (v: nat)
    requires |bits| <= 8
    ensures v < Pow2(|bits|)
  {
    if |bits| == 0 then 0
    else Accumulate(bits[..|bits| - 1]) + bits[|bits| - 1] * Pow2(|bits| - 1)
  }

  /** Adding bit j of b to the value of its lower j bits gives its lower j + 1 bits. */
  lemma ModPow2Step(b: u8, j: nat)
    requires j < 8
    ensures b % Pow2(j + 1) == b % Pow2(j) + BitOf(b, j) * Pow2(j)
  {
    var p := Pow2(j);
    var q, r := b / p, b % p;
    var h, t := q / 2, q % 2;
    assert b == h * (2 * p) + (t * p + r) by {
      assert b == q * p + r;
      assert q * p == h * (2 * p) + t * p;
    }
    DivModUnique(b, 2 * p, h, t * p + r);
  }

  /** Accumulating the lowest j bits of b yields b modulo 2^j. */
  lemma {:induction false} AccumulatePrefix(b: u8, j: nat)
    requires j <= 8
    ensures Accumulate(ByteBits(b)[..j]) == b % Pow2(j)
  {
    if j > 0 {
      AccumulatePrefix(b, j - 1);
      assert ByteBits(b)[..j][..j - 1] == ByteBits(b)[..j - 1];
      ModPow2Step(b, j - 1);
    }
  }

  /** Splitting a byte into its bits and accumulating them gives the byte back. */
  lemma AccumulateByteBits(b: u8)
    ensures Accumulate(ByteBits(b)) == b
  {
    AccumulatePrefix(b, 8);
    assert ByteBits(b)[..8] == ByteBits(b);
  }

  /** Conversely, the bits of an accumulated byte are the bits it was built from. */
  lemma {:induction false} ByteBitsAccumulate(bits: seq<Bit>)
    requires |bits| == 8
    ensures ByteBits(Accumulate(bits)) == bits
  {
    var v := Accumulate(bits);
    forall i | 0 <= i < 8
      ensures BitOf(v, i) == bits[i]
    {
      AccumulateBitsAt(bits, i);
    }
  }

  /** Bit i of the accumulated value is bits[i]. */
  lemma {:induction false} AccumulateBitsAt(bits: seq<Bit>, i: nat)
    requires i < |bits| <= 8
    ensures Accumulate(bits) / Pow2(i) % 2 == bits[i]
  {
    var n := |bits|;
    var front := bits[..n - 1];
    assert Accumulate(bits) == Accumulate(front) + bits[n - 1] * Pow2(n - 1);
    if i == n - 1 {
      assert Accumulate(front) < Pow2(n - 1);
      DivOfTop(Accumulate(front), bits[n - 1], n - 1);
    } else {
      AccumulateBitsAt(front, i);
      DivOfLower(Accumulate(front), bits[n - 1], n - 1, i);
    }
  }

  /** (low + top * 2^k) / 2^k == top when low < 2^k. */
  lemma DivOfTop(low: nat, top: Bit, k: nat)
    requires k < 8 && low < Pow2(k)
    ensures (low + top * Pow2(k)) / Pow2(k) % 2 == top
  {
    DivModUnique(low + top * Pow2(k), Pow2(k), top, low);
  }

  /** Adding a multiple of 2^k leaves the bits below k alone. */
  lemma DivOfLower(low: nat, top: Bit, k: nat, i: nat)
    requires i < k < 8 && low < Pow2(k)
    ensures (low + top * Pow2(k)) / Pow2(i) % 2 == low / Pow2(i) % 2
  {
    if top == 1 {
      var g := Pow2Ratio(k, i);
      var q, r := low / Pow2(i), low % Pow2(i);
      assert low + Pow2(k) == (q + 2 * g) * Pow2(i) + r;
      DivModUnique(low + Pow2(k), Pow2(i), q + 2 * g, r);
      EvenShift(q, g);
    }
  }

  /** 2^k is an even multiple of 2^i when i < k. */
  lemma Pow2Ratio(k: nat, i: nat) returns (g: nat)
    requires i < k <= 8
    ensures Pow2(k) == 2 * g * Pow2(i)
  {
    g := Pow2(k) / Pow2(i) / 2;
    if i == 0 {} else if i == 1 {} else if i == 2 {} else if i == 3 {}
    else if i == 4 {} else if i == 5 {} else if i == 6 {} else {}
  }

  lemma EvenShift(q: int, g: int)
    ensures (q + 2 * g) % 2 == q % 2
  {
  }

  /** Quotient and remainder are determined by a == q * d + r with 0 <= r < d. */
  lemma DivModUnique(a: int, d: int, q: int, r: int)
    requires d > 0 && a == q * d + r && 0 <= r < d
    ensures a / d == q && a % d == r
  {
    var q', r' := a / d, a % d;
    assert a == q' * d + r';
    if q' > q { MulNonnegative(q' - q - 1, d); assert false; }
    if q' < q { MulNonnegative(q - q' - 1, d); assert false; }
  }

  lemma MulNonnegative(x: int, y: int)
    requires x >= 0 && y >= 0
    ensures x * y >= 0
  {
  }
}
