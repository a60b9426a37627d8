/** RGBA pixel buffers, the similarity predicate `isSimilar` and the clamped
    byte store of a `Uint8ClampedArray` (index.js). */
module Pixels {

  /** One channel value of a `Uint8ClampedArray`. */
  type Byte = x: int | 0 <= x < 256

  /** The per-channel tolerance of `isSimilar`. */
  const Threshold: int := 3

  function Abs(x: int): nat {
    if x < 0 then -x else x
  }

  /** All four channels of the pixel starting at offset `p` lie inside `data`. */
  predicate InBuffer(data: seq<Byte>, p: int) {
    0 <= p && p + 3 < |data|
  }

  /** `p` is the first channel offset of a pixel: a stride-4 index inside `data`. */
  predicate IsPixel(data: seq<Byte>, p: int) {
    InBuffer(data, p) && p % 4 == 0
  }

  /** One conjunct of `isSimilar`: `Math.abs(data[a] - data[b]) < threshold`.
      A read past either end of the buffer yields `undefined`, the difference
      is `NaN` and the comparison is false. */
  predicate ChannelClose(data: seq<Byte>, a: int, b: int) {
    0 <= a < |data| && 0 <= b < |data| && Abs(data[a] as int - data[b] as int) < Threshold
  }

  /** Channel `ch` of the pixel starting at offset `p`. */
  function Channel(data: seq<Byte>, p: int, ch: int): int
    requires 0 <= ch < 4 && InBuffer(data, p)
  {
    data[p + ch]
  }

  /** `isSimilar(data, a, b)`. */
  predicate Similar(data: seq<Byte>, a: int, b: int) {
    && ChannelClose(data, a, b)
    && ChannelClose(data, a + 1, b + 1)
    && ChannelClose(data, a + 2, b + 2)
    && ChannelClose(data, a + 3, b + 3)
  }

  /** Two pixels are similar exactly when both lie inside the buffer and every
      channel differs by less than the threshold. */
  lemma {:induction false} SimilarMeaning(data: seq<Byte>, a: int, b: int)
    ensures Similar(data, a, b) <==>
              && InBuffer(data, a) && InBuffer(data, b)
              && forall ch :: 0 <= ch < 4 ==> Abs(Channel(data, a, ch) - Channel(data, b, ch)) < Threshold
  {
    if InBuffer(data, a) && InBuffer(data, b) &&
       forall ch :: 0 <= ch < 4 ==> Abs(Channel(data, a, ch) - Channel(data, b, ch)) < Threshold
    {
      assert Abs(Channel(data, a, 0) - Channel(data, b, 0)) < Threshold;
      assert Abs(Channel(data, a, 1) - Channel(data, b, 1)) < Threshold;
      assert Abs(Channel(data, a, 2) - Channel(data, b, 2)) < Threshold;
      assert Abs(Channel(data, a, 3) - Channel(data, b, 3)) < Threshold;
    }
  }

  lemma {:induction false} SimilarSymmetric(data: seq<Byte>, a: int, b: int)
    ensures Similar(data, a, b) == Similar(data, b, a)
  {
  }

  lemma {:induction false} SimilarReflexive(data: seq<Byte>, a: int)
    requires InBuffer(data, a)
    ensures Similar(data, a, a)
  {
  }

  /** `Math.floor(x / m)` for a positive divisor `m`, by repeated subtraction. */
  function Quot(x: int, m: nat): int
    requires m > 0
    decreases if x < 0 then 1 - x else x
  {
    if x < 0 then -Quot(-x - 1, m) - 1
    else if x < m then 0
    else 1 + Quot(x - m, m)
  }

  /** JavaScript's `x % m` for a positive divisor `m`: the remainder of the
      division that truncates toward zero, so it takes the sign of `x`. */
  function Rem(x: int, m: nat): int
    requires m > 0
    decreases if x < 0 then 1 - x else x
  {
    if x < 0 then -Rem(-x, m)
    else if x < m then x
    else Rem(x - m, m)
  }

  /** `Quot` is the floor of `x / m`, and for `x >= 0` `Rem` is what is left
      after taking `m` away `Quot` times. */
  lemma {:induction false} QuotRemBounds(x: int, m: nat)
    requires m > 0
    ensures m * Quot(x, m) <= x < m * Quot(x, m) + m
    ensures x >= 0 ==> Rem(x, m) == x - m * Quot(x, m)
    decreases if x < 0 then 1 - x else x
  {
    if x < 0 {
      var q := Quot(-x - 1, m);
      QuotRemBounds(-x - 1, m);
      assert m * (-q - 1) == -(m * q) - m;
    } else if x >= m {
      var q := Quot(x - m, m);
      QuotRemBounds(x - m, m);
      assert m * (1 + q) == m + m * q;
    }
  }

  /** Two quotients that both satisfy the floor bounds are equal. */
  lemma {:induction false} FloorUnique(x: int, m: nat, q: int, d: int)
    requires m > 0
    requires m * q <= x < m * q + m && m * d <= x < m * d + m
    ensures q == d
  {
    if q < d {
      MulGap(m, q, d);
    } else if q > d {
      MulGap(m, d, q);
    }
  }

  /** Multiples of `m` that are at least one step apart differ by at least `m`. */
  lemma {:induction false} MulGap(m: nat, q: int, d: int)
    requires q < d
    ensures m * q + m <= m * d
    decreases d - q
  {
    if d > q + 1 {
      MulGap(m, q, d - 1);
      assert m * d == m * (d - 1) + m;
    } else {
      assert m * d == m * q + m;
    }
  }

  /** Dafny's division and remainder split `x` by a positive `m`. */
  lemma {:induction false} DivModSplit(x: int, m: nat)
    requires m > 0
    ensures x == m * (x / m) + x % m && 0 <= x % m < m
  {
  }

  /** `Quot` agrees with Dafny's division, which for a positive divisor rounds
      down, and for `x >= 0` `Rem` agrees with Dafny's remainder; for `x < 0`
      `Rem` takes the sign of `x` as JavaScript's does. */
  lemma {:induction false} QuotRemMatch(x: int, m: nat)
    requires m > 0
    ensures Quot(x, m) == x / m
    ensures x >= 0 ==> Rem(x, m) == x % m
    ensures x < 0 ==> Rem(x, m) == -((-x) % m)
  {
    QuotMatch(x, m);
    if x < 0 {
      QuotMatch(-x, m);
      DivModSplit(-x, m);
      QuotRemBounds(-x, m);
    } else {
      DivModSplit(x, m);
      QuotRemBounds(x, m);
    }
  }

  lemma {:induction false} QuotMatch(x: int, m: nat)
    requires m > 0
    ensures Quot(x, m) == x / m
  {
    QuotRemBounds(x, m);
    DivModSplit(x, m);
    FloorUnique(x, m, Quot(x, m), x / m);
  }

  /** Moving a stride-4 offset by whole pixels keeps it a stride-4 offset. */
  lemma {:induction false} StrideAdd(x: int, k: int, y: int)
    requires x % 4 == 0 && y == x + 4 * k
    ensures y % 4 == 0
  {
  }

  /** Distinct stride-4 offsets are at least a pixel apart. */
  lemma {:induction false} StrideGap(x: int, y: int)
    requires x % 4 == 0 && y % 4 == 0 && x < y
    ensures x + 4 <= y
  {
  }

  /** For stride-4 offsets and a row length that is a multiple of 4, the
      remainder is a stride-4 offset inside the row, and stepping 4 to the
      right either wraps to 0 or moves the remainder 4 to the right. */
  lemma {:induction false} RemStride(x: int, m: nat)
    requires m > 0 && m % 4 == 0 && x >= 0 && x % 4 == 0
    ensures 0 <= Rem(x, m) < m && Rem(x, m) % 4 == 0
    ensures Rem(x + 4, m) != 0 ==> Rem(x + 4, m) == Rem(x, m) + 4
    decreases x
  {
    if x >= m {
      RemStride(x - m, m);
      assert Rem(x + 4, m) == Rem(x + 4 - m, m);
    } else if x + 4 >= m {
      assert x + 4 == m;
      assert Rem(x + 4, m) == Rem(0, m) == 0;
    }
  }

  /** Storing the number `x` into a `Uint8ClampedArray` element, the
      ToUint8Clamp conversion of section 7.1.11 of ECMA-262 (2015): values at
      or below 0 store 0, values at or above 255 store 255, and the rest are
      rounded to a nearest integer, a value halfway between two integers
      going to the even one. */
  function ClampByte(x: real): (b: Byte)
    ensures x <= 0.0 ==> b == 0
    ensures x >= 255.0 ==> b == 255
    ensures 0.0 < x < 255.0 ==> -0.5 <= b as real - x <= 0.5
    ensures 0.0 < x < 255.0 && (b as real - x == 0.5 || x - b as real == 0.5) ==> b % 2 == 0
  {
    if x <= 0.0 then 0
    else if x >= 255.0 then 255
    else
      var f := x.Floor;
      if f as real + 0.5 < x then f + 1
      else if x < f as real + 0.5 then f
      else if f % 2 == 0 then f
      else f + 1
  }

  /** A channel value that already is a byte is stored unchanged. */
  lemma {:induction false} ClampByteKeepsBytes(v: Byte)
    ensures ClampByte(v as real) == v
  {
  }
}
