/** The running region colour of `averageSimilarNeighbors` (index.js:90-99).
    The accumulator is modelled with exact `real` arithmetic. */
module Accumulator {
  import opened Pixels

  /** The four channels of the pixel at offset `p`, as accumulator values
      (`color.push(data[i], data[i + 1], data[i + 2], data[i + 3])`). */
  function PixelColor(data: seq<Byte>, p: int): (c: seq<real>)
    requires InBuffer(data, p)
    ensures |c| == 4
    ensures forall ch :: 0 <= ch < 4 ==> c[ch] == Channel(data, p, ch) as real
  {
    [data[p] as real, data[p + 1] as real, data[p + 2] as real, data[p + 3] as real]
  }

  /** The update made when the `n`-th member (`n = set.length >= 2`) joins a
      region: `minor = 1 / n`, `major = 1 - minor`, and every channel becomes
      `color[ch] / major + px[ch] / minor`. */
  function Blend(color: seq<real>, n: nat, px: seq<real>): (r: seq<real>)
    requires |color| == 4 && |px| == 4 && n >= 2
    ensures |r| == 4
  {
    var minor := 1.0 / n as real;
    var major := 1.0 - minor;
    assert major != 0.0 by { BlendWeights(n, 0.0); }
    [ color[0] / major + px[0] / minor,
      color[1] / major + px[1] / minor,
      color[2] / major + px[2] / minor,
      color[3] / major + px[3] / minor ]
  }

  /** With `minor = 1 / n` and `major = 1 - minor` (`n >= 2`), neither weight
      is zero, dividing by `major` multiplies by `n / (n - 1)` and dividing by
      `minor` multiplies by `n`. */
  lemma {:induction false} BlendWeights(n: nat, y: real)
    requires n >= 2
    ensures 1.0 / n as real != 0.0 && 1.0 - 1.0 / n as real != 0.0
    ensures y / (1.0 - 1.0 / n as real) == y * (n as real) / (n as real - 1.0)
    ensures y / (1.0 / n as real) == y * (n as real)
  {
    var nr := n as real;
    assert 1.0 - 1.0 / nr == (nr - 1.0) / nr;
  }

  /** Each channel of a `Blend` is the previous value rescaled by `n / (n - 1)`
      plus the new sample scaled by `n`. */
  lemma {:induction false} BlendMeaning(color: seq<real>, n: nat, px: seq<real>, ch: int)
    requires |color| == 4 && |px| == 4 && n >= 2 && 0 <= ch < 4
    ensures Blend(color, n, px)[ch] == color[ch] * (n as real) / (n as real - 1.0) + px[ch] * (n as real)
  {
    BlendWeights(n, color[ch]);
    BlendWeights(n, px[ch]);
  }

  /** Every index of `ms` starts a pixel inside `data`. */
  predicate AllInBuffer(data: seq<Byte>, ms: seq<int>) {
    forall k :: 0 <= k < |ms| ==> InBuffer(data, ms[k])
  }

  /** The accumulator after the members `ms` have joined a region in this
      order: empty before the first member, that pixel's channels verbatim
      after it, and one `Blend` per later member. */
  function Aggregate(data: seq<Byte>, ms: seq<int>): (c: seq<real>)
    requires AllInBuffer(data, ms)
    ensures |c| == if ms == [] then 0 else 4
    decreases |ms|
  {
    if ms == [] then []
    else if |ms| == 1 then PixelColor(data, ms[0])
    else Blend(Aggregate(data, ms[..|ms| - 1]), |ms|, PixelColor(data, ms[|ms| - 1]))
  }

  /** The sum of channel `ch` over the members `ms`. */
  function ChannelSum(data: seq<Byte>, ms: seq<int>, ch: int): real
    requires AllInBuffer(data, ms) && 0 <= ch < 4
    decreases |ms|
  {
    if ms == [] then 0.0
    else ChannelSum(data, ms[..|ms| - 1], ch) + PixelColor(data, ms[|ms| - 1])[ch]
  }

  /** A new member joins the accumulator: the first member's channels are
      taken verbatim, every later member is blended in. */
  lemma {:induction false} AggregatePush(data: seq<Byte>, ms: seq<int>, p: int)
    requires AllInBuffer(data, ms) && InBuffer(data, p)
    ensures AllInBuffer(data, ms + [p])
    ensures Aggregate(data, ms + [p]) ==
              if ms == [] then PixelColor(data, p)
              else Blend(Aggregate(data, ms), |ms| + 1, PixelColor(data, p))
  {
    assert (ms + [p])[..|ms|] == ms;
  }

  /** `k * x`, named so that proofs can treat the product as one term. */
  function Scale(k: nat, x: real): real {
    k as real * x
  }

  /** What the update formula computes: after `n` members every channel of the
      accumulator is `n` times the sum of that channel over the members, that
      is `n * n` times their mean, not their mean. */
  lemma {:induction false} AggregateIsScaledSum(data: seq<Byte>, ms: seq<int>, ch: int)
    requires AllInBuffer(data, ms) && ms != [] && 0 <= ch < 4
    ensures Aggregate(data, ms)[ch] == |ms| as real * ChannelSum(data, ms, ch)
  {
    AggregateIsScale(data, ms, ch);
  }

  lemma {:induction false} AggregateIsScale(data: seq<Byte>, ms: seq<int>, ch: int)
    requires AllInBuffer(data, ms) && ms != [] && 0 <= ch < 4
    ensures Aggregate(data, ms)[ch] == Scale(|ms|, ChannelSum(data, ms, ch))
    decreases |ms|
  {
    var init := ms[..|ms| - 1];
    if |ms| == 1 {
      assert init == [];
    } else {
      AggregateIsScale(data, init, ch);
      AggregateStep(data, ms, ch);
      RescaleStep(Aggregate(data, init)[ch], ChannelSum(data, init, ch),
                  PixelColor(data, ms[|ms| - 1])[ch], |init|, |ms|,
                  Aggregate(data, ms)[ch], ChannelSum(data, ms, ch));
    }
  }

  /** Unfolding one update of `Aggregate` on channel `ch`. */
  lemma {:induction false} AggregateStep(data: seq<Byte>, ms: seq<int>, ch: int)
    requires AllInBuffer(data, ms) && |ms| >= 2 && 0 <= ch < 4
    ensures Aggregate(data, ms)[ch] ==
              Aggregate(data, ms[..|ms| - 1])[ch] / (1.0 - 1.0 / |ms| as real)
              + PixelColor(data, ms[|ms| - 1])[ch] / (1.0 / |ms| as real)
  {
  }

  /** The algebra of one update: if the accumulator `prev` holds `m * s` after
      `m` members, then once the sample `x` joins as the `n = m + 1`-th member
      it holds `n * (s + x)`. */
  lemma {:induction false} RescaleStep(prev: real, s: real, x: real, m: nat, n: nat, next: real, sum: real)
    requires m >= 1 && n == m + 1 && prev == Scale(m, s)
    requires next == prev / (1.0 - 1.0 / n as real) + x / (1.0 / n as real)
    requires sum == s + x
    ensures next == Scale(n, sum)
  {
    var mr, nr := m as real, n as real;
    assert 1.0 - 1.0 / nr == mr / nr;
    assert prev / (mr / nr) == nr * s;
    assert x / (1.0 / nr) == x * nr;
  }

  /** The first member's colour is its pixel's channels, unchanged. */
  lemma {:induction false} AggregateOfSingleton(data: seq<Byte>, p: int)
    requires InBuffer(data, p)
    ensures forall ch :: 0 <= ch < 4 ==> Aggregate(data, [p])[ch] == Channel(data, p, ch) as real
  {
  }
}
