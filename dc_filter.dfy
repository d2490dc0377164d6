/** The running DC-bias estimate shared by the three sample converters: a
    single-pole low-pass filter `avg += (now - avg) * 0.007`, applied once
    per converted buffer. Floats are modelled as reals; the one float value
    that matters beyond that is the NaN produced by the 0/0 mean of an
    empty buffer, which then stays in the estimate for good. */
module DcFilter {

  /** DC_FILTER_GAIN = 0.007f: settles over about 1 / 0.007 = 142 buffers. */
  const DC_FILTER_GAIN: real := 0.007

  /** A float DC value: a finite real, or NaN. */
  datatype Bias = Finite(value: real) | NaN

  /** The bias a converter starts with (`mAverageDc = 0.0f`). */
  const INITIAL_BIAS: Bias := Finite(0.0)

  /** The instantaneous DC of an Airspy buffer whose `count` 12-bit samples
      add up to `sum`: `((float) sum / count - 2048) * scale`, where scale
      stands for AirspyBufferIterator.SCALE_SIGNED_12_BIT_TO_FLOAT. An empty
      buffer gives 0/0, i.e. NaN. With every sample in [0, 4095] the centred
      mean lies in [-2048, 2047], so the DC lies in [-2048, 2047] * scale;
      a buffer sitting at the mid level 2048 has no DC. */
  function Centered12BitDc(sum: int, count: nat, scale: real): (r: Bias)
    ensures r.NaN? <==> count == 0
    ensures 0 < count && 0 <= sum <= 4095 * count && 0.0 <= scale ==>
      r.Finite? && -2048.0 * scale <= r.value <= 2047.0 * scale
    ensures 0 < count && sum == 2048 * count ==> r == Finite(0.0)
  {
    if count == 0 then NaN
    else
      var mean := sum as real / count as real;
      CenteredBounds(sum, count, scale);
      Finite((mean - 2048.0) * scale)
  }

  /** The bounds behind Centered12BitDc, on reals. */
  lemma CenteredBounds(sum: int, count: nat, scale: real)
    requires 0 < count
    ensures 0 <= sum <= 4095 * count && 0.0 <= scale ==>
      -2048.0 * scale <= (sum as real / count as real - 2048.0) * scale <= 2047.0 * scale
    ensures sum == 2048 * count ==> sum as real / count as real == 2048.0
  {
    var mean := sum as real / count as real;
    if 0 <= sum <= 4095 * count && 0.0 <= scale {
      MeanBounds(sum as real, count as real, 4095.0);
      var centred := mean - 2048.0;
      if centred >= 0.0 {
        assert 0.0 <= centred * scale <= 2047.0 * scale;
      } else {
        assert -2048.0 * scale <= centred * scale <= 0.0;
      }
    }
    if sum == 2048 * count {
      assert sum as real == 2048.0 * count as real;
      MeanOfMultiple(2048.0, count as real);
    }
  }

  /** n copies of v have the mean v. */
  lemma MeanOfMultiple(v: real, n: real)
    requires 0.0 < n
    ensures (v * n) / n == v
  {
  }

  /** The mean of n > 0 values in [0, hi] lies in [0, hi]. */
  lemma MeanBounds(sum: real, n: real, hi: real)
    requires 0.0 < n && 0.0 <= sum <= hi * n
    ensures 0.0 <= sum / n <= hi
  {
    var mean := sum / n;
    assert mean * n == sum;
    if mean > hi {
      assert mean * n > hi * n;
    }
  }

  /** One filter update: `now -= avg; avg += now * GAIN`. Any NaN operand
      yields NaN; otherwise the distance to `now` shrinks by the factor
      1 - GAIN. */
  function Step(avg: Bias, now: Bias): (r: Bias)
    ensures r.NaN? <==> avg.NaN? || now.NaN?
    ensures r.Finite? ==> r.value - now.value == (1.0 - DC_FILTER_GAIN) * (avg.value - now.value)
  {
    if avg.NaN? || now.NaN? then NaN
    else Finite(avg.value + (now.value - avg.value) * DC_FILTER_GAIN)
  }

  /** The estimate after k buffers that all have the instantaneous DC `now`. */
  function Settle(avg: Bias, now: Bias, k: nat): Bias
  {
    if k == 0 then avg else Step(Settle(avg, now, k - 1), now)
  }

  function Pow(x: real, k: nat): real
  {
    if k == 0 then 1.0 else x * Pow(x, k - 1)
  }

  function Abs(x: real): real
  {
    if x < 0.0 then -x else x
  }

  /** One update never overshoots: the new estimate lies between the old one
      and the instantaneous value, and strictly closer to the latter. */
  lemma StepApproaches(a: real, c: real)
    ensures var r := Step(Finite(a), Finite(c)).value;
      (a <= c ==> a <= r <= c) && (c <= a ==> c <= r <= a) &&
      (a != c ==> Abs(r - c) < Abs(a - c))
  {
  }

  /** As written, one empty buffer ends DC tracking: its 0/0 mean turns
      the estimate into NaN, and no later buffer brings it back. */
  lemma EmptyBufferPoisonsBias(avg: Bias, scale: real, now: Bias, k: nat)
    ensures Settle(Step(avg, Centered12BitDc(0, 0, scale)), now, k) == NaN
  {
    NaNIsSticky(now, k);
  }

  /** The update as evidently intended: an empty buffer (count 0) leaves
      the estimate alone, any other buffer updates it once. */
  function GuardedUpdate(avg: Bias, sum: int, count: nat, scale: real): Bias
  {
    if count == 0 then avg else Step(avg, Centered12BitDc(sum, count, scale))
  }

  /** The estimate after buffers given as (sum, count) pairs, in order,
      with the intended update. */
  function GuardedUpdates(avg: Bias, buffers: seq<(int, nat)>, scale: real): Bias
    decreases |buffers|
  {
    if buffers == [] then avg
    else GuardedUpdates(GuardedUpdate(avg, buffers[0].0, buffers[0].1, scale), buffers[1..], scale)
  }

  /** With the intended update, a finite estimate stays finite whatever
      buffers follow, empty ones included, and an empty buffer is a no-op. */
  lemma {:induction false} GuardedStaysFinite(avg: real, buffers: seq<(int, nat)>, scale: real)
    ensures GuardedUpdates(Finite(avg), buffers, scale).Finite?
    ensures forall sum :: GuardedUpdate(Finite(avg), sum, 0, scale) == Finite(avg)
    decreases |buffers|
  {
    if buffers != [] {
      var next := GuardedUpdate(Finite(avg), buffers[0].0, buffers[0].1, scale);
      assert next.Finite?;
      GuardedStaysFinite(next.value, buffers[1..], scale);
    }
  }

  /** A constant input c is approached geometrically:
      after k buffers the distance is (1 - GAIN)^k times the initial one. */
  lemma {:induction false} SettleIsGeometric(a: real, c: real, k: nat)
    ensures Settle(Finite(a), Finite(c), k) == Finite(c + Pow(1.0 - DC_FILTER_GAIN, k) * (a - c))
  {
    if k > 0 {
      SettleIsGeometric(a, c, k - 1);
      var p := Pow(1.0 - DC_FILTER_GAIN, k - 1);
      StepShrinksOffset(a, c, p);
      assert Pow(1.0 - DC_FILTER_GAIN, k) == (1.0 - DC_FILTER_GAIN) * p;
    }
  }

  /** One step takes the offset p * (a - c) from c to (1 - GAIN) * p * (a - c). */
  lemma StepShrinksOffset(a: real, c: real, p: real)
    ensures Step(Finite(c + p * (a - c)), Finite(c)) == Finite(c + ((1.0 - DC_FILTER_GAIN) * p) * (a - c))
  {
    var g := 1.0 - DC_FILTER_GAIN;
    assert Step(Finite(c + p * (a - c)), Finite(c)).value - c == g * (p * (a - c));
    MulAssoc(g, p, a - c);
  }

  lemma MulAssoc(x: real, y: real, z: real)
    ensures x * (y * z) == (x * y) * z
  {
  }

  /** Once NaN, the estimate stays NaN whatever later buffers hold. */
  lemma {:induction false} NaNIsSticky(now: Bias, k: nat)
    ensures Settle(NaN, now, k) == NaN
  {
    if k > 0 {
      NaNIsSticky(now, k - 1);
    }
  }

  lemma {:induction false} PowAdd(x: real, a: nat, b: nat)
    ensures Pow(x, a + b) == Pow(x, a) * Pow(x, b)
  {
    if a > 0 {
      PowAdd(x, a - 1, b);
      assert Pow(x, a + b) == x * Pow(x, a - 1 + b);
    }
  }

  lemma {:induction false} PowNonNegative(x: real, k: nat)
    requires 0.0 <= x
    ensures 0.0 <= Pow(x, k)
  {
    if k > 0 {
      PowNonNegative(x, k - 1);
    }
  }

  lemma MulLe(a: real, b: real, u: real, v: real)
    requires 0.0 <= a <= u && 0.0 <= b <= v
    ensures 0.0 <= a * b <= u * v
  {
    assert a * b <= u * b;
    assert u * b <= u * v;
  }

  /** Pow(x, m + n) <= u * v from Pow(x, m) <= u and Pow(x, n) <= v. */
  lemma PowProductBound(x: real, m: nat, n: nat, u: real, v: real, w: real)
    requires 0.0 <= x && Pow(x, m) <= u && Pow(x, n) <= v && u * v <= w
    ensures Pow(x, m + n) <= w
  {
    PowAdd(x, m, n);
    PowNonNegative(x, m);
    PowNonNegative(x, n);
    MulLe(Pow(x, m), Pow(x, n), u, v);
  }

  /** (1 - 0.007)^100 < 1/2, by repeated squaring with rounded-up bounds.
      The base is a parameter so that Pow is not unrolled on literals. */
  lemma HundredthPowerBound(x: real)
    requires x == 1.0 - DC_FILTER_GAIN
    ensures Pow(x, 100) <= 0.5
  {
    assert Pow(x, 1) == 0.993 by {
      assert Pow(x, 0) == 1.0;
    }
    PowProductBound(x, 1, 1, 0.993, 0.993, 0.9861);
    PowProductBound(x, 2, 2, 0.9861, 0.9861, 0.9724);
    PowProductBound(x, 4, 4, 0.9724, 0.9724, 0.9456);
    PowProductBound(x, 8, 8, 0.9456, 0.9456, 0.8942);
    PowProductBound(x, 16, 16, 0.8942, 0.8942, 0.7996);
    PowProductBound(x, 32, 32, 0.7996, 0.7996, 0.6394);
    PowProductBound(x, 64, 32, 0.6394, 0.7996, 0.5113);
    PowProductBound(x, 96, 4, 0.5113, 0.9724, 0.5);
  }

  /** (1 - 0.007)^700 < 1/100. */
  lemma SevenHundredthPowerBound(x: real)
    requires x == 1.0 - DC_FILTER_GAIN
    ensures 0.0 <= Pow(x, 700) <= 0.01
  {
    HundredthPowerBound(x);
    PowProductBound(x, 100, 100, 0.5, 0.5, 0.25);
    PowProductBound(x, 200, 200, 0.25, 0.25, 0.0625);
    PowProductBound(x, 400, 200, 0.0625, 0.25, 0.015625);
    PowProductBound(x, 600, 100, 0.015625, 0.5, 0.01);
    PowNonNegative(x, 700);
  }

  /** Fed 700 buffers with the same instantaneous DC, the estimate is within
      1% of the initial distance from it. */
  lemma SettlesWithinOnePercent(a: real, c: real)
    ensures Settle(Finite(a), Finite(c), 700).Finite?
    ensures Abs(Settle(Finite(a), Finite(c), 700).value - c) <= 0.01 * Abs(a - c)
  {
    SettleIsGeometric(a, c, 700);
    var x := 1.0 - DC_FILTER_GAIN;
    SevenHundredthPowerBound(x);
    var p := Pow(x, 700);
    var r := Settle(Finite(a), Finite(c), 700).value;
    assert r - c == p * (a - c);
    if a >= c {
      MulLe(p, a - c, 0.01, a - c);
      assert Abs(r - c) == p * (a - c);
    } else {
      assert r - c == -(p * (c - a));
      MulLe(p, c - a, 0.01, c - a);
      assert Abs(r - c) == p * (c - a);
    }
  }
}
