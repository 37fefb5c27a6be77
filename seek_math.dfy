/** The arithmetic of Decoder.seek: the proportional byte offset for a time
    position, as `Math.round(available / (float) duration * positionMs)`
    capped at the bytes available. Exact rational arithmetic stands in for
    the float computation. */
module SeekMath {

  /** Integer.MAX_VALUE: `Math.round(float)` saturates here, and no Java
      `int` byte count exceeds it. */
  const IntMax: nat := 0x7fff_ffff

  function Min(a: int, b: int): (m: int)
    ensures m <= a && m <= b && (m == a || m == b)
  {
    if a <= b then a else b
  }

  /** `Math.round(num / den)` for a non-negative quotient: the integer that is
      nearest to it, a half rounded up. */
  function RoundHalfUp(num: nat, den: nat): (r: nat)
    requires den > 0
    ensures 2 * den * r <= 2 * num + den < 2 * den * (r + 1)
  {
    DivBounds(2 * num + den, 2 * den);
    (2 * num + den) / (2 * den)
  }

  /** The quotient of Euclidean division brackets the dividend. */
  lemma DivBounds(a: nat, b: nat)
    requires b > 0
    ensures b * (a / b) <= a < b * (a / b + 1)
  {
    var q, m := a / b, a % b;
    assert a == b * q + m;
  }

  /** The share `Decoder.seek` computes, `Math.round(available / (float) duration * positionMs)`.
      With duration 0 the float quotient is +Infinity when bytes remain
      (rounded to Integer.MAX_VALUE) and NaN when none do (rounded to 0). */
  function RoundedShare(available: nat, duration: nat, positionMs: nat): (r: nat)
    requires positionMs > 0
    ensures r <= IntMax
    ensures duration == 0 ==> r == (if available == 0 then 0 else IntMax)
    ensures duration > 0 && r < IntMax ==>
      2 * duration * r <= 2 * available * positionMs + duration < 2 * duration * (r + 1)
    ensures duration > 0 && r == IntMax ==>
      2 * duration * IntMax <= 2 * available * positionMs + duration
  {
    if duration == 0 then
      (if available == 0 then 0 else IntMax)
    else
      Min(RoundHalfUp(available * positionMs, duration), IntMax)
  }

  /** The byte count `Decoder.seek` asks the stream to skip — the
      proportional share of what remains past the header, never more than
      what remains. */
  function ProportionalSkip(available: nat, duration: nat, positionMs: nat): (skip: nat)
    requires positionMs > 0 && available <= IntMax
    ensures skip <= available
    ensures duration == 0 ==> skip == available
    ensures duration > 0 && skip < available ==>
      2 * duration * skip <= 2 * available * positionMs + duration < 2 * duration * (skip + 1)
    ensures duration > 0 && skip == available ==>
      2 * duration * available <= 2 * available * positionMs + duration
  {
    var share := RoundedShare(available, duration, positionMs);
    assert duration > 0 && share >= available ==>
      2 * duration * available <= 2 * available * positionMs + duration by {
      if duration > 0 && share >= available {
        MulLeftMono(2 * duration, available, share);
      }
    }
    if share > available then available else share
  }

  /** Seeking to the nominal duration or beyond skips everything that is left. */
  lemma ProportionalSkipPastEnd(available: nat, duration: nat, positionMs: nat)
    requires available <= IntMax && 0 < duration <= positionMs
    ensures ProportionalSkip(available, duration, positionMs) == available
  {
    var skip := ProportionalSkip(available, duration, positionMs);
    if skip < available {
      assert available * duration <= available * positionMs by {
        MulLeftMono(available, duration, positionMs);
      }
      assert 2 * duration * (skip + 1) <= 2 * duration * available by {
        MulLeftMono(2 * duration, skip + 1, available);
      }
      assert false;
    }
  }

  lemma MulLeftMono(k: nat, a: nat, b: nat)
    requires a <= b
    ensures k * a <= k * b
  {
    assert k * b == k * a + k * (b - a);
  }

  /** Rounding preserves order. */
  lemma RoundHalfUpMono(n1: nat, n2: nat, den: nat)
    requires den > 0 && n1 <= n2
    ensures RoundHalfUp(n1, den) <= RoundHalfUp(n2, den)
  {
    var r1, r2 := RoundHalfUp(n1, den), RoundHalfUp(n2, den);
    if r2 < r1 {
      assert 2 * den * (r2 + 1) <= 2 * den * r1 by {
        MulLeftMono(2 * den, r2 + 1, r1);
      }
      assert false;
    }
  }

  /** A later position never skips fewer bytes than an earlier one. */
  lemma ProportionalSkipMono(available: nat, duration: nat, p1: nat, p2: nat)
    requires available <= IntMax && 0 < p1 <= p2
    ensures ProportionalSkip(available, duration, p1) <= ProportionalSkip(available, duration, p2)
  {
    if duration > 0 {
      MulLeftMono(available, p1, p2);
      RoundHalfUpMono(available * p1, available * p2, duration);
    }
  }

  /** The halfway case: 1,000,000 bytes over 200,000 ms, sought to 100,000 ms,
      skips 500,000 bytes. */
  lemma ProportionalSkipHalfway()
    ensures ProportionalSkip(1_000_000, 200_000, 100_000) == 500_000
  {
    assert RoundHalfUp(1_000_000 * 100_000, 200_000) == 500_000;
  }

  /** Sought to 500,000 ms of a 200,000 ms track, the computed 2,500,000
      bytes are capped at the 1,000,000 available. */
  lemma ProportionalSkipCapped()
    ensures ProportionalSkip(1_000_000, 200_000, 500_000) == 1_000_000
  {
    ProportionalSkipPastEnd(1_000_000, 200_000, 500_000);
  }
}
