/**
  The skew engine: the time a read reports, given the real time, the mode
  and the stored offset, and the offset a set stores so that later reads show
  a target time. All values are seconds; the functions compute over
  unbounded integers and agree with the C expressions whenever those do not
  overflow (see ReadFits and SetFits).
*/
module Skew {
  import opened CArith
  import opened Bytes

  /** Mode is a percentage: the skew divides by one hundred. */
  const Percent: int := 100

  /** The number of random bytes a chaotic read draws. */
  const RandomBytes: nat := 5

  /** The width of `time64_t` in memory. */
  const TimeBytes: nat := 8

  /** Chaotic reads lie below 2^40. */
  const ChaoticBound: int := 0x100_0000_0000

  /**
    The regime test shared by read and set: positive modes up to and
    including 100, negative modes strictly above -100.
  */
  predicate IsNormal(m: int)
  {
    (m > 0 && m <= Percent) || (m < 0 && m > -Percent)
  }

  /** The regime boundaries: 100 is normal, 0 and -100 and 101 are not. */
  lemma RegimeBoundaries(m: int)
    ensures IsNormal(m) <==> (1 <= m <= 100 || -99 <= m <= -1)
    ensures IsNormal(100) && IsNormal(-99) && IsNormal(1) && IsNormal(-1)
    ensures !IsNormal(0) && !IsNormal(-100) && !IsNormal(101)
  {
  }

  /** The divisor of the set formula, which the regime test keeps away from zero. */
  function Divisor(m: int): (d: int)
    requires IsNormal(m)
    ensures 1 <= d <= 2 * Percent
    ensures d < Percent <==> m < 0
  {
    Percent + m
  }

  /**
    A normal read of the shifted time `t`: `t` stretched by `m` percent. The
    result is `t * (100 + m) / 100` up to one truncation, rounded toward `t`
    (C's division of `t * m` rounds toward zero).
  */
  function Skewed(t: int, m: int): (r: int)
    ensures Abs(Percent * r - t * (Percent + m)) < Percent
    ensures t * m >= 0 ==> Percent * r <= t * (Percent + m)
    ensures t * m <= 0 ==> t * (Percent + m) <= Percent * r
    ensures t >= 0 && m >= 0 ==> t <= r
    ensures t >= 0 && m <= 0 ==> r <= t
  {
    var q := TruncDiv(t * m, Percent);
    assert t * (Percent + m) == Percent * t + t * m;
    assert t >= 0 && m >= 0 ==> t * m >= 0;
    assert t >= 0 && m <= 0 ==> t * m <= 0;
    t + q
  }

  /**
    A chaotic read: a zeroed `time64_t` whose low `RandomBytes` bytes are
    overwritten by the random draw `rnd`, read back as a little-endian signed
    value.
  */
  function ChaoticTime(rnd: seq<Byte>): (r: int)
    requires |rnd| == RandomBytes
    ensures r == LeValue(rnd)
    ensures 0 <= r < ChaoticBound
  {
    var word := Overwrite(Zeros(TimeBytes), rnd);
    assert word == rnd + Zeros(TimeBytes - RandomBytes);
    LeValueZeroExtend(rnd, TimeBytes - RandomBytes);
    assert Pow256(5) == ChaoticBound;
    Signed64(LeValue(word))
  }

  /** Every value of `[0, 2^40)` is the outcome of some random draw. */
  lemma ChaoticCoversRange(v: int)
    requires 0 <= v < ChaoticBound
    ensures ChaoticTime(LeBytes(v, RandomBytes)) == v
  {
    assert Pow256(5) == ChaoticBound;
  }

  /** The time a read reports for real time `now`, mode `m`, offset `offset` and draw `rnd`. */
  function ReportedTime(now: int, m: int, offset: int, rnd: seq<Byte>): (r: int)
    requires |rnd| == RandomBytes
    ensures IsNormal(m) ==> Abs(Percent * r - (now + offset) * Divisor(m)) < Percent
    ensures !IsNormal(m) ==> r == LeValue(rnd) && 0 <= r < ChaoticBound
  {
    if IsNormal(m) then Skewed(now + offset, m) else ChaoticTime(rnd)
  }

  /**
    The offset a normal-regime set stores: the pre-skew time that `target`
    corresponds to, less the real time. The shifted time `now + o` is
    `target * 100 / (100 + m)` up to one truncation toward zero.
  */
  function OffsetFor(target: int, m: int, now: int): (o: int)
    requires IsNormal(m)
    ensures Abs((now + o) * Divisor(m) - Percent * target) < Divisor(m)
    ensures target >= 0 ==> 0 <= (now + o) * Divisor(m) <= Percent * target
    ensures target <= 0 ==> Percent * target <= (now + o) * Divisor(m) <= 0
  {
    TruncDiv(target * Percent, Divisor(m)) - now
  }

  /** The offset after a set: `OffsetFor` in the normal regime, zero otherwise. */
  function NewOffset(target: int, m: int, now: int): (o: int)
    ensures !IsNormal(m) ==> o == 0
    ensures IsNormal(m) ==> Abs((now + o) * Divisor(m) - Percent * target) < Divisor(m)
  {
    if IsNormal(m) then OffsetFor(target, m, now) else 0
  }

  /** Every intermediate of the C read expression fits in a `time64_t`. */
  predicate ReadFits(now: int, offset: int, m: int)
  {
    var t := now + offset;
    In64(t) && In64(t * m) && In64(t + TruncDiv(t * m, Percent))
  }

  /** Every intermediate of the C set expression fits in a `time64_t`. */
  predicate SetFits(target: int, m: int, now: int)
    requires IsNormal(m)
  {
    In64(target * Percent) && In64(TruncDiv(target * Percent, Divisor(m)) - now)
  }

  /**
    Setting `target` and reading at the same real time: the real time
    cancels, a slow clock (negative mode) shows `target` exactly, and a fast
    clock shows it up to two seconds closer to zero.
  */
  lemma SetThenRead(target: int, m: int, now: int, rnd: seq<Byte>)
    requires IsNormal(m) && |rnd| == RandomBytes
    ensures var r := ReportedTime(now, m, NewOffset(target, m, now), rnd);
      && (m < 0 ==> r == target)
      && (m > 0 && target >= 0 ==> target - 2 <= r <= target)
      && (m > 0 && target < 0 ==> target <= r <= target + 2)
  {
    var d := Divisor(m);
    var q := TruncDiv(target * Percent, d);
    assert now + NewOffset(target, m, now) == q;
    var s := TruncDiv(q * m, Percent);
    assert ReportedTime(now, m, NewOffset(target, m, now), rnd) == q + s;
    Distribute(q, m);
    MulSign(q, m);
    RoundTripArith(target, m, q, s, q * d, q * m);
  }

  lemma Distribute(q: int, m: int)
    ensures q * (Percent + m) == Percent * q + q * m
  {
  }

  lemma MulSign(q: int, m: int)
    ensures (q >= 0 && m >= 0) || (q <= 0 && m <= 0) ==> q * m >= 0
    ensures (q >= 0 && m <= 0) || (q <= 0 && m >= 0) ==> q * m <= 0
  {
  }

  /**
    The arithmetic of SetThenRead with the products named: `p` stands for
    `q * (100 + m)` and `x` for `q * m`, so that every step is linear.
  */
  lemma RoundTripArith(target: int, m: int, q: int, s: int, p: int, x: int)
    requires IsNormal(m) && p == Percent * q + x
    requires target >= 0 ==> 0 <= q && 0 <= Percent * target - p < Percent + m
    requires target < 0 ==> q <= 0 && -(Percent + m) < Percent * target - p <= 0
    requires (q >= 0 && m >= 0) || (q <= 0 && m <= 0) ==> x >= 0
    requires (q >= 0 && m <= 0) || (q <= 0 && m >= 0) ==> x <= 0
    requires x >= 0 ==> 0 <= x - Percent * s < Percent
    requires x < 0 ==> -Percent < x - Percent * s <= 0
    ensures m < 0 ==> q + s == target
    ensures m > 0 && target >= 0 ==> target - 2 <= q + s <= target
    ensures m > 0 && target < 0 ==> target <= q + s <= target + 2
  {
  }

  /** The worst case of the fast regime is reached: mode 99, target 3 reads back as 1. */
  lemma SetThenReadLosesTwo(rnd: seq<Byte>)
    requires |rnd| == RandomBytes
    ensures ReportedTime(0, 99, NewOffset(3, 99, 0), rnd) == 1
  {
  }

  /**
    Times within 2^55 seconds of the epoch (about a billion years) keep every
    intermediate of both C expressions inside `time64_t`.
  */
  lemma RealisticTimesFit(target: int, m: int, now: int, offset: int)
    requires IsNormal(m)
    requires Abs(target) <= 0x80_0000_0000_0000 && Abs(now) <= 0x80_0000_0000_0000
    requires Abs(offset) <= 0x80_0000_0000_0000
    ensures ReadFits(now, offset, m) && SetFits(target, m, now)
  {
    var t := now + offset;
    MulBound(t, m, 0x100_0000_0000_0000, Percent);
    TruncDivShrinks(t * m, Percent);
    TruncDivShrinks(target * Percent, Divisor(m));
  }

  /** Worked cases of the read and set formulas. */
  lemma Examples(rnd: seq<Byte>)
    requires |rnd| == RandomBytes
    ensures ReportedTime(1000, 50, 0, rnd) == 1500
    ensures ReportedTime(1000, -50, 0, rnd) == 500
    ensures NewOffset(1500, 50, 1000) == 0
    ensures ReportedTime(1000, 50, NewOffset(1500, 50, 1000), rnd) == 1500
    ensures ReportedTime(-1, 50, 0, rnd) == -1
    ensures NewOffset(1500, 100, 1000) == -250 && NewOffset(1500, -100, 1000) == 0
    ensures ReportedTime(1000, 100, 0, rnd) == 2000
    ensures ReportedTime(1000, -100, 7, rnd) == ReportedTime(5, 0, -3, rnd) == LeValue(rnd)
  {
  }
}
