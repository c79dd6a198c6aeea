/** Operating points and the work done at each, in 256ths of the fastest. */
module Speed {
  import opened Arith

  /** _OSSlowdownRatios: one ratio for each point below the fastest, slowest first. */
  datatype Points = Points(ratios: seq<nat>) {
    ghost predicate Valid() {
      && (forall i :: 0 <= i < |ratios| ==> ratios[i] < 256)
      && (forall i, j :: 0 <= i <= j < |ratios| ==> ratios[i] <= ratios[j])
    }

    /** OS_MAX_SPEED. */
    function Fastest(): nat { |ratios| }

    function Ratio(speed: nat): nat {
      if speed < |ratios| then ratios[speed] else 256
    }
  }

  /** ScaleBy256ths, whose shifts and masks are the quotient and the remainder by 256. */
  function Scale(time: int, ratio: nat): int {
    (time / 256) * ratio + ((time % 256) * ratio) / 256
  }

  /** It is the whole product rounded down. */
  lemma ScaleRoundsDown(time: int, ratio: nat)
    ensures Scale(time, ratio) == (time * ratio) / 256
    ensures 256 * Scale(time, ratio) <= time * ratio < 256 * Scale(time, ratio) + 256
  {
    var hi, lo := time / 256, time % 256;
    assert time == hi * 256 + lo;
    var low := lo * ratio;
    assert time * ratio == (hi * ratio) * 256 + low by {
      assert (hi * 256) * ratio == (hi * ratio) * 256;
      assert (hi * 256 + lo) * ratio == (hi * 256) * ratio + lo * ratio;
    }
    DivModUnique(time * ratio, 256, hi * ratio + low / 256, low % 256);
  }

  /** No intermediate value leaves 31 bits, which the whole product would. */
  lemma ScaleFits(time: nat, ratio: nat)
    requires time < 0x8000_0000 && ratio < 256
    ensures (time / 256) * ratio <= time && (time % 256) * ratio < 0x1_0000
    ensures 0 <= Scale(time, ratio) <= time
  {
    var hi, lo := time / 256, time % 256;
    MulMonotone(ratio, 256, hi);
    MulMonotone(ratio, 256, lo);
    MulMonotone(0, ratio, hi);
    MulMonotone(0, ratio, lo);
    assert ratio * hi == hi * ratio && ratio * lo == lo * ratio;
    assert lo * ratio <= 256 * lo;
    assert (lo * ratio) / 256 <= lo;
  }

  lemma ScaleRises(time: nat, ratio: nat, faster: nat)
    requires ratio <= faster
    ensures Scale(time, ratio) <= Scale(time, faster)
  {
    ScaleRoundsDown(time, ratio);
    ScaleRoundsDown(time, faster);
    MulMonotone(ratio, faster, time);
    assert ratio * time == time * ratio && faster * time == time * faster;
  }

  /** The work counted as done in a time, as UpdateRemainingWork has it. */
  function Done(p: Points, time: int, speed: nat): int {
    if speed < p.Fastest() then Scale(time, p.ratios[speed]) else time
  }

  predicate Covers(p: Points, speed: nat, work: int, time: int) {
    speed < p.Fastest() ==> work <= Scale(time, p.ratios[speed])
  }

  /** The slowest point from `from` on whose rounded-down product covers the work, else the
      fastest. */
  function Slowest(p: Points, from: nat, work: int, time: int): (speed: nat)
    requires from <= p.Fastest()
    ensures from <= speed <= p.Fastest() && Covers(p, speed, work, time)
    ensures forall s :: from <= s < speed ==> !Covers(p, s, work, time)
    decreases p.Fastest() - from
  {
    if Covers(p, from, work, time) then from else Slowest(p, from + 1, work, time)
  }

  /** GetProcessorSpeed: work off the record gets the fastest. */
  function SpeedFor(p: Points, minimal: nat, work: int, time: int): nat
    requires minimal <= p.Fastest()
  {
    if work <= 0 then p.Fastest() else Slowest(p, minimal, work, time)
  }

  /** The rounding is harmless: the point chosen is the slowest allowed at which the work,
      taken exactly, fits in the time. */
  lemma SpeedIsSlowest(p: Points, minimal: nat, work: int, time: int, s: nat)
    requires p.Valid() && minimal <= p.Fastest() && work > 0
    ensures var speed := SpeedFor(p, minimal, work, time);
      && minimal <= speed <= p.Fastest()
      && (speed < p.Fastest() ==> 256 * work <= p.Ratio(speed) * time)
      && (minimal <= s < speed ==> 256 * work > p.Ratio(s) * time)
  {
    var speed := SpeedFor(p, minimal, work, time);
    ScaleRoundsDown(time, p.Ratio(speed));
    ScaleRoundsDown(time, p.Ratio(s));
    assert p.Ratio(speed) * time == time * p.Ratio(speed);
    assert p.Ratio(s) * time == time * p.Ratio(s);
    if minimal <= s < speed {
      assert !Covers(p, s, work, time);
    }
  }

  lemma CoversFaster(p: Points, slow: nat, fast: nat, work: int, time: nat)
    requires p.Valid() && slow <= fast && Covers(p, slow, work, time)
    ensures Covers(p, fast, work, time)
  {
    if fast < p.Fastest() {
      ScaleRises(time, p.ratios[slow], p.ratios[fast]);
    }
  }

  /** The scan of GetProcessorSpeed, from the fastest point down to the first that does not
      do the work, finds the slowest that does. */
  method ScanSpeeds(p: Points, minimal: nat, work: int, time: nat) returns (speed: nat)
    requires p.Valid() && minimal <= p.Fastest()
    ensures speed == SpeedFor(p, minimal, work, time)
  {
    speed := p.Fastest();
    if work <= 0 {
      return;
    }
    while speed > minimal
      invariant minimal <= speed <= p.Fastest()
      invariant Covers(p, speed, work, time)
    {
      if work > Scale(time, p.ratios[speed - 1]) {
        SlowestIs(p, minimal, speed, work, time);
        return;
      }
      speed := speed - 1;
    }
  }

  /** A point that covers the work above one that does not is the slowest. */
  lemma SlowestIs(p: Points, minimal: nat, speed: nat, work: int, time: nat)
    requires p.Valid() && minimal < speed <= p.Fastest()
    requires Covers(p, speed, work, time) && !Covers(p, speed - 1, work, time)
    ensures Slowest(p, minimal, work, time) == speed
  {
    var s := Slowest(p, minimal, work, time);
    if s < speed {
      CoversFaster(p, s, speed - 1, work, time);
    }
  }
}
