/**
  * The frame counter the capture callbacks share and the timestamps they derive from it
  * (scrybe-capture-mac/src/coreaudio_tap.rs, scrybe-capture-mac/src/native_mic.rs).
  */
module FrameClock {
  import opened Arithmetic

  const TWO_64 := 0x1_0000_0000_0000_0000
  const U64_MAX := TWO_64 - 1
  const NANOS := 1_000_000_000

  function Sum(counts: seq<nat>): nat {
    if counts == [] then 0 else Sum(counts[..|counts| - 1]) + counts[|counts| - 1]
  }

  /** An `AtomicU64`: each `fetch_add` is one step, so any interleaving of callbacks is one sequence of them. */
  class FrameCounter {
    var value: nat
    /** The additions so far, in the order in which they took effect. */
    ghost var log: seq<nat>

    ghost predicate Valid()
      reads this
    {
      value == Sum(log) % TWO_64
    }

    constructor ()
      ensures Valid() && log == []
    {
      value, log := 0, [];
    }

    method FetchAdd(frames: nat) returns (prior: nat)
      requires Valid() && frames < TWO_64
      modifies this
      ensures Valid() && log == old(log) + [frames]
      ensures prior == old(value) == Sum(old(log)) % 0x1_0000_0000_0000_0000
    {
      prior := value;
      value := (value + frames) % TWO_64;
      log := log + [frames];
      assert log[..|log| - 1] == old(log);
      AddingResidues(Sum(old(log)), frames);
    }
  }

  lemma AddingResidues(a: nat, b: nat)
    ensures (a % TWO_64 + b) % TWO_64 == (a + b) % TWO_64
  {
    var q := a / TWO_64;
    assert a + b == a % TWO_64 + b + TWO_64 * q;
  }

  // ---- Tiling ----

  /** What the callback that performed the `i`th addition reads: the counter before it. */
  function Prior(log: seq<nat>, i: nat): nat
    requires i < |log|
  {
    Sum(log[..i]) % TWO_64
  }

  predicate Holds(log: seq<nat>, i: nat, frame: nat)
    requires i < |log|
  {
    Prior(log, i) <= frame < Prior(log, i) + log[i]
  }

  lemma {:induction false} SumGrows(log: seq<nat>, i: nat, j: nat)
    requires i <= j <= |log|
    ensures Sum(log[..i]) <= Sum(log[..j])
    ensures i < j ==> Sum(log[..i]) + log[i] <= Sum(log[..j])
    decreases j
  {
    if i < j {
      assert log[..j][..j - 1] == log[..j - 1];
      SumGrows(log, i, j - 1);
    }
  }

  /** Without wrap-around the block of the `i`th addition starts where the one before it ended. */
  lemma PriorsAreTheSums(log: seq<nat>, i: nat)
    requires Sum(log) < TWO_64 && i < |log|
    ensures Prior(log, i) == Sum(log[..i])
  {
    SumGrows(log, i, |log|);
    assert log[..|log|] == log;
  }

  lemma {:induction false} SomeBlockHolds(log: seq<nat>, n: nat, frame: nat) returns (i: nat)
    requires n <= |log| && frame < Sum(log[..n]) && Sum(log) < TWO_64
    ensures i < n && Holds(log, i, frame)
    decreases n
  {
    assert log[..n][..n - 1] == log[..n - 1];
    PriorsAreTheSums(log, n - 1);
    if frame < Sum(log[..n - 1]) {
      i := SomeBlockHolds(log, n - 1, frame);
    } else {
      i := n - 1;
    }
  }

  lemma BlocksAreDisjoint(log: seq<nat>, i: nat, j: nat, frame: nat)
    requires Sum(log) < TWO_64 && i < j < |log|
    ensures !(Holds(log, i, frame) && Holds(log, j, frame))
  {
    PriorsAreTheSums(log, i);
    PriorsAreTheSums(log, j);
    SumGrows(log, i, j);
  }

  /** Every frame up to the total belongs to exactly one block, and no block reaches beyond the total. */
  lemma BlocksTileTheTimeline(log: seq<nat>, frame: nat)
    requires Sum(log) < TWO_64
    ensures frame < Sum(log) <==> exists i | 0 <= i < |log| :: Holds(log, i, frame)
    ensures forall i, j | 0 <= i < |log| && 0 <= j < |log| && Holds(log, i, frame) && Holds(log, j, frame) :: i == j
  {
    assert log[..|log|] == log;
    if frame < Sum(log) {
      var i := SomeBlockHolds(log, |log|, frame);
    }
    forall i | 0 <= i < |log| && Holds(log, i, frame)
      ensures frame < Sum(log)
    {
      PriorsAreTheSums(log, i);
      SumGrows(log, i, |log|);
    }
    forall i, j | 0 <= i < |log| && 0 <= j < |log| && Holds(log, i, frame) && Holds(log, j, frame)
      ensures i == j
    {
      if i < j {
        BlocksAreDisjoint(log, i, j, frame);
      } else if j < i {
        BlocksAreDisjoint(log, j, i, frame);
      }
    }
  }

  // ---- Timestamps ----

  function SaturatingNanos(prior: nat): nat {
    if prior * NANOS <= U64_MAX then prior * NANOS else U64_MAX
  }

  /** `prior.saturating_mul(1_000_000_000).checked_div(rate).unwrap_or(0)`. */
  function Timestamp(prior: nat, rate: nat): nat {
    if rate == 0 then 0 else SaturatingNanos(prior) / rate
  }

  /** `t` is the exact time of the frame in nanoseconds, rounded down. */
  predicate WithinANanosecond(t: nat, frame: nat, rate: nat) {
    t * rate <= frame * 1_000_000_000 < (t + 1) * rate
  }

  /** A later frame never gets an earlier timestamp, saturated or not, whatever the rate. */
  lemma TimestampsNeverDecrease(a: nat, b: nat, rate: nat)
    requires a <= b
    ensures Timestamp(a, rate) <= Timestamp(b, rate) && (rate == 0 ==> Timestamp(b, rate) == 0)
  {
    if rate > 0 {
      QuotientsGrow(SaturatingNanos(a), SaturatingNanos(b), rate);
    }
  }

  /** The callbacks of a log that does not wrap get timestamps in the order of their additions. */
  lemma TimestampsFollowTheAdditions(log: seq<nat>, i: nat, j: nat, rate: nat)
    requires Sum(log) < TWO_64 && i <= j < |log|
    ensures Timestamp(Prior(log, i), rate) <= Timestamp(Prior(log, j), rate)
  {
    PriorsAreTheSums(log, i);
    PriorsAreTheSums(log, j);
    SumGrows(log, i, j);
    TimestampsNeverDecrease(Prior(log, i), Prior(log, j), rate);
  }

  /**
    * A timestamp is exact to the nanosecond just when the frame's time lies below the first whole nanosecond that the
    * saturated product cannot reach.
    */
  lemma ExactUntilSaturation(frame: nat, rate: nat)
    requires rate > 0
    ensures WithinANanosecond(Timestamp(frame, rate), frame, rate)
            <==> frame * 1_000_000_000 < (0xFFFF_FFFF_FFFF_FFFF / rate + 1) * rate
  {
    QuotientAndRest(U64_MAX, rate);
    QuotientAndRest(SaturatingNanos(frame), rate);
    if frame * NANOS <= U64_MAX {
      assert WithinANanosecond(Timestamp(frame, rate), frame, rate);
    } else {
      assert Timestamp(frame, rate) == U64_MAX / rate;
    }
  }

  /** In frames: every counter up to (2^64 - 1) / 10^9 gives an exact timestamp at every rate. */
  lemma ExactForEveryRate(frame: nat, rate: nat)
    requires rate > 0 && frame <= U64_MAX / NANOS
    ensures WithinANanosecond(Timestamp(frame, rate), frame, rate)
  {
    assert frame * NANOS <= U64_MAX;
    QuotientAndRest(U64_MAX, rate);
    ExactUntilSaturation(frame, rate);
  }

  /** However many blocks lie between two callbacks, the rounding of their distance stays below one nanosecond. */
  lemma RoundingDoesNotAccumulate(log: seq<nat>, i: nat, j: nat, rate: nat)
    requires rate > 0 && i <= j < |log| && Sum(log) <= U64_MAX / NANOS
    ensures var elapsed: int := Timestamp(Prior(log, j), rate) - Timestamp(Prior(log, i), rate);
            var exact: int := (Sum(log[..j]) - Sum(log[..i])) * NANOS;
            exact < (elapsed + 1) * rate && (elapsed - 1) * rate < exact
  {
    hide Timestamp, Prior;
    SumGrows(log, j, |log|);
    SumGrows(log, i, j);
    assert log[..|log|] == log;
    PriorsAreTheSums(log, i);
    PriorsAreTheSums(log, j);
    var p, q := Sum(log[..i]), Sum(log[..j]);
    ExactForEveryRate(p, rate);
    ExactForEveryRate(q, rate);
    DistanceOfRounded(Timestamp(p, rate), Timestamp(q, rate), p * NANOS, q * NANOS, rate);
    assert (q - p) * NANOS == q * NANOS - p * NANOS;
  }

  /** Two numbers rounded down to multiples are as far apart as the numbers, give or take one. */
  lemma DistanceOfRounded(t: int, u: int, p: int, q: int, rate: int)
    requires t * rate <= p < (t + 1) * rate && u * rate <= q < (u + 1) * rate
    ensures (u - t - 1) * rate < q - p < (u - t + 1) * rate
  {
    assert (t + 1) * rate == t * rate + rate && (u + 1) * rate == u * rate + rate;
    assert (u - t - 1) * rate == u * rate - t * rate - rate;
    assert (u - t + 1) * rate == u * rate - t * rate + rate;
  }

  /** Past the saturation point time stands still: every later frame gets one and the same timestamp. */
  lemma SaturatedTimeStandsStill(frame: nat, rate: nat)
    requires rate > 0 && frame > U64_MAX / NANOS
    ensures Timestamp(frame, rate) == U64_MAX / rate
  {}

  /** At 48 kHz that happens within 106 hours and 46 minutes. */
  lemma TimeStopsWithinFiveDays(more: nat)
    ensures Timestamp((106 * 3600 + 46 * 60) * 48_000 + more, 48_000) == U64_MAX / 48_000
    ensures !WithinANanosecond(Timestamp((106 * 3600 + 46 * 60) * 48_000 + more, 48_000), (106 * 3600 + 46 * 60) * 48_000 + more, 48_000)
  {
    SaturatedTimeStandsStill((106 * 3600 + 46 * 60) * 48_000 + more, 48_000);
  }
}
