/** What the tap's IO block counts and reports from one callback to the next (scrybe-capture-mac/src/coreaudio_tap.rs). */
module TapDiagnostics {
  import opened Wrappers
  import opened Arithmetic
  import opened FrameClock

  const TWO_31 := 0x8000_0000
  const TWO_32 := 0x1_0000_0000
  /** The hidden bit, above the 23 bits of the significand field. */
  const HIDDEN := 0x80_0000

  // ---- IEEE 754-2019 binary32, by its bits (section 3.4) ----

  type F32 = bits: nat | bits < TWO_32

  /** `f32::abs`: clears the sign bit. */
  function Abs(bits: F32): (a: F32)
    ensures a < TWO_31
  {
    if bits < TWO_31 then bits else bits - TWO_31
  }

  function Exponent(bits: F32): nat {
    Abs(bits) / HIDDEN
  }

  function Significand(bits: F32): (m: nat)
    ensures m < HIDDEN
  {
    Abs(bits) % HIDDEN
  }

  predicate IsNan(bits: F32) {
    Exponent(bits) == 0xFF && Significand(bits) > 0
  }

  function Pow2(n: nat): (p: nat)
    ensures p > 0
  {
    if n == 0 then 1 else 2 * Pow2(n - 1)
  }

  /** The value of a significand at an exponent: subnormals lack the hidden bit. */
  function Scaled(e: nat, m: nat): nat {
    if e == 0 then m else (HIDDEN + m) * Pow2(e - 1)
  }

  /**
    * The absolute value in units of the smallest positive one, 2^-149. Infinity gets the value after the largest
    * finite one.
    */
  function Magnitude(bits: F32): nat {
    Scaled(Exponent(bits), Significand(bits))
  }

  /** The fields of the format: a sign bit, eight bits of exponent and twenty-three of significand. */
  lemma PartsOfBits(bits: F32)
    ensures bits == (if bits >= 0x8000_0000 then 0x8000_0000 else 0) + Exponent(bits) * 0x80_0000 + Significand(bits)
    ensures Exponent(bits) <= 0xFF && Significand(bits) < 0x80_0000 && Abs(bits) == Exponent(bits) * 0x80_0000 + Significand(bits)
    ensures IsNan(bits) <==> Exponent(bits) == 0xFF && Significand(bits) != 0
    ensures Magnitude(bits) == if Exponent(bits) == 0 then Significand(bits) else (0x80_0000 + Significand(bits)) * Pow2(Exponent(bits) - 1)
  {
    QuotientAndRest(Abs(bits), HIDDEN);
  }

  /** One is exponent 127: two to the power of 149 of the smallest units. */
  lemma OneIs()
    ensures Exponent(0x3F80_0000) == 127 && Significand(0x3F80_0000) == 0
    ensures Magnitude(0x3F80_0000) == Pow2(149) && Magnitude(0xBF80_0000) == Pow2(149)
  {
    HiddenIsAPower();
    TwoPowers(23, 126);
    hide Pow2;
    PartsOfBits(0x3F80_0000);
    PartsOfBits(0xBF80_0000);
  }

  lemma HiddenIsAPower()
    ensures Pow2(23) == HIDDEN
  {
    assert Pow2(7) == 128 && Pow2(8) == 256;
    hide Pow2;
    TwoPowers(8, 8);
    TwoPowers(16, 7);
  }

  lemma {:induction false} TwoPowers(m: nat, n: nat)
    ensures Pow2(m) * Pow2(n) == Pow2(m + n)
  {
    if m > 0 {
      TwoPowers(m - 1, n);
      Doubled(m - 1);
      Doubled(m - 1 + n);
      hide Pow2;
      DoubledProduct(Pow2(m - 1), Pow2(n));
    }
  }

  lemma Doubled(n: nat)
    ensures Pow2(n + 1) == 2 * Pow2(n)
  {}

  lemma DoubledProduct(a: nat, b: nat)
    ensures (2 * a) * b == 2 * (a * b)
  {}

  lemma {:induction false} Pow2Grows(m: nat, n: nat)
    requires m < n
    ensures 2 * Pow2(m) <= Pow2(n)
    decreases n
  {
    if m < n - 1 {
      Pow2Grows(m, n - 1);
    }
  }

  lemma ScaledBelow(e: nat, m: nat, f: nat, n: nat)
    requires m < HIDDEN && n < HIDDEN
    requires e < f || (e == f && m < n)
    ensures Scaled(e, m) < Scaled(f, n)
  {
    if e == f {
      if e > 0 {
        ProductsGrow(HIDDEN + m, HIDDEN + n, Pow2(e - 1));
      }
    } else if e == 0 {
      ProductsGrow(1, Pow2(f - 1), HIDDEN + n);
    } else {
      var p, q := Pow2(e - 1), Pow2(f - 1);
      Pow2Grows(e - 1, f - 1);
      ProductsGrow(HIDDEN + m, 2 * HIDDEN, p);
      ProductsGrow(HIDDEN, HIDDEN + n, q);
      ProductsGrow(2 * p, q, HIDDEN);
    }
  }

  lemma QuotientsOrder(a: nat, b: nat, d: nat)
    requires a < b && d > 0
    ensures a / d < b / d || (a / d == b / d && a % d < b % d)
  {
    QuotientsGrow(a, b, d);
    QuotientAndRest(a, d);
    QuotientAndRest(b, d);
  }

  lemma MagnitudeBelow(a: F32, b: F32)
    requires a < b < TWO_31
    ensures Magnitude(a) < Magnitude(b)
  {
    QuotientsOrder(a, b, HIDDEN);
    ScaledBelow(Exponent(a), Significand(a), Exponent(b), Significand(b));
  }

  /** Integer order of the bits is the order of the values, for values that are not negative. */
  lemma BitOrderIsValueOrder(a: F32, b: F32)
    requires a < TWO_31 && b < TWO_31
    ensures a < b <==> Magnitude(a) < Magnitude(b)
    ensures a == b <==> Magnitude(a) == Magnitude(b)
  {
    if a < b {
      MagnitudeBelow(a, b);
    } else if b < a {
      MagnitudeBelow(b, a);
    }
  }

  /** `f32::max` of two values that are not negative: the larger one, and a number rather than a NaN. */
  function Max(a: F32, b: F32): F32 {
    if IsNan(b) then a
    else if IsNan(a) || Magnitude(a) < Magnitude(b) then b
    else a
  }

  // ---- The block ----

  /** `p` is the largest absolute value among the samples that are numbers, and zero when there is none. */
  ghost predicate IsPeak(p: F32, samples: seq<F32>) {
    && p < TWO_31 && !IsNan(p)
    && (forall s | s in samples && !IsNan(s) :: Magnitude(s) <= Magnitude(p))
    && (p == 0 || exists s | s in samples && !IsNan(s) :: Abs(s) == p)
  }

  lemma AbsKeepsValue(s: F32)
    ensures Abs(Abs(s)) == Abs(s) && Magnitude(Abs(s)) == Magnitude(s) && IsNan(Abs(s)) == IsNan(s)
  {}

  lemma ZeroIsPeakOfNothing()
    ensures IsPeak(0, [])
  {}

  /** Taking one more sample into account. */
  lemma PeakOfOneMore(p: F32, samples: seq<F32>, s: F32)
    requires IsPeak(p, samples)
    ensures IsPeak(Max(p, Abs(s)), samples + [s])
  {
    AbsKeepsValue(s);
    var more, q := samples + [s], Max(p, Abs(s));
    assert s in more;
    assert forall x | x in more :: x in samples || x == s;
    if q == p && p != 0 {
      var x :| x in samples && !IsNan(x) && Abs(x) == p;
      assert x in more;
    }
  }

  /** The larger of two peaks, by their bits, is the peak of both stretches. */
  lemma PeakOfBoth(p: F32, first: seq<F32>, q: F32, second: seq<F32>)
    requires IsPeak(p, first) && IsPeak(q, second)
    ensures IsPeak(if p < q then q else p, first + second)
  {
    BitOrderIsValueOrder(p, q);
    var r, both := if p < q then q else p, first + second;
    assert forall x :: x in both <==> x in first || x in second;
    if r != 0 {
      if p < q {
        var x :| x in second && !IsNan(x) && Abs(x) == r;
        assert x in both;
      } else {
        var x :| x in first && !IsNan(x) && Abs(x) == r;
        assert x in both;
      }
    }
  }

  /** The fold over one batch. */
  method LocalPeak(samples: seq<F32>) returns (peak: F32)
    ensures IsPeak(peak, samples)
  {
    hide IsPeak, Max, Abs;
    peak := 0;
    ZeroIsPeakOfNothing();
    for i := 0 to |samples|
      invariant IsPeak(peak, samples[..i])
    {
      PeakOfOneMore(peak, samples[..i], samples[i]);
      assert samples[..i + 1] == samples[..i] + [samples[i]];
      peak := Max(peak, Abs(samples[i]));
    }
    assert samples[..|samples|] == samples;
  }

  /** Whether adding the frames takes the window into another second; the addition saturates. */
  predicate Crosses(prior: nat, frames: nat, second: nat)
    requires second > 0
  {
    var window := if prior + frames <= U64_MAX then prior + frames else U64_MAX;
    window / second > prior / second
  }

  /** A window below one second crosses exactly when the added frames complete the second. */
  lemma CrossingASecond(prior: nat, frames: nat, second: nat)
    requires prior < second <= TWO_32
    ensures Crosses(prior, frames, second) <==> prior + frames >= second
  {
    var window := if prior + frames <= U64_MAX then prior + frames else U64_MAX;
    SecondsBelowOne(prior, second);
    SecondsBelowOne(window, second);
  }

  lemma SecondsBelowOne(frames: nat, second: nat)
    requires second > 0
    ensures frames / second >= 0 && (frames < second <==> frames / second == 0)
  {
    QuotientAndRest(frames, second);
    if frames / second >= 1 {
      ProductsGrow(1, frames / second, second);
    }
  }

  function Flat(blocks: seq<seq<F32>>): seq<F32> {
    if blocks == [] then [] else Flat(blocks[..|blocks| - 1]) + blocks[|blocks| - 1]
  }

  /** The state the IO block carries in its atomics; callbacks are serialized. */
  class IoBlock {
    const channels: nat
    const sampleRate: nat
    var counter: nat
    var windowFrames: nat
    var windowPeak: F32
    /** The samples since the last report. */
    ghost var since: seq<F32>

    function OneSecond(): (n: nat)
      ensures n >= 1
    {
      if sampleRate == 0 then 1 else sampleRate
    }

    function FramesOf(samples: seq<F32>): (n: nat)
      ensures n <= |samples|
      ensures var width := if channels == 0 then 1 else channels; n * width <= |samples| < n * width + width
    {
      var width := if channels == 0 then 1 else channels;
      QuotientAtMost(|samples|, width);
      QuotientAndRest(|samples|, width);
      |samples| / width
    }

    ghost predicate Valid()
      reads this
    {
      && sampleRate < TWO_32 && counter < TWO_64
      && windowFrames < OneSecond()
      && IsPeak(windowPeak, since)
    }

    constructor (channels: nat, sampleRate: nat)
      requires sampleRate < TWO_32
      ensures Valid() && this.channels == channels && this.sampleRate == sampleRate
      ensures counter == 0 && windowFrames == 0 && since == []
    {
      this.channels, this.sampleRate := channels, sampleRate;
      counter, windowFrames, windowPeak := 0, 0, 0;
      since := [];
      new;
      ZeroIsPeakOfNothing();
    }

    /**
      * One callback. The window never reaches a second before it is reset, and whenever a report is due it carries
      * the largest absolute sample since the one before.
      */
    method OnBlock(samples: seq<F32>) returns (timestamp: Option<nat>, report: Option<F32>)
      requires Valid() && |samples| < TWO_64
      modifies this
      ensures Valid()
      ensures samples == [] ==> timestamp.None? && report.None? && counter == old(counter) &&
                                windowFrames == old(windowFrames) && since == old(since)
      ensures samples != [] ==> timestamp == Some(Timestamp(old(counter), if sampleRate == 0 then 1 else sampleRate))
      ensures samples != [] ==> counter == (old(counter) + FramesOf(samples)) % TWO_64
      ensures report.Some? <==>
        samples != [] && old(windowFrames) + FramesOf(samples) >= if sampleRate == 0 then 1 else sampleRate
      ensures report.Some? ==> IsPeak(report.value, old(since) + samples) && since == [] && windowFrames == 0
      ensures report.None? ==> since == old(since) + samples && windowFrames == old(windowFrames) + FramesOf(samples)
    {
      hide IsPeak, Magnitude, IsNan, Timestamp, Crosses, FramesOf;
      if samples == [] { return None, None; }
      var frames := FramesOf(samples);
      var prior := counter;
      counter := (counter + frames) % TWO_64;
      timestamp := Some(Timestamp(prior, OneSecond()));
      var localPeak := LocalPeak(samples);
      PeakOfBoth(windowPeak, since, localPeak, samples);
      windowPeak := if windowPeak < localPeak then localPeak else windowPeak;
      since := since + samples;
      var priorWindow := windowFrames;
      windowFrames := (windowFrames + frames) % TWO_64;
      CrossingASecond(priorWindow, frames, OneSecond());
      if Crosses(priorWindow, frames, OneSecond()) {
        report := Some(windowPeak);
        windowPeak, windowFrames, since := 0, 0, [];
        ZeroIsPeakOfNothing();
      } else {
        report := None;
      }
    }

    function FramesIn(blocks: seq<seq<F32>>): nat {
      if blocks == [] then 0 else FramesIn(blocks[..|blocks| - 1]) + FramesOf(blocks[|blocks| - 1])
    }

    /**
      * A report at block `end`, the first since block `from`, when `carry` frames and the samples `held` were already
      * waiting: the second is full with this block and not before, and the report is the peak of the whole stretch.
      */
    ghost predicate Falls(blocks: seq<seq<F32>>, carry: nat, held: seq<F32>, from: nat, end: nat, peak: F32) {
      && from <= end < |blocks|
      && carry + FramesIn(blocks[from..end]) < OneSecond() <= carry + FramesIn(blocks[from..end + 1])
      && IsPeak(peak, held + Flat(blocks[from..end + 1]))
    }

    lemma OneBlockMore(blocks: seq<seq<F32>>, held: seq<F32>, from: nat, n: nat)
      requires from <= n < |blocks|
      ensures FramesIn(blocks[from..n + 1]) == FramesIn(blocks[from..n]) + FramesOf(blocks[n])
      ensures held + Flat(blocks[from..n + 1]) == held + Flat(blocks[from..n]) + blocks[n]
    {
      assert blocks[from..n + 1][..n - from] == blocks[from..n];
    }

    lemma NoBlocks(blocks: seq<seq<F32>>, held: seq<F32>, n: nat)
      requires n <= |blocks|
      ensures FramesIn(blocks[n..n]) == 0 && held + Flat(blocks[n..n]) == held
    {}

    lemma SecondIs()
      ensures OneSecond() == if sampleRate == 0 then 1 else sampleRate
    {}

    lemma NoFrames()
      ensures FramesOf([]) == 0
    {
      QuotientIs(0, 0, if channels == 0 then 1 else channels);
    }

    /** Where the stretch behind these reports starts. */
    ghost function Behind(ends: seq<nat>): nat {
      if ends == [] then 0 else ends[|ends| - 1] + 1
    }

    /** Every report falls where it should: the first stretch has something waiting, the others start afresh. */
    ghost predicate AllFall(blocks: seq<seq<F32>>, carry: nat, held: seq<F32>, ends: seq<nat>, reports: seq<F32>) {
      && |ends| == |reports|
      && forall i | 0 <= i < |ends| ::
           Falls(blocks, if i == 0 then carry else 0, if i == 0 then held else [], Behind(ends[..i]), ends[i], reports[i])
    }

    lemma OneMoreFalls(blocks: seq<seq<F32>>, carry: nat, held: seq<F32>, ends: seq<nat>, reports: seq<F32>, end: nat, peak: F32)
      ensures AllFall(blocks, carry, held, ends, reports)
              && Falls(blocks, if ends == [] then carry else 0, if ends == [] then held else [], Behind(ends), end, peak)
              ==> AllFall(blocks, carry, held, ends + [end], reports + [peak])
    {
      hide Falls;
      var longer := ends + [end];
      assert longer[..|ends|] == ends && forall i | 0 <= i < |ends| :: longer[..i] == ends[..i];
    }

    /** What waits behind the reports when `n` blocks have come: their frames and their samples. */
    ghost predicate After(blocks: seq<seq<F32>>, carry: nat, held: seq<F32>, ends: seq<nat>, reports: seq<F32>, n: nat,
                          frames: nat, samples: seq<F32>)
    {
      && Behind(ends) <= n <= |blocks| && AllFall(blocks, carry, held, ends, reports)
      && frames == (if ends == [] then carry else 0) + FramesIn(blocks[Behind(ends)..n]) < OneSecond()
      && samples == (if ends == [] then held else []) + Flat(blocks[Behind(ends)..n])
    }

    lemma AfterNone(blocks: seq<seq<F32>>, carry: nat, held: seq<F32>)
      requires carry < OneSecond()
      ensures After(blocks, carry, held, [], [], 0, carry, held)
    {
      NoBlocks(blocks, held, 0);
    }

    /** A block that does not fill the second waits with the others. */
    lemma AfterWaiting(blocks: seq<seq<F32>>, carry: nat, held: seq<F32>, ends: seq<nat>, reports: seq<F32>, n: nat,
                       frames: nat, samples: seq<F32>)
      requires n < |blocks| && After(blocks, carry, held, ends, reports, n, frames, samples)
      requires frames + FramesOf(blocks[n]) < OneSecond()
      ensures After(blocks, carry, held, ends, reports, n + 1, frames + FramesOf(blocks[n]), samples + blocks[n])
    {
      hide AllFall, FramesIn, FramesOf, Flat, OneSecond;
      OneBlockMore(blocks, if ends == [] then held else [], Behind(ends), n);
    }

    /** A block that fills it is reported, and nothing waits behind it. */
    lemma AfterReport(blocks: seq<seq<F32>>, carry: nat, held: seq<F32>, ends: seq<nat>, reports: seq<F32>, n: nat,
                      frames: nat, samples: seq<F32>, peak: F32)
      requires n < |blocks| && After(blocks, carry, held, ends, reports, n, frames, samples)
      requires frames + FramesOf(blocks[n]) >= OneSecond() && IsPeak(peak, samples + blocks[n])
      ensures After(blocks, carry, held, ends + [n], reports + [peak], n + 1, 0, [])
    {
      hide AllFall, FramesIn, FramesOf, Flat, OneSecond, IsPeak;
      OneBlockMore(blocks, if ends == [] then held else [], Behind(ends), n);
      OneMoreFalls(blocks, carry, held, ends, reports, n, peak);
      NoBlocks(blocks, [], n + 1);
    }

    /**
      * Any run of callbacks: the reports fall at the blocks `ends`, each at the first block with which the frames since
      * the report before fill a second, and each carries the peak of the samples since then; the rest is still waiting.
      */
    method OnBlocks(blocks: seq<seq<F32>>) returns (reports: seq<F32>, ghost ends: seq<nat>)
      requires Valid() && forall b | b in blocks :: |b| < TWO_64
      modifies this
      ensures Valid() && AllFall(blocks, old(windowFrames), old(since), ends, reports) && Behind(ends) <= |blocks|
      ensures windowFrames == (if ends == [] then old(windowFrames) else 0) + FramesIn(blocks[Behind(ends)..]) < OneSecond()
      ensures since == (if ends == [] then old(since) else []) + Flat(blocks[Behind(ends)..])
    {
      hide IsPeak, Timestamp, FramesOf, After, FramesIn, Flat, OneSecond;
      reports, ends := [], [];
      ghost var carry, held := windowFrames, since;
      AfterNone(blocks, carry, held);
      NoFrames();
      SecondIs();
      for n := 0 to |blocks|
        invariant Valid() && After(blocks, carry, held, ends, reports, n, windowFrames, since)
      {
        ghost var frames, samples := windowFrames, since;
        var _, report := OnBlock(blocks[n]);
        assert blocks[n] == [] ==> samples + blocks[n] == samples;
        if report.Some? {
          AfterReport(blocks, carry, held, ends, reports, n, frames, samples, report.value);
          reports, ends := reports + [report.value], ends + [n];
        } else {
          AfterWaiting(blocks, carry, held, ends, reports, n, frames, samples);
        }
      }
      AfterAll(blocks, carry, held, ends, reports, windowFrames, since);
    }

    lemma AfterAll(blocks: seq<seq<F32>>, carry: nat, held: seq<F32>, ends: seq<nat>, reports: seq<F32>,
                   frames: nat, samples: seq<F32>)
      requires After(blocks, carry, held, ends, reports, |blocks|, frames, samples)
      ensures AllFall(blocks, carry, held, ends, reports) && Behind(ends) <= |blocks|
      ensures frames == (if ends == [] then carry else 0) + FramesIn(blocks[Behind(ends)..]) < OneSecond()
      ensures samples == (if ends == [] then held else []) + Flat(blocks[Behind(ends)..])
    {
      hide AllFall, FramesIn, Flat, OneSecond;
      assert blocks[Behind(ends)..|blocks|] == blocks[Behind(ends)..];
    }
  }
}
