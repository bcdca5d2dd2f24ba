/** The calibration chime: its synthesis and its endless playback (scrybe-capture-mac/src/probe_chime.rs). */
module ProbeChime {
  import opened Arithmetic

  const AMPLITUDE := 0.005
  const NOTE_FADE_MS := 8.0

  /** A frequency that is not positive is a silent gap. */
  datatype Note = Note(frequencyHz: real, durationMs: real) {
    /** What the fixed notes satisfy. */
    predicate Lasting() {
      durationMs >= 0.0
    }
  }

  const CHIME_NOTES: seq<Note> := [
    Note(659.25, 110.0), Note(0.0, 20.0),
    Note(783.99, 110.0), Note(0.0, 20.0),
    Note(1046.5, 160.0), Note(0.0, 400.0)
  ]

  // ---- Synthesis ----

  /** `round` of a number that is not negative: halves go up. */
  function Round(x: real): nat
    requires x >= 0.0
  {
    (x + 0.5).Floor
  }

  function Max1(n: nat): (m: nat)
    ensures m >= 1 && (n > 0 ==> m == n) && m <= n + 1
  {
    if n == 0 then 1 else n
  }

  /** Exactly how many frames some milliseconds are. */
  function ExactFrames(ms: real, rate: nat): (frames: real)
    ensures frames * 1000.0 == ms * rate as real
    ensures ms >= 0.0 ==> frames >= 0.0
  {
    ms / 1000.0 * rate as real
  }

  function NoteFrames(note: Note, rate: nat): nat
    requires note.Lasting()
  {
    Round(ExactFrames(note.durationMs, rate))
  }

  function FadeFrames(noteFrames: nat, rate: nat): nat {
    var fade := Round(ExactFrames(NOTE_FADE_MS, rate));
    if fade <= noteFrames / 2 then fade else noteFrames / 2
  }

  function Envelope(i: nat, frames: nat, fade: nat): real
    requires i < frames
  {
    if fade == 0 then 1.0
    else if i < fade then i as real / fade as real
    else if i >= frames - fade then (frames - i) as real / fade as real
    else 1.0
  }

  /** The oscillator's position within a turn before sample `i`. */
  function Cycle(step: real, i: nat): real {
    if i == 0 then 0.0 else Onward(step, Cycle(step, i - 1))
  }

  function Onward(step: real, cycle: real): real {
    if cycle + step >= 1.0 then cycle + step - 1.0 else cycle + step
  }

  /** The sine of a number of turns: bounded by one and repeating every turn. */
  ghost predicate IsWave(sine: real -> real) {
    && (forall x :: -1.0 <= sine(x) <= 1.0)
    && (forall x, y | y == x - 1.0 :: sine(y) == sine(x))
  }

  /** The amplitude under an envelope. */
  function Enveloped(envelope: real, wave: real): real {
    AMPLITUDE * envelope * wave
  }

  function Sample(sine: real -> real, step: real, i: nat, frames: nat, fade: nat): real
    requires i < frames
  {
    Enveloped(Envelope(i, frames, fade), sine(Cycle(step, i)))
  }

  function Silence(n: nat): seq<real> {
    seq(n, _ => 0.0)
  }

  function Tone(note: Note, rate: nat, sine: real -> real): seq<real>
    requires note.Lasting() && rate > 0
  {
    var frames := NoteFrames(note, rate);
    if note.frequencyHz <= 0.0 then Silence(frames)
    else seq(frames, i requires 0 <= i < frames => Sample(sine, note.frequencyHz / rate as real, i, frames, FadeFrames(frames, rate)))
  }

  function Chime(notes: seq<Note>, rate: nat, sine: real -> real): seq<real>
    requires rate > 0 && forall note | note in notes :: note.Lasting()
  {
    if notes == [] then []
    else Chime(notes[..|notes| - 1], rate, sine) + Tone(notes[|notes| - 1], rate, sine)
  }

  /** `build_chime_buffer`, over any notes. */
  method BuildChimeBuffer(notes: seq<Note>, sampleRate: nat, sine: real -> real) returns (buffer: seq<real>)
    requires forall note | note in notes :: note.Lasting()
    ensures buffer == Chime(notes, Max1(sampleRate), sine)
    ensures IsWave(sine) ==> IsChime(notes, if sampleRate == 0 then 1 else sampleRate, sine, buffer)
  {
    hide Round, Cycle, Envelope, Enveloped, IsChime, IsWave, Tone, NoteFrames, FadeFrames, IsSilent, Onward;
    var rate := Max1(sampleRate);
    buffer := [];
    for k := 0 to |notes|
      invariant buffer == Chime(notes[..k], rate, sine)
    {
      var note := notes[k];
      assert notes[..k + 1][..k] == notes[..k];
      var frames := NoteFrames(note, rate);
      var fade := FadeFrames(frames, rate);
      ToneParts(note, rate, sine);
      if note.frequencyHz <= 0.0 {
        buffer := buffer + Silence(frames);
      } else {
        ghost var before, tone := buffer, Tone(note, rate, sine);
        var step := note.frequencyHz / rate as real;
        var cycle := 0.0;
        CycleStarts(step);
        for i := 0 to frames
          invariant cycle == Cycle(step, i)
          invariant |tone| == frames && buffer == before + tone[..i]
        {
          var sample := Enveloped(Envelope(i, frames, fade), sine(cycle));
          assert tone[i] == Sample(sine, step, i, frames, fade) == sample;
          buffer := buffer + [sample];
          CycleGoesOn(step, i);
          cycle := cycle + step;
          if cycle >= 1.0 {
            cycle := cycle - 1.0;
          }
          assert tone[..i + 1] == tone[..i] + [sample];
        }
        assert tone[..frames] == tone;
      }
    }
    assert notes[..|notes|] == notes;
    if IsWave(sine) {
      ChimeIsChime(notes, rate, sine);
    }
  }

  lemma CycleStarts(step: real)
    ensures Cycle(step, 0) == 0.0
  {}

  lemma CycleGoesOn(step: real, i: nat)
    ensures var next := Cycle(step, i) + step; Cycle(step, i + 1) == if next >= 1.0 then next - 1.0 else next
  {}

  // ---- What the chime sounds like ----

  /** The oscillator never loses phase: it is the exact one less a whole number of turns. */
  lemma {:induction false} PhaseIsExact(step: real, i: nat) returns (turns: nat)
    requires step >= 0.0
    ensures Cycle(step, i) == i as real * step - turns as real
    ensures step < 1.0 ==> 0.0 <= Cycle(step, i) < 1.0
  {
    turns := 0;
    if i > 0 {
      turns := PhaseIsExact(step, i - 1);
      assert i as real * step == (i - 1) as real * step + step;
      if Cycle(step, i - 1) + step >= 1.0 {
        turns := turns + 1;
      }
    }
  }

  lemma {:induction false} WholeTurnsAreSilent(sine: real -> real, x: real, turns: nat)
    requires IsWave(sine)
    ensures sine(x - turns as real) == sine(x)
  {
    if turns > 0 {
      WholeTurnsAreSilent(sine, x, turns - 1);
      assert x - turns as real == (x - (turns - 1) as real) - 1.0;
    }
  }

  lemma InPhase(sine: real -> real, step: real, i: nat)
    requires IsWave(sine) && step >= 0.0
    ensures sine(Cycle(step, i)) == sine(i as real * step)
  {
    var turns := PhaseIsExact(step, i);
    WholeTurnsAreSilent(sine, i as real * step, turns);
  }

  /** So a sample of a note is the enveloped sine of that note's frequency at the sample's own time. */
  lemma SampleIsThePureTone(sine: real -> real, step: real, i: nat, frames: nat, fade: nat)
    requires IsWave(sine) && step >= 0.0 && i < frames
    ensures Sample(sine, step, i, frames, fade) == Enveloped(Envelope(i, frames, fade), sine(i as real * step))
  {
    hide Envelope, Cycle, Enveloped;
    InPhase(sine, step, i);
  }

  /** The fades of a note never overlap, whatever the rate. */
  lemma FadesNeverOverlap(frames: nat, rate: nat, i: nat)
    requires i < FadeFrames(frames, rate)
    ensures i < frames - FadeFrames(frames, rate)
  {}

  lemma RatioBounds(x: nat, y: nat)
    requires x <= y && y > 0
    ensures 0.0 <= x as real / y as real <= 1.0
  {}

  lemma EnvelopeBounds(i: nat, frames: nat, fade: nat)
    requires i < frames && fade <= frames / 2
    ensures 0.0 <= Envelope(i, frames, fade) <= 1.0
  {
    if 0 < fade && i < fade {
      RatioBounds(i, fade);
    } else if 0 < fade && i >= frames - fade {
      RatioBounds(frames - i, fade);
    }
  }

  /** A fraction of the fade. */
  lemma StepOfAFade(x: nat, fade: nat)
    requires fade > 0
    ensures (x + 1) as real / fade as real - x as real / fade as real == 1.0 / fade as real
    ensures fade as real / fade as real == 1.0
  {}

  /** No click: the envelope starts from silence, ends one step above it, and never moves by more than a step. */
  lemma NoClicks(i: nat, frames: nat, fade: nat)
    requires 0 < fade <= frames / 2 && i < frames
    ensures Envelope(0, frames, fade) == 0.0 && Envelope(frames - 1, frames, fade) == 1.0 / fade as real
    ensures i + 1 < frames ==> var change := Envelope(i + 1, frames, fade) - Envelope(i, frames, fade);
                               change == 0.0 || change == 1.0 / fade as real || change == -1.0 / fade as real
  {
    if i + 1 <= fade {
      StepOfAFade(i, fade);
    }
    if frames - i - 1 <= fade {
      StepOfAFade(frames - i - 1, fade);
    }
    StepOfAFade(0, fade);
  }

  lemma NotNegative(a: real, b: real)
    requires a >= 0.0 && b >= 0.0
    ensures a * b >= 0.0
  {}

  lemma ProductBounds(e: real, s: real)
    requires 0.0 <= e <= 1.0 && -1.0 <= s <= 1.0
    ensures -1.0 <= e * s <= 1.0
  {
    NotNegative(e, 1.0 - s);
    NotNegative(e, 1.0 + s);
    assert e * (1.0 - s) == e - e * s && e * (1.0 + s) == e + e * s;
  }

  lemma EnvelopedIsQuiet(e: real, s: real)
    requires 0.0 <= e <= 1.0 && -1.0 <= s <= 1.0
    ensures -AMPLITUDE <= Enveloped(e, s) <= AMPLITUDE
  {
    ProductBounds(e, s);
    assert Enveloped(e, s) == AMPLITUDE * (e * s);
  }

  lemma ToneIsQuiet(note: Note, rate: nat, sine: real -> real, i: nat)
    requires note.Lasting() && rate > 0 && IsWave(sine) && i < NoteFrames(note, rate)
    ensures |Tone(note, rate, sine)| == NoteFrames(note, rate)
    ensures -AMPLITUDE <= Tone(note, rate, sine)[i] <= AMPLITUDE
  {
    hide Envelope, Round, Enveloped, Cycle, NoteFrames;
    var frames := NoteFrames(note, rate);
    if note.frequencyHz > 0.0 {
      var fade, step := FadeFrames(frames, rate), note.frequencyHz / rate as real;
      EnvelopeBounds(i, frames, fade);
      EnvelopedIsQuiet(Envelope(i, frames, fade), sine(Cycle(step, i)));
      assert Tone(note, rate, sine)[i] == Sample(sine, step, i, frames, fade);
    }
  }

  /** Where note `k` starts: after the frames of the notes before it. */
  function Start(notes: seq<Note>, rate: nat): nat
    requires forall note | note in notes :: note.Lasting()
  {
    if notes == [] then 0 else Start(notes[..|notes| - 1], rate) + NoteFrames(notes[|notes| - 1], rate)
  }

  /** The chime is as long as its notes together, and every note sounds in its own place. */
  lemma {:induction false} NotesLandInPlace(notes: seq<Note>, rate: nat, sine: real -> real, k: nat)
    requires rate > 0 && forall note | note in notes :: note.Lasting()
    requires k < |notes|
    ensures |Chime(notes, rate, sine)| == Start(notes, rate)
    ensures Start(notes[..k], rate) + NoteFrames(notes[k], rate) <= Start(notes, rate)
    ensures Chime(notes, rate, sine)[Start(notes[..k], rate)..][..NoteFrames(notes[k], rate)] == Tone(notes[k], rate, sine)
    decreases |notes|
  {
    hide Round, Tone, NoteFrames;
    var rest, last := notes[..|notes| - 1], notes[|notes| - 1];
    ToneLength(last, rate, sine);
    if rest == [] {
      assert Chime(rest, rate, sine) == [];
    } else {
      NotesLandInPlace(rest, rate, sine, if k < |rest| then k else 0);
    }
    var before, tone := Chime(rest, rate, sine), Tone(last, rate, sine);
    if k < |rest| {
      assert notes[..k] == rest[..k];
      MiddleOfConcat(before, tone, Start(rest[..k], rate), NoteFrames(notes[k], rate));
    } else {
      assert notes[..k] == rest;
      assert (before + tone)[|before|..][..|tone|] == tone;
    }
  }

  lemma ToneLength(note: Note, rate: nat, sine: real -> real)
    requires note.Lasting() && rate > 0
    ensures |Tone(note, rate, sine)| == NoteFrames(note, rate)
  {}

  lemma MiddleOfConcat(a: seq<real>, b: seq<real>, i: nat, n: nat)
    requires i + n <= |a|
    ensures (a + b)[i..][..n] == a[i..][..n]
  {}

  /** Every sample of the chime stays within the amplitude. */
  lemma {:induction false} ChimeIsQuiet(notes: seq<Note>, rate: nat, sine: real -> real)
    requires rate > 0 && IsWave(sine) && forall note | note in notes :: note.Lasting()
    ensures forall i | 0 <= i < |Chime(notes, rate, sine)| :: -AMPLITUDE <= Chime(notes, rate, sine)[i] <= AMPLITUDE
    decreases |notes|
  {
    hide Tone, NoteFrames;
    if notes != [] {
      var rest, last := notes[..|notes| - 1], notes[|notes| - 1];
      ChimeIsQuiet(rest, rate, sine);
      ToneLength(last, rate, sine);
      forall i | 0 <= i < |Tone(last, rate, sine)|
        ensures -AMPLITUDE <= Tone(last, rate, sine)[i] <= AMPLITUDE
      {
        ToneIsQuiet(last, rate, sine, i);
      }
    }
  }

  // ---- The chime, note by note ----

  /** The whole number nearest to `x`; halves go up. */
  ghost predicate IsNearest(n: nat, x: real) {
    n as real - 0.5 <= x < n as real + 0.5
  }

  /** Straight up over the fade, full volume, and straight down over the fade to one step above silence. */
  ghost function Ramp(i: nat, frames: nat, fade: nat): real
    requires i < frames
  {
    if fade == 0 then 1.0
    else
      var up, down := i as real / fade as real, (frames - i) as real / fade as real;
      if up <= 1.0 && up <= down then up else if down <= 1.0 then down else 1.0
  }

  /** Eight milliseconds, and at most half the note. */
  ghost predicate IsFade(fade: nat, frames: nat, rate: nat) {
    exists whole: nat :: EightMilliseconds(whole, rate) && fade == if whole <= frames / 2 then whole else frames / 2
  }

  ghost predicate EightMilliseconds(frames: nat, rate: nat) {
    IsNearest(frames, ExactFrames(8.0, rate))
  }

  /** A note of its length: silent, or its sine at each sample's time under the ramp, at five thousandths of full scale. */
  ghost predicate IsTone(note: Note, rate: nat, sine: real -> real, tone: seq<real>)
    requires rate > 0
  {
    && IsNearest(|tone|, ExactFrames(note.durationMs, rate))
    && if note.frequencyHz <= 0.0 then IsSilent(tone)
       else exists fade: nat :: IsFade(fade, |tone|, rate) && IsFaded(note.frequencyHz / rate as real, sine, fade, tone)
  }

  ghost predicate IsSilent(tone: seq<real>) {
    forall i | 0 <= i < |tone| :: tone[i] == 0.0
  }

  /** `step` is the part of a turn from one sample to the next. */
  ghost predicate IsFaded(step: real, sine: real -> real, fade: nat, tone: seq<real>) {
    forall i | 0 <= i < |tone| :: tone[i] == FadedSample(step, sine, i, |tone|, fade)
  }

  ghost function FadedSample(step: real, sine: real -> real, i: nat, frames: nat, fade: nat): real
    requires i < frames
  {
    0.005 * Ramp(i, frames, fade) * sine(i as real * step)
  }

  ghost function Joined(tones: seq<seq<real>>): seq<real> {
    if tones == [] then [] else Joined(tones[..|tones| - 1]) + tones[|tones| - 1]
  }

  /** The notes one after the other. */
  ghost predicate IsChime(notes: seq<Note>, rate: nat, sine: real -> real, buffer: seq<real>)
    requires rate > 0
  {
    exists tones: seq<seq<real>> :: AreTones(notes, rate, sine, tones) && buffer == Joined(tones)
  }

  ghost predicate AreTones(notes: seq<Note>, rate: nat, sine: real -> real, tones: seq<seq<real>>)
    requires rate > 0
  {
    |tones| == |notes| && forall k | 0 <= k < |notes| :: IsTone(notes[k], rate, sine, tones[k])
  }

  lemma EnvelopeIsRamp(i: nat, frames: nat, fade: nat)
    requires i < frames && fade <= frames / 2
    ensures Envelope(i, frames, fade) == Ramp(i, frames, fade)
  {
    if fade > 0 {
      FractionBelow(i, fade, fade);
      FractionBelow(frames - i, fade, fade);
      FractionBelow(i, frames - i, fade);
      StepOfAFade(0, fade);
    }
  }

  lemma FractionBelow(x: nat, y: nat, d: nat)
    requires d > 0
    ensures x <= y <==> x as real / d as real <= y as real / d as real
  {}

  lemma RoundIsNearest(x: real)
    requires x >= 0.0
    ensures IsNearest(Round(x), x)
  {}

  lemma NoteIsNearest(note: Note, rate: nat)
    requires note.Lasting()
    ensures IsNearest(NoteFrames(note, rate), ExactFrames(note.durationMs, rate))
  {
    hide IsNearest, Round, ExactFrames;
    RoundIsNearest(ExactFrames(note.durationMs, rate));
  }

  lemma ToneIsFaded(note: Note, rate: nat, sine: real -> real, fade: nat, frames: nat, tone: seq<real>)
    requires rate > 0 && IsWave(sine) && note.frequencyHz > 0.0 && fade <= frames / 2 && |tone| == frames
    requires forall i | 0 <= i < frames :: tone[i] == Sample(sine, note.frequencyHz / rate as real, i, frames, fade)
    ensures IsFaded(note.frequencyHz / rate as real, sine, fade, tone)
  {
    hide Sample, FadedSample, IsWave;
    var step := note.frequencyHz / rate as real;
    assert step >= 0.0;
    forall i | 0 <= i < |tone|
      ensures tone[i] == FadedSample(step, sine, i, |tone|, fade)
    {
      SampleIsFaded(step, sine, i, frames, fade);
    }
  }

  lemma SampleIsFaded(step: real, sine: real -> real, i: nat, frames: nat, fade: nat)
    requires IsWave(sine) && step >= 0.0 && i < frames && fade <= frames / 2
    ensures Sample(sine, step, i, frames, fade) == FadedSample(step, sine, i, frames, fade)
  {
    hide Envelope, Ramp, IsWave, Sample;
    EnvelopeIsRamp(i, frames, fade);
    SampleIsThePureTone(sine, step, i, frames, fade);
  }

  lemma ToneParts(note: Note, rate: nat, sine: real -> real)
    requires note.Lasting() && rate > 0
    ensures var tone, frames := Tone(note, rate, sine), NoteFrames(note, rate);
            && |tone| == frames && (note.frequencyHz <= 0.0 ==> IsSilent(tone) && tone == Silence(frames))
            && (note.frequencyHz > 0.0 ==> forall i | 0 <= i < frames ::
                  tone[i] == Sample(sine, note.frequencyHz / rate as real, i, frames, FadeFrames(frames, rate)))
  {
    hide Sample, FadeFrames, NoteFrames;
  }

  lemma ToneIsTone(note: Note, rate: nat, sine: real -> real)
    requires note.Lasting() && rate > 0 && IsWave(sine)
    ensures IsTone(note, rate, sine, Tone(note, rate, sine))
  {
    hide Round, Sample, IsWave, IsNearest, IsFaded, IsFade, FadeFrames, Tone, NoteFrames, IsSilent, ExactFrames;
    var tone, frames := Tone(note, rate, sine), NoteFrames(note, rate);
    ToneParts(note, rate, sine);
    NoteIsNearest(note, rate);
    if note.frequencyHz > 0.0 {
      FadeIsFade(frames, rate);
      ToneIsFaded(note, rate, sine, FadeFrames(frames, rate), frames, tone);
    }
  }

  lemma FadeIsFade(frames: nat, rate: nat)
    ensures IsFade(FadeFrames(frames, rate), frames, rate) && FadeFrames(frames, rate) <= frames / 2
  {
    hide IsNearest, Round, ExactFrames;
    var whole := Round(ExactFrames(NOTE_FADE_MS, rate));
    RoundIsNearest(ExactFrames(NOTE_FADE_MS, rate));
    assert EightMilliseconds(whole, rate);
  }

  /** What is built is the chime. */
  lemma {:induction false} ChimeIsChime(notes: seq<Note>, rate: nat, sine: real -> real)
    requires rate > 0 && IsWave(sine) && forall note | note in notes :: note.Lasting()
    ensures IsChime(notes, rate, sine, Chime(notes, rate, sine))
    decreases |notes|
  {
    hide Tone, IsTone, IsWave;
    if notes == [] {
      assert AreTones(notes, rate, sine, []) && Joined([]) == [];
    } else {
      var rest, last := notes[..|notes| - 1], notes[|notes| - 1];
      ChimeIsChime(rest, rate, sine);
      ToneIsTone(last, rate, sine);
      var before: seq<seq<real>> :| AreTones(rest, rate, sine, before) && Chime(rest, rate, sine) == Joined(before);
      var tones := before + [Tone(last, rate, sine)];
      assert tones[..|tones| - 1] == before && AreTones(notes, rate, sine, tones);
    }
  }

  function Pow12(x: real): real {
    var square := x * x;
    var fourth := square * square;
    fourth * fourth * fourth
  }

  /** To a hundredth of a hertz the notes are E5, G5 and C6: seven, ten and fifteen semitones above A4. */
  lemma NotesAreTempered()
    ensures |CHIME_NOTES| == 6
    ensures var a := Pow12(440.0);
            && Pow12(CHIME_NOTES[0].frequencyHz - 0.01) < 128.0 * a < Pow12(CHIME_NOTES[0].frequencyHz + 0.01)
            && Pow12(CHIME_NOTES[2].frequencyHz - 0.01) < 1024.0 * a < Pow12(CHIME_NOTES[2].frequencyHz + 0.01)
            && Pow12(CHIME_NOTES[4].frequencyHz - 0.01) < 32768.0 * a < Pow12(CHIME_NOTES[4].frequencyHz + 0.01)
  {}

  lemma ShippedFrames()
    ensures forall note | note in CHIME_NOTES :: note.Lasting()
    ensures NoteFrames(CHIME_NOTES[0], 48000) == 5280 && NoteFrames(CHIME_NOTES[1], 48000) == 960
    ensures NoteFrames(CHIME_NOTES[2], 48000) == 5280 && NoteFrames(CHIME_NOTES[3], 48000) == 960
    ensures NoteFrames(CHIME_NOTES[4], 48000) == 7680 && NoteFrames(CHIME_NOTES[5], 48000) == 19200
  {}

  lemma OneMoreStart(notes: seq<Note>, rate: nat, k: nat)
    requires k < |notes| && forall note | note in notes :: note.Lasting()
    ensures Start(notes[..k + 1], rate) == Start(notes[..k], rate) + NoteFrames(notes[k], rate)
  {
    assert notes[..k + 1][..k] == notes[..k];
  }

  lemma ShippedStarts()
    ensures forall note | note in CHIME_NOTES :: note.Lasting()
    ensures Start(CHIME_NOTES[..1], 48000) == 5280 && Start(CHIME_NOTES[..2], 48000) == 6240
    ensures Start(CHIME_NOTES[..3], 48000) == 11520 && Start(CHIME_NOTES[..4], 48000) == 12480
    ensures Start(CHIME_NOTES[..5], 48000) == 20160 && Start(CHIME_NOTES, 48000) == 39360
  {
    ShippedFrames();
    hide NoteFrames, Start;
    var notes := CHIME_NOTES;
    NothingStarts(notes);
    OneMoreStart(notes, 48000, 0);
    OneMoreStart(notes, 48000, 1);
    OneMoreStart(notes, 48000, 2);
    OneMoreStart(notes, 48000, 3);
    OneMoreStart(notes, 48000, 4);
    OneMoreStart(notes, 48000, 5);
    assert notes[..6] == notes;
  }

  lemma NothingStarts(notes: seq<Note>)
    requires forall note | note in notes :: note.Lasting()
    ensures Start(notes[..0], 48000) == 0
  {}

  /** At 48 kHz the notes sound from 0, 130 and 260 milliseconds on, with silence behind each; the chime repeats after 820. */
  lemma ShippedChime(sine: real -> real)
    ensures forall note | note in CHIME_NOTES :: note.Lasting()
    ensures |Chime(CHIME_NOTES, 48000, sine)| == 820 * 48
    ensures forall i | 110 * 48 <= i < 130 * 48 || 240 * 48 <= i < 260 * 48 || 420 * 48 <= i < 820 * 48 ::
      Chime(CHIME_NOTES, 48000, sine)[i] == 0.0
  {
    ShippedFrames();
    ShippedStarts();
    SilentNote(sine, 1, 110 * 48, 20 * 48);
    SilentNote(sine, 3, 240 * 48, 20 * 48);
    SilentNote(sine, 5, 420 * 48, 400 * 48);
  }

  lemma SilentNote(sine: real -> real, k: nat, start: nat, frames: nat)
    requires k < |CHIME_NOTES| && CHIME_NOTES[k].frequencyHz <= 0.0 && forall note | note in CHIME_NOTES :: note.Lasting()
    requires start == Start(CHIME_NOTES[..k], 48000) && frames == NoteFrames(CHIME_NOTES[k], 48000)
    ensures |Chime(CHIME_NOTES, 48000, sine)| == Start(CHIME_NOTES, 48000) && start + frames <= |Chime(CHIME_NOTES, 48000, sine)|
    ensures forall i | start <= i < start + frames :: Chime(CHIME_NOTES, 48000, sine)[i] == 0.0
  {
    hide *;
    hide CHIME_NOTES;
    var notes := CHIME_NOTES;
    NotesLandInPlace(notes, 48000, sine, k);
    SilentTone(notes[k], 48000, sine);
    SilentPart(Chime(notes, 48000, sine), Tone(notes[k], 48000, sine), start, frames);
  }

  lemma SilentTone(note: Note, rate: nat, sine: real -> real)
    requires note.Lasting() && rate > 0 && note.frequencyHz <= 0.0
    ensures IsSilent(Tone(note, rate, sine)) && |Tone(note, rate, sine)| == NoteFrames(note, rate)
  {
    hide NoteFrames;
  }

  lemma SilentPart(chime: seq<real>, tone: seq<real>, start: nat, frames: nat)
    requires start + frames <= |chime| && chime[start..][..frames] == tone && IsSilent(tone)
    ensures forall i | start <= i < start + frames :: chime[i] == 0.0
  {
    forall i | start <= i < start + frames
      ensures chime[i] == 0.0
    {
      assert chime[start..][..frames][i - start] == chime[i];
    }
  }

  // ---- Playback ----

  /** Frame `f` of the endless chime that stands at `pos`. */
  function Signal(chime: seq<real>, pos: nat, f: nat): real {
    if chime == [] then 0.0 else chime[(pos + f) % |chime|]
  }

  /** Sample `k` of a buffer that starts there: each frame is repeated on every channel. */
  function Spread(chime: seq<real>, width: nat, pos: nat, k: nat): real
    requires width > 0
  {
    Signal(chime, pos, k / width)
  }

  /** The next `n` samples, the last frame perhaps cut short. */
  function Played(chime: seq<real>, width: nat, pos: nat, n: nat): seq<real>
    requires width > 0
  {
    seq(n, k requires 0 <= k => Spread(chime, width, pos, k))
  }

  /** Frames in a buffer of `n` samples; one that is cut short counts. */
  function Frames(n: nat, width: nat): (f: nat)
    requires width > 0
  {
    QuotientAndRest(n + width - 1, width);
    (n + width - 1) / width
  }

  function Advanced(chime: seq<real>, pos: nat, frames: nat): nat {
    if chime == [] then pos else (pos + frames) % |chime|
  }

  /** An output stream's closure: the chime and the position `fill_from_chime` carries along. */
  class ChimePlayer {
    const chime: seq<real>
    const channels: nat
    var readPos: nat

    predicate Valid()
      reads this
    {
      chime != [] ==> readPos < |chime|
    }

    constructor (chime: seq<real>, channels: nat)
      ensures Valid() && readPos == 0 && this.chime == chime && this.channels == channels
    {
      this.chime, this.channels, readPos := chime, channels, 0;
    }

    method Fill(buffer: array<real>)
      requires Valid()
      modifies this`readPos, buffer
      ensures Valid()
      ensures buffer[..] == Played(chime, Max1(channels), old(readPos), buffer.Length)
      ensures readPos == Advanced(chime, old(readPos), Frames(buffer.Length, Max1(channels)))
    {
      hide Signal, Spread, Frames, Advanced;
      var width := Max1(channels);
      if chime == [] {
        FillFrame(buffer, 0, buffer.Length, 0.0);
        EmptyChimeIsSilent(chime, width, readPos, buffer.Length);
        return;
      }
      var start := 0;
      ghost var frame := 0;
      AtTheStart(chime, width, readPos);
      while start < buffer.Length
        invariant start <= buffer.Length && readPos < |chime|
        invariant readPos == Advanced(chime, old(readPos), frame) && frame == Frames(start, width)
        invariant start < buffer.Length ==> start == frame * width
        invariant forall k | 0 <= k < start :: buffer[k] == Spread(chime, width, old(readPos), k)
      {
        var end := if start + width <= buffer.Length then start + width else buffer.Length;
        FillFrame(buffer, start, end, chime[readPos]);
        FrameIsSpread(chime, width, old(readPos), frame, end - start);
        NextPosition(chime, old(readPos), frame);
        readPos := readPos + 1;
        if readPos >= |chime| {
          readPos := 0;
        }
        start, frame := end, frame + 1;
      }
    }
  }

  method FillFrame(buffer: array<real>, start: nat, end: nat, sample: real)
    requires start <= end <= buffer.Length
    modifies buffer
    ensures forall k | 0 <= k < buffer.Length :: buffer[k] == if start <= k < end then sample else old(buffer[k])
  {
    for i := start to end
      invariant forall k | 0 <= k < buffer.Length :: buffer[k] == if start <= k < i then sample else old(buffer[k])
    {
      buffer[i] := sample;
    }
  }

  lemma EmptyChimeIsSilent(chime: seq<real>, width: nat, pos: nat, n: nat)
    requires chime == [] && width > 0
    ensures Played(chime, width, pos, n) == Silence(n)
    ensures Advanced(chime, pos, Frames(n, width)) == pos
  {}

  lemma AtTheStart(chime: seq<real>, width: nat, pos: nat)
    requires pos < |chime| && width > 0
    ensures Advanced(chime, pos, 0) == pos && Frames(0, width) == 0
  {
    QuotientIs(0, width - 1, width);
    QuotientIs(0, pos, |chime|);
  }

  /** A whole frame, or the part of it that still fits, holds the sample at its position. */
  lemma FrameIsSpread(chime: seq<real>, width: nat, pos: nat, frame: nat, part: nat)
    requires chime != [] && 0 < part <= width
    ensures 0 <= Advanced(chime, pos, frame) < |chime|
    ensures forall k | frame * width <= k < frame * width + part :: Spread(chime, width, pos, k) == chime[Advanced(chime, pos, frame)]
    ensures Frames(frame * width + part, width) == frame + 1
  {
    QuotientIs(frame + 1, part - 1, width);
    assert frame * width + part + width - 1 == (frame + 1) * width + (part - 1);
    forall k | frame * width <= k < frame * width + part
      ensures Spread(chime, width, pos, k) == chime[Advanced(chime, pos, frame)]
    {
      QuotientIs(frame, k - frame * width, width);
    }
  }

  lemma NextPosition(chime: seq<real>, pos: nat, frame: nat)
    requires chime != []
    ensures var p := Advanced(chime, pos, frame);
            Advanced(chime, pos, frame + 1) == if p + 1 >= |chime| then 0 else p + 1
  {
    var p, n := pos + frame, |chime|;
    QuotientAndRest(p, n);
    if p % n + 1 < n {
      QuotientIs(p / n, p % n + 1, n);
    } else {
      assert p + 1 == (p / n + 1) * n;
      QuotientIs(p / n + 1, 0, n);
    }
  }

  // ---- Splitting ----

  /** One period later the signal is the same. */
  lemma SignalRepeats(chime: seq<real>, pos: nat, f: nat)
    ensures Signal(chime, pos, f + |chime|) == Signal(chime, pos, f)
  {
    if chime != [] {
      var p, n := pos + f, |chime|;
      QuotientAndRest(p, n);
      assert p + n == (p / n + 1) * n + p % n;
      QuotientIs(p / n + 1, p % n, n);
    }
  }

  /** Playing on from where some frames left the position. */
  lemma SignalGoesOn(chime: seq<real>, pos: nat, played: nat, f: nat)
    ensures Signal(chime, Advanced(chime, pos, played), f) == Signal(chime, pos, played + f)
  {
    if chime != [] {
      RestsAdd(pos + played, f, |chime|);
    }
  }

  lemma RestsAdd(a: nat, b: nat, n: nat)
    requires n > 0
    ensures 0 <= a % n && (a % n + b) % n == (a + b) % n
  {
    QuotientAndRest(a, n);
    QuotientAndRest(a % n + b, n);
    var q, r := (a % n + b) / n, (a % n + b) % n;
    assert a + b == (a / n + q) * n + r;
    QuotientIs(a / n + q, r, n);
  }

  lemma AdvancingOn(chime: seq<real>, pos: nat, first: nat, second: nat)
    ensures Advanced(chime, Advanced(chime, pos, first), second) == Advanced(chime, pos, first + second)
  {
    if chime != [] {
      RestsAdd(pos + first, second, |chime|);
    }
  }

  lemma WholeFrames(frames: nat, k: nat, width: nat)
    requires width > 0
    ensures (frames * width + k) / width == frames + k / width
    ensures Frames(frames * width + k, width) == frames + Frames(k, width)
  {
    ShiftedQuotient(frames, k, width);
    ShiftedQuotient(frames, k + width - 1, width);
    assert frames * width + k + width - 1 == frames * width + (k + width - 1);
  }

  lemma ShiftedQuotient(q: nat, k: nat, d: nat)
    requires d > 0
    ensures (q * d + k) / d == q + k / d && k / d >= 0
  {
    QuotientAndRest(k, d);
    ProductOfSum(q, k / d, d);
    QuotientIs(q + k / d, k % d, d);
  }

  lemma ProductOfSum(a: nat, b: nat, d: nat)
    ensures (a + b) * d == a * d + b * d
  {}

  /** Cutting a buffer at a frame boundary changes neither what is played nor where the position ends up. */
  lemma SplitsAtFrameBoundaries(chime: seq<real>, width: nat, pos: nat, frames: nat, n: nat)
    requires width > 0
    ensures var next := Advanced(chime, pos, Frames(frames * width, width));
            && Played(chime, width, pos, frames * width + n) == Played(chime, width, pos, frames * width) + Played(chime, width, next, n)
            && Advanced(chime, pos, Frames(frames * width + n, width)) == Advanced(chime, next, Frames(n, width))
  {
    hide Frames, Advanced, Signal;
    var whole := frames * width;
    var next := Advanced(chime, pos, frames);
    WholeFrames(frames, 0, width);
    WholeFrames(frames, n, width);
    NoFrames(width);
    AdvancingOn(chime, pos, frames, Frames(n, width));
    forall k | 0 <= k < n
      ensures Spread(chime, width, pos, whole + k) == Spread(chime, width, next, k)
    {
      WholeFrames(frames, k, width);
      QuotientAndRest(k, width);
      SignalGoesOn(chime, pos, frames, k / width);
    }
  }

  lemma NoFrames(width: nat)
    requires width > 0
    ensures Frames(0, width) == 0
  {
    QuotientIs(0, width - 1, width);
  }

  /** Cutting inside a frame drops the rest of it: the second part starts with the next frame's sample. */
  lemma SplitInsideAFrameSkips(chime: seq<real>, width: nat, pos: nat, frames: nat, part: nat, n: nat)
    requires 0 < part < width && n > 0
    ensures var m := frames * width + part;
            var next := Advanced(chime, pos, Frames(m, width));
            && Played(chime, width, next, n)[0] == Signal(chime, pos, frames + 1)
            && Played(chime, width, pos, m + n)[m] == Signal(chime, pos, frames)
  {
    var m := frames * width + part;
    QuotientIs(frames, part, width);
    QuotientIs(frames + 1, part - 1, width);
    assert m + width - 1 == (frames + 1) * width + (part - 1);
    QuotientIs(0, 0, width);
    SignalGoesOn(chime, pos, frames + 1, 0);
  }

  /** A buffer of `m + n` samples sounds the same when it is asked for in two parts. */
  predicate CutKeeps(chime: seq<real>, width: nat, pos: nat, m: nat, n: nat)
    requires width > 0
  {
    Played(chime, width, pos, m + n)
    == Played(chime, width, pos, m) + Played(chime, width, Advanced(chime, pos, Frames(m, width)), n)
  }

  /** A cut goes unheard, whatever the chime and the position, exactly at a frame boundary or at the end. */
  lemma CutsAreUnheardIff(width: nat, m: nat, n: nat)
    requires width > 0
    ensures (forall chime, pos: nat :: CutKeeps(chime, width, pos, m, n)) <==> m % width == 0 || n == 0
  {
    hide Frames, Advanced, Signal;
    QuotientAndRest(m, width);
    if n == 0 {
      forall chime: seq<real>, pos: nat
        ensures CutKeeps(chime, width, pos, m, n)
      {
        assert Played(chime, width, pos, m) + [] == Played(chime, width, pos, m);
      }
    } else if m % width == 0 {
      forall chime: seq<real>, pos: nat
        ensures CutKeeps(chime, width, pos, m, n)
      {
        SplitsAtFrameBoundaries(chime, width, pos, m / width, n);
      }
    } else {
      CutIsHeard(width, m / width, m % width, n);
    }
  }

  lemma CutIsHeard(width: nat, frames: nat, part: nat, n: nat)
    requires 0 < part < width && n > 0
    ensures !CutKeeps([0.0, 1.0], width, 0, frames * width + part, n)
  {
    var chime, m := [0.0, 1.0], frames * width + part;
    SplitInsideAFrameSkips(chime, width, 0, frames, part, n);
    assert Signal(chime, 0, frames) != Signal(chime, 0, frames + 1);
    var first := Played(chime, width, 0, m);
    assert |first| == m;
    hide Played, Signal;
    var second := Played(chime, width, Advanced(chime, 0, Frames(m, width)), n);
    assert (first + second)[m] == second[0];
  }

  /** What a run of callbacks plays when they ask for these many samples in turn. */
  function PlayedInTurn(chime: seq<real>, width: nat, pos: nat, sizes: seq<nat>): seq<seq<real>>
    requires width > 0
    decreases |sizes|
  {
    if sizes == [] then []
    else [Played(chime, width, pos, sizes[0])]
         + PlayedInTurn(chime, width, Advanced(chime, pos, Frames(sizes[0], width)), sizes[1..])
  }

  function TotalFrames(width: nat, sizes: seq<nat>): nat
    requires width > 0
  {
    if sizes == [] then 0 else Frames(sizes[0], width) + TotalFrames(width, sizes[1..])
  }

  /**
    * Callbacks of any sizes play one endless chime, each from the frame behind those that the earlier ones began; so
    * callbacks of whole frames play it without a gap.
    */
  lemma {:induction false} CallbacksPlayOneSignal(chime: seq<real>, width: nat, pos: nat, sizes: seq<nat>, i: nat, k: nat)
    requires width > 0 && i < |sizes| && k < sizes[i]
    ensures var calls := PlayedInTurn(chime, width, pos, sizes);
            && |calls| == |sizes| && |calls[i]| == sizes[i]
            && calls[i][k] == Signal(chime, pos, TotalFrames(width, sizes[..i]) + k / width)
    decreases |sizes|
  {
    hide Frames, Advanced, Signal;
    QuotientAndRest(k, width);
    CallsMatchSizes(chime, width, pos, sizes);
    if i == 0 {
      assert sizes[..0] == [];
    } else {
      var first, rest := sizes[0], sizes[1..];
      var next := Advanced(chime, pos, Frames(first, width));
      CallbacksPlayOneSignal(chime, width, next, rest, i - 1, k);
      SignalGoesOn(chime, pos, Frames(first, width), TotalFrames(width, rest[..i - 1]) + k / width);
      assert sizes[..i][1..] == rest[..i - 1];
    }
  }

  lemma {:induction false} CallsMatchSizes(chime: seq<real>, width: nat, pos: nat, sizes: seq<nat>)
    requires width > 0
    ensures |PlayedInTurn(chime, width, pos, sizes)| == |sizes|
    decreases |sizes|
  {
    if sizes != [] {
      CallsMatchSizes(chime, width, Advanced(chime, pos, Frames(sizes[0], width)), sizes[1..]);
    }
  }

  /** Whole frames add up, so nothing is skipped between callbacks that ask for them. */
  lemma {:induction false} WholeFramesAddUp(width: nat, requests: seq<nat>, sizes: seq<nat>)
    requires width > 0 && |sizes| == |requests| && forall i | 0 <= i < |sizes| :: sizes[i] == requests[i] * width
    ensures TotalFrames(width, sizes) == Total(requests)
  {
    if sizes != [] {
      WholeFrames(requests[0], 0, width);
      NoFrames(width);
      WholeFramesAddUp(width, requests[1..], sizes[1..]);
    }
  }

  function Total(requests: seq<nat>): nat {
    if requests == [] then 0 else requests[0] + Total(requests[1..])
  }

  // ---- Integer formats ----

  /** The same stream for an integer sample format: the scratch buffer is cleared, resized, filled and converted. */
  class IntegerPlayer<T> {
    const player: ChimePlayer
    var scratch: array<real>
    const convert: real -> T

    constructor (chime: seq<real>, channels: nat, convert: real -> T)
      ensures player.Valid() && fresh(player) && fresh(scratch) && player.readPos == 0
      ensures player.chime == chime && player.channels == channels && this.convert == convert
    {
      player := new ChimePlayer(chime, channels);
      scratch := new real[0];
      this.convert := convert;
    }

    method OnData(data: array<T>)
      requires player.Valid()
      modifies this`scratch, player`readPos, data
      ensures player.Valid() && scratch.Length == data.Length
      ensures scratch[..] == Played(player.chime, Max1(player.channels), old(player.readPos), data.Length)
      ensures forall k | 0 <= k < data.Length :: data[k] == convert(scratch[k])
      ensures player.readPos == Advanced(player.chime, old(player.readPos), Frames(data.Length, Max1(player.channels)))
    {
      hide Played, Advanced, Frames;
      scratch := new real[data.Length](_ => 0.0);
      player.Fill(scratch);
      for i := 0 to data.Length
        modifies data
        invariant forall k | 0 <= k < i :: data[k] == convert(scratch[k])
      {
        data[i] := convert(scratch[i]);
      }
    }
  }

  /** At one frame a second every note of the chime rounds to nothing, so a rate of zero gives an empty chime. */
  lemma NoRateNoChime(sine: real -> real)
    ensures forall note | note in CHIME_NOTES :: note.Lasting()
    ensures Chime(CHIME_NOTES, Max1(0), sine) == []
  {
    var notes := CHIME_NOTES;
    EmptyNotes(notes, sine);
  }

  lemma {:induction false} EmptyNotes(notes: seq<Note>, sine: real -> real)
    requires forall note | note in notes :: 0.0 <= note.durationMs < 500.0
    ensures Chime(notes, 1, sine) == []
    decreases |notes|
  {
    if notes != [] {
      EmptyNotes(notes[..|notes| - 1], sine);
    }
  }
}
