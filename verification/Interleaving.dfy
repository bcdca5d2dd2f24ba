/** Copying Core Audio buffer lists into one interleaved sample stream (scrybe-capture-mac/src/coreaudio_tap.rs). */
module Interleaving {
  import opened Wrappers
  import opened Arithmetic

  const SAMPLE_BYTES := 4

  /** One buffer of the list: its samples, if its pointer is not null, and the byte size it declares. */
  datatype Buffer<T> = Buffer(data: Option<seq<T>>, byteSize: nat) {
    /** What Core Audio promises of a buffer: a pointer that is not null has the declared bytes behind it. */
    predicate Sound() {
      data.Some? ==> |data.value| == byteSize / 4
    }

    /** The sample at `s`, or silence where there is none. */
    function Sample(s: nat, zero: T): T {
      if data.Some? && s < |data.value| then data.value[s] else zero
    }
  }

  /** Frames per channel: what the first buffer declares, even when it is null. */
  function Frames<T>(buffers: seq<Buffer<T>>): nat
    requires buffers != []
  {
    buffers[0].byteSize / 4
  }

  // ---- Positions ----

  /** Where sample `s` of channel `c` goes among `n` channels. */
  function Index(s: nat, n: nat, c: nat): nat {
    s * n + c
  }

  lemma IndexInRange(frames: nat, n: nat, s: nat, c: nat)
    requires s < frames && c < n
    ensures Index(s, n, c) < frames * n
  {
    ProductsGrow(s, frames, n);
  }

  lemma IndexIsInjective(n: nat, s: nat, c: nat, s': nat, c': nat)
    requires c < n && c' < n && Index(s, n, c) == Index(s', n, c')
    ensures s == s' && c == c'
  {
    if s < s' {
      ProductsGrow(s, s', n);
    } else if s' < s {
      ProductsGrow(s', s, n);
    }
  }

  lemma IndexOfQuotient(frames: nat, n: nat, k: nat)
    requires n > 0 && k < frames * n
    ensures Index(k / n, n, k % n) == k && k / n < frames
  {
    QuotientAndRest(k, n);
    if frames < k / n {
      ProductsGrow(frames, k / n, n);
    }
  }

  lemma QuotientOfIndex(n: nat, s: nat, c: nat)
    requires c < n
    ensures Index(s, n, c) / n == s && Index(s, n, c) % n == c
  {
    QuotientIs(s, c, n);
  }

  lemma WholeFrames(frames: nat, n: nat)
    requires n > 0
    ensures frames * n % n == 0 && frames * n / n == frames
  {
    QuotientOfIndex(n, frames, 0);
  }

  // ---- Interleaving and its inverse ----

  /** Frame after frame, in each the channels in order. */
  function Interleaved<T>(buffers: seq<Buffer<T>>, zero: T): seq<T>
    requires buffers != []
  {
    seq(Frames(buffers) * |buffers|, k requires 0 <= k => buffers[k % |buffers|].Sample(k / |buffers|, zero))
  }

  /** Every `n`-th sample from `c` on. */
  function Channel<T>(samples: seq<T>, n: nat, c: nat): seq<T>
    requires 0 <= c < n && |samples| % n == 0
  {
    QuotientAndRest(|samples|, n);
    seq(|samples| / n, s requires 0 <= s < |samples| / n => (IndexInRange(|samples| / n, n, s, c); samples[Index(s, n, c)]))
  }

  /** The buffer cut or padded to the frames of the whole. */
  function CutOrPad<T>(buffer: Buffer<T>, frames: nat, zero: T): seq<T> {
    seq(frames, s requires 0 <= s => buffer.Sample(s, zero))
  }

  /** De-interleaving gives back every channel, cut or padded to the first buffer's length. */
  lemma ChannelReadsBack<T>(buffers: seq<Buffer<T>>, zero: T, c: nat)
    requires c < |buffers|
    ensures |Interleaved(buffers, zero)| == Frames(buffers) * |buffers| && |Interleaved(buffers, zero)| % |buffers| == 0
    ensures Channel(Interleaved(buffers, zero), |buffers|, c) == CutOrPad(buffers[c], Frames(buffers), zero)
  {
    var n, frames := |buffers|, Frames(buffers);
    var all := Interleaved(buffers, zero);
    WholeFrames(frames, n);
    forall s | 0 <= s < frames
      ensures Channel(all, n, c)[s] == buffers[c].Sample(s, zero)
    {
      IndexInRange(frames, n, s, c);
      QuotientOfIndex(n, s, c);
    }
  }

  /** One sound buffer per channel of a stream. */
  function Planes<T>(samples: seq<T>, n: nat): seq<Buffer<T>>
    requires n > 0 && |samples| % n == 0
  {
    seq(n, c requires 0 <= c < n => Buffer(Some(Channel(samples, n, c)), 4 * (|samples| / n)))
  }

  /** And interleaving the channels of any stream of whole frames gives the stream back. */
  lemma InterleavingChannels<T>(samples: seq<T>, n: nat, zero: T)
    requires n > 0 && |samples| % n == 0
    ensures Interleaved(Planes(samples, n), zero) == samples
  {
    var frames := |samples| / n;
    var buffers := Planes(samples, n);
    assert Frames(buffers) == frames;
    QuotientAndRest(|samples|, n);
    forall k | 0 <= k < |samples|
      ensures buffers[k % n].Sample(k / n, zero) == samples[k]
    {
      IndexOfQuotient(frames, n, k);
    }
  }

  // ---- The copy ----

  /** Copies one plane into its channel's places, as far as the frames go. */
  method CopyPlane<T>(out: array<T>, frames: nat, n: nat, channel: nat, slice: seq<T>)
    requires channel < n && out.Length == frames * n
    modifies out
    ensures forall s, c | 0 <= s < frames && 0 <= c < n ::
      (IndexInRange(frames, n, s, c);
       out[Index(s, n, c)] == if c == channel && s < |slice| then slice[s] else old(out[Index(s, n, c)]))
  {
    var stop := if |slice| < frames then |slice| else frames;
    forall s, c | 0 <= s < frames && 0 <= c < n
      ensures Index(s, n, c) < out.Length
    {
      IndexInRange(frames, n, s, c);
    }
    for i := 0 to stop
      invariant forall s, c | 0 <= s < frames && 0 <= c < n ::
        out[Index(s, n, c)] == if c == channel && s < i then slice[s] else old(out[Index(s, n, c)])
    {
      ghost var before := out[..];
      out[Index(i, n, channel)] := slice[i];
      forall s, c | 0 <= s < frames && 0 <= c < n
        ensures out[Index(s, n, c)] == if c == channel && s < i + 1 then slice[s] else old(out[Index(s, n, c)])
      {
        if Index(s, n, c) == Index(i, n, channel) {
          IndexIsInjective(n, s, c, i, channel);
        } else {
          assert out[Index(s, n, c)] == before[Index(s, n, c)];
        }
      }
    }
  }

  lemma AllPlaces<T>(buffers: seq<Buffer<T>>, zero: T, samples: seq<T>)
    requires buffers != [] && |samples| == Frames(buffers) * |buffers|
    requires forall s, c | 0 <= s < Frames(buffers) && 0 <= c < |buffers| ::
      Index(s, |buffers|, c) < |samples| && samples[Index(s, |buffers|, c)] == buffers[c].Sample(s, zero)
    ensures samples == Interleaved(buffers, zero)
  {
    var n, frames := |buffers|, Frames(buffers);
    forall k | 0 <= k < frames * n
      ensures k / n >= 0 && samples[k] == buffers[k % n].Sample(k / n, zero)
    {
      IndexOfQuotient(frames, n, k);
      QuotientAndRest(k, n);
    }
  }

  /** `interleaved_f32_samples`. */
  method InterleavedSamples<T>(buffers: seq<Buffer<T>>, zero: T) returns (samples: seq<T>)
    requires forall b | b in buffers :: b.Sound()
    ensures buffers == [] ==> samples == []
    ensures |buffers| == 1 ==> samples == if buffers[0].data.Some? && buffers[0].byteSize != 0 then buffers[0].data.value else []
    ensures |buffers| == 1 ==> |samples| == if buffers[0].data.Some? then buffers[0].byteSize / 4 else 0
    ensures |buffers| > 1 ==> samples == Interleaved(buffers, zero)
  {
    var n := |buffers|;
    if n == 0 { return []; }
    if n == 1 {
      if buffers[0].data.None? || buffers[0].byteSize == 0 { return []; }
      assert buffers[0] in buffers;
      return buffers[0].data.value;
    }
    var frames := buffers[0].byteSize / SAMPLE_BYTES;
    var out := new T[frames * n](_ => zero);
    forall s, c | 0 <= s < frames && 0 <= c < n
      ensures Index(s, n, c) < out.Length
    {
      IndexInRange(frames, n, s, c);
    }
    for channel := 0 to n
      invariant forall s, c | 0 <= s < frames && 0 <= c < n ::
        out[Index(s, n, c)] == if c < channel then buffers[c].Sample(s, zero) else zero
    {
      var buffer := buffers[channel];
      if buffer.data.Some? {
        CopyPlane(out, frames, n, channel, buffer.data.value);
      }
    }
    samples := out[..];
    AllPlaces(buffers, zero, samples);
  }
}
