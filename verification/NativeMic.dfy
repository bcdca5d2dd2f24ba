/** Microphone capture, by an echo-cancelling unit or by a plain IO proc (scrybe-capture-mac/src/native_mic.rs). */
module NativeMic {
  import opened Wrappers
  import opened CoreAudio
  import opened CaptureChannel
  import opened CoreAudioTap

  // ---- The plain stream ----

  class MicStream<T> {
    const hal: Hal
    const channel: Channel<T>
    const blockId: nat
    const procId: nat
    var started: bool
    var sender: bool

    function BlockR(): Resource { Resource(Block, blockId) }
    function ProcR(): Resource { Resource(IoProc, procId) }

    ghost function Holds(): Holdings
      reads this
    {
      map[BlockR() := Hold({}, false, false), ProcR() := Hold({BlockR()}, false, started)]
    }

    ghost predicate Valid()
      reads this, hal, channel
    {
      && hal.Valid()
      && Holds().Keys <= hal.Live().Keys
      && (forall r | r in Holds() :: hal.Live()[r] == Holds()[r])
      && (forall r | r in hal.Live() && r !in Holds() :: hal.Live()[r].uses !! Holds().Keys)
      && (sender ==> channel.senders > 0)
    }

    constructor Own(hal: Hal, channel: Channel<T>, blockId: nat, procId: nat)
      ensures this.hal == hal && this.channel == channel && this.blockId == blockId && this.procId == procId
      ensures !started && sender
    {
      this.hal, this.channel, this.blockId, this.procId, started, sender := hal, channel, blockId, procId, false, true;
    }

    lemma OwnsWhatIsNew(before: Holdings)
      requires hal.Valid() && channel.senders > 0 && Closed(before) && !started
      requires BlockR() !in before && ProcR() !in before
      requires hal.Live() == before[BlockR() := Hold({}, false, false)][ProcR() := Hold({BlockR()}, false, false)]
      ensures Valid() && Holds().Keys !! before.Keys && hal.Live() == before + Holds()
    {
      hide Hal.Live, Hal.Valid;
      assert hal.Live() == before + Holds();
    }

    static method Create(hal: Hal, channel: Channel<T>) returns (r: Option<MicStream<T>>)
      requires hal.Valid() && channel.senders > 0
      modifies hal, channel`senders
      ensures hal.Valid() && old(hal.trace) <= hal.trace
      ensures r.None? ==> hal.Live() == old(hal.Live()) && channel.senders == old(channel.senders) - 1
      ensures r.Some? ==> fresh(r.value) && r.value.Valid() && r.value.hal == hal && r.value.channel == channel
      ensures r.Some? ==> !r.value.started && r.value.sender && channel.senders == old(channel.senders)
      ensures r.Some? ==> r.value.Holds().Keys !! old(hal.Live()).Keys && hal.Live() == old(hal.Live()) + r.value.Holds()
      ensures IoProc in hal.dependable ==> r.Some?
    {
      hide Hal.Live, Hal.Valid, InUse, Closed, MicStream.Valid, MicStream.Holds;
      ghost var before := hal.Live();
      hal.IsClosed();
      var known := hal.Ask(IoProc);  // the device and its sample rate
      if !known { channel.DropSender(); return None; }
      var block := hal.Allocate(Block, {});
      var proc := hal.Create(IoProc, {Resource(Block, block)});
      if proc.None? {
        hal.GiveBack(Resource(Block, block), before);
        channel.DropSender();
        return None;
      }
      var stream := new MicStream.Own(hal, channel, block, proc.value);
      stream.OwnsWhatIsNew(before);
      return Some(stream);
    }

    method Start() returns (ok: bool)
      requires Valid()
      modifies this`started, hal
      ensures Valid() && hal.Valid() && old(hal.trace) <= hal.trace
      ensures started == (old(started) || ok) && (old(started) ==> ok)
      ensures hal.trace == old(hal.trace) + (if started && !old(started) then [Started(ProcR())] else [])
      ensures IoProc in hal.dependable ==> ok
      ensures hal.Live() == old(hal.Live()) + Holds() && Holds().Keys == old(Holds().Keys)
    {
      hide Hal.Live, Hal.Valid;
      if started { return true; }
      ok := hal.Start(ProcR());
      if ok { started := true; }
    }

    /** A device that refuses to stop keeps its sender until the stream is dropped. */
    method Stop() returns (ok: bool)
      requires Valid()
      modifies this`started, this`sender, hal, channel`senders
      ensures Valid() && hal.Valid() && !started && old(hal.trace) <= hal.trace
      ensures hal.trace == old(hal.trace) + (if old(started) then [Stopped(ProcR(), ok)] else []) && (!old(started) ==> ok)
      ensures IoProc in hal.dependable ==> ok
      ensures sender == (old(sender) && !ok)
      ensures channel.senders == old(channel.senders) - (if old(sender) && !sender then 1 else 0)
      ensures hal.Live() == old(hal.Live()) + Holds() && Holds().Keys == old(Holds().Keys)
    {
      hide Hal.Live, Hal.Valid;
      if started {
        started := false;
        ok := hal.Stop(ProcR());
        if !ok { return; }
      }
      if sender {
        sender := false;
        channel.DropSender();
      }
      ok := true;
    }

    lemma FreeInTurn(live: Holdings, holds: Holdings)
      requires holds == Holds() && holds.Keys <= live.Keys
      requires forall r | r in holds :: live[r] == holds[r]
      requires forall r | r in live && r !in holds :: live[r].uses !! holds.Keys
      ensures !InUse(live, ProcR()) && !InUse(live - {ProcR()}, BlockR())
    {}

    /** What a drop gives back, the user first. */
    ghost function Releases(): seq<Event> {
      [Released(Resource(IoProc, procId)), Released(Resource(Block, blockId))]
    }

    method Drop()
      requires Valid()
      modifies this`started, this`sender, hal, channel`senders
      ensures hal.Valid() && !started && !sender && old(hal.trace) <= hal.trace
      ensures !old(started) ==> hal.trace == old(hal.trace) + Releases()
      ensures old(started) ==> exists ok :: hal.trace == old(hal.trace) + [Stopped(ProcR(), ok)] + Releases()
      ensures hal.Live() == old(hal.Live()) - old(Holds().Keys)
      ensures channel.senders == old(channel.senders) - (if old(sender) then 1 else 0)
    {
      hide Hal.Live, Hal.Valid;
      if started {
        var _ := hal.Stop(ProcR());
        started := false;
      }
      FreeInTurn(hal.Live(), Holds());
      assert Holds().Keys == {ProcR(), BlockR()};
      hide InUse;
      hal.Destroy(ProcR());
      hal.Destroy(BlockR());
      if sender {
        sender := false;
        channel.DropSender();
      }
    }

    /** The callback: sends each buffer while the cell holds the sender. */
    method Deliver(items: seq<T>)
      requires Valid()
      modifies channel`queue, channel`sent
      ensures Valid() && old(channel.received) == channel.received
      ensures sender && channel.open ==> channel.queue == old(channel.queue) + items && channel.sent == old(channel.sent) + items
      ensures !sender || !channel.open ==> channel.queue == old(channel.queue) && channel.sent == old(channel.sent)
    {
      hide Hal.Live, Hal.Valid;
      if sender {
        channel.SendAll(items);
      }
    }

    /** Stops the stream and drops it, whatever stopping answers, and passes that answer on. */
    method End(ghost others: Holdings) returns (ok: bool)
      requires Valid() && Holds().Keys !! others.Keys && hal.Live() == others + Holds()
      modifies this, hal, channel`senders
      ensures hal.Valid() && hal.Live() == others && old(hal.trace) <= hal.trace
      ensures hal.trace == old(hal.trace) + (if old(started) then [Stopped(ProcR(), ok)] else []) + Releases()
      ensures (!old(started) ==> ok) && (IoProc in hal.dependable ==> ok)
      ensures channel.senders == old(channel.senders) - (if old(sender) then 1 else 0)
    {
      hide Hal.Live, Hal.Valid, Valid, Holds;
      ok := Stop();
      ghost var holds := Holds();
      Drop();
      assert (others + holds) - holds.Keys == others;
    }

    /** The same, with what the callback still sends before the device has stopped. */
    method EndAfter(late: seq<T>, ghost others: Holdings) returns (ok: bool)
      requires Valid() && Holds().Keys !! others.Keys && hal.Live() == others + Holds() && started && sender
      modifies this, hal, channel
      ensures hal.Valid() && hal.Live() == others && channel.senders == old(channel.senders) - 1
      ensures hal.trace == old(hal.trace) + [Stopped(ProcR(), ok)] + Releases()
      ensures IoProc in hal.dependable ==> ok
      ensures channel.open == old(channel.open) && channel.received == old(channel.received)
      ensures channel.queue == old(channel.queue) + (if channel.open then late else [])
      ensures channel.sent == old(channel.sent) + (if channel.open then late else [])
    {
      hide Hal.Live, Hal.Valid, Holds;
      Deliver(late);
      ok := End(others);
    }
  }

  // ---- The voice-processing stream ----

  class VoiceStream<T> {
    const hal: Hal
    const channel: Channel<T>
    const unit: nat
    var initialized: bool
    var started: bool
    var sender: bool

    function UnitR(): Resource { Resource(Unit, unit) }
    function ContextR(): Resource { Resource(Context, unit) }

    ghost function Holds(): Holdings
      reads this
    {
      map[UnitR() := Hold({}, initialized, started), ContextR() := Hold({}, false, false)]
    }

    ghost predicate Valid()
      reads this, hal, channel
    {
      && hal.Valid()
      && Holds().Keys <= hal.Live().Keys
      && (forall r | r in Holds() :: hal.Live()[r] == Holds()[r])
      && (forall r | r in hal.Live() && r !in Holds() :: hal.Live()[r].uses !! Holds().Keys)
      && (sender ==> channel.senders > 0)
      && (started ==> initialized)
    }

    constructor Own(hal: Hal, channel: Channel<T>, unit: nat)
      ensures this.hal == hal && this.channel == channel && this.unit == unit && !initialized && !started && sender
    {
      this.hal, this.channel, this.unit, initialized, started, sender := hal, channel, unit, false, false, true;
    }

    lemma OwnsWhatIsNew(before: Holdings)
      requires hal.Valid() && channel.senders > 0 && Closed(before) && !started && !initialized
      requires UnitR() !in before && ContextR() !in before
      requires hal.Live() == before[UnitR() := Hold({}, false, false)][ContextR() := Hold({}, false, false)]
      ensures Valid() && Holds().Keys !! before.Keys && hal.Live() == before + Holds()
    {
      hide Hal.Live, Hal.Valid;
      assert hal.Live() == before + Holds();
    }

    /** Everything short of starting. Whatever fails, the half-made stream is dropped. */
    static method Create(hal: Hal, channel: Channel<T>) returns (r: Option<VoiceStream<T>>)
      requires hal.Valid() && channel.senders > 0
      modifies hal, channel`senders
      ensures hal.Valid() && old(hal.trace) <= hal.trace
      ensures r.None? ==> hal.Live() == old(hal.Live()) && channel.senders == old(channel.senders) - 1
      ensures r.Some? ==> fresh(r.value) && r.value.Valid() && r.value.hal == hal && r.value.channel == channel
      ensures r.Some? ==> r.value.initialized && !r.value.started && r.value.sender && channel.senders == old(channel.senders)
      ensures r.Some? ==> r.value.Holds().Keys !! old(hal.Live()).Keys && hal.Live() == old(hal.Live()) + r.value.Holds()
      ensures Unit in hal.dependable ==> r.Some?
    {
      hide Hal.Live, Hal.Valid, InUse, Closed, VoiceStream.Valid, VoiceStream.Holds;
      ghost var before := hal.Live();
      hal.IsClosed();
      var known := hal.Ask(Unit);  // the device, its sample rate and the component
      if !known { channel.DropSender(); return None; }
      var unit := hal.Create(Unit, {});
      if unit.None? { channel.DropSender(); return None; }
      hal.AllocateContext(unit.value);
      var stream := new VoiceStream.Own(hal, channel, unit.value);
      stream.OwnsWhatIsNew(before);
      var ok, properties := true, 0;
      while ok && properties < 7
        modifies {}
        invariant Unit in hal.dependable ==> ok
        decreases 7 - properties
      {
        ok := hal.Ask(Unit);
        properties := properties + 1;
      }
      if ok {
        ok := stream.Initialize();
      }
      if !ok {
        ghost var holds := stream.Holds();
        stream.Drop();
        assert (before + holds) - holds.Keys == before;
        return None;
      }
      assert hal.Live() == before + stream.Holds();
      return Some(stream);
    }

    method Initialize() returns (ok: bool)
      requires Valid() && !initialized
      modifies this`initialized, hal
      ensures Valid() && hal.Valid() && old(hal.trace) <= hal.trace && initialized == ok
      ensures Unit in hal.dependable ==> ok
      ensures hal.Live() == old(hal.Live()) + Holds() && Holds().Keys == old(Holds().Keys)
    {
      hide Hal.Live, Hal.Valid;
      ok := hal.Initialize(UnitR());
      if ok { initialized := true; }
    }

    method Start() returns (ok: bool)
      requires Valid() && initialized
      modifies this`started, hal
      ensures Valid() && hal.Valid() && old(hal.trace) <= hal.trace
      ensures started == (old(started) || ok) && (old(started) ==> ok)
      ensures hal.trace == old(hal.trace) + (if started && !old(started) then [Started(UnitR())] else [])
      ensures Unit in hal.dependable ==> ok
      ensures hal.Live() == old(hal.Live()) + Holds() && Holds().Keys == old(Holds().Keys)
    {
      hide Hal.Live, Hal.Valid;
      if started { return true; }
      ok := hal.Start(UnitR());
      if ok { started := true; }
    }

    method Stop() returns (ok: bool)
      requires Valid()
      modifies this`started, this`sender, hal, channel`senders
      ensures Valid() && hal.Valid() && !started && old(hal.trace) <= hal.trace
      ensures hal.trace == old(hal.trace) + (if old(started) then [Stopped(UnitR(), ok)] else []) && (!old(started) ==> ok)
      ensures Unit in hal.dependable ==> ok
      ensures sender == (old(sender) && !ok)
      ensures channel.senders == old(channel.senders) - (if old(sender) && !sender then 1 else 0)
      ensures hal.Live() == old(hal.Live()) + Holds() && Holds().Keys == old(Holds().Keys)
    {
      hide Hal.Live, Hal.Valid;
      if started {
        started := false;
        ok := hal.Stop(UnitR());
        if !ok { return; }
      }
      if sender {
        sender := false;
        channel.DropSender();
      }
      ok := true;
    }

    lemma FreeInTurn(live: Holdings, holds: Holdings)
      requires holds == Holds() && holds.Keys <= live.Keys
      requires forall r | r in holds :: live[r] == holds[r]
      requires forall r | r in live && r !in holds :: live[r].uses !! holds.Keys
      ensures !InUse(live, UnitR()) && !InUse(live - {UnitR()}, ContextR())
    {}

    /** What a drop undoes and gives back, in order. */
    ghost function Releases(initialized: bool): seq<Event> {
      (if initialized then [Uninitialized(Resource(Unit, unit))] else [])
      + [Released(Resource(Unit, unit)), Released(Resource(Context, unit))]
    }

    method Quiet()
      requires Valid()
      modifies this`started, hal
      ensures Valid() && hal.Valid() && !started && old(hal.trace) <= hal.trace
      ensures !old(started) ==> hal.trace == old(hal.trace)
      ensures old(started) ==> exists ok :: hal.trace == old(hal.trace) + [Stopped(UnitR(), ok)]
      ensures hal.Live() == old(hal.Live()) + Holds() && Holds().Keys == old(Holds().Keys)
    {
      hide Hal.Live, Hal.Valid;
      if started {
        var _ := hal.Stop(UnitR());
        started := false;
      }
    }

    method Uninitialize()
      requires Valid() && !started
      modifies this`initialized, hal
      ensures Valid() && hal.Valid() && !initialized
      ensures hal.trace == old(hal.trace) + if old(initialized) then [Uninitialized(UnitR())] else []
      ensures hal.Live() == old(hal.Live()) + Holds() && Holds().Keys == old(Holds().Keys)
    {
      hide Hal.Live, Hal.Valid;
      if initialized {
        hal.Uninitialize(UnitR());
        initialized := false;
      }
    }

    /** What a destructor undoes before it disposes of the unit. */
    method Halt()
      requires Valid()
      modifies this`started, this`initialized, hal
      ensures Valid() && hal.Valid() && !started && !initialized && old(hal.trace) <= hal.trace
      ensures var undone := if old(initialized) then [Uninitialized(UnitR())] else [];
        && (!old(started) ==> hal.trace == old(hal.trace) + undone)
        && (old(started) ==> exists ok :: hal.trace == old(hal.trace) + [Stopped(UnitR(), ok)] + undone)
      ensures hal.Live() == old(hal.Live()) + Holds() && Holds().Keys == old(Holds().Keys)
    {
      hide Hal.Live, Hal.Valid, Valid, Holds;
      ghost var before := hal.Live();
      Quiet();
      ghost var stopped := Holds();
      Uninitialize();
      assert before + stopped + Holds() == before + Holds();
    }

    /** The unit goes first, and its context when nothing can call into it any more. */
    method Dispose()
      requires Valid() && !started && !initialized
      modifies hal
      ensures hal.Valid() && hal.trace == old(hal.trace) + Releases(false)
      ensures hal.Live() == old(hal.Live()) - Holds().Keys
    {
      hide Hal.Live, Hal.Valid;
      FreeInTurn(hal.Live(), Holds());
      assert Holds().Keys == {UnitR(), ContextR()};
      hide InUse;
      hal.Destroy(UnitR());
      hal.Destroy(ContextR());
    }

    /** Stopped, uninitialized, disposed, and only then is the context freed. */
    method Drop()
      requires Valid()
      modifies this`started, this`initialized, this`sender, hal, channel`senders
      ensures hal.Valid() && !started && !sender && old(hal.trace) <= hal.trace
      ensures !old(started) ==> hal.trace == old(hal.trace) + Releases(old(initialized))
      ensures old(started) ==> exists ok :: hal.trace == old(hal.trace) + [Stopped(UnitR(), ok)] + Releases(old(initialized))
      ensures hal.Live() == old(hal.Live()) - old(Holds().Keys)
      ensures channel.senders == old(channel.senders) - (if old(sender) then 1 else 0)
    {
      hide Hal.Live, Hal.Valid, InUse;
      Halt();
      ghost var before, held, halted := old(hal.Live()), old(Holds().Keys), Holds();
      Dispose();
      assert before + halted - held == before - held;
      if sender {
        sender := false;
        channel.DropSender();
      }
    }

    /** The callback: sends each buffer while the cell holds the sender. */
    method Deliver(items: seq<T>)
      requires Valid()
      modifies channel`queue, channel`sent
      ensures Valid() && old(channel.received) == channel.received
      ensures sender && channel.open ==> channel.queue == old(channel.queue) + items && channel.sent == old(channel.sent) + items
      ensures !sender || !channel.open ==> channel.queue == old(channel.queue) && channel.sent == old(channel.sent)
    {
      hide Hal.Live, Hal.Valid;
      if sender {
        channel.SendAll(items);
      }
    }

    /** Stops the stream and drops it, whatever stopping answers, and passes that answer on. */
    method End(ghost others: Holdings) returns (ok: bool)
      requires Valid() && Holds().Keys !! others.Keys && hal.Live() == others + Holds()
      modifies this, hal, channel`senders
      ensures hal.Valid() && hal.Live() == others && old(hal.trace) <= hal.trace
      ensures hal.trace == old(hal.trace) + (if old(started) then [Stopped(UnitR(), ok)] else []) + Releases(old(initialized))
      ensures (!old(started) ==> ok) && (Unit in hal.dependable ==> ok)
      ensures channel.senders == old(channel.senders) - (if old(sender) then 1 else 0)
    {
      hide Hal.Live, Hal.Valid, Valid, Holds;
      ok := Stop();
      ghost var holds := Holds();
      Drop();
      assert (others + holds) - holds.Keys == others;
    }

    /** The same, with what the callback still sends before the device has stopped. */
    method EndAfter(late: seq<T>, ghost others: Holdings) returns (ok: bool)
      requires Valid() && Holds().Keys !! others.Keys && hal.Live() == others + Holds() && started && sender
      modifies this, hal, channel
      ensures hal.Valid() && hal.Live() == others && channel.senders == old(channel.senders) - 1
      ensures hal.trace == old(hal.trace) + [Stopped(UnitR(), ok)] + Releases(old(initialized))
      ensures Unit in hal.dependable ==> ok
      ensures channel.open == old(channel.open) && channel.received == old(channel.received)
      ensures channel.queue == old(channel.queue) + (if channel.open then late else [])
      ensures channel.sent == old(channel.sent) + (if channel.open then late else [])
    {
      hide Hal.Live, Hal.Valid, Holds;
      Deliver(late);
      ok := End(others);
    }
  }

  /** Any life of an ordinary microphone stream ends holding nothing it did not hold before. */
  method MicLife<T>(hal: Hal, channel: Channel<T>, calls: seq<Call>)
    requires hal.Valid() && channel.senders > 0
    modifies hal, channel
    ensures hal.Valid() && hal.Live() == old(hal.Live()) && old(hal.trace) <= hal.trace
    ensures channel.senders == old(channel.senders) - 1
  {
    hide Hal.Live, Hal.Valid, MicStream.Valid, MicStream.Holds;
    var created := MicStream.Create(hal, channel);
    if created.None? { return; }
    var stream := created.value;
    ghost var held, before := stream.Holds().Keys, old(hal.Live());
    for i := 0 to |calls|
      invariant stream.Valid() && old(hal.trace) <= hal.trace && stream.Holds().Keys == held
      invariant held !! before.Keys && hal.Live() == before + stream.Holds()
      invariant channel.senders == old(channel.senders) - (if stream.sender then 0 else 1)
    {
      if calls[i] == CallStart {
        var _ := stream.Start();
      } else {
        var _ := stream.Stop();
      }
    }
    ghost var holds := stream.Holds();
    stream.Drop();
    assert (before + holds) - held == before;
  }

  /** Any life of a voice-processing stream does, too. */
  method VoiceLife<T>(hal: Hal, channel: Channel<T>, calls: seq<Call>)
    requires hal.Valid() && channel.senders > 0
    modifies hal, channel
    ensures hal.Valid() && hal.Live() == old(hal.Live()) && old(hal.trace) <= hal.trace
    ensures channel.senders == old(channel.senders) - 1
  {
    hide Hal.Live, Hal.Valid, VoiceStream.Valid, VoiceStream.Holds;
    var created := VoiceStream.Create(hal, channel);
    if created.None? { return; }
    var stream := created.value;
    ghost var held, before := stream.Holds().Keys, old(hal.Live());
    for i := 0 to |calls|
      invariant stream.Valid() && old(hal.trace) <= hal.trace && stream.Holds().Keys == held
      invariant held !! before.Keys && hal.Live() == before + stream.Holds()
      invariant channel.senders == old(channel.senders) - (if stream.sender then 0 else 1)
      invariant stream.initialized
    {
      if calls[i] == CallStart {
        var _ := stream.Start();
      } else {
        var _ := stream.Stop();
      }
    }
    ghost var holds := stream.Holds();
    stream.Drop();
    assert (before + holds) - held == before;
  }

  // ---- The fallback ----

  datatype Stream<T> = Voice(voice: VoiceStream<T>) | Plain(plain: MicStream<T>)

  /** Creates and starts a voice-processing stream, or leaves nothing of it. */
  method TryVoice<T>(hal: Hal, channel: Channel<T>) returns (r: Option<VoiceStream<T>>)
    requires hal.Valid() && channel.senders > 0
    modifies hal, channel`senders
    ensures hal.Valid() && old(hal.trace) <= hal.trace
    ensures r.None? ==> hal.Live() == old(hal.Live()) && channel.senders == old(channel.senders) - 1
    ensures r.Some? ==> fresh(r.value) && r.value.Valid() && r.value.hal == hal && r.value.channel == channel
    ensures r.Some? ==> r.value.started && r.value.sender && channel.senders == old(channel.senders)
    ensures r.Some? ==> r.value.Holds().Keys !! old(hal.Live()).Keys && hal.Live() == old(hal.Live()) + r.value.Holds()
    ensures Unit in hal.dependable ==> r.Some?
  {
    hide Hal.Live, Hal.Valid, VoiceStream.Valid, VoiceStream.Holds;
    ghost var before := hal.Live();
    r := VoiceStream.Create(hal, channel);
    if r.None? { return; }
    var stream := r.value;
    var ok := stream.Start();
    if !ok {
      ghost var holds := stream.Holds();
      stream.Drop();
      assert (before + holds) - holds.Keys == before;
      return None;
    }
    assert hal.Live() == before + stream.Holds();
  }

  method TryPlain<T>(hal: Hal, channel: Channel<T>) returns (r: Option<MicStream<T>>)
    requires hal.Valid() && channel.senders > 0
    modifies hal, channel`senders
    ensures hal.Valid() && old(hal.trace) <= hal.trace
    ensures r.None? ==> hal.Live() == old(hal.Live()) && channel.senders == old(channel.senders) - 1
    ensures r.Some? ==> fresh(r.value) && r.value.Valid() && r.value.hal == hal && r.value.channel == channel
    ensures r.Some? ==> r.value.started && r.value.sender && channel.senders == old(channel.senders)
    ensures r.Some? ==> r.value.Holds().Keys !! old(hal.Live()).Keys && hal.Live() == old(hal.Live()) + r.value.Holds()
    ensures IoProc in hal.dependable ==> r.Some?
  {
    hide Hal.Live, Hal.Valid, MicStream.Valid, MicStream.Holds;
    ghost var before := hal.Live();
    r := MicStream.Create(hal, channel);
    if r.None? { return; }
    var stream := r.value;
    var ok := stream.Start();
    if !ok {
      ghost var holds := stream.Holds();
      stream.Drop();
      assert (before + holds) - holds.Keys == before;
      return None;
    }
    assert hal.Live() == before + stream.Holds();
  }

  /**
    * The voice path first when it is asked for, the plain one when that fails. Two senders come in; the one whose
    * path is not taken is dropped with it. `handover` is what was held when the plain attempt began.
    */
  method AcquireStream<T>(aec: bool, hal: Hal, channel: Channel<T>) returns (r: Option<Stream<T>>, ghost handover: Option<Holdings>)
    requires hal.Valid() && channel.senders > 1
    modifies hal, channel`senders
    ensures hal.Valid() && old(hal.trace) <= hal.trace
    ensures handover.Some? ==> handover.value == old(hal.Live())
    ensures (r.Some? && r.value.Voice?) <==> handover.None?
    ensures r.Some? && r.value.Voice? ==> aec
    ensures aec && Unit in hal.dependable ==> r.Some? && r.value.Voice?
    ensures IoProc in hal.dependable ==> r.Some?
    ensures r.None? ==> hal.Live() == old(hal.Live()) && channel.senders == old(channel.senders) - 2
    ensures r.Some? ==> channel.senders == old(channel.senders) - 1
    ensures r.Some? && r.value.Voice? ==>
      var voice := r.value.voice;
      && fresh(voice) && voice.Valid() && voice.hal == hal && voice.channel == channel && voice.started && voice.sender
      && voice.Holds().Keys !! old(hal.Live()).Keys && hal.Live() == old(hal.Live()) + voice.Holds()
    ensures r.Some? && r.value.Plain? ==>
      var plain := r.value.plain;
      && fresh(plain) && plain.Valid() && plain.hal == hal && plain.channel == channel && plain.started && plain.sender
      && plain.Holds().Keys !! old(hal.Live()).Keys && hal.Live() == old(hal.Live()) + plain.Holds()
  {
    hide Hal.Live, Hal.Valid, MicStream.Holds, VoiceStream.Holds;
    if aec {
      var voice := TryVoice(hal, channel);
      if voice.Some? {
        channel.DropSender();
        return Some(Voice(voice.value)), None;
      }
    } else {
      channel.DropSender();
    }
    handover := Some(hal.Live());
    var plain := TryPlain(hal, channel);
    r := if plain.Some? then Some(Plain(plain.value)) else None;
  }

  // ---- The adapter ----

  class NativeMicCapture<T> {
    const hal: Hal
    const channel: Channel<T>
    const aec: bool
    var sender: bool
    var receiver: Receiver
    var started: bool
    var voice: VoiceStream?<T>
    var plain: MicStream?<T>
    ghost const others: Holdings

    ghost predicate Valid()
      reads this, hal, channel, voice, plain
    {
      && hal.Valid()
      && (voice == null || plain == null)
      && started == (voice != null || plain != null)
      && channel.open == (receiver != Dropped)
      && channel.senders == (if sender then 1 else 0) + (if started then 1 else 0)
      && (!started ==> hal.Live() == others)
      && (voice != null ==>
            && voice.hal == hal && voice.channel == channel && voice.Valid() && voice.started && voice.sender
            && voice.Holds().Keys !! others.Keys && hal.Live() == others + voice.Holds())
      && (plain != null ==>
            && plain.hal == hal && plain.channel == channel && plain.Valid() && plain.started && plain.sender
            && plain.Holds().Keys !! others.Keys && hal.Live() == others + plain.Holds())
    }

    ghost function View(): Adapter<T>
      reads this, channel
    {
      Adapter(sender, started, if channel.senders > 0 && sender then channel.senders - 1 else channel.senders, receiver,
              channel.queue, channel.sent, channel.received)
    }

    constructor (hal: Hal, aec: bool)
      requires hal.Valid()
      ensures Valid() && this.hal == hal && others == hal.Live() && fresh(channel) && View() == Fresh()
    {
      this.hal, this.aec := hal, aec;
      this.channel := new Channel();
      sender, receiver, started, voice, plain := true, Here, false, null, null;
      others := hal.Live();
    }

    method Start() returns (r: Result<(), StartError>)
      requires Valid()
      modifies this`voice, this`plain, this`started, hal, channel`senders
      ensures Valid() && old(hal.trace) <= hal.trace
      ensures r == StartAnswer(old(View()), if r.Success? then Some(1) else None)
      ensures View() == Next(old(View()), CaptureChannel.Start(if r.Success? then Some(1) else None))
      ensures r.Failure? ==> View() == old(View()) && hal.Live() == old(hal.Live())
      ensures !old(started) && voice != null ==> aec
      ensures old(sender) && !old(started) && aec && Unit in hal.dependable ==> voice != null
      ensures old(sender) && IoProc in hal.dependable ==> r.Success?
      ensures (voice == old(voice) || fresh(voice)) && (plain == old(plain) || fresh(plain))
    {
      hide Hal.Live, Hal.Valid, MicStream.Valid, MicStream.Holds, VoiceStream.Valid, VoiceStream.Holds;
      if started { return Success(()); }
      if !sender { return Failure(AfterStop); }
      channel.CloneSender();
      channel.CloneSender();
      var outcome, _ := AcquireStream(aec, hal, channel);
      match outcome
      case None => return Failure(Platform);
      case Some(Voice(stream)) =>
        voice, started := stream, true;
        return Success(());
      case Some(Plain(stream)) =>
        plain, started := stream, true;
        return Success(());
    }

    /**
      * A teardown error leaves no sender behind either: the stream goes with it. `late` is what the callback still
      * sends before the device has stopped.
      */
    method Stop(late: seq<T>) returns (ok: bool)
      requires Valid()
      modifies this`sender, this`voice, this`plain, this`started, hal, channel, voice, plain
      ensures Valid() && View() == Next(old(View()), CaptureChannel.Stop(late))
      ensures View().NoSender() && hal.Live() == others && old(hal.trace) <= hal.trace
      ensures !old(started) ==> ok && hal.trace == old(hal.trace)
      ensures old(voice) != null ==> hal.trace == old(hal.trace) + [Stopped(old(voice).UnitR(), ok)] + old(voice).Releases(true)
      ensures old(plain) != null ==> hal.trace == old(hal.trace) + [Stopped(old(plain).ProcR(), ok)] + old(plain).Releases()
      ensures {Unit, IoProc} <= hal.dependable ==> ok
    {
      hide Hal.Live, Hal.Valid, MicStream.Holds, VoiceStream.Holds;
      started := false;
      if sender {
        sender := false;
        channel.DropSender();
      }
      ok := true;
      if voice != null {
        var stream := voice;
        voice := null;
        ok := stream.EndAfter(late, others);
      } else if plain != null {
        var stream := plain;
        plain := null;
        ok := stream.EndAfter(late, others);
      }
    }

    /** What either callback does with one buffer. */
    method OnBlock(item: T)
      requires Valid() && started
      modifies channel`queue, channel`sent
      ensures Valid() && View() == Next(old(View()), WorkerSends(item))
    {
      hide Hal.Live, Hal.Valid, MicStream.Holds, VoiceStream.Holds;
      if voice != null {
        voice.Deliver([item]);
      } else {
        plain.Deliver([item]);
      }
    }

    /** Answers whether the stream handed out is the real one; every other is empty. */
    method Frames() returns (live: bool)
      requires Valid()
      modifies this`receiver
      ensures Valid() && View() == Next(old(View()), CaptureChannel.Frames)
      ensures live == (old(receiver) == Here)
    {
      live := receiver == Here;
      if live {
        receiver := Streaming;
      }
    }

    /** One poll of the stream by its consumer. */
    method Poll() returns (r: Polled<T>)
      requires Valid() && receiver == Streaming
      modifies channel`queue, channel`received
      ensures Valid() && View() == Next(old(View()), CaptureChannel.Poll)
      ensures r.Done? <==> old(View()).Ended()
      ensures r.Item? ==> View().received == old(View()).received + [r.item]
    {
      hide Hal.Live, Hal.Valid, MicStream.Holds, VoiceStream.Holds;
      r := channel.Receive();
    }

    method DropStream()
      requires Valid() && receiver == Streaming
      modifies this`receiver, channel`queue, channel`open
      ensures Valid() && View() == Next(old(View()), CaptureChannel.DropStream)
    {
      hide Hal.Live, Hal.Valid, MicStream.Holds, VoiceStream.Holds;
      receiver := Dropped;
      channel.CloseReceiver();
    }
  }

  /** What can happen to this adapter: it has no hooks for tests, and each stream keeps its one sender. */
  predicate CanHappen<T>(op: Op<T>) {
    op.Start? || op.Stop? || op.Frames? || op.WorkerSends? || op.Poll? || op.DropStream?
  }

  /**
    * A whole life of the adapter, in calls and callbacks of any order, over either stream: it ends where the machine
    * does that makes the same steps.
    */
  method Drive<T(!new)>(hal: Hal, aec: bool, script: seq<Op<T>>)
    returns (capture: NativeMicCapture<T>, ghost ops: seq<Op<T>>)
    requires hal.Valid() && forall op | op in script :: CanHappen(op)
    modifies hal
    ensures capture.Valid() && Follows(ops, script) && capture.View() == Run(Fresh(), ops)
    ensures old(hal.trace) <= hal.trace
  {
    hide NativeMicCapture.Valid, Next, Run, Hal.Live, Hal.Valid;
    capture := new NativeMicCapture(hal, aec);
    ops := [];
    NothingRun<T>();
    for i := 0 to |script|
      invariant fresh(capture) && fresh(capture.channel)
      invariant (capture.voice != null ==> fresh(capture.voice)) && (capture.plain != null ==> fresh(capture.plain))
      invariant capture.hal == hal && capture.Valid() && old(hal.trace) <= hal.trace
      invariant Follows(ops, script[..i]) && capture.View() == Run(Fresh(), ops)
    {
      ghost var op := Step(capture, script[i]);
      RunOneMore(Fresh(), ops, op);
      ops := ops + [op];
    }
    assert script[..|script|] == script;
  }

  method Step<T>(capture: NativeMicCapture<T>, planned: Op<T>) returns (ghost op: Op<T>)
    requires capture.Valid() && CanHappen(planned)
    modifies capture, capture.hal, capture.channel, capture.voice, capture.plain
    ensures capture.Valid() && capture.View() == Next(old(capture.View()), op)
    ensures op == planned || (op.Start? && planned.Start?)
    ensures capture.voice == null || capture.voice == old(capture.voice) || fresh(capture.voice)
    ensures capture.plain == null || capture.plain == old(capture.plain) || fresh(capture.plain)
    ensures old(capture.hal.trace) <= capture.hal.trace
  {
    hide Hal.Live, Hal.Valid, MicStream.Valid, MicStream.Holds, VoiceStream.Valid, VoiceStream.Holds;
    op := planned;
    match planned
    case Start(_) =>
      var r := capture.Start();
      op := CaptureChannel.Start(if r.Success? then Some(1) else None);
    case Stop(late) => var _ := capture.Stop(late);
    case Frames => var _ := capture.Frames();
    case WorkerSends(item) => if capture.started { capture.OnBlock(item); }
    case Poll => if capture.receiver == Streaming { var _ := capture.Poll(); }
    case DropStream => if capture.receiver == Streaming { capture.DropStream(); }
  }
}
