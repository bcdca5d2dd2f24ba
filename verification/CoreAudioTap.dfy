/** The process tap: three Core Audio resources and a callback block under one owner (scrybe-capture-mac/src/coreaudio_tap.rs). */
module CoreAudioTap {
  import opened Wrappers
  import opened CoreAudio
  import opened CaptureChannel

  /** What may be asked of a stream between its creation and its end. */
  datatype Call = CallStart | CallStop

  class TapStream<T> {
    const hal: Hal
    const channel: Channel<T>
    const tapId: nat
    const aggregateId: nat
    const blockId: nat
    const procId: nat
    var started: bool
    /** The cell shared with the callback block still holds the sender. */
    var sender: bool

    function TapR(): Resource { Resource(Tap, tapId) }
    function AggregateR(): Resource { Resource(Aggregate, aggregateId) }
    function BlockR(): Resource { Resource(Block, blockId) }
    function ProcR(): Resource { Resource(IoProc, procId) }

    /** What the stream holds: the IO proc calls the block on the aggregate, and the aggregate reads the tap. */
    ghost function Holds(): Holdings
      reads this
    {
      map[TapR() := Hold({}, false, false),
          AggregateR() := Hold({TapR()}, false, false),
          BlockR() := Hold({}, false, false),
          ProcR() := Hold({AggregateR(), BlockR()}, false, started)]
    }

    ghost predicate Valid()
      reads this, hal, channel
    {
      && hal.Valid()
      && Holds().Keys <= hal.Live().Keys
      && (forall r | r in Holds() :: hal.Live()[r] == Holds()[r])
      && (forall r | r in hal.Live() && r !in Holds() :: hal.Live()[r].uses !! Holds().Keys)
      && (sender ==> channel.senders > 0)
    }

    constructor Own(hal: Hal, channel: Channel<T>, tapId: nat, aggregateId: nat, blockId: nat, procId: nat)
      ensures this.hal == hal && this.channel == channel && this.tapId == tapId && this.aggregateId == aggregateId
      ensures this.blockId == blockId && this.procId == procId && !started && sender
    {
      this.hal, this.channel, this.tapId, this.aggregateId := hal, channel, tapId, aggregateId;
      this.blockId, this.procId, started, sender := blockId, procId, false, true;
    }

    /**
      * Takes the tap, the aggregate and the IO proc in turn, over the given sender. Whatever fails, everything
      * taken so far is given back, last first, and the sender is dropped.
      */
    static method Create(hal: Hal, channel: Channel<T>) returns (r: Option<TapStream<T>>)
      requires hal.Valid() && channel.senders > 0
      modifies hal, channel`senders
      ensures hal.Valid() && old(hal.trace) <= hal.trace
      ensures r.None? ==> hal.Live() == old(hal.Live()) && channel.senders == old(channel.senders) - 1
      ensures r.Some? ==> fresh(r.value) && r.value.Valid() && r.value.hal == hal && r.value.channel == channel
      ensures r.Some? ==> !r.value.started && r.value.sender && channel.senders == old(channel.senders)
      ensures r.Some? ==> r.value.Holds().Keys !! old(hal.Live()).Keys && hal.Live() == old(hal.Live()) + r.value.Holds()
      ensures {Tap, Aggregate, IoProc} <= hal.dependable ==> r.Some?
    {
      hide Hal.Live, Hal.Valid, InUse, Closed, TapStream.Valid, TapStream.Holds;
      ghost var before := hal.Live();
      hal.IsClosed();
      var tap := hal.Create(Tap, {});
      if tap.None? { channel.DropSender(); return None; }
      ghost var tapped := hal.Live();
      hal.IsClosed();
      var readable := hal.Ask(Tap);  // the tap's UID, its format, its channel count, and the output device
      if !readable {
        hal.GiveBack(Resource(Tap, tap.value), before);
        channel.DropSender();
        return None;
      }
      var aggregate := hal.Create(Aggregate, {Resource(Tap, tap.value)});
      if aggregate.None? {
        hal.GiveBack(Resource(Tap, tap.value), before);
        channel.DropSender();
        return None;
      }
      ghost var aggregated := hal.Live();
      hal.IsClosed();
      var block := hal.Allocate(Block, {});
      var proc := hal.Create(IoProc, {Resource(Aggregate, aggregate.value), Resource(Block, block)});
      if proc.None? {
        hal.GiveBack(Resource(Block, block), aggregated);
        hal.GiveBack(Resource(Aggregate, aggregate.value), tapped);
        hal.GiveBack(Resource(Tap, tap.value), before);
        channel.DropSender();
        return None;
      }
      var stream := new TapStream.Own(hal, channel, tap.value, aggregate.value, block, proc.value);
      stream.OwnsWhatIsNew(before);
      return Some(stream);
    }

    lemma OwnsWhatIsNew(before: Holdings)
      requires hal.Valid() && channel.senders > 0 && Closed(before) && !started
      requires TapR() !in before && AggregateR() !in before && BlockR() !in before && ProcR() !in before
      requires hal.Live() == before[TapR() := Hold({}, false, false)][AggregateR() := Hold({TapR()}, false, false)]
                                   [BlockR() := Hold({}, false, false)][ProcR() := Hold({AggregateR(), BlockR()}, false, false)]
      ensures Valid() && Holds().Keys !! before.Keys && hal.Live() == before + Holds()
    {
      hide Hal.Live, Hal.Valid;
      assert hal.Live() == before + Holds();
    }

    method Start() returns (ok: bool)
      requires Valid()
      modifies this`started, hal
      ensures Valid() && hal.Valid() && old(hal.trace) <= hal.trace
      ensures started == (old(started) || ok) && (old(started) ==> ok)
      ensures hal.trace == old(hal.trace) + (if started && !old(started) then [Started(ProcR())] else [])
      ensures IoProc in hal.dependable ==> ok
      ensures hal.Live() == old(hal.Live()) + Holds() && Holds().Keys == old(Holds().Keys)
    {
      hide Hal.Live, Hal.Valid;
      if started { return true; }
      ok := hal.Start(ProcR());
      if ok { started := true; }
    }

    /** Detaches the sender whatever the device answers. */
    method Stop() returns (ok: bool)
      requires Valid()
      modifies this`started, this`sender, hal, channel`senders
      ensures Valid() && !started && !sender && old(hal.trace) <= hal.trace
      ensures channel.senders == old(channel.senders) - (if old(sender) then 1 else 0)
      ensures hal.Live() == old(hal.Live()) + Holds() && Holds().Keys == old(Holds().Keys)
      ensures hal.trace == old(hal.trace) + (if old(started) then [Stopped(ProcR(), ok)] else []) && (!old(started) ==> ok)
      ensures IoProc in hal.dependable ==> ok
    {
      hide Hal.Live, Hal.Valid;
      ok := true;
      if started {
        ok := hal.Stop(ProcR());
        started := false;
      }
      if sender {
        sender := false;
        channel.DropSender();
      }
    }

    /** Each resource is free to go once its users have gone. */
    lemma FreeInTurn(live: Holdings, holds: Holdings)
      requires holds == Holds() && holds.Keys <= live.Keys && !started
      requires forall r | r in holds :: live[r] == holds[r]
      requires forall r | r in live && r !in holds :: live[r].uses !! holds.Keys
      ensures !InUse(live, ProcR())
      ensures !InUse(live - {ProcR()}, AggregateR())
      ensures !InUse(live - {ProcR()} - {AggregateR()}, TapR())
      ensures !InUse(live - {ProcR()} - {AggregateR()} - {TapR()}, BlockR())
    {}

    /** What a drop gives back, users first. */
    ghost function Releases(): seq<Event> {
      [Released(Resource(IoProc, procId)), Released(Resource(Aggregate, aggregateId)), Released(Resource(Tap, tapId)),
       Released(Resource(Block, blockId))]
    }

    /** The destroying calls, users first. */
    method DestroyHeld()
      requires Valid() && !started
      modifies hal
      ensures hal.Valid() && hal.trace == old(hal.trace) + Releases()
      ensures hal.Live() == old(hal.Live()) - Holds().Keys
    {
      hide Hal.Live, Hal.Valid;
      ghost var live := hal.Live();
      FreeInTurn(live, Holds());
      assert Holds().Keys == {ProcR(), AggregateR(), TapR(), BlockR()};
      hide InUse;
      hal.Destroy(ProcR());
      hal.Destroy(AggregateR());
      hal.Destroy(TapR());
      hal.Destroy(BlockR());
    }

    /** The destructor, and the fields after it. */
    method Drop()
      requires Valid()
      modifies this`started, this`sender, hal, channel`senders
      ensures hal.Valid() && !started && !sender && old(hal.trace) <= hal.trace
      ensures !old(started) ==> hal.trace == old(hal.trace) + Releases()
      ensures old(started) ==> exists ok :: hal.trace == old(hal.trace) + [Stopped(ProcR(), ok)] + Releases()
      ensures hal.Live() == old(hal.Live()) - old(Holds().Keys)
      ensures channel.senders == old(channel.senders) - (if old(sender) then 1 else 0)
    {
      hide Hal.Live, Hal.Valid;
      if started {
        var _ := hal.Stop(ProcR());
        started := false;
      }
      DestroyHeld();
      if sender {
        sender := false;
        channel.DropSender();
      }
    }

    /** Stops the stream and drops it, whatever stopping answers, and passes that answer on. */
    method End(ghost others: Holdings) returns (ok: bool)
      requires Valid() && Holds().Keys !! others.Keys && hal.Live() == others + Holds()
      modifies this`started, this`sender, hal, channel`senders
      ensures hal.Valid() && hal.Live() == others && old(hal.trace) <= hal.trace
      ensures hal.trace == old(hal.trace) + (if old(started) then [Stopped(ProcR(), ok)] else []) + Releases()
      ensures (!old(started) ==> ok) && (IoProc in hal.dependable ==> ok)
      ensures channel.senders == old(channel.senders) - (if old(sender) then 1 else 0)
    {
      hide Hal.Live, Hal.Valid, Valid, Holds;
      ok := Stop();
      ghost var holds := Holds();
      Drop();
      assert (others + holds) - holds.Keys == others;
    }

    /** The IO block: sends each buffer while the cell holds the sender. */
    method Deliver(items: seq<T>)
      requires Valid()
      modifies channel`queue, channel`sent
      ensures Valid() && old(channel.received) == channel.received
      ensures sender && channel.open ==> channel.queue == old(channel.queue) + items && channel.sent == old(channel.sent) + items
      ensures !sender || !channel.open ==> channel.queue == old(channel.queue) && channel.sent == old(channel.sent)
    {
      hide Hal.Live, Hal.Valid;
      if sender {
        channel.SendAll(items);
      }
    }
  }

  /**
    * Any life of a tap: created, started and stopped in any order, dropped. Whatever fails on the way, it ends
    * holding nothing it did not hold before, and the trace has kept the discipline throughout.
    */
  method Life<T>(hal: Hal, channel: Channel<T>, calls: seq<Call>)
    requires hal.Valid() && channel.senders > 0
    modifies hal, channel
    ensures hal.Valid() && hal.Live() == old(hal.Live()) && old(hal.trace) <= hal.trace
    ensures channel.senders == old(channel.senders) - 1
  {
    hide Hal.Live, Hal.Valid, TapStream.Valid, TapStream.Holds;
    var created := TapStream.Create(hal, channel);
    if created.None? { return; }
    var stream := created.value;
    ghost var held := stream.Holds().Keys;
    ghost var before := old(hal.Live());
    for i := 0 to |calls|
      invariant stream.Valid() && old(hal.trace) <= hal.trace && stream.Holds().Keys == held
      invariant held !! before.Keys && hal.Live() == before + stream.Holds()
      invariant channel.senders == old(channel.senders) - (if stream.sender then 0 else 1)
    {
      if calls[i] == CallStart {
        var _ := stream.Start();
      } else {
        var _ := stream.Stop();
      }
    }
    ghost var holds := stream.Holds();
    stream.Drop();
    assert (before + holds) - held == before;
  }
}
