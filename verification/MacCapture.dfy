/** The system-audio adapter over one process tap (scrybe-capture-mac/src/lib.rs). */
module MacCapture {
  import opened Wrappers
  import opened CoreAudio
  import opened CaptureChannel
  import opened CoreAudioTap

  class MacCapture<T> {
    const hal: Hal
    const channel: Channel<T>
    var sender: bool
    var receiver: Receiver
    var started: bool
    var tap: TapStream?<T>
    /** What is held of Core Audio beside this adapter. */
    ghost const others: Holdings

    ghost predicate Valid()
      reads this, hal, channel, tap
    {
      && hal.Valid()
      && started == (tap != null)
      && channel.open == (receiver != Dropped)
      && channel.senders == (if sender then 1 else 0) + (if tap != null then 1 else 0)
      && (tap == null ==> hal.Live() == others)
      && (tap != null ==>
            && tap.hal == hal && tap.channel == channel && tap.Valid() && tap.started && tap.sender
            && tap.Holds().Keys !! others.Keys && hal.Live() == others + tap.Holds())
    }

    /** The adapter as its users see it. */
    ghost function View(): Adapter<T>
      reads this, channel
    {
      Adapter(sender, started, if channel.senders > 0 && sender then channel.senders - 1 else channel.senders, receiver,
              channel.queue, channel.sent, channel.received)
    }

    constructor (hal: Hal)
      requires hal.Valid()
      ensures Valid() && this.hal == hal && others == hal.Live() && fresh(channel) && View() == Fresh()
    {
      this.hal := hal;
      this.channel := new Channel();
      sender, receiver, started, tap := true, Here, false, null;
      others := hal.Live();
    }

    /** A failed start leaves the adapter, and what is held of Core Audio, as they were. */
    method Start() returns (r: Result<(), StartError>)
      requires Valid()
      modifies this`tap, this`started, hal, channel`senders
      ensures Valid() && old(hal.trace) <= hal.trace
      ensures r == StartAnswer(old(View()), if r.Success? then Some(1) else None)
      ensures View() == Next(old(View()), CaptureChannel.Start(if r.Success? then Some(1) else None))
      ensures r.Failure? ==> View() == old(View()) && hal.Live() == old(hal.Live())
      ensures old(sender) && {Tap, Aggregate, IoProc} <= hal.dependable ==> r.Success?
      ensures tap == old(tap) || fresh(tap)
    {
      hide Hal.Live, Hal.Valid, TapStream.Valid, TapStream.Holds;
      if started { return Success(()); }
      if !sender { return Failure(AfterStop); }
      channel.CloneSender();
      var created := TapStream.Create(hal, channel);
      if created.None? { return Failure(Platform); }
      var stream := created.value;
      var ok := stream.Start();
      if !ok {
        ghost var holds := stream.Holds();
        stream.Drop();
        assert (others + holds) - holds.Keys == others;
        return Failure(Platform);
      }
      assert hal.Live() == others + stream.Holds();
      tap := stream;
      started := true;
      return Success(());
    }

    /** `late` is what the IO block still sends before the device has stopped. */
    method Stop(late: seq<T>) returns (ok: bool)
      requires Valid()
      modifies this`sender, this`tap, this`started, hal, channel, tap
      ensures Valid() && View() == Next(old(View()), CaptureChannel.Stop(late))
      ensures View().NoSender() && hal.Live() == others && old(hal.trace) <= hal.trace
      ensures old(tap) == null ==> ok && hal.trace == old(hal.trace)
      ensures old(tap) != null ==> hal.trace == old(hal.trace) + [Stopped(old(tap).ProcR(), ok)] + old(tap).Releases()
      ensures IoProc in hal.dependable ==> ok
    {
      hide Hal.Live, Hal.Valid, TapStream.Holds;
      started := false;
      if sender {
        sender := false;
        channel.DropSender();
      }
      ok := true;
      if tap != null {
        var stream := tap;
        tap := null;
        stream.Deliver(late);
        ok := stream.End(others);
      }
    }

    /** What the IO block does with one buffer. */
    method OnBlock(item: T)
      requires Valid() && tap != null
      modifies channel`queue, channel`sent
      ensures Valid() && View() == Next(old(View()), WorkerSends(item))
    {
      hide Hal.Live, Hal.Valid;
      tap.Deliver([item]);
    }

    method InjectForTest(item: T)
      requires Valid()
      modifies channel`queue, channel`sent
      ensures Valid() && View() == Next(old(View()), Inject(item))
    {
      hide Hal.Live, Hal.Valid;
      if sender {
        channel.Send(item);
      }
    }

    method CloseForTest()
      requires Valid()
      modifies this`sender, channel`senders
      ensures Valid() && View() == Next(old(View()), Close)
    {
      hide Hal.Live, Hal.Valid;
      if sender {
        sender := false;
        channel.DropSender();
      }
    }

    /** Answers whether the stream handed out is the real one; every other is empty. */
    method Frames() returns (live: bool)
      requires Valid()
      modifies this`receiver
      ensures Valid() && View() == Next(old(View()), CaptureChannel.Frames)
      ensures live == (old(receiver) == Here)
    {
      live := receiver == Here;
      if live {
        receiver := Streaming;
      }
    }

    /** One poll of the stream by its consumer. */
    method Poll() returns (r: Polled<T>)
      requires Valid() && receiver == Streaming
      modifies channel`queue, channel`received
      ensures Valid() && View() == Next(old(View()), CaptureChannel.Poll)
      ensures r.Done? <==> old(View()).Ended()
      ensures r.Item? ==> View().received == old(View()).received + [r.item]
    {
      hide Hal.Live, Hal.Valid;
      r := channel.Receive();
    }

    method DropStream()
      requires Valid() && receiver == Streaming
      modifies this`receiver, channel`queue, channel`open
      ensures Valid() && View() == Next(old(View()), CaptureChannel.DropStream)
    {
      hide Hal.Live, Hal.Valid;
      receiver := Dropped;
      channel.CloseReceiver();
    }
  }

  /**
    * A whole life of the adapter, in calls and callbacks of any order: it ends where the machine does that makes the
    * same steps. A step that nobody can make at its turn is not made, and the machine stands still.
    */
  method Drive<T(!new)>(hal: Hal, script: seq<Op<T>>) returns (capture: MacCapture<T>, ghost ops: seq<Op<T>>)
    requires hal.Valid() && forall op | op in script :: !op.WorkerHolds?
    modifies hal
    ensures capture.Valid() && Follows(ops, script) && capture.View() == Run(Fresh(), ops)
    ensures old(hal.trace) <= hal.trace
  {
    hide MacCapture.Valid, Next, Run, Hal.Live, Hal.Valid;
    capture := new MacCapture(hal);
    ops := [];
    NothingRun<T>();
    for i := 0 to |script|
      invariant fresh(capture) && fresh(capture.channel) && (capture.tap != null ==> fresh(capture.tap))
      invariant capture.hal == hal && capture.Valid() && old(hal.trace) <= hal.trace
      invariant Follows(ops, script[..i]) && capture.View() == Run(Fresh(), ops)
    {
      ghost var op := Step(capture, script[i]);
      RunOneMore(Fresh(), ops, op);
      ops := ops + [op];
    }
    assert script[..|script|] == script;
  }

  method Step<T>(capture: MacCapture<T>, planned: Op<T>) returns (ghost op: Op<T>)
    requires capture.Valid() && !planned.WorkerHolds?
    modifies capture, capture.hal, capture.channel, capture.tap
    ensures capture.Valid() && capture.View() == Next(old(capture.View()), op)
    ensures op == planned || (op.Start? && planned.Start?)
    ensures capture.tap == null || capture.tap == old(capture.tap) || fresh(capture.tap)
    ensures old(capture.hal.trace) <= capture.hal.trace
  {
    hide Hal.Live, Hal.Valid, TapStream.Valid, TapStream.Holds;
    op := planned;
    match planned
    case Start(_) =>
      var r := capture.Start();
      op := CaptureChannel.Start(if r.Success? then Some(1) else None);
    case Stop(late) => var _ := capture.Stop(late);
    case Inject(item) => capture.InjectForTest(item);
    case Close => capture.CloseForTest();
    case Frames => var _ := capture.Frames();
    case WorkerSends(item) => if capture.tap != null { capture.OnBlock(item); }
    case Poll => if capture.receiver == Streaming { var _ := capture.Poll(); }
    case DropStream => if capture.receiver == Streaming { capture.DropStream(); }
  }
}
