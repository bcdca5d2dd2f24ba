/** The default-microphone adapter, whose second sender owner is a thread (scrybe-capture-mic/src/lib.rs). */
module MicCapture {
  import opened Wrappers
  import opened CaptureChannel

  /** Looking for a device, running its stream until told to stop, or gone. */
  datatype Phase = Opening | Running | Exited

  /** The capture thread. It owns one sender, and while its stream runs the stream's two callbacks own one each. */
  class CaptureThread<T> {
    const channel: Channel<T>
    var phase: Phase
    /** The other end of the stop channel has been dropped. */
    var stopping: bool

    function Handles(): nat
      reads this
    {
      match phase
      case Opening => 1
      case Running => 3
      case Exited => 0
    }

    constructor (channel: Channel<T>)
      ensures this.channel == channel && phase == Opening && !stopping
    {
      this.channel, phase, stopping := channel, Opening, false;
    }

    /** Builds and plays the stream; on any failure reports it through the channel and ends. */
    method Open(failure: Option<T>)
      requires phase == Opening && channel.senders >= Handles()
      modifies this`phase, channel`senders, channel`queue, channel`sent
      ensures channel.senders == old(channel.senders) - old(Handles()) + Handles()
      ensures phase == if failure.Some? then Exited else Running
      ensures failure.Some? && channel.open ==>
        channel.queue == old(channel.queue) + [failure.value] && channel.sent == old(channel.sent) + [failure.value]
      ensures failure.None? || !channel.open ==> channel.queue == old(channel.queue) && channel.sent == old(channel.sent)
    {
      if failure.Some? {
        channel.Send(failure.value);
        channel.DropSender();
        phase := Exited;
      } else {
        channel.CloneSender();
        channel.CloneSender();
        phase := Running;
      }
    }

    /** A callback of the stream, with samples or with an error. */
    method Callback(item: T)
      requires phase == Running && channel.senders > 0
      modifies channel`queue, channel`sent
      ensures channel.open ==> channel.queue == old(channel.queue) + [item] && channel.sent == old(channel.sent) + [item]
      ensures !channel.open ==> channel.queue == old(channel.queue) && channel.sent == old(channel.sent)
    {
      channel.Send(item);
    }

    /**
      * `join` once the stop channel is closed: a thread still opening finishes opening, a running stream may still
      * deliver, the next poll of the stop channel ends the wait, and the stream and the thread drop their senders.
      */
    method RunToEnd(late: seq<T>)
      requires stopping && phase != Exited && channel.senders >= Handles()
      modifies this`phase, channel`senders, channel`queue, channel`sent
      ensures phase == Exited && channel.senders == old(channel.senders) - old(Handles())
      ensures channel.open ==> channel.queue == old(channel.queue) + late && channel.sent == old(channel.sent) + late
      ensures !channel.open ==> channel.queue == old(channel.queue) && channel.sent == old(channel.sent)
    {
      if phase == Opening {
        if |late| == 1 {
          var failed: bool := *;
          if failed {
            assert late == [late[0]];
            Open(Some(late[0]));
            return;
          }
        }
        Open(None);
      }
      channel.SendAll(late);
      channel.DropSender();
      channel.DropSender();
      channel.DropSender();
      phase := Exited;
    }
  }

  class MicCapture<T> {
    const channel: Channel<T>
    var sender: bool
    var receiver: Receiver
    var started: bool
    var thread: CaptureThread?<T>

    ghost predicate Valid()
      reads this, channel, thread
    {
      && started == (thread != null)
      && channel.open == (receiver != Dropped)
      && (thread != null ==> thread.channel == channel && !thread.stopping)
      && channel.senders == (if sender then 1 else 0) + (if thread != null then thread.Handles() else 0)
    }

    ghost function View(): Adapter<T>
      reads this, channel, thread
    {
      Adapter(sender, started, if thread != null then thread.Handles() else 0, receiver,
              channel.queue, channel.sent, channel.received)
    }

    constructor ()
      ensures Valid() && fresh(channel) && View() == Fresh()
    {
      channel := new Channel();
      sender, receiver, started, thread := true, Here, false, null;
    }

    /** Spawns the thread, if the system lets it, over a sender of its own; the thread then fails or succeeds by itself. */
    method Start(spawns: bool) returns (r: Result<(), StartError>)
      requires Valid()
      modifies this`thread, this`started, channel`senders
      ensures Valid()
      ensures r == StartAnswer(old(View()), if spawns then Some(1) else None)
      ensures View() == Next(old(View()), CaptureChannel.Start(if spawns then Some(1) else None))
      ensures r.Failure? ==> View() == old(View())
      ensures thread == old(thread) || fresh(thread)
    {
      if started { return Success(()); }
      if !sender { return Failure(AfterStop); }
      channel.CloneSender();
      if !spawns {
        channel.DropSender();
        return Failure(Platform);
      }
      thread := new CaptureThread(channel);
      started := true;
      return Success(());
    }

    /** Closes the stop channel and waits for the thread; it never fails. */
    method Stop(late: seq<T>)
      requires Valid()
      modifies this`sender, this`thread, this`started, channel, thread
      ensures Valid() && View() == Next(old(View()), CaptureChannel.Stop(late)) && View().NoSender()
    {
      started := false;
      if sender {
        sender := false;
        channel.DropSender();
      }
      if thread != null {
        var handle := thread;
        thread := null;
        handle.stopping := true;
        if handle.phase != Exited {
          handle.RunToEnd(late);
        }
      }
    }

    /** The thread opens its stream, or reports why it cannot and ends; the adapter is not told. */
    method ThreadOpens(failure: Option<T>)
      requires Valid() && thread != null && thread.phase == Opening
      modifies thread`phase, channel`senders, channel`queue, channel`sent
      ensures Valid()
      ensures failure.None? ==> View() == Next(old(View()), WorkerHolds(3))
      ensures failure.Some? ==> View() == Next(Next(old(View()), WorkerSends(failure.value)), WorkerHolds(0))
    {
      thread.Open(failure);
    }

    method ThreadCallback(item: T)
      requires Valid() && thread != null && thread.phase == Running
      modifies channel`queue, channel`sent
      ensures Valid() && View() == Next(old(View()), WorkerSends(item))
    {
      thread.Callback(item);
    }

    method InjectForTest(item: T)
      requires Valid()
      modifies channel`queue, channel`sent
      ensures Valid() && View() == Next(old(View()), Inject(item))
    {
      if sender {
        channel.Send(item);
      }
    }

    method CloseForTest()
      requires Valid()
      modifies this`sender, channel`senders
      ensures Valid() && View() == Next(old(View()), Close)
    {
      if sender {
        sender := false;
        channel.DropSender();
      }
    }

    /** Answers whether the stream handed out is the real one; every other is empty. */
    method Frames() returns (live: bool)
      requires Valid()
      modifies this`receiver
      ensures Valid() && View() == Next(old(View()), CaptureChannel.Frames)
      ensures live == (old(receiver) == Here)
    {
      live := receiver == Here;
      if live {
        receiver := Streaming;
      }
    }

    /** One poll of the stream by its consumer. */
    method Poll() returns (r: Polled<T>)
      requires Valid() && receiver == Streaming
      modifies channel`queue, channel`received
      ensures Valid() && View() == Next(old(View()), CaptureChannel.Poll)
      ensures r.Done? <==> old(View()).Ended()
      ensures r.Item? ==> View().received == old(View()).received + [r.item]
    {
      r := channel.Receive();
    }

    method DropStream()
      requires Valid() && receiver == Streaming
      modifies this`receiver, channel`queue, channel`open
      ensures Valid() && View() == Next(old(View()), CaptureChannel.DropStream)
    {
      receiver := Dropped;
      channel.CloseReceiver();
    }
  }

  // ---- Whole lives ----

  /** What happens next: a call of the adapter, or a step of its thread. */
  datatype Event<T> = Calls(op: Op<T>) | Opens(failure: Option<T>) | Delivers(item: T)
  {
    /** A call from outside; what a start is told is whether the system spawns the thread. */
    predicate CanHappen() {
      Calls? ==> !op.WorkerSends? && !op.WorkerHolds? && (op.Start? ==> op.handles == None || op.handles == Some(1))
    }
  }

  /** The steps of the machine in which an event shows. The thread opens once, and only its running stream delivers. */
  function Steps<T>(a: Adapter<T>, event: Event<T>): seq<Op<T>> {
    match event
    case Calls(op) => [op]
    case Opens(failure) =>
      if a.workers != 1 then [] else if failure.None? then [WorkerHolds(3)] else [WorkerSends(failure.value), WorkerHolds(0)]
    case Delivers(item) => if a.workers != 3 then [] else [WorkerSends(item)]
  }

  function AllSteps<T>(a: Adapter<T>, script: seq<Event<T>>): seq<Op<T>>
    decreases |script|
  {
    if script == [] then [] else Steps(a, script[0]) + AllSteps(Run(a, Steps(a, script[0])), script[1..])
  }

  /**
    * A whole life of the adapter and its thread, in events of any order: it ends where the machine does that makes the
    * same steps. An event that nobody can make happen at its turn does not happen.
    */
  method Drive<T>(script: seq<Event<T>>) returns (capture: MicCapture<T>)
    requires forall event | event in script :: event.CanHappen()
    ensures capture.Valid() && capture.View() == Run(Fresh(), AllSteps(Fresh(), script))
  {
    hide MicCapture.Valid, Next, Run, Steps, AllSteps, Event.CanHappen;
    capture := new MicCapture();
    ghost var end := Run(Fresh(), AllSteps(Fresh(), script));
    assert script[0..] == script;
    for i := 0 to |script|
      invariant fresh(capture) && fresh(capture.channel) && (capture.thread != null ==> fresh(capture.thread))
      invariant capture.Valid() && Run(capture.View(), AllSteps(capture.View(), script[i..])) == end
    {
      OneEventMore(capture.View(), script[i..]);
      assert script[i..][1..] == script[i + 1..];
      Happens(capture, script[i]);
    }
    assert script[|script|..] == [];
    NoMoreEvents(capture.View());
  }

  lemma OneEventMore<T>(a: Adapter<T>, script: seq<Event<T>>)
    requires script != []
    ensures var b := Run(a, Steps(a, script[0])); Run(a, AllSteps(a, script)) == Run(b, AllSteps(b, script[1..]))
  {
    hide Run, Steps;
    RunInTwo(a, Steps(a, script[0]), AllSteps(Run(a, Steps(a, script[0])), script[1..]));
  }

  lemma NoMoreEvents<T>(a: Adapter<T>)
    ensures Run(a, AllSteps(a, [])) == a
  {}

  method Happens<T>(capture: MicCapture<T>, event: Event<T>)
    requires capture.Valid() && event.CanHappen()
    modifies capture, capture.channel, capture.thread
    ensures capture.Valid() && capture.View() == Run(old(capture.View()), Steps(old(capture.View()), event))
    ensures capture.thread == null || capture.thread == old(capture.thread) || fresh(capture.thread)
  {
    hide Run;
    ghost var a := capture.View();
    OneStep(a, event);
    match event
    case Calls(op) => Call(capture, op);
    case Opens(failure) =>
      if capture.thread != null && capture.thread.phase == Opening { capture.ThreadOpens(failure); }
    case Delivers(item) =>
      if capture.thread != null && capture.thread.phase == Running { capture.ThreadCallback(item); }
  }

  lemma OneStep<T>(a: Adapter<T>, event: Event<T>)
    ensures event.Calls? ==> Run(a, Steps(a, event)) == Next(a, event.op)
    ensures event.Opens? && a.workers == 1 ==>
      Run(a, Steps(a, event)) == if event.failure.None? then Next(a, WorkerHolds(3))
                                 else Next(Next(a, WorkerSends(event.failure.value)), WorkerHolds(0))
    ensures event.Opens? && a.workers != 1 ==> Run(a, Steps(a, event)) == a
    ensures event.Delivers? ==> Run(a, Steps(a, event)) == if a.workers != 3 then a else Next(a, WorkerSends(event.item))
  {
    hide Next;
    forall op: Op<T>, b: Adapter<T>
      ensures Run(b, [op]) == Next(b, op)
    {
      assert [op][1..] == [];
    }
    if event.Opens? && event.failure.Some? {
      var first, second := WorkerSends(event.failure.value), WorkerHolds(0);
      assert [first, second][1..] == [second];
    }
  }

  method Call<T>(capture: MicCapture<T>, op: Op<T>)
    requires capture.Valid() && Calls(op).CanHappen()
    modifies capture, capture.channel, capture.thread
    ensures capture.Valid() && capture.View() == Next(old(capture.View()), op)
    ensures capture.thread == null || capture.thread == old(capture.thread) || fresh(capture.thread)
  {
    match op
    case Start(handles) => var _ := capture.Start(handles.Some?);
    case Stop(late) => capture.Stop(late);
    case Inject(item) => capture.InjectForTest(item);
    case Close => capture.CloseForTest();
    case Frames => var _ := capture.Frames();
    case Poll => if capture.receiver == Streaming { var _ := capture.Poll(); }
    case DropStream => if capture.receiver == Streaming { capture.DropStream(); }
  }
}
