/** The one-shot frame channel every capture adapter is built around, as a state machine over its operations. */
module CaptureChannel {
  import opened Wrappers

  /** Where the only receiving end is. */
  datatype Receiver = Here | Streaming | Dropped

  /**
    * An adapter seen from outside: whether it still owns a sender, how many the platform's callback side owns,
    * and what has gone through the channel.
    */
  datatype Adapter<T> = Adapter(sender: bool, started: bool, workers: nat, receiver: Receiver,
                                queue: seq<T>, sent: seq<T>, received: seq<T>)
  {
    predicate NoSender() {
      !sender && workers == 0
    }

    /** The stream has nothing left and nothing more to come. */
    predicate Ended() {
      receiver == Streaming && queue == [] && NoSender()
    }

    /** A sent item is queued unless the receiving end is gone. */
    function Send(items: seq<T>): Adapter<T> {
      if receiver == Dropped then this else this.(queue := queue + items, sent := sent + items)
    }
  }

  function Fresh<T>(): Adapter<T> {
    Adapter(true, false, 0, Here, [], [], [])
  }

  datatype Op<T> =
    | Start(handles: Option<nat>)   // the senders the platform side took, or nothing when it failed
    | Stop(late: seq<T>)            // with what the platform side still sends before it is gone
    | Inject(item: T)
    | Close
    | Frames
    | WorkerSends(item: T)
    | WorkerHolds(kept: nat)     // the platform side clones or drops senders; at zero it has ended
    | Poll
    | DropStream

  datatype StartError = AfterStop | Platform

  function Next<T>(a: Adapter<T>, op: Op<T>): Adapter<T> {
    match op
    case Start(handles) =>
      if a.started || !a.sender || handles.None? then a else a.(started := true, workers := handles.value)
    case Stop(late) => (if a.workers > 0 then a.Send(late) else a).(started := false, sender := false, workers := 0)
    case Inject(item) => if a.sender then a.Send([item]) else a
    case Close => a.(sender := false)
    case Frames => if a.receiver == Here then a.(receiver := Streaming) else a
    case WorkerSends(item) => if a.workers > 0 then a.Send([item]) else a
    case WorkerHolds(kept) => if a.workers > 0 then a.(workers := kept) else a
    case Poll =>
      if a.receiver == Streaming && a.queue != [] then a.(received := a.received + [a.queue[0]], queue := a.queue[1..]) else a
    case DropStream => if a.receiver == Streaming then a.(receiver := Dropped, queue := []) else a
  }

  /** What `start` answers. */
  function StartAnswer<T>(a: Adapter<T>, handles: Option<nat>): Result<(), StartError> {
    if a.started then Success(())
    else if !a.sender then Failure(AfterStop)
    else if handles.None? then Failure(Platform)
    else Success(())
  }

  function Run<T>(a: Adapter<T>, ops: seq<Op<T>>): Adapter<T>
    decreases |ops|
  {
    if ops == [] then a else Run(Next(a, ops[0]), ops[1..])
  }

  // ---- What the consumer gets ----

  /** What an operation puts up for sending. */
  function Offered<T>(op: Op<T>): seq<T> {
    match op
    case Inject(item) => [item]
    case WorkerSends(item) => [item]
    case Stop(late) => late
    case _ => []
  }

  /** Whoever performs the operation holds a sender. */
  predicate HoldsSender<T>(a: Adapter<T>, op: Op<T>) {
    if op.Inject? then a.sender else a.workers > 0
  }

  /** Everything put up along a run while its sender existed. */
  function Accepted<T>(a: Adapter<T>, ops: seq<Op<T>>): seq<T>
    decreases |ops|
  {
    if ops == [] then []
    else (if HoldsSender(a, ops[0]) then Offered(ops[0]) else []) + Accepted(Next(a, ops[0]), ops[1..])
  }

  /** Nothing lost, doubled or reordered. */
  ghost predicate Conserved<T>(a: Adapter<T>) {
    && (a.receiver != Dropped ==> a.sent == a.received + a.queue)
    && a.received <= a.sent
    && (a.workers > 0 ==> a.started)
  }

  lemma SendConserves<T>(a: Adapter<T>, items: seq<T>)
    requires Conserved(a)
    ensures Conserved(a.Send(items)) && a.Send(items).(queue := a.queue, sent := a.sent) == a
    ensures a.receiver != Dropped ==> a.Send(items).sent == a.sent + items
  {}

  lemma NextConserves<T>(a: Adapter<T>, op: Op<T>)
    requires Conserved(a)
    ensures Conserved(Next(a, op))
    ensures Next(a, op).receiver != Dropped ==>
            Next(a, op).sent == a.sent + (if HoldsSender(a, op) then Offered(op) else [])
    ensures a.receiver == Dropped ==> Next(a, op).receiver == Dropped
  {
    hide Adapter.Send;
    match op
    case Poll =>
      if Next(a, op) != a {
        assert a.queue == [a.queue[0]] + a.queue[1..];
      }
    case Stop(late) => SendConserves(a, late);
    case Inject(item) => SendConserves(a, [item]);
    case WorkerSends(item) => SendConserves(a, [item]);
    case _ =>
  }

  lemma {:induction false} RunConserves<T>(a: Adapter<T>, ops: seq<Op<T>>)
    requires Conserved(a)
    ensures Conserved(Run(a, ops))
    ensures Run(a, ops).receiver != Dropped ==> a.receiver != Dropped && Run(a, ops).sent == a.sent + Accepted(a, ops)
    decreases |ops|
  {
    if ops != [] {
      NextConserves(a, ops[0]);
      RunConserves(Next(a, ops[0]), ops[1..]);
    }
  }

  /** The consumer has received, in order, what was sent while a sender existed, up to what is still queued. */
  lemma ConsumerGetsExactlyWhatWasSent<T>(ops: seq<Op<T>>)
    ensures var a := Run(Fresh(), ops);
      && (a.receiver != Dropped ==> a.received + a.queue == Accepted(Fresh(), ops))
      && (a.Ended() ==> a.received == Accepted(Fresh(), ops))
  {
    RunConserves(Fresh(), ops);
  }

  // ---- After stop ----

  lemma {:induction false} StoppedStaysStopped<T>(a: Adapter<T>, ops: seq<Op<T>>)
    requires a.NoSender() && !a.started
    ensures var b := Run(a, ops); b.NoSender() && !b.started && b.sent == a.sent && Accepted(a, ops) == []
    decreases |ops|
  {
    if ops != [] {
      StoppedStaysStopped(Next(a, ops[0]), ops[1..]);
    }
  }

  lemma {:induction false} RunInTwo<T>(a: Adapter<T>, first: seq<Op<T>>, second: seq<Op<T>>)
    ensures Run(a, first + second) == Run(Run(a, first), second)
    decreases |first|
  {
    if first == [] {
      assert first + second == second;
    } else {
      RunInTwo(Next(a, first[0]), first[1..], second);
      assert (first + second)[1..] == first[1..] + second;
    }
  }

  lemma NothingRun<T>()
    ensures Run(Fresh<T>(), []) == Fresh()
  {}

  lemma RunOneMore<T>(a: Adapter<T>, ops: seq<Op<T>>, op: Op<T>)
    ensures Run(a, ops + [op]) == Next(Run(a, ops), op)
  {
    RunInTwo(a, ops, [op]);
    assert [op][1..] == [];
  }

  /** The operations of a run are those of a script, up to how each start turned out. */
  ghost predicate Follows<T(!new)>(ops: seq<Op<T>>, script: seq<Op<T>>) {
    |ops| == |script| && forall i | 0 <= i < |ops| :: ops[i] == script[i] || (ops[i].Start? && script[i].Start?)
  }

  /** Once stop has been called no sender survives, nothing more is sent, and every later start fails. */
  lemma StopIsFinal<T>(before: seq<Op<T>>, late: seq<T>, after: seq<Op<T>>, handles: Option<nat>)
    ensures var stopped := Run(Fresh(), before + [Stop(late)]);
            var end := Run(Fresh(), before + [Stop(late)] + after);
      && end.NoSender() && end.sent == stopped.sent
      && StartAnswer(end, handles) == Failure(AfterStop) && Next(end, Start(handles)) == end
  {
    RunInTwo(Fresh(), before, [Stop(late)]);
    RunInTwo(Fresh(), before + [Stop(late)], after);
    var a := Run(Fresh(), before);
    assert [Stop(late)][1..] == [];
    assert Run(a, [Stop(late)]) == Next(a, Stop(late));
    StoppedStaysStopped(Next(a, Stop(late)), after);
  }

  function Polls<T>(n: nat): seq<Op<T>> {
    if n == 0 then [] else [Poll] + Polls(n - 1)
  }

  /** A stopped stream ends once what is queued has been read. */
  lemma {:induction false} StoppedStreamEnds<T>(a: Adapter<T>)
    requires a.NoSender() && a.receiver == Streaming
    ensures var b := Run(a, Polls(|a.queue|)); b.Ended() && b.received == a.received + a.queue
    decreases |a.queue|
  {
    if a.queue != [] {
      var b := Next(a, Poll);
      StoppedStreamEnds(b);
      var polls := Polls<T>(|a.queue|);
      assert polls[1..] == Polls<T>(|a.queue| - 1);
      assert [a.queue[0]] + a.queue[1..] == a.queue;
    }
  }

  // ---- The one stream ----

  lemma {:induction false} StreamIsTakenOnce<T>(a: Adapter<T>, ops: seq<Op<T>>)
    requires a.receiver != Here
    ensures Run(a, ops).receiver != Here
    decreases |ops|
  {
    if ops != [] {
      StreamIsTakenOnce(Next(a, ops[0]), ops[1..]);
    }
  }

  // ---- The channel itself ----

  /** An unbounded channel: the items under way, and how many senders there are. */
  class Channel<T> {
    var queue: seq<T>
    var senders: nat
    var open: bool
    ghost var sent: seq<T>
    ghost var received: seq<T>

    /** With one sender and the receiver. */
    constructor ()
      ensures queue == [] && senders == 1 && open && sent == [] && received == []
    {
      queue, senders, open := [], 1, true;
      sent, received := [], [];
    }

    method CloneSender()
      modifies this`senders
      ensures senders == old(senders) + 1
    {
      senders := senders + 1;
    }

    method DropSender()
      requires senders > 0
      modifies this`senders
      ensures senders == old(senders) - 1
    {
      senders := senders - 1;
    }

    method Send(item: T)
      requires senders > 0
      modifies this`queue, this`sent
      ensures open ==> queue == old(queue) + [item] && sent == old(sent) + [item]
      ensures !open ==> queue == old(queue) && sent == old(sent)
    {
      if open {
        queue := queue + [item];
        sent := sent + [item];
      }
    }

    method SendAll(items: seq<T>)
      requires senders > 0
      modifies this`queue, this`sent
      ensures open ==> queue == old(queue) + items && sent == old(sent) + items
      ensures !open ==> queue == old(queue) && sent == old(sent)
    {
      for i := 0 to |items|
        invariant open ==> queue == old(queue) + items[..i] && sent == old(sent) + items[..i]
        invariant !open ==> queue == old(queue) && sent == old(sent)
      {
        Send(items[i]);
        assert items[..i + 1] == items[..i] + [items[i]];
      }
      assert items[..|items|] == items;
    }

    /** The next item if there is one; the channel has ended when there is none and nobody can send any. */
    method Receive() returns (r: Polled<T>)
      requires open
      modifies this`queue, this`received
      ensures old(queue) != [] ==>
        r == Item(old(queue)[0]) && queue == old(queue)[1..] && received == old(received) + [old(queue)[0]]
      ensures old(queue) == [] ==> queue == [] && received == old(received) && r == (if senders == 0 then Done else Pending)
    {
      if queue != [] {
        r := Item(queue[0]);
        received := received + [queue[0]];
        queue := queue[1..];
      } else {
        r := if senders == 0 then Done else Pending;
      }
    }

    method CloseReceiver()
      modifies this`queue, this`open
      ensures !open && queue == []
    {
      open, queue := false, [];
    }
  }

  datatype Polled<T> = Item(item: T) | Pending | Done
}
