/**
  * What the capture adapters ask of Core Audio, as a trace of calls, and the discipline a trace must keep:
  * everything taken is given back once, users before what they use, and stopped before it is given back.
  */
module CoreAudio {
  import opened Wrappers

  datatype Kind = Tap | Aggregate | IoProc | Block | Unit | Context

  /** A unit's callback context carries the id of the unit it was made for. */
  datatype Resource = Resource(kind: Kind, id: nat)

  /** Calls that took effect. A stop counts whatever it answered, as it is never repeated. */
  datatype Event =
    | Acquired(r: Resource, uses: set<Resource>)
    | Released(r: Resource)
    | Initialized(r: Resource)
    | Uninitialized(r: Resource)
    | Started(r: Resource)
    | Stopped(r: Resource, ok: bool)

  datatype Hold = Hold(uses: set<Resource>, initialized: bool, running: bool)

  type Holdings = map<Resource, Hold>

  /** Giving `r` back would leave a user of it behind. */
  predicate InUse(h: Holdings, r: Resource) {
    || (exists d | d in h :: r in h[d].uses)
    || (r.kind == Context && Resource(Unit, r.id) in h)
  }

  /** The holdings after one more event, or nothing when the event breaks the discipline. */
  function Step(h: Holdings, e: Event): Option<Holdings> {
    match e
    case Acquired(r, uses) => if r !in h && uses <= h.Keys then Some(h[r := Hold(uses, false, false)]) else None
    case Released(r) =>
      if r in h && !h[r].running && !h[r].initialized && !InUse(h, r) then Some(h - {r}) else None
    case Initialized(r) => if r in h && !h[r].initialized then Some(h[r := h[r].(initialized := true)]) else None
    case Uninitialized(r) =>
      if r in h && h[r].initialized && !h[r].running then Some(h[r := h[r].(initialized := false)]) else None
    case Started(r) => if r in h && !h[r].running then Some(h[r := h[r].(running := true)]) else None
    case Stopped(r, _) => if r in h && h[r].running then Some(h[r := h[r].(running := false)]) else None
  }

  function Replay(t: seq<Event>): Option<Holdings> {
    if t == [] then Some(map[])
    else
      match Replay(t[..|t| - 1])
      case None => None
      case Some(h) => Step(h, t[|t| - 1])
  }

  /** The trace keeps the discipline throughout. */
  ghost predicate Disciplined(t: seq<Event>) {
    Replay(t).Some?
  }

  // ---- What the discipline means, counted on the trace itself ----

  predicate Acquires(e: Event, r: Resource) { e.Acquired? && e.r == r }
  predicate Halts(e: Event, r: Resource) { e.Stopped? && e.r == r }

  function Count(t: seq<Event>, p: Event -> bool): nat {
    if t == [] then 0 else Count(t[..|t| - 1], p) + if p(t[|t| - 1]) then 1 else 0
  }

  function Taken(t: seq<Event>, r: Resource): nat { Count(t, e => Acquires(e, r)) }
  function GivenBack(t: seq<Event>, r: Resource): nat { Count(t, e => e == Released(r)) }
  function Starts(t: seq<Event>, r: Resource): nat { Count(t, e => e == Started(r)) }
  function Stops(t: seq<Event>, r: Resource): nat { Count(t, e => Halts(e, r)) }
  function Inits(t: seq<Event>, r: Resource): nat { Count(t, e => e == Initialized(r)) }
  function Uninits(t: seq<Event>, r: Resource): nat { Count(t, e => e == Uninitialized(r)) }

  /** Held exactly while taken once more than given back; running while started once more than stopped. */
  lemma {:induction false} HoldingsAreBalances(t: seq<Event>, r: Resource)
    requires Disciplined(t)
    ensures var h := Replay(t).value;
      && Taken(t, r) == GivenBack(t, r) + (if r in h then 1 else 0)
      && Starts(t, r) == Stops(t, r) + (if r in h && h[r].running then 1 else 0)
      && Inits(t, r) == Uninits(t, r) + (if r in h && h[r].initialized then 1 else 0)
  {
    if t != [] {
      HoldingsAreBalances(t[..|t| - 1], r);
    }
  }

  lemma {:induction false} PrefixesAreDisciplined(t: seq<Event>, k: nat)
    requires Disciplined(t) && k <= |t|
    ensures Disciplined(t[..k])
  {
    if k < |t| {
      PrefixesAreDisciplined(t[..|t| - 1], k);
      assert t[..|t| - 1][..k] == t[..k];
    } else {
      assert t[..k] == t;
    }
  }

  lemma StepAt(t: seq<Event>, k: nat)
    requires Disciplined(t) && k < |t|
    ensures Disciplined(t[..k]) && Disciplined(t[..k + 1])
    ensures Step(Replay(t[..k]).value, t[k]) == Replay(t[..k + 1])
  {
    PrefixesAreDisciplined(t, k);
    PrefixesAreDisciplined(t, k + 1);
    assert t[..k + 1][..k] == t[..k];
  }

  /** By the time something is given back, each start of it has had its one stop, and each initialization its undoing. */
  lemma StoppedBeforeGivenBack(t: seq<Event>, k: nat, r: Resource)
    requires Disciplined(t) && k < |t| && t[k] == Released(r)
    ensures Starts(t[..k], r) == Stops(t[..k], r) && Inits(t[..k], r) == Uninits(t[..k], r)
    ensures Taken(t[..k], r) == GivenBack(t[..k], r) + 1
    ensures r.kind == Context ==> Taken(t[..k], Resource(Unit, r.id)) == GivenBack(t[..k], Resource(Unit, r.id))
  {
    StepAt(t, k);
    HoldingsAreBalances(t[..k], r);
    if r.kind == Context {
      HoldingsAreBalances(t[..k], Resource(Unit, r.id));
    }
  }

  /** A user that was taken stays a user until it is given back. */
  lemma {:induction false} UserStays(t: seq<Event>, i: nat, k: nat, user: Resource, used: Resource)
    requires Disciplined(t) && i < k <= |t|
    requires t[i].Acquired? && t[i].r == user && used in t[i].uses
    requires forall m | i < m < k :: t[m] != Released(user)
    ensures Disciplined(t[..k]) && user in Replay(t[..k]).value && used in Replay(t[..k]).value[user].uses
    decreases k
  {
    StepAt(t, k - 1);
    if i < k - 1 {
      UserStays(t, i, k - 1, user, used);
    }
  }

  /** Reverse order: what was taken to be used is given back only after its user. */
  lemma UsersGoFirst(t: seq<Event>, i: nat, k: nat, user: Resource, used: Resource)
    requires Disciplined(t) && i < k < |t|
    requires t[i].Acquired? && t[i].r == user && used in t[i].uses && t[k] == Released(used)
    ensures exists m | i < m < k :: t[m] == Released(user)
  {
    if forall m | i < m < k :: t[m] != Released(user) {
      UserStays(t, i, k, user, used);
      StepAt(t, k);
      assert InUse(Replay(t[..k]).value, used);
      assert false;
    }
  }

  // ---- The hardware ----

  /** Whatever is used is held. */
  ghost predicate Closed(h: Holdings) {
    forall r | r in h :: h[r].uses <= h.Keys
  }

  /**
    * Core Audio: every call may fail, and then has no effect, unless it is about a dependable kind; every id it hands
    * out is new.
    */
  class Hal {
    const dependable: set<Kind>
    ghost var trace: seq<Event>
    var next: nat

    ghost predicate Valid()
      reads this
    {
      && Disciplined(trace)
      && (forall r | r in Live() :: r.id < next)
      && Closed(Live())
    }

    ghost function Live(): Holdings
      reads this
    {
      if Disciplined(trace) then Replay(trace).value else map[]
    }

    lemma IsClosed()
      requires Valid()
      ensures Closed(Live())
    {}

    constructor (dependable: set<Kind>)
      ensures Valid() && trace == [] && Live() == map[] && this.dependable == dependable
    {
      this.dependable := dependable;
      trace, next := [], 0;
    }

    /** A call that only reads or sets a property of something of the kind. */
    method Ask(kind: Kind) returns (ok: bool)
      ensures kind in dependable ==> ok
    {
      ok := *;
      ok := ok || kind in dependable;
    }

    /** Adds an event that took effect. */
    ghost method Record(e: Event)
      requires Valid() && Step(Live(), e).Some? && (e.Acquired? ==> e.r.id < next)
      modifies this`trace
      ensures Valid() && trace == old(trace) + [e] && Live() == Step(old(Live()), e).value
    {
      assert (trace + [e])[..|trace|] == trace;
      ghost var h, h' := Live(), Step(Live(), e).value;
      forall r | r in h'
        ensures r.id < next && h'[r].uses <= h'.Keys
      {
        if r in h {
          assert h[r].uses <= h.Keys && (e.Released? ==> e.r !in h[r].uses);
        }
      }
      trace := trace + [e];
    }

    method FreshId() returns (id: nat)
      requires Valid()
      modifies this`next
      ensures Valid() && next == id + 1 && forall r | r in Live() :: r.id < id
    {
      id := next;
      next := next + 1;
    }

    /** Memory of our own that Core Audio will call into: taking it cannot fail. */
    method Allocate(kind: Kind, ghost uses: set<Resource>) returns (id: nat)
      requires Valid() && uses <= Live().Keys
      modifies this
      ensures Valid() && (forall k :: Resource(k, id) !in old(Live())) && trace == old(trace) + [Acquired(Resource(kind, id), uses)]
      ensures Live() == old(Live())[Resource(kind, id) := Hold(uses, false, false)]
    {
      id := FreshId();
      Record(Acquired(Resource(kind, id), uses));
    }

    /** The callback context of a unit. */
    method AllocateContext(unit: nat)
      requires Valid() && Resource(Unit, unit) in Live() && Resource(Context, unit) !in Live()
      modifies this
      ensures Valid() && trace == old(trace) + [Acquired(Resource(Context, unit), {})]
      ensures Live() == old(Live())[Resource(Context, unit) := Hold({}, false, false)]
    {
      Record(Acquired(Resource(Context, unit), {}));
    }

    /** A creating call. */
    method Create(kind: Kind, ghost uses: set<Resource>) returns (id: Option<nat>)
      requires Valid() && uses <= Live().Keys
      modifies this
      ensures Valid() && (id.None? ==> trace == old(trace) && Live() == old(Live()))
      ensures id.Some? ==> (forall k :: Resource(k, id.value) !in old(Live())) &&
                           trace == old(trace) + [Acquired(Resource(kind, id.value), uses)]
      ensures id.Some? ==> Live() == old(Live())[Resource(kind, id.value) := Hold(uses, false, false)]
      ensures kind in dependable ==> id.Some?
    {
      var ok := Ask(kind);
      if !ok { return None; }
      var made := Allocate(kind, uses);
      return Some(made);
    }

    /** A destroying call; its status is only logged. */
    method Destroy(r: Resource)
      requires Valid() && r in Live() && !Live()[r].running && !Live()[r].initialized && !InUse(Live(), r)
      modifies this
      ensures Valid() && trace == old(trace) + [Released(r)] && Live() == old(Live()) - {r}
    {
      Record(Released(r));
    }

    /** What was taken last, and nothing has come to use, goes back. */
    method GiveBack(r: Resource, ghost before: Holdings)
      requires Valid() && Closed(before) && r.kind != Context && r !in before
      requires exists uses :: Live() == before[r := Hold(uses, false, false)] && r !in uses
      modifies this
      ensures Valid() && Live() == before && trace == old(trace) + [Released(r)]
    {
      assert !InUse(Live(), r);
      Destroy(r);
      assert Live() == before;
    }

    method Start(r: Resource) returns (ok: bool)
      requires Valid() && r in Live() && !Live()[r].running
      modifies this
      ensures Valid() && (!ok ==> trace == old(trace) && Live() == old(Live()))
      ensures ok ==> trace == old(trace) + [Started(r)] && Live() == old(Live())[r := old(Live())[r].(running := true)]
      ensures r.kind in dependable ==> ok
    {
      ok := Ask(r.kind);
      if ok { Record(Started(r)); }
    }

    /** Whatever it answers, it is called once. */
    method Stop(r: Resource) returns (ok: bool)
      requires Valid() && r in Live() && Live()[r].running
      modifies this
      ensures Valid() && trace == old(trace) + [Stopped(r, ok)] && Live() == old(Live())[r := old(Live())[r].(running := false)]
      ensures r.kind in dependable ==> ok
    {
      ok := Ask(r.kind);
      Record(Stopped(r, ok));
    }

    method Initialize(r: Resource) returns (ok: bool)
      requires Valid() && r in Live() && !Live()[r].initialized
      modifies this
      ensures Valid() && (!ok ==> trace == old(trace) && Live() == old(Live()))
      ensures ok ==> trace == old(trace) + [Initialized(r)] && Live() == old(Live())[r := old(Live())[r].(initialized := true)]
      ensures r.kind in dependable ==> ok
    {
      ok := Ask(r.kind);
      if ok { Record(Initialized(r)); }
    }

    method Uninitialize(r: Resource)
      requires Valid() && r in Live() && Live()[r].initialized && !Live()[r].running
      modifies this
      ensures Valid() && trace == old(trace) + [Uninitialized(r)]
      ensures Live() == old(Live())[r := old(Live())[r].(initialized := false)]
    {
      Record(Uninitialized(r));
    }
  }
}
