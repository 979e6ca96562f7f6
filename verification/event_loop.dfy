/** The single-threaded loop, and what every run of it keeps. */
module EventLoops {
  import opened Bytes
  import opened Events

  // ------------------------------------------------------------ runs

  /** Something added to the loop with the id of the callback that was registered n-th. */
  datatype Posting = Posting(target: nat, status: int)

  /** What became of a dispatched posting. */
  datatype Fate =
    | Dropped(posting: Posting)
    | Delivered(posting: Posting, receiver: nat, resumed: Option<Handle>)

  /**
   * The living callbacks, known by the number of their registration; who is registered
   * under each id; what waits in the loop; and what was dispatched.
   */
  datatype System = System(
    registered: nat,
    alive: map<nat, Stored>,
    bus: map<Id, nat>,
    events: seq<Posting>,
    log: seq<Fate>)

  const IDLE: System := System(0, map[], map[], [], [])

  /** The id of the n-th registration: the counter wraps. */
  function IdOf(n: nat): Id {
    n % WORD64
  }

  /** Everything between two suspension points is made of these. */
  datatype Step =
    | Register
    | Destroy(n: nat)
    | Post(target: nat, status: int)
    | Dispatch
    | Await(n: nat, handle: Handle)
    | Abandon(n: nat)

  /** Any id can be posted: that of a registration there was, or another of the 2^64. */
  predicate Postable(registered: nat, target: nat) {
    1 <= target && (target <= registered || target <= WORD64)
  }

  lemma EveryIdIsPostable(id: Id, registered: nat) returns (target: nat)
    ensures Postable(registered, target) && IdOf(target) == id
  {
    target := if id == 0 then WORD64 else id;
  }

  predicate Enabled(s: System, step: Step) {
    match step
    case Register => true
    case Post(target, _) => Postable(s.registered, target)
    case Dispatch => s.events != []
    case Destroy(n) => n in s.alive
    case Await(n, _) => n in s.alive
    case Abandon(n) => n in s.alive
  }

  /** An unregistered id drops the event; a waiting coroutine takes the status at once. */
  function Dispatched(s: System): (System)
    requires s.events != []
  {
    var p, rest := s.events[0], s.events[1..];
    var id := IdOf(p.target);
    if id !in s.bus || s.bus[id] !in s.alive then s.(events := rest, log := s.log + [Dropped(p)])
    else
      var n := s.bus[id];
      var c := s.alive[n];
      var after := if c.handle.Some? then NOTHING else Notified(c, p.status);
      s.(events := rest, alive := s.alive[n := after], log := s.log + [Delivered(p, n, c.handle)])
  }

  /**
   * `co_await` of a callback's status: a stored status is taken; otherwise the coroutine
   * waits.  When another one waits already the throwing awaiter is destroyed, and its
   * destructor resets the callback.
   */
  function Awaited(c: Stored, handle: Handle): Stored {
    if c.status.Some? then NOTHING
    else if c.handle.None? then Stored(None, Some(handle))
    else NOTHING
  }

  function Next(s: System, step: Step): System
    requires Enabled(s, step)
  {
    match step
    case Register =>
      var n := s.registered + 1;
      s.(registered := n, alive := s.alive[n := NOTHING], bus := s.bus[IdOf(n) := n])
    case Destroy(n) => s.(alive := s.alive - {n}, bus := s.bus - {IdOf(n)})
    case Post(target, status) => s.(events := s.events + [Posting(target, status)])
    case Dispatch => Dispatched(s)
    case Await(n, handle) => s.(alive := s.alive[n := Awaited(s.alive[n], handle)])
    case Abandon(n) => s.(alive := s.alive[n := NOTHING])
  }

  /** The state after a sequence of steps from s, if each is possible. */
  function RunFrom(s: System, steps: seq<Step>): Option<System> {
    if steps == [] then Some(s)
    else
      match RunFrom(s, steps[..|steps| - 1])
      case None => None
      case Some(t) => if Enabled(t, steps[|steps| - 1]) then Some(Next(t, steps[|steps| - 1])) else None
  }

  function Run(steps: seq<Step>): Option<System> {
    RunFrom(IDLE, steps)
  }

  lemma NothingFrom(s: System)
    ensures RunFrom(s, []) == Some(s)
  {
  }

  lemma RunFromSnoc(s: System, steps: seq<Step>, step: Step)
    requires RunFrom(s, steps).Some?
    ensures RunFrom(s, steps + [step]) ==
      if Enabled(RunFrom(s, steps).value, step) then Some(Next(RunFrom(s, steps).value, step)) else None
  {
    assert (steps + [step])[..|steps|] == steps;
  }

  /** What a run posts, in order. */
  function Posted(steps: seq<Step>): seq<Posting> {
    if steps == [] then []
    else
      var last := steps[|steps| - 1];
      Posted(steps[..|steps| - 1]) + if last.Post? then [Posting(last.target, last.status)] else []
  }

  function Postings(log: seq<Fate>): (ps: seq<Posting>)
    ensures |ps| == |log| && forall i :: 0 <= i < |log| ==> ps[i] == log[i].posting
  {
    seq(|log|, i requires 0 <= i < |log| => log[i].posting)
  }

  /** In every run the events are dispatched in the order they were added, each at most once. */
  lemma {:induction false} DispatchIsFifo(steps: seq<Step>)
    requires Run(steps).Some?
    ensures Posted(steps) == Postings(Run(steps).value.log) + Run(steps).value.events
  {
    if steps != [] {
      var front, last := steps[..|steps| - 1], steps[|steps| - 1];
      DispatchIsFifo(front);
      var s := Run(front).value;
      var t := Next(s, last);
      if last.Post? {
        assert Postings(s.log) + (s.events + t.events[|s.events|..]) == Posted(front) + t.events[|s.events|..];
        assert t.events[|s.events|..] == [Posting(last.target, last.status)];
      } else if last.Dispatch? {
        assert Postings(t.log) == Postings(s.log) + [s.events[0]];
        assert Postings(s.log) + s.events == Postings(t.log) + t.events;
      }
    }
  }

  /** Between steps no callback holds both a status and a handle. */
  lemma {:induction false} NeverBoth(steps: seq<Step>)
    requires Run(steps).Some?
    ensures forall n :: n in Run(steps).value.alive ==> Run(steps).value.alive[n].NotBoth()
  {
    if steps != [] {
      NeverBoth(steps[..|steps| - 1]);
    }
  }

  // ------------------------------------------------------------ ids

  /** Two registrations share an id exactly when they are a multiple of 2^64 apart. */
  lemma SameIdIff(m: nat, n: nat)
    ensures IdOf(m) == IdOf(n) <==> (n - m) % WORD64 == 0
  {
  }

  /** Ids are never reused exactly as long as no more than 2^64 callbacks are registered. */
  lemma IdsDistinctIff(count: nat)
    ensures (forall m, n :: 1 <= m < n <= count ==> IdOf(m) != IdOf(n)) <==> count <= WORD64
  {
    if count > WORD64 {
      assert IdOf(1) == IdOf(1 + WORD64);
    }
  }

  /** Below the limit the counter is the number of registrations, so ids increase. */
  lemma IdsIncrease(m: nat, n: nat)
    requires m < n < WORD64
    ensures IdOf(m) < IdOf(n)
  {
  }

  /** What the bus and the living callbacks keep. */
  ghost predicate Registered(s: System) {
    && (forall n :: n in s.alive ==> 1 <= n <= s.registered)
    && (forall id :: id in s.bus ==> s.bus[id] in s.alive && IdOf(s.bus[id]) == id)
    && (s.registered <= WORD64 ==> forall n :: n in s.alive ==> IdOf(n) in s.bus && s.bus[IdOf(n)] == n)
    && (forall i :: 0 <= i < |s.events| ==> Postable(s.registered, s.events[i].target))
  }

  lemma RegisteredStep(s: System, step: Step)
    requires Registered(s) && Enabled(s, step)
    ensures Registered(Next(s, step))
  {
    var n := if step.Register? then s.registered + 1 else if step.Destroy? then step.n else 0;
    forall m | m in s.alive && m != n && n <= WORD64 && s.registered <= WORD64 && 1 <= n
      ensures IdOf(m) != IdOf(n)
    {
      IdsDistinct(m, n);
    }
    hide IdOf;
  }

  lemma IdsDistinct(m: nat, n: nat)
    requires 1 <= m <= WORD64 && 1 <= n <= WORD64 && m != n
    ensures IdOf(m) != IdOf(n)
  {
  }

  lemma {:induction false} RegisteredRun(steps: seq<Step>)
    requires Run(steps).Some?
    ensures Registered(Run(steps).value)
  {
    if steps != [] {
      RegisteredRun(steps[..|steps| - 1]);
      RegisteredStep(Run(steps[..|steps| - 1]).value, steps[|steps| - 1]);
    }
  }

  // ------------------------------------------------------------ deliveries

  /** A dispatched event reaches the callback it was made for while that one lives, and else none. */
  lemma DispatchReaches(steps: seq<Step>)
    requires Run(steps).Some? && Run(steps).value.events != [] && Run(steps).value.registered <= WORD64
    ensures var s := Run(steps).value;
      var p, t := s.events[0], Dispatched(s);
      if p.target in s.alive then
        && t.log == s.log + [Delivered(p, p.target, s.alive[p.target].handle)]
        && t.alive == s.alive[p.target := t.alive[p.target]]
        && t.alive[p.target] == (if s.alive[p.target].handle.Some? then NOTHING else Stored(Some(p.status), None))
      else t.log == s.log + [Dropped(p)] && t.alive == s.alive
  {
    RegisteredRun(steps);
    var s := Run(steps).value;
    hide Run;
    var p := s.events[0];
    if IdOf(p.target) in s.bus {
      var n := s.bus[IdOf(p.target)];
      if n != p.target {
        IdsDistinct(n, p.target);
      }
    }
    hide IdOf;
  }

  /** Every delivery so far went to the callback whose id was posted. */
  ghost predicate Exact(log: seq<Fate>) {
    forall i :: 0 <= i < |log| && log[i].Delivered? ==> log[i].receiver == log[i].posting.target
  }

  lemma {:induction false} DeliveriesAreExact(steps: seq<Step>)
    requires Run(steps).Some? && Run(steps).value.registered <= WORD64
    ensures Exact(Run(steps).value.log)
  {
    if steps != [] {
      var front := steps[..|steps| - 1];
      var s, last := Run(front).value, steps[|steps| - 1];
      assert s.registered <= Run(steps).value.registered;
      DeliveriesAreExact(front);
      if last.Dispatch? {
        DispatchReaches(front);
      }
    }
  }

  function Registers(k: nat): seq<Step> {
    if k == 0 then [] else Registers(k - 1) + [Register]
  }

  lemma {:induction false} RegistersRun(k: nat)
    ensures Run(Registers(k)).Some? && Run(Registers(k)).value.registered == k
    ensures Run(Registers(k)).value.events == [] && Run(Registers(k)).value.log == []
    ensures k > 0 ==> var s := Run(Registers(k)).value;
      k in s.alive && IdOf(k) in s.bus && s.bus[IdOf(k)] == k
  {
    hide RunFrom, Run, IdOf;
    if k > 0 {
      RegistersRun(k - 1);
      RunSnoc(Registers(k - 1), Register);
    } else {
      NothingRun();
    }
  }

  lemma NothingRun()
    ensures Run([]) == Some(IDLE)
  {
  }

  /** After 2^64 + 1 registrations the event made for the first reaches the last. */
  lemma WrappedIdMisdelivers()
    ensures var steps := Registers(WORD64 + 1) + [Post(1, 0), Dispatch];
      && Run(steps).Some? && Run(steps).value.registered == WORD64 + 1
      && !Exact(Run(steps).value.log)
  {
    var k: nat := WORD64 + 1;
    RegistersRun(k);
    var base := Registers(k);
    var s := Run(base).value;
    assert IdOf(k) == IdOf(1);
    hide Registers, IdOf;
    var posted := base + [Post(1, 0)];
    RunSnoc(base, Post(1, 0));
    RunSnoc(posted, Dispatch);
    assert base + [Post(1, 0), Dispatch] == posted + [Dispatch];
    assert Next(s, Post(1, 0)).events == [Posting(1, 0)];
    var log := Run(posted + [Dispatch]).value.log;
    assert log == [Delivered(Posting(1, 0), k, s.alive[k].handle)];
    assert log[0].receiver == k;
  }

  lemma RunSnoc(steps: seq<Step>, step: Step)
    requires Run(steps).Some?
    ensures Run(steps + [step]) ==
      if Enabled(Run(steps).value, step) then Some(Next(Run(steps).value, step)) else None
  {
    assert (steps + [step])[..|steps|] == steps;
  }

  /** Every run delivers exactly, as long as its registrations stay within the limit and only then. */
  lemma DeliveriesExactIff(limit: nat)
    ensures (forall steps :: Run(steps).Some? && Run(steps).value.registered <= limit ==> Exact(Run(steps).value.log))
      <==> limit <= WORD64
  {
    if limit <= WORD64 {
      forall steps | Run(steps).Some? && Run(steps).value.registered <= limit
        ensures Exact(Run(steps).value.log)
      {
        DeliveriesAreExact(steps);
      }
    } else {
      WrappedIdMisdelivers();
      hide Run, Exact, Registers;
    }
  }

  /** A stored status is received by one coroutine only: the next one waits. */
  lemma StatusIsTakenOnce(s: System, n: nat, first: Handle, second: Handle)
    requires n in s.alive && s.alive[n].status.Some? && s.alive[n].NotBoth()
    ensures
      var t := Next(s, Await(n, first));
      n in t.alive && WaitsFor(Next(t, Await(n, second)), n, second)
  {
  }

  /** The coroutine with this handle waits for the n-th callback. */
  predicate WaitsFor(s: System, n: nat, handle: Handle) {
    n in s.alive && s.alive[n] == Stored(None, Some(handle))
  }

  /** The callback's own event, or something done to the callback itself. */
  predicate Touches(s: System, step: Step, n: nat) {
    match step
    case Await(m, _) => m == n
    case Abandon(m) => m == n
    case Destroy(m) => m == n
    case Dispatch => s.events != [] && s.events[0].target == n
    case _ => false
  }

  /** A waiting coroutine goes on waiting through exactly the steps that do not touch its callback. */
  lemma StillWaitsStep(s: System, step: Step, n: nat, handle: Handle)
    requires Registered(s) && Enabled(s, step) && Next(s, step).registered <= WORD64 && WaitsFor(s, n, handle)
    ensures WaitsFor(Next(s, step), n, handle) <==> !Touches(s, step, n)
  {
    if step.Dispatch? && IdOf(s.events[0].target) in s.bus {
      var m, target := s.bus[IdOf(s.events[0].target)], s.events[0].target;
      if m != target {
        IdsDistinct(m, target);
      }
    }
    hide IdOf;
  }

  ghost predicate WaitsThroughout(s: System, steps: seq<Step>, n: nat, handle: Handle)
    requires RunFrom(s, steps).Some?
  {
    && WaitsFor(RunFrom(s, steps).value, n, handle)
    && (steps == [] || WaitsThroughout(s, steps[..|steps| - 1], n, handle))
  }

  ghost predicate Untouched(s: System, steps: seq<Step>, n: nat)
    requires RunFrom(s, steps).Some?
  {
    steps == [] ||
    (var front := steps[..|steps| - 1];
     Untouched(s, front, n) && !Touches(RunFrom(s, front).value, steps[|steps| - 1], n))
  }

  lemma {:induction false} RegisteredFrom(s: System, steps: seq<Step>)
    requires Registered(s) && RunFrom(s, steps).Some?
    ensures Registered(RunFrom(s, steps).value) && s.registered <= RunFrom(s, steps).value.registered
  {
    if steps != [] {
      RegisteredFrom(s, steps[..|steps| - 1]);
      RegisteredStep(RunFrom(s, steps[..|steps| - 1]).value, steps[|steps| - 1]);
      hide Registered;
    }
  }

  lemma {:induction false} WaitsThroughoutIff(s: System, steps: seq<Step>, n: nat, handle: Handle)
    requires Registered(s) && WaitsFor(s, n, handle)
    requires RunFrom(s, steps).Some? && RunFrom(s, steps).value.registered <= WORD64
    ensures WaitsThroughout(s, steps, n, handle) <==> Untouched(s, steps, n)
  {
    if steps != [] {
      var front, last := steps[..|steps| - 1], steps[|steps| - 1];
      var t := RunFrom(s, front).value;
      RegisteredFrom(s, front);
      assert t.registered <= Next(t, last).registered;
      WaitsThroughoutIff(s, front, n, handle);
      hide Registered, WaitsFor, Touches, Next;
      if WaitsThroughout(s, front, n, handle) {
        StillWaitsStep(t, last, n, handle);
      }
    }
  }

  /**
   * Whatever went before, a coroutine that waits goes on waiting throughout a run exactly
   * if no step of it is its own event, or awaits, abandons or destroys its callback.
   */
  lemma StillWaitsIff(before: seq<Step>, steps: seq<Step>, n: nat, handle: Handle)
    requires Run(before).Some? && WaitsFor(Run(before).value, n, handle)
    requires RunFrom(Run(before).value, steps).Some?
    requires RunFrom(Run(before).value, steps).value.registered <= WORD64
    ensures WaitsThroughout(Run(before).value, steps, n, handle) <==> Untouched(Run(before).value, steps, n)
  {
    RegisteredRun(before);
    WaitsThroughoutIff(Run(before).value, steps, n, handle);
  }

  /** A second awaiter is refused, the first is forgotten, and the event resumes nobody. */
  lemma SecondAwaiterForgetsFirst(first: Handle, second: Handle)
    ensures var steps := [Register, Await(1, first), Await(1, second), Post(1, 0), Dispatch];
      && Run(steps).Some? && Run(steps[..2]).Some? && WaitsFor(Run(steps[..2]).value, 1, first)
      && Run(steps).value.log == [Delivered(Posting(1, 0), 1, None)]
      && Run(steps).value.alive == map[1 := Stored(Some(0), None)]
  {
    var s0: seq<Step> := [];
    RunSnoc(s0, Register);
    var s1 := s0 + [Register];
    RunSnoc(s1, Await(1, first));
    var s2 := s1 + [Await(1, first)];
    RunSnoc(s2, Await(1, second));
    var s3 := s2 + [Await(1, second)];
    RunSnoc(s3, Post(1, 0));
    var s4 := s3 + [Post(1, 0)];
    RunSnoc(s4, Dispatch);
    var steps := [Register, Await(1, first), Await(1, second), Post(1, 0), Dispatch];
    assert s4 + [Dispatch] == steps && steps[..2] == s2;
  }

  // ------------------------------------------------------------ the objects

  /** What a coroutine that awaits a status gets: the status, nothing yet, or an exception. */
  datatype Awaiting = Received(status: int) | Waits | Refused

  class EventLoop {
    const bus: EventBus
    var events: seq<Event>
    var running: bool

    ghost var callbacks: seq<EventCallback>  // by order of registration
    ghost var living: set<nat>
    ghost var owners: map<Id, nat>
    ghost var postings: seq<Posting>
    ghost var log: seq<Fate>

    ghost predicate Valid()
      reads this, bus, callbacks
    {
      && (forall i, j :: 0 <= i < j < |callbacks| ==> callbacks[i] != callbacks[j])
      && (forall i :: 0 <= i < |callbacks| ==> callbacks[i].id == IdOf(i + 1) && callbacks[i].bus == bus)
      && (forall n :: n in living ==> 1 <= n <= |callbacks|)
      && bus.idCounter == IdOf(|callbacks|)
      && owners.Keys == bus.callbacks.Keys
      && (forall id :: id in owners ==>
            owners[id] in living && IdOf(owners[id]) == id && bus.callbacks[id] == callbacks[owners[id] - 1])
      && |events| == |postings|
      && (forall i :: 0 <= i < |events| ==> events[i] == Event(IdOf(postings[i].target), postings[i].status))
    }

    /** The objects as a state of the runs above. */
    ghost function View(): System
      reads this, bus, callbacks
      requires Valid()
    {
      System(|callbacks|, map n | n in living :: callbacks[n - 1].Value(), owners, postings, log)
    }

    constructor ()
      ensures Valid() && fresh(bus) && View() == IDLE
    {
      bus := new EventBus();
      running := true;
      events, callbacks, living, owners, postings, log := [], [], {}, map[], [], [];
    }

    /** `get_event_callback`. */
    method GetEventCallback() returns (callback: EventCallback)
      requires Valid()
      modifies this, bus
      ensures Valid() && fresh(callback)
      ensures callbacks == old(callbacks) + [callback] && living == old(living) + {|callbacks|}
      ensures View() == Next(old(View()), Register)
    {
      hide IdOf, Valid, View;
      ViewFields();
      callback := new EventCallback(bus);
      callbacks := callbacks + [callback];
      living := living + {|callbacks|};
      owners := owners[callback.id := |callbacks|];
      CallbackAdded(callback);
    }

    twostate lemma CallbackAdded(new callback: EventCallback)
      requires old(Valid()) && unchanged(old(callbacks)) && callback !in old(callbacks)
      requires callbacks == old(callbacks) + [callback] && living == old(living) + {|callbacks|}
      requires callback.id == bus.idCounter == NextId(old(bus.idCounter))
      requires callback.bus == bus && callback.Value() == NOTHING
      requires bus.callbacks == old(bus.callbacks)[callback.id := callback]
      requires owners == old(owners)[callback.id := |callbacks|]
      requires unchanged(`events) && unchanged(`postings) && unchanged(`log)
      ensures Valid() && View() == Next(old(View()), Register)
    {
      hide IdOf;
      NextIdOf(|old(callbacks)|);
      StillValid(callback);
      assert View().alive == old(View()).alive[|callbacks| := NOTHING] by {
        hide Valid;
        assert forall i :: 0 <= i < |callbacks| - 1 ==> callbacks[i] == old(callbacks)[i];
      }
    }

    twostate lemma StillValid(new callback: EventCallback)
      requires old(Valid()) && callback !in old(callbacks)
      requires callbacks == old(callbacks) + [callback] && living == old(living) + {|callbacks|}
      requires callback.id == bus.idCounter == IdOf(|callbacks|) && callback.bus == bus
      requires bus.callbacks == old(bus.callbacks)[callback.id := callback]
      requires owners == old(owners)[callback.id := |callbacks|]
      requires unchanged(`events) && unchanged(`postings)
      ensures Valid()
    {
      hide IdOf;
      assert callbacks[|callbacks| - 1] == callback;
    }

    method AddEvent(ev: Event, ghost target: nat)
      requires Valid() && Postable(|callbacks|, target) && ev.id == IdOf(target)
      modifies this`events, this`postings
      ensures Valid() && View() == Next(old(View()), Post(target, ev.status))
    {
      hide IdOf;
      events := events + [ev];
      postings := postings + [Posting(target, ev.status)];
    }

    /** The end of a callback's life. */
    method DestroyCallback(callback: EventCallback, ghost n: nat)
      requires Valid() && n in living && callback == callbacks[n - 1]
      modifies this`living, this`owners, bus
      ensures Valid() && View() == Next(old(View()), Destroy(n))
    {
      hide IdOf;
      callback.Destroy();
      living := living - {n};
      owners := owners - {callback.id};
      assert Valid();
      assert View().alive == old(View()).alive - {n};
    }

    /** `co_await callback.await_status()`, up to the suspension or with the status. */
    method AwaitStatus(callback: EventCallback, ghost n: nat, handle: Handle) returns (a: Awaiting)
      requires Valid() && n in living && callback == callbacks[n - 1]
      modifies callback
      ensures Valid() && View() == Next(old(View()), Await(n, handle))
      ensures a == if old(callback.status).Some? then Received(old(callback.status.value))
        else if old(callback.suspended).None? then Waits else Refused
    {
      hide IdOf, Valid, View;
      ViewFields();
      var awaiter := new StatusAwaiter(callback);
      var ready := awaiter.AwaitReady();
      if ready {
        var status := awaiter.AwaitResume();
        a := Received(status.value);
      } else {
        var suspended := awaiter.AwaitSuspend(handle);
        if suspended.Throw? {
          awaiter.Destroy();
          a := Refused;
        } else {
          a := Waits;
        }
      }
      assert callback.Value() == Awaited(old(callback.Value()), handle);
      CallbackChanged(n);
    }

    /** The destruction of an awaiter that still waits. */
    method AbandonStatus(callback: EventCallback, ghost n: nat)
      requires Valid() && n in living && callback == callbacks[n - 1]
      modifies callback
      ensures Valid() && View() == Next(old(View()), Abandon(n))
    {
      hide IdOf;
      var awaiter := new StatusAwaiter(callback);
      awaiter.Destroy();
      CallbackChanged(n);
    }

    /** Changing what one callback stores changes only that in the state. */
    twostate lemma CallbackChanged(n: nat)
      requires old(Valid()) && n in living && 1 <= n <= |callbacks|
      requires unchanged(this) && unchanged(bus)
      requires forall i :: 0 <= i < |callbacks| ==>
        i != n - 1 ==> callbacks[i].Value() == old(callbacks[i].Value())
      ensures Valid()
      ensures View() == old(View()).(alive := old(View()).alive[n := callbacks[n - 1].Value()])
    {
      hide IdOf;
    }

    /** One turn of `run`: the oldest event, with what it resumes, or one from the kernel. */
    method RunTurn(polled: Event, ghost target: nat) returns (woken: Option<(Handle, int)>)
      requires Valid()
      requires events == [] ==> Postable(|callbacks|, target) && polled.id == IdOf(target)
      modifies this`events, this`postings, this`log, callbacks
      ensures Valid()
      ensures View() == Next(old(View()), if old(events) == [] then Post(target, polled.status) else Dispatch)
      ensures old(events) == [] ==> woken == None
      ensures old(events) != [] ==>
        var fate := log[|log| - 1];
        woken == if fate.Delivered? && fate.resumed.Some? then Some((fate.resumed.value, fate.posting.status)) else None
    {
      hide IdOf, Valid, View, Dispatched;
      ViewFields();
      if events == [] {
        AddEvent(polled, target);
        return None;
      }
      woken := DispatchOldest();
    }

    method DispatchOldest() returns (woken: Option<(Handle, int)>)
      requires Valid() && events != []
      modifies this`events, this`postings, this`log, callbacks
      ensures Valid() && log != []
      ensures Enabled(old(View()), Dispatch) && View() == Next(old(View()), Dispatch)
      ensures
        var fate := log[|log| - 1];
        woken == if fate.Delivered? && fate.resumed.Some? then Some((fate.resumed.value, fate.posting.status)) else None
    {
      hide IdOf, Valid, View, Dispatched;
      ViewFields();
      ghost var s, p := View(), postings[0];
      var ev := TakeEvent();
      ghost var fate;
      woken, fate := NotifyOwner(ev, p);
      ViewFields();
      DispatchedIs(s, fate);
      Record(fate);
    }

    /** The event reaches whoever is registered under its id, if anybody is. */
    method NotifyOwner(ev: Event, ghost p: Posting) returns (woken: Option<(Handle, int)>, ghost fate: Fate)
      requires Valid() && ev == Event(IdOf(p.target), p.status)
      modifies callbacks
      ensures Valid()
      ensures
        var s := old(View());
        && (forall id :: id in s.bus ==> s.bus[id] in s.alive)
        && fate == (if ev.id in s.bus then Delivered(p, s.bus[ev.id], s.alive[s.bus[ev.id]].handle) else Dropped(p))
        && View() ==
           if fate.Dropped? then s
           else
             var c := s.alive[fate.receiver];
             s.(alive := s.alive[fate.receiver := if c.handle.Some? then NOTHING else Notified(c, p.status)])
      ensures woken == if fate.Delivered? && fate.resumed.Some? then Some((fate.resumed.value, p.status)) else None
    {
      hide IdOf, Valid, View;
      ViewFields();
      woken, fate := None, Dropped(p);
      if ev.id in bus.callbacks {
        ghost var n := owners[ev.id];
        fate := Delivered(p, n, callbacks[n - 1].suspended);
        woken := Deliver(ev, n);
      }
    }

    method Stop()
      requires Valid()
      modifies this`running
      ensures Valid() && View() == old(View()) && !running
    {
      hide IdOf;
      running := false;
    }

    /** Every callback that came since is a new one. */
    twostate predicate Grown()
      reads this
    {
      && |old(callbacks)| <= |callbacks|
      && forall i :: 0 <= i < |callbacks| ==> callbacks[i] in old(callbacks) || fresh(callbacks[i])
    }

    /** Something a resumed coroutine does with the loop before it suspends again. */
    method Act() returns (ghost step: Option<Step>)
      requires Valid()
      modifies this, bus, callbacks
      ensures Valid() && Grown()
      ensures if step.None? then View() == old(View())
        else Enabled(old(View()), step.value) && View() == Next(old(View()), step.value)
    {
      hide IdOf, Valid, View, Next;
      ViewFields();
      var ev: Event := *;
      var handle: Handle := *;
      if * {
        Stop();
        return None;
      } else if * {
        var callback := GetEventCallback();
        return Some(Register);
      } else if * {
        ghost var target := EveryIdIsPostable(ev.id, |callbacks|);
        AddEvent(ev, target);
        return Some(Post(target, ev.status));
      }
      if bus.callbacks == map[] {
        return None;
      }
      step := ActOnCallback(handle);
    }

    method ActOnCallback(handle: Handle) returns (ghost step: Option<Step>)
      requires Valid() && bus.callbacks != map[]
      modifies this, bus, callbacks
      ensures Valid() && callbacks == old(callbacks)
      ensures step.Some? && Enabled(old(View()), step.value) && View() == Next(old(View()), step.value)
    {
      hide IdOf, Valid, View, Next;
      ViewFields();
      var id :| id in bus.callbacks;
      var callback := bus.callbacks[id];
      ghost var n := Owned(id);
      if * {
        DestroyCallback(callback, n);
        return Some(Destroy(n));
      } else if * {
        AbandonStatus(callback, n);
        return Some(Abandon(n));
      }
      var got := AwaitStatus(callback, n, handle);
      return Some(Await(n, handle));
    }

    lemma Owned(id: Id) returns (n: nat)
      requires Valid() && id in bus.callbacks
      ensures n in living && 1 <= n <= |callbacks| && bus.callbacks[id] == callbacks[n - 1]
    {
      hide IdOf;
      n := owners[id];
    }

    /** What a resumed coroutine does: any number of things. */
    method Resume(ghost start: System, ghost before: seq<Step>) returns (ghost steps: seq<Step>)
      requires Valid() && RunFrom(start, before) == Some(View())
      modifies this, bus, callbacks
      ensures Valid() && Grown() && RunFrom(start, steps) == Some(View())
    {
      hide IdOf, Valid, View, Next, Enabled, RunFrom;
      steps := before;
      var acts: nat := *;
      while 0 < acts
        invariant Valid() && Grown() && RunFrom(start, steps) == Some(View())
      {
        ghost var step := Act();
        if step.Some? {
          RunFromSnoc(start, steps, step.value);
          steps := steps + [step.value];
        }
        acts := acts - 1;
      }
    }

    /**
     * `run`, observed for a number of turns, with what the resumed coroutines do: all that
     * happens is a run of the system, and the loop ends exactly when it has been stopped.
     */
    method Run(turns: nat) returns (made: nat, ghost steps: seq<Step>)
      requires Valid()
      modifies this, bus, callbacks
      ensures Valid() && RunFrom(old(View()), steps) == Some(View())
      ensures made <= turns && (made < turns ==> !running)
      ensures !old(running) ==> made == 0 && steps == []
    {
      hide IdOf, Valid, View, Next, Enabled, RunFrom;
      steps, made := [], 0;
      ghost var start := View();
      NothingFrom(start);
      while running && made < turns
        invariant Valid() && Grown() && made <= turns && RunFrom(start, steps) == Some(View())
        invariant !old(running) ==> made == 0 && steps == [] && !running
      {
        var polled: Event := *;
        ghost var target := EveryIdIsPostable(polled.id, |callbacks|);
        ghost var step := if events == [] then Post(target, polled.status) else Dispatch;
        TurnIsEnabled(step);
        RunFromSnoc(start, steps, step);
        var woken := RunTurn(polled, target);
        steps := steps + [step];
        if woken.Some? {
          steps := Resume(start, steps);
        }
        made := made + 1;
      }
    }

    lemma TurnIsEnabled(step: Step)
      requires Valid()
      requires if events == [] then step.Post? && Postable(|callbacks|, step.target) else step == Dispatch
      ensures Enabled(View(), step)
    {
      hide IdOf;
    }

    ghost method Record(fate: Fate)
      requires Valid()
      modifies this`log
      ensures Valid() && log == old(log) + [fate] && View() == old(View()).(log := log)
    {
      hide IdOf;
      log := log + [fate];
    }

    /** The parts of the state. */
    lemma ViewFields()
      requires Valid()
      ensures View().registered == |callbacks| && (forall i :: 0 <= i < |callbacks| ==> callbacks[i].id == IdOf(i + 1))
      ensures View().events == postings && |events| == |postings| && View().bus == owners && View().log == log
      ensures events != [] ==> events[0] == Event(IdOf(postings[0].target), postings[0].status)
      ensures owners.Keys == bus.callbacks.Keys && (forall id :: id in owners ==> owners[id] in living)
      ensures forall i, j :: 0 <= i < j < |callbacks| ==> callbacks[i] != callbacks[j]
      ensures forall n :: n in living ==>
        n in View().alive && 1 <= n <= |callbacks| && View().alive[n] == callbacks[n - 1].Value()
    {
      hide IdOf;
    }

    /** `m_events.front()` and `pop()`. */
    method TakeEvent() returns (ev: Event)
      requires Valid() && events != []
      modifies this`events, this`postings
      ensures Valid() && View() == old(View()).(events := old(View()).events[1..])
      ensures ev == Event(IdOf(old(postings[0]).target), old(postings[0]).status)
    {
      hide IdOf;
      ev := events[0];
      events := events[1..];
      postings := postings[1..];
    }

    /** `event_bus::notify`, and the resumption of whoever awaits the status. */
    method Deliver(ev: Event, ghost n: nat) returns (woken: Option<(Handle, int)>)
      requires Valid() && ev.id in bus.callbacks && n == owners[ev.id]
      modifies callbacks[n - 1]
      ensures Valid()
      ensures var c := old(callbacks[n - 1].Value());
        var after := if c.handle.Some? then NOTHING else Notified(c, ev.status);
        && View() == old(View()).(alive := old(View()).alive[n := after])
        && woken == if c.handle.Some? then Some((c.handle.value, ev.status)) else None
    {
      hide IdOf;
      woken := None;
      var callback := bus.callbacks[ev.id];
      var resumed := bus.Notify(ev.id, ev.status);
      if resumed.Some? {
        var awaiter := new StatusAwaiter(callback);
        var status := awaiter.AwaitResume();
        woken := Some((resumed.value, status.value));
      }
      CallbackChanged(n);
    }
  }

  lemma DispatchedIs(s: System, fate: Fate)
    requires s.events != []
    requires forall id :: id in s.bus ==> s.bus[id] in s.alive
    requires var p := s.events[0];
      var id := IdOf(p.target);
      fate == if id in s.bus then Delivered(p, s.bus[id], s.alive[s.bus[id]].handle) else Dropped(p)
    ensures Dispatched(s) ==
      var popped := s.(events := s.events[1..], log := s.log + [fate]);
      if fate.Dropped? then popped
      else
        var c := s.alive[fate.receiver];
        popped.(alive := s.alive[fate.receiver := if c.handle.Some? then NOTHING else Notified(c, fate.posting.status)])
  {
    hide IdOf;
  }

  lemma NextIdOf(n: nat)
    ensures NextId(IdOf(n)) == IdOf(n + 1)
  {
  }
}
