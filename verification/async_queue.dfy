/** A queue whose consumer is woken by the first item. */
module AsyncQueues {
  import opened Bytes
  import opened Events
  import opened EventLoops

  /** A queue in a running loop: the number of its callback's registration, and its items. */
  datatype Queue<T> = Queue(loop: System, n: nat, items: seq<T>) {
    /** The consumer waits in `await_items`. */
    predicate Suspended() {
      n in loop.alive && loop.alive[n].handle.Some?
    }

    /** An event with the queue's id waits in the loop. */
    ghost predicate WakeupPending() {
      exists i :: 0 <= i < |loop.events| && loop.events[i].target == n
    }
  }

  /** What the consumer, the producers and the rest of the program do. */
  datatype QueueStep<T> =
    | Push(item: T)
    | Pop
    | AwaitItems(handle: Handle)
    | Other(step: Step)

  /** The queue's own callback is left alone by the rest of the program. */
  predicate Foreign<T>(q: Queue<T>, step: Step) {
    match step
    case Await(m, _) => m != q.n
    case Abandon(m) => m != q.n
    case Destroy(m) => m != q.n
    case _ => true
  }

  /** One consumer: it pops, and awaits again, only when it is not suspended. */
  predicate QueueEnabled<T>(q: Queue<T>, step: QueueStep<T>) {
    match step
    case Push(_) => 1 <= q.n <= q.loop.registered
    case Pop => q.items != [] && !q.Suspended()
    case AwaitItems(_) => q.n in q.loop.alive && !q.Suspended()
    case Other(s) => Foreign(q, s) && Enabled(q.loop, s)
  }

  /** The loop of `await_items`, from its start or from a resumption, up to the next suspension. */
  function AwaitLoop<T>(q: Queue<T>, handle: Handle): Queue<T>
    requires q.n in q.loop.alive && q.loop.alive[q.n].handle.None?
  {
    if q.items != [] then q
    else q.(loop := q.loop.(alive := q.loop.alive[q.n := Stored(None, Some(handle))]))
  }

  function QueueNext<T>(q: Queue<T>, step: QueueStep<T>): Queue<T>
    requires QueueEnabled(q, step)
  {
    match step
    case Push(item) =>
      var loop := if q.items == [] then Next(q.loop, Post(q.n, 0)) else q.loop;
      q.(loop := loop, items := q.items + [item])
    case Pop => q.(items := q.items[1..])
    case AwaitItems(handle) => AwaitLoop(q, handle)
    case Other(s) =>
      var after := q.(loop := Next(q.loop, s));
      if q.Suspended() && !after.Suspended() && q.n in after.loop.alive
      then AwaitLoop(after, q.loop.alive[q.n].handle.value)
      else after
  }

  /** The state after a sequence of steps from q, if each is possible. */
  function QueueRun<T>(q: Queue<T>, steps: seq<QueueStep<T>>): Option<Queue<T>> {
    if steps == [] then Some(q)
    else
      match QueueRun(q, steps[..|steps| - 1])
      case None => None
      case Some(s) => if QueueEnabled(s, steps[|steps| - 1]) then Some(QueueNext(s, steps[|steps| - 1])) else None
  }

  /** A queue just constructed in a running loop. */
  function Created<T>(loop: System): Queue<T> {
    Queue(Next(loop, Register), loop.registered + 1, [])
  }

  /** Nothing is lost: a suspended consumer of a non-empty queue has its wakeup pending. */
  ghost predicate NoLostWakeup<T>(q: Queue<T>) {
    && Registered(q.loop) && q.n in q.loop.alive && q.loop.alive[q.n].NotBoth()
    && (q.Suspended() && q.items != [] ==> q.WakeupPending())
  }

  /** The queue's own event ends the suspension; any other leaves it and its wakeup alone. */
  lemma DispatchKeepsWakeup<T>(q: Queue<T>)
    requires NoLostWakeup(q) && q.loop.events != [] && q.loop.registered <= WORD64
    ensures var after := QueueNext(q, Other(Dispatch));
      && NoLostWakeup(after) && after.items == q.items
      && after.loop.events == q.loop.events[1..]
      && (q.loop.events[0].target == q.n && q.items != [] ==> !after.Suspended())
      && (q.loop.events[0].target != q.n ==> after.Suspended() == q.Suspended())
  {
    var after := QueueNext(q, Other(Dispatch));
    var target := q.loop.events[0].target;
    RegisteredStep(q.loop, Dispatch);
    if target != q.n {
      IdsDistinct(target, q.n);
    }
    assert forall i :: 1 <= i < |q.loop.events| ==> after.loop.events[i - 1] == q.loop.events[i];
    hide IdOf;
    assert target != q.n ==> after.loop.alive[q.n] == q.loop.alive[q.n];
    if after.Suspended() && after.items != [] {
      var i :| 0 <= i < |q.loop.events| && q.loop.events[i].target == q.n;
      assert after.loop.events[i - 1].target == q.n;
    }
  }

  /** A push posts a wakeup, with the queue's own id, exactly if it finds the queue empty. */
  lemma PushPostsIff<T>(q: Queue<T>, item: T)
    requires QueueEnabled(q, Push(item))
    ensures
      var after := QueueNext(q, Push(item));
      && (q.items == [] <==> after.loop.events != q.loop.events)
      && (q.items == [] ==> after.loop.events == q.loop.events + [Posting(q.n, 0)])
      && after.loop == q.loop.(events := after.loop.events)
  {
    assert |q.loop.events + [Posting(q.n, 0)]| > |q.loop.events|;
  }

  lemma PushKeepsWakeup<T>(q: Queue<T>, item: T)
    requires NoLostWakeup(q)
    ensures NoLostWakeup(QueueNext(q, Push(item)))
  {
    RegisteredStep(q.loop, Post(q.n, 0));
    hide Registered, IdOf;
    if q.items == [] {
      var events := QueueNext(q, Push(item)).loop.events;
      assert events[|events| - 1].target == q.n;
    } else if q.Suspended() {
      assert q.WakeupPending();
    }
  }

  lemma OtherKeepsWakeup<T>(q: Queue<T>, step: Step)
    requires NoLostWakeup(q) && QueueEnabled(q, Other(step)) && !step.Dispatch?
    ensures NoLostWakeup(QueueNext(q, Other(step)))
  {
    RegisteredStep(q.loop, step);
    var after := Next(q.loop, step);
    assert forall i :: 0 <= i < |q.loop.events| ==> after.events[i] == q.loop.events[i];
    assert step.Register? ==> q.n != q.loop.registered + 1;
    assert after.alive[q.n] == q.loop.alive[q.n];
    hide Registered, IdOf;
  }

  lemma NoLostWakeupStep<T>(q: Queue<T>, step: QueueStep<T>)
    requires NoLostWakeup(q) && QueueEnabled(q, step)
    requires QueueNext(q, step).loop.registered <= WORD64
    ensures NoLostWakeup(QueueNext(q, step))
  {
    match step {
      case Push(item) => PushKeepsWakeup(q, item);
      case Pop =>
      case AwaitItems(handle) =>
        RegisteredStep(q.loop, Await(q.n, handle));
        hide IdOf;
      case Other(other) =>
        if other.Dispatch? {
          DispatchKeepsWakeup(q);
        } else {
          OtherKeepsWakeup(q, other);
        }
    }
  }

  lemma CreatedLosesNothing<T>(loop: System, q: Queue<T>)
    requires Registered(loop) && q == Created(loop)
    ensures NoLostWakeup(q)
  {
    RegisteredStep(loop, Register);
    hide IdOf;
  }

  lemma OnlyMoreRegistered<T>(q: Queue<T>, step: QueueStep<T>)
    requires QueueEnabled(q, step)
    ensures q.loop.registered <= QueueNext(q, step).loop.registered
  {
  }

  /**
   * In every run with one consumer: whenever it is suspended and there are items, an event
   * with the queue's id is pending.
   */
  lemma {:induction false} NoWakeupIsLost<T>(loop: System, steps: seq<QueueStep<T>>)
    requires Registered(loop) && QueueRun(Created(loop), steps).Some?
    requires QueueRun(Created(loop), steps).value.loop.registered <= WORD64
    ensures NoLostWakeup(QueueRun(Created(loop), steps).value)
  {
    var q: Queue<T> := Created(loop);
    CreatedLosesNothing(loop, q);
    hide NoLostWakeup, QueueEnabled, QueueNext, Registered, Created;
    if steps != [] {
      var front, last := steps[..|steps| - 1], steps[|steps| - 1];
      OnlyMoreRegistered(QueueRun(q, front).value, last);
      NoWakeupIsLost(loop, front);
      NoLostWakeupStep(QueueRun(q, front).value, last);
    }
  }

  /** The position of the first event with the queue's id. */
  function FirstOwn(events: seq<Posting>, n: nat): (k: nat)
    ensures k <= |events|
    ensures forall i :: 0 <= i < k ==> events[i].target != n
    ensures k < |events| ==> events[k].target == n
  {
    if events == [] || events[0].target == n then 0 else 1 + FirstOwn(events[1..], n)
  }

  /** The loop dispatching the next k events, while nothing else happens. */
  function Drained<T>(q: Queue<T>, k: nat): Queue<T>
    requires k <= |q.loop.events|
    decreases k
  {
    if k == 0 then q
    else
      var after := QueueNext(q, Other(Dispatch));
      assert |after.loop.events| == |q.loop.events| - 1;
      Drained(after, k - 1)
  }

  /** The pending wakeup comes: the first event of the queue's own id, and none before, wakes the consumer. */
  lemma {:induction false} WakeupComes<T>(q: Queue<T>, k: nat)
    requires NoLostWakeup(q) && q.loop.registered <= WORD64 && q.Suspended() && q.items != []
    requires k <= FirstOwn(q.loop.events, q.n) + 1
    ensures FirstOwn(q.loop.events, q.n) < |q.loop.events|
    ensures Drained(q, k).items == q.items
    ensures Drained(q, k).Suspended() <==> k <= FirstOwn(q.loop.events, q.n)
    decreases k
  {
    if k > 0 {
      var after := QueueNext(q, Other(Dispatch));
      DispatchKeepsWakeup(q);
      assert after.loop.registered == q.loop.registered && after.n == q.n;
      hide NoLostWakeup, QueueNext;
      if q.loop.events[0].target != q.n {
        WakeupComes(after, k - 1);
      } else {
        assert k == 1;
        assert Drained(after, 0) == after;
      }
    }
  }

  // ------------------------------------------------------------ items

  function Pushed<T>(steps: seq<QueueStep<T>>): seq<T> {
    if steps == [] then []
    else
      var last := steps[|steps| - 1];
      Pushed(steps[..|steps| - 1]) + if last.Push? then [last.item] else []
  }

  /** The items popped in a run, in order. */
  function Popped<T>(q: Queue<T>, steps: seq<QueueStep<T>>): seq<T>
    requires QueueRun(q, steps).Some?
  {
    if steps == [] then []
    else
      var front := steps[..|steps| - 1];
      Popped(q, front) + if steps[|steps| - 1].Pop? then [QueueRun(q, front).value.items[0]] else []
  }

  lemma ItemsStep<T>(q: Queue<T>, step: QueueStep<T>)
    requires QueueEnabled(q, step)
    ensures QueueNext(q, step).items ==
      match step
      case Push(item) => q.items + [item]
      case Pop => q.items[1..]
      case _ => q.items
  {
  }

  lemma Shift<T>(a: seq<T>, b: seq<T>, c: seq<T>, d: seq<T>, more: seq<T>)
    requires a + b == c + d
    ensures a + (b + more) == c + (d + more)
    ensures d != [] ==> a + (b + []) == (c + [d[0]]) + d[1..]
  {
    assert (a + b) + more == a + (b + more) && (c + d) + more == c + (d + more);
    assert b + [] == b && (d != [] ==> c + d == (c + [d[0]]) + d[1..]);
  }

  /** Items leave in the order they came, each once. */
  lemma {:induction false} ItemsAreConserved<T>(q: Queue<T>, steps: seq<QueueStep<T>>)
    requires QueueRun(q, steps).Some?
    ensures q.items + Pushed(steps) == Popped(q, steps) + QueueRun(q, steps).value.items
  {
    if steps == [] {
      assert q.items + [] == [] + q.items;
    } else {
      var front, last := steps[..|steps| - 1], steps[|steps| - 1];
      ItemsAreConserved(q, front);
      var s := QueueRun(q, front).value;
      ItemsStep(s, last);
      hide QueueNext;
      Shift(q.items, Pushed(front), Popped(q, front), s.items, if last.Push? then [last.item] else []);
      assert Popped(q, front) + [] == Popped(q, front) && s.items + [] == s.items;
    }
  }

  // ------------------------------------------------------------ the object

  class AsyncQueue<T> {
    const loop: EventLoop
    const callback: EventCallback
    ghost const number: nat
    var items: seq<T>

    ghost predicate Valid()
      reads this, loop, loop.bus, loop.callbacks
    {
      loop.Valid() && number in loop.living && callback == loop.callbacks[number - 1]
    }

    ghost function View(): Queue<T>
      reads this, loop, loop.bus, loop.callbacks
      requires Valid()
    {
      Queue(loop.View(), number, items)
    }

    constructor (loop: EventLoop)
      requires loop.Valid()
      modifies loop, loop.bus
      ensures Valid() && this.loop == loop && View() == Created(old(loop.View()))
    {
      hide EventLoop.Valid, EventLoop.View;
      loop.ViewFields();
      ghost var n := |loop.callbacks| + 1;
      var registered := loop.GetEventCallback();
      this.loop, callback, items, number := loop, registered, [], n;
      new;
      loop.ViewFields();
    }

    /** The first item wakes the consumer. */
    method Push(item: T)
      requires Valid()
      modifies this, loop`events, loop`postings
      ensures Valid() && View() == QueueNext(old(View()), QueueStep.Push(item))
    {
      hide EventLoop.Valid, EventLoop.View, IdOf;
      loop.ViewFields();
      if items == [] {
        loop.AddEvent(Event(callback.id, 0), number);
      }
      items := items + [item];
    }

    method Pop()
      requires Valid() && items != [] && !View().Suspended()
      modifies this
      ensures Valid() && View() == QueueNext(old(View()), QueueStep.Pop)
    {
      hide EventLoop.Valid, EventLoop.View;
      items := items[1..];
    }

    /**
     * `await_items`, from its start or from a resumption: the number of items, which is
     * not zero, or None when the coroutine is suspended.
     */
    method AwaitItems(handle: Handle) returns (count: Option<nat>)
      requires Valid() && callback.suspended == None
      modifies callback
      ensures Valid() && View() == AwaitLoop(old(View()), handle)
      ensures if items == [] then count == None && callback.suspended == Some(handle) else count == Some(|items|)
    {
      hide EventLoop.Valid, EventLoop.View, IdOf;
      ghost var s := View();
      loop.ViewFields();
      assert s.loop.alive[number := callback.Value()] == s.loop.alive;
      while items == []
        invariant Valid() && callback.suspended == None && items == s.items
        invariant View().loop == s.loop.(alive := s.loop.alive[number := callback.Value()])
        invariant items != [] ==> View() == s
        decreases callback.status.Some?
      {
        loop.ViewFields();
        var a := loop.AwaitStatus(callback, number, handle);
        loop.ViewFields();
        if a.Waits? {
          return None;
        }
      }
      return Some(|items|);
    }

    /**
     * One turn of the loop; if it wakes this queue's consumer, that goes on in `await_items`.
     * The consumer gets the number of items exactly if it was suspended and no longer is.
     */
    method RunTurn(polled: Event, ghost target: nat) returns (count: Option<nat>)
      requires Valid() && loop.Valid()
      requires loop.events == [] ==> Postable(|loop.callbacks|, target) && polled.id == IdOf(target)
      modifies loop`events, loop`postings, loop`log, loop.callbacks
      ensures Valid()
      ensures
        var step := if old(loop.events) == [] then Post(target, polled.status) else Dispatch;
        View() == QueueNext(old(View()), Other(step))
      ensures count == if old(View()).Suspended() && !View().Suspended() then Some(|items|) else None
      ensures count.Some? ==> count.value > 0
    {
      hide EventLoop.Valid, EventLoop.View, IdOf, Next;
      count := None;
      loop.ViewFields();
      var waiting := callback.suspended;
      assert View().Suspended() <==> waiting.Some?;
      var woken := loop.RunTurn(polled, target);
      loop.ViewFields();
      if waiting.Some? && callback.suspended.None? {
        count := AwaitItems(waiting.value);
        loop.ViewFields();
      }
    }
  }
}
