/** The connection pool, over all interleavings at its suspension points. */
module PgDatabases {
  import opened Bytes

  /** A connection, by the order in which connections were made. */
  type Conn = nat

  /**
   * The pool and its callers.  The wakeups are the events that `release` has added to the
   * loop for waiters; waiters are numbered in the order in which they came.
   */
  datatype Pool = Pool(
    max: int,
    count: int,              // m_conn_count
    idle: seq<Conn>,         // m_idle
    waiting: seq<nat>,       // m_waiting
    wakeups: seq<nat>,
    connecting: nat,         // callers inside connect
    initialising: set<Conn>, // constructed, inside init
    lent: set<Conn>,
    leaked: nat,             // closed without being uncounted
    made: nat,
    joined: nat,
    served: nat,
    crashed: bool)           // front() of an empty queue

  function Empty(max: int): Pool {
    Pool(max, 0, [], [], [], 0, {}, {}, 0, 0, 0, 0, false)
  }

  datatype PoolStep =
    | GetConnection
    | Connected
    | ConnectFailed
    | Initialised(c: Conn)
    | InitFailed(c: Conn)
    | Woken
    | Release(c: Conn)
    | Discard(c: Conn)       // the caller destroys the connection
    | Overwrite(c: Conn)     // the caller moves another connection over it

  predicate PoolEnabled(s: Pool, step: PoolStep) {
    && !s.crashed
    && match step
       case GetConnection => true
       case Connected => s.connecting > 0
       case ConnectFailed => s.connecting > 0
       case Initialised(c) => c in s.initialising
       case InitFailed(c) => c in s.initialising
       case Woken => s.wakeups != []
       case Release(c) => c in s.lent
       case Discard(c) => c in s.lent
       case Overwrite(c) => c in s.lent
  }

  /** The first test of `get_connection`: this call opens a connection. */
  predicate StartsConnect(s: Pool) {
    s.idle == [] && s.count < s.max
  }

  /** A caller leaves with the front idle connection; without one its behaviour is undefined. */
  function TakeIdle(s: Pool): Pool {
    if s.idle == [] then s.(crashed := true)
    else s.(idle := s.idle[1..], lent := s.lent + {s.idle[0]})
  }

  function PoolNext(s: Pool, step: PoolStep): Pool
    requires PoolEnabled(s, step)
  {
    match step
    case GetConnection =>
      if StartsConnect(s) then s.(connecting := s.connecting + 1)
      else if s.idle == [] then s.(waiting := s.waiting + [s.joined], joined := s.joined + 1)
      else TakeIdle(s)
    case Connected =>
      s.(connecting := s.connecting - 1, count := s.count + 1,
         initialising := s.initialising + {s.made}, made := s.made + 1)
    case ConnectFailed => s.(connecting := s.connecting - 1)
    case Initialised(c) => s.(initialising := s.initialising - {c}, lent := s.lent + {c})
    case InitFailed(c) => s.(initialising := s.initialising - {c}, count := s.count - 1)
    case Woken => TakeIdle(s.(wakeups := s.wakeups[1..], served := s.served + 1))
    case Release(c) =>
      var t := s.(lent := s.lent - {c}, idle := s.idle + [c]);
      if t.waiting == [] then t else t.(waiting := t.waiting[1..], wakeups := t.wakeups + [t.waiting[0]])
    case Discard(c) => s.(lent := s.lent - {c}, count := s.count - 1)
    case Overwrite(c) => s.(lent := s.lent - {c}, leaked := s.leaked + 1)
  }

  /** The state after a sequence of steps from s, if each is possible. */
  function PoolFrom(s: Pool, steps: seq<PoolStep>): Option<Pool> {
    if steps == [] then Some(s)
    else
      match PoolFrom(s, steps[..|steps| - 1])
      case None => None
      case Some(t) =>
        if PoolEnabled(t, steps[|steps| - 1]) then Some(PoolNext(t, steps[|steps| - 1])) else None
  }

  function PoolRun(max: int, steps: seq<PoolStep>): Option<Pool> {
    PoolFrom(Empty(max), steps)
  }

  // ------------------------------------------------------------ every run

  /** Every connection is idle, lent to one caller or being initialised; these and the leaked ones are counted. */
  ghost predicate Accounted(s: Pool) {
    && s.count == |s.idle| + |s.lent| + |s.initialising| + s.leaked
    && (forall i, j :: 0 <= i < j < |s.idle| ==> s.idle[i] != s.idle[j])
    && (forall i :: 0 <= i < |s.idle| ==> s.idle[i] < s.made && s.idle[i] !in s.lent && s.idle[i] !in s.initialising)
    && (forall c :: c in s.lent ==> c < s.made && c !in s.initialising)
    && (forall c :: c in s.initialising ==> c < s.made)
  }

  /** The pending wakeups and then the queue are the waiters not yet served, in order of arrival. */
  ghost predicate InOrder(s: Pool) {
    && s.served + |s.wakeups| + |s.waiting| == s.joined
    && (forall i :: 0 <= i < |s.wakeups| ==> s.wakeups[i] == s.served + i)
    && (forall i :: 0 <= i < |s.waiting| ==> s.waiting[i] == s.served + |s.wakeups| + i)
  }

  /** While anyone is queued, every idle connection has been promised to a woken waiter. */
  ghost predicate NoIdleUnpromised(s: Pool) {
    s.waiting != [] ==> |s.idle| <= |s.wakeups|
  }

  ghost predicate PoolInvariant(s: Pool) {
    Accounted(s) && InOrder(s) && NoIdleUnpromised(s)
  }

  lemma TakeIdleAccounted(s: Pool)
    requires Accounted(s)
    ensures Accounted(TakeIdle(s))
  {
    if s.idle != [] {
      var t := TakeIdle(s);
      assert forall i :: 0 <= i < |t.idle| ==> t.idle[i] == s.idle[i + 1];
    }
  }

  lemma ReturnAccounted(s: Pool, c: Conn)
    requires Accounted(s) && c in s.lent
    ensures Accounted(s.(lent := s.lent - {c}, idle := s.idle + [c]))
  {
  }

  /** Only these parts of the state are accounts. */
  lemma SameAccounts(s: Pool, t: Pool)
    requires Accounted(s) && s.count == t.count && s.idle == t.idle && s.lent == t.lent
    requires s.initialising == t.initialising && s.made == t.made && s.leaked == t.leaked
    ensures Accounted(t)
  {
  }

  lemma MadeAccounted(s: Pool, step: PoolStep)
    requires Accounted(s) && PoolEnabled(s, step)
    requires step.Connected? || step.Initialised? || step.InitFailed? || step.Discard? || step.Overwrite?
    ensures Accounted(PoolNext(s, step))
  {
  }

  lemma AccountedStep(s: Pool, step: PoolStep)
    requires Accounted(s) && PoolEnabled(s, step)
    ensures Accounted(PoolNext(s, step))
  {
    hide Accounted, TakeIdle;
    var t := PoolNext(s, step);
    match step {
      case GetConnection =>
        TakeIdleAccounted(s);
        if s.idle == [] {
          SameAccounts(s, t);
        }
      case ConnectFailed => SameAccounts(s, t);
      case Woken =>
        var popped := s.(wakeups := s.wakeups[1..], served := s.served + 1);
        SameAccounts(s, popped);
        TakeIdleAccounted(popped);
      case Release(c) =>
        ReturnAccounted(s, c);
        SameAccounts(s.(lent := s.lent - {c}, idle := s.idle + [c]), t);
      case _ => MadeAccounted(s, step);
    }
  }

  lemma InOrderStep(s: Pool, step: PoolStep)
    requires InOrder(s) && PoolEnabled(s, step)
    ensures InOrder(PoolNext(s, step))
  {
  }

  lemma PoolInvariantStep(s: Pool, step: PoolStep)
    requires PoolInvariant(s) && PoolEnabled(s, step)
    ensures PoolInvariant(PoolNext(s, step))
  {
    AccountedStep(s, step);
    InOrderStep(s, step);
    hide Accounted, InOrder;
  }

  /** In every run, whatever the interleaving. */
  lemma {:induction false} PoolKeepsAccounts(max: int, steps: seq<PoolStep>)
    requires PoolRun(max, steps).Some?
    ensures PoolInvariant(PoolRun(max, steps).value)
  {
    if steps != [] {
      PoolKeepsAccounts(max, steps[..|steps| - 1]);
      PoolInvariantStep(PoolRun(max, steps[..|steps| - 1]).value, steps[|steps| - 1]);
    }
  }

  function Overwrites(steps: seq<PoolStep>): nat {
    if steps == [] then 0
    else Overwrites(steps[..|steps| - 1]) + if steps[|steps| - 1].Overwrite? then 1 else 0
  }

  lemma {:induction false} LeakedByOverwriting(max: int, steps: seq<PoolStep>)
    requires PoolRun(max, steps).Some?
    ensures PoolRun(max, steps).value.leaked == Overwrites(steps)
  {
    if steps != [] {
      LeakedByOverwriting(max, steps[..|steps| - 1]);
    }
  }

  lemma {:induction false} NoneOverwritten(steps: seq<PoolStep>)
    ensures Overwrites(steps) == 0 <==> forall i :: 0 <= i < |steps| ==> !steps[i].Overwrite?
  {
    if steps != [] {
      NoneOverwritten(steps[..|steps| - 1]);
    }
  }

  /** The count is that of the connections there are, exactly in the runs that overwrite none. */
  lemma CountExactIff(max: int, steps: seq<PoolStep>)
    requires PoolRun(max, steps).Some?
    ensures var s := PoolRun(max, steps).value;
      s.count == |s.idle| + |s.lent| + |s.initialising| <==> forall i :: 0 <= i < |steps| ==> !steps[i].Overwrite?
  {
    PoolKeepsAccounts(max, steps);
    LeakedByOverwriting(max, steps);
    NoneOverwritten(steps);
  }

  lemma NoSteps(max: int, steps: seq<PoolStep>)
    ensures PoolRun(max, steps[..0]) == Some(Empty(max))
  {
  }

  /** The next of these steps, from where the run is to where it goes. */
  lemma RunsTo(max: int, steps: seq<PoolStep>, k: nat, s: Pool, t: Pool)
    requires k < |steps| && PoolRun(max, steps[..k]) == Some(s)
    requires PoolEnabled(s, steps[k]) && PoolNext(s, steps[k]) == t
    ensures PoolRun(max, steps[..k + 1]) == Some(t)
  {
    assert steps[..k + 1][..k] == steps[..k];
  }

  /** The only connection, lent to the only caller. */
  function OneLent(max: int): Pool {
    Empty(max).(count := 1, made := 1, lent := {0})
  }

  lemma FirstIsLent(max: int, steps: seq<PoolStep>)
    requires 1 <= max && |steps| >= 3
    requires steps[0] == GetConnection && steps[1] == Connected && steps[2] == Initialised(0)
    ensures PoolRun(max, steps[..3]) == Some(OneLent(max))
  {
    hide PoolRun, PoolFrom, TakeIdle;
    NoSteps(max, steps);
    var p0 := Empty(max);
    var p1 := PoolNext(p0, GetConnection);
    RunsTo(max, steps, 0, p0, p1);
    var p2 := PoolNext(p1, Connected);
    RunsTo(max, steps, 1, p1, p2);
    var p3 := PoolNext(p2, Initialised(0));
    RunsTo(max, steps, 2, p2, p3);
    assert p3 == OneLent(max);
  }

  lemma SecondIsLent(s: Pool, c: Conn)
    requires !s.crashed && s.idle == [] && s.count < s.max && s.connecting == 0 && s.initialising == {} && s.made == c
    ensures PoolEnabled(s, GetConnection)
    ensures
      var t := PoolNext(s, GetConnection);
      PoolEnabled(t, Connected) && PoolEnabled(PoolNext(t, Connected), Initialised(c))
      && PoolNext(PoolNext(t, Connected), Initialised(c))
         == s.(count := s.count + 1, made := s.made + 1, lent := s.lent + {c})
  {
    hide TakeIdle;
    assert s.initialising + {c} - {c} == {};
  }

  lemma FirstIsOverwritten(s: Pool)
    requires !s.crashed && s.lent == {0} + {1}
    ensures PoolEnabled(s, Overwrite(0))
    ensures PoolNext(s, Overwrite(0)) == s.(lent := {1}, leaked := s.leaked + 1)
  {
    assert s.lent - {0} == {1};
  }

  /** A second connection moved over the first: one is left, and two are counted. */
  lemma OverwritingLeaks()
    ensures
      var steps :=
        [GetConnection, Connected, Initialised(0), GetConnection, Connected, Initialised(1), Overwrite(0)];
      && PoolRun(2, steps).Some?
      && var s := PoolRun(2, steps).value;
         s.count == 2 && s.lent == {1} && s.idle == [] && s.initialising == {}
  {
    hide PoolRun, PoolFrom, PoolNext, PoolEnabled;
    var steps := [GetConnection, Connected, Initialised(0), GetConnection, Connected, Initialised(1), Overwrite(0)];
    FirstIsLent(2, steps);
    var p3 := OneLent(2);
    SecondIsLent(p3, 1);
    var p4 := PoolNext(p3, GetConnection);
    RunsTo(2, steps, 3, p3, p4);
    var p5 := PoolNext(p4, Connected);
    RunsTo(2, steps, 4, p4, p5);
    var p6 := PoolNext(p5, Initialised(1));
    RunsTo(2, steps, 5, p5, p6);
    FirstIsOverwritten(p6);
    RunsTo(2, steps, 6, p6, PoolNext(p6, Overwrite(0)));
    assert steps[..7] == steps;
  }

  // ------------------------------------------------------------ the order of reuse

  /** A caller opens a connection only where none is idle and the limit allows it, and waits only where it does not. */
  lemma GetConnectionIff(s: Pool)
    requires PoolEnabled(s, GetConnection) && Accounted(s)
    ensures
      var t := PoolNext(s, GetConnection);
      && (t.connecting > s.connecting <==> s.idle == [] && s.count < s.max)
      && (t.waiting != s.waiting <==> s.idle == [] && s.count >= s.max)
      && (t.lent != s.lent <==> s.idle != [])
      && !t.crashed
  {
    assert |s.waiting + [s.joined]| > |s.waiting|;
    if s.idle != [] {
      assert s.idle[0] in PoolNext(s, GetConnection).lent && s.idle[0] !in s.lent;
    }
  }

  /** The connections that are released, in order. */
  function Returned(steps: seq<PoolStep>): seq<Conn> {
    if steps == [] then []
    else
      var last := steps[|steps| - 1];
      Returned(steps[..|steps| - 1]) + if last.Release? then [last.c] else []
  }

  /** The connections that callers, fresh or woken, get from the pool, in order. */
  ghost function Handed(max: int, steps: seq<PoolStep>): seq<Conn>
    requires PoolRun(max, steps).Some?
  {
    if steps == [] then []
    else
      var front, last := steps[..|steps| - 1], steps[|steps| - 1];
      var s, t := PoolRun(max, front).value, PoolRun(max, steps).value;
      Handed(max, front) +
      if (last.GetConnection? || last.Woken?) && exists c :: c in t.lent && c !in s.lent then
        var c :| c in t.lent && c !in s.lent;
        [c]
      else []
  }

  /** Who takes a connection gets the front one. */
  lemma TakenIsFront(s: Pool, step: PoolStep)
    requires Accounted(s) && PoolEnabled(s, step) && (step.GetConnection? || step.Woken?)
    ensures
      var t := PoolNext(s, step);
      if exists c :: c in t.lent && c !in s.lent
      then s.idle != [] && t.idle == s.idle[1..] && forall c :: c in t.lent && c !in s.lent ==> c == s.idle[0]
      else t.idle == s.idle
  {
    if s.idle != [] && !(step.GetConnection? && StartsConnect(s)) {
      assert s.idle[0] in PoolNext(s, step).lent && s.idle[0] !in s.lent;
    }
  }

  lemma OthersDoNotTake(s: Pool, step: PoolStep)
    requires PoolEnabled(s, step) && !step.GetConnection? && !step.Woken?
    ensures PoolNext(s, step).idle == s.idle + if step.Release? then [step.c] else []
  {
    assert s.idle + [] == s.idle;
  }

  /** In every run the connections are handed out in the order of their release: those not yet are idle. */
  lemma {:induction false} ReuseIsFifo(max: int, steps: seq<PoolStep>)
    requires PoolRun(max, steps).Some?
    ensures Returned(steps) == Handed(max, steps) + PoolRun(max, steps).value.idle
  {
    if steps != [] {
      var front, last := steps[..|steps| - 1], steps[|steps| - 1];
      ReuseIsFifo(max, front);
      PoolKeepsAccounts(max, front);
      var s := PoolRun(max, front).value;
      hide PoolNext, PoolEnabled, Accounted, InOrder, NoIdleUnpromised;
      if last.GetConnection? || last.Woken? {
        TakenIsFront(s, last);
      } else {
        OthersDoNotTake(s, last);
      }
      Reorder(Handed(max, front), s.idle);
    }
  }

  lemma Reorder(a: seq<Conn>, b: seq<Conn>)
    ensures b != [] ==> a + b == (a + [b[0]]) + b[1..]
    ensures a + [] == a && forall c: seq<Conn> :: (a + b) + c == a + (b + c)
  {
  }

  // ------------------------------------------------------------ the limit

  /** Every call that opens a connection finds room for those already being opened, too. */
  ghost predicate Careful(max: int, steps: seq<PoolStep>)
    requires PoolRun(max, steps).Some?
  {
    steps == [] ||
    (var s := PoolRun(max, steps[..|steps| - 1]).value;
     && Careful(max, steps[..|steps| - 1])
     && (steps[|steps| - 1] == GetConnection && StartsConnect(s) ==> s.count + s.connecting < max))
  }

  /** The connections there are and the ones being opened stay within the limit throughout. */
  ghost predicate Bounded(max: int, steps: seq<PoolStep>)
    requires PoolRun(max, steps).Some?
  {
    var s := PoolRun(max, steps).value;
    s.count + s.connecting <= max && (steps == [] || Bounded(max, steps[..|steps| - 1]))
  }

  lemma {:induction false} MaxIsConstant(max: int, steps: seq<PoolStep>)
    requires PoolRun(max, steps).Some?
    ensures PoolRun(max, steps).value.max == max
  {
    if steps != [] {
      MaxIsConstant(max, steps[..|steps| - 1]);
    }
  }

  /** A run stays within the limit exactly when it is careful. */
  lemma {:induction false} BoundedIffCareful(max: int, steps: seq<PoolStep>)
    requires PoolRun(max, steps).Some? && 0 <= max
    ensures Bounded(max, steps) <==> Careful(max, steps)
  {
    if steps != [] {
      var front := steps[..|steps| - 1];
      MaxIsConstant(max, front);
      BoundedIffCareful(max, front);
    }
  }

  /** No two calls of `get_connection` overlap while one of them connects. */
  ghost predicate NoOverlap(max: int, steps: seq<PoolStep>)
    requires PoolRun(max, steps).Some?
  {
    steps == [] ||
    (var s := PoolRun(max, steps[..|steps| - 1]).value;
     && NoOverlap(max, steps[..|steps| - 1])
     && (steps[|steps| - 1] == GetConnection ==> s.connecting == 0))
  }

  lemma {:induction false} NoOverlapIsCareful(max: int, steps: seq<PoolStep>)
    requires PoolRun(max, steps).Some? && NoOverlap(max, steps)
    ensures Careful(max, steps)
  {
    if steps != [] {
      var front := steps[..|steps| - 1];
      MaxIsConstant(max, front);
      NoOverlapIsCareful(max, front);
    }
  }

  /** Two calls that overlap in connect open two connections where one is allowed. */
  lemma OverlapExceedsLimit()
    ensures var steps := [GetConnection, GetConnection, Connected, Connected];
      PoolRun(1, steps).Some? && PoolRun(1, steps).value.count == 2
  {
    hide PoolRun, PoolFrom, TakeIdle;
    var steps := [GetConnection, GetConnection, Connected, Connected];
    NoSteps(1, steps);
    var p0 := Empty(1);
    var p1 := PoolNext(p0, GetConnection);
    RunsTo(1, steps, 0, p0, p1);
    var p2 := PoolNext(p1, GetConnection);
    RunsTo(1, steps, 1, p1, p2);
    var p3 := PoolNext(p2, Connected);
    RunsTo(1, steps, 2, p2, p3);
    var p4 := PoolNext(p3, Connected);
    RunsTo(1, steps, 3, p3, p4);
    assert steps[..4] == steps;
  }

  // ------------------------------------------------------------ the hand-off

  /** No fresh caller takes an idle connection that a woken waiter was promised. */
  ghost predicate NoBarging(max: int, steps: seq<PoolStep>)
    requires PoolRun(max, steps).Some?
  {
    steps == [] ||
    (var s := PoolRun(max, steps[..|steps| - 1]).value;
     && NoBarging(max, steps[..|steps| - 1])
     && (steps[|steps| - 1] == GetConnection && s.idle != [] ==> |s.idle| > |s.wakeups|))
  }

  /** Throughout, there is an idle connection for every woken waiter. */
  ghost predicate Promised(max: int, steps: seq<PoolStep>)
    requires PoolRun(max, steps).Some?
  {
    var s := PoolRun(max, steps).value;
    |s.wakeups| <= |s.idle| && !s.crashed && (steps == [] || Promised(max, steps[..|steps| - 1]))
  }

  /** Every woken waiter finds its connection, in every prefix of a run, exactly when nobody barges. */
  lemma {:induction false} PromisedIffNoBarging(max: int, steps: seq<PoolStep>)
    requires PoolRun(max, steps).Some?
    ensures Promised(max, steps) <==> NoBarging(max, steps)
  {
    if steps != [] {
      PromisedIffNoBarging(max, steps[..|steps| - 1]);
    }
  }

  /** The woken waiters resuming one after the other, up to the first that fails. */
  function WakeAll(s: Pool): Pool
    decreases |s.wakeups|
  {
    if s.wakeups == [] || s.crashed then s else WakeAll(PoolNext(s, Woken))
  }

  /** When the pending wakeups are dispatched, a waiter finds no connection exactly if there are too few. */
  lemma {:induction false} WakingFailsIff(s: Pool)
    requires !s.crashed
    ensures WakeAll(s).crashed <==> |s.wakeups| > |s.idle|
    ensures |s.wakeups| <= |s.idle| ==>
      WakeAll(s).idle == s.idle[|s.wakeups|..] && WakeAll(s).served == s.served + |s.wakeups|
    decreases |s.wakeups|
  {
    if s.wakeups != [] && s.idle != [] {
      WakingFailsIff(PoolNext(s, Woken));
    }
  }

  lemma WaiterIsWoken()
    ensures PoolEnabled(OneLent(1), GetConnection)
    ensures
      var t := PoolNext(OneLent(1), GetConnection);
      && PoolEnabled(t, Release(0))
      && PoolNext(t, Release(0)) == OneLent(1).(lent := {}, idle := [0], wakeups := [0], joined := 1)
  {
  }

  lemma CallerBarges(s: Pool)
    requires !s.crashed && s.idle == [0] && |s.wakeups| == 1 && s.count >= s.max
    ensures PoolEnabled(s, GetConnection) && PoolEnabled(PoolNext(s, GetConnection), Woken)
    ensures PoolNext(PoolNext(s, GetConnection), Woken).crashed
  {
  }

  /** A fresh caller takes the connection that woke a waiter, and the waiter finds none. */
  lemma BargingStrandsWaiter()
    ensures var steps := [GetConnection, Connected, Initialised(0), GetConnection, Release(0), GetConnection, Woken];
      PoolRun(1, steps).Some? && PoolRun(1, steps).value.crashed
  {
    hide PoolRun, PoolFrom, PoolNext, PoolEnabled;
    var steps := [GetConnection, Connected, Initialised(0), GetConnection, Release(0), GetConnection, Woken];
    FirstIsLent(1, steps);
    WaiterIsWoken();
    var p3 := OneLent(1);
    var p4 := PoolNext(p3, GetConnection);
    RunsTo(1, steps, 3, p3, p4);
    var p5 := PoolNext(p4, Release(0));
    RunsTo(1, steps, 4, p4, p5);
    CallerBarges(p5);
    var p6 := PoolNext(p5, GetConnection);
    RunsTo(1, steps, 5, p5, p6);
    RunsTo(1, steps, 6, p6, PoolNext(p6, Woken));
    assert steps[..7] == steps;
  }

  // ------------------------------------------------------------ progress

  /** The connections there are, and those being opened. */
  function Live(s: Pool): nat {
    |s.idle| + |s.lent| + |s.initialising| + s.connecting
  }

  /** Callers that have a connection, wait for one or are being woken act; no new caller comes. */
  ghost predicate NoNewCaller(steps: seq<PoolStep>) {
    forall i :: 0 <= i < |steps| ==> steps[i] != GetConnection
  }

  /** The first of the queue can still be woken, without anybody calling the pool anew. */
  ghost predicate CanStillWake(s: Pool) {
    exists steps ::
      NoNewCaller(steps) && PoolFrom(s, steps).Some? && |PoolFrom(s, steps).value.waiting| < |s.waiting|
  }

  lemma PoolFromSnoc(s: Pool, steps: seq<PoolStep>, step: PoolStep)
    requires PoolFrom(s, steps).Some?
    ensures PoolFrom(s, steps + [step]) ==
      if PoolEnabled(PoolFrom(s, steps).value, step) then Some(PoolNext(PoolFrom(s, steps).value, step)) else None
  {
    assert (steps + [step])[..|steps|] == steps;
  }

  /** Whoever holds a connection can wake the first of the queue by releasing it. */
  lemma ReleaseWakes(s: Pool, steps: seq<PoolStep>, c: Conn)
    requires NoNewCaller(steps) && PoolFrom(s, steps).Some? && s.waiting != []
    requires var t := PoolFrom(s, steps).value; !t.crashed && c in t.lent && t.waiting == s.waiting
    ensures CanStillWake(s)
  {
    PoolFromSnoc(s, steps, Release(c));
    hide PoolFrom;
    assert NoNewCaller(steps + [Release(c)]);
  }

  /** A lent connection, or one that is being initialised, reaches its caller, who can release it. */
  lemma InitialisedWakes(s: Pool, steps: seq<PoolStep>, c: Conn)
    requires NoNewCaller(steps) && PoolFrom(s, steps).Some? && s.waiting != []
    requires var t := PoolFrom(s, steps).value; !t.crashed && c in t.initialising && t.waiting == s.waiting
    ensures CanStillWake(s)
  {
    PoolFromSnoc(s, steps, Initialised(c));
    hide PoolFrom, CanStillWake;
    ReleaseWakes(s, steps + [Initialised(c)], c);
  }

  /** Three steps at most: finish connecting and initialising, or serve the woken waiter, then release. */
  lemma LiveWakes(s: Pool)
    requires NoIdleUnpromised(s) && !s.crashed && s.waiting != [] && Live(s) > 0
    ensures CanStillWake(s)
  {
    var none: seq<PoolStep> := [];
    assert PoolFrom(s, none) == Some(s);
    PoolFromSnoc(s, none, Woken);
    PoolFromSnoc(s, none, Connected);
    hide PoolFrom, CanStillWake;
    if s.lent != {} {
      var c :| c in s.lent;
      ReleaseWakes(s, none, c);
    } else if s.idle != [] {
      ReleaseWakes(s, none + [Woken], s.idle[0]);
    } else if s.initialising != {} {
      var c :| c in s.initialising;
      InitialisedWakes(s, none, c);
    } else {
      InitialisedWakes(s, none + [Connected], s.made);
    }
  }

  /** Without a connection, whatever the others do, the queue stays as it is. */
  lemma {:induction false} DeadStays(s: Pool, steps: seq<PoolStep>)
    requires Live(s) == 0 && NoNewCaller(steps) && PoolFrom(s, steps).Some?
    ensures PoolFrom(s, steps).value.waiting == s.waiting && Live(PoolFrom(s, steps).value) == 0
  {
    if steps != [] {
      var front := steps[..|steps| - 1];
      assert forall i :: 0 <= i < |front| ==> front[i] == steps[i];
      DeadStays(s, front);
    }
  }

  /** Somebody is queued, and nobody but a new caller can ever wake him. */
  ghost predicate Stranded(s: Pool) {
    s.waiting != [] && !s.crashed && !CanStillWake(s)
  }

  /** A waiter is stranded exactly when no connection is left or being opened. */
  lemma StrandedIff(s: Pool)
    requires PoolInvariant(s) && !s.crashed
    ensures Stranded(s) <==> s.waiting != [] && Live(s) == 0
  {
    if s.waiting != [] {
      if Live(s) > 0 {
        LiveWakes(s);
      } else if CanStillWake(s) {
        var steps :| NoNewCaller(steps) && PoolFrom(s, steps).Some? && |PoolFrom(s, steps).value.waiting| < |s.waiting|;
        DeadStays(s, steps);
      }
    }
  }

  /** The step takes a connection, or an attempt at one, away without releasing it. */
  predicate Loses(step: PoolStep) {
    step.Discard? || step.Overwrite? || step.InitFailed? || step.ConnectFailed?
  }

  /** The last connection is not lost while somebody is queued, and nobody queues when there is none. */
  predicate Sustains(s: Pool, step: PoolStep) {
    && (Loses(step) && s.waiting != [] ==> Live(s) > 1)
    && (step == GetConnection && s.idle == [] && s.count >= s.max ==> Live(s) > 0)
  }

  ghost predicate Sustained(max: int, steps: seq<PoolStep>)
    requires PoolRun(max, steps).Some?
  {
    steps == [] ||
    (Sustained(max, steps[..|steps| - 1]) && Sustains(PoolRun(max, steps[..|steps| - 1]).value, steps[|steps| - 1]))
  }

  ghost predicate NeverStranded(max: int, steps: seq<PoolStep>)
    requires PoolRun(max, steps).Some?
  {
    !Stranded(PoolRun(max, steps).value) && (steps == [] || NeverStranded(max, steps[..|steps| - 1]))
  }

  /** One step: with somebody queued before or after it, a connection is left exactly if the step sustains. */
  lemma SustainsIff(s: Pool, step: PoolStep)
    requires PoolInvariant(s) && PoolEnabled(s, step) && (s.waiting != [] ==> Live(s) > 0)
    ensures var t := PoolNext(s, step);
      (t.waiting != [] && !t.crashed ==> Live(t) > 0) <==> Sustains(s, step)
  {
    hide Accounted, InOrder, NoIdleUnpromised;
    if Loses(step) || step.Initialised? || step.Release? {
      LiveAfterLoss(s, step);
    } else {
      LiveAfterOther(s, step);
    }
  }

  lemma LiveAfterLoss(s: Pool, step: PoolStep)
    requires PoolEnabled(s, step) && (Loses(step) || step.Initialised? || step.Release?)
    ensures if Loses(step) then Live(PoolNext(s, step)) == Live(s) - 1 else Live(PoolNext(s, step)) > 0
    ensures !step.Release? ==> PoolNext(s, step).waiting == s.waiting
  {
  }

  lemma LiveAfterOther(s: Pool, step: PoolStep)
    requires PoolEnabled(s, step) && (step.GetConnection? || step.Connected? || step.Woken?)
    ensures step.Connected? ==> Live(PoolNext(s, step)) > 0
    ensures !step.Connected? && !PoolNext(s, step).crashed ==> Live(PoolNext(s, step)) > 0 || Live(s) == 0
    ensures !step.GetConnection? ==> PoolNext(s, step).waiting == s.waiting
  {
  }

  /** Throughout a run no waiter is stranded exactly if each of its steps sustains the queue. */
  lemma {:induction false} NeverStrandedIff(max: int, steps: seq<PoolStep>)
    requires PoolRun(max, steps).Some?
    ensures NeverStranded(max, steps) <==> Sustained(max, steps)
  {
    PoolKeepsAccounts(max, steps);
    hide PoolInvariant, Stranded, Sustains;
    if steps == [] {
      StrandedIff(Empty(max));
    } else {
      var front := steps[..|steps| - 1];
      NeverStrandedIff(max, front);
      PoolKeepsAccounts(max, front);
      var s, t := PoolRun(max, front).value, PoolRun(max, steps).value;
      if !t.crashed {
        StrandedIff(t);
      }
      StrandedIff(s);
      if NeverStranded(max, front) {
        SustainsIff(s, steps[|steps| - 1]);
      }
      NotStrandedWhenCrashed(t);
    }
  }

  lemma NotStrandedWhenCrashed(s: Pool)
    ensures s.crashed ==> !Stranded(s)
  {
  }

  /** With a positive maximum, and none leaked, nobody queues while there is no connection. */
  lemma QueueingSustains(s: Pool)
    requires PoolInvariant(s) && s.leaked == 0 && 1 <= s.max
    ensures Sustains(s, GetConnection)
  {
  }

  lemma {:induction false} NoLossSustains(max: int, steps: seq<PoolStep>)
    requires PoolRun(max, steps).Some? && 1 <= max
    requires forall i :: 0 <= i < |steps| ==> !Loses(steps[i])
    ensures Sustained(max, steps)
  {
    hide PoolInvariant;
    if steps != [] {
      var front := steps[..|steps| - 1];
      NoLossSustains(max, front);
      PoolKeepsAccounts(max, front);
      MaxIsConstant(max, front);
      LeakedByOverwriting(max, front);
      NoneOverwritten(front);
      if steps[|steps| - 1] == GetConnection {
        QueueingSustains(PoolRun(max, front).value);
      }
    }
  }

  /** With a positive maximum nobody is ever stranded in a run in which every connection is released. */
  lemma NoLossStrandsNobody(max: int, steps: seq<PoolStep>)
    requires PoolRun(max, steps).Some? && 1 <= max
    requires forall i :: 0 <= i < |steps| ==> !Loses(steps[i])
    ensures NeverStranded(max, steps)
  {
    NoLossSustains(max, steps);
    NeverStrandedIff(max, steps);
  }

  /** The only connection is destroyed instead of released, and its waiter is stranded. */
  lemma DiscardStrandsWaiter()
    ensures var steps := [GetConnection, Connected, Initialised(0), GetConnection, Discard(0)];
      PoolRun(1, steps).Some? && Stranded(PoolRun(1, steps).value)
  {
    hide PoolRun, PoolFrom, TakeIdle;
    var steps := [GetConnection, Connected, Initialised(0), GetConnection, Discard(0)];
    FirstIsLent(1, steps);
    var p3 := OneLent(1);
    var p4 := PoolNext(p3, GetConnection);
    RunsTo(1, steps, 3, p3, p4);
    var p5 := PoolNext(p4, Discard(0));
    RunsTo(1, steps, 4, p4, p5);
    assert steps[..5] == steps;
    assert Live(p5) == 0;
    PoolKeepsAccounts(1, steps);
    StrandedIff(p5);
  }

  // ------------------------------------------------------------ the object

  /** How `get_connection` begins. */
  datatype Began = Connects | Waits(waiter: nat) | Took(c: Conn)

  class PgDatabase {
    const maxConnections: int
    var connCount: int
    var idle: seq<Conn>
    var waiting: seq<nat>
    var wakeups: seq<nat>  // added to the event loop, and not yet dispatched
    var made: nat          // which connection the next one is
    var joined: nat        // which waiter the next one is

    ghost var connecting: nat
    ghost var initialising: set<Conn>
    ghost var lent: set<Conn>
    ghost var leaked: nat
    ghost var served: nat
    ghost var crashed: bool

    ghost function View(): Pool
      reads this
    {
      Pool(maxConnections, connCount, idle, waiting, wakeups, connecting, initialising, lent,
           leaked, made, joined, served, crashed)
    }

    ghost predicate Valid()
      reads this
    {
      PoolInvariant(View()) && !crashed
    }

    constructor (maxConnections: int)
      ensures Valid() && View() == Empty(maxConnections)
    {
      this.maxConnections := maxConnections;
      connCount, idle, waiting, wakeups, made, joined := 0, [], [], [], 0, 0;
      connecting, initialising, lent, leaked, served, crashed := 0, {}, {}, 0, 0, false;
    }

    /** `get_connection` up to its first suspension. */
    method GetConnection() returns (b: Began)
      requires Valid()
      modifies this
      ensures Valid() && View() == PoolNext(old(View()), PoolStep.GetConnection)
      ensures b == if StartsConnect(old(View())) then Connects
        else if old(idle) == [] then Waits(old(joined)) else Took(old(idle[0]))
    {
      hide PoolInvariant;
      PoolInvariantStep(View(), PoolStep.GetConnection);
      if idle == [] && connCount < maxConnections {
        connecting := connecting + 1;
        return Connects;
      }
      if idle == [] {
        b := Waits(joined);
        waiting := waiting + [joined];
        joined := joined + 1;
        return;
      }
      b := Took(idle[0]);
      lent := lent + {idle[0]};
      idle := idle[1..];
    }

    /** The socket is connected: the constructor of the connection counts it. */
    method OnConnected() returns (c: Conn)
      requires Valid() && connecting > 0
      modifies this
      ensures Valid() && View() == PoolNext(old(View()), Connected) && c == old(made)
    {
      hide PoolInvariant;
      PoolInvariantStep(View(), Connected);
      c := made;
      connCount := connCount + 1;
      made := made + 1;
      connecting := connecting - 1;
      initialising := initialising + {c};
    }

    /** The destructor of a connection that still has its socket. */
    method DestroyConnection(c: Conn)
      requires Valid() && (c in lent || c in initialising)
      modifies this
      ensures Valid() && View() == PoolNext(old(View()), if c in old(lent) then Discard(c) else InitFailed(c))
    {
      hide PoolInvariant;
      PoolInvariantStep(View(), if c in lent then Discard(c) else InitFailed(c));
      connCount := connCount - 1;
      if c in lent {
        lent := lent - {c};
      } else {
        initialising := initialising - {c};
      }
    }

    /** Move assignment over a lent connection: its socket is closed, and it stays counted. */
    method OverwriteConnection(c: Conn)
      requires Valid() && c in lent
      modifies this
      ensures Valid() && View() == PoolNext(old(View()), Overwrite(c)) && connCount == old(connCount)
    {
      hide PoolInvariant;
      PoolInvariantStep(View(), Overwrite(c));
      lent := lent - {c};
      leaked := leaked + 1;
    }

    /** The rest of `get_connection` in a woken waiter: `front` of an empty queue is undefined. */
    method OnWoken() returns (r: Outcome<Conn>)
      requires Valid() && wakeups != []
      modifies this
      ensures View() == PoolNext(old(View()), Woken) && (r.Ok? ==> Valid())
      ensures r == if old(idle) == [] then Throw(OutOfBounds) else Ok(old(idle[0]))
    {
      hide PoolInvariant;
      PoolInvariantStep(View(), Woken);
      wakeups, served := wakeups[1..], served + 1;
      if idle == [] {
        crashed := true;
        return Throw(OutOfBounds);
      }
      var c := idle[0];
      idle := idle[1..];
      lent := lent + {c};
      return Ok(c);
    }

    /** `release`: the connection becomes idle, and the first waiter is woken. */
    method Release(c: Conn)
      requires Valid() && c in lent
      modifies this
      ensures Valid() && View() == PoolNext(old(View()), PoolStep.Release(c))
    {
      hide PoolInvariant;
      PoolInvariantStep(View(), PoolStep.Release(c));
      idle := idle + [c];
      lent := lent - {c};
      if waiting != [] {
        var waiter := waiting[0];
        waiting := waiting[1..];
        wakeups := wakeups + [waiter];
      }
    }
  }
}
