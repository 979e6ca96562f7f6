/** The route index as a value, and the flat route table that it stands for. */
module RouterTries {
  import opened Bytes
  import opened HttpUtil
  import opened HttpRequests

  const SLASH: byte := 47

  /** The identity of an `http_endpoint`. */
  type Endpoint = nat

  datatype Trie = Trie(
    get: Option<Endpoint>, post: Option<Endpoint>,
    routes: map<bytes, Trie>, param: bytes, paramRoute: Option<Trie>)

  const EMPTY: Trie := Trie(None, None, map[], [], None)

  function EndpointOf(t: Trie, m: HttpMethod): Option<Endpoint> {
    if m.GET? then t.get else if m.POST? then t.post else None
  }

  function Registered(t: Trie, m: HttpMethod, e: Endpoint): Trie
    requires m.GET? || m.POST?
  {
    if m.GET? then t.(get := Some(e)) else t.(post := Some(e))
  }

  predicate NonEmptySegments(segs: seq<bytes>) {
    forall i :: 0 <= i < |segs| ==> segs[i] != []
  }

  // ------------------------------------------------------------ the two operations

  function StaticChild(t: Trie, seg: bytes): Trie {
    if seg in t.routes then t.routes[seg] else EMPTY
  }

  function ParamChild(t: Trie): Trie {
    if t.paramRoute.Some? then t.paramRoute.value else EMPTY
  }

  /** `set_endpoint`: the trie it leaves behind, also when it throws. */
  function Insert(t: Trie, m: HttpMethod, segs: seq<bytes>, e: Endpoint): (Trie, Option<Error>)
    requires NonEmptySegments(segs)
    decreases |segs|
  {
    if segs == [] then
      if !m.GET? && !m.POST? then (t, Some(UnsupportedMethod))
      else if EndpointOf(t, m).Some? then (t, Some(DuplicateEndpoint))
      else (Registered(t, m, e), None)
    else if segs[0][0] != COLON then
      var (child, err) := Insert(StaticChild(t, segs[0]), m, segs[1..], e);
      (t.(routes := t.routes[segs[0] := child]), err)
    else if |segs[0]| == 1 then (t, Some(InvalidParamName))
    else
      var name := segs[0][1..];
      if t.param != [] && t.param != name then (t, Some(ParamNameClash))
      else
        var (child, err) := Insert(ParamChild(t), m, segs[1..], e);
        (t.(param := name, paramRoute := Some(child)), err)
  }

  /** One step of a registration, segment kind by segment kind. */
  lemma InsertFirst(t: Trie, m: HttpMethod, segs: seq<bytes>, e: Endpoint)
    requires NonEmptySegments(segs) && segs != []
    ensures segs[0] != [] && NonEmptySegments(segs[1..])
    ensures segs[0][0] != COLON ==>
      var (child, err) := Insert(StaticChild(t, segs[0]), m, segs[1..], e);
      Insert(t, m, segs, e) == (t.(routes := t.routes[segs[0] := child]), err)
    ensures segs[0][0] == COLON && |segs[0]| == 1 ==> Insert(t, m, segs, e) == (t, Some(InvalidParamName))
    ensures segs[0][0] == COLON && |segs[0]| > 1 ==>
      if t.param != [] && t.param != segs[0][1..] then Insert(t, m, segs, e) == (t, Some(ParamNameClash))
      else
        var (child, err) := Insert(ParamChild(t), m, segs[1..], e);
        Insert(t, m, segs, e) == (t.(param := segs[0][1..], paramRoute := Some(child)), err)
  {
  }

  type Bindings = map<bytes, bytes>

  /** `match`: the endpoint and the parameters bound on the way to it. */
  function Match(t: Trie, m: HttpMethod, segs: seq<bytes>, bound: Bindings): Outcome<(Option<Endpoint>, Bindings)>
    decreases |segs|
  {
    if segs == [] then
      if !m.GET? && !m.POST? then Throw(UnsupportedMethod) else Ok((EndpointOf(t, m), bound))
    else if segs[0] in t.routes then Match(t.routes[segs[0]], m, segs[1..], bound)
    else if t.param != [] then Match(ParamChild(t), m, segs[1..], bound[t.param := segs[0]])
    else Ok((None, bound))
  }

  // ------------------------------------------------------------ nodes

  /** One segment of a registered route. */
  datatype Step = Static(name: bytes) | Param(name: bytes)

  predicate ValidSegment(seg: bytes) {
    seg != [] && (seg[0] == COLON ==> |seg| > 1)
  }

  function ToStep(seg: bytes): Step
    requires ValidSegment(seg)
  {
    if seg[0] == COLON then Param(seg[1..]) else Static(seg)
  }

  /** The steps of a route, up to its first segment that is a bare colon. */
  function Steps(segs: seq<bytes>): seq<Step>
  {
    if segs == [] || !ValidSegment(segs[0]) then [] else [ToStep(segs[0])] + Steps(segs[1..])
  }

  /** A step as it is written in a route. */
  function PrintStep(s: Step): bytes {
    match s
    case Static(name) => name
    case Param(name) => [':' as int] + name
  }

  /** Segments that begin with a colon are parameters, named by what follows it; all others are static. */
  lemma {:induction false} StepsRoundTrip(p: seq<Step>)
    requires forall i :: 0 <= i < |p| ==> p[i].name != [] && (p[i].Static? ==> p[i].name[0] != ':' as int)
    ensures Steps(seq(|p|, i requires 0 <= i < |p| => PrintStep(p[i]))) == p
  {
    var segs := seq(|p|, i requires 0 <= i < |p| => PrintStep(p[i]));
    if p != [] {
      var rest := p[1..];
      StepsRoundTrip(rest);
      assert segs[1..] == seq(|rest|, i requires 0 <= i < |rest| => PrintStep(rest[i]));
      StepIsRead(p[0]);
      FirstStep(segs);
      hide *;
      assert [p[0]] + rest == p;
    }
  }

  lemma StepIsRead(s: Step)
    requires s.name != [] && (s.Static? ==> s.name[0] != ':' as int)
    ensures ValidSegment(PrintStep(s)) && ToStep(PrintStep(s)) == s
  {
    assert ([':' as int] + s.name)[1..] == s.name;
  }

  lemma FirstStep(segs: seq<bytes>)
    requires segs != [] && ValidSegment(segs[0])
    ensures Steps(segs) == [ToStep(segs[0])] + Steps(segs[1..])
  {
    hide ToStep;
  }

  /** The node that a sequence of steps leads to. */
  function At(t: Trie, p: seq<Step>): Option<Trie>
    decreases |p|
  {
    if p == [] then Some(t)
    else
      match p[0]
      case Static(name) => if name in t.routes then At(t.routes[name], p[1..]) else None
      case Param(name) =>
        if t.param == name && t.paramRoute.Some? then At(t.paramRoute.value, p[1..]) else None
  }

  /** The parameter name is non-empty exactly when the parameter child exists, at every node. */
  ghost predicate WellFormed(t: Trie) {
    forall p :: At(t, p).Some? ==> (At(t, p).value.param != [] <==> At(t, p).value.paramRoute.Some?)
  }

  lemma WellFormedHere(t: Trie)
    requires WellFormed(t)
    ensures t.param != [] <==> t.paramRoute.Some?
  {
    assert At(t, []) == Some(t);
  }

  lemma WellFormedChild(t: Trie, s: Step)
    requires WellFormed(t) && At(t, [s]).Some?
    ensures WellFormed(At(t, [s]).value)
  {
    var c := At(t, [s]).value;
    forall p | At(c, p).Some?
      ensures At(c, p).value.param != [] <==> At(c, p).value.paramRoute.Some?
    {
      AtStep(t, s, p);
    }
  }

  lemma AtStep(t: Trie, s: Step, p: seq<Step>)
    requires At(t, [s]).Some?
    ensures At(t, [s] + p) == At(At(t, [s]).value, p)
  {
    assert ([s] + p)[1..] == p && ([s] + p)[0] == s;
    assert [s][1..] == [];
  }

  lemma {:induction false} AtAppend(t: Trie, p: seq<Step>, q: seq<Step>)
    ensures At(t, p + q) == if At(t, p).Some? then At(At(t, p).value, q) else None
    decreases |p|
  {
    if p == [] {
      assert p + q == q;
    } else {
      assert (p + q)[1..] == p[1..] + q;
      match p[0]
      case Static(name) => if name in t.routes { AtAppend(t.routes[name], p[1..], q); }
      case Param(name) =>
        if t.param == name && t.paramRoute.Some? { AtAppend(t.paramRoute.value, p[1..], q); }
    }
  }

  lemma EmptyNode(p: seq<Step>)
    ensures At(EMPTY, p) == if p == [] then Some(EMPTY) else None
    ensures WellFormed(EMPTY)
  {
  }

  // ------------------------------------------------------------ what a registration does

  /** The child that a registration descends into. */
  function Child(t: Trie, s: Step): Trie {
    if s.Static? then StaticChild(t, s.name) else ParamChild(t)
  }

  /** The trie with one child replaced. */
  function WithChild(t: Trie, s: Step, c: Trie): Trie {
    if s.Static? then t.(routes := t.routes[s.name := c]) else t.(param := s.name, paramRoute := Some(c))
  }

  predicate Clashes(t: Trie, s: Step) {
    s.Param? && t.param != [] && t.param != s.name
  }

  lemma InsertStep(t: Trie, m: HttpMethod, segs: seq<bytes>, e: Endpoint)
    requires NonEmptySegments(segs) && segs != []
    ensures !ValidSegment(segs[0]) ==> Insert(t, m, segs, e) == (t, Some(InvalidParamName)) && Steps(segs) == []
    ensures ValidSegment(segs[0]) ==>
      var s := ToStep(segs[0]);
      && Steps(segs) == [s] + Steps(segs[1..]) && s.name != []
      && Insert(t, m, segs, e) ==
        if Clashes(t, s) then (t, Some(ParamNameClash))
        else var (c, err) := Insert(Child(t, s), m, segs[1..], e); (WithChild(t, s, c), err)
  {
  }

  lemma AtWithChild(t: Trie, s: Step, c: Trie, p: seq<Step>)
    requires WellFormed(t) && !Clashes(t, s) && s.name != []
    ensures At(WithChild(t, s, c), p) ==
      if p == [] then Some(WithChild(t, s, c))
      else if p[0] == s then At(c, p[1..])
      else At(t, p)
  {
    WellFormedHere(t);
  }

  lemma AtChild(t: Trie, s: Step, p: seq<Step>)
    requires WellFormed(t) && !Clashes(t, s) && s.name != []
    ensures WellFormed(Child(t, s))
    ensures p != [] ==> (At(Child(t, s), p) == At(t, [s] + p))
    ensures At(t, [s]) == if At(t, [s]).Some? then Some(Child(t, s)) else None
    ensures At(t, [s]).None? ==> Child(t, s) == EMPTY
  {
    WellFormedHere(t);
    assert [s][1..] == [];
    if At(t, [s]).Some? {
      WellFormedChild(t, s);
      AtStep(t, s, p);
    } else {
      EmptyNode(p);
      if s.Static? && s.name in t.routes {
        EmptyPrefix(t.routes[s.name], []);
      } else if s.Param? && t.param == s.name && t.paramRoute.Some? {
        EmptyPrefix(t.paramRoute.value, []);
      }
      assert Child(t, s) == EMPTY;
      assert ([s] + p)[0] == s && ([s] + p)[1..] == p;
    }
  }

  /** The endpoint of a node that may not exist. */
  function EndpointAt(t: Trie, p: seq<Step>, m: HttpMethod): Option<Endpoint> {
    if At(t, p).Some? then EndpointOf(At(t, p).value, m) else None
  }

  /**
   * A registration adds the nodes along its steps (unless a name clashes) and, when it
   * succeeds, its endpoint at the last of them; every other node and endpoint is kept.
   */
  lemma {:induction false} InsertEffect(
    t: Trie, m: HttpMethod, segs: seq<bytes>, e: Endpoint, p: seq<Step>, m1: HttpMethod)
    requires NonEmptySegments(segs) && WellFormed(t)
    ensures var (t1, err) := Insert(t, m, segs, e);
      && (err != Some(ParamNameClash) ==> (At(t1, p).Some? <==> At(t, p).Some? || p <= Steps(segs)))
      && EndpointAt(t1, p, m1) ==
           (if err == None && p == Steps(segs) && m1 == m then Some(e) else EndpointAt(t, p, m1))
      && (At(t1, p).Some? ==> (At(t1, p).value.param != [] <==> At(t1, p).value.paramRoute.Some?))
    decreases |segs|
  {
    if segs == [] {
      InsertHere(t, m, e, p, m1);
    } else {
      hide Insert, Steps, At, WithChild, Child, WellFormed, EndpointOf, Clashes, ToStep;
      InsertStep(t, m, segs, e);
      if !ValidSegment(segs[0]) || Clashes(t, ToStep(segs[0])) {
        WellFormedAt(t, p);
        EmptyPrefix(t, p);
      } else {
        var s := ToStep(segs[0]);
        var c := Insert(Child(t, s), m, segs[1..], e).0;
        AtWithChild(t, s, c, p);
        WithChildHere(t, s, c, m1);
        PrefixStep(p, s, Steps(segs[1..]));
        AtChild(t, s, []);
        if p == [] {
          EmptyPrefix(t, p);
        } else if p[0] == s {
          InsertEffect(Child(t, s), m, segs[1..], e, p[1..], m1);
          EndpointAtChild(t, s, p, m1);
        } else {
          WellFormedAt(t, p);
        }
      }
    }
  }

  lemma InsertHere(t: Trie, m: HttpMethod, e: Endpoint, p: seq<Step>, m1: HttpMethod)
    requires WellFormed(t)
    ensures var (t1, err) := Insert(t, m, [], e);
      && (At(t1, p).Some? <==> At(t, p).Some? || p <= Steps([]))
      && EndpointAt(t1, p, m1) ==
           (if err == None && p == Steps([]) && m1 == m then Some(e) else EndpointAt(t, p, m1))
      && (At(t1, p).Some? ==> (At(t1, p).value.param != [] <==> At(t1, p).value.paramRoute.Some?))
  {
    WellFormedAt(t, p);
  }

  lemma WellFormedAt(t: Trie, p: seq<Step>)
    requires WellFormed(t)
    ensures At(t, p).Some? ==> (At(t, p).value.param != [] <==> At(t, p).value.paramRoute.Some?)
  {
  }

  lemma EmptyPrefix(t: Trie, p: seq<Step>)
    ensures p <= [] <==> p == []
    ensures At(t, []) == Some(t)
  {
  }

  lemma PrefixStep(p: seq<Step>, s: Step, q: seq<Step>)
    ensures p <= [s] + q <==> p == [] || (p[0] == s && p[1..] <= q)
    ensures p == [s] + q <==> p != [] && p[0] == s && p[1..] == q
  {
    if p != [] {
      assert p == [p[0]] + p[1..];
      if p[0] == s && p[1..] <= q {
        assert q == p[1..] + q[|p| - 1..];
        assert [s] + q == p + q[|p| - 1..];
      }
    }
  }

  lemma WithChildHere(t: Trie, s: Step, c: Trie, m: HttpMethod)
    requires WellFormed(t) && s.name != []
    ensures EndpointOf(WithChild(t, s, c), m) == EndpointOf(t, m)
    ensures var w := WithChild(t, s, c); w.param != [] <==> w.paramRoute.Some?
  {
    WellFormedHere(t);
  }

  lemma EndpointAtChild(t: Trie, s: Step, p: seq<Step>, m: HttpMethod)
    requires WellFormed(t) && !Clashes(t, s) && s.name != [] && p != [] && p[0] == s
    ensures EndpointAt(t, p, m) == EndpointAt(Child(t, s), p[1..], m)
    ensures At(t, p).Some? ==> At(Child(t, s), p[1..]).Some?
    ensures At(Child(t, s), p[1..]).Some? && p[1..] != [] ==> At(t, p).Some?
  {
    hide WellFormed;
    AtChild(t, s, p[1..]);
    assert p == [s] + p[1..];
    EmptyPrefix(Child(t, s), p[1..]);
    EmptyNode([]);
  }

  // ------------------------------------------------------------ rejected registrations

  lemma {:induction false} NothingRejectsInEmpty(m: HttpMethod, segs: seq<bytes>, e: Endpoint)
    requires NonEmptySegments(segs)
    ensures Insert(EMPTY, m, segs, e).1 !in {Some(DuplicateEndpoint), Some(ParamNameClash)}
    decreases |segs|
  {
    if segs != [] {
      NothingRejectsInEmpty(m, segs[1..], e);
    }
  }

  lemma ReplaceBySame(t: Trie, s: Step)
    requires WellFormed(t) && !Clashes(t, s) && s.name != []
    ensures WithChild(t, s, Child(t, s)) == t <==> At(t, [s]).Some?
  {
    WellFormedHere(t);
    AtWithChild(t, s, Child(t, s), [s]);
    assert [s][1..] == [];
    EmptyPrefix(Child(t, s), []);
    hide WellFormed;
    if At(t, [s]).Some? {
      AtChild(t, s, []);
    }
  }

  /** A duplicate endpoint or a clash of parameter names leaves the trie unchanged. */
  lemma {:induction false} RejectedLeavesTrie(t: Trie, m: HttpMethod, segs: seq<bytes>, e: Endpoint)
    requires NonEmptySegments(segs) && WellFormed(t)
    requires Insert(t, m, segs, e).1 in {Some(DuplicateEndpoint), Some(ParamNameClash)}
    ensures Insert(t, m, segs, e).0 == t
    decreases |segs|
  {
    if segs != [] {
      InsertStep(t, m, segs, e);
      hide Insert, At, WithChild, Child, WellFormed, ToStep;
      if ValidSegment(segs[0]) && !Clashes(t, ToStep(segs[0])) {
        var s := ToStep(segs[0]);
        AtChild(t, s, []);
        RejectedLeavesTrie(Child(t, s), m, segs[1..], e);
        NothingRejectsInEmpty(m, segs[1..], e);
        ReplaceBySame(t, s);
      }
    }
  }

  /**
   * A route with a bare colon is rejected only after the nodes before the colon have been
   * made, so the trie is left unchanged exactly when they were all there.
   */
  lemma {:induction false} InvalidNameLeavesTrieIff(t: Trie, m: HttpMethod, segs: seq<bytes>, e: Endpoint)
    requires NonEmptySegments(segs) && WellFormed(t)
    requires Insert(t, m, segs, e).1 == Some(InvalidParamName)
    ensures Insert(t, m, segs, e).0 == t <==> At(t, Steps(segs)).Some?
    decreases |segs|
  {
    InsertEffect(t, m, segs, e, Steps(segs), GET);
    if segs != [] && At(t, Steps(segs)).Some? {
      InsertStep(t, m, segs, e);
      if ValidSegment(segs[0]) {
        hide Insert, WithChild, Child, WellFormed, ToStep, Steps;
        var s := ToStep(segs[0]);
        AtAppend(t, [s], Steps(segs[1..]));
        AtChild(t, s, []);
        ReplaceBySame(t, s);
        InvalidNameLeavesTrieIff(Child(t, s), m, segs[1..], e);
      }
    }
  }

  /** The other half of that: a rejected route can hide one that used to match. */
  lemma InvalidNameCanShadow()
    ensures var a, x := [97], [58, 120];
      var t := Insert(EMPTY, GET, [x], 7).0;
      var t1 := Insert(t, GET, [a, [58]], 8).0;
      && Insert(t, GET, [a, [58]], 8).1 == Some(InvalidParamName)
      && Match(t, GET, [a], map[]) == Ok((Some(7), map[[120] := a]))
      && Match(t1, GET, [a], map[]) == Ok((None, map[]))
  {
    var a: bytes, x: bytes, colon: bytes := [97], [58, 120], [58];
    assert x[1..] == [120] && [x][1..] == [] && [a][1..] == [];
    assert [a, colon][1..] == [colon];
    var leaf := Registered(EMPTY, GET, 7);
    assert Insert(EMPTY, GET, [x][1..], 7) == (leaf, None);
    var t := Insert(EMPTY, GET, [x], 7).0;
    assert t == Trie(None, None, map[], [120], Some(leaf));
    assert Insert(EMPTY, GET, [colon], 8) == (EMPTY, Some(InvalidParamName));
    var t1 := Insert(t, GET, [a, colon], 8).0;
    assert t1 == t.(routes := map[a := EMPTY]);
    assert Match(leaf, GET, [a][1..], map[[120] := a]) == Ok((Some(7), map[[120] := a]));
    assert Match(EMPTY, GET, [a][1..], map[]) == Ok((None, map[]));
  }

  // ------------------------------------------------------------ the flat route table

  /** One call of `get` or `post`. */
  datatype Route = Route(verb: HttpMethod, segs: seq<bytes>, endpoint: Endpoint) {
    predicate Registrable() {
      (verb.GET? || verb.POST?) && NonEmptySegments(segs)
    }

    /** No segment is a bare colon. */
    predicate Plain() {
      forall i :: 0 <= i < |segs| ==> ValidSegment(segs[i])
    }
  }

  ghost predicate AllRegistrable(rs: seq<Route>) {
    forall i :: 0 <= i < |rs| ==> rs[i].Registrable()
  }

  /** At some point both go on by a parameter, and it has another name in the one than in the other. */
  ghost predicate NamesClash(p: seq<Step>, q: seq<Step>) {
    exists i :: 0 <= i < |p| && NamesClashAt(p, q, i)
  }

  ghost predicate NamesClashAt(p: seq<Step>, q: seq<Step>, i: nat)
    requires i < |p|
  {
    i < |q| && p[..i] == q[..i] && p[i].Param? && q[i].Param? && p[i].name != q[i].name
  }

  /**
   * What becomes of a registration, given the routes whose nodes are there and those that
   * were accepted: no error, or the first that applies.
   */
  ghost function Outcome(marked: seq<Route>, accepted: seq<Route>, r: Route): Option<Error> {
    if exists i :: 0 <= i < |marked| && NamesClash(Steps(r.segs), Steps(marked[i].segs)) then Some(ParamNameClash)
    else if !r.Plain() then Some(InvalidParamName)
    else if exists i :: 0 <= i < |accepted| && accepted[i].verb == r.verb && Steps(accepted[i].segs) == Steps(r.segs)
    then Some(DuplicateEndpoint)
    else None
  }

  /** The trie after a run of registrations, accepted or not. */
  ghost function Build(rs: seq<Route>): Trie
    requires AllRegistrable(rs)
  {
    if rs == [] then EMPTY
    else
      var r := rs[|rs| - 1];
      Insert(Build(rs[..|rs| - 1]), r.verb, r.segs, r.endpoint).0
  }

  /** The registrations of the run that are accepted. */
  ghost function Accepted(rs: seq<Route>): seq<Route> {
    if rs == [] then []
    else
      var before, r := rs[..|rs| - 1], rs[|rs| - 1];
      Accepted(before) + if Outcome(Marked(before), Accepted(before), r) == None then [r] else []
  }

  /** The registrations that make the nodes along their steps: accepted, or rejected for a bare colon. */
  ghost function Marked(rs: seq<Route>): seq<Route> {
    if rs == [] then []
    else
      var before, r := rs[..|rs| - 1], rs[|rs| - 1];
      var err := Outcome(Marked(before), Accepted(before), r);
      Marked(before) + if err == None || err == Some(InvalidParamName) then [r] else []
  }

  /** Some route in the table goes through p. */
  ghost predicate OnTable(table: seq<Route>, p: seq<Step>) {
    p == [] || exists i :: 0 <= i < |table| && p <= Steps(table[i].segs)
  }

  /** The endpoint of the last route in the table that is exactly p. */
  function Lookup(table: seq<Route>, p: seq<Step>, m: HttpMethod): Option<Endpoint> {
    if table == [] then None
    else
      var r := table[|table| - 1];
      if Steps(r.segs) == p && r.verb == m then Some(r.endpoint) else Lookup(table[..|table| - 1], p, m)
  }

  /** The walk over the routes with nodes: a static child first, then the parameter, never back. */
  ghost function Walk(
    nodes: seq<Route>, table: seq<Route>, p: seq<Step>, m: HttpMethod, segs: seq<bytes>, bound: Bindings)
    : Outcome<(Option<Endpoint>, Bindings)>
    decreases |segs|
  {
    if segs == [] then
      if !m.GET? && !m.POST? then Throw(UnsupportedMethod) else Ok((Lookup(table, p, m), bound))
    else if OnTable(nodes, p + [Static(segs[0])]) then
      Walk(nodes, table, p + [Static(segs[0])], m, segs[1..], bound)
    else if exists n :: n != [] && OnTable(nodes, p + [Param(n)]) then
      var n :| n != [] && OnTable(nodes, p + [Param(n)]);
      Walk(nodes, table, p + [Param(n)], m, segs[1..], bound[n := segs[0]])
    else Ok((None, bound))
  }

  /** The trie holds exactly the nodes of the one table and the endpoints of the other. */
  ghost predicate Represents(t: Trie, nodes: seq<Route>, table: seq<Route>) {
    && WellFormed(t)
    && (forall p :: At(t, p).Some? <==> OnTable(nodes, p))
    && (forall p, m :: EndpointAt(t, p, m) == Lookup(table, p, m))
  }

  lemma RegistrationErrors(t: Trie, r: Route)
    requires r.Registrable()
    ensures Insert(t, r.verb, r.segs, r.endpoint).1
      in {None, Some(DuplicateEndpoint), Some(ParamNameClash), Some(InvalidParamName)}
    ensures r.Plain() ==> Insert(t, r.verb, r.segs, r.endpoint).1 != Some(InvalidParamName)
    decreases |r.segs|
  {
    if r.segs != [] {
      InsertFirst(t, r.verb, r.segs, r.endpoint);
      var rest := r.(segs := r.segs[1..]);
      assert forall i :: 0 <= i < |rest.segs| ==> rest.segs[i] == r.segs[i + 1];
      assert r.Plain() ==> ValidSegment(r.segs[0]);
      hide Insert;
      RegistrationErrors(StaticChild(t, r.segs[0]), rest);
      RegistrationErrors(ParamChild(t), rest);
    }
  }

  /** A registration clashes with the trie at its i-th step. */
  ghost predicate ClashAt(t: Trie, p: seq<Step>, i: nat)
    requires i < |p|
  {
    At(t, p[..i]).Some? && Clashes(At(t, p[..i]).value, p[i])
  }

  ghost predicate ClashesAlong(t: Trie, p: seq<Step>) {
    exists i :: 0 <= i < |p| && ClashAt(t, p, i)
  }

  lemma ClashAtHere(t: Trie, p: seq<Step>)
    requires p != []
    ensures ClashAt(t, p, 0) <==> Clashes(t, p[0])
  {
    assert p[..0] == [];
  }

  lemma ClashAtChild(t: Trie, s: Step, q: seq<Step>, i: nat)
    requires WellFormed(t) && !Clashes(t, s) && s.name != [] && i < |q|
    ensures ClashAt(t, [s] + q, i + 1) <==> ClashAt(Child(t, s), q, i)
  {
    var p := [s] + q;
    assert p[..i + 1] == [s] + q[..i] && p[i + 1] == q[i];
    AtChild(t, s, q[..i]);
    if q[..i] == [] {
      assert [s] + q[..i] == [s];
      EmptyPrefix(Child(t, s), []);
    }
    hide WellFormed, At, Child;
  }

  lemma ClashesAlongChild(t: Trie, s: Step, q: seq<Step>)
    requires WellFormed(t) && s.name != []
    ensures ClashesAlong(t, [s] + q) <==> Clashes(t, s) || ClashesAlong(Child(t, s), q)
  {
    hide WellFormed, Child, ClashAt, Clashes;
    var p := [s] + q;
    ClashAtHere(t, p);
    if !Clashes(t, s) {
      forall i | 0 <= i < |q| ensures ClashAt(t, p, i + 1) <==> ClashAt(Child(t, s), q, i) {
        ClashAtChild(t, s, q, i);
      }
      if ClashesAlong(t, p) {
        var i :| 0 <= i < |p| && ClashAt(t, p, i);
        assert ClashAt(Child(t, s), q, i - 1);
      }
      if ClashesAlong(Child(t, s), q) {
        var i :| 0 <= i < |q| && ClashAt(Child(t, s), q, i);
        assert ClashAt(t, p, i + 1);
      }
    } else {
      assert ClashAt(t, p, 0);
    }
  }

  /** Which error a registration meets in the trie. */
  lemma {:induction false} InsertOutcome(t: Trie, r: Route)
    requires WellFormed(t) && r.Registrable()
    ensures Insert(t, r.verb, r.segs, r.endpoint).1 ==
      if ClashesAlong(t, Steps(r.segs)) then Some(ParamNameClash)
      else if !r.Plain() then Some(InvalidParamName)
      else if EndpointAt(t, Steps(r.segs), r.verb).Some? then Some(DuplicateEndpoint)
      else None
    decreases |r.segs|
  {
    if r.segs != [] {
      InsertStep(t, r.verb, r.segs, r.endpoint);
      var seg, rest := r.segs[0], r.(segs := r.segs[1..]);
      assert forall i :: 0 <= i < |rest.segs| ==> rest.segs[i] == r.segs[i + 1];
      assert r.Plain() <==> ValidSegment(seg) && rest.Plain();
      if ValidSegment(seg) {
        hide Insert, Steps, At, Child, WithChild, WellFormed, ToStep;
        var s := ToStep(seg);
        ClashesAlongChild(t, s, Steps(rest.segs));
        if !Clashes(t, s) {
          AtChild(t, s, []);
          InsertOutcome(Child(t, s), rest);
          EndpointAtChild(t, s, [s] + Steps(rest.segs), r.verb);
          assert ([s] + Steps(rest.segs))[1..] == Steps(rest.segs);
        }
      }
    }
  }

  /** A clash with the trie is one with a route in the table. */
  lemma ClashOnTable(t: Trie, nodes: seq<Route>, table: seq<Route>, p: seq<Step>)
    requires Represents(t, nodes, table)
    ensures ClashesAlong(t, p) <==> exists i :: 0 <= i < |nodes| && NamesClash(p, Steps(nodes[i].segs))
  {
    hide Steps;
    if ClashesAlong(t, p) {
      var i :| 0 <= i < |p| && ClashAt(t, p, i);
      ClashHasRoute(t, nodes, table, p, i);
    }
    if k, i :| 0 <= k < |nodes| && 0 <= i < |p| && NamesClashAt(p, Steps(nodes[k].segs), i) {
      StepsAreNamed(nodes[k].segs, i);
      RouteHasClash(t, nodes, table, p, i, k);
    }
  }

  lemma {:induction false} StepsAreNamed(segs: seq<bytes>, i: nat)
    requires i < |Steps(segs)|
    ensures Steps(segs)[i].name != []
  {
    if i > 0 {
      StepsAreNamed(segs[1..], i - 1);
    }
  }

  lemma ClashHasRoute(t: Trie, nodes: seq<Route>, table: seq<Route>, p: seq<Step>, i: nat)
    requires Represents(t, nodes, table) && i < |p| && ClashAt(t, p, i)
    ensures exists k :: 0 <= k < |nodes| && NamesClash(p, Steps(nodes[k].segs))
  {
    var front, node := p[..i], At(t, p[..i]).value;
    assert node.param != [] <==> node.paramRoute.Some?;
    AtAppend(t, front, [Param(node.param)]);
    ChildOf(node, Param(node.param));
    var there := front + [Param(node.param)];
    assert OnTable(nodes, there);
    hide Steps, At, Represents;
    var k :| 0 <= k < |nodes| && there <= Steps(nodes[k].segs);
    var q := Steps(nodes[k].segs);
    assert q[i] == there[i] && q[..i] == there[..i] == front;
    assert NamesClashAt(p, q, i);
  }

  lemma RouteHasClash(t: Trie, nodes: seq<Route>, table: seq<Route>, p: seq<Step>, i: nat, k: nat)
    requires Represents(t, nodes, table) && i < |p| && k < |nodes| && NamesClashAt(p, Steps(nodes[k].segs), i)
    requires Steps(nodes[k].segs)[i].name != []
    ensures ClashesAlong(t, p)
  {
    hide Steps;
    var q := Steps(nodes[k].segs);
    var front := p[..i];
    assert q[..i + 1] == front + [q[i]];
    assert OnTable(nodes, front + [q[i]]);
    AtAppend(t, front, [q[i]]);
    assert At(t, front).Some?;
    ChildOf(At(t, front).value, q[i]);
    hide At, Represents, OnTable;
    assert ClashAt(t, p, i);
  }

  lemma {:induction false} LookupIff(table: seq<Route>, p: seq<Step>, m: HttpMethod)
    ensures Lookup(table, p, m).Some? <==>
      exists i :: 0 <= i < |table| && table[i].verb == m && Steps(table[i].segs) == p
  {
    hide Steps;
    if table != [] {
      var front := table[..|table| - 1];
      LookupIff(front, p, m);
      assert forall i :: 0 <= i < |front| ==> front[i] == table[i];
    }
  }

  lemma InsertMeetsOutcome(t: Trie, nodes: seq<Route>, table: seq<Route>, r: Route)
    requires Represents(t, nodes, table) && r.Registrable()
    ensures Insert(t, r.verb, r.segs, r.endpoint).1 == Outcome(nodes, table, r)
  {
    InsertOutcome(t, r);
    ClashOnTable(t, nodes, table, Steps(r.segs));
    LookupIff(table, Steps(r.segs), r.verb);
    assert EndpointAt(t, Steps(r.segs), r.verb) == Lookup(table, Steps(r.segs), r.verb);
    hide Insert, Steps, ClashesAlong, EndpointAt, Lookup, NamesClash, Route.Plain;
  }

  /**
   * After any run of registrations, which error the next one meets, if any, by the flat
   * tables alone.
   */
  lemma RegistrationIff(rs: seq<Route>, r: Route)
    requires AllRegistrable(rs) && r.Registrable()
    ensures
      var err := Insert(Build(rs), r.verb, r.segs, r.endpoint).1;
      var clash := exists i :: 0 <= i < |Marked(rs)| && NamesClash(Steps(r.segs), Steps(Marked(rs)[i].segs));
      var taken := exists i ::
        0 <= i < |Accepted(rs)| && Accepted(rs)[i].verb == r.verb && Steps(Accepted(rs)[i].segs) == Steps(r.segs);
      && (err == None <==> !clash && r.Plain() && !taken)
      && (err == Some(ParamNameClash) <==> clash)
      && (err == Some(InvalidParamName) <==> !clash && !r.Plain())
      && (err == Some(DuplicateEndpoint) <==> !clash && r.Plain() && taken)
  {
    TrieRepresentsTable(rs);
    InsertMeetsOutcome(Build(rs), Marked(rs), Accepted(rs), r);
    hide Insert, Steps, NamesClash, Route.Plain, Represents, Build, Marked, Accepted;
  }

  lemma RegistrationExtends(t: Trie, nodes: seq<Route>, table: seq<Route>, r: Route)
    requires Represents(t, nodes, table) && r.Registrable()
    requires Insert(t, r.verb, r.segs, r.endpoint).1 in {None, Some(InvalidParamName)}
    ensures var (t1, err) := Insert(t, r.verb, r.segs, r.endpoint);
      Represents(t1, nodes + [r], if err == None then table + [r] else table)
  {
    hide Insert, At, Steps;
    var (t1, err) := Insert(t, r.verb, r.segs, r.endpoint);
    var table1 := if err == None then table + [r] else table;
    assert (table + [r])[..|table|] == table;
    forall p, m ensures EndpointAt(t1, p, m) == Lookup(table1, p, m) {
      InsertEffect(t, r.verb, r.segs, r.endpoint, p, m);
    }
    forall p
      ensures At(t1, p).Some? <==> OnTable(nodes + [r], p)
      ensures At(t1, p).Some? ==> (At(t1, p).value.param != [] <==> At(t1, p).value.paramRoute.Some?)
    {
      InsertEffect(t, r.verb, r.segs, r.endpoint, p, GET);
      OnTableAppend(nodes, r, p);
    }
  }

  lemma OnTableAppend(table: seq<Route>, r: Route, p: seq<Step>)
    ensures OnTable(table + [r], p) <==> OnTable(table, p) || p <= Steps(r.segs)
  {
    hide Steps;
    var table1 := table + [r];
    assert table1[|table|] == r;
    assert forall i :: 0 <= i < |table| ==> table1[i] == table[i];
  }

  lemma NoMoreRoutes(table: seq<Route>)
    ensures table + [] == table
  {
  }

  /** Over every run of registrations, the trie represents the tables of the marked and the accepted ones. */
  lemma {:induction false} TrieRepresentsTable(rs: seq<Route>)
    requires AllRegistrable(rs)
    ensures Represents(Build(rs), Marked(rs), Accepted(rs))
  {
    if rs == [] {
      forall p ensures At(EMPTY, p).Some? <==> p == [] {
        EmptyNode(p);
      }
      EmptyNode([]);
    } else {
      var before, r := rs[..|rs| - 1], rs[|rs| - 1];
      TrieRepresentsTable(before);
      InsertMeetsOutcome(Build(before), Marked(before), Accepted(before), r);
      NoMoreRoutes(Marked(before));
      NoMoreRoutes(Accepted(before));
      hide Outcome;
      if Insert(Build(before), r.verb, r.segs, r.endpoint).1 in {None, Some(InvalidParamName)} {
        RegistrationExtends(Build(before), Marked(before), Accepted(before), r);
      } else {
        RejectedLeavesTrie(Build(before), r.verb, r.segs, r.endpoint);
      }
      hide Represents, Insert;
    }
  }

  /** Without a bare colon in any of them, only the accepted registrations have nodes. */
  lemma {:induction false} PlainMarksAccepted(rs: seq<Route>)
    requires AllRegistrable(rs) && forall i :: 0 <= i < |rs| ==> rs[i].Plain()
    ensures Marked(rs) == Accepted(rs)
  {
    if rs != [] {
      var before := rs[..|rs| - 1];
      assert forall i :: 0 <= i < |before| ==> before[i] == rs[i];
      PlainMarksAccepted(before);
      RegistrationErrors(Build(before), rs[|rs| - 1]);
      hide Insert;
    }
  }

  /**
   * The trie represents the accepted routes alone exactly if the nodes of every rejected
   * bare-colon route are nodes of accepted routes, too.
   */
  lemma AcceptedAloneIff(rs: seq<Route>)
    requires AllRegistrable(rs)
    ensures Represents(Build(rs), Accepted(rs), Accepted(rs)) <==>
      forall i :: 0 <= i < |Marked(rs)| ==> OnTable(Accepted(rs), Steps(Marked(rs)[i].segs))
  {
    TrieRepresentsTable(rs);
    AcceptedAreMarked(rs);
    var t, marked, accepted := Build(rs), Marked(rs), Accepted(rs);
    hide Steps, At, Build, Marked, Accepted, EndpointAt, Lookup, OnTable, WellFormed;
    SameNodesIff(marked, accepted);
    assert Represents(t, accepted, accepted) <==> forall p :: OnTable(marked, p) <==> OnTable(accepted, p) by {
      if Represents(t, accepted, accepted) {
        forall p ensures OnTable(marked, p) <==> OnTable(accepted, p) {
          assert At(t, p).Some? <==> OnTable(accepted, p);
        }
      }
    }
  }

  lemma SameNodesIff(marked: seq<Route>, accepted: seq<Route>)
    requires forall r :: r in accepted ==> r in marked
    ensures (forall p :: OnTable(marked, p) <==> OnTable(accepted, p)) <==>
      forall i :: 0 <= i < |marked| ==> OnTable(accepted, Steps(marked[i].segs))
  {
    hide Steps;
    if forall i :: 0 <= i < |marked| ==> OnTable(accepted, Steps(marked[i].segs)) {
      forall p ensures OnTable(marked, p) <==> OnTable(accepted, p) {
        MoreNodes(marked, accepted, p);
      }
    } else {
      var i :| 0 <= i < |marked| && !OnTable(accepted, Steps(marked[i].segs));
      assert OnTable(marked, Steps(marked[i].segs));
    }
  }

  lemma MoreNodes(marked: seq<Route>, accepted: seq<Route>, p: seq<Step>)
    requires forall r :: r in accepted ==> r in marked
    requires forall i :: 0 <= i < |marked| ==> OnTable(accepted, Steps(marked[i].segs))
    ensures OnTable(marked, p) <==> OnTable(accepted, p)
  {
    hide Steps;
    if OnTable(marked, p) && p != [] {
      var i :| 0 <= i < |marked| && p <= Steps(marked[i].segs);
      PrefixOnTable(accepted, p, Steps(marked[i].segs));
    }
    if OnTable(accepted, p) && p != [] {
      var i :| 0 <= i < |accepted| && p <= Steps(accepted[i].segs);
      assert accepted[i] in marked;
    }
  }

  lemma PrefixOnTable(table: seq<Route>, p: seq<Step>, q: seq<Step>)
    requires OnTable(table, q) && p <= q
    ensures OnTable(table, p)
  {
    if p != [] {
      var i :| 0 <= i < |table| && q <= Steps(table[i].segs);
      assert p <= Steps(table[i].segs);
    }
  }

  lemma {:induction false} AcceptedAreMarked(rs: seq<Route>)
    requires AllRegistrable(rs)
    ensures forall r :: r in Accepted(rs) ==> r in Marked(rs)
  {
    if rs != [] {
      AcceptedAreMarked(rs[..|rs| - 1]);
      hide Insert;
    }
  }

  lemma {:induction false} MatchFrom(
    t: Trie, nodes: seq<Route>, table: seq<Route>, p: seq<Step>, m: HttpMethod, segs: seq<bytes>, bound: Bindings)
    requires Represents(t, nodes, table) && At(t, p).Some?
    ensures Match(At(t, p).value, m, segs, bound) == Walk(nodes, table, p, m, segs, bound)
    decreases |segs|
  {
    var node := At(t, p).value;
    if segs == [] {
      assert EndpointAt(t, p, m) == Lookup(table, p, m);
    } else {
      var x := segs[0];
      ChildrenOnTable(t, nodes, table, p, x);
      hide Represents, OnTable, At, Steps, Lookup;
      if x in node.routes {
        MatchFrom(t, nodes, table, p + [Static(x)], m, segs[1..], bound);
      } else if node.param != [] {
        MatchFrom(t, nodes, table, p + [Param(node.param)], m, segs[1..], bound[node.param := x]);
      }
    }
  }

  lemma ChildrenOnTable(t: Trie, nodes: seq<Route>, table: seq<Route>, p: seq<Step>, x: bytes)
    requires Represents(t, nodes, table) && At(t, p).Some?
    ensures var node := At(t, p).value;
      && (x in node.routes <==> OnTable(nodes, p + [Static(x)]))
      && (x in node.routes ==> At(t, p + [Static(x)]) == Some(node.routes[x]))
      && (node.param != [] ==> OnTable(nodes, p + [Param(node.param)])
                               && At(t, p + [Param(node.param)]) == Some(ParamChild(node)))
      && (forall n :: n != [] && OnTable(nodes, p + [Param(n)]) ==> n == node.param)
  {
    var node := At(t, p).value;
    assert node.param != [] <==> node.paramRoute.Some?;
    AtAppend(t, p, [Static(x)]);
    AtAppend(t, p, [Param(node.param)]);
    ChildOf(node, Static(x));
    ChildOf(node, Param(node.param));
    forall n | n != [] && OnTable(nodes, p + [Param(n)]) ensures n == node.param {
      AtAppend(t, p, [Param(n)]);
      ChildOf(node, Param(n));
    }
  }

  lemma ChildOf(node: Trie, s: Step)
    ensures s.Static? ==> At(node, [s]) == if s.name in node.routes then Some(node.routes[s.name]) else None
    ensures s.Param? ==> At(node, [s]) == if node.param == s.name then node.paramRoute else None
  {
    assert [s][1..] == [];
  }

  /**
   * After any run of registrations, `match` returns the endpoint and the bindings of the
   * static-first walk, without backtracking, over the flat tables.
   */
  lemma MatchIsWalk(rs: seq<Route>, m: HttpMethod, segs: seq<bytes>, bound: Bindings)
    requires AllRegistrable(rs)
    ensures Match(Build(rs), m, segs, bound) == Walk(Marked(rs), Accepted(rs), [], m, segs, bound)
  {
    TrieRepresentsTable(rs);
    MatchFrom(Build(rs), Marked(rs), Accepted(rs), [], m, segs, bound);
  }
}
