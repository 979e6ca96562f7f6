/** The router: a tree of objects, each owning its children. */
module HttpRouters {
  import opened Bytes
  import opened HttpUtil
  import opened HttpRequests
  import opened RouterTries

  // ------------------------------------------------------------ splitting a path

  datatype SplitPath = SplitPath(first: bytes, remaining: bytes) {
    predicate IsRoot() {
      first == []
    }
  }

  /** Peeling off one segment at a time gives the non-empty pieces between slashes. */
  method SplitFirst(path: bytes) returns (sp: SplitPath)
    ensures SLASH !in sp.first && |sp.remaining| + |sp.first| <= |path|
    ensures sp.IsRoot() ==> Split(path, SLASH) == []
    ensures !sp.IsRoot() ==> Split(path, SLASH) == [sp.first] + Split(sp.remaining, SLASH)
  {
    hide Split;
    var start: nat := 0;
    assert path[0..] == path;
    while start < |path| && path[start] == SLASH
      invariant start <= |path| && Split(path[start..], SLASH) == Split(path, SLASH)
    {
      SplitAt(path, SLASH, start, start);
      start := start + 1;
    }
    var end: nat := start;
    while end < |path| && path[end] != SLASH
      invariant start <= end <= |path| && SLASH !in path[start..end]
    {
      end := end + 1;
    }
    sp := SplitPath(path[start..end], path[end..]);
    SplitAt(path, SLASH, start, end);
    if end < |path| {
      SplitAt(path, SLASH, end, end);
    } else {
      assert path[end..] == [];
      SplitPiece([], SLASH, []);
    }
  }

  lemma {:induction false} SplitSegments(s: bytes)
    ensures NonEmptySegments(Split(s, SLASH))
    ensures |Split(s, SLASH)| <= |s|
    decreases |s|
  {
    var k := IndexOf(s, SLASH);
    if k < |s| {
      SplitSegments(s[k + 1..]);
    }
  }

  // ------------------------------------------------------------ the tree

  lemma UpdateTwice(t: Trie, k: bytes, a: Trie, b: Trie)
    ensures t.routes[k := a][k := b] == t.routes[k := b]
  {
  }

  class HttpRouter {
    var getEndpoint: Option<Endpoint>
    var postEndpoint: Option<Endpoint>
    var routes: map<bytes, HttpRouter>
    var pathParam: bytes
    var paramRoute: HttpRouter?

    ghost var model: Trie
    ghost var Repr: set<object>

    /**
     * Children are owned: their parts are disjoint from each other and from this node.
     * The parameter name is non-empty exactly when the parameter child exists.
     */
    ghost predicate Valid()
      reads this, Repr
      decreases Repr
    {
      && this in Repr
      && (pathParam != [] <==> paramRoute != null)
      && (forall k :: k in routes ==> routes[k] in Repr && Owns(routes[k]) && routes[k].Valid())
      && (paramRoute != null ==> paramRoute in Repr && Owns(paramRoute) && paramRoute.Valid())
      && Disjoint()
      && Models(model)
    }

    /** A child is part of this node's representation, and this node is no part of the child's. */
    ghost predicate Owns(c: HttpRouter)
      reads this, c
    {
      c in Repr && c.Repr <= Repr && this !in c.Repr && c in c.Repr
    }

    ghost predicate Disjoint()
      reads this, routes.Values, paramRoute
    {
      && (forall k :: k in routes && paramRoute != null ==> routes[k].Repr !! paramRoute.Repr)
      && (forall k1, k2 :: k1 in routes && k2 in routes && k1 != k2 ==> routes[k1].Repr !! routes[k2].Repr)
    }

    /** t is the trie that this node and its children hold. */
    ghost predicate Models(t: Trie)
      reads this, routes.Values, paramRoute
    {
      && t.get == getEndpoint && t.post == postEndpoint && t.param == pathParam
      && t.routes.Keys == routes.Keys && (forall k :: k in routes ==> t.routes[k] == routes[k].model)
      && t.paramRoute == if paramRoute == null then None else Some(paramRoute.model)
    }

    /** Objects that are not touched leave the trees made of them as they were. */
    static twostate lemma Untouched(c: HttpRouter)
      requires old(c.Valid()) && unchanged(c) && unchanged(old(c.Repr))
      ensures c.Valid() && c.Repr == old(c.Repr) && c.model == old(c.model)
    {
    }

    constructor ()
      ensures Valid() && fresh(Repr) && model == EMPTY
    {
      getEndpoint, postEndpoint, routes, pathParam, paramRoute := None, None, map[], [], null;
      model, Repr := EMPTY, {this};
    }

    /** `match`, filling the map of path parameters. */
    method Match(verb: HttpMethod, path: bytes, params: Bindings)
      returns (r: Outcome<Option<Endpoint>>, bound: Bindings)
      requires Valid()
      ensures match RouterTries.Match(model, verb, Split(path, SLASH), params)
        case Throw(e) => r == Throw(e)
        case Ok((endpoint, b)) => r == Ok(endpoint) && bound == b
      decreases |path|
    {
      hide Split;
      bound := params;
      var sp := SplitFirst(path);
      if sp.IsRoot() {
        match verb {
          case GET => r := Ok(getEndpoint);
          case POST => r := Ok(postEndpoint);
          case _ => r := Throw(UnsupportedMethod);
        }
        return;
      }
      assert Split(path, SLASH)[1..] == Split(sp.remaining, SLASH);
      if sp.first in routes {
        r, bound := routes[sp.first].Match(verb, sp.remaining, bound);
      } else if pathParam != [] {
        bound := bound[pathParam := sp.first];
        r, bound := paramRoute.Match(verb, sp.remaining, bound);
      } else {
        r := Ok(None);
      }
    }

    /** The static child for a segment, made if it is missing. */
    method StaticSlot(segment: bytes) returns (next: HttpRouter)
      requires Valid()
      modifies this
      ensures Valid() && fresh(Repr - old(Repr))
      ensures model == old(model).(routes := old(model).routes[segment := StaticChild(old(model), segment)])
      ensures segment in routes && routes[segment] == next
    {
      if segment in routes {
        assert model.routes[segment := model.routes[segment]] == model.routes;
        return routes[segment];
      }
      hide Valid;
      next := new HttpRouter();
      InOwnRepr(next);
      routes := routes[segment := next];
      Repr := Repr + next.Repr;
      model := model.(routes := model.routes[segment := EMPTY]);
      ChildAdded(next);
    }

    /** The parameter child, made if it is missing. */
    method ParamSlot(param: bytes) returns (next: HttpRouter)
      requires Valid() && param != [] && (pathParam == [] || pathParam == param)
      modifies this
      ensures Valid() && fresh(Repr - old(Repr))
      ensures model == old(model).(param := param, paramRoute := Some(ParamChild(old(model))))
      ensures paramRoute == next
    {
      if paramRoute != null {
        pathParam := param;
        return paramRoute;
      }
      assert pathParam == [];
      hide Valid;
      pathParam := param;
      next := new HttpRouter();
      InOwnRepr(next);
      paramRoute := next;
      Repr := Repr + next.Repr;
      model := model.(param := param, paramRoute := Some(EMPTY));
      ChildAdded(next);
    }

    static lemma InOwnRepr(c: HttpRouter)
      requires c.Valid()
      ensures c in c.Repr
    {
    }

    /** A new child, apart from everything there was, is a child like the others. */
    twostate lemma ChildAdded(new next: HttpRouter)
      requires old(Valid()) && next.Valid() && next.model == EMPTY && next.Repr !! old(Repr)
      requires unchanged(old(Repr) - {this}) && Repr == old(Repr) + next.Repr
      requires getEndpoint == old(getEndpoint) && postEndpoint == old(postEndpoint)
      requires
        || (exists k ::
              && k !in old(routes) && routes == old(routes)[k := next]
              && pathParam == old(pathParam) && paramRoute == old(paramRoute)
              && model == old(model).(routes := old(model).routes[k := EMPTY]))
        || (&& old(paramRoute) == null && paramRoute == next && pathParam != [] && routes == old(routes)
            && model == old(model).(param := pathParam, paramRoute := Some(EMPTY)))
      ensures Valid()
    {
      forall k | k in old(routes)
        ensures old(routes[k]).Valid() && old(routes[k]).Repr == old(routes[k].Repr)
        ensures old(routes[k]).model == old(routes[k].model)
      {
        Untouched(old(routes[k]));
      }
      if old(paramRoute) != null {
        Untouched(old(paramRoute));
      }
    }

    /** The ghost fields of this node after its child `next` has changed. */
    ghost method Adopt(next: HttpRouter, t: Trie)
      requires this in Repr && (pathParam != [] <==> paramRoute != null)
      requires next.Valid() && this !in next.Repr
      requires forall k :: k in routes && routes[k] != next ==>
        routes[k] in Repr && Owns(routes[k]) && routes[k].Valid()
      requires paramRoute != null && paramRoute != next ==> paramRoute in Repr && Owns(paramRoute) && paramRoute.Valid()
      requires Disjoint() && Models(t)
      modifies this`Repr, this`model
      ensures Valid() && Repr == old(Repr) + next.Repr && model == t
    {
      Repr, model := Repr + next.Repr, t;
      forall k | k in routes ensures Owns(routes[k]) && routes[k].Valid() {
        assert routes[k] == next || old(Owns(routes[k]));
      }
    }

    /** Registers the rest of a path below a child; its siblings stay as they were, and apart. */
    method Descend(next: HttpRouter, verb: HttpMethod, path: bytes, endpoint: Endpoint) returns (r: Outcome<()>)
      requires Valid() && (next == paramRoute || next in routes.Values)
      modifies next.Repr
      ensures next.Valid() && fresh(next.Repr - old(next.Repr)) && this !in next.Repr && unchanged(this)
      ensures forall k :: k in routes && routes[k] != next ==>
        routes[k] in Repr && Owns(routes[k]) && routes[k].Valid() && routes[k].model == old(routes[k].model)
      ensures paramRoute != null && paramRoute != next ==>
        paramRoute in Repr && Owns(paramRoute) && paramRoute.Valid() && paramRoute.model == old(paramRoute.model)
      ensures Disjoint()
      ensures NonEmptySegments(Split(path, SLASH))
      ensures var (t, err) := Insert(old(next.model), verb, Split(path, SLASH), endpoint);
        next.model == t && r == (if err.Some? then Throw(err.value) else Ok(()))
      decreases |path|, 1
    {
      hide Split, Insert, NonEmptySegments, Models;
      r := next.SetEndpoint(verb, path, endpoint);
      forall k | k in routes && routes[k] != next
        ensures routes[k].Valid() && routes[k].Repr == old(routes[k].Repr) && routes[k].model == old(routes[k].model)
      {
        assert old(routes[k].Repr !! next.Repr);
        Untouched(routes[k]);
      }
      if paramRoute != null && paramRoute != next {
        assert old(paramRoute.Repr !! next.Repr);
        Untouched(paramRoute);
      }
    }

    /** Registers the rest of a path below a static child. */
    method DescendStatic(segment: bytes, verb: HttpMethod, path: bytes, endpoint: Endpoint) returns (r: Outcome<()>)
      requires Valid() && segment in routes
      modifies Repr
      ensures Valid() && fresh(Repr - old(Repr))
      ensures NonEmptySegments(Split(path, SLASH)) && segment in old(model.routes)
      ensures var (t, err) := Insert(old(model.routes[segment]), verb, Split(path, SLASH), endpoint);
        && model == old(model).(routes := old(model).routes[segment := t])
        && r == (if err.Some? then Throw(err.value) else Ok(()))
      decreases |path|, 2
    {
      var next := routes[segment];
      assert this in Repr && Owns(next) && Models(model) && (pathParam != [] <==> paramRoute != null);
      assert next != paramRoute && forall k :: k in routes && k != segment ==> routes[k] != next;
      hide Split, Insert, NonEmptySegments, Valid, Disjoint;
      r := Descend(next, verb, path, endpoint);
      Adopt(next, model.(routes := model.routes[segment := next.model]));
    }

    /** Registers the rest of a path below the parameter child. */
    method DescendParam(verb: HttpMethod, path: bytes, endpoint: Endpoint) returns (r: Outcome<()>)
      requires Valid() && paramRoute != null
      modifies Repr
      ensures Valid() && fresh(Repr - old(Repr))
      ensures NonEmptySegments(Split(path, SLASH)) && old(model.paramRoute).Some?
      ensures var (t, err) := Insert(old(model.paramRoute.value), verb, Split(path, SLASH), endpoint);
        && model == old(model).(paramRoute := Some(t))
        && r == (if err.Some? then Throw(err.value) else Ok(()))
      decreases |path|, 2
    {
      var next := paramRoute;
      assert this in Repr && Owns(next) && Models(model) && (pathParam != [] <==> paramRoute != null);
      assert forall k :: k in routes ==> routes[k] != next;
      hide Split, Insert, NonEmptySegments, Valid, Disjoint;
      r := Descend(next, verb, path, endpoint);
      Adopt(next, model.(paramRoute := Some(next.model)));
    }

    /** The branch of `set_endpoint` for a fixed segment. */
    method SetStatic(segment: bytes, verb: HttpMethod, path: bytes, endpoint: Endpoint) returns (r: Outcome<()>)
      requires Valid()
      modifies Repr
      ensures Valid() && fresh(Repr - old(Repr))
      ensures NonEmptySegments(Split(path, SLASH))
      ensures var (t, err) := Insert(StaticChild(old(model), segment), verb, Split(path, SLASH), endpoint);
        && model == old(model).(routes := old(model).routes[segment := t])
        && r == (if err.Some? then Throw(err.value) else Ok(()))
      decreases |path|, 3
    {
      assert this in Repr;
      SplitSegments(path);
      hide Split, Insert, NonEmptySegments, Valid, StaticChild;
      var next := StaticSlot(segment);
      ghost var child := StaticChild(old(model), segment);
      UpdateTwice(old(model), segment, child, Insert(child, verb, Split(path, SLASH), endpoint).0);
      r := DescendStatic(segment, verb, path, endpoint);
    }

    /** The branch of `set_endpoint` for a path parameter. */
    method SetParam(param: bytes, verb: HttpMethod, path: bytes, endpoint: Endpoint) returns (r: Outcome<()>)
      requires Valid() && param != []
      modifies Repr
      ensures Valid() && fresh(Repr - old(Repr))
      ensures NonEmptySegments(Split(path, SLASH))
      ensures old(model).param != [] && old(model).param != param ==> r == Throw(ParamNameClash) && model == old(model)
      ensures old(model).param == [] || old(model).param == param ==>
        var (t, err) := Insert(ParamChild(old(model)), verb, Split(path, SLASH), endpoint);
        && model == old(model).(param := param, paramRoute := Some(t))
        && r == (if err.Some? then Throw(err.value) else Ok(()))
      decreases |path|, 3
    {
      assert this in Repr && model.param == pathParam;
      SplitSegments(path);
      hide Split, Insert, NonEmptySegments, Valid;
      if pathParam != [] && pathParam != param {
        return Throw(ParamNameClash);
      }
      var next := ParamSlot(param);
      r := DescendParam(verb, path, endpoint);
    }

    /** Sets an endpoint that must still be free. */
    method SetHere(verb: HttpMethod, endpoint: Endpoint) returns (r: Outcome<()>)
      requires Valid()
      modifies this
      ensures Valid() && Repr == old(Repr)
      ensures var (t, err) := Insert(old(model), verb, [], endpoint);
        model == t && r == (if err.Some? then Throw(err.value) else Ok(()))
    {
      match verb {
        case GET =>
          if getEndpoint.Some? {
            return Throw(DuplicateEndpoint);
          }
          getEndpoint := Some(endpoint);
        case POST =>
          if postEndpoint.Some? {
            return Throw(DuplicateEndpoint);
          }
          postEndpoint := Some(endpoint);
        case _ =>
          return Throw(UnsupportedMethod);
      }
      model := Registered(model, verb, endpoint);
      return Ok(());
    }

    /**
     * `set_endpoint`: a clash of parameter names, a duplicate endpoint or a bare colon
     * throws; what the tree then holds is part of the contract.
     */
    method SetEndpoint(verb: HttpMethod, path: bytes, endpoint: Endpoint) returns (r: Outcome<()>)
      requires Valid()
      modifies Repr
      ensures Valid() && fresh(Repr - old(Repr))
      ensures NonEmptySegments(Split(path, SLASH))
      ensures var (t, err) := Insert(old(model), verb, Split(path, SLASH), endpoint);
        model == t && r == (if err.Some? then Throw(err.value) else Ok(()))
      decreases |path|, 0
    {
      assert this in Repr;
      hide Split, Valid, Insert, NonEmptySegments;
      SplitSegments(path);
      var sp := SplitFirst(path);
      if sp.IsRoot() {
        r := SetHere(verb, endpoint);
        return;
      }
      var segment := sp.first;
      InsertFirst(model, verb, Split(path, SLASH), endpoint);
      assert Split(path, SLASH)[1..] == Split(sp.remaining, SLASH);
      if segment[0] == COLON && |segment| > 1 {
        r := SetParam(segment[1..], verb, sp.remaining, endpoint);
      } else if segment[0] == COLON {
        return Throw(InvalidParamName);
      } else {
        r := SetStatic(segment, verb, sp.remaining, endpoint);
      }
    }
  }
}
