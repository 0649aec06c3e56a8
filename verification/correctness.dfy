/**
 * Why chunking is invisible: dispatching over the compiled data gives the
 * same outcome as scanning each method's registered routes one by one.
 */
module Correctness {
  import opened Wrappers
  import opened Seqs
  import opened Assoc
  import opened Pattern
  import opened Matching
  import opened Routes
  import opened RouteTables
  import opened RouteDataGenerator
  import opened Dispatcher

  /** `processChunk` one step at a time: the first route's alternative, then the rest. */
  lemma MatchChunkStep(a: Alternative, rest: seq<Alternative>, uri: string)
    ensures Match(a.regex, uri).Some? ==>
      MatchChunk([a] + rest, uri) == Some([uri] + Match(a.regex, uri).value + EmptyGroups(a.padding))
    ensures Match(a.regex, uri).None? ==> MatchChunk([a] + rest, uri) == MatchChunk(rest, uri)
  {
    assert ([a] + rest)[0] == a;
    assert ([a] + rest)[1..] == rest;
  }

  /**
   * `m` is what the chunk's pattern matched, `routeMap` its route map and
   * `first` the first registered route that matches: the capture count of
   * `m` names that route and the leading groups are its captures.
   */
  ghost predicate Selects(m: Option<seq<string>>, routeMap: map<int, Route>, first: Option<Bound>) {
    && (m.None? <==> first.None?)
    && (m.Some? ==>
      && |m.value| in routeMap
      && |routeMap[|m.value|].variableNames| < |m.value|
      && first == Some(Bound(routeMap[|m.value|], Bind(routeMap[|m.value|].variableNames, m.value[1..]))))
  }

  /** Recording another route under a key the match does not produce changes nothing. */
  lemma SelectsUpdate(m: Option<seq<string>>, routeMap: map<int, Route>, first: Option<Bound>, k: int, route: Route)
    requires Selects(m, routeMap, first)
    requires m.Some? ==> |m.value| != k
    ensures Selects(m, routeMap[k := route], first)
  {
  }

  /** How `Selects` holds for a match: the recorded route and its bindings. */
  lemma SelectsSome(m: Option<seq<string>>, uri: string, caps: seq<string>, pad: seq<string>, routeMap: map<int, Route>,
                    first: Option<Bound>, route: Route)
    requires m == Some([uri] + caps + pad)
    requires |[uri] + caps + pad| in routeMap && routeMap[|[uri] + caps + pad|] == route
    requires |route.variableNames| <= |caps|
    requires first == Some(Bound(route, Bind(route.variableNames, caps)))
    ensures Selects(m, routeMap, first)
  {
    assert ([uri] + caps + pad)[1..] == caps + pad;
    BindIgnoresExtra(route.variableNames, caps, pad);
  }

  /** A chunk whose first branch matches: that branch's key names its route. */
  lemma HeadSelects(route: Route, groups: nat, m: Option<seq<string>>, restMap: map<int, Route>, routeMap: map<int, Route>,
                    uri: string, caps: seq<string>, first: Option<Bound>)
    requires |route.variableNames| == |caps| <= groups
    requires m == Some([uri] + caps + EmptyGroups(groups - |caps|))
    requires routeMap == restMap[groups + 1 := route]
    requires first == Some(Bound(route, Bind(route.variableNames, caps)))
    ensures Selects(m, routeMap, first)
  {
    var pad := EmptyGroups(groups - |caps|);
    assert |[uri] + caps + pad| == groups + 1;
    SelectsSome(m, uri, caps, pad, routeMap, first, route);
  }

  /** A chunk whose first branch fails: the rest of the chunk decides, and the new key is never produced. */
  lemma TailSelects(alt: Alternative, restAlts: seq<Alternative>, alts: seq<Alternative>, restMap: map<int, Route>,
                    routeMap: map<int, Route>, k: int, route: Route, uri: string, first: Option<Bound>)
    requires Match(alt.regex, uri).None? && alts == [alt] + restAlts
    requires Selects(MatchChunk(restAlts, uri), restMap, first)
    requires forall key :: key in restMap ==> key > k
    requires routeMap == restMap[k := route]
    ensures Selects(MatchChunk(alts, uri), routeMap, first)
  {
    MatchChunkStep(alt, restAlts, uri);
    SelectsUpdate(MatchChunk(restAlts, uri), restMap, first, k, route);
  }

  /** The scan side of the head case. */
  lemma FirstMatchHead(routes: seq<Route>, uri: string, caps: seq<string>)
    requires forall i :: 0 <= i < |routes| ==> RouteWellFormed(routes[i])
    requires |routes| > 0 && Match(routes[0].regex, uri) == Some(caps)
    ensures FirstMatch(routes, uri) == Some(Bound(routes[0], Bind(routes[0].variableNames, caps)))
  {
  }

  lemma FirstMatchStep(routes: seq<Route>, uri: string)
    requires forall i :: 0 <= i < |routes| ==> RouteWellFormed(routes[i])
    requires |routes| > 0 && Match(routes[0].regex, uri).None?
    ensures FirstMatch(routes, uri) == FirstMatch(routes[1..], uri)
  {
  }

  /**
   * The branch-reset argument: when a chunk built from `routes` matches,
   * `count($matches)` is the key `processChunk` recorded for the first
   * route that matches, so `routeMap` returns exactly that route, and the
   * first groups are that route's captures.
   */
  lemma {:induction false} CaptureCountFrom(routes: seq<Route>, numGroups: nat, uri: string)
    requires forall i :: 0 <= i < |routes| ==> RouteWellFormed(routes[i])
    ensures Selects(MatchChunk(ProcessFrom(routes, numGroups).0, uri), ProcessFrom(routes, numGroups).1, FirstMatch(routes, uri))
    decreases |routes|
  {
    if |routes| > 0 {
      if Match(routes[0].regex, uri).Some? {
        CaptureCountHead(routes, numGroups, uri);
      } else {
        var tail := routes[1..];
        assert forall i :: 0 <= i < |tail| ==> RouteWellFormed(tail[i]) by {
          forall i | 0 <= i < |tail| ensures RouteWellFormed(tail[i]) {
            assert tail[i] == routes[i + 1];
          }
        }
        CaptureCountFrom(tail, Max(numGroups, |routes[0].variableNames|) + 1, uri);
        CaptureCountTail(routes, numGroups, uri);
      }
    }
  }

  /** The head case of `CaptureCountFrom`: the first route matches. */
  lemma CaptureCountHead(routes: seq<Route>, numGroups: nat, uri: string)
    requires forall i :: 0 <= i < |routes| ==> RouteWellFormed(routes[i])
    requires |routes| > 0 && Match(routes[0].regex, uri).Some?
    ensures Selects(MatchChunk(ProcessFrom(routes, numGroups).0, uri), ProcessFrom(routes, numGroups).1, FirstMatch(routes, uri))
  {
    var route := routes[0];
    var caps := Match(route.regex, uri).value;
    var groups := Max(numGroups, |route.variableNames|);
    var rest := ProcessFrom(routes[1..], groups + 1);
    var r := ProcessFrom(routes, numGroups);
    var alt := Alternative(route.regex, groups - |route.variableNames|);
    ProcessFromStep(routes, numGroups, groups, rest);
    MatchChunkStep(alt, rest.0, uri);
    FirstMatchHead(routes, uri, caps);
    HeadSelects(route, groups, MatchChunk(r.0, uri), rest.1, r.1, uri, caps, FirstMatch(routes, uri));
  }

  /** The tail case of `CaptureCountFrom`: the first route fails, and the rest of the chunk already selects. */
  lemma CaptureCountTail(routes: seq<Route>, numGroups: nat, uri: string)
    requires forall i :: 0 <= i < |routes| ==> RouteWellFormed(routes[i])
    requires |routes| > 0 && Match(routes[0].regex, uri).None?
    requires var rest := ProcessFrom(routes[1..], Max(numGroups, |routes[0].variableNames|) + 1);
      Selects(MatchChunk(rest.0, uri), rest.1, FirstMatch(routes[1..], uri))
    ensures Selects(MatchChunk(ProcessFrom(routes, numGroups).0, uri), ProcessFrom(routes, numGroups).1, FirstMatch(routes, uri))
  {
    var route := routes[0];
    var groups := Max(numGroups, |route.variableNames|);
    var rest := ProcessFrom(routes[1..], groups + 1);
    var r := ProcessFrom(routes, numGroups);
    var alt := Alternative(route.regex, groups - |route.variableNames|);
    ProcessFromStep(routes, numGroups, groups, rest);
    FirstMatchStep(routes, uri);
    TailSelects(alt, rest.0, r.0, rest.1, r.1, groups + 1, route, uri, FirstMatch(routes, uri));
  }

  /** Central property: in a processed chunk, the capture count selects the first matching route. */
  lemma CaptureCountIdentifiesRoute(routes: seq<Route>, uri: string)
    requires forall i :: 0 <= i < |routes| ==> RouteWellFormed(routes[i])
    ensures SelectRoute(ProcessChunk(routes), uri) == FirstMatch(routes, uri)
  {
    CaptureCountFrom(routes, 0, uri);
  }

  /** Scanning processed chunks in order is scanning their routes in order. */
  lemma {:induction false} ChunksScanInOrder(parts: seq<seq<Route>>, uri: string)
    requires forall i :: 0 <= i < |parts| ==> forall j :: 0 <= j < |parts[i]| ==> RouteWellFormed(parts[i][j])
    ensures forall j :: 0 <= j < |Flatten(parts)| ==> RouteWellFormed(Flatten(parts)[j])
    ensures DispatchVariableRoute(seq(|parts|, i requires 0 <= i < |parts| => ProcessChunk(parts[i])), uri)
      == FirstMatch(Flatten(parts), uri)
    decreases |parts|
  {
    var chunks := seq(|parts|, i requires 0 <= i < |parts| => ProcessChunk(parts[i]));
    if |parts| > 0 {
      var tail := parts[1..];
      assert forall i :: 0 <= i < |tail| ==> forall j :: 0 <= j < |tail[i]| ==> RouteWellFormed(tail[i][j]) by {
        forall i | 0 <= i < |tail| ensures forall j :: 0 <= j < |tail[i]| ==> RouteWellFormed(tail[i][j]) {
          assert tail[i] == parts[i + 1];
        }
      }
      ChunksScanInOrder(tail, uri);
      assert chunks[1..] == seq(|tail|, i requires 0 <= i < |tail| => ProcessChunk(tail[i]));
      assert forall j :: 0 <= j < |parts[0]| ==> RouteWellFormed(parts[0][j]);
      CaptureCountIdentifiesRoute(parts[0], uri);
      FirstMatchAppend(parts[0], Flatten(tail), uri);
    }
  }

  /** A method's compiled chunks answer exactly as the first-registered-match scan. */
  lemma CompiledRoutesAreFirstMatch(routes: seq<Route>, uri: string)
    requires |routes| >= 1
    requires forall i :: 0 <= i < |routes| ==> RouteWellFormed(routes[i])
    ensures DispatchVariableRoute(CompileRoutes(routes), uri) == FirstMatch(routes, uri)
  {
    var parts := ArrayChunk(routes, ComputeChunkSize(|routes|));
    forall i, j | 0 <= i < |parts| && 0 <= j < |parts[i]| ensures RouteWellFormed(parts[i][j]) {
      FlattenIndex(parts, i, j);
    }
    ChunksScanInOrder(parts, uri);
  }

  /**
   * Reference semantics of `dispatch` over the registrations themselves:
   * the static entry if the uri has one; else the first registered route
   * of the method (or of GET, for a HEAD request when HEAD has no variable
   * routes) that matches; else the other methods with a matching route.
   */
  function ReferenceDispatch(g: Generator, httpMethod: string, uri: string): (r: Result<Bound, DispatchError>)
    requires Valid(g)
  {
    match Get(g.staticRoutes, uri)
    case Some(cell) => DispatchStaticRoute(cell, httpMethod)
    case None =>
      match FirstMatch(Candidates(g, httpMethod), uri)
      case Some(b) => Success(b)
      case None =>
        var allowed := ReferenceAllowed(g.methodToRegexToRoutesMap, httpMethod, uri);
        Failure(if |allowed| > 0 then MethodNotAllowed(allowed) else NotFound(uri))
  }

  /** The routes a variable dispatch for `httpMethod` scans. */
  function Candidates(g: Generator, httpMethod: string): (rs: seq<Route>)
    requires Valid(g)
    ensures forall i :: 0 <= i < |rs| ==> RouteWellFormed(rs[i])
  {
    var vr := g.methodToRegexToRoutesMap;
    var m := if httpMethod !in Keys(vr) && httpMethod == "HEAD" then "GET" else httpMethod;
    if m in Keys(vr) then
      var i := IndexOf(vr, m);
      assert MethodRoutesValid(vr[i].0, vr[i].1);
      vr[i].1
    else []
  }

  function ReferenceAllowed(vr: Assoc<string, seq<Route>>, httpMethod: string, uri: string): seq<string>
    requires forall i :: 0 <= i < |vr| ==> MethodRoutesValid(vr[i].0, vr[i].1)
  {
    if |vr| == 0 then []
    else
      assert MethodRoutesValid(vr[0].0, vr[0].1);
      var rest := ReferenceAllowed(vr[1..], httpMethod, uri);
      if vr[0].0 != httpMethod && FirstMatch(vr[0].1, uri).Some? then [vr[0].0] + rest else rest
  }

  lemma {:induction false} AllowedMethodsCompiled(vr: Assoc<string, seq<Route>>, httpMethod: string, uri: string)
    requires forall i :: 0 <= i < |vr| ==> MethodRoutesValid(vr[i].0, vr[i].1)
    ensures AllowedMethods(GenerateVariableRouteData(vr), httpMethod, uri) == ReferenceAllowed(vr, httpMethod, uri)
    decreases |vr|
  {
    if |vr| > 0 {
      var d := GenerateVariableRouteData(vr);
      assert MethodRoutesValid(vr[0].0, vr[0].1);
      assert d[1..] == GenerateVariableRouteData(vr[1..]);
      AllowedMethodsCompiled(vr[1..], httpMethod, uri);
      CompiledRoutesAreFirstMatch(vr[0].1, uri);
    }
  }

  lemma IndexOfSameKeys<V, W>(a: Assoc<string, V>, b: Assoc<string, W>, k: string)
    requires Keys(a) == Keys(b) && k in Keys(a)
    ensures IndexOf(a, k) == IndexOf(b, k)
  {
    var i := IndexOf(a, k);
    assert a[i].0 == Keys(a)[i] == Keys(b)[i] == b[i].0;
    forall j | 0 <= j < i ensures b[j].0 != k {
      assert b[j].0 == Keys(b)[j] == Keys(a)[j] == a[j].0;
    }
    IndexOfUnique(b, k, i);
  }

  /** The chunks `getData` produced for a method are its routes, compiled. */
  lemma ChunksForCompiled(g: Generator, httpMethod: string)
    requires Valid(g)
    ensures var d := GetData(g).variableRouteData;
      ChunksFor(d, httpMethod).Some? <==> httpMethod in Keys(g.methodToRegexToRoutesMap)
    ensures var d := GetData(g).variableRouteData;
      ChunksFor(d, httpMethod).Some? ==>
        |VariableRoutes(g, httpMethod)| >= 1 &&
        ChunksFor(d, httpMethod).value == CompileRoutes(VariableRoutes(g, httpMethod))
  {
    var vr := g.methodToRegexToRoutesMap;
    var d := GetData(g).variableRouteData;
    if httpMethod in Keys(vr) {
      IndexOfSameKeys(vr, d, httpMethod);
      var i := IndexOf(vr, httpMethod);
      assert MethodRoutesValid(vr[i].0, vr[i].1);
    }
  }

  /** The variable lookup over the compiled data is the first-match scan of the candidate routes. */
  lemma FoundIsReference(g: Generator, httpMethod: string, uri: string)
    requires Valid(g)
    ensures FindVariableRoute(GetData(g).variableRouteData, httpMethod, uri) == FirstMatch(Candidates(g, httpMethod), uri)
  {
    var vr := g.methodToRegexToRoutesMap;
    ChunksForCompiled(g, httpMethod);
    ChunksForCompiled(g, "GET");
    var m := if httpMethod !in Keys(vr) && httpMethod == "HEAD" then "GET" else httpMethod;
    if m in Keys(vr) {
      CompiledRoutesAreFirstMatch(VariableRoutes(g, m), uri);
      assert Candidates(g, httpMethod) == VariableRoutes(g, m);
    }
  }

  /** The allowed list over the compiled data is the reference allowed list. */
  lemma AllowedIsReference(g: Generator, httpMethod: string, uri: string)
    requires Valid(g)
    ensures AllowedMethods(GetData(g).variableRouteData, httpMethod, uri)
      == ReferenceAllowed(g.methodToRegexToRoutesMap, httpMethod, uri)
  {
    if |g.methodToRegexToRoutesMap| > 0 {
      AllowedMethodsCompiled(g.methodToRegexToRoutesMap, httpMethod, uri);
    }
  }

  /** Dispatching the compiled data is the reference dispatch over the registrations. */
  lemma DispatchIsReference(g: Generator, httpMethod: string, uri: string)
    requires Valid(g)
    ensures Dispatch(GetData(g), httpMethod, uri) == ReferenceDispatch(g, httpMethod, uri)
  {
    if Get(g.staticRoutes, uri).None? {
      FoundIsReference(g, httpMethod, uri);
      AllowedIsReference(g, httpMethod, uri);
    }
  }

  /** Some route of `routes` matches the whole uri. */
  ghost predicate SomeRouteMatches(routes: seq<Route>, uri: string) {
    exists j :: 0 <= j < |routes| && FullMatch(routes[j].regex, uri)
  }

  /** A method is on the reference allowed list exactly when it is another method with a matching route. */
  lemma {:induction false} ReferenceAllowedSpec(vr: Assoc<string, seq<Route>>, httpMethod: string, uri: string, x: string)
    requires forall i :: 0 <= i < |vr| ==> MethodRoutesValid(vr[i].0, vr[i].1)
    ensures x in ReferenceAllowed(vr, httpMethod, uri) <==>
      x != httpMethod && exists i :: 0 <= i < |vr| && vr[i].0 == x && SomeRouteMatches(vr[i].1, uri)
    decreases |vr|
  {
    if |vr| > 0 {
      var tail := vr[1..];
      assert forall i :: 0 <= i < |tail| ==> MethodRoutesValid(tail[i].0, tail[i].1) by {
        forall i | 0 <= i < |tail| ensures MethodRoutesValid(tail[i].0, tail[i].1) {
          assert tail[i] == vr[i + 1];
        }
      }
      ReferenceAllowedSpec(tail, httpMethod, uri, x);
      ReferenceAllowedStep(vr, httpMethod, uri, x);
    }
  }

  /** One step of `ReferenceAllowedSpec`: the head method, then the others. */
  lemma ReferenceAllowedStep(vr: Assoc<string, seq<Route>>, httpMethod: string, uri: string, x: string)
    requires |vr| > 0 && forall i :: 0 <= i < |vr| ==> MethodRoutesValid(vr[i].0, vr[i].1)
    requires x in ReferenceAllowed(vr[1..], httpMethod, uri) <==>
      x != httpMethod && exists i :: 0 <= i < |vr[1..]| && vr[1..][i].0 == x && SomeRouteMatches(vr[1..][i].1, uri)
    ensures x in ReferenceAllowed(vr, httpMethod, uri) <==>
      x != httpMethod && exists i :: 0 <= i < |vr| && vr[i].0 == x && SomeRouteMatches(vr[i].1, uri)
  {
    assert MethodRoutesValid(vr[0].0, vr[0].1);
    FirstMatchSpec(vr[0].1, uri);
    var rest := ReferenceAllowed(vr[1..], httpMethod, uri);
    var head := vr[0].0 != httpMethod && FirstMatch(vr[0].1, uri).Some?;
    assert ReferenceAllowed(vr, httpMethod, uri) == if head then [vr[0].0] + rest else rest;
    assert head <==> vr[0].0 != httpMethod && SomeRouteMatches(vr[0].1, uri);
    if x in ReferenceAllowed(vr, httpMethod, uri) {
      if x in rest {
        ExistsInTail(vr, x, uri);
      }
    }
    if x != httpMethod && exists i :: 0 <= i < |vr| && vr[i].0 == x && SomeRouteMatches(vr[i].1, uri) {
      var i :| 0 <= i < |vr| && vr[i].0 == x && SomeRouteMatches(vr[i].1, uri);
      if i > 0 {
        assert vr[1..][i - 1] == vr[i];
      }
    }
  }

  /** A method with a matching route in the tail has one in the whole. */
  lemma ExistsInTail(vr: Assoc<string, seq<Route>>, x: string, uri: string)
    requires |vr| > 0
    requires exists i :: 0 <= i < |vr[1..]| && vr[1..][i].0 == x && SomeRouteMatches(vr[1..][i].1, uri)
    ensures exists i :: 0 <= i < |vr| && vr[i].0 == x && SomeRouteMatches(vr[i].1, uri)
  {
    var i :| 0 <= i < |vr[1..]| && vr[1..][i].0 == x && SomeRouteMatches(vr[1..][i].1, uri);
    assert vr[i + 1] == vr[1..][i];
  }

  /** The routes a variable dispatch scans match exactly when the reference scan finds one. */
  lemma CandidatesMatch(g: Generator, httpMethod: string, uri: string)
    requires Valid(g)
    ensures FirstMatch(Candidates(g, httpMethod), uri).Some? <==> SomeRouteMatches(Candidates(g, httpMethod), uri)
  {
    FirstMatchSpec(Candidates(g, httpMethod), uri);
  }

  /**
   * For a uri with no static entry, a successful dispatch returns the
   * earliest registered route of the method (of GET, for a HEAD request
   * when HEAD has no variable routes) that matches the uri, its names
   * bound to the captures; and it succeeds exactly when one matches.
   */
  lemma DispatchFindsFirstRegistered(g: Generator, httpMethod: string, uri: string)
    requires Valid(g) && uri !in Keys(g.staticRoutes)
    ensures Dispatch(GetData(g), httpMethod, uri).Success? <==> SomeRouteMatches(Candidates(g, httpMethod), uri)
    ensures Dispatch(GetData(g), httpMethod, uri).Success? ==>
      exists i :: 0 <= i < |Candidates(g, httpMethod)| &&
        FirstMatchAt(Candidates(g, httpMethod), uri, i, Dispatch(GetData(g), httpMethod, uri).value)
  {
    DispatchIsReference(g, httpMethod, uri);
    FirstMatchSpec(Candidates(g, httpMethod), uri);
  }

  /** `NotFoundIffNoRouteMatches`, on the reference dispatch. */
  lemma ReferenceNotFoundIff(g: Generator, httpMethod: string, uri: string)
    requires Valid(g) && uri !in Keys(g.staticRoutes)
    ensures ReferenceDispatch(g, httpMethod, uri) == Failure(NotFound(uri)) <==>
      forall i :: 0 <= i < |g.methodToRegexToRoutesMap| ==> !SomeRouteMatches(g.methodToRegexToRoutesMap[i].1, uri)
  {
    var vr := g.methodToRegexToRoutesMap;
    CandidatesMatch(g, httpMethod, uri);
    var allowed := ReferenceAllowed(vr, httpMethod, uri);
    var none := forall i :: 0 <= i < |vr| ==> !SomeRouteMatches(vr[i].1, uri);
    var m := if httpMethod !in Keys(vr) && httpMethod == "HEAD" then "GET" else httpMethod;
    if none {
      if |allowed| > 0 {
        ReferenceAllowedSpec(vr, httpMethod, uri, allowed[0]);
      }
      if m in Keys(vr) {
        assert Candidates(g, httpMethod) == vr[IndexOf(vr, m)].1;
      }
    } else {
      var i :| 0 <= i < |vr| && SomeRouteMatches(vr[i].1, uri);
      if vr[i].0 != httpMethod {
        ReferenceAllowedSpec(vr, httpMethod, uri, vr[i].0);
      } else {
        assert httpMethod in Keys(vr) by {
          assert Keys(vr)[i] == httpMethod;
        }
        IndexOfUnique(vr, httpMethod, i);
      }
    }
  }

  /**
   * For a uri with no static entry, "not found" is reported exactly when
   * no variable route of any method matches it; whenever some route does,
   * the answer is a route or "method not allowed".
   */
  lemma NotFoundIffNoRouteMatches(g: Generator, httpMethod: string, uri: string)
    requires Valid(g) && uri !in Keys(g.staticRoutes)
    ensures Dispatch(GetData(g), httpMethod, uri) == Failure(NotFound(uri)) <==>
      forall i :: 0 <= i < |g.methodToRegexToRoutesMap| ==> !SomeRouteMatches(g.methodToRegexToRoutesMap[i].1, uri)
  {
    DispatchIsReference(g, httpMethod, uri);
    ReferenceNotFoundIff(g, httpMethod, uri);
  }

  /** `MethodNotAllowedListsMatchingMethods`, on the reference allowed list. */
  lemma ReferenceAllowedListsMatchingMethods(vr: Assoc<string, seq<Route>>, httpMethod: string, uri: string, x: string)
    requires DistinctKeys(vr)
    requires forall i :: 0 <= i < |vr| ==> MethodRoutesValid(vr[i].0, vr[i].1)
    ensures x in ReferenceAllowed(vr, httpMethod, uri) <==>
      x != httpMethod && x in Keys(vr) && SomeRouteMatches(Get(vr, x).GetOr([]), uri)
  {
    ReferenceAllowedSpec(vr, httpMethod, uri, x);
    if x in Keys(vr) {
      var k := IndexOf(vr, x);
      GetAt(vr, k);
      if exists i :: 0 <= i < |vr| && vr[i].0 == x && SomeRouteMatches(vr[i].1, uri) {
        var i :| 0 <= i < |vr| && vr[i].0 == x && SomeRouteMatches(vr[i].1, uri);
        IndexOfUnique(vr, x, i);
      }
    } else {
      forall i | 0 <= i < |vr| ensures vr[i].0 != x {
        assert Keys(vr)[i] == vr[i].0;
      }
    }
  }

  /**
   * For a uri with no static entry, a "method not allowed" answer lists
   * exactly the other methods that have a variable route matching it.
   */
  lemma MethodNotAllowedListsMatchingMethods(g: Generator, httpMethod: string, uri: string, x: string)
    requires Valid(g) && uri !in Keys(g.staticRoutes)
    ensures Dispatch(GetData(g), httpMethod, uri).Failure? && Dispatch(GetData(g), httpMethod, uri).error.MethodNotAllowed? ==>
      (x in Dispatch(GetData(g), httpMethod, uri).error.allowed <==>
         x != httpMethod && x in Keys(g.methodToRegexToRoutesMap) && SomeRouteMatches(VariableRoutes(g, x), uri))
  {
    DispatchIsReference(g, httpMethod, uri);
    ReferenceAllowedListsMatchingMethods(g.methodToRegexToRoutesMap, httpMethod, uri, x);
  }

  /**
   * Without explicit HEAD routes for the path, a HEAD request is answered
   * as GET would be, whenever GET finds a route.
   */
  lemma HeadAnsweredAsGet(g: Generator, uri: string)
    requires Valid(g)
    requires "HEAD" !in Keys(g.methodToRegexToRoutesMap)
    requires StaticLookup(g.staticRoutes, uri, "HEAD").None?
    ensures Dispatch(GetData(g), "GET", uri).Success? ==>
      Dispatch(GetData(g), "HEAD", uri) == Dispatch(GetData(g), "GET", uri)
  {
    DispatchIsReference(g, "GET", uri);
    DispatchIsReference(g, "HEAD", uri);
  }
}
