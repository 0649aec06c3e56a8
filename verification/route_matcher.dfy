/**
 * `RouteMatcher`: the second copy of the dispatch algorithm, written with
 * loops that stop at the first match and an accumulating allowed list. Each method is proved
 * to compute what the corresponding `Dispatcher` function computes, so
 * both classes answer every request the same way.
 */
module RouteMatcher {
  import opened Wrappers
  import opened Seqs
  import opened Assoc
  import opened Matching
  import opened Routes
  import opened RouteTables
  import opened Dispatcher

  /**
   * The inner loop of `matchVariableRoute`: `$vars[$varName] = $matches[++$i]`
   * for each name in order. With distinct names every assignment adds a
   * new key, so the result is the positional binding.
   */
  method BindVariables(names: seq<string>, matches: seq<string>) returns (vars: Bindings)
    requires Distinct(names) && |names| < |matches|
    ensures vars == Bind(names, matches[1..])
  {
    vars := [];
    var i := 0;
    while i < |names|
      invariant 0 <= i <= |names|
      invariant vars == Bind(names[..i], matches[1..])
    {
      assert Keys(vars) == names[..i];
      assert names[i] !in Keys(vars);
      var varName := names[i];
      i := i + 1;
      vars := Put(vars, varName, matches[i]);
      assert names[..i] == names[..i - 1] + [varName];
    }
    assert names[..|names|] == names;
  }

  /**
   * `matchVariableRoute`: the chunks are tried in order and the loop
   * stops at the first whose regex matches (`break`, then `return $route`).
   */
  method MatchVariableRoute(routeData: seq<Chunk>, uri: string) returns (route: Option<Bound>)
    requires WellFormedChunks(routeData)
    ensures route == DispatchVariableRoute(routeData, uri)
  {
    route := None;
    var k := 0;
    while k < |routeData|
      invariant 0 <= k <= |routeData|
      invariant WellFormedChunks(routeData[k..])
      invariant DispatchVariableRoute(routeData, uri) == DispatchVariableRoute(routeData[k..], uri)
    {
      var data := routeData[k];
      assert routeData[k..][0] == data && routeData[k..][1..] == routeData[k + 1..];
      assert ChunkWellFormed(data);
      var matches := MatchChunk(data.alternatives, uri);
      if matches.Some? {
        var r := data.routeMap[|matches.value|];
        var vars := BindVariables(r.variableNames, matches.value);
        route := Some(Bound(r, vars));
        assert route == SelectRoute(data, uri);
        return;
      }
      k := k + 1;
    }
  }

  /** `findAllowedMethods`: every other method whose chunks match, in variable-data order. */
  method FindAllowedMethods(httpMethod: string, uri: string, varRouteData: VariableRouteData)
    returns (allowedMethods: seq<string>)
    requires forall i :: 0 <= i < |varRouteData| ==> WellFormedChunks(varRouteData[i].1)
    ensures allowedMethods == AllowedMethods(varRouteData, httpMethod, uri)
  {
    allowedMethods := [];
    var k := 0;
    while k < |varRouteData|
      invariant 0 <= k <= |varRouteData|
      invariant allowedMethods + AllowedMethods(varRouteData[k..], httpMethod, uri)
        == AllowedMethods(varRouteData, httpMethod, uri)
    {
      var rest := varRouteData[k..];
      assert rest[0] == varRouteData[k] && rest[1..] == varRouteData[k + 1..];
      var (candidate, routeData) := varRouteData[k];
      if candidate != httpMethod {
        var result := MatchVariableRoute(routeData, uri);
        if result.Some? {
          allowedMethods := allowedMethods + [candidate];
        }
      }
      k := k + 1;
    }
    assert varRouteData[k..] == [];
  }

  /** `matchStaticRoute`: exact method, else GET for HEAD, else the path's methods. */
  method MatchStaticRoute(routes: Assoc<string, Route>, httpMethod: string) returns (r: Result<Bound, DispatchError>)
    ensures r == DispatchStaticRoute(routes, httpMethod)
  {
    if httpMethod in Keys(routes) {
      r := Success(Unbound(routes[IndexOf(routes, httpMethod)].1));
    } else if httpMethod == "HEAD" && "GET" in Keys(routes) {
      r := Success(Unbound(routes[IndexOf(routes, "GET")].1));
    } else {
      r := Failure(MethodNotAllowed(Keys(routes)));
    }
  }

  /** `match`: the same outcome as `Dispatcher::dispatch` on the same route data. */
  method Match(data: RouteData, httpMethod: string, uri: string) returns (r: Result<Bound, DispatchError>)
    requires WellFormedData(data)
    ensures r == Dispatch(data, httpMethod, uri)
  {
    if uri in Keys(data.staticRouteMap) {
      r := MatchStaticRoute(data.staticRouteMap[IndexOf(data.staticRouteMap, uri)].1, httpMethod);
      return;
    }
    var route: Option<Bound> := None;
    var varRouteData := data.variableRouteData;
    if httpMethod in Keys(varRouteData) {
      route := MatchVariableRoute(varRouteData[IndexOf(varRouteData, httpMethod)].1, uri);
    } else if httpMethod == "HEAD" && "GET" in Keys(varRouteData) {
      route := MatchVariableRoute(varRouteData[IndexOf(varRouteData, "GET")].1, uri);
    }
    if route.Some? {
      r := Success(route.value);
      return;
    }
    var allowedMethods := FindAllowedMethods(httpMethod, uri, varRouteData);
    if |allowedMethods| > 0 {
      r := Failure(MethodNotAllowed(allowedMethods));
    } else {
      r := Failure(NotFound(uri));
    }
  }
}
