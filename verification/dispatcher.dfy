/**
 * `Dispatcher`: resolves (method, uri) against compiled route data. The
 * static table is consulted first; otherwise the method's chunks are
 * scanned in order; otherwise every other method is tried to tell
 * "method not allowed" from "not found".
 */
module Dispatcher {
  import opened Wrappers
  import opened Seqs
  import opened Assoc
  import opened Pattern
  import opened Matching
  import opened Routes
  import opened RouteTables

  /** `NotFoundException` and `MethodNotAllowedException` (with its `Allow` list). */
  datatype DispatchError = NotFound(uri: string) | MethodNotAllowed(allowed: seq<string>)

  /**
   * `dispatchStaticRoute`: the exact method's route, else GET's for a HEAD
   * request, else "method not allowed" listing the path's methods in
   * registration order. A static route is returned with no variables.
   */
  function DispatchStaticRoute(routes: Assoc<string, Route>, httpMethod: string): (r: Result<Bound, DispatchError>)
    ensures r.Success? ==> r.value.variables == []
    ensures r.Success? ==>
      || Get(routes, httpMethod) == Some(r.value.route)
      || (httpMethod == "HEAD" && Get(routes, httpMethod).None? && Get(routes, "GET") == Some(r.value.route))
    ensures r.Failure? <==> httpMethod !in Keys(routes) && (httpMethod != "HEAD" || "GET" !in Keys(routes))
    ensures r.Failure? ==> r.error == MethodNotAllowed(Keys(routes)) && httpMethod !in r.error.allowed
  {
    match Get(routes, httpMethod)
    case Some(route) => Success(Unbound(route))
    case None =>
      if httpMethod == "HEAD" && Get(routes, "GET").Some? then Success(Unbound(Get(routes, "GET").value))
      else Failure(MethodNotAllowed(Keys(routes)))
  }

  /**
   * One iteration of `dispatchVariableRoute`: if the chunk regex matches,
   * the route is `routeMap[count($matches)]` and its i-th name is bound to
   * group i.
   */
  function SelectRoute(c: Chunk, uri: string): (r: Option<Bound>)
    requires ChunkWellFormed(c)
    ensures r.Some? ==> Keys(r.value.variables) == r.value.route.variableNames
  {
    match MatchChunk(c.alternatives, uri)
    case None => None
    case Some(m) =>
      var route := c.routeMap[|m|];
      Some(Bound(route, Bind(route.variableNames, m[1..])))
  }

  /**
   * A chunk selects nothing exactly when no branch matches; otherwise it
   * selects the route recorded under the first matching branch's group
   * count, its names bound to that branch's captures.
   */
  lemma SelectRouteSpec(c: Chunk, uri: string)
    requires ChunkWellFormed(c)
    ensures SelectRoute(c, uri).None? <==> forall i :: 0 <= i < |c.alternatives| ==> !FullMatch(c.alternatives[i].regex, uri)
    ensures SelectRoute(c, uri).Some? ==> exists i, m ::
      && 0 <= i < |c.alternatives|
      && FirstBranch(c.alternatives, uri, i, m)
      && SelectRoute(c, uri).value.route == c.routeMap[MatchCount(c.alternatives[i])]
      && SelectRoute(c, uri).value.variables == Bind(SelectRoute(c, uri).value.route.variableNames, m[1..])
  {
    MatchChunkSpec(c.alternatives, uri);
  }

  /** `dispatchVariableRoute`: the first chunk that matches decides; null if none does. */
  function DispatchVariableRoute(chunks: seq<Chunk>, uri: string): (r: Option<Bound>)
    requires WellFormedChunks(chunks)
    ensures r.None? <==> forall j :: 0 <= j < |chunks| ==> SelectRoute(chunks[j], uri).None?
    ensures r.Some? ==> Keys(r.value.variables) == r.value.route.variableNames
  {
    if |chunks| == 0 then None
    else
      assert ChunkWellFormed(chunks[0]);
      match SelectRoute(chunks[0], uri)
      case Some(b) => Some(b)
      case None =>
        assert forall j :: 1 <= j < |chunks| ==> chunks[j] == chunks[1..][j - 1];
        DispatchVariableRoute(chunks[1..], uri)
  }

  /** The chunks registered for a method, if any. */
  function ChunksFor(d: VariableRouteData, httpMethod: string): (r: Option<seq<Chunk>>)
    requires forall i :: 0 <= i < |d| ==> WellFormedChunks(d[i].1)
    ensures r.Some? ==> WellFormedChunks(r.value)
    ensures r.Some? <==> httpMethod in Keys(d)
  {
    if httpMethod in Keys(d) then
      var i := IndexOf(d, httpMethod);
      Some(d[i].1)
    else None
  }

  /**
   * The loop of `findAllowedMethods`: every method other than the requested
   * one, in variable-data order, whose chunks match the uri.
   */
  function AllowedMethods(d: VariableRouteData, httpMethod: string, uri: string): (allowed: seq<string>)
    requires forall i :: 0 <= i < |d| ==> WellFormedChunks(d[i].1)
    ensures httpMethod !in allowed
  {
    if |d| == 0 then []
    else
      var rest := AllowedMethods(d[1..], httpMethod, uri);
      if d[0].0 != httpMethod && DispatchVariableRoute(d[0].1, uri).Some? then [d[0].0] + rest else rest
  }

  /** Every other method whose chunks match the uri is on the allowed list. */
  lemma {:induction false} MatchingMethodAllowed(d: VariableRouteData, httpMethod: string, uri: string, i: nat)
    requires forall i :: 0 <= i < |d| ==> WellFormedChunks(d[i].1)
    requires i < |d| && d[i].0 != httpMethod && DispatchVariableRoute(d[i].1, uri).Some?
    ensures d[i].0 in AllowedMethods(d, httpMethod, uri)
  {
    var rest := AllowedMethods(d[1..], httpMethod, uri);
    if i == 0 {
      assert AllowedMethods(d, httpMethod, uri) == [d[0].0] + rest;
    } else {
      var tail := d[1..];
      assert forall j :: 0 <= j < |tail| ==> WellFormedChunks(tail[j].1) by {
        forall j | 0 <= j < |tail| ensures WellFormedChunks(tail[j].1) {
          assert tail[j] == d[j + 1];
        }
      }
      assert d[i] == tail[i - 1];
      MatchingMethodAllowed(tail, httpMethod, uri, i - 1);
      assert AllowedMethods(d, httpMethod, uri) == rest || AllowedMethods(d, httpMethod, uri) == [d[0].0] + rest;
    }
  }

  /** Every method on the allowed list has chunks that match the uri. */
  lemma {:induction false} AllowedMethodsMatch(d: VariableRouteData, httpMethod: string, uri: string, m: string)
    requires forall i :: 0 <= i < |d| ==> WellFormedChunks(d[i].1)
    requires m in AllowedMethods(d, httpMethod, uri)
    ensures exists i :: 0 <= i < |d| && d[i].0 == m && m != httpMethod && DispatchVariableRoute(d[i].1, uri).Some?
  {
    var rest := AllowedMethods(d[1..], httpMethod, uri);
    if d[0].0 != httpMethod && DispatchVariableRoute(d[0].1, uri).Some? && m == d[0].0 {
    } else {
      assert m in rest;
      AllowedMethodsMatch(d[1..], httpMethod, uri, m);
      var i :| 0 <= i < |d[1..]| && d[1..][i].0 == m && m != httpMethod && DispatchVariableRoute(d[1..][i].1, uri).Some?;
      assert d[i + 1] == d[1..][i];
    }
  }

  /** `findAllowedMethods`: some other method matches, or the uri is unknown. */
  function FindAllowedMethods(d: VariableRouteData, httpMethod: string, uri: string): (e: DispatchError)
    requires forall i :: 0 <= i < |d| ==> WellFormedChunks(d[i].1)
    ensures e.NotFound? <==> forall i :: 0 <= i < |d| && d[i].0 != httpMethod ==> DispatchVariableRoute(d[i].1, uri).None?
    ensures e.NotFound? ==> e.uri == uri
    ensures e.MethodNotAllowed? ==> |e.allowed| > 0 && httpMethod !in e.allowed
  {
    var allowed := AllowedMethods(d, httpMethod, uri);
    if |allowed| > 0 then
      AllowedMethodsMatch(d, httpMethod, uri, allowed[0]);
      MethodNotAllowed(allowed)
    else
      assert forall i :: 0 <= i < |d| && d[i].0 != httpMethod ==> DispatchVariableRoute(d[i].1, uri).None? by {
        forall i | 0 <= i < |d| && d[i].0 != httpMethod
          ensures DispatchVariableRoute(d[i].1, uri).None?
        {
          if DispatchVariableRoute(d[i].1, uri).Some? {
            MatchingMethodAllowed(d, httpMethod, uri, i);
          }
        }
      }
      NotFound(uri)
  }

  /**
   * The variable lookup of `dispatch`: the method's own chunks, or GET's
   * for a HEAD request when HEAD has no variable routes at all.
   */
  function FindVariableRoute(vd: VariableRouteData, httpMethod: string, uri: string): (found: Option<Bound>)
    requires forall i :: 0 <= i < |vd| ==> WellFormedChunks(vd[i].1)
    ensures found.Some? ==> Keys(found.value.variables) == found.value.route.variableNames
  {
    match ChunksFor(vd, httpMethod)
    case Some(chunks) => DispatchVariableRoute(chunks, uri)
    case None =>
      if httpMethod == "HEAD" && ChunksFor(vd, "GET").Some? then DispatchVariableRoute(ChunksFor(vd, "GET").value, uri)
      else None
  }

  /**
   * `dispatch`. A uri in the static table is answered from that entry
   * alone. Otherwise the method's own chunks are scanned, or GET's for a
   * HEAD request when HEAD has no variable routes at all; failing a match
   * the other methods decide the error.
   */
  function Dispatch(data: RouteData, httpMethod: string, uri: string): (r: Result<Bound, DispatchError>)
    requires WellFormedData(data)
    ensures uri in Keys(data.staticRouteMap) ==> r == DispatchStaticRoute(Get(data.staticRouteMap, uri).value, httpMethod)
    ensures uri !in Keys(data.staticRouteMap) && r.Success? ==>
      Keys(r.value.variables) == r.value.route.variableNames
    ensures r.Failure? && r.error.MethodNotAllowed? ==> httpMethod !in r.error.allowed
    ensures r.Failure? && r.error.NotFound? ==>
      && uri !in Keys(data.staticRouteMap)
      && forall i :: 0 <= i < |data.variableRouteData| && data.variableRouteData[i].0 != httpMethod ==>
           DispatchVariableRoute(data.variableRouteData[i].1, uri).None?
  {
    match Get(data.staticRouteMap, uri)
    case Some(routes) => DispatchStaticRoute(routes, httpMethod)
    case None =>
      var vd := data.variableRouteData;
      var found := FindVariableRoute(vd, httpMethod, uri);
      if found.Some? then Success(found.value)
      else Failure(FindAllowedMethods(vd, httpMethod, uri))
  }
}
