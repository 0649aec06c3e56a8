/**
 * `RouteDataGenerator`: registration of routes and compilation of the
 * variable routes into chunked, capture-count-indexed alternations.
 */
module RouteDataGenerator {
  import opened Wrappers
  import opened Seqs
  import opened Assoc
  import opened Pattern
  import opened Matching
  import opened Routes
  import opened RouteTables

  /** Target number of routes per combined regex. */
  const APPROX_CHUNK_SIZE: nat := 10

  /** The `BadRouteException` cases raised while registering. */
  datatype RouteError =
    | DuplicateStaticRoute(uri: string, httpMethod: string)
    | ShadowedStaticRoute(uri: string, shadowedBy: Fragment, httpMethod: string)
    | DuplicateVariableRoute(regex: Fragment, httpMethod: string)
    | DuplicatePlaceholder(name: string)

  /**
   * The registration state. `methodToRegexToRoutesMap` keeps, per method,
   * the variable routes in insertion order; the regex keying each of them
   * in the source is the route's own `regex`.
   */
  datatype Generator = Generator(
    staticRoutes: StaticRouteMap,
    methodToRegexToRoutesMap: Assoc<string, seq<Route>>,
    namedRoutes: map<string, Route>)

  const EmptyGenerator := Generator([], [], map[])

  /** A static cell: methods distinct, at least one, every route literal and under its own method. */
  predicate StaticCellValid(cell: Assoc<string, Route>) {
    && |cell| > 0
    && DistinctKeys(cell)
    && forall j :: 0 <= j < |cell| ==>
         cell[j].1.regex == [] && cell[j].1.variableNames == [] && cell[j].1.httpMethod == cell[j].0
  }

  /** A method's variable routes: at least one, well formed, under that method, fragments distinct. */
  predicate MethodRoutesValid(httpMethod: string, routes: seq<Route>) {
    && |routes| > 0
    && (forall j :: 0 <= j < |routes| ==> RouteWellFormed(routes[j]) && routes[j].httpMethod == httpMethod)
    && forall j, k :: 0 <= j < k < |routes| ==> routes[j].regex != routes[k].regex
  }

  /** What registration maintains. */
  predicate Valid(g: Generator) {
    && DistinctKeys(g.staticRoutes)
    && (forall i :: 0 <= i < |g.staticRoutes| ==> StaticCellValid(g.staticRoutes[i].1))
    && DistinctKeys(g.methodToRegexToRoutesMap)
    && forall i :: 0 <= i < |g.methodToRegexToRoutesMap| ==>
         MethodRoutesValid(g.methodToRegexToRoutesMap[i].0, g.methodToRegexToRoutesMap[i].1)
  }

  lemma EmptyGeneratorValid()
    ensures Valid(EmptyGenerator)
  {
  }

  /** `$staticRoutes[$uri][$method]`, or null. */
  function StaticLookup(m: StaticRouteMap, uri: string, httpMethod: string): Option<Route> {
    match Get(m, uri)
    case None => None
    case Some(cell) => Get(cell, httpMethod)
  }

  /** The variable routes registered for a method, in insertion order. */
  function VariableRoutes(g: Generator, httpMethod: string): seq<Route> {
    Get(g.methodToRegexToRoutesMap, httpMethod).GetOr([])
  }

  /** Position `j` holds the first of `routes` whose fragment matches all of `s`. */
  ghost predicate FirstShadowAt(routes: seq<Route>, s: string, j: nat) {
    && j < |routes|
    && FullMatch(routes[j].regex, s)
    && forall k :: 0 <= k < j ==> !FullMatch(routes[k].regex, s)
  }

  /** Past a first route that does not match, the first match moves one position down the tail. */
  lemma FirstShadowTail(routes: seq<Route>, s: string, j: nat)
    requires FirstShadowAt(routes, s, j) && !FullMatch(routes[0].regex, s)
    ensures j > 0 && FirstShadowAt(routes[1..], s, j - 1) && routes[1..][j - 1] == routes[j]
  {
    forall k | 0 <= k < j - 1 ensures !FullMatch(routes[1..][k].regex, s) {
      assert routes[1..][k] == routes[k + 1];
    }
  }

  /** The first of `routes` whose fragment matches all of `s`, in `foreach` order. */
  function FirstShadowing(routes: seq<Route>, s: string): (r: Option<Route>)
    ensures r.None? <==> forall j :: 0 <= j < |routes| ==> !FullMatch(routes[j].regex, s)
    ensures forall j: nat :: FirstShadowAt(routes, s, j) ==> r == Some(routes[j])
  {
    if |routes| == 0 then None
    else if Matches(routes[0], s) then
      assert forall j: nat :: FirstShadowAt(routes, s, j) ==> j == 0;
      Some(routes[0])
    else
      var r := FirstShadowing(routes[1..], s);
      assert forall j :: 1 <= j < |routes| ==> routes[j] == routes[1..][j - 1];
      assert forall j: nat :: FirstShadowAt(routes, s, j) ==> r == Some(routes[j]) by {
        forall j: nat | FirstShadowAt(routes, s, j) ensures r == Some(routes[j]) {
          FirstShadowTail(routes, s, j);
        }
      }
      r
  }

  /**
   * `addStaticRoute`: rejects a second route for the same (path, method),
   * then a path that an earlier variable route of the method matches in
   * full; otherwise stores a literal route (empty regex, no variables).
   */
  function AddStaticRoute(g: Generator, httpMethod: string, routeData: seq<Token>, pattern: string,
                          handler: Handler, name: Option<string>): (r: Result<(Generator, Route), RouteError>)
    requires IsStaticRoute(routeData)
    ensures StaticLookup(g.staticRoutes, routeData[0].text, httpMethod).Some? ==>
      r == Failure(DuplicateStaticRoute(routeData[0].text, httpMethod))
    ensures StaticLookup(g.staticRoutes, routeData[0].text, httpMethod).None? ==>
      (r.Failure? <==> exists j :: 0 <= j < |VariableRoutes(g, httpMethod)| &&
                         FullMatch(VariableRoutes(g, httpMethod)[j].regex, routeData[0].text))
    ensures StaticLookup(g.staticRoutes, routeData[0].text, httpMethod).None? ==>
      forall j: nat :: FirstShadowAt(VariableRoutes(g, httpMethod), routeData[0].text, j) ==>
        r == Failure(ShadowedStaticRoute(routeData[0].text, VariableRoutes(g, httpMethod)[j].regex, httpMethod))
    ensures r.Success? ==>
      && r.value.1 == Route(httpMethod, pattern, handler, [], [], name)
      && StaticLookup(r.value.0.staticRoutes, routeData[0].text, httpMethod) == Some(r.value.1)
      && (forall u, m :: (u, m) != (routeData[0].text, httpMethod) ==>
            StaticLookup(r.value.0.staticRoutes, u, m) == StaticLookup(g.staticRoutes, u, m))
      && r.value.0.methodToRegexToRoutesMap == g.methodToRegexToRoutesMap
      && r.value.0.namedRoutes == g.namedRoutes
  {
    var routeStr := routeData[0].text;
    if StaticLookup(g.staticRoutes, routeStr, httpMethod).Some? then
      Failure(DuplicateStaticRoute(routeStr, httpMethod))
    else
      var routes := VariableRoutes(g, httpMethod);
      match FirstShadowing(routes, routeStr)
      case Some(shadow) =>
        Failure(ShadowedStaticRoute(routeStr, shadow.regex, httpMethod))
      case None =>
        var route := Route(httpMethod, pattern, handler, [], [], name);
        var cell := Get(g.staticRoutes, routeStr).GetOr([]);
        var statics := Put(g.staticRoutes, routeStr, Put(cell, httpMethod, route));
        Success((g.(staticRoutes := statics), route))
  }

  /**
   * `addVariableRoute`: compiles the tokens (failing on a repeated
   * placeholder), rejects a fragment already registered for the method,
   * and appends the route to that method's list.
   */
  function AddVariableRoute(g: Generator, httpMethod: string, routeData: seq<Token>, pattern: string,
                            handler: Handler, name: Option<string>): (r: Result<(Generator, Route), RouteError>)
    ensures r.Failure? <==>
      || !Distinct(VarNames(routeData))
      || exists j :: 0 <= j < |VariableRoutes(g, httpMethod)| &&
           VariableRoutes(g, httpMethod)[j].regex == Escape(routeData)
    ensures r.Success? ==>
      && r.value.1 == Route(httpMethod, pattern, handler, Escape(routeData), VarNames(routeData), name)
      && Get(r.value.0.methodToRegexToRoutesMap, httpMethod) == Some(VariableRoutes(g, httpMethod) + [r.value.1])
      && (forall m :: m != httpMethod ==>
            Get(r.value.0.methodToRegexToRoutesMap, m) == Get(g.methodToRegexToRoutesMap, m))
      && r.value.0.staticRoutes == g.staticRoutes
      && r.value.0.namedRoutes == g.namedRoutes
  {
    match BuildRegexForRoute(routeData)
    case Failure(dup) => Failure(DuplicatePlaceholder(dup))
    case Success((regex, variables)) =>
      var existing := VariableRoutes(g, httpMethod);
      if exists j :: 0 <= j < |existing| && existing[j].regex == regex then
        Failure(DuplicateVariableRoute(regex, httpMethod))
      else
        var route := Route(httpMethod, pattern, handler, regex, variables, name);
        var vr := Put(g.methodToRegexToRoutesMap, httpMethod, existing + [route]);
        Success((g.(methodToRegexToRoutesMap := vr), route))
  }

  /**
   * `addRoute`: a literal route goes to the static table, any other to the
   * variable routes; a given name then points at the new route, replacing
   * whatever it named before. A failed registration leaves `g` as it was.
   */
  function AddRoute(g: Generator, httpMethod: string, routeData: seq<Token>, pattern: string,
                    handler: Handler, name: Option<string>): (r: Result<Generator, RouteError>)
    ensures Valid(g) && r.Success? ==> Valid(r.value)
    ensures r.Success? && name.Some? ==>
      GetNamedRoute(r.value, name.value) == Some(NewRoute(httpMethod, routeData, pattern, handler, name))
    ensures r.Success? ==> forall n :: Some(n) != name ==> GetNamedRoute(r.value, n) == GetNamedRoute(g, n)
  {
    var added :=
      if IsStaticRoute(routeData) then AddStaticRoute(g, httpMethod, routeData, pattern, handler, name)
      else AddVariableRoute(g, httpMethod, routeData, pattern, handler, name);
    match added
    case Failure(e) => Failure(e)
    case Success((g', route)) =>
      assert Valid(g) ==> Valid(g') by {
        if Valid(g) {
          if IsStaticRoute(routeData) {
            AddStaticPreservesValid(g, httpMethod, routeData, pattern, handler, name);
          } else {
            AddVariablePreservesValid(g, httpMethod, routeData, pattern, handler, name);
          }
        }
      }
      if name.Some? then Success(g'.(namedRoutes := g'.namedRoutes[name.value := route]))
      else Success(g')
  }

  /** The route `addRoute` creates for a registration it accepts. */
  function NewRoute(httpMethod: string, routeData: seq<Token>, pattern: string,
                    handler: Handler, name: Option<string>): Route
  {
    if IsStaticRoute(routeData) then Route(httpMethod, pattern, handler, [], [], name)
    else Route(httpMethod, pattern, handler, Escape(routeData), VarNames(routeData), name)
  }

  /** Storing a literal route under its own method keeps a static cell valid. */
  lemma PutCellValid(cell: Assoc<string, Route>, httpMethod: string, route: Route)
    requires DistinctKeys(cell)
    requires forall j :: 0 <= j < |cell| ==>
      cell[j].1.regex == [] && cell[j].1.variableNames == [] && cell[j].1.httpMethod == cell[j].0
    requires route.regex == [] && route.variableNames == [] && route.httpMethod == httpMethod
    ensures StaticCellValid(Put(cell, httpMethod, route))
  {
    var cell' := Put(cell, httpMethod, route);
    assert |Keys(cell')| > 0;
    forall j | 0 <= j < |cell'|
      ensures cell'[j].1.regex == [] && cell'[j].1.variableNames == [] && cell'[j].1.httpMethod == cell'[j].0
    {
      GetAt(cell', j);
      if cell'[j].0 != httpMethod {
        assert Keys(cell')[j] in Keys(cell);
        var k := IndexOf(cell, cell'[j].0);
        assert Get(cell, cell'[j].0) == Some(cell[k].1);
      }
    }
  }

  /** Storing a valid cell keeps every cell of the static table valid. */
  lemma PutStaticsValid(statics: Assoc<string, Assoc<string, Route>>, routeStr: string, cell: Assoc<string, Route>)
    requires DistinctKeys(statics) && forall i :: 0 <= i < |statics| ==> StaticCellValid(statics[i].1)
    requires StaticCellValid(cell)
    ensures var r := Put(statics, routeStr, cell);
      DistinctKeys(r) && forall i :: 0 <= i < |r| ==> StaticCellValid(r[i].1)
  {
    var r := Put(statics, routeStr, cell);
    forall i | 0 <= i < |r| ensures StaticCellValid(r[i].1) {
      GetAt(r, i);
      if r[i].0 != routeStr {
        assert Keys(r)[i] in Keys(statics);
        var k := IndexOf(statics, r[i].0);
        GetAt(statics, k);
      }
    }
  }

  lemma AddStaticPreservesValid(g: Generator, httpMethod: string, routeData: seq<Token>, pattern: string,
                                handler: Handler, name: Option<string>)
    requires Valid(g) && IsStaticRoute(routeData)
    requires AddStaticRoute(g, httpMethod, routeData, pattern, handler, name).Success?
    ensures Valid(AddStaticRoute(g, httpMethod, routeData, pattern, handler, name).value.0)
  {
    var routeStr := routeData[0].text;
    var route := Route(httpMethod, pattern, handler, [], [], name);
    var cell := Get(g.staticRoutes, routeStr).GetOr([]);
    if routeStr in Keys(g.staticRoutes) {
      var i := IndexOf(g.staticRoutes, routeStr);
      assert cell == g.staticRoutes[i].1;
      assert StaticCellValid(cell);
    }
    PutCellValid(cell, httpMethod, route);
    PutStaticsValid(g.staticRoutes, routeStr, Put(cell, httpMethod, route));
    assert AddStaticRoute(g, httpMethod, routeData, pattern, handler, name).value.0
      == g.(staticRoutes := Put(g.staticRoutes, routeStr, Put(cell, httpMethod, route)));
  }

  lemma AddVariablePreservesValid(g: Generator, httpMethod: string, routeData: seq<Token>, pattern: string,
                                  handler: Handler, name: Option<string>)
    requires Valid(g) && !IsStaticRoute(routeData)
    requires AddVariableRoute(g, httpMethod, routeData, pattern, handler, name).Success?
    ensures Valid(AddVariableRoute(g, httpMethod, routeData, pattern, handler, name).value.0)
  {
    var r := AddVariableRoute(g, httpMethod, routeData, pattern, handler, name).value;
    var vr := r.0.methodToRegexToRoutesMap;
    var existing := VariableRoutes(g, httpMethod);
    CapCountEscape(routeData);
    assert RouteWellFormed(r.1);
    if httpMethod in Keys(g.methodToRegexToRoutesMap) {
      var k := IndexOf(g.methodToRegexToRoutesMap, httpMethod);
      assert MethodRoutesValid(httpMethod, existing);
    }
    assert MethodRoutesValid(httpMethod, existing + [r.1]);
    assert DistinctKeys(vr);
    forall i | 0 <= i < |vr| ensures MethodRoutesValid(vr[i].0, vr[i].1) {
      GetAt(vr, i);
      if vr[i].0 != httpMethod {
        assert Keys(vr)[i] == vr[i].0;
        assert vr[i].0 in Keys(g.methodToRegexToRoutesMap);
        var k := IndexOf(g.methodToRegexToRoutesMap, vr[i].0);
        GetAt(g.methodToRegexToRoutesMap, k);
      }
    }
  }

  /** `getNamedRoute`: the route last registered under `name`, or null. */
  function GetNamedRoute(g: Generator, name: string): Option<Route> {
    if name in g.namedRoutes then Some(g.namedRoutes[name]) else None
  }

  /**
   * `round($count / APPROX_CHUNK_SIZE)`, at least 1. PHP rounds halves away
   * from zero, which for a non-negative count is `(count + 5) / 10`.
   */
  function NumParts(count: nat): (p: nat)
    ensures p >= 1
    ensures count >= 5 ==> 2 * APPROX_CHUNK_SIZE * p <= 2 * count + APPROX_CHUNK_SIZE < 2 * APPROX_CHUNK_SIZE * (p + 1)
    ensures count < 15 ==> p == 1
  {
    Max(1, (count + APPROX_CHUNK_SIZE / 2) / APPROX_CHUNK_SIZE)
  }

  /** `computeChunkSize`: `ceil($count / $numParts)`, here in integers. */
  function ComputeChunkSize(count: nat): (size: nat)
    ensures NumParts(count) * size >= count
    ensures count >= 1 ==> NumParts(count) * (size - 1) < count
    ensures count >= 1 ==> 1 <= size <= count
  {
    var p := NumParts(count);
    var size := (count + p - 1) / p;
    CeilDiv(count, p);
    size
  }

  lemma CeilDiv(n: nat, p: nat)
    requires p >= 1
    ensures p * ((n + p - 1) / p) >= n
    ensures n >= 1 ==> p * ((n + p - 1) / p - 1) < n
    ensures n >= 1 ==> 1 <= (n + p - 1) / p <= n
  {
    var q := (n + p - 1) / p;
    var r := (n + p - 1) % p;
    assert n + p - 1 == p * q + r;
    MulMonotone(p, q, n + 1);
  }

  lemma MulMonotone(p: nat, a: int, b: int)
    ensures a >= b ==> p * a >= p * b
  {
    if a >= b {
      assert p * a == p * b + p * (a - b);
    }
  }

  /** With a count near a multiple of ten, a chunk holds at most 14 routes. */
  lemma {:induction false} ChunkSizeAtMost14(count: nat)
    requires count >= 1
    ensures ComputeChunkSize(count) <= 14
  {
    var p := NumParts(count);
    var size := ComputeChunkSize(count);
    if count >= 15 {
      assert 10 * p <= count + 5 < 10 * p + 10;
      assert p >= 2;
      assert p * (size - 1) < count <= 10 * p + 4;
      assert p * (size - 1) < p * 13 by {
        assert 10 * p + 4 <= 13 * p;
      }
      MulMonotone(p, size - 1, 13);
    }
  }

  /**
   * `array_chunk($list, $size, true)`: consecutive slices of `size`
   * elements, the last one possibly shorter, that concatenate back to the
   * list.
   */
  function ArrayChunk<T>(xs: seq<T>, size: nat): (parts: seq<seq<T>>)
    requires size >= 1
    ensures Flatten(parts) == xs
    ensures forall i :: 0 <= i < |parts| ==> 1 <= |parts[i]| <= size
    ensures forall i :: 0 <= i < |parts| - 1 ==> |parts[i]| == size
    ensures |parts| * size >= |xs| && (|xs| >= 1 ==> (|parts| - 1) * size < |xs|)
    decreases |xs|
  {
    if |xs| == 0 then []
    else if |xs| <= size then
      assert Flatten([xs]) == xs + [];
      [xs]
    else
      var rest := ArrayChunk(xs[size..], size);
      var parts := [xs[..size]] + rest;
      assert parts[1..] == rest;
      assert xs == xs[..size] + xs[size..];
      assert |rest| >= 1;
      assert |parts| * size == |rest| * size + size;
      assert (|parts| - 1) * size == (|rest| - 1) * size + size;
      parts
  }

  /** The key `processChunk` records for a route: its padded group count plus one. */
  function RecordedKey(route: Route, a: Alternative): nat {
    |route.variableNames| + a.padding + 1
  }

  /**
   * The loop of `processChunk` from a running group count `numGroups`:
   * each route is padded up to `max(numGroups, its variable count)` groups
   * and recorded under that count plus one; the count then moves one past.
   */
  function ProcessFrom(routes: seq<Route>, numGroups: nat): (r: (seq<Alternative>, map<int, Route>))
    ensures |r.0| == |routes|
    ensures forall k :: k in r.1 ==> k > numGroups
    decreases |routes|
  {
    if |routes| == 0 then ([], map[])
    else
      var numVariables := |routes[0].variableNames|;
      var groups := Max(numGroups, numVariables);
      var alt := Alternative(routes[0].regex, groups - numVariables);
      var rest := ProcessFrom(routes[1..], groups + 1);
      var alts := [alt] + rest.0;
      (alts, rest.1[groups + 1 := routes[0]])
  }

  /** One iteration of the loop: the first route's branch, then the rest from the next count. */
  lemma ProcessFromStep(routes: seq<Route>, numGroups: nat, groups: nat, rest: (seq<Alternative>, map<int, Route>))
    requires |routes| > 0 && groups == Max(numGroups, |routes[0].variableNames|)
    requires rest == ProcessFrom(routes[1..], groups + 1)
    ensures ProcessFrom(routes, numGroups).0 == [Alternative(routes[0].regex, groups - |routes[0].variableNames|)] + rest.0
    ensures ProcessFrom(routes, numGroups).1 == rest.1[groups + 1 := routes[0]]
  {
  }

  /** Every route is in the route map under its recorded key. */
  lemma {:induction false} ProcessFromRecordsRoutes(routes: seq<Route>, numGroups: nat, i: nat)
    requires i < |routes|
    ensures RecordedKey(routes[i], ProcessFrom(routes, numGroups).0[i]) in ProcessFrom(routes, numGroups).1
    ensures ProcessFrom(routes, numGroups).1[RecordedKey(routes[i], ProcessFrom(routes, numGroups).0[i])] == routes[i]
    decreases |routes|
  {
    var r := ProcessFrom(routes, numGroups);
    var numVariables := |routes[0].variableNames|;
    var groups := Max(numGroups, numVariables);
    var tail := routes[1..];
    var rest := ProcessFrom(tail, groups + 1);
    ProcessFromStep(routes, numGroups, groups, rest);
    if i > 0 {
      ProcessFromRecordsRoutes(tail, groups + 1, i - 1);
      assert routes[i] == tail[i - 1] && r.0[i] == rest.0[i - 1];
    }
  }

  /**
   * Keys grow strictly along the chunk, so no two routes of one chunk share
   * a key and no route is overwritten in the route map.
   */
  lemma {:induction false} ProcessFromKeysIncrease(routes: seq<Route>, numGroups: nat, i: nat, j: nat)
    requires i < j < |routes|
    ensures RecordedKey(routes[i], ProcessFrom(routes, numGroups).0[i]) < RecordedKey(routes[j], ProcessFrom(routes, numGroups).0[j])
    decreases |routes|
  {
    var groups := Max(numGroups, |routes[0].variableNames|);
    var rest := ProcessFrom(routes[1..], groups + 1);
    ProcessFromShift(routes, numGroups, groups, rest, j);
    if i == 0 {
      ProcessFromRecordsRoutes(routes[1..], groups + 1, j - 1);
    } else {
      ProcessFromShift(routes, numGroups, groups, rest, i);
      ProcessFromKeysIncrease(routes[1..], groups + 1, i - 1, j - 1);
    }
  }

  /** Branch `i` of the chunk is route `i`'s own fragment (plus padding). */
  lemma {:induction false} ProcessFromRegex(routes: seq<Route>, numGroups: nat, i: nat)
    requires i < |routes|
    ensures ProcessFrom(routes, numGroups).0[i].regex == routes[i].regex
    decreases |routes|
  {
    var groups := Max(numGroups, |routes[0].variableNames|);
    var rest := ProcessFrom(routes[1..], groups + 1);
    ProcessFromStep(routes, numGroups, groups, rest);
    if i > 0 {
      ProcessFromShift(routes, numGroups, groups, rest, i);
      ProcessFromRegex(routes[1..], groups + 1, i - 1);
    }
  }

  /** Route `i > 0` and its branch are the tail's route `i - 1` and branch. */
  lemma ProcessFromShift(routes: seq<Route>, numGroups: nat, groups: nat, rest: (seq<Alternative>, map<int, Route>), i: nat)
    requires 0 < i < |routes| && groups == Max(numGroups, |routes[0].variableNames|)
    requires rest == ProcessFrom(routes[1..], groups + 1)
    ensures routes[i] == routes[1..][i - 1]
    ensures ProcessFrom(routes, numGroups).0[i] == rest.0[i - 1]
    ensures RecordedKey(routes[0], ProcessFrom(routes, numGroups).0[0]) == groups + 1
  {
    ProcessFromStep(routes, numGroups, groups, rest);
  }

  /** The route map holds nothing but the routes' recorded keys. */
  lemma {:induction false} ProcessFromOnlyRecorded(routes: seq<Route>, numGroups: nat, k: int)
    requires k in ProcessFrom(routes, numGroups).1
    ensures exists i :: 0 <= i < |routes| && k == RecordedKey(routes[i], ProcessFrom(routes, numGroups).0[i])
    decreases |routes|
  {
    var r := ProcessFrom(routes, numGroups);
    var numVariables := |routes[0].variableNames|;
    var groups := Max(numGroups, numVariables);
    var tail := routes[1..];
    var rest := ProcessFrom(tail, groups + 1);
    ProcessFromStep(routes, numGroups, groups, rest);
    if k == groups + 1 {
      assert k == RecordedKey(routes[0], r.0[0]);
    } else {
      ProcessFromOnlyRecorded(tail, groups + 1, k);
      var i :| 0 <= i < |tail| && k == RecordedKey(tail[i], rest.0[i]);
      assert routes[i + 1] == tail[i] && r.0[i + 1] == rest.0[i];
    }
  }

  /** `processChunk`: one branch per route, keyed by capture count from 0. */
  function ProcessChunk(routes: seq<Route>): (c: Chunk)
    requires forall i :: 0 <= i < |routes| ==> RouteWellFormed(routes[i])
    ensures ChunkWellFormed(c)
  {
    var r := ProcessFrom(routes, 0);
    var c := Chunk(r.0, r.1);
    forall i | 0 <= i < |r.0|
      ensures MatchCount(r.0[i]) in r.1
      ensures |r.1[MatchCount(r.0[i])].variableNames| < MatchCount(r.0[i])
      ensures Distinct(r.1[MatchCount(r.0[i])].variableNames)
    {
      assert RouteWellFormed(routes[i]);
      ProcessFromRecordsRoutes(routes, 0, i);
      ProcessFromRegex(routes, 0, i);
      assert MatchCount(r.0[i]) == RecordedKey(routes[i], r.0[i]);
    }
    c
  }

  /** One method's routes, split with the computed chunk size, each chunk processed. */
  function CompileRoutes(routes: seq<Route>): (chunks: seq<Chunk>)
    requires |routes| >= 1
    requires forall i :: 0 <= i < |routes| ==> RouteWellFormed(routes[i])
    ensures WellFormedChunks(chunks)
    ensures 1 <= |chunks| <= NumParts(|routes|)
  {
    var size := ComputeChunkSize(|routes|);
    var parts := ArrayChunk(routes, size);
    assert forall i :: 0 <= i < |parts| ==>
      forall j :: 0 <= j < |parts[i]| ==> RouteWellFormed(parts[i][j]) by {
      forall i, j | 0 <= i < |parts| && 0 <= j < |parts[i]|
        ensures RouteWellFormed(parts[i][j])
      {
        FlattenIndex(parts, i, j);
      }
    }
    ChunkCountAtMostParts(|routes|, size, |parts|);
    seq(|parts|, i requires 0 <= i < |parts| => ProcessChunk(parts[i]))
  }

  /** Fewer chunks than parts would be impossible to exceed: ceil(n / ceil(n / p)) <= p. */
  lemma ChunkCountAtMostParts(n: nat, size: nat, count: nat)
    requires n >= 1 && size == ComputeChunkSize(n)
    requires (count - 1) * size < n
    ensures count <= NumParts(n)
  {
    var p := NumParts(n);
    MulMonotone(size, count - 1, p);
  }

  /** An element of a part is an element of the concatenation. */
  lemma {:induction false} FlattenIndex<T>(parts: seq<seq<T>>, i: nat, j: nat)
    requires i < |parts| && j < |parts[i]|
    ensures exists k :: 0 <= k < |Flatten(parts)| && Flatten(parts)[k] == parts[i][j]
    decreases i
  {
    if i == 0 {
      assert Flatten(parts)[j] == parts[0][j];
    } else {
      FlattenIndex(parts[1..], i - 1, j);
      var k :| 0 <= k < |Flatten(parts[1..])| && Flatten(parts[1..])[k] == parts[1..][i - 1][j];
      assert Flatten(parts)[|parts[0]| + k] == parts[i][j];
    }
  }

  /** `generateVariableRouteData`: every method's routes compiled, method order kept. */
  function GenerateVariableRouteData(vr: Assoc<string, seq<Route>>): (d: VariableRouteData)
    requires forall i :: 0 <= i < |vr| ==> MethodRoutesValid(vr[i].0, vr[i].1)
    ensures Keys(d) == Keys(vr)
    ensures forall i :: 0 <= i < |vr| ==> MethodRoutesValid(vr[i].0, vr[i].1) && d[i].1 == CompileRoutes(vr[i].1)
  {
    if |vr| == 0 then []
    else
      assert MethodRoutesValid(vr[0].0, vr[0].1);
      var rest := GenerateVariableRouteData(vr[1..]);
      assert forall i :: 1 <= i < |vr| ==> vr[i] == vr[1..][i - 1];
      [(vr[0].0, CompileRoutes(vr[0].1))] + rest
  }

  /**
   * `getData`: the static table as registered, and the compiled variable
   * routes (none when no variable route was registered).
   */
  function GetData(g: Generator): (d: RouteData)
    requires Valid(g)
    ensures d.staticRouteMap == g.staticRoutes
    ensures |g.methodToRegexToRoutesMap| == 0 ==> d.variableRouteData == []
    ensures Keys(d.variableRouteData) == Keys(g.methodToRegexToRoutesMap)
    ensures WellFormedData(d)
  {
    if |g.methodToRegexToRoutesMap| == 0 then RouteData(g.staticRoutes, [])
    else RouteData(g.staticRoutes, GenerateVariableRouteData(g.methodToRegexToRoutesMap))
  }
}
