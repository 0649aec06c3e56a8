/**
 * The `Route` entity: an immutable registration (method, raw pattern,
 * handler, compiled fragment, placeholder names, optional name), plus the
 * per-dispatch bindings returned beside it instead of being stored on it.
 */
module Routes {
  import opened Wrappers
  import opened Seqs
  import opened Assoc
  import opened Pattern
  import opened Matching

  /** The handler is never inspected: an opaque token handed back unchanged. */
  datatype Handler = Handler(id: string)

  datatype Route = Route(
    httpMethod: string,
    uri: string,
    handler: Handler,
    regex: Fragment,
    variableNames: seq<string>,
    name: Option<string>)

  /** One group per placeholder name, and no name twice. */
  predicate RouteWellFormed(r: Route) {
    |r.variableNames| == CapCount(r.regex) && Distinct(r.variableNames)
  }

  /** Bindings in PHP array order: placeholder name to captured text. */
  type Bindings = seq<(string, string)>

  /** A route together with the variables one dispatch bound for it. */
  datatype Bound = Bound(route: Route, variables: Bindings)

  /** A route whose variables were never set: `variables()` is empty. */
  function Unbound(r: Route): (b: Bound)
    ensures b.route == r && |b.variables| == 0
  {
    Bound(r, [])
  }

  /** `setVariables`: the previous bindings are dropped, not merged. */
  function SetVariables(b: Bound, vars: Bindings): (r: Bound)
    ensures r.route == b.route && r.variables == vars
  {
    b.(variables := vars)
  }

  lemma SetVariablesLastWins(b: Bound, v1: Bindings, v2: Bindings)
    ensures SetVariables(SetVariables(b, v1), v2) == SetVariables(b, v2)
    ensures SetVariables(Unbound(b.route), v1).variables == v1
  {
  }

  /** `matches`: `~^regex$~` against the whole string, never a prefix or suffix of it. */
  function Matches(r: Route, s: string): (m: bool)
    ensures m <==> FullMatch(r.regex, s)
  {
    MatchIffFullMatch(r.regex, s);
    Match(r.regex, s).Some?
  }

  /** The i-th name bound to the i-th captured value. */
  function Bind(names: seq<string>, values: seq<string>): (b: Bindings)
    requires |names| <= |values|
    ensures |b| == |names|
    ensures forall i :: 0 <= i < |names| ==> b[i] == (names[i], values[i])
  {
    seq(|names|, i requires 0 <= i < |names| => (names[i], values[i]))
  }

  /** Values past the last name are never bound. */
  lemma BindIgnoresExtra(names: seq<string>, values: seq<string>, extra: seq<string>)
    requires |names| <= |values|
    ensures Bind(names, values + extra) == Bind(names, values)
  {
  }

  /**
   * Reference semantics of variable-route dispatch: scan the routes in
   * registration order and take the first whose fragment matches the whole
   * uri, binding its names to its captures.
   */
  function FirstMatch(routes: seq<Route>, uri: string): (r: Option<Bound>)
    requires forall i :: 0 <= i < |routes| ==> RouteWellFormed(routes[i])
    ensures r.Some? ==> Keys(r.value.variables) == r.value.route.variableNames
  {
    if |routes| == 0 then None
    else
      var r := routes[0];
      assert RouteWellFormed(r);
      match Match(r.regex, uri)
      case Some(caps) => Some(Bound(r, Bind(r.variableNames, caps)))
      case None => FirstMatch(routes[1..], uri)
  }

  /**
   * The scan answers "none" exactly when no route matches the whole uri,
   * and otherwise returns the earliest route that does, with its names
   * bound to captures spelling the uri.
   */
  lemma {:induction false} FirstMatchSpec(routes: seq<Route>, uri: string)
    requires forall i :: 0 <= i < |routes| ==> RouteWellFormed(routes[i])
    ensures FirstMatch(routes, uri).None? <==> forall i :: 0 <= i < |routes| ==> !FullMatch(routes[i].regex, uri)
    ensures FirstMatch(routes, uri).Some? ==>
      exists i :: 0 <= i < |routes| && FirstMatchAt(routes, uri, i, FirstMatch(routes, uri).value)
    decreases |routes|
  {
    if |routes| > 0 {
      var r := routes[0];
      assert RouteWellFormed(r);
      MatchIffFullMatch(r.regex, uri);
      match Match(r.regex, uri)
      case Some(caps) =>
        assert FirstMatchAt(routes, uri, 0, FirstMatch(routes, uri).value);
      case None =>
        var tail := routes[1..];
        assert forall i :: 0 <= i < |tail| ==> RouteWellFormed(tail[i]) by {
          forall i | 0 <= i < |tail| ensures RouteWellFormed(tail[i]) {
            assert tail[i] == routes[i + 1];
          }
        }
        FirstMatchSpec(tail, uri);
        assert FirstMatch(routes, uri) == FirstMatch(tail, uri);
        if FirstMatch(tail, uri).Some? {
          var b := FirstMatch(tail, uri).value;
          var i :| 0 <= i < |tail| && FirstMatchAt(tail, uri, i, b);
          FirstMatchAtShift(routes, uri, i, b);
        } else {
          forall i | 1 <= i < |routes| ensures !FullMatch(routes[i].regex, uri) {
            assert routes[i] == routes[1..][i - 1];
          }
        }
    }
  }

  /** A first match in the tail, after a head that does not match, is a first match one position later. */
  lemma FirstMatchAtShift(routes: seq<Route>, uri: string, i: nat, b: Bound)
    requires 0 < |routes| && !FullMatch(routes[0].regex, uri)
    requires i < |routes| - 1 && FirstMatchAt(routes[1..], uri, i, b)
    ensures FirstMatchAt(routes, uri, i + 1, b)
  {
    var tail := routes[1..];
    assert tail[i] == routes[i + 1];
    forall j | 0 <= j < i + 1 ensures !FullMatch(routes[j].regex, uri) {
      if j > 0 {
        assert routes[j] == tail[j - 1];
      }
    }
  }

  /**
   * Route `i` is the first of `routes` matching `uri`, and `b` binds its
   * names, in order, to captures that spell `uri`.
   */
  ghost predicate FirstMatchAt(routes: seq<Route>, uri: string, i: int, b: Bound)
    requires 0 <= i < |routes|
  {
    && b.route == routes[i]
    && FullMatch(routes[i].regex, uri)
    && (forall j :: 0 <= j < i ==> !FullMatch(routes[j].regex, uri))
    && exists caps :: |caps| == CapCount(routes[i].regex) && AllSegments(caps)
         && Render(routes[i].regex, caps) == uri
         && |caps| >= |routes[i].variableNames| && b.variables == Bind(routes[i].variableNames, caps)
  }

  lemma {:induction false} FirstMatchAppend(a: seq<Route>, b: seq<Route>, uri: string)
    requires forall i :: 0 <= i < |a| ==> RouteWellFormed(a[i])
    requires forall i :: 0 <= i < |b| ==> RouteWellFormed(b[i])
    ensures forall i :: 0 <= i < |a + b| ==> RouteWellFormed((a + b)[i])
    ensures FirstMatch(a + b, uri) == if FirstMatch(a, uri).Some? then FirstMatch(a, uri) else FirstMatch(b, uri)
    decreases |a|
  {
    if |a| == 0 {
      assert a + b == b;
    } else {
      assert (a + b)[1..] == a[1..] + b;
      FirstMatchAppend(a[1..], b, uri);
    }
  }
}
