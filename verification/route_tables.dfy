/**
 * The compiled route data `getData` hands to the dispatcher, and what
 * `preg_match` does with one chunk's combined regex
 * `~^(?|alt_0|alt_1|...)$~`.
 */
module RouteTables {
  import opened Wrappers
  import opened Seqs
  import opened Assoc
  import opened Pattern
  import opened Matching
  import opened Routes

  /** One branch of a chunk: a route's fragment followed by `padding` empty groups `()`. */
  datatype Alternative = Alternative(regex: Fragment, padding: nat)

  /** A combined regex and the map from capture count to the route it identifies. */
  datatype Chunk = Chunk(alternatives: seq<Alternative>, routeMap: map<int, Route>)

  /** Literal path, then method, to route; both levels in registration order. */
  type StaticRouteMap = Assoc<string, Assoc<string, Route>>

  /** Method to its chunks, in order of the method's first variable route. */
  type VariableRouteData = Assoc<string, seq<Chunk>>

  datatype RouteData = RouteData(staticRouteMap: StaticRouteMap, variableRouteData: VariableRouteData)

  function EmptyGroups(n: nat): (g: seq<string>)
    ensures |g| == n && forall i :: 0 <= i < n ==> g[i] == ""
  {
    seq(n, i => "")
  }

  /**
   * `count($matches)` when branch `a` matched: the whole match, the
   * fragment's groups, then the padding groups. All of them took part in
   * the match (the padding ones matched the empty string), so none is
   * dropped from the end of the array.
   */
  function MatchCount(a: Alternative): nat {
    1 + CapCount(a.regex) + a.padding
  }

  /**
   * `preg_match` of a chunk regex: the branches are tried left to right and
   * the first one matching the whole uri wins. Branch reset `(?|...)`
   * numbers each branch's groups from 1, so `$matches` holds the uri, that
   * branch's captures and its padding, whatever the other branches contain.
   */
  function MatchChunk(alts: seq<Alternative>, uri: string): (m: Option<seq<string>>)
    ensures m.Some? ==> exists i :: 0 <= i < |alts| && |m.value| == MatchCount(alts[i])
  {
    if |alts| == 0 then None
    else
      match Match(alts[0].regex, uri)
      case Some(caps) => Some([uri] + caps + EmptyGroups(alts[0].padding))
      case None =>
        var rest := MatchChunk(alts[1..], uri);
        if rest.Some? then
          assert exists i :: 0 <= i < |alts| && |rest.value| == MatchCount(alts[i]) by {
            var i :| 0 <= i < |alts| - 1 && |rest.value| == MatchCount(alts[1..][i]);
            assert alts[1..][i] == alts[i + 1];
          }
          rest
        else rest
  }

  /**
   * The chunk pattern fails exactly when no branch matches the whole uri;
   * otherwise `$matches` comes from the first branch that does.
   */
  lemma {:induction false} MatchChunkSpec(alts: seq<Alternative>, uri: string)
    ensures MatchChunk(alts, uri).None? <==> forall i :: 0 <= i < |alts| ==> !FullMatch(alts[i].regex, uri)
    ensures MatchChunk(alts, uri).Some? ==>
      exists i :: 0 <= i < |alts| && FirstBranch(alts, uri, i, MatchChunk(alts, uri).value)
    decreases |alts|
  {
    if |alts| > 0 {
      MatchIffFullMatch(alts[0].regex, uri);
      match Match(alts[0].regex, uri)
      case Some(caps) =>
        FirstBranchHere(alts, uri, caps);
      case None =>
        MatchChunkSpec(alts[1..], uri);
        var rest := MatchChunk(alts[1..], uri);
        if rest.Some? {
          var i :| 0 <= i < |alts| - 1 && FirstBranch(alts[1..], uri, i, rest.value);
          FirstBranchShift(alts, uri, i, rest.value);
        } else {
          forall i | 1 <= i < |alts| ensures !FullMatch(alts[i].regex, uri) {
            assert alts[i] == alts[1..][i - 1];
          }
        }
    }
  }

  /**
   * Branch `i` is the first to match `uri`, and `m` is the uri, the
   * branch's captures and its empty padding groups: `|m|` is `MatchCount`.
   */
  ghost predicate FirstBranch(alts: seq<Alternative>, uri: string, i: int, m: seq<string>)
    requires 0 <= i < |alts|
  {
    && FullMatch(alts[i].regex, uri)
    && (forall j :: 0 <= j < i ==> !FullMatch(alts[j].regex, uri))
    && |m| == MatchCount(alts[i])
    && m[0] == uri
    && AllSegments(m[1..1 + CapCount(alts[i].regex)])
    && Render(alts[i].regex, m[1..1 + CapCount(alts[i].regex)]) == uri
    && forall k :: 1 + CapCount(alts[i].regex) <= k < |m| ==> m[k] == ""
  }

  lemma FirstBranchHere(alts: seq<Alternative>, uri: string, caps: seq<string>)
    requires |alts| > 0 && Match(alts[0].regex, uri) == Some(caps)
    ensures FirstBranch(alts, uri, 0, [uri] + caps + EmptyGroups(alts[0].padding))
  {
    var m := [uri] + caps + EmptyGroups(alts[0].padding);
    assert m[1..1 + CapCount(alts[0].regex)] == caps;
    MatchIffFullMatch(alts[0].regex, uri);
  }

  lemma FirstBranchShift(alts: seq<Alternative>, uri: string, i: nat, m: seq<string>)
    requires 0 < |alts| && i < |alts| - 1 && !FullMatch(alts[0].regex, uri)
    requires FirstBranch(alts[1..], uri, i, m)
    ensures FirstBranch(alts, uri, i + 1, m)
  {
    assert alts[1..][i] == alts[i + 1];
    forall j | 0 <= j < i + 1 ensures !FullMatch(alts[j].regex, uri) {
      if j > 0 {
        assert alts[j] == alts[1..][j - 1];
      }
    }
  }

  /**
   * What dispatching needs of a chunk: every branch's match count is a key
   * of the route map, and that route's names fit in the captured groups.
   */
  predicate ChunkWellFormed(c: Chunk) {
    forall i :: 0 <= i < |c.alternatives| ==>
      && MatchCount(c.alternatives[i]) in c.routeMap
      && |c.routeMap[MatchCount(c.alternatives[i])].variableNames| < MatchCount(c.alternatives[i])
      && Distinct(c.routeMap[MatchCount(c.alternatives[i])].variableNames)
  }

  predicate WellFormedChunks(chunks: seq<Chunk>) {
    forall j :: 0 <= j < |chunks| ==> ChunkWellFormed(chunks[j])
  }

  predicate WellFormedData(d: RouteData) {
    forall i :: 0 <= i < |d.variableRouteData| ==> WellFormedChunks(d.variableRouteData[i].1)
  }
}
