/**
 * `Router::urlFor`: reverse routing. The named route is looked up, every
 * placeholder name must have a non-null parameter, and the placeholders in
 * the route's raw pattern are replaced.
 *
 * The replacement is modelled twice. `UrlForAsWritten` follows the code:
 * one `#\{key:?.*?\}#` pattern per variable name, handed to `preg_replace`
 * together with the parameter values in the parameters' own order.
 * `UrlFor` substitutes each placeholder by the value of its own name; the
 * round trip through dispatch is proved about it.
 */
module Router {
  import opened Wrappers
  import opened Seqs
  import opened Assoc
  import opened Pattern
  import opened Matching
  import opened Routes
  import opened RouteDataGenerator

  /** `RuntimeException` for an unknown name; `InvalidArgumentException` for a missing variable. */
  datatype UrlError = UnknownRoute(name: string) | MissingVariable(variable: string, routeName: string)

  /** The `$params` array: keys in insertion order; `None` is PHP `null`. */
  type Params = Assoc<string, Option<string>>

  /** `isset($params[$key])`: present and not null (an empty string is set). */
  predicate IsSet(params: Params, key: string) {
    Get(params, key).Some? && Get(params, key).value.Some?
  }

  /** The value of a parameter that is set. */
  function ParamValue(params: Params, key: string): string
    requires IsSet(params, key)
  {
    Get(params, key).value.value
  }

  /** The first of `names`, in declared order, whose parameter is not set. */
  function FirstMissing(names: seq<string>, params: Params): (r: Option<string>)
    ensures r.None? <==> forall i :: 0 <= i < |names| ==> IsSet(params, names[i])
    ensures r.Some? ==> exists i :: (0 <= i < |names| && names[i] == r.value && !IsSet(params, names[i])
      && forall j :: 0 <= j < i ==> IsSet(params, names[j]))
  {
    if |names| == 0 then None
    else if !IsSet(params, names[0]) then Some(names[0])
    else
      var r := FirstMissing(names[1..], params);
      if r.Some? then
        assert exists i :: (0 <= i < |names| && names[i] == r.value && !IsSet(params, names[i])
          && forall j :: 0 <= j < i ==> IsSet(params, names[j])) by {
          var i :| (0 <= i < |names| - 1 && names[1..][i] == r.value && !IsSet(params, names[1..][i])
            && forall j :: 0 <= j < i ==> IsSet(params, names[1..][j]));
          forall j | 0 <= j < i + 1 ensures IsSet(params, names[j]) {
            if j > 0 {
              assert names[j] == names[1..][j - 1];
            }
          }
        }
        r
      else
        assert forall i :: 1 <= i < |names| ==> names[i] == names[1..][i - 1];
        r
  }

  /**
   * The checks `urlFor` makes before substituting: the name is known and
   * every variable of the route is set.
   */
  function CheckedRoute(g: Generator, name: string, params: Params): (r: Result<Route, UrlError>)
    ensures r.Failure? && r.error.UnknownRoute? <==> GetNamedRoute(g, name).None?
    ensures r.Success? <==>
      GetNamedRoute(g, name).Some? && forall i :: 0 <= i < |GetNamedRoute(g, name).value.variableNames| ==>
        IsSet(params, GetNamedRoute(g, name).value.variableNames[i])
    ensures r.Success? ==> r.value == GetNamedRoute(g, name).value
    ensures r.Failure? && r.error.MissingVariable? ==>
      && r.error.routeName == name
      && GetNamedRoute(g, name).Some?
      && FirstMissing(GetNamedRoute(g, name).value.variableNames, params) == Some(r.error.variable)
    ensures r.Failure? ==> r.error.UnknownRoute? ==> r.error.name == name
  {
    match GetNamedRoute(g, name)
    case None => Failure(UnknownRoute(name))
    case Some(route) =>
      match FirstMissing(route.variableNames, params)
      case Some(key) => Failure(MissingVariable(key, name))
      case None => Success(route)
  }

  // ---------------------------------------------------------------------
  // The substitution as written.

  /**
   * The end of `.*?\}` started at `i`: the first `}` at or after `i`,
   * provided no line break comes first (`.` does not match "\n").
   */
  function CloseAt(s: string, i: nat): (r: Option<nat>)
    requires i <= |s|
    ensures r.Some? ==> i <= r.value < |s| && s[r.value] == '}'
    ensures r.Some? ==> forall k :: i <= k < r.value ==> s[k] != '}' && s[k] != '\n'
    ensures r.None? ==> forall k :: i <= k < |s| && s[k] == '}' ==> exists m :: i <= m < k && s[m] == '\n'
    decreases |s| - i
  {
    if i == |s| || s[i] == '\n' then None
    else if s[i] == '}' then Some(i)
    else CloseAt(s, i + 1)
  }

  /**
   * Where `#\{key:?.*?\}#` matches when tried at position `p` of `s`: the
   * exclusive end of the match. The optional `:` changes nothing, since
   * the lazy `.*?` runs to the same first closing brace either way.
   */
  function PatternAt(s: string, p: nat, key: string): (r: Option<nat>)
    requires p <= |s|
    ensures r.Some? ==> p + 1 + |key| < r.value <= |s| && s[p] == '{' && s[p + 1..p + 1 + |key|] == key
    ensures r.Some? ==> s[r.value - 1] == '}'
  {
    if p + 1 + |key| <= |s| && s[p] == '{' && s[p + 1..p + 1 + |key|] == key then
      match CloseAt(s, p + 1 + |key|)
      case Some(j) => Some(j + 1)
      case None => None
    else None
  }

  /** `preg_replace` of one pattern: every match, left to right, becomes `value`. */
  function ReplaceFrom(s: string, key: string, value: string, p: nat): string
    requires p <= |s|
    decreases |s| - p
  {
    if p == |s| then ""
    else
      match PatternAt(s, p, key)
      case Some(e) => value + ReplaceFrom(s, key, value, e)
      case None => [s[p]] + ReplaceFrom(s, key, value, p + 1)
  }

  /**
   * `preg_replace($patterns, $replacements, $subject)` with arrays: the
   * k-th pattern is applied to the running subject with the k-th
   * replacement value, or with "" once the replacements run out.
   */
  function PregReplace(keys: seq<string>, replacements: seq<string>, subject: string): string
    decreases |keys|
  {
    if |keys| == 0 then subject
    else
      var value := if |replacements| > 0 then replacements[0] else "";
      var rest := if |replacements| > 0 then replacements[1..] else [];
      PregReplace(keys[1..], rest, ReplaceFrom(subject, keys[0], value, 0))
  }

  /** The values of `$params` in its own order; `null` is replaced as "". */
  function ParamValues(params: Params): (vs: seq<string>)
    ensures |vs| == |params|
    ensures forall i :: 0 <= i < |params| ==> vs[i] == params[i].1.GetOr("")
  {
    seq(|params|, i requires 0 <= i < |params| => params[i].1.GetOr(""))
  }

  /** `urlFor` as written. */
  function UrlForAsWritten(g: Generator, name: string, params: Params): (r: Result<string, UrlError>)
    ensures r.Failure? <==> CheckedRoute(g, name, params).Failure?
    ensures r.Failure? ==> r.error == CheckedRoute(g, name, params).error
    ensures r.Success? && GetNamedRoute(g, name).value.variableNames == [] ==>
      r.value == GetNamedRoute(g, name).value.uri
  {
    match CheckedRoute(g, name, params)
    case Failure(e) => Failure(e)
    case Success(route) => Success(PregReplace(route.variableNames, ParamValues(params), route.uri))
  }

  // ---------------------------------------------------------------------
  // The substitution by name.

  /** The first `}` at or after `i`. */
  function FirstClose(s: string, i: nat): (r: Option<nat>)
    requires i <= |s|
    ensures r.Some? ==> i <= r.value < |s| && s[r.value] == '}'
    ensures r.Some? ==> forall k :: i <= k < r.value ==> s[k] != '}'
    ensures r.None? ==> forall k :: i <= k < |s| ==> s[k] != '}'
    decreases |s| - i
  {
    if i == |s| then None
    else if s[i] == '}' then Some(i)
    else FirstClose(s, i + 1)
  }

  /** The placeholder name inside `{...}`: everything before a `:`. */
  function PlaceholderName(inner: string): (n: string)
    ensures |n| <= |inner| && n == inner[..|n|]
    ensures ':' !in n
    ensures |n| < |inner| ==> inner[|n|] == ':'
  {
    if |inner| == 0 || inner[0] == ':' then ""
    else [inner[0]] + PlaceholderName(inner[1..])
  }

  /**
   * One pass over the raw pattern: each `{name}` or `{name:expr}` whose
   * name is one of the route's variables becomes that variable's value;
   * everything else is copied.
   */
  function Substitute(s: string, names: seq<string>, params: Params): string
    requires forall i :: 0 <= i < |names| ==> IsSet(params, names[i])
    decreases |s|
  {
    if |s| == 0 then ""
    else if s[0] == '{' && FirstClose(s, 1).Some? && PlaceholderName(s[1..FirstClose(s, 1).value]) in names then
      var j := FirstClose(s, 1).value;
      ParamValue(params, PlaceholderName(s[1..j])) + Substitute(s[j + 1..], names, params)
    else [s[0]] + Substitute(s[1..], names, params)
  }

  /** `urlFor` with every placeholder replaced by its own variable's value. */
  function UrlFor(g: Generator, name: string, params: Params): (r: Result<string, UrlError>)
    ensures r.Failure? <==> CheckedRoute(g, name, params).Failure?
    ensures r.Failure? ==> r.error == CheckedRoute(g, name, params).error
  {
    match CheckedRoute(g, name, params)
    case Failure(e) => Failure(e)
    case Success(route) => Success(Substitute(route.uri, route.variableNames, params))
  }

  /** The values a route's variables take in `params`, in declared order. */
  function ValuesFor(names: seq<string>, params: Params): (vs: seq<string>)
    requires forall i :: 0 <= i < |names| ==> IsSet(params, names[i])
    ensures |vs| == |names|
    ensures forall i :: 0 <= i < |names| ==> vs[i] == ParamValue(params, names[i])
  {
    seq(|names|, i requires 0 <= i < |names| => ParamValue(params, names[i]))
  }

  /** Literal text without braces is copied unchanged. */
  lemma {:induction false} SubstituteLiteral(text: string, rest: string, names: seq<string>, params: Params)
    requires NoBraces(text)
    requires forall i :: 0 <= i < |names| ==> IsSet(params, names[i])
    ensures Substitute(text + rest, names, params) == text + Substitute(rest, names, params)
    decreases |text|
  {
    if |text| == 0 {
      assert text + rest == rest;
    } else {
      assert (text + rest)[0] == text[0];
      assert (text + rest)[1..] == text[1..] + rest;
      SubstituteLiteral(text[1..], rest, names, params);
    }
  }

  /** A printed placeholder `{name}` is replaced by the value of `name`. */
  lemma SubstitutePlaceholder(name: string, rest: string, names: seq<string>, params: Params)
    requires NoBraces(name) && ':' !in name && name in names
    requires forall i :: 0 <= i < |names| ==> IsSet(params, names[i])
    ensures Substitute("{" + name + "}" + rest, names, params) == ParamValue(params, name) + Substitute(rest, names, params)
  {
    var s := "{" + name + "}" + rest;
    var j := |name| + 1;
    assert s[j] == '}';
    assert forall k :: 1 <= k < j ==> s[k] == name[k - 1];
    assert FirstClose(s, 1) == Some(j) by {
      FirstCloseAt(s, 1, j);
    }
    assert s[1..j] == name;
    PlaceholderNameIdentity(name);
    assert s[j + 1..] == rest;
  }

  lemma {:induction false} FirstCloseAt(s: string, i: nat, j: nat)
    requires i <= j < |s| && s[j] == '}'
    requires forall k :: i <= k < j ==> s[k] != '}'
    ensures FirstClose(s, i) == Some(j)
    decreases j - i
  {
    if i < j {
      FirstCloseAt(s, i + 1, j);
    }
  }

  lemma {:induction false} PlaceholderNameIdentity(name: string)
    requires ':' !in name
    ensures PlaceholderName(name) == name
    decreases |name|
  {
    if |name| > 0 {
      assert name[0] != ':';
      assert name == [name[0]] + name[1..];
      PlaceholderNameIdentity(name[1..]);
    }
  }

  /**
   * Substituting into the printed pattern spells the route's fragment with
   * each group replaced by its variable's value.
   */
  lemma {:induction false} SubstitutePrint(tokens: seq<Token>, names: seq<string>, params: Params)
    requires WellFormedTokens(tokens)
    requires forall i :: 0 <= i < |VarNames(tokens)| ==> VarNames(tokens)[i] in names
    requires forall i :: 0 <= i < |names| ==> IsSet(params, names[i])
    ensures forall i :: 0 <= i < |VarNames(tokens)| ==> IsSet(params, VarNames(tokens)[i])
    ensures CapCount(Escape(tokens)) == |VarNames(tokens)|
    ensures Substitute(Print(tokens), names, params)
      == Render(Escape(tokens), ValuesFor(VarNames(tokens), params))
    decreases |tokens|
  {
    CapCountEscape(tokens);
    if |tokens| > 0 {
      var rest := tokens[1..];
      assert WellFormedTokens(rest) by {
        forall i | 0 <= i < |rest| ensures rest[i] == tokens[i + 1] { }
      }
      assert forall i :: 0 <= i < |VarNames(rest)| ==> VarNames(rest)[i] in names by {
        VarNamesTail(tokens);
      }
      SubstitutePrint(rest, names, params);
      match tokens[0]
      case Lit(text) => SubstitutePrintLit(tokens, text, names, params);
      case Var(name) => SubstitutePrintVar(tokens, name, names, params);
    }
  }

  /** The names of the tail are among the names of the whole. */
  lemma VarNamesTail(tokens: seq<Token>)
    requires |tokens| > 0
    ensures forall i :: 0 <= i < |VarNames(tokens[1..])| ==> VarNames(tokens[1..])[i] in VarNames(tokens)
  {
    var rest := tokens[1..];
    assert tokens == [tokens[0]] + rest;
    if tokens[0].Var? {
      assert VarNames(tokens) == [tokens[0].name] + VarNames(rest);
      forall i | 0 <= i < |VarNames(rest)| ensures VarNames(rest)[i] in VarNames(tokens) {
        assert VarNames(rest)[i] == VarNames(tokens)[i + 1];
      }
    } else {
      assert VarNames(tokens) == VarNames(rest);
    }
  }

  /** The literal step of `SubstitutePrint`. */
  lemma SubstitutePrintLit(tokens: seq<Token>, text: string, names: seq<string>, params: Params)
    requires WellFormedTokens(tokens) && |tokens| > 0 && tokens[0] == Lit(text)
    requires forall i :: 0 <= i < |names| ==> IsSet(params, names[i])
    requires forall i :: 0 <= i < |VarNames(tokens[1..])| ==> IsSet(params, VarNames(tokens[1..])[i])
    requires CapCount(Escape(tokens[1..])) == |VarNames(tokens[1..])|
    requires Substitute(Print(tokens[1..]), names, params)
      == Render(Escape(tokens[1..]), ValuesFor(VarNames(tokens[1..]), params))
    ensures forall i :: 0 <= i < |VarNames(tokens)| ==> IsSet(params, VarNames(tokens)[i])
    ensures CapCount(Escape(tokens)) == |VarNames(tokens)|
    ensures Substitute(Print(tokens), names, params)
      == Render(Escape(tokens), ValuesFor(VarNames(tokens), params))
  {
    var rest := tokens[1..];
    CapCountEscape(tokens);
    assert tokens == [Lit(text)] + rest;
    assert VarNames(tokens) == VarNames(rest);
    assert NoBraces(text);
    SubstituteLiteral(text, Print(rest), names, params);
    RenderQuote(text, Escape(rest), ValuesFor(VarNames(rest), params));
  }

  /** The placeholder step of `SubstitutePrint`. */
  lemma SubstitutePrintVar(tokens: seq<Token>, name: string, names: seq<string>, params: Params)
    requires WellFormedTokens(tokens) && |tokens| > 0 && tokens[0] == Var(name)
    requires forall i :: 0 <= i < |VarNames(tokens)| ==> VarNames(tokens)[i] in names
    requires forall i :: 0 <= i < |names| ==> IsSet(params, names[i])
    requires forall i :: 0 <= i < |VarNames(tokens[1..])| ==> IsSet(params, VarNames(tokens[1..])[i])
    requires CapCount(Escape(tokens[1..])) == |VarNames(tokens[1..])|
    requires Substitute(Print(tokens[1..]), names, params)
      == Render(Escape(tokens[1..]), ValuesFor(VarNames(tokens[1..]), params))
    ensures forall i :: 0 <= i < |VarNames(tokens)| ==> IsSet(params, VarNames(tokens)[i])
    ensures CapCount(Escape(tokens)) == |VarNames(tokens)|
    ensures Substitute(Print(tokens), names, params)
      == Render(Escape(tokens), ValuesFor(VarNames(tokens), params))
  {
    var rest := tokens[1..];
    CapCountEscape(tokens);
    assert tokens == [Var(name)] + rest;
    assert VarNames(tokens) == [name] + VarNames(rest);
    assert name == VarNames(tokens)[0];
    SubstitutePlaceholder(name, Print(rest), names, params);
    assert "{" + name + "}" + Print(rest) == Print(tokens);
    var vs := ValuesFor(VarNames(tokens), params);
    assert vs[1..] == ValuesFor(VarNames(rest), params);
  }

  /**
   * The round trip: for a named route whose raw pattern is the printed
   * form of its tokens, `urlFor` succeeds once every variable is set, and
   * when each value is a non-empty run without `/`, the URL it builds is
   * matched in full by that route.
   */
  lemma UrlForRoundTrip(g: Generator, name: string, params: Params, tokens: seq<Token>)
    requires GetNamedRoute(g, name).Some?
    requires WellFormedTokens(tokens)
    requires GetNamedRoute(g, name).value.uri == Print(tokens)
    requires GetNamedRoute(g, name).value.regex == Escape(tokens)
    requires GetNamedRoute(g, name).value.variableNames == VarNames(tokens)
    requires forall i :: 0 <= i < |VarNames(tokens)| ==> IsSet(params, VarNames(tokens)[i])
    ensures UrlFor(g, name, params).Success?
    ensures CapCount(Escape(tokens)) == |VarNames(tokens)|
    ensures UrlFor(g, name, params).value == Render(Escape(tokens), ValuesFor(VarNames(tokens), params))
    ensures AllSegments(ValuesFor(VarNames(tokens), params)) ==>
      Matches(GetNamedRoute(g, name).value, UrlFor(g, name, params).value)
  {
    var names := VarNames(tokens);
    SubstitutePrint(tokens, names, params);
    var vs := ValuesFor(names, params);
    var url := Render(Escape(tokens), vs);
    if AllSegments(vs) {
      assert FullMatch(Escape(tokens), url);
    }
  }

  /**
   * Dispatching the URL `urlFor` builds back to its route binds every
   * variable to the parameter it was built from, when the placeholders are
   * separated by `/` so the URL splits only one way.
   */
  lemma UrlForDispatchesBack(g: Generator, name: string, params: Params, tokens: seq<Token>)
    requires GetNamedRoute(g, name).Some?
    requires WellFormedTokens(tokens) && Distinct(VarNames(tokens))
    requires GetNamedRoute(g, name).value.uri == Print(tokens)
    requires GetNamedRoute(g, name).value.regex == Escape(tokens)
    requires GetNamedRoute(g, name).value.variableNames == VarNames(tokens)
    requires SlashSeparated(Escape(tokens))
    requires forall i :: 0 <= i < |VarNames(tokens)| ==> IsSet(params, VarNames(tokens)[i])
    requires AllSegments(ValuesFor(VarNames(tokens), params))
    ensures UrlFor(g, name, params).Success?
    ensures RouteWellFormed(GetNamedRoute(g, name).value)
    ensures FirstMatch([GetNamedRoute(g, name).value], UrlFor(g, name, params).value)
      == Some(Bound(GetNamedRoute(g, name).value, Bind(VarNames(tokens), ValuesFor(VarNames(tokens), params))))
    ensures forall i :: 0 <= i < |VarNames(tokens)| ==>
      Bind(VarNames(tokens), ValuesFor(VarNames(tokens), params))[i] == (VarNames(tokens)[i], ParamValue(params, VarNames(tokens)[i]))
  {
    UrlForRoundTrip(g, name, params, tokens);
    var vs := ValuesFor(VarNames(tokens), params);
    MatchRecoversCaptures(Escape(tokens), vs);
  }

  /** A route without variables is its raw pattern, whatever the parameters. */
  lemma {:induction false} SubstituteNoNames(s: string, params: Params)
    ensures Substitute(s, [], params) == s
    decreases |s|
  {
    if |s| > 0 {
      SubstituteNoNames(s[1..], params);
    }
  }

  /** A named literal route's URL is its raw uri, in both readings of `urlFor`. */
  lemma StaticRouteUrl(g: Generator, name: string, params: Params)
    requires GetNamedRoute(g, name).Some? && GetNamedRoute(g, name).value.variableNames == []
    ensures UrlFor(g, name, params) == Success(GetNamedRoute(g, name).value.uri)
    ensures UrlForAsWritten(g, name, params) == Success(GetNamedRoute(g, name).value.uri)
  {
    SubstituteNoNames(GetNamedRoute(g, name).value.uri, params);
  }

  // ---------------------------------------------------------------------
  // Where the two readings part.

  /** Unfolding helper: once every variable is set, `urlFor` as written is the chain of replacements. */
  lemma UrlForAsWrittenSet(g: Generator, name: string, params: Params)
    requires GetNamedRoute(g, name).Some?
    requires forall i :: 0 <= i < |GetNamedRoute(g, name).value.variableNames| ==>
      IsSet(params, GetNamedRoute(g, name).value.variableNames[i])
    ensures UrlForAsWritten(g, name, params) == Success(PregReplace(
      GetNamedRoute(g, name).value.variableNames, ParamValues(params), GetNamedRoute(g, name).value.uri))
  {
  }

  /** Unfolding helper: once every variable is set, `UrlFor` is the substitution by name. */
  lemma UrlForSet(g: Generator, name: string, params: Params)
    requires GetNamedRoute(g, name).Some?
    requires forall i :: 0 <= i < |GetNamedRoute(g, name).value.variableNames| ==>
      IsSet(params, GetNamedRoute(g, name).value.variableNames[i])
    ensures UrlFor(g, name, params) == Success(Substitute(
      GetNamedRoute(g, name).value.uri, GetNamedRoute(g, name).value.variableNames, params))
  {
  }

  /** Positions where the pattern does not start are copied by a replacement. */
  lemma {:induction false} ReplaceSkip(s: string, key: string, value: string, p: nat, q: nat)
    requires p <= q <= |s|
    requires forall k :: p <= k < q ==> PatternAt(s, k, key).None?
    ensures ReplaceFrom(s, key, value, p) == s[p..q] + ReplaceFrom(s, key, value, q)
    decreases q - p
  {
    if p < q {
      ReplaceSkip(s, key, value, p + 1, q);
      AppendAssoc([s[p]], s[p + 1..q], ReplaceFrom(s, key, value, q));
      assert s[p..q] == [s[p]] + s[p + 1..q];
    }
  }

  /** A match of the pattern at `p` is replaced and the scan resumes after it. */
  lemma ReplaceHit(s: string, key: string, value: string, p: nat, e: nat)
    requires p < |s| && PatternAt(s, p, key) == Some(e)
    ensures ReplaceFrom(s, key, value, p) == value + ReplaceFrom(s, key, value, e)
  {
  }

  /** A subject without `{` is not changed by a replacement. */
  lemma ReplaceNone(s: string, key: string, value: string)
    requires forall k :: 0 <= k < |s| ==> s[k] != '{'
    ensures ReplaceFrom(s, key, value, 0) == s
  {
    ReplaceSkip(s, key, value, 0, |s|);
    assert s[0..|s|] == s;
  }

  // ---------------------------------------------------------------------
  // The replacement as written, for every pattern.

  /** The value `preg_replace` pairs with the i-th pattern: the i-th replacement, or "" once they run out. */
  function Positional(values: seq<string>, i: nat): string {
    if i < |values| then values[i] else ""
  }

  /** The replacements left for the patterns after the first. */
  function Rest(values: seq<string>): seq<string> {
    if |values| > 0 then values[1..] else []
  }

  /** The values the n placeholders of a route receive as written: paired by position. */
  function PositionalValues(values: seq<string>, n: nat): (vs: seq<string>)
    ensures |vs| == n
    ensures forall i :: 0 <= i < n ==> vs[i] == Positional(values, i)
  {
    seq(n, i requires 0 <= i < n => Positional(values, i))
  }

  /** One replacement pass on a token: the placeholder `{key}` becomes literal `value`. */
  function ReplacedToken(t: Token, key: string, value: string): Token {
    if t == Var(key) then Lit(value) else t
  }

  /** One replacement pass on a token list, token by token. */
  function ReplacedTokens(ts: seq<Token>, key: string, value: string): (r: seq<Token>)
    ensures |r| == |ts|
    ensures forall i :: 0 <= i < |ts| ==> r[i] == ReplacedToken(ts[i], key, value)
  {
    seq(|ts|, i requires 0 <= i < |ts| => ReplacedToken(ts[i], key, value))
  }

  /** A token list after the passes for `keys`, in `PregReplace`'s order. */
  function ReplacedAll(ts: seq<Token>, keys: seq<string>, values: seq<string>): seq<Token>
    decreases |keys|
  {
    if |keys| == 0 then ts
    else ReplacedAll(ReplacedTokens(ts, keys[0], Positional(values, 0)), keys[1..], Rest(values))
  }

  /** A single token after the passes for `keys`. */
  function Replaced(t: Token, keys: seq<string>, values: seq<string>): Token
    decreases |keys|
  {
    if |keys| == 0 then t
    else Replaced(ReplacedToken(t, keys[0], Positional(values, 0)), keys[1..], Rest(values))
  }

  /**
   * The printed pattern holds `{` only where a placeholder starts: literals
   * have no `{` and names have no braces.
   */
  predicate PrintSafe(ts: seq<Token>) {
    forall i :: 0 <= i < |ts| ==>
      match ts[i]
      case Lit(text) => '{' !in text
      case Var(name) => NoBraces(name)
  }

  /** No key is a proper prefix of a placeholder name of `ts`. */
  predicate KeysSeparate(ts: seq<Token>, keys: seq<string>) {
    forall i, j :: 0 <= i < |ts| && 0 <= j < |keys| && ts[i].Var? ==> !(keys[j] < ts[i].name)
  }

  /** The passes act on each token separately. */
  lemma {:induction false} ReplacedAllPointwise(ts: seq<Token>, keys: seq<string>, values: seq<string>)
    ensures |ReplacedAll(ts, keys, values)| == |ts|
    ensures forall i :: 0 <= i < |ts| ==> ReplacedAll(ts, keys, values)[i] == Replaced(ts[i], keys, values)
    decreases |keys|
  {
    if |keys| > 0 {
      ReplacedAllPointwise(ReplacedTokens(ts, keys[0], Positional(values, 0)), keys[1..], Rest(values));
    }
  }

  /** Literal text is never replaced. */
  lemma {:induction false} ReplacedLit(text: string, keys: seq<string>, values: seq<string>)
    ensures Replaced(Lit(text), keys, values) == Lit(text)
    decreases |keys|
  {
    if |keys| > 0 {
      ReplacedLit(text, keys[1..], Rest(values));
    }
  }

  /** With distinct keys, the placeholder of the j-th key receives the j-th value. */
  lemma {:induction false} ReplacedVarAt(keys: seq<string>, values: seq<string>, j: nat)
    requires Distinct(keys) && j < |keys|
    ensures Replaced(Var(keys[j]), keys, values) == Lit(Positional(values, j))
    decreases j
  {
    if j == 0 {
      ReplacedLit(Positional(values, 0), keys[1..], Rest(values));
    } else {
      assert keys[0] != keys[j];
      assert keys[1..][j - 1] == keys[j];
      ReplacedVarAt(keys[1..], Rest(values), j - 1);
    }
  }

  /**
   * Where `#\{key:?.*?\}#` is tried on a printed placeholder `{n}`: it
   * matches the whole placeholder when `key` is `n`, and nowhere when `key`
   * is not a prefix of `n`.
   */
  lemma PatternAtPlaceholder(s: string, p: nat, n: string, key: string)
    requires p + |n| + 2 <= |s| && s[p] == '{' && s[p + 1..p + 1 + |n|] == n && s[p + 1 + |n|] == '}'
    requires NoBraces(key) && !(key < n)
    ensures PatternAt(s, p, key) == if key == n then Some(p + |n| + 2) else None
  {
    if key == n {
      assert CloseAt(s, p + 1 + |n|) == Some(p + 1 + |n|);
    }
  }

  /** A literal token is copied by a pass. */
  lemma ReplacePassLit(s: string, p: nat, text: string, ts: seq<Token>, key: string, value: string)
    requires |ts| > 0 && ts[0] == Lit(text)
    requires p + |text| <= |s| && s[p..p + |text|] == text && '{' !in text
    requires ReplaceFrom(s, key, value, p + |text|) == Print(ReplacedTokens(ts[1..], key, value))
    ensures ReplaceFrom(s, key, value, p) == Print(ReplacedTokens(ts, key, value))
  {
    forall k | p <= k < p + |text| ensures PatternAt(s, k, key).None? {
      assert s[k] == text[k - p];
    }
    ReplaceSkip(s, key, value, p, p + |text|);
    assert ReplacedTokens(ts, key, value)[1..] == ReplacedTokens(ts[1..], key, value);
  }

  /** A placeholder token is replaced by a pass exactly when it is `{key}`. */
  lemma ReplacePassVar(s: string, p: nat, n: string, ts: seq<Token>, key: string, value: string)
    requires |ts| > 0 && ts[0] == Var(n)
    requires p + |n| + 2 <= |s| && s[p..p + |n| + 2] == "{" + n + "}"
    requires NoBraces(n) && NoBraces(key) && !(key < n)
    requires ReplaceFrom(s, key, value, p + |n| + 2) == Print(ReplacedTokens(ts[1..], key, value))
    ensures ReplaceFrom(s, key, value, p) == Print(ReplacedTokens(ts, key, value))
  {
    var q := p + |n| + 2;
    assert s[p] == '{' && s[p + 1 + |n|] == '}';
    SliceOfSlice(s, p, q, 1, |n| + 1);
    assert ("{" + n + "}")[1..|n| + 1] == n;
    PatternAtPlaceholder(s, p, n, key);
    assert ReplacedTokens(ts, key, value)[1..] == ReplacedTokens(ts[1..], key, value);
    if key == n {
      ReplaceHit(s, key, value, p, q);
    } else {
      forall k | p < k < q ensures PatternAt(s, k, key).None? {
        assert s[k] == s[p..q][k - p];
      }
      ReplaceSkip(s, key, value, p, q);
    }
  }

  /** A printed pattern is its first token's text followed by the rest. */
  lemma PrintHead(ts: seq<Token>)
    requires |ts| > 0
    ensures Print(ts) == Print(ts[..1]) + Print(ts[1..])
    ensures Print(ts[..1]) == match ts[0] case Lit(text) => text case Var(n) => "{" + n + "}"
  {
    assert ts[..1][1..] == [];
  }

  /** One token of a pass: the head of `ts` is copied or replaced, then the pass goes on. */
  lemma ReplacePassStep(s: string, p: nat, ts: seq<Token>, key: string, value: string)
    requires |ts| > 0 && p + |Print(ts[..1])| <= |s| && s[p..p + |Print(ts[..1])|] == Print(ts[..1])
    requires Print(ts[..1]) == match ts[0] case Lit(text) => text case Var(n) => "{" + n + "}"
    requires ts[0].Lit? ==> '{' !in ts[0].text
    requires ts[0].Var? ==> NoBraces(ts[0].name) && !(key < ts[0].name)
    requires NoBraces(key)
    requires ReplaceFrom(s, key, value, p + |Print(ts[..1])|) == Print(ReplacedTokens(ts[1..], key, value))
    ensures ReplaceFrom(s, key, value, p) == Print(ReplacedTokens(ts, key, value))
  {
    var head := Print(ts[..1]);
    if ts[0].Lit? {
      ReplacePassLit(s, p, ts[0].text, ts, key, value);
    } else {
      var n := ts[0].name;
      assert |head| == |n| + 2;
      ReplacePassVar(s, p, n, ts, key, value);
    }
  }

  /** A slice of a slice is a slice. */
  lemma SliceOfSlice(s: string, a: nat, b: nat, c: nat, d: nat)
    requires a <= b <= |s| && c <= d <= b - a
    ensures s[a..b][c..d] == s[a + c..a + d]
  {
    forall i | 0 <= i < d - c ensures s[a..b][c..d][i] == s[a + c..a + d][i] {
      assert s[a..b][c..d][i] == s[a..b][c + i] == s[a + c + i];
    }
  }

  /** Splitting a suffix that is a concatenation. */
  lemma SuffixSplit(s: string, p: nat, a: string, b: string)
    requires p <= |s| && s[p..] == a + b
    ensures p + |a| <= |s| && s[p..p + |a|] == a && s[p + |a|..] == b
  {
    assert s[p..][..|a|] == a && s[p..][|a|..] == b;
  }

  /** The side conditions of a pass hold for the tail of a token list. */
  lemma PassTail(ts: seq<Token>, key: string)
    requires |ts| > 0 && PrintSafe(ts) && KeysSeparate(ts, [key])
    ensures PrintSafe(ts[1..]) && KeysSeparate(ts[1..], [key])
    ensures ts[0].Var? ==> !(key < ts[0].name)
  {
    assert [key][0] == key;
    forall i | 0 <= i < |ts| - 1 ensures ts[1..][i] == ts[i + 1] { }
  }

  /**
   * One `preg_replace` pass of `#\{key:?.*?\}#` over a printed pattern
   * replaces exactly the placeholders named `key`.
   */
  lemma {:induction false} ReplacePass(s: string, p: nat, ts: seq<Token>, key: string, value: string)
    requires p <= |s| && s[p..] == Print(ts)
    requires PrintSafe(ts) && NoBraces(key) && KeysSeparate(ts, [key])
    ensures ReplaceFrom(s, key, value, p) == Print(ReplacedTokens(ts, key, value))
    decreases |ts|
  {
    if |ts| > 0 {
      var head := Print(ts[..1]);
      assert p + |head| <= |s| && s[p..p + |head|] == head && s[p + |head|..] == Print(ts[1..]) by {
        PrintHead(ts);
        SuffixSplit(s, p, head, Print(ts[1..]));
      }
      assert PrintSafe(ts[1..]) && KeysSeparate(ts[1..], [key]) by {
        PassTail(ts, key);
      }
      ReplacePass(s, p + |head|, ts[1..], key, value);
      PassTail(ts, key);
      PrintHead(ts);
      ReplacePassStep(s, p, ts, key, value);
    }
  }

  /** A pass keeps the printed pattern's braces where placeholders start, and keeps the keys apart from its names. */
  lemma PassKeepsSafe(ts: seq<Token>, keys: seq<string>, value: string)
    requires |keys| > 0 && PrintSafe(ts) && KeysSeparate(ts, keys) && '{' !in value
    ensures PrintSafe(ReplacedTokens(ts, keys[0], value))
    ensures KeysSeparate(ReplacedTokens(ts, keys[0], value), keys[1..])
    ensures KeysSeparate(ts, [keys[0]])
  {
    var r := ReplacedTokens(ts, keys[0], value);
    assert forall i :: 0 <= i < |r| && r[i].Var? ==> r[i] == ts[i];
    assert forall j :: 0 <= j < |keys| - 1 ==> keys[1..][j] == keys[j + 1];
  }

  /**
   * `preg_replace` with one pattern per key, over a printed pattern, is the
   * chain of passes, each replacing the placeholders of its own key.
   */
  lemma {:induction false} PregReplacePrint(keys: seq<string>, values: seq<string>, ts: seq<Token>)
    requires PrintSafe(ts) && KeysSeparate(ts, keys)
    requires forall j :: 0 <= j < |keys| ==> NoBraces(keys[j])
    requires forall j :: 0 <= j < |values| ==> '{' !in values[j]
    ensures PregReplace(keys, values, Print(ts)) == Print(ReplacedAll(ts, keys, values))
    decreases |keys|
  {
    if |keys| > 0 {
      var v := Positional(values, 0);
      var rest := Rest(values);
      PassKeepsSafe(ts, keys, v);
      assert Print(ts)[0..] == Print(ts);
      ReplacePass(Print(ts), 0, ts, keys[0], v);
      assert forall j :: 0 <= j < |keys| - 1 ==> keys[1..][j] == keys[j + 1];
      assert forall j :: 0 <= j < |rest| ==> rest[j] == values[j + 1];
      PregReplacePrint(keys[1..], rest, ReplacedTokens(ts, keys[0], v));
    }
  }

  /** The literal step of `PrintReplaced`. */
  lemma PrintReplacedLit(ts: seq<Token>, rs: seq<Token>, text: string, caps: seq<string>)
    requires |ts| > 0 && |rs| == |ts| && ts[0] == Lit(text) && rs[0] == Lit(text)
    requires CapCount(Escape(ts[1..])) == |caps|
    requires Print(rs[1..]) == Render(Escape(ts[1..]), caps)
    ensures CapCount(Escape(ts)) == |caps|
    ensures Print(rs) == Render(Escape(ts), caps)
  {
    assert Escape(ts) == Quote(text) + Escape(ts[1..]);
    assert Print(rs) == text + Print(rs[1..]);
    RenderQuote(text, Escape(ts[1..]), caps);
  }

  /** The placeholder step of `PrintReplaced`. */
  lemma PrintReplacedVar(ts: seq<Token>, rs: seq<Token>, n: string, v: string, caps: seq<string>)
    requires |ts| > 0 && |rs| == |ts| && ts[0] == Var(n) && rs[0] == Lit(v)
    requires |caps| > 0 && caps[0] == v
    requires CapCount(Escape(ts[1..])) == |caps| - 1
    requires Print(rs[1..]) == Render(Escape(ts[1..]), caps[1..])
    ensures CapCount(Escape(ts)) == |caps|
    ensures Print(rs) == Render(Escape(ts), caps)
  {
    assert ts == [Var(n)] + ts[1..];
    assert rs == [Lit(v)] + rs[1..];
    var f := Escape(ts);
    assert f == [Cap] + Escape(ts[1..]);
    assert f[0] == Cap && f[1..] == Escape(ts[1..]);
  }

  /**
   * After every pass, the token whose placeholder is the j-th key has
   * become the j-th value: the printed result spells the fragment with the
   * positional values in its groups.
   */
  lemma {:induction false} PrintReplaced(ts: seq<Token>, rs: seq<Token>, keys: seq<string>, values: seq<string>, j: nat)
    requires |rs| == |ts| && forall i :: 0 <= i < |ts| ==> rs[i] == Replaced(ts[i], keys, values)
    requires Distinct(keys) && j <= |keys| && VarNames(ts) == keys[j..]
    ensures CapCount(Escape(ts)) == |keys| - j
    ensures Print(rs) == Render(Escape(ts), PositionalValues(values, |keys|)[j..])
    decreases |ts|
  {
    CapCountEscape(ts);
    var caps := PositionalValues(values, |keys|)[j..];
    if |ts| > 0 {
      var rest := ts[1..];
      assert ts == [ts[0]] + rest;
      assert forall i :: 0 <= i < |rest| ==> rs[1..][i] == Replaced(rest[i], keys, values);
      match ts[0]
      case Lit(text) =>
        assert VarNames(ts) == VarNames(rest);
        ReplacedLit(text, keys, values);
        PrintReplaced(rest, rs[1..], keys, values, j);
        PrintReplacedLit(ts, rs, text, caps);
      case Var(n) =>
        assert VarNames(ts) == [n] + VarNames(rest);
        assert j < |keys| && n == keys[j] && VarNames(rest) == keys[j + 1..];
        ReplacedVarAt(keys, values, j);
        PrintReplaced(rest, rs[1..], keys, values, j + 1);
        assert caps[1..] == PositionalValues(values, |keys|)[j + 1..];
        PrintReplacedVar(ts, rs, n, Positional(values, j), caps);
    } else {
      assert caps == [];
    }
  }

  /** Every placeholder name of a token list is among its names. */
  lemma {:induction false} VarNamesOfTokens(ts: seq<Token>)
    ensures forall i :: 0 <= i < |ts| && ts[i].Var? ==> ts[i].name in VarNames(ts)
    decreases |ts|
  {
    if |ts| > 0 {
      var rest := ts[1..];
      VarNamesOfTokens(rest);
      assert VarNames(ts) == if ts[0].Var? then [ts[0].name] + VarNames(rest) else VarNames(rest);
      forall i | 0 <= i < |ts| && ts[i].Var? ensures ts[i].name in VarNames(ts) {
        if i > 0 {
          assert ts[i] == rest[i - 1];
        }
      }
    }
  }

  /** The j-th name belongs to a placeholder token of the list. */
  lemma {:induction false} VarNameToken(ts: seq<Token>, j: nat) returns (i: nat)
    requires j < |VarNames(ts)|
    ensures i < |ts| && ts[i] == Var(VarNames(ts)[j])
    decreases |ts|
  {
    var rest := ts[1..];
    assert VarNames(ts) == if ts[0].Var? then [ts[0].name] + VarNames(rest) else VarNames(rest);
    if ts[0].Var? && j == 0 {
      i := 0;
    } else {
      var j' := if ts[0].Var? then j - 1 else j;
      assert VarNames(ts)[j] == VarNames(rest)[j'];
      var k := VarNameToken(rest, j');
      i := k + 1;
    }
  }

  /**
   * `urlFor` as written, for every route whose raw pattern is the printed
   * form of its tokens: the i-th placeholder receives the i-th value of
   * `$params`, in the parameters' own order, or "" once the values run out,
   * whatever the parameter names are. This holds when no variable name is a
   * proper prefix of another (`Router.PrefixNameCapturesLongerName` shows
   * what happens otherwise) and no value contains `{`.
   */
  lemma UrlForAsWrittenPositional(g: Generator, name: string, params: Params, tokens: seq<Token>)
    requires GetNamedRoute(g, name).Some?
    requires WellFormedTokens(tokens) && Distinct(VarNames(tokens))
    requires GetNamedRoute(g, name).value.uri == Print(tokens)
    requires GetNamedRoute(g, name).value.variableNames == VarNames(tokens)
    requires forall i, j :: 0 <= i < |VarNames(tokens)| && 0 <= j < |VarNames(tokens)| ==>
      !(VarNames(tokens)[i] < VarNames(tokens)[j])
    requires forall i :: 0 <= i < |VarNames(tokens)| ==> IsSet(params, VarNames(tokens)[i])
    requires forall i :: 0 <= i < |params| ==> '{' !in params[i].1.GetOr("")
    ensures UrlForAsWritten(g, name, params).Success?
    ensures CapCount(Escape(tokens)) == |VarNames(tokens)|
    ensures UrlForAsWritten(g, name, params).value
      == Render(Escape(tokens), PositionalValues(ParamValues(params), |VarNames(tokens)|))
  {
    var names := VarNames(tokens);
    var values := ParamValues(params);
    assert PrintSafe(tokens) by {
      forall i | 0 <= i < |tokens| ensures
        match tokens[i]
        case Lit(text) => '{' !in text
        case Var(n) => NoBraces(n)
      {
        match tokens[i]
        case Lit(text) =>
          assert NoBraces(text);
        case Var(n) =>
      }
    }
    assert forall j :: 0 <= j < |names| ==> NoBraces(names[j]) by {
      forall j | 0 <= j < |names| ensures NoBraces(names[j]) {
        var i := VarNameToken(tokens, j);
      }
    }
    assert KeysSeparate(tokens, names) by {
      VarNamesOfTokens(tokens);
      forall i, j | 0 <= i < |tokens| && 0 <= j < |names| && tokens[i].Var? ensures !(names[j] < tokens[i].name) {
        var k :| 0 <= k < |names| && names[k] == tokens[i].name;
      }
    }
    var rs := ReplacedAll(tokens, names, values);
    assert PregReplace(names, values, Print(tokens)) == Print(rs) by {
      PregReplacePrint(names, values, tokens);
    }
    assert CapCount(Escape(tokens)) == |names|
      && Print(rs) == Render(Escape(tokens), PositionalValues(values, |names|)) by {
      ReplacedAllPointwise(tokens, names, values);
      assert names[0..] == names;
      PrintReplaced(tokens, rs, names, values, 0);
      assert PositionalValues(values, |names|)[0..] == PositionalValues(values, |names|);
    }
    UrlForAsWrittenSet(g, name, params);
  }

  /**
   * The two readings agree when `$params` lists the route's variables
   * first, in declared order: then pairing by position is pairing by name.
   */
  lemma AsWrittenAgreesInDeclaredOrder(g: Generator, name: string, params: Params, tokens: seq<Token>)
    requires GetNamedRoute(g, name).Some?
    requires WellFormedTokens(tokens) && Distinct(VarNames(tokens))
    requires GetNamedRoute(g, name).value.uri == Print(tokens)
    requires GetNamedRoute(g, name).value.regex == Escape(tokens)
    requires GetNamedRoute(g, name).value.variableNames == VarNames(tokens)
    requires forall i, j :: 0 <= i < |VarNames(tokens)| && 0 <= j < |VarNames(tokens)| ==>
      !(VarNames(tokens)[i] < VarNames(tokens)[j])
    requires DistinctKeys(params) && |VarNames(tokens)| <= |params|
    requires forall i :: 0 <= i < |VarNames(tokens)| ==> params[i].0 == VarNames(tokens)[i] && params[i].1.Some?
    requires forall i :: 0 <= i < |params| ==> '{' !in params[i].1.GetOr("")
    ensures UrlForAsWritten(g, name, params).Success?
    ensures UrlForAsWritten(g, name, params) == UrlFor(g, name, params)
  {
    var names := VarNames(tokens);
    forall i | 0 <= i < |names| ensures IsSet(params, names[i]) && ParamValue(params, names[i]) == params[i].1.value {
      GetAt(params, i);
    }
    UrlForAsWrittenPositional(g, name, params, tokens);
    UrlForRoundTrip(g, name, params, tokens);
    assert PositionalValues(ParamValues(params), |names|) == ValuesFor(names, params);
  }

  // ---------------------------------------------------------------------
  // Worked examples on two concrete routes.
  //
  // The lemmas up to `PregReplaceTwo` are helpers that unfold string
  // literals step by step for the examples; they state nothing about the
  // library beyond the examples that use them.

  lemma HogeFirstReplacement(u: string, v: string)
    requires u == "/hoge/{string}/{id}"
    ensures ReplaceFrom(u, "string", v, 0) == "/hoge/" + v + "/{id}"
  {
    assert forall k :: 0 <= k < 6 ==> u[k] != '{';
    ReplaceSkip(u, "string", v, 0, 6);
    assert u[0..6] == "/hoge/";
    HogeFirstHit(u, v);
    AppendAssoc("/hoge/", v, "/{id}");
  }

  lemma HogeFirstHit(u: string, v: string)
    requires u == "/hoge/{string}/{id}"
    ensures ReplaceFrom(u, "string", v, 6) == v + "/{id}"
  {
    assert u[7..13] == "string" && u[13] == '}';
    assert CloseAt(u, 13) == Some(13);
    assert PatternAt(u, 6, "string") == Some(14);
    ReplaceHit(u, "string", v, 6, 14);
    assert u[14] != '{' && 15 + 1 + 6 > |u|;
    assert forall k :: 16 <= k < |u| ==> u[k] != '{';
    ReplaceSkip(u, "string", v, 14, |u|);
    assert ReplaceFrom(u, "string", v, |u|) == "";
    assert u[14..|u|] + "" == "/{id}";
  }

  lemma HogeSecondReplacement(w: string, p: string, v: string)
    requires w == p + "/{id}"
    requires forall k :: 0 <= k < |p| ==> p[k] != '{'
    ensures ReplaceFrom(w, "id", v, 0) == p + "/" + v
  {
    var n := |p|;
    assert forall k :: 0 <= k < n + 1 ==> w[k] != '{';
    ReplaceSkip(w, "id", v, 0, n + 1);
    assert w[n + 2..n + 4] == "id" && w[n + 4] == '}';
    assert CloseAt(w, n + 4) == Some(n + 4);
    assert PatternAt(w, n + 1, "id") == Some(n + 5);
    ReplaceHit(w, "id", v, n + 1, n + 5);
    assert ReplaceFrom(w, "id", v, n + 5) == "";
    assert w[0..n + 1] == p + "/";
  }

  lemma IdxReplacement(u: string)
    requires u == "/{id}/{idx}"
    ensures ReplaceFrom(u, "id", "1", 0) == "/1/1"
  {
    assert u[0] != '{';
    ReplaceSkip(u, "id", "1", 0, 1);
    assert u[2..4] == "id" && u[4] == '}';
    assert CloseAt(u, 4) == Some(4);
    assert PatternAt(u, 1, "id") == Some(5);
    ReplaceHit(u, "id", "1", 1, 5);
    assert u[5] != '{';
    ReplaceSkip(u, "id", "1", 5, 6);
    assert u[7..9] == "id" && u[9] == 'x' && u[10] == '}';
    assert CloseAt(u, 10) == Some(10);
    assert CloseAt(u, 9) == Some(10);
    assert PatternAt(u, 6, "id") == Some(11);
    ReplaceHit(u, "id", "1", 6, 11);
    assert ReplaceFrom(u, "id", "1", 11) == "";
    assert u[0..1] == "/" && u[5..6] == "/";
  }

  lemma IdxSecondReplacement(w: string)
    requires w == "/1/1"
    ensures ReplaceFrom(w, "idx", "2", 0) == "/1/1"
  {
    assert forall k :: 0 <= k < |w| ==> w[k] != '{';
    ReplaceNone(w, "idx", "2");
  }

  /** A pattern of two placeholders, each preceded by literal text. */
  lemma SubstituteTwo(l1: string, n1: string, l2: string, n2: string, names: seq<string>, params: Params)
    requires NoBraces(l1) && NoBraces(l2)
    requires NoBraces(n1) && ':' !in n1 && n1 in names
    requires NoBraces(n2) && ':' !in n2 && n2 in names
    requires forall i :: 0 <= i < |names| ==> IsSet(params, names[i])
    ensures Substitute(l1 + ("{" + n1 + "}" + (l2 + ("{" + n2 + "}"))), names, params)
      == l1 + (ParamValue(params, n1) + (l2 + ParamValue(params, n2)))
  {
    var second := l2 + ("{" + n2 + "}");
    SubstituteOne(l1, n1, second, l1 + ("{" + n1 + "}" + second), names, params);
    SubstituteLast(l2, n2, second, names, params);
  }

  /** Literal text, then one placeholder at the end. */
  lemma SubstituteLast(l: string, n: string, s: string, names: seq<string>, params: Params)
    requires s == l + ("{" + n + "}")
    requires NoBraces(l) && NoBraces(n) && ':' !in n && n in names
    requires forall i :: 0 <= i < |names| ==> IsSet(params, names[i])
    ensures Substitute(s, names, params) == l + ParamValue(params, n)
  {
    assert s == l + ("{" + n + "}" + "");
    SubstituteOne(l, n, "", s, names, params);
    assert ParamValue(params, n) + "" == ParamValue(params, n);
  }

  /** Literal text, then one placeholder, then the rest. */
  lemma SubstituteOne(l: string, n: string, rest: string, s: string, names: seq<string>, params: Params)
    requires s == l + ("{" + n + "}" + rest)
    requires NoBraces(l) && NoBraces(n) && ':' !in n && n in names
    requires forall i :: 0 <= i < |names| ==> IsSet(params, names[i])
    ensures Substitute(s, names, params) == l + (ParamValue(params, n) + Substitute(rest, names, params))
  {
    SubstituteLiteral(l, "{" + n + "}" + rest, names, params);
    SubstitutePlaceholder(n, rest, names, params);
  }

  /** Helper for the examples: two distinct, non-null parameters. */
  lemma TwoParams(params: Params, k1: string, v1: string, k2: string, v2: string)
    requires k1 != k2 && params == [(k1, Some(v1)), (k2, Some(v2))]
    ensures IsSet(params, k1) && ParamValue(params, k1) == v1
    ensures IsSet(params, k2) && ParamValue(params, k2) == v2
    ensures ParamValues(params) == [v1, v2]
  {
    assert Keys(params) == [k1, k2];
  }

  /** Helper for the examples: the pieces of the two example patterns. */
  lemma ExamplePieces(u: string, v: string)
    requires u == "/hoge/{string}/{id}" && v == "/{id}/{idx}"
    ensures u == "/hoge/" + ("{" + "string" + "}" + ("/" + ("{" + "id" + "}")))
    ensures v == "/" + ("{" + "id" + "}" + ("/" + ("{" + "idx" + "}")))
    ensures "/hoge/" + ("aiueo" + ("/" + "123")) == "/hoge/aiueo/123"
    ensures "/hoge/" + "123" + "/" + "aiueo" == "/hoge/123/aiueo"
    ensures "/hoge/" + "aiueo" + "/" + "123" == "/hoge/aiueo/123"
    ensures "/" + ("1" + ("/" + "2")) == "/1/2"
  {
  }

  /** Helper for the examples: their literal pieces and names are plain text. */
  lemma PlainPieces(l1: string, n1: string, l2: string, n2: string)
    requires (l1, n1, l2, n2) == ("/hoge/", "string", "/", "id") || (l1, n1, l2, n2) == ("/", "id", "/", "idx")
    ensures NoBraces(l1) && NoBraces(l2) && NoBraces(n1) && NoBraces(n2)
    ensures ':' !in n1 && ':' !in n2 && n1 in [n1, n2] && n2 in [n1, n2]
  {
  }

  /** Helper for the examples: two patterns, two values, one replacement after the other. */
  lemma PregReplaceTwo(k1: string, k2: string, v1: string, v2: string, subject: string)
    ensures PregReplace([k1, k2], [v1, v2], subject) == ReplaceFrom(ReplaceFrom(subject, k1, v1, 0), k2, v2, 0)
  {
    assert [k1, k2][1..] == [k2] && [v1, v2][1..] == [v2];
    var once := ReplaceFrom(subject, k1, v1, 0);
    assert PregReplace([k2], [v2], once) == PregReplace([], [], ReplaceFrom(once, k2, v2, 0));
  }

  /** `urlFor` as written on `/hoge/{string}/{id}`: the values in parameter order fill the two placeholders. */
  lemma HogeAsWritten(g: Generator, name: string, params: Params, v1: string, v2: string)
    requires GetNamedRoute(g, name).Some?
    requires GetNamedRoute(g, name).value.uri == "/hoge/{string}/{id}"
    requires GetNamedRoute(g, name).value.variableNames == ["string", "id"]
    requires IsSet(params, "string") && IsSet(params, "id") && ParamValues(params) == [v1, v2]
    requires forall k :: 0 <= k < |v1| ==> v1[k] != '{'
    ensures UrlForAsWritten(g, name, params) == Success("/hoge/" + v1 + "/" + v2)
  {
    UrlForAsWrittenSet(g, name, params);
    var u := GetNamedRoute(g, name).value.uri;
    PregReplaceTwo("string", "id", v1, v2, u);
    HogeFirstReplacement(u, v1);
    var p := "/hoge/" + v1;
    assert forall k :: 0 <= k < |p| ==> p[k] != '{' by {
      forall k | 0 <= k < |p| ensures p[k] != '{' {
        if k >= 6 {
          assert p[k] == v1[k - 6];
        }
      }
    }
    HogeSecondReplacement(ReplaceFrom(u, "string", v1, 0), p, v2);
  }

  /** `UrlFor` on `/hoge/{string}/{id}`: each placeholder takes its own parameter. */
  lemma HogeCorrected(g: Generator, name: string, params: Params)
    requires GetNamedRoute(g, name).Some?
    requires GetNamedRoute(g, name).value.uri == "/hoge/{string}/{id}"
    requires GetNamedRoute(g, name).value.variableNames == ["string", "id"]
    requires IsSet(params, "string") && IsSet(params, "id")
    ensures UrlFor(g, name, params) == Success("/hoge/" + (ParamValue(params, "string") + ("/" + ParamValue(params, "id"))))
  {
    UrlForSet(g, name, params);
    ExamplePieces(GetNamedRoute(g, name).value.uri, "/{id}/{idx}");
    PlainPieces("/hoge/", "string", "/", "id");
    SubstituteTwo("/hoge/", "string", "/", "id", ["string", "id"], params);
  }

  /**
   * The replacement values are taken in the order of `$params`, not of the
   * route's variables: naming the parameters in the other order swaps the
   * two segments.
   */
  lemma ParamOrderSwapsSegments(g: Generator, name: string, params: Params)
    requires GetNamedRoute(g, name).Some?
    requires GetNamedRoute(g, name).value.uri == "/hoge/{string}/{id}"
    requires GetNamedRoute(g, name).value.variableNames == ["string", "id"]
    requires params == [("id", Some("123")), ("string", Some("aiueo"))]
    ensures UrlForAsWritten(g, name, params) == Success("/hoge/123/aiueo")
    ensures UrlFor(g, name, params) == Success("/hoge/aiueo/123")
  {
    TwoParams(params, "id", "123", "string", "aiueo");
    HogeAsWritten(g, name, params, "123", "aiueo");
    HogeCorrected(g, name, params);
    ExamplePieces("/hoge/{string}/{id}", "/{id}/{idx}");
  }

  /** `urlFor` as written on `/{id}/{idx}`: the first replacement consumes both placeholders. */
  lemma IdxAsWritten(g: Generator, name: string, params: Params)
    requires GetNamedRoute(g, name).Some?
    requires GetNamedRoute(g, name).value.uri == "/{id}/{idx}"
    requires GetNamedRoute(g, name).value.variableNames == ["id", "idx"]
    requires IsSet(params, "id") && IsSet(params, "idx") && ParamValues(params) == ["1", "2"]
    ensures UrlForAsWritten(g, name, params) == Success("/1/1")
  {
    UrlForAsWrittenSet(g, name, params);
    var u := GetNamedRoute(g, name).value.uri;
    PregReplaceTwo("id", "idx", "1", "2", u);
    IdxReplacement(u);
    IdxSecondReplacement(ReplaceFrom(u, "id", "1", 0));
  }

  /** `UrlFor` on `/{id}/{idx}`: each placeholder takes its own parameter. */
  lemma IdxCorrected(g: Generator, name: string, params: Params)
    requires GetNamedRoute(g, name).Some?
    requires GetNamedRoute(g, name).value.uri == "/{id}/{idx}"
    requires GetNamedRoute(g, name).value.variableNames == ["id", "idx"]
    requires IsSet(params, "id") && IsSet(params, "idx")
    ensures UrlFor(g, name, params) == Success("/" + (ParamValue(params, "id") + ("/" + ParamValue(params, "idx"))))
  {
    UrlForSet(g, name, params);
    ExamplePieces("/hoge/{string}/{id}", GetNamedRoute(g, name).value.uri);
    PlainPieces("/", "id", "/", "idx");
    SubstituteTwo("/", "id", "/", "idx", ["id", "idx"], params);
  }

  /**
   * `#\{id:?.*?\}#` also matches `{idx}`: the first pattern replaces both
   * placeholders and the second finds nothing left to replace.
   */
  lemma PrefixNameCapturesLongerName(g: Generator, name: string, params: Params)
    requires GetNamedRoute(g, name).Some?
    requires GetNamedRoute(g, name).value.uri == "/{id}/{idx}"
    requires GetNamedRoute(g, name).value.variableNames == ["id", "idx"]
    requires params == [("id", Some("1")), ("idx", Some("2"))]
    ensures UrlForAsWritten(g, name, params) == Success("/1/1")
    ensures UrlFor(g, name, params) == Success("/1/2")
  {
    TwoParams(params, "id", "1", "idx", "2");
    IdxAsWritten(g, name, params);
    IdxCorrected(g, name, params);
    ExamplePieces("/hoge/{string}/{id}", "/{id}/{idx}");
  }
}
