/**
 * The router's documented behaviours on small registrations: a literal
 * route answers its method, a path registered for other methods reports
 * them, an empty router finds nothing, a variable route binds its
 * segments, and `urlFor` rebuilds URLs or reports what is missing.
 */
module Scenarios {
  import opened Wrappers
  import opened Seqs
  import opened Assoc
  import opened Pattern
  import opened Matching
  import opened Routes
  import opened RouteTables
  import opened RouteDataGenerator
  import opened Dispatcher
  import opened Correctness
  import opened Router

  /** Registering a route for a literal path on an empty router. */
  lemma RegisterLiteral(t: seq<Token>, path: string, httpMethod: string, h: Handler)
    requires t == [Lit(path)]
    ensures AddRoute(EmptyGenerator, httpMethod, t, path, h, None)
      == Success(Generator([(path, [(httpMethod, Route(httpMethod, path, h, [], [], None))])], [], map[]))
    ensures Valid(AddRoute(EmptyGenerator, httpMethod, t, path, h, None).value)
  {
    var r := Route(httpMethod, path, h, [], [], None);
    assert AddRoute(EmptyGenerator, httpMethod, t, path, h, None)
      == Success(Generator([(path, [(httpMethod, r)])], [], map[])) by {
      assert IsStaticRoute(t);
      assert Put([], httpMethod, r) == [(httpMethod, r)];
      assert Put([], path, [(httpMethod, r)]) == [(path, [(httpMethod, r)])];
    }
    EmptyGeneratorValid();
  }

  /** A literal route answers its own method with no variables. */
  lemma LiteralRouteAnswers(t: seq<Token>, h: Handler)
    requires t == [Lit("/hoge")]
    ensures AddRoute(EmptyGenerator, "GET", t, "/hoge", h, None).Success?
    ensures var g := AddRoute(EmptyGenerator, "GET", t, "/hoge", h, None).value;
      Valid(g) && Dispatch(GetData(g), "GET", "/hoge") == Success(Unbound(Route("GET", "/hoge", h, [], [], None)))
  {
    RegisterLiteral(t, "/hoge", "GET", h);
    var g := AddRoute(EmptyGenerator, "GET", t, "/hoge", h, None).value;
    assert Keys(g.staticRoutes) == ["/hoge"];
    assert Keys(g.staticRoutes[0].1) == ["GET"];
  }

  /** A literal route for a new method on a path that already has a cell, with no variable routes: appended to that cell. */
  lemma AddLiteralToCell(g: Generator, httpMethod: string, t: seq<Token>, path: string, h: Handler, cell: Assoc<string, Route>)
    requires Valid(g) && t == [Lit(path)] && g.methodToRegexToRoutesMap == []
    requires Get(g.staticRoutes, path) == Some(cell) && httpMethod !in Keys(cell)
    ensures AddRoute(g, httpMethod, t, path, h, None)
      == Success(g.(staticRoutes := Put(g.staticRoutes, path, cell + [(httpMethod, Route(httpMethod, path, h, [], [], None))])))
    ensures Valid(AddRoute(g, httpMethod, t, path, h, None).value)
  {
    assert IsStaticRoute(t);
    assert StaticLookup(g.staticRoutes, path, httpMethod).None?;
    assert VariableRoutes(g, httpMethod) == [];
    var route := Route(httpMethod, path, h, [], [], None);
    assert Put(cell, httpMethod, route) == cell + [(httpMethod, route)];
  }

  /** Two methods registered for one literal path: one static cell holding both, in that order. */
  lemma RegisterLiteralTwice(t: seq<Token>, path: string, m1: string, m2: string, h1: Handler, h2: Handler)
    requires t == [Lit(path)] && m1 != m2
    ensures AddRoute(EmptyGenerator, m1, t, path, h1, None).Success?
    ensures var g1 := AddRoute(EmptyGenerator, m1, t, path, h1, None).value;
      AddRoute(g1, m2, t, path, h2, None)
        == Success(Generator([(path, [(m1, Route(m1, path, h1, [], [], None)), (m2, Route(m2, path, h2, [], [], None))])], [], map[]))
    ensures var g1 := AddRoute(EmptyGenerator, m1, t, path, h1, None).value;
      Valid(AddRoute(g1, m2, t, path, h2, None).value)
  {
    RegisterLiteral(t, path, m1, h1);
    AddSecondMethod(AddRoute(EmptyGenerator, m1, t, path, h1, None).value, t, path, m1, m2, h1, h2);
  }

  /** A second method for a literal path whose cell holds one route. */
  lemma AddSecondMethod(g1: Generator, t: seq<Token>, path: string, m1: string, m2: string, h1: Handler, h2: Handler)
    requires t == [Lit(path)] && m1 != m2
    requires g1 == Generator([(path, [(m1, Route(m1, path, h1, [], [], None))])], [], map[]) && Valid(g1)
    ensures AddRoute(g1, m2, t, path, h2, None)
      == Success(Generator([(path, [(m1, Route(m1, path, h1, [], [], None)), (m2, Route(m2, path, h2, [], [], None))])], [], map[]))
    ensures Valid(AddRoute(g1, m2, t, path, h2, None).value)
  {
    var r1 := Route(m1, path, h1, [], [], None);
    var r2 := Route(m2, path, h2, [], [], None);
    PutSingle([(path, [(m1, r1)])], path, [(m1, r1)], [(m1, r1), (m2, r2)]);
    assert Keys([(m1, r1)]) == [m1];
    AddLiteralToCell(g1, m2, t, path, h2, [(m1, r1)]);
    assert [(m1, r1)] + [(m2, r2)] == [(m1, r1), (m2, r2)];
  }

  /** Assigning to the only key of a one-entry array replaces its value. */
  lemma PutSingle<V>(a: Assoc<string, V>, k: string, v: V, v': V)
    requires a == [(k, v)]
    ensures Get(a, k) == Some(v)
    ensures Put(a, k, v') == [(k, v')]
  {
    var r := Put(a, k, v');
    assert Keys(a) == [k];
    assert IndexOf(r, k) == 0;
  }

  /**
   * GET and POST registered for `/hoge`, then a PUT request: method not
   * allowed, listing GET and POST in registration order.
   */
  lemma StaticPathListsItsMethods(t: seq<Token>, h1: Handler, h2: Handler)
    requires t == [Lit("/hoge")]
    ensures AddRoute(EmptyGenerator, "GET", t, "/hoge", h1, None).Success?
    ensures var g1 := AddRoute(EmptyGenerator, "GET", t, "/hoge", h1, None).value;
      && AddRoute(g1, "POST", t, "/hoge", h2, None).Success?
      && var g2 := AddRoute(g1, "POST", t, "/hoge", h2, None).value;
      && Valid(g2)
      && Dispatch(GetData(g2), "PUT", "/hoge") == Failure(MethodNotAllowed(["GET", "POST"]))
  {
    RegisterLiteralTwice(t, "/hoge", "GET", "POST", h1, h2);
    var g1 := AddRoute(EmptyGenerator, "GET", t, "/hoge", h1, None).value;
    var g2 := AddRoute(g1, "POST", t, "/hoge", h2, None).value;
    var r1 := Route("GET", "/hoge", h1, [], [], None);
    var r2 := Route("POST", "/hoge", h2, [], [], None);
    assert Keys(g2.staticRoutes) == ["/hoge"];
    assert Keys([("GET", r1), ("POST", r2)]) == ["GET", "POST"];
  }

  /** Nothing registered: every request is not found. */
  lemma EmptyRouterFindsNothing(httpMethod: string, uri: string)
    ensures Valid(EmptyGenerator)
    ensures Dispatch(GetData(EmptyGenerator), httpMethod, uri) == Failure(NotFound(uri))
  {
    EmptyGeneratorValid();
  }

  /** The route of `/hoge/{var1}/{var2}`, as the parser splits it. */
  predicate HogeTokens(t: seq<Token>) {
    t == [Lit("/hoge/"), Var("var1"), Lit("/"), Var("var2")]
  }

  /** A pattern of two placeholders, each after literal text: its fragment and names. */
  lemma TwoPlaceholderTokens(t: seq<Token>, l1: string, n1: string, l2: string, n2: string)
    requires t == [Lit(l1), Var(n1), Lit(l2), Var(n2)]
    ensures !IsStaticRoute(t)
    ensures Escape(t) == Quote(l1) + ([Cap] + (Quote(l2) + [Cap]))
    ensures VarNames(t) == [n1, n2]
  {
    var t1, t2, t3 := t[1..], t[2..], t[3..];
    assert t[0] == Lit(l1) && t1[0] == Var(n1) && t2[0] == Lit(l2) && t3[0] == Var(n2);
    assert t1[1..] == t2 && t2[1..] == t3 && t3[1..] == [];
    assert Escape(t3) == [Cap] + Escape([]) && VarNames(t3) == [n2] + VarNames([]);
    assert Escape(t2) == Quote(l2) + [Cap] && VarNames(t2) == [n2];
    assert Escape(t1) == [Cap] + (Quote(l2) + [Cap]) && VarNames(t1) == [n1, n2];
    assert Escape(t) == Quote(l1) + Escape(t1) && VarNames(t) == VarNames(t1);
  }

  lemma HogeSlashSeparated(f: Fragment)
    requires f == Quote("/hoge/") + ([Cap] + (Quote("/") + [Cap]))
    ensures SlashSeparated(f)
    ensures CapCount(f) == 2
  {
    assert |f| == 9;
    assert f[6] == Cap && f[7] == Ch('/') && f[8] == Cap;
    assert forall i :: 0 <= i < 6 ==> f[i] == Quote("/hoge/")[i];
    CapCountAppend(Quote("/hoge/"), [Cap] + (Quote("/") + [Cap]));
    CapCountAppend([Cap], Quote("/") + [Cap]);
    CapCountAppend(Quote("/"), [Cap]);
  }

  lemma HogeRender(f: Fragment, a: string, b: string)
    requires f == Quote("/hoge/") + ([Cap] + (Quote("/") + [Cap]))
    ensures CapCount(f) == 2
    ensures Render(f, [a, b]) == "/hoge/" + a + "/" + b
  {
    HogeSlashSeparated(f);
    var f3 := Quote("/") + [Cap];
    var f2 := [Cap] + f3;
    assert Render([Cap], [b]) == b;
    RenderQuote("/", [Cap], [b]);
    assert CapCount(f2) == 2 by { CapCountAppend([Cap], f3); }
    assert Render(f2, [a, b]) == a + Render(f3, [b]) by {
      assert f2[1..] == f3;
      assert [a, b][1..] == [b];
    }
    RenderQuote("/hoge/", f2, [a, b]);
  }

  /** Registering `/hoge/{var1}/{var2}` for GET on an empty router. */
  lemma RegisterHoge(t: seq<Token>, h: Handler)
    requires HogeTokens(t)
    ensures AddRoute(EmptyGenerator, "GET", t, "/hoge/{var1}/{var2}", h, None).Success?
    ensures var g := AddRoute(EmptyGenerator, "GET", t, "/hoge/{var1}/{var2}", h, None).value;
      && Valid(g)
      && g.staticRoutes == []
      && g.methodToRegexToRoutesMap == [("GET", [Route("GET", "/hoge/{var1}/{var2}", h, Escape(t), ["var1", "var2"], None)])]
  {
    EmptyGeneratorValid();
    TwoPlaceholderTokens(t, "/hoge/", "var1", "/", "var2");
    var route := Route("GET", "/hoge/{var1}/{var2}", h, Escape(t), ["var1", "var2"], None);
    assert VariableRoutes(EmptyGenerator, "GET") == [];
    assert BuildRegexForRoute(t) == Success((Escape(t), ["var1", "var2"]));
    assert [] + [route] == [route];
    assert Put([], "GET", [route]) == [("GET", [route])];
    var added := AddVariableRoute(EmptyGenerator, "GET", t, "/hoge/{var1}/{var2}", h, None);
    assert added == Success((EmptyGenerator.(methodToRegexToRoutesMap := [("GET", [route])]), route));
  }

  /** The route alone, scanned against `/hoge/a/b`. */
  lemma HogeFirstMatch(route: Route, a: string, b: string)
    requires route.regex == Quote("/hoge/") + ([Cap] + (Quote("/") + [Cap]))
    requires route.variableNames == ["var1", "var2"]
    requires IsSegment(a) && IsSegment(b)
    ensures RouteWellFormed(route)
    ensures FirstMatch([route], "/hoge/" + a + "/" + b) == Some(Bound(route, [("var1", a), ("var2", b)]))
  {
    HogeSlashSeparated(route.regex);
    HogeRender(route.regex, a, b);
    assert AllSegments([a, b]);
    MatchRecoversCaptures(route.regex, [a, b]);
    assert Bind(["var1", "var2"], [a, b]) == [("var1", a), ("var2", b)];
  }

  /**
   * A request for `/hoge/a/b`, for any two segments, reaches the route
   * with `var1` bound to `a` and `var2` to `b`.
   */
  lemma VariableRouteBindsSegments(t: seq<Token>, h: Handler, a: string, b: string)
    requires HogeTokens(t)
    requires IsSegment(a) && IsSegment(b)
    ensures AddRoute(EmptyGenerator, "GET", t, "/hoge/{var1}/{var2}", h, None).Success?
    ensures var g := AddRoute(EmptyGenerator, "GET", t, "/hoge/{var1}/{var2}", h, None).value;
      && Valid(g)
      && Dispatch(GetData(g), "GET", "/hoge/" + a + "/" + b) ==
           Success(Bound(Route("GET", "/hoge/{var1}/{var2}", h, Escape(t), ["var1", "var2"], None),
                         [("var1", a), ("var2", b)]))
  {
    RegisterHoge(t, h);
    TwoPlaceholderTokens(t, "/hoge/", "var1", "/", "var2");
    var g := AddRoute(EmptyGenerator, "GET", t, "/hoge/{var1}/{var2}", h, None).value;
    var route := Route("GET", "/hoge/{var1}/{var2}", h, Escape(t), ["var1", "var2"], None);
    var uri := "/hoge/" + a + "/" + b;
    HogeFirstMatch(route, a, b);
    DispatchIsReference(g, "GET", uri);
    assert Keys(g.methodToRegexToRoutesMap) == ["GET"];
    assert Candidates(g, "GET") == [route];
  }

  // urlFor

  /** A named literal route: its URL is its path. */
  lemma UrlForLiteralRoute(t: seq<Token>, h: Handler, params: Params)
    requires t == [Lit("/hoge/huga/piyo")]
    ensures AddRoute(EmptyGenerator, "GET", t, "/hoge/huga/piyo", h, Some("static_route")).Success?
    ensures var g := AddRoute(EmptyGenerator, "GET", t, "/hoge/huga/piyo", h, Some("static_route")).value;
      && UrlFor(g, "static_route", params) == Success("/hoge/huga/piyo")
      && UrlForAsWritten(g, "static_route", params) == Success("/hoge/huga/piyo")
  {
    EmptyGeneratorValid();
    assert IsStaticRoute(t);
    var g := AddRoute(EmptyGenerator, "GET", t, "/hoge/huga/piyo", h, Some("static_route")).value;
    StaticRouteUrl(g, "static_route", params);
  }

  /** Registering `/hoge/{string}/{id}` under a name. */
  lemma RegisterNamed(t: seq<Token>, h: Handler)
    requires t == [Lit("/hoge/"), Var("string"), Lit("/"), Var("id")]
    ensures AddRoute(EmptyGenerator, "GET", t, "/hoge/{string}/{id}", h, Some("variable_route")).Success?
    ensures var g := AddRoute(EmptyGenerator, "GET", t, "/hoge/{string}/{id}", h, Some("variable_route")).value;
      && GetNamedRoute(g, "variable_route").Some?
      && GetNamedRoute(g, "variable_route").value.uri == "/hoge/{string}/{id}"
      && GetNamedRoute(g, "variable_route").value.variableNames == ["string", "id"]
  {
    TwoPlaceholderTokens(t, "/hoge/", "string", "/", "id");
    assert VariableRoutes(EmptyGenerator, "GET") == [];
  }

  /** With the parameters in placeholder order both readings build the same URL. */
  lemma UrlForVariableRoute(t: seq<Token>, h: Handler, params: Params)
    requires t == [Lit("/hoge/"), Var("string"), Lit("/"), Var("id")]
    requires params == [("string", Some("aiueo")), ("id", Some("123"))]
    ensures AddRoute(EmptyGenerator, "GET", t, "/hoge/{string}/{id}", h, Some("variable_route")).Success?
    ensures var g := AddRoute(EmptyGenerator, "GET", t, "/hoge/{string}/{id}", h, Some("variable_route")).value;
      && UrlFor(g, "variable_route", params) == Success("/hoge/aiueo/123")
      && UrlForAsWritten(g, "variable_route", params) == Success("/hoge/aiueo/123")
  {
    RegisterNamed(t, h);
    var g := AddRoute(EmptyGenerator, "GET", t, "/hoge/{string}/{id}", h, Some("variable_route")).value;
    TwoParams(params, "string", "aiueo", "id", "123");
    HogeAsWritten(g, "variable_route", params, "aiueo", "123");
    HogeCorrected(g, "variable_route", params);
    ExamplePieces("/hoge/{string}/{id}", "/{id}/{idx}");
  }

  /** No route of that name: the name is reported. */
  lemma UrlForUnknownName(params: Params)
    ensures UrlFor(EmptyGenerator, "unknown", params) == Failure(UnknownRoute("unknown"))
    ensures UrlForAsWritten(EmptyGenerator, "unknown", params) == Failure(UnknownRoute("unknown"))
  {
  }

  /** Registering `/{param}` under a name. */
  lemma RegisterParam(t: seq<Token>, h: Handler, name: string)
    requires t == [Lit("/"), Var("param")]
    ensures AddRoute(EmptyGenerator, "GET", t, "/{param}", h, Some(name)).Success?
    ensures var g := AddRoute(EmptyGenerator, "GET", t, "/{param}", h, Some(name)).value;
      && GetNamedRoute(g, name).Some?
      && GetNamedRoute(g, name).value.variableNames == ["param"]
  {
    assert t[1..] == [Var("param")] && t[1..][1..] == [];
    assert VarNames(t) == VarNames(t[1..]) == ["param"] + VarNames([]);
    assert !IsStaticRoute(t);
    assert VariableRoutes(EmptyGenerator, "GET") == [];
  }

  /** A placeholder without a parameter, or with a null one, is reported with the route's name. */
  lemma UrlForMissingParameter(t: seq<Token>, h: Handler, name: string, params: Params)
    requires t == [Lit("/"), Var("param")]
    requires params == [] || params == [("param", None)]
    ensures AddRoute(EmptyGenerator, "GET", t, "/{param}", h, Some(name)).Success?
    ensures var g := AddRoute(EmptyGenerator, "GET", t, "/{param}", h, Some(name)).value;
      && UrlFor(g, name, params) == Failure(MissingVariable("param", name))
      && UrlForAsWritten(g, name, params) == Failure(MissingVariable("param", name))
  {
    RegisterParam(t, h, name);
    assert !IsSet(params, "param") by {
      if params != [] {
        assert Keys(params) == ["param"];
      }
    }
  }
}
