/**
 * Parsed route patterns and the regex fragment compiled from them
 * (`RouteDataGenerator::isStaticRoute` and `buildRegexForRoute`).
 *
 * The route parser is not part of this model: a pattern arrives already
 * split into tokens, a literal string or a placeholder name. Every
 * placeholder uses the default expression `[^/]+`.
 *
 * A fragment is the regex source text `buildRegexForRoute` produces, kept as
 * a sequence of pieces: one `Ch` per literal character (what `preg_quote`
 * escapes) and one `Cap` per capturing group `([^/]+)`. Quoting works
 * character by character and is injective, so two fragments are equal
 * exactly when the regex strings are.
 */
module Pattern {
  import opened Wrappers
  import opened Seqs

  datatype Token = Lit(text: string) | Var(name: string)

  datatype Piece = Ch(c: char) | Cap

  type Fragment = seq<Piece>

  /** A route is literal when its token list is exactly one literal string. */
  predicate IsStaticRoute(tokens: seq<Token>) {
    |tokens| == 1 && tokens[0].Lit?
  }

  /** Number of capturing groups in a fragment. */
  function CapCount(f: Fragment): nat {
    if |f| == 0 then 0 else (if f[0].Cap? then 1 else 0) + CapCount(f[1..])
  }

  /** `preg_quote` of a literal: it matches exactly its own characters. */
  function Quote(text: string): (f: Fragment)
    ensures |f| == |text| && CapCount(f) == 0
    ensures forall k :: 0 <= k < |text| ==> f[k] == Ch(text[k])
  {
    if |text| == 0 then [] else [Ch(text[0])] + Quote(text[1..])
  }

  /** The fragment of a token list, token by token. */
  function Escape(tokens: seq<Token>): Fragment {
    if |tokens| == 0 then []
    else
      match tokens[0]
      case Lit(text) => Quote(text) + Escape(tokens[1..])
      case Var(_) => [Cap] + Escape(tokens[1..])
  }

  /** Placeholder names in order of occurrence. */
  function VarNames(tokens: seq<Token>): seq<string> {
    if |tokens| == 0 then []
    else
      match tokens[0]
      case Lit(_) => VarNames(tokens[1..])
      case Var(name) => [name] + VarNames(tokens[1..])
  }

  lemma {:induction false} CapCountAppend(a: Fragment, b: Fragment)
    ensures CapCount(a + b) == CapCount(a) + CapCount(b)
    decreases |a|
  {
    if |a| != 0 {
      assert (a + b)[1..] == a[1..] + b;
      CapCountAppend(a[1..], b);
    } else {
      assert a + b == b;
    }
  }

  /** One capturing group per placeholder. */
  lemma {:induction false} CapCountEscape(tokens: seq<Token>)
    ensures CapCount(Escape(tokens)) == |VarNames(tokens)|
    decreases |tokens|
  {
    if |tokens| != 0 {
      CapCountEscape(tokens[1..]);
      match tokens[0]
      case Lit(text) => CapCountAppend(Quote(text), Escape(tokens[1..]));
      case Var(_) => CapCountAppend([Cap], Escape(tokens[1..]));
    }
  }

  lemma {:induction false} EscapeAppend(a: seq<Token>, b: seq<Token>)
    ensures Escape(a + b) == Escape(a) + Escape(b)
    ensures VarNames(a + b) == VarNames(a) + VarNames(b)
    decreases |a|
  {
    if |a| == 0 {
      assert a + b == b;
    } else {
      EscapeAppend(a[1..], b);
      EscapeStep(a, b);
      VarNamesStep(a, b);
    }
  }

  /** The first token of `a + b` is that of `a`, and the rest is `a[1..] + b`. */
  lemma EscapeStep(a: seq<Token>, b: seq<Token>)
    requires |a| > 0 && Escape(a[1..] + b) == Escape(a[1..]) + Escape(b)
    ensures Escape(a + b) == Escape(a) + Escape(b)
  {
    var ab := a + b;
    assert ab[0] == a[0] && ab[1..] == a[1..] + b;
    var ea, eb := Escape(a[1..]), Escape(b);
    match a[0]
    case Lit(text) => AppendAssoc(Quote(text), ea, eb);
    case Var(_) => AppendAssoc([Cap], ea, eb);
  }

  lemma VarNamesStep(a: seq<Token>, b: seq<Token>)
    requires |a| > 0 && VarNames(a[1..] + b) == VarNames(a[1..]) + VarNames(b)
    ensures VarNames(a + b) == VarNames(a) + VarNames(b)
  {
    var ab := a + b;
    assert ab[0] == a[0] && ab[1..] == a[1..] + b;
    match a[0]
    case Lit(_) =>
    case Var(name) => AppendAssoc([name], VarNames(a[1..]), VarNames(b));
  }

  /**
   * `buildRegexForRoute`: walks the tokens left to right, appending quoted
   * literals and one group per placeholder, and fails on the first
   * placeholder whose name was already used.
   */
  function BuildRegexForRoute(tokens: seq<Token>): (r: Result<(Fragment, seq<string>), string>)
    ensures r.Success? <==> Distinct(VarNames(tokens))
    ensures r.Success? ==> r.value.0 == Escape(tokens) && r.value.1 == VarNames(tokens)
    ensures r.Success? ==> CapCount(r.value.0) == |r.value.1|
    ensures r.Failure? ==> FirstRepeated(VarNames(tokens), r.error)
  {
    assert tokens[..0] == [];
    var r := BuildFrom(tokens, 0, [], []);
    assert tokens[..|tokens|] == tokens;
    if r.Success? then CapCountEscape(tokens); r else r
  }

  /** `name` is the first entry of `names` that repeats an earlier one. */
  ghost predicate FirstRepeated(names: seq<string>, name: string) {
    exists j :: 0 <= j < |names| && names[j] == name && name in names[..j] && Distinct(names[..j])
  }

  function BuildFrom(tokens: seq<Token>, i: nat, regex: Fragment, vars: seq<string>)
    : (r: Result<(Fragment, seq<string>), string>)
    requires i <= |tokens|
    requires regex == Escape(tokens[..i]) && vars == VarNames(tokens[..i]) && Distinct(vars)
    ensures r.Success? <==> Distinct(VarNames(tokens))
    ensures r.Success? ==> r.value == (Escape(tokens), VarNames(tokens))
    ensures r.Failure? ==> FirstRepeated(VarNames(tokens), r.error)
    decreases |tokens| - i
  {
    var all := VarNames(tokens);
    EscapeAppend(tokens[..i], tokens[i..]);
    assert tokens[..i] + tokens[i..] == tokens;
    if i == |tokens| then
      assert tokens[..i] == tokens;
      Success((regex, vars))
    else
      var step := tokens[..i + 1];
      assert step == tokens[..i] + [tokens[i]];
      EscapeAppend(tokens[..i], [tokens[i]]);
      assert [tokens[i]][1..] == [];
      match tokens[i]
      case Lit(text) =>
        assert Escape([tokens[i]]) == Quote(text) + [];
        BuildFrom(tokens, i + 1, regex + Quote(text), vars)
      case Var(name) =>
        assert VarNames(tokens[i..]) == [name] + VarNames(tokens[i + 1..]);
        if name in vars then
          assert all[..|vars|] == vars;
          assert all[|vars|] == name;
          assert !Distinct(all) by {
            var k :| 0 <= k < |vars| && vars[k] == name;
            assert all[k] == all[|vars|];
          }
          assert FirstRepeated(all, name) by {
            assert all[|vars|] == name && name in all[..|vars|] && Distinct(all[..|vars|]);
          }
          Failure(name)
        else
          assert Distinct(vars + [name]);
          BuildFrom(tokens, i + 1, regex + [Cap], vars + [name])
  }

  /** The raw pattern text a token list is printed as: `{name}` per placeholder. */
  function Print(tokens: seq<Token>): string {
    if |tokens| == 0 then ""
    else
      match tokens[0]
      case Lit(text) => text + Print(tokens[1..])
      case Var(name) => "{" + name + "}" + Print(tokens[1..])
  }

  predicate NoBraces(s: string) {
    forall k :: 0 <= k < |s| ==> s[k] != '{' && s[k] != '}'
  }

  /**
   * What the model assumes of the route parser's output (the parser is not
   * part of this model): literal text holds no braces, a placeholder name is
   * non-empty and holds neither braces nor the `:` that would start a custom
   * expression. Other characters are allowed in names, including PCRE
   * metacharacters.
   */
  predicate WellFormedTokens(tokens: seq<Token>) {
    forall i :: 0 <= i < |tokens| ==>
      match tokens[i]
      case Lit(text) => NoBraces(text)
      case Var(name) => |name| > 0 && NoBraces(name) && ':' !in name
  }
}
