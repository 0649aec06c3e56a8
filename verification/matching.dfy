/**
 * Anchored matching of a fragment against a whole string, the way PCRE
 * runs `~^fragment$~`: pieces left to right, each `([^/]+)` group first
 * taking the longest run without `/` and giving characters back one at a
 * time until the rest of the fragment matches the rest of the string.
 */
module Matching {
  import opened Wrappers
  import opened Pattern
  import opened Seqs

  /** What one `[^/]+` group can capture. */
  predicate IsSegment(v: string) {
    |v| > 0 && forall k :: 0 <= k < |v| ==> v[k] != '/'
  }

  predicate AllSegments(caps: seq<string>) {
    forall i :: 0 <= i < |caps| ==> IsSegment(caps[i])
  }

  /** The string a fragment spells when its groups capture `caps`. */
  function Render(f: Fragment, caps: seq<string>): string
    requires |caps| == CapCount(f)
  {
    if |f| == 0 then ""
    else
      match f[0]
      case Ch(c) => [c] + Render(f[1..], caps)
      case Cap => caps[0] + Render(f[1..], caps[1..])
  }

  /** `s` is, in its entirety, an instance of `f`. */
  ghost predicate FullMatch(f: Fragment, s: string) {
    exists caps :: |caps| == CapCount(f) && AllSegments(caps) && Render(f, caps) == s
  }

  /** Length of the longest prefix of `s` free of `/`. */
  function MaxRun(s: string): (n: nat)
    ensures n <= |s|
    ensures forall k :: 0 <= k < n ==> s[k] != '/'
    ensures n < |s| ==> s[n] == '/'
  {
    if |s| == 0 || s[0] == '/' then 0 else 1 + MaxRun(s[1..])
  }

  /**
   * The greedy backtracking match: on success, the captured groups in
   * order; the groups are runs without `/` and spell `s` exactly.
   */
  function Match(f: Fragment, s: string): (r: Option<seq<string>>)
    ensures r.Some? ==> |r.value| == CapCount(f) && AllSegments(r.value) && Render(f, r.value) == s
    decreases |f|, |s| + 1
  {
    if |f| == 0 then
      if |s| == 0 then Some([]) else None
    else
      match f[0]
      case Ch(c) =>
        if |s| > 0 && s[0] == c then
          var r := Match(f[1..], s[1..]);
          if r.Some? then
            assert s == [c] + s[1..];
            r
          else None
        else None
      case Cap =>
        var r := TryCap(f[1..], s, MaxRun(s));
        if r.Some? then
          var n := |r.value[0]|;
          assert s == s[..n] + s[n..];
          r
        else None
  }

  /**
   * A group followed by `rest`: tries capture lengths `k`, `k - 1`, ..., 1
   * and keeps the first (longest) for which `rest` matches what is left.
   */
  function TryCap(rest: Fragment, s: string, k: nat): (r: Option<seq<string>>)
    requires k <= MaxRun(s)
    ensures r.Some? ==>
      && |r.value| == 1 + CapCount(rest)
      && 1 <= |r.value[0]| <= k
      && r.value[0] == s[..|r.value[0]|]
      && IsSegment(r.value[0])
      && AllSegments(r.value[1..])
      && Render(rest, r.value[1..]) == s[|r.value[0]|..]
    ensures r.None? <==> forall j :: 1 <= j <= k ==> Match(rest, s[j..]).None?
    decreases |rest| + 1, k
  {
    if k == 0 then None
    else
      var m := Match(rest, s[k..]);
      if m.Some? then
        var r := [s[..k]] + m.value;
        assert r[0] == s[..k] && |r[0]| == k && r[1..] == m.value;
        assert forall j :: 0 <= j < k ==> r[0][j] == s[j];
        Some(r)
      else
        assert k - 1 < k;
        TryCap(rest, s, k - 1)
  }

  /** Every instance of a fragment is found by the matcher. */
  lemma {:induction false} MatchComplete(f: Fragment, s: string, caps: seq<string>)
    requires |caps| == CapCount(f) && AllSegments(caps) && Render(f, caps) == s
    ensures Match(f, s).Some?
    decreases |f|
  {
    if |f| != 0 {
      match f[0]
      case Ch(c) =>
        MatchComplete(f[1..], s[1..], caps);
      case Cap =>
        var n := |caps[0]|;
        assert s[..n] == caps[0] && s[n..] == Render(f[1..], caps[1..]);
        assert AllSegments(caps[1..]) by {
          forall i | 0 <= i < |caps[1..]| ensures IsSegment(caps[1..][i]) {
            assert caps[1..][i] == caps[i + 1];
          }
        }
        MatchComplete(f[1..], s[n..], caps[1..]);
        assert IsSegment(caps[0]);
        assert n <= MaxRun(s);
    }
  }

  /** The matcher succeeds exactly on the instances of the fragment. */
  lemma MatchIffFullMatch(f: Fragment, s: string)
    ensures Match(f, s).Some? <==> FullMatch(f, s)
  {
    if FullMatch(f, s) {
      var caps :| |caps| == CapCount(f) && AllSegments(caps) && Render(f, caps) == s;
      MatchComplete(f, s, caps);
    }
  }

  /** `preg_quote`d literal text spells itself. */
  lemma {:induction false} RenderQuote(text: string, f: Fragment, caps: seq<string>)
    requires |caps| == CapCount(f)
    ensures CapCount(Quote(text) + f) == CapCount(f)
    ensures Render(Quote(text) + f, caps) == text + Render(f, caps)
    decreases |text|
  {
    if |text| == 0 {
      assert Quote(text) + f == f;
    } else {
      var q := Quote(text[1..]) + f;
      assert Quote(text) + f == [Ch(text[0])] + q;
      RenderQuote(text[1..], f, caps);
      RenderCh(text[0], q, caps);
      var rf := Render(f, caps);
      AppendAssoc([text[0]], text[1..], rf);
      assert [text[0]] + text[1..] == text;
    }
  }

  /** A literal character in front renders as itself. */
  lemma RenderCh(c: char, f: Fragment, caps: seq<string>)
    requires |caps| == CapCount(f)
    ensures CapCount([Ch(c)] + f) == CapCount(f)
    ensures Render([Ch(c)] + f, caps) == [c] + Render(f, caps)
  {
    assert ([Ch(c)] + f)[1..] == f;
  }

  /** Every group ends the fragment or is followed by a literal `/`. */
  predicate SlashSeparated(f: Fragment) {
    forall i :: 0 <= i < |f| && f[i].Cap? ==> i + 1 == |f| || f[i + 1] == Ch('/')
  }

  /**
   * When groups are separated by `/`, the captures are determined by the
   * string they spell: there is only one way to split it.
   */
  lemma {:induction false} RenderUnique(f: Fragment, c1: seq<string>, c2: seq<string>)
    requires SlashSeparated(f)
    requires |c1| == CapCount(f) && |c2| == CapCount(f)
    requires AllSegments(c1) && AllSegments(c2)
    requires Render(f, c1) == Render(f, c2)
    ensures c1 == c2
    decreases |f|
  {
    if |f| != 0 {
      var tail := f[1..];
      assert SlashSeparated(tail) by {
        forall i | 0 <= i < |tail| && tail[i].Cap? ensures i + 1 == |tail| || tail[i + 1] == Ch('/') {
          assert tail[i] == f[i + 1];
        }
      }
      match f[0]
      case Ch(c) =>
        assert Render(f, c1) == [c] + Render(tail, c1);
        assert Render(f, c2) == [c] + Render(tail, c2);
        assert Render(tail, c1) == Render(f, c1)[1..];
        RenderUnique(tail, c1, c2);
      case Cap =>
        assert AllSegments(c1[1..]) && AllSegments(c2[1..]) by {
          forall i | 0 <= i < |c1| - 1 ensures IsSegment(c1[1..][i]) && IsSegment(c2[1..][i]) {
            assert c1[1..][i] == c1[i + 1] && c2[1..][i] == c2[i + 1];
          }
        }
        var s := Render(f, c1);
        var t1, t2 := Render(tail, c1[1..]), Render(tail, c2[1..]);
        assert s == c1[0] + t1 && s == c2[0] + t2;
        assert IsSegment(c1[0]) && IsSegment(c2[0]);
        var n1, n2 := |c1[0]|, |c2[0]|;
        if |f| == 1 {
          assert |tail| == 0 && t1 == "" && t2 == "";
          assert c1[0] == s == c2[0];
          assert c1[1..] == [] && c2[1..] == [];
          assert c1 == [c1[0]] && c2 == [c2[0]];
        } else {
          assert f[1] == Ch('/');
          assert t1 == ['/'] + Render(f[2..], c1[1..]) by { assert tail[1..] == f[2..]; }
          assert t2 == ['/'] + Render(f[2..], c2[1..]) by { assert tail[1..] == f[2..]; }
          assert forall k :: 0 <= k < n1 ==> s[k] != '/' by {
            forall k | 0 <= k < n1 ensures s[k] != '/' { assert s[k] == c1[0][k]; }
          }
          assert forall k :: 0 <= k < n2 ==> s[k] != '/' by {
            forall k | 0 <= k < n2 ensures s[k] != '/' { assert s[k] == c2[0][k]; }
          }
          assert s[n1] == t1[0] == '/';
          assert s[n2] == t2[0] == '/';
          assert n1 == n2;
          assert c1[0] == s[..n1] == c2[0];
          assert t1 == s[n1..] == t2;
          RenderUnique(tail, c1[1..], c2[1..]);
          assert c1 == [c1[0]] + c1[1..] && c2 == [c2[0]] + c2[1..];
        }
    }
  }

  /** On a `/`-separated fragment the matcher recovers exactly the captures that spell the string. */
  lemma MatchRecoversCaptures(f: Fragment, caps: seq<string>)
    requires SlashSeparated(f)
    requires |caps| == CapCount(f) && AllSegments(caps)
    ensures Match(f, Render(f, caps)) == Some(caps)
  {
    MatchComplete(f, Render(f, caps), caps);
    RenderUnique(f, Match(f, Render(f, caps)).value, caps);
  }
}
