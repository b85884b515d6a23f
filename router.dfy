/** `PerverHandler.check_route`: exact lookup first, then every route
    turned into an anchored pattern in which each `{name}` placeholder
    captures one or more non-`/` characters; among the routes that match,
    the one with the fewest captures wins, the earlier one on a tie.

    A route is modelled as a list of tokens (literal text or a
    placeholder), and matching is stated over tokens instead of through a
    regular-expression engine. */
module Router {
  import opened Wrappers
  import opened Text
  import opened Dicts

  datatype Token = Lit(text: string) | Param(name: string)

  // ---------------------------------------------------------------------
  // Reading a route: the placeholder pattern `\{.+?\}`

  /** The first `}` at or after index `k`, provided no newline comes
      before it (`.` does not match a newline). */
  function CloseBrace(s: string, k: nat): (r: Option<nat>)
    ensures r.Some? ==> k <= r.value < |s| && s[r.value] == '}'
    decreases |s| - k
  {
    if k >= |s| then None
    else if s[k] == '}' then Some(k)
    else if s[k] == '\n' then None
    else CloseBrace(s, k + 1)
  }

  /** When `s` starts with a placeholder, the index of its closing brace:
      at least one character between the braces, the shortest such match. */
  function PlaceholderEnd(s: string): (r: Option<nat>)
    ensures r.Some? ==> 2 <= r.value < |s| && s[0] == '{' && s[r.value] == '}'
  {
    if |s| >= 3 && s[0] == '{' && s[1] != '\n' then CloseBrace(s, 2) else None
  }

  /** Adds one literal character in front of a token list. */
  function PushLit(c: char, ts: seq<Token>): seq<Token> {
    if ts != [] && ts[0].Lit? then [Lit([c] + ts[0].text)] + ts[1..] else [Lit([c])] + ts
  }

  /** The tokens of a route, scanning left to right as `re.sub` and
      `re.findall` do. */
  function Tokenize(route: string): seq<Token>
    decreases |route|
  {
    if route == [] then []
    else
      match PlaceholderEnd(route)
      case Some(j) => [Param(route[1..j])] + Tokenize(route[j + 1..])
      case None => PushLit(route[0], Tokenize(route[1..]))
  }

  /** The route text a token list stands for. */
  function Untokenize(ts: seq<Token>): string {
    if ts == [] then []
    else
      match ts[0]
      case Lit(t) => t + Untokenize(ts[1..])
      case Param(n) => "{" + n + "}" + Untokenize(ts[1..])
  }

  /** Tokenizing loses nothing of the route text. */
  lemma {:induction false} TokenizeRoundTrip(route: string)
    ensures Untokenize(Tokenize(route)) == route
    decreases |route|
  {
    if route != [] {
      match PlaceholderEnd(route)
      case Some(j) =>
        TokenizeRoundTrip(route[j + 1..]);
        UntokenizeParam(route[1..j], Tokenize(route[j + 1..]), route[j + 1..]);
        BracedSplit(route, j);
      case None =>
        TokenizeRoundTrip(route[1..]);
        UntokenizePushLit(route[0], Tokenize(route[1..]), route[1..]);
        assert route == [route[0]] + route[1..];
    }
  }

  lemma UntokenizeParam(name: string, ts: seq<Token>, text: string)
    requires Untokenize(ts) == text
    ensures Untokenize([Param(name)] + ts) == "{" + name + "}" + text
  {
    assert ([Param(name)] + ts)[1..] == ts;
  }

  lemma UntokenizePushLit(c: char, ts: seq<Token>, text: string)
    requires Untokenize(ts) == text
    ensures Untokenize(PushLit(c, ts)) == [c] + text
  {
    if ts != [] && ts[0].Lit? {
      assert ts == [ts[0]] + ts[1..];
      assert ([Lit([c] + ts[0].text)] + ts[1..])[1..] == ts[1..];
    } else {
      assert ([Lit([c])] + ts)[1..] == ts;
    }
  }

  lemma BracedSplit(route: string, j: nat)
    requires 1 <= j < |route| && route[0] == '{' && route[j] == '}'
    ensures route == "{" + route[1..j] + "}" + route[j + 1..]
  {
  }

  /** The placeholder names, braces removed, in route order: the `keys`. */
  function Names(ts: seq<Token>): seq<string> {
    if ts == [] then []
    else if ts[0].Param? then [ts[0].name] + Names(ts[1..])
    else Names(ts[1..])
  }

  // ---------------------------------------------------------------------
  // Matching a path against the tokens of one route

  /** The length of the longest prefix of `s` without `/`. */
  function NonSlashRun(s: string): (n: nat)
    ensures n <= |s| && '/' !in s[..n]
    ensures n < |s| ==> s[n] == '/'
  {
    if s == [] || s[0] == '/' then 0
    else
      var n := NonSlashRun(s[1..]);
      assert s[..n + 1] == [s[0]] + s[1..][..n];
      n + 1
  }

  /** `re.match('^' + pattern + '$', s).groups()`, None when it does not
      match. A placeholder is `([^/]+)`, greedy: the longest capture is
      tried first, then shorter ones. `$` matches at the end of the text
      and also just before one final newline. */
  function Match(ts: seq<Token>, s: string): Option<seq<string>>
    decreases |ts|, |s| + 1
  {
    if ts == [] then (if s == "" || s == "\n" then Some([]) else None)
    else
      match ts[0]
      case Lit(t) => if StartsWith(s, t) then Match(ts[1..], s[|t|..]) else None
      case Param(_) => TryLen(ts[1..], s, NonSlashRun(s))
  }

  /** The backtracking of one placeholder: captures of length `n`, `n-1`,
      ..., 1, the first that lets the rest match. */
  function TryLen(rest: seq<Token>, s: string, n: nat): Option<seq<string>>
    requires n <= |s|
    decreases |rest| + 1, n
  {
    if n == 0 then None
    else
      match Match(rest, s[n..])
      case Some(gs) => Some([s[..n]] + gs)
      case None => TryLen(rest, s, n - 1)
  }

  /** Putting the captures in place of the placeholders gives `s`, or
      `s` without its one final newline. */
  predicate Renders(ts: seq<Token>, gs: seq<string>, s: string)
    requires |gs| == |Names(ts)|
  {
    Render(ts, gs) == s || Render(ts, gs) + "\n" == s
  }

  /** Captures are non-empty and hold no `/`. */
  predicate ValidGroups(gs: seq<string>) {
    forall k :: 0 <= k < |gs| ==> gs[k] != [] && '/' !in gs[k]
  }

  /** The text obtained by putting the captures in place of the
      placeholders. */
  function Render(ts: seq<Token>, gs: seq<string>): string
    requires |gs| == |Names(ts)|
  {
    if ts == [] then []
    else
      match ts[0]
      case Lit(t) => t + Render(ts[1..], gs)
      case Param(_) => gs[0] + Render(ts[1..], gs[1..])
  }

  /** Soundness: a match yields one valid capture per placeholder, and
      putting them back gives the path (up to the final newline `$`
      tolerates). */
  lemma {:induction false} MatchSound(ts: seq<Token>, s: string)
    requires Match(ts, s).Some?
    ensures var gs := Match(ts, s).value;
      |gs| == |Names(ts)| && ValidGroups(gs) && Renders(ts, gs, s)
    decreases |ts|, |s| + 1
  {
    if ts != [] {
      match ts[0]
      case Lit(t) =>
        MatchSound(ts[1..], s[|t|..]);
        assert s == t + s[|t|..];
      case Param(_) =>
        TryLenSound(ts[1..], s, NonSlashRun(s));
        var gs := Match(ts, s).value;
        var us := [Param("")] + ts[1..];
        assert us[1..] == ts[1..];
        assert Render(us, gs) == Render(ts, gs);
    }
  }

  lemma {:induction false} TryLenSound(rest: seq<Token>, s: string, n: nat)
    requires n <= NonSlashRun(s) && TryLen(rest, s, n).Some?
    ensures var gs := TryLen(rest, s, n).value;
      |gs| == |Names(rest)| + 1 && ValidGroups(gs) && Renders([Param("")] + rest, gs, s)
    decreases |rest| + 1, n
  {
    var r := Match(rest, s[n..]);
    if r.Some? {
      MatchSound(rest, s[n..]);
      assert '/' !in s[..n] by {
        assert s[..NonSlashRun(s)][..n] == s[..n];
      }
      assert s == s[..n] + s[n..];
      CaptureFirst(rest, s, s[..n], s[n..], r.value);
    } else {
      TryLenSound(rest, s, n - 1);
    }
  }

  /** One capture `g` in front of the captures of the rest of the route. */
  lemma CaptureFirst(rest: seq<Token>, s: string, g: string, u: string, tail: seq<string>)
    requires s == g + u && g != [] && '/' !in g
    requires |tail| == |Names(rest)| && ValidGroups(tail) && Renders(rest, tail, u)
    ensures var gs := [g] + tail;
      |gs| == |Names(rest)| + 1 && ValidGroups(gs) && Renders([Param("")] + rest, gs, s)
  {
    var ts := [Param("")] + rest;
    var gs := [g] + tail;
    assert ts[1..] == rest;
    assert gs[1..] == tail;
    assert Render(ts, gs) == g + Render(rest, tail);
    forall k | 0 <= k < |gs| ensures gs[k] != [] && '/' !in gs[k] {
      if k > 0 { assert gs[k] == tail[k - 1]; }
    }
  }

  /** Completeness: when some valid captures put in place of the
      placeholders give the path, the route matches. */
  lemma {:induction false} MatchComplete(ts: seq<Token>, s: string, gs: seq<string>)
    requires |gs| == |Names(ts)| && ValidGroups(gs)
    requires Renders(ts, gs, s)
    ensures Match(ts, s).Some?
    decreases |ts|
  {
    if ts != [] {
      match ts[0]
      case Lit(t) =>
        var tail := Render(ts[1..], gs);
        assert s == t + tail || s == t + (tail + "\n");
        assert s[|t|..] == tail || s[|t|..] == tail + "\n";
        MatchComplete(ts[1..], s[|t|..], gs);
      case Param(_) =>
        var g := gs[0];
        var tail := Render(ts[1..], gs[1..]);
        assert s == g + tail || s == g + (tail + "\n");
        assert s[|g|..] == tail || s[|g|..] == tail + "\n";
        assert ValidGroups(gs[1..]) by {
          forall k | 0 <= k < |gs[1..]| ensures gs[1..][k] != [] && '/' !in gs[1..][k] {
            assert gs[1..][k] == gs[k + 1];
          }
        }
        MatchComplete(ts[1..], s[|g|..], gs[1..]);
        RunCovers(s, g);
        TryLenComplete(ts[1..], s, NonSlashRun(s), |g|);
    }
  }

  /** A slash-free prefix is no longer than the slash-free run. */
  lemma {:induction false} RunCovers(s: string, g: string)
    requires StartsWith(s, g) && '/' !in g
    ensures |g| <= NonSlashRun(s)
  {
    if g != [] {
      assert s[0] == g[0] && g[0] in g;
      assert StartsWith(s[1..], g[1..]) && forall c :: c in g[1..] ==> c in g;
      RunCovers(s[1..], g[1..]);
    }
  }

  lemma {:induction false} TryLenComplete(rest: seq<Token>, s: string, n: nat, m: nat)
    requires 1 <= m <= n <= |s| && Match(rest, s[m..]).Some?
    ensures TryLen(rest, s, n).Some?
    decreases n
  {
    if n > m && Match(rest, s[n..]).None? {
      TryLenComplete(rest, s, n - 1, m);
    }
  }

  // ---------------------------------------------------------------------
  // Choosing among the routes

  /** `path.endswith('/') and path[:-1] or path`: one trailing slash goes,
      unless that would leave the empty (false) string. */
  function StripSlash(p: string): string {
    if EndsWith(p, "/") && |p| > 1 then p[..|p| - 1] else p
  }

  /** At most one trailing slash goes, and never the whole text. */
  lemma StripSlashOne(p: string)
    ensures var r := StripSlash(p); r == p || (r != [] && p == r + "/")
  {
    if EndsWith(p, "/") && |p| > 1 {
      assert p == p[..|p| - 1] + "/";
    }
  }

  /** The path as the loop holds it after `k` iterations: the stripping
      accumulates over the loop. */
  function Stripped(p: string, k: nat): string {
    if k == 0 then p else StripSlash(Stripped(p, k - 1))
  }

  /** The captures of route number `i`, matched against the path as it
      stands in iteration `i`. */
  function Attempt<H>(routes: Dict<string, H>, path: string, i: nat): Option<seq<string>>
    requires i < |routes|
  {
    Match(Tokenize(routes[i].0), Stripped(path, i + 1))
  }

  /** The captures of the first `n` routes, each matched in its own
      iteration. */
  function Attempts<H>(routes: Dict<string, H>, path: string, n: nat): (r: seq<Option<seq<string>>>)
    requires n <= |routes|
    ensures |r| == n
  {
    if n == 0 then [] else Attempts(routes, path, n - 1) + [Attempt(routes, path, n - 1)]
  }

  lemma {:induction false} AttemptsAt<H>(routes: Dict<string, H>, path: string, n: nat, i: nat)
    requires i < n <= |routes|
    ensures Attempts(routes, path, n)[i] == Attempt(routes, path, i)
  {
    if i < n - 1 {
      AttemptsAt(routes, path, n - 1, i);
    }
  }

  datatype Best = Best(index: nat, groups: seq<string>)

  /** The match the loop holds after the first `n` attempts: it is
      replaced only by a match with strictly fewer captures. */
  function Fewest(attempts: seq<Option<seq<string>>>, n: nat): (r: Option<Best>)
    requires n <= |attempts|
    ensures r.Some? ==> r.value.index < n
  {
    if n == 0 then None
    else
      var prev := Fewest(attempts, n - 1);
      match attempts[n - 1]
      case None => prev
      case Some(gs) =>
        if prev.None? || |gs| < |prev.value.groups| then Some(Best(n - 1, gs)) else prev
  }

  /** Attempts after the first `n` do not change what is held after `n`. */
  lemma {:induction false} FewestPrefix(attempts: seq<Option<seq<string>>>, more: seq<Option<seq<string>>>, n: nat)
    requires n <= |attempts|
    ensures Fewest(attempts + more, n) == Fewest(attempts, n)
  {
    if n > 0 {
      FewestPrefix(attempts, more, n - 1);
      assert (attempts + more)[n - 1] == attempts[n - 1];
    }
  }

  /** Nothing is held after `n` attempts exactly when none of them matched. */
  lemma {:induction false} FewestNone(attempts: seq<Option<seq<string>>>, n: nat)
    requires n <= |attempts|
    ensures Fewest(attempts, n).None? <==> forall i :: 0 <= i < n ==> attempts[i].None?
  {
    if n > 0 {
      FewestNone(attempts, n - 1);
    }
  }

  /** The match held after `n` attempts is one of them. */
  lemma {:induction false} FewestMatches(attempts: seq<Option<seq<string>>>, n: nat)
    requires n <= |attempts| && Fewest(attempts, n).Some?
    ensures attempts[Fewest(attempts, n).value.index] == Some(Fewest(attempts, n).value.groups)
  {
    if attempts[n - 1].None? || Fewest(attempts, n).value.index != n - 1 {
      FewestMatches(attempts, n - 1);
    }
  }

  /** The match held after `n` attempts has no more captures than any
      match among them, and strictly fewer than any earlier one. */
  lemma {:induction false} FewestIsMinimal(attempts: seq<Option<seq<string>>>, n: nat, i: nat)
    requires i < n <= |attempts| && attempts[i].Some?
    ensures Fewest(attempts, n).Some?
    ensures var b := Fewest(attempts, n).value;
      |b.groups| <= |attempts[i].value| && (i < b.index ==> |b.groups| < |attempts[i].value|)
  {
    if i < n - 1 {
      FewestIsMinimal(attempts, n - 1, i);
    }
  }

  /** What a successful lookup returns: the handler and the dict of path
      parameters. */
  datatype Found<H> = Found(handler: H, params: Dict<string, string>)

  /** `dict(zip(keys, values))` for a route and its captures. */
  function Params(route: string, gs: seq<string>): Dict<string, string> {
    FromPairs(Zip(Names(Tokenize(route)), gs))
  }

  /** The result `check_route` computes; None stands for `False`. */
  function Resolve<H>(path: string, routes: Dict<string, H>): Option<Found<H>> {
    if Has(routes, path) then Some(Found(Get(routes, path), []))
    else
      Chosen(routes, Fewest(Attempts(routes, path, |routes|), |routes|))
  }

  /** The handler and parameters of the held match, if any. */
  function Chosen<H>(routes: Dict<string, H>, best: Option<Best>): Option<Found<H>>
    requires best.Some? ==> best.value.index < |routes|
  {
    match best
    case None => None
    case Some(b) => Some(Found(routes[b.index].1, Params(routes[b.index].0, b.groups)))
  }

  /** `check_route(path, map)` */
  method CheckRoute<H>(path: string, routes: Dict<string, H>) returns (r: Option<Found<H>>)
    ensures r == Resolve(path, routes)
  {
    if Has(routes, path) {
      return Some(Found(Get(routes, path), []));
    }
    var rightPath: Option<Found<H>> := None;
    var groups: Option<nat> := None;  // `sys.maxsize`: no match seen yet
    var p := path;
    for i := 0 to |routes|
      invariant p == Stripped(path, i)
      invariant groups.None? <==> Fewest(Attempts(routes, path, i), i).None?
      invariant groups.Some? ==> groups.value == |Fewest(Attempts(routes, path, i), i).value.groups|
      invariant rightPath == Chosen(routes, Fewest(Attempts(routes, path, i), i))
    {
      var (route, handler) := routes[i];
      StripStep(path, i);
      FewestPrefix(Attempts(routes, path, i), [Attempt(routes, path, i)], i);
      if EndsWith(p, "/") && |p[..|p| - 1]| > 0 {
        p := p[..|p| - 1];
      }
      var matched := Match(Tokenize(route), p);
      if matched.Some? {
        var keys := Names(Tokenize(route));
        var values := matched.value;
        if groups.None? || |values| < groups.value {
          groups := Some(|values|);
          rightPath := Some(Found(handler, FromPairs(Zip(keys, values))));
        }
      }
    }
    return rightPath;
  }

  /** One iteration's stripping is one more step of `Stripped`. */
  lemma StripStep(path: string, i: nat)
    ensures var p := Stripped(path, i);
      Stripped(path, i + 1) == if EndsWith(p, "/") && |p[..|p| - 1]| > 0 then p[..|p| - 1] else p
  {
  }

  // ---------------------------------------------------------------------
  // Properties of the lookup

  /** An exact key wins before any pattern is tried, with no parameters. */
  lemma ResolveExact<H>(path: string, routes: Dict<string, H>)
    requires Has(routes, path)
    ensures Resolve(path, routes) == Some(Found(Get(routes, path), []))
  {
  }

  /** No result exactly when the path is no key and no route matches it. */
  lemma ResolveNone<H>(path: string, routes: Dict<string, H>)
    ensures Resolve(path, routes).None? <==>
      !Has(routes, path) && forall i :: 0 <= i < |routes| ==> Attempt(routes, path, i).None?
  {
    FewestNone(Attempts(routes, path, |routes|), |routes|);
    forall i | 0 <= i < |routes| ensures Attempts(routes, path, |routes|)[i] == Attempt(routes, path, i) {
      AttemptsAt(routes, path, |routes|, i);
    }
  }

  /** Completeness of the lookup: when some valid captures turn a route
      into the path it is matched against, something is found. */
  lemma ResolveFindsRendered<H>(path: string, routes: Dict<string, H>, i: nat, gs: seq<string>)
    requires i < |routes|
    requires |gs| == |Names(Tokenize(routes[i].0))| && ValidGroups(gs)
    requires Render(Tokenize(routes[i].0), gs) == Stripped(path, i + 1)
    ensures Resolve(path, routes).Some?
  {
    MatchComplete(Tokenize(routes[i].0), Stripped(path, i + 1), gs);
    assert Attempt(routes, path, i).Some?;
    ResolveNone(path, routes);
  }

  /** Tie-break: a pattern result comes from a matching route with the
      fewest captures, the earliest one among those with that count; its
      parameters are the route's placeholder names zipped with valid
      captures. */
  lemma ResolvePattern<H>(path: string, routes: Dict<string, H>)
    requires !Has(routes, path) && Resolve(path, routes).Some?
    ensures exists i, gs ::
      && 0 <= i < |routes| && Attempt(routes, path, i) == Some(gs)
      && Resolve(path, routes) == Some(Found(routes[i].1, Params(routes[i].0, gs)))
      && |gs| == |Names(Tokenize(routes[i].0))| && ValidGroups(gs)
      && (forall j :: 0 <= j < |routes| && Attempt(routes, path, j).Some? ==> |gs| <= |Attempt(routes, path, j).value|)
      && (forall j :: 0 <= j < i && Attempt(routes, path, j).Some? ==> |gs| < |Attempt(routes, path, j).value|)
  {
    var attempts := Attempts(routes, path, |routes|);
    var b := Fewest(attempts, |routes|).value;
    FewestMatches(attempts, |routes|);
    AttemptsAt(routes, path, |routes|, b.index);
    MatchSound(Tokenize(routes[b.index].0), Stripped(path, b.index + 1));
    forall j | 0 <= j < |routes| && Attempt(routes, path, j).Some?
      ensures |b.groups| <= |Attempt(routes, path, j).value|
      ensures j < b.index ==> |b.groups| < |Attempt(routes, path, j).value|
    {
      AttemptsAt(routes, path, |routes|, j);
      FewestIsMinimal(attempts, |routes|, j);
    }
    assert Resolve(path, routes) == Some(Found(routes[b.index].1, Params(routes[b.index].0, b.groups)));
  }

  /** The root path is never reduced. */
  lemma {:induction false} StrippedRoot(k: nat)
    ensures Stripped("/", k) == "/"
  {
    if k > 0 { StrippedRoot(k - 1); }
  }

  /** Text without a trailing slash is left as it is, however many
      iterations pass. */
  lemma {:induction false} StrippedFixed(p: string, k: nat)
    requires !EndsWith(p, "/")
    ensures Stripped(p, k) == p
  {
    if k > 0 { StrippedFixed(p, k - 1); }
  }

  /** Trailing slashes: when neither form is a key, a path with one
      trailing slash resolves exactly like the path without it. */
  lemma ResolveTrailingSlash<H>(path: string, routes: Dict<string, H>)
    requires path != [] && !EndsWith(path, "/")
    requires !Has(routes, path) && !Has(routes, path + "/")
    ensures Resolve(path + "/", routes) == Resolve(path, routes)
  {
    var q := path + "/";
    assert EndsWith(q, "/") && q[..|q| - 1] == path;
    forall k: nat | k >= 1 ensures Stripped(q, k) == Stripped(path, k) {
      StrippedFixed(path, k);
      StrippedAfterOne(q, path, k - 1);
    }
    SameAttempts(routes, path, q, |routes|);
  }

  lemma {:induction false} StrippedAfterOne(q: string, path: string, k: nat)
    requires path != [] && !EndsWith(path, "/") && q == path + "/"
    ensures Stripped(q, k + 1) == path
  {
    if k == 0 {
      assert EndsWith(q, "/") && |q| > 1;
      assert q[..|q| - 1] == path;
      assert Stripped(q, 1) == StripSlash(q);
    } else {
      StrippedAfterOne(q, path, k - 1);
      assert Stripped(q, k + 1) == StripSlash(path);
    }
  }

  lemma {:induction false} SameAttempts<H>(routes: Dict<string, H>, p: string, q: string, n: nat)
    requires n <= |routes|
    requires forall k: nat :: k >= 1 ==> Stripped(q, k) == Stripped(p, k)
    ensures Attempts(routes, q, n) == Attempts(routes, p, n)
  {
    if n > 0 {
      SameAttempts(routes, p, q, n - 1);
      assert Stripped(q, n) == Stripped(p, n);
    }
  }

  /** The stripping accumulates across iterations: `/a//` is matched as
      `/a/` against the first route and as `/a` against the second. */
  lemma StrippedCumulative()
    ensures Stripped("/a//", 1) == "/a/" && Stripped("/a//", 2) == "/a"
  {
  }
}
