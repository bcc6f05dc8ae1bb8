/** Routing: path patterns, first-match dispatch, and the middleware chain. */
module Router {
  import opened Wrappers

  // ----- paths -----

  datatype Segment = Literal(text: string) | Param(name: string)

  /** `split('/')` without the empty pieces; `cur` is the piece begun so far. */
  function Pieces(cur: string, s: string): seq<string>
    decreases |s|
  {
    if s == [] then NonEmpty(cur)
    else if s[0] == '/' then NonEmpty(cur) + Pieces([], s[1..])
    else Pieces(cur + [s[0]], s[1..])
  }

  function NonEmpty(p: string): seq<string> { if p == [] then [] else [p] }

  function SegmentOf(p: string): Segment {
    if p != [] && p[0] == ':' then Param(p[1..]) else Literal(p)
  }

  function Segments(ps: seq<string>): (r: seq<Segment>)
    ensures |r| == |ps| && forall i :: 0 <= i < |ps| ==> r[i] == SegmentOf(ps[i])
  {
    seq(|ps|, i requires 0 <= i < |ps| => SegmentOf(ps[i]))
  }

  /** `parse_path`. */
  function ParsePath(path: string): seq<Segment> { Segments(Pieces([], path)) }

  /** How a pattern segment is written. */
  function Rendered(seg: Segment): string {
    match seg case Literal(t) => t case Param(n) => ":" + n
  }

  /** Patterns are compared by their text: equal segments are equally written pieces. */
  lemma ParsePathExact(a: string, b: string)
    ensures ParsePath(a) == ParsePath(b) <==> Pieces([], a) == Pieces([], b)
  {
    var s, t := Pieces([], a), Pieces([], b);
    if Segments(s) == Segments(t) {
      assert |s| == |Segments(s)| == |Segments(t)| == |t|;
      forall i | 0 <= i < |s| ensures s[i] == t[i] {
        assert Segments(s)[i] == Segments(t)[i];
        RenderedParse(s[i]);
        RenderedParse(t[i]);
      }
    }
  }

  lemma RenderedParse(p: string)
    ensures Rendered(SegmentOf(p)) == p
  {
  }

  // ----- matching -----

  type Params = seq<(string, string)>

  ghost predicate Matches(patterns: seq<Segment>, actual: seq<string>) {
    && |patterns| == |actual|
    && forall i :: 0 <= i < |patterns| && patterns[i].Literal? ==> patterns[i].text == actual[i]
  }

  /** The captures of the first `n` segments. */
  ghost function Captures(patterns: seq<Segment>, actual: seq<string>, n: nat): Params
    requires n <= |patterns| && n <= |actual|
  {
    if n == 0 then [] else
      Captures(patterns, actual, n - 1)
      + if patterns[n - 1].Param? then [(patterns[n - 1].name, actual[n - 1])] else []
  }

  /** `match_segments`: the captured parameters in order, or nothing when a literal differs. */
  method MatchSegments(patterns: seq<Segment>, actual: seq<string>) returns (r: Option<Params>)
    ensures r == if Matches(patterns, actual) then Some(Captures(patterns, actual, |patterns|)) else None
  {
    if |patterns| != |actual| { return None; }
    var pairs: Params := [];
    for i := 0 to |patterns|
      invariant pairs == Captures(patterns, actual, i)
      invariant forall j :: 0 <= j < i && patterns[j].Literal? ==> patterns[j].text == actual[j]
    {
      match patterns[i]
      case Literal(lit) => if lit != actual[i] { return None; }
      case Param(name) => pairs := pairs + [(name, actual[i])];
    }
    return Some(pairs);
  }

  /** Write a path from a pattern, taking one captured value for each parameter in turn. */
  function Substitute(patterns: seq<Segment>, values: seq<string>): Option<seq<string>> {
    if patterns == [] then if values == [] then Some([]) else None
    else
      var last := patterns[|patterns| - 1];
      match last
      case Literal(t) =>
        (match Substitute(patterns[..|patterns| - 1], values)
         case None => None
         case Some(front) => Some(front + [t]))
      case Param(_) =>
        if values == [] then None
        else match Substitute(patterns[..|patterns| - 1], values[..|values| - 1])
          case None => None
          case Some(front) => Some(front + [values[|values| - 1]])
  }

  function ParamNames(patterns: seq<Segment>): seq<string> {
    if patterns == [] then [] else
      ParamNames(patterns[..|patterns| - 1])
      + if patterns[|patterns| - 1].Param? then [patterns[|patterns| - 1].name] else []
  }

  function Firsts(ps: Params): (r: seq<string>)
    ensures |r| == |ps| && forall i :: 0 <= i < |ps| ==> r[i] == ps[i].0
  {
    seq(|ps|, i requires 0 <= i < |ps| => ps[i].0)
  }

  function Seconds(ps: Params): (r: seq<string>)
    ensures |r| == |ps| && forall i :: 0 <= i < |ps| ==> r[i] == ps[i].1
  {
    seq(|ps|, i requires 0 <= i < |ps| => ps[i].1)
  }

  lemma SecondsSnoc(ps: Params, p: (string, string))
    ensures Seconds(ps + [p]) == Seconds(ps) + [p.1] && Firsts(ps + [p]) == Firsts(ps) + [p.0]
  {
  }

  lemma {:induction false} CapturesFront(patterns: seq<Segment>, actual: seq<string>, n: nat, k: nat)
    requires k <= n <= |patterns| && n <= |actual|
    ensures Captures(patterns[..n], actual[..n], k) == Captures(patterns, actual, k)
  {
    if k > 0 { CapturesFront(patterns, actual, n, k - 1); }
  }

  /** Matching and capturing, one segment at a time from the right. */
  lemma LastMatches(patterns: seq<Segment>, actual: seq<string>)
    requires patterns != [] && |actual| == |patterns|
    ensures var n := |patterns| - 1;
      Matches(patterns, actual) <==>
        Matches(patterns[..n], actual[..n]) && (patterns[n].Literal? ==> patterns[n].text == actual[n])
  {
  }

  lemma LastCapture(patterns: seq<Segment>, actual: seq<string>)
    requires patterns != [] && |actual| == |patterns|
    ensures var n := |patterns| - 1;
      Captures(patterns, actual, n + 1) == Captures(patterns[..n], actual[..n], n)
        + if patterns[n].Param? then [(patterns[n].name, actual[n])] else []
  {
    CapturesFront(patterns, actual, |patterns| - 1, |patterns| - 1);
  }

  /** Substituting the captured values position by position into the pattern rebuilds the path, and the
      captures carry the pattern's parameter names in order. */
  lemma {:induction false} CapturesRebuild(patterns: seq<Segment>, actual: seq<string>)
    requires Matches(patterns, actual)
    ensures var ps := Captures(patterns, actual, |patterns|);
      Substitute(patterns, Seconds(ps)) == Some(actual) && Firsts(ps) == ParamNames(patterns)
    decreases |patterns|
  {
    if patterns != [] {
      var n := |patterns| - 1;
      var front, before := patterns[..n], actual[..n];
      CapturesRebuild(front, before);
      LastMatches(patterns, actual);
      LastCapture(patterns, actual);
      hide Captures, Matches, Seconds, Firsts;
      var ps := Captures(front, before, n);
      assert actual == before + [actual[n]];
      if patterns[n].Param? {
        SecondsSnoc(ps, (patterns[n].name, actual[n]));
        assert (Seconds(ps) + [actual[n]])[..|ps|] == Seconds(ps);
      } else {
        assert ps + [] == ps;
      }
    }
  }

  /** The values left for the segments before the last. */
  function FrontValues(patterns: seq<Segment>, values: seq<string>): seq<string>
    requires patterns != []
  {
    if patterns[|patterns| - 1].Param? && values != [] then values[..|values| - 1] else values
  }

  /** The last segment of a rebuilt path, and the value it took if it is a parameter. */
  lemma SubstituteLast(patterns: seq<Segment>, values: seq<string>, actual: seq<string>)
    requires patterns != [] && Substitute(patterns, values) == Some(actual)
    ensures actual != []
    ensures var n, last, x := |patterns| - 1, patterns[|patterns| - 1], actual[|actual| - 1];
      && Substitute(patterns[..n], FrontValues(patterns, values)) == Some(actual[..|actual| - 1])
      && (last.Literal? ==> x == last.text)
      && values == if last.Param? then FrontValues(patterns, values) + [x] else FrontValues(patterns, values)
  {
  }

  lemma LastValue(patterns: seq<Segment>, actual: seq<string>, vs: seq<string>)
    requires patterns != [] && |actual| == |patterns|
    requires vs == Seconds(Captures(patterns[..|patterns| - 1], actual[..|patterns| - 1], |patterns| - 1))
    ensures Seconds(Captures(patterns, actual, |patterns|)) ==
      if patterns[|patterns| - 1].Param? then vs + [actual[|patterns| - 1]] else vs
  {
    LastCapture(patterns, actual);
    hide Captures, Seconds;
    var n := |patterns| - 1;
    var ps := Captures(patterns[..n], actual[..n], n);
    if patterns[n].Param? { SecondsSnoc(ps, (patterns[n].name, actual[n])); }
    else { assert ps + [] == ps; }
  }

  /** Nothing else is captured: values that rebuild a path from the pattern are the captured ones. */
  lemma {:induction false} RebuiltAreCaptures(patterns: seq<Segment>, values: seq<string>, actual: seq<string>)
    requires Substitute(patterns, values) == Some(actual)
    ensures Matches(patterns, actual) && values == Seconds(Captures(patterns, actual, |patterns|))
    decreases |patterns|
  {
    if patterns != [] {
      SubstituteLast(patterns, values, actual);
      hide Substitute, Matches, Captures, Seconds, FrontValues;
      var n, vs := |patterns| - 1, FrontValues(patterns, values);
      var before := actual[..|actual| - 1];
      RebuiltAreCaptures(patterns[..n], vs, before);
      SameLength(patterns[..n], before);
      LastMatches(patterns, actual);
      LastValue(patterns, actual, vs);
    }
  }

  lemma SameLength(patterns: seq<Segment>, actual: seq<string>)
    requires Matches(patterns, actual)
    ensures |patterns| == |actual|
  {
  }

  // ----- patterns as they are written -----

  ghost predicate IsParameter(piece: string) { piece != "" && piece[0] == ':' }

  /** A registered pattern fits a path piece by piece: a piece with a leading colon fits any piece, and
      every other piece only itself. */
  lemma PatternExact(pattern: string, actual: seq<string>)
    ensures var ps := Pieces([], pattern);
      Matches(ParsePath(pattern), actual) <==>
        |ps| == |actual| && forall i :: 0 <= i < |ps| ==> IsParameter(ps[i]) || ps[i] == actual[i]
  {
    var ps, segs := Pieces([], pattern), ParsePath(pattern);
    forall i | 0 <= i < |ps|
      ensures segs[i].Literal? <==> !IsParameter(ps[i])
      ensures segs[i].Literal? ==> segs[i].text == ps[i]
    {
    }
  }

  lemma {:induction false} CapturesExact(patterns: seq<Segment>, actual: seq<string>, n: nat, name: string,
                                         value: string)
    requires n <= |patterns| && n <= |actual|
    ensures (name, value) in Captures(patterns, actual, n) <==>
      exists i :: 0 <= i < n && patterns[i] == Param(name) && actual[i] == value
  {
    if n > 0 { CapturesExact(patterns, actual, n - 1, name, value); }
  }

  /** Each piece `:name` captures the piece it fits under its name, and nothing else is captured. */
  lemma PatternCaptures(pattern: string, actual: seq<string>, name: string, value: string)
    requires Matches(ParsePath(pattern), actual)
    ensures var ps := Pieces([], pattern);
      |ps| == |actual| &&
      ((name, value) in Captures(ParsePath(pattern), actual, |ps|) <==>
        exists i :: 0 <= i < |ps| && ps[i] == ":" + name && actual[i] == value)
  {
    var ps, segs := Pieces([], pattern), ParsePath(pattern);
    CapturesExact(segs, actual, |ps|, name, value);
    forall i | 0 <= i < |ps| ensures segs[i] == Param(name) <==> ps[i] == ":" + name {
      RenderedParse(ps[i]);
      assert (":" + name)[1..] == name;
    }
  }

  // ----- dispatch -----

  /** Handlers and middlewares are pure in the request they are given. */
  type Handler<!Req, !Resp> = (Req, Params) -> Resp

  datatype Route<!Req, !Resp> = Route(verb: string, segments: seq<Segment>, handler: Handler<Req, Resp>)

  /** What runs at the end of the chain: a registered handler with its captures, or a fallback. */
  datatype Target<!Req, !Resp> = Found(handler: Handler<Req, Resp>, params: Params) | MethodNotAllowed | NotFound

  ghost predicate Hits<Req, Resp>(r: Route<Req, Resp>, verb: string, actual: seq<string>) {
    r.verb == verb && Matches(r.segments, actual)
  }

  /** `i` is the first registered route for this path and method. */
  ghost predicate FirstHit<Req, Resp>(routes: seq<Route<Req, Resp>>, verb: string, actual: seq<string>, i: nat) {
    i < |routes| && Hits(routes[i], verb, actual) && forall j :: 0 <= j < i ==> !Hits(routes[j], verb, actual)
  }

  ghost predicate PathKnown<Req, Resp>(routes: seq<Route<Req, Resp>>, actual: seq<string>) {
    exists i :: 0 <= i < |routes| && Matches(routes[i].segments, actual)
  }

  /** The route search of `dispatch`: the first route registered for the path and method; without one,
      the method is refused exactly when some route has the path. */
  method FindTarget<Req, Resp>(routes: seq<Route<Req, Resp>>, verb: string, path: string) returns (t: Target<Req, Resp>)
    ensures var actual := Pieces([], path);
      && (t.Found? ==> exists i: nat ::
            FirstHit(routes, verb, actual, i)
            && t == Found(routes[i].handler, Captures(routes[i].segments, actual, |actual|)))
      && (!t.Found? ==> forall i :: 0 <= i < |routes| ==> !Hits(routes[i], verb, actual))
      && (!t.Found? ==> (t.MethodNotAllowed? <==> PathKnown(routes, actual)))
  {
    var actual := Pieces([], path);
    var pathMatched := false;
    for i := 0 to |routes|
      invariant forall j :: 0 <= j < i ==> !Hits(routes[j], verb, actual)
      invariant pathMatched <==> exists j :: 0 <= j < i && Matches(routes[j].segments, actual)
    {
      var params := MatchSegments(routes[i].segments, actual);
      if params.Some? {
        pathMatched := true;
        if routes[i].verb == verb {
          assert FirstHit(routes, verb, actual, i);
          return Found(routes[i].handler, params.value);
        }
      }
    }
    return if pathMatched then MethodNotAllowed else NotFound;
  }

  /** Registering one more route never changes the route of a request that already had one. */
  lemma AppendKeepsRoute<Req, Resp>(routes: seq<Route<Req, Resp>>, more: seq<Route<Req, Resp>>, verb: string,
                                    actual: seq<string>, i: nat)
    requires FirstHit(routes, verb, actual, i)
    ensures forall j: nat :: FirstHit(routes + more, verb, actual, j) <==> j == i
  {
    assert forall k :: 0 <= k < |routes| ==> (routes + more)[k] == routes[k];
    forall j: nat ensures FirstHit(routes + more, verb, actual, j) <==> j == i {
      if j == i {
        assert FirstHit(routes + more, verb, actual, i);
      } else {
        assert Hits((routes + more)[i], verb, actual);
      }
    }
  }

  /** `has_route`: patterns are compared segment by segment, parameter names included. */
  predicate HasRoute<Req, Resp>(routes: seq<Route<Req, Resp>>, verb: string, path: string) {
    exists i :: 0 <= i < |routes| && routes[i].verb == verb && routes[i].segments == ParsePath(path)
  }

  /** On routes registered from `patterns` that is: some pattern of the same method consists of the
      same nonempty pieces. */
  lemma HasRouteExact<Req, Resp>(routes: seq<Route<Req, Resp>>, patterns: seq<string>, verb: string, path: string)
    requires |patterns| == |routes|
    requires forall i :: 0 <= i < |routes| ==> routes[i].segments == ParsePath(patterns[i])
    ensures HasRoute(routes, verb, path) <==>
      exists i :: 0 <= i < |routes| && routes[i].verb == verb && Pieces([], patterns[i]) == Pieces([], path)
  {
    forall i | 0 <= i < |routes|
      ensures routes[i].segments == ParsePath(path) <==> Pieces([], patterns[i]) == Pieces([], path)
    {
      ParsePathExact(patterns[i], path);
    }
    if HasRoute(routes, verb, path) {
      var i :| 0 <= i < |routes| && routes[i].verb == verb && routes[i].segments == ParsePath(path);
      assert Pieces([], patterns[i]) == Pieces([], path);
    }
  }

  // ----- the middleware chain -----

  /** A middleware decides what to do with the request and the rest of the chain. */
  type Middleware<!Req, !Resp> = (Req, Req -> Resp) -> Resp

  function Wrap<Req, Resp>(mw: Middleware<Req, Resp>, inner: Req -> Resp): Req -> Resp {
    req => mw(req, inner)
  }

  /** The chain as a right fold: the first registered middleware is the outermost. */
  function Chain<Req, Resp>(mws: seq<Middleware<Req, Resp>>, core: Req -> Resp): Req -> Resp {
    if mws == [] then core else Wrap(mws[0], Chain(mws[1..], core))
  }

  /** `build_chain`: wraps the handler in the middlewares from the last one to the first. */
  method BuildChain<Req, Resp>(mws: seq<Middleware<Req, Resp>>, core: Req -> Resp) returns (chain: Req -> Resp)
    ensures chain == Chain(mws, core)
  {
    chain := core;
    var i := |mws|;
    while i > 0
      invariant 0 <= i <= |mws|
      invariant chain == Chain(mws[i..], core)
    {
      i := i - 1;
      assert mws[i..][0] == mws[i] && mws[i..][1..] == mws[i + 1..];
      chain := Wrap(mws[i], chain);
    }
    assert mws[0..] == mws;
  }

  /** A middleware that answers `req` whatever comes after it. */
  ghost predicate ShortCircuits<Req(!new), Resp(!new)>(mw: Middleware<Req, Resp>, req: Req) {
    forall f: Req -> Resp, g: Req -> Resp :: mw(req, f) == mw(req, g)
  }

  ghost predicate SameOn<Req(!new), Resp(!new)>(f: Req -> Resp, g: Req -> Resp, reqs: iset<Req>) {
    forall r :: r in reqs ==> f(r) == g(r)
  }

  /** On requests of `before` the middleware only runs the rest of the chain on requests of `after`:
      its answer depends on nothing else of the rest.  It may change the request and the response. */
  ghost predicate Forwards<Req(!new), Resp(!new)>(mw: Middleware<Req, Resp>, before: iset<Req>, after: iset<Req>) {
    forall r, f: Req -> Resp, g: Req -> Resp :: r in before && SameOn(f, g, after) ==> mw(r, f) == mw(r, g)
  }

  /** The requests of `stages[0]` reach the end of `outer` as requests of the last stage. */
  ghost predicate Leads<Req(!new), Resp(!new)>(outer: seq<Middleware<Req, Resp>>, stages: seq<iset<Req>>) {
    && |stages| == |outer| + 1
    && forall i :: 0 <= i < |outer| ==> Forwards(outer[i], stages[i], stages[i + 1])
  }

  /** The outer middlewares only see what the rest answers to the requests that reach it. */
  lemma {:induction false} OuterSeesOnly<Req(!new), Resp(!new)>(
    outer: seq<Middleware<Req, Resp>>, stages: seq<iset<Req>>, f: Req -> Resp, g: Req -> Resp)
    requires Leads(outer, stages) && SameOn(f, g, stages[|outer|])
    ensures SameOn(Chain(outer, f), Chain(outer, g), stages[0])
    decreases |outer|
  {
    if outer != [] {
      OuterSeesOnly(outer[1..], stages[1..], f, g);
      assert Forwards(outer[0], stages[0], stages[1]);
    }
  }

  /** Whatever the outer middlewares do to requests and responses: on requests that reach `mw` as ones
      it short-circuits, what is registered inside it, handler included, does not show. */
  lemma ShortCircuitSkips<Req(!new), Resp(!new)>(
    outer: seq<Middleware<Req, Resp>>, mw: Middleware<Req, Resp>, inner: seq<Middleware<Req, Resp>>,
    inner': seq<Middleware<Req, Resp>>, core: Req -> Resp, core': Req -> Resp, stages: seq<iset<Req>>)
    requires Leads(outer, stages) && forall r :: r in stages[|outer|] ==> ShortCircuits(mw, r)
    ensures SameOn(Chain(outer + [mw] + inner, core), Chain(outer + [mw] + inner', core'), stages[0])
  {
    ChainConcat(outer + [mw], inner, core);
    ChainConcat(outer + [mw], inner', core');
    ChainConcat(outer, [mw], Chain(inner, core));
    ChainConcat(outer, [mw], Chain(inner', core'));
    var f, g := Wrap(mw, Chain(inner, core)), Wrap(mw, Chain(inner', core'));
    forall r | r in stages[|outer|] ensures f(r) == g(r) { assert ShortCircuits(mw, r); }
    assert Chain([mw], Chain(inner, core)) == f && Chain([mw], Chain(inner', core')) == g;
    OuterSeesOnly(outer, stages, f, g);
  }

  predicate IsRequest<Req>(r: Req) { true }

  ghost function AllRequests<Req(!new)>(): iset<Req> { iset r: Req | IsRequest(r) }

  /** A middleware that only applies the rest of the chain. */
  ghost predicate Extensional<Req(!new), Resp(!new)>(mw: Middleware<Req, Resp>) {
    Forwards(mw, AllRequests<Req>(), AllRequests<Req>())
  }

  /** In particular a middleware that short-circuits every request hides everything inside it, behind
      any middlewares that only apply the rest of the chain. */
  lemma ShortCircuitHidesAll<Req(!new), Resp(!new)>(
    outer: seq<Middleware<Req, Resp>>, mw: Middleware<Req, Resp>, inner: seq<Middleware<Req, Resp>>,
    inner': seq<Middleware<Req, Resp>>, core: Req -> Resp, core': Req -> Resp, req: Req)
    requires forall i :: 0 <= i < |outer| ==> Extensional(outer[i])
    requires forall r :: ShortCircuits(mw, r)
    ensures Chain(outer + [mw] + inner, core)(req) == Chain(outer + [mw] + inner', core')(req)
  {
    var all := AllRequests<Req>();
    var stages := seq(|outer| + 1, _ => all);
    forall i | 0 <= i < |outer| ensures Forwards(outer[i], stages[i], stages[i + 1]) {
      assert Extensional(outer[i]);
    }
    ShortCircuitSkips(outer, mw, inner, inner', core, core', stages);
    assert IsRequest(req) && req in stages[0];
  }

  /** Stacks compose: registering `a` and then `b` wraps `b`'s chain in `a`. */
  lemma {:induction false} ChainConcat<Req, Resp>(
    a: seq<Middleware<Req, Resp>>, b: seq<Middleware<Req, Resp>>, core: Req -> Resp)
    ensures Chain(a + b, core) == Chain(a, Chain(b, core))
  {
    if a == [] {
      assert a + b == b;
    } else {
      assert (a + b)[1..] == a[1..] + b;
      ChainConcat(a[1..], b, core);
    }
  }
}
