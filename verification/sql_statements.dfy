/** How the raw pieces of a migration file become its statements. */
module SqlStatements {
  import opened Text
  import opened SqlSplit

  /** The piece is whitespace, the statement, whitespace. */
  ghost predicate Around(p: string, t: string) {
    exists pre, post :: AllWhitespace(pre) && AllWhitespace(post) && p == pre + t + post
  }

  ghost predicate Increasing(at: seq<nat>) { forall i, j :: 0 <= i < j < |at| ==> at[i] < at[j] }

  /** The statements stand one to one, in order, with the pieces at the positions `at`, which are those
      of the pieces that are not whitespace alone. */
  ghost predicate StandFor(ps: seq<string>, ts: seq<string>, at: seq<nat>) {
    && |at| == |ts| && Increasing(at)
    && (forall j :: 0 <= j < |at| ==> at[j] < |ps|)
    && (forall i :: 0 <= i < |ps| ==> (i in at <==> !AllWhitespace(ps[i])))
    && (forall j :: 0 <= j < |at| ==> ts[j] != "" && Trimmed(ts[j]) && Around(ps[at[j]], ts[j]))
  }

  // ----- trimming -----

  lemma {:induction false} LeadingWhitespace(pre: string, s: string)
    requires AllWhitespace(pre) && s != "" && !IsWhitespace(s[0])
    ensures TrimStart(pre + s) == s
  {
    if pre == "" {
      assert pre + s == s;
    } else {
      assert (pre + s)[1..] == pre[1..] + s && IsWhitespace(pre[0]);
      assert forall i :: 0 <= i < |pre[1..]| ==> pre[1..][i] == pre[i + 1];
      LeadingWhitespace(pre[1..], s);
    }
  }

  lemma {:induction false} TrailingWhitespace(s: string, post: string)
    requires AllWhitespace(post) && s != "" && !IsWhitespace(s[|s| - 1])
    ensures TrimEnd(s + post) == s
  {
    if post == "" {
      assert s + post == s;
    } else {
      var n := |post| - 1;
      assert (s + post)[..|s| + n] == s + post[..n] && (s + post)[|s| + n] == post[n] && IsWhitespace(post[n]);
      TrailingWhitespace(s, post[..n]);
    }
  }

  /** What stands between whitespace is what trimming finds. */
  lemma TrimFinds(p: string, t: string)
    requires t != "" && Trimmed(t)
    ensures Around(p, t) <==> Trim(p) == t
  {
    if Around(p, t) {
      var pre, post :| AllWhitespace(pre) && AllWhitespace(post) && p == pre + t + post;
      assert p == pre + (t + post) && (t + post)[0] == t[0];
      LeadingWhitespace(pre, t + post);
      TrailingWhitespace(t, post);
    }
    if Trim(p) == t {
      var pre, post := TrimSplit(p);
    }
  }

  // ----- statements -----

  lemma {:induction false} CleanConcat(a: seq<string>, b: seq<string>)
    ensures Clean(a + b) == Clean(a) + Clean(b)
  {
    if a == [] {
      assert a + b == b;
    } else {
      assert (a + b)[1..] == a[1..] + b;
      CleanConcat(a[1..], b);
    }
  }

  lemma CleanSnoc(ps: seq<string>)
    requires ps != []
    ensures var front, p := ps[..|ps| - 1], ps[|ps| - 1];
      Clean(ps) == if AllWhitespace(p) then Clean(front) else Clean(front) + [Trim(p)]
  {
    var front, p := ps[..|ps| - 1], ps[|ps| - 1];
    assert ps == front + [p] && [p][1..] == [];
    CleanConcat(front, [p]);
    TrimBlank(p);
  }

  lemma EmptyStands()
    ensures StandFor([], Clean([]), [])
  {
  }

  lemma {:induction false} CleanStands(ps: seq<string>) returns (at: seq<nat>)
    ensures StandFor(ps, Clean(ps), at)
    decreases |ps|
  {
    hide StandFor, Clean, AllWhitespace, Trim;
    if ps == [] {
      EmptyStands();
      at := [];
    } else {
      var front, p := ps[..|ps| - 1], ps[|ps| - 1];
      at := CleanStands(front);
      CleanSnoc(ps);
      if AllWhitespace(p) {
        SkipStands(ps, Clean(front), at);
      } else {
        GrowStands(ps, Clean(front), at);
        at := at + [|ps| - 1];
      }
    }
  }

  lemma SkipStands(ps: seq<string>, ts: seq<string>, at: seq<nat>)
    requires ps != [] && StandFor(ps[..|ps| - 1], ts, at) && AllWhitespace(ps[|ps| - 1])
    ensures StandFor(ps, ts, at)
  {
    hide Around, AllWhitespace, Trimmed;
    var front := ps[..|ps| - 1];
    assert forall i :: 0 <= i < |front| ==> front[i] == ps[i];
    assert |front| !in at;
  }

  lemma GrowStands(ps: seq<string>, ts: seq<string>, at: seq<nat>)
    requires ps != [] && StandFor(ps[..|ps| - 1], ts, at) && !AllWhitespace(ps[|ps| - 1])
    ensures StandFor(ps, ts + [Trim(ps[|ps| - 1])], at + [|ps| - 1])
  {
    var n, t := |ps| - 1, Trim(ps[|ps| - 1]);
    TrimBlank(ps[n]);
    var pre, post := TrimSplit(ps[n]);
    TrimFinds(ps[n], t);
    hide Trim, Around, Trimmed;
    var ats := at + [n];
    forall i | 0 <= i < |ps| ensures i in ats <==> !AllWhitespace(ps[i]) {
      if i < n { assert ps[..n][i] == ps[i]; }
    }
    forall j | 0 <= j < |at| ensures Around(ps[at[j]], ts[j]) { assert ps[..n][at[j]] == ps[at[j]]; }
  }

  lemma DropBlank(ps: seq<string>, ts: seq<string>, at: seq<nat>)
    requires ps != [] && StandFor(ps, ts, at) && AllWhitespace(ps[|ps| - 1])
    ensures StandFor(ps[..|ps| - 1], ts, at)
  {
    hide Around, AllWhitespace, Trimmed;
    assert |ps| - 1 !in at;
    assert forall j :: 0 <= j < |at| ==> at[j] in at;
  }

  /** The last position is the last piece, if that is not whitespace alone. */
  lemma LastPosition(at: seq<nat>, n: nat)
    requires Increasing(at) && n in at && forall j :: 0 <= j < |at| ==> at[j] <= n
    ensures at != [] && at[|at| - 1] == n
    ensures forall i: nat :: i < n ==> (i in at <==> i in at[..|at| - 1])
  {
    assert at == at[..|at| - 1] + [at[|at| - 1]];
  }

  lemma DropStatement(ps: seq<string>, ts: seq<string>, at: seq<nat>)
    requires ps != [] && StandFor(ps, ts, at) && !AllWhitespace(ps[|ps| - 1])
    ensures at != [] && ts[|ts| - 1] == Trim(ps[|ps| - 1])
    ensures StandFor(ps[..|ps| - 1], ts[..|ts| - 1], at[..|at| - 1])
  {
    hide Around, AllWhitespace, Trimmed, Trim;
    LastPosition(at, |ps| - 1);
    TrimFinds(ps[|ps| - 1], ts[|ts| - 1]);
  }

  lemma ShrinkStands(ps: seq<string>, ts: seq<string>, at: seq<nat>)
    requires ps != [] && StandFor(ps, ts, at)
    ensures |at| == |ts| && (AllWhitespace(ps[|ps| - 1]) ==> StandFor(ps[..|ps| - 1], ts, at))
    ensures !AllWhitespace(ps[|ps| - 1]) ==>
      && ts != [] && ts[|ts| - 1] == Trim(ps[|ps| - 1])
      && StandFor(ps[..|ps| - 1], ts[..|ts| - 1], at[..|at| - 1])
  {
    assert |at| == |ts|;
    hide StandFor, AllWhitespace, Trim;
    if AllWhitespace(ps[|ps| - 1]) { DropBlank(ps, ts, at); } else { DropStatement(ps, ts, at); }
  }

  lemma {:induction false} FewPositions(at: seq<nat>, n: nat)
    requires Increasing(at) && forall j :: 0 <= j < |at| ==> at[j] < n
    ensures |at| <= n
  {
    if at != [] { FewPositions(at[..|at| - 1], at[|at| - 1]); }
  }

  lemma NothingStands(ts: seq<string>, at: seq<nat>)
    requires StandFor([], ts, at)
    ensures ts == Clean([])
  {
    FewPositions(at, 0);
  }

  lemma {:induction false} StandsAreClean(ps: seq<string>, ts: seq<string>, at: seq<nat>)
    requires StandFor(ps, ts, at)
    ensures ts == Clean(ps)
    decreases |ps|
  {
    hide StandFor, Clean, AllWhitespace, Trim;
    if ps == [] {
      NothingStands(ts, at);
    } else {
      ShrinkStands(ps, ts, at);
      CleanSnoc(ps);
      if AllWhitespace(ps[|ps| - 1]) {
        StandsAreClean(ps[..|ps| - 1], ts, at);
      } else {
        StandsAreClean(ps[..|ps| - 1], ts[..|ts| - 1], at[..|at| - 1]);
        assert ts == ts[..|ts| - 1] + [ts[|ts| - 1]];
      }
    }
  }

  /** `ps` is the text cut at every semicolon in code and at no other. */
  ghost predicate CutInto(s: string, ps: seq<string>) {
    ps != [] && Join(ps) == s && NoCuts(ps) && EndInCode(ps)
  }

  /** The statements of a file: cut it at every semicolon in code and at no other; one statement stands
      for each piece that is not whitespace alone, in order, with the whitespace around it gone. */
  lemma StatementsExact(s: string, ts: seq<string>)
    ensures ts == Statements(s) <==> exists ps, at :: CutInto(s, ps) && StandFor(ps, ts, at)
  {
    hide Pieces, Clean, StandFor;
    if ts == Statements(s) {
      var ps := Pieces(Code, [], s);
      CutsExact(s, ps);
      var at := CleanStands(ps);
      assert CutInto(s, ps) && StandFor(ps, ts, at);
    }
    if exists ps, at :: CutInto(s, ps) && StandFor(ps, ts, at) {
      var ps, at :| CutInto(s, ps) && StandFor(ps, ts, at);
      CutsExact(s, ps);
      StandsAreClean(ps, ts, at);
    }
  }

  // ----- padded statements -----

  lemma {:induction false} WhitespaceHasNoCut(q: Lex, w: string)
    requires AllWhitespace(w)
    ensures NoCut(q, w)
    decreases |w|
  {
    if w != "" {
      assert IsWhitespace(w[0]);
      assert forall i :: 0 <= i < |w[1..]| ==> w[1..][i] == w[i + 1];
      WhitespaceHasNoCut(Next(q, w[0]), w[1..]);
    }
  }

  lemma PaddedPiece(p: string, t: string)
    requires Statement(t) && Around(p, t)
    ensures NoCut(Code, p) && !AllWhitespace(p)
  {
    var pre, post :| AllWhitespace(pre) && AllWhitespace(post) && p == pre + t + post;
    NoCutAppend(Code, pre + t, post);
    NoCutAppend(Code, pre, t);
    WhitespaceIsCode(pre);
    WhitespaceHasNoCut(Code, pre);
    WhitespaceHasNoCut(After(Code, pre + t), post);
    assert p[|pre|] == t[0];
  }

  lemma AllStand(ps: seq<string>, ts: seq<string>) returns (at: seq<nat>)
    requires |ps| == |ts|
    requires forall i :: 0 <= i < |ps| ==> !AllWhitespace(ps[i]) && Around(ps[i], ts[i])
    requires forall i :: 0 <= i < |ts| ==> ts[i] != "" && Trimmed(ts[i])
    ensures StandFor(ps, ts, at)
  {
    hide Around, Trimmed, AllWhitespace;
    at := seq(|ps|, i => i);
    forall i | 0 <= i < |ps| ensures i in at { assert at[i] == i; }
  }

  /** Statements padded with whitespace on either side, all but the last ending in code with it, are
      what their join with `;` splits into. */
  lemma PaddedRoundTrip(ps: seq<string>, ts: seq<string>)
    requires ps != [] && |ps| == |ts| && AllStatements(ts) && EndInCode(ps)
    requires forall i :: 0 <= i < |ps| ==> Around(ps[i], ts[i])
    ensures Statements(Join(ps)) == ts
  {
    forall i | 0 <= i < |ps| ensures NoCut(Code, ps[i]) && !AllWhitespace(ps[i]) && Trimmed(ts[i]) && ts[i] != "" {
      assert Statement(ts[i]);
      hide AllStatements;
      PaddedPiece(ps[i], ts[i]);
    }
    hide NoCut, Around, Trimmed, AllWhitespace, AllStatements, EndInCode, Join, StandFor, Statements;
    assert NoCuts(ps);
    var at := AllStand(ps, ts);
    assert CutInto(Join(ps), ps);
    StatementsExact(Join(ps), ts);
  }
}
