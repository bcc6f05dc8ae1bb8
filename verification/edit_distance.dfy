/** The two-row edit distance of the command line, and what it measures. */
module EditDistance {
  import opened Wrappers

  function Min(a: nat, b: nat): nat { if a < b then a else b }

  ghost function Cost(x: char, y: char): nat { if x == y then 0 else 1 }

  ghost function Init(s: string): string
    requires s != ""
  {
    s[..|s| - 1]
  }

  ghost function Last(s: string): char
    requires s != ""
  {
    s[|s| - 1]
  }

  /** The recursive Levenshtein distance. */
  ghost function Lev(a: string, b: string): nat
    decreases |a| + |b|
  {
    if a == "" then |b|
    else if b == "" then |a|
    else Min(Min(Lev(Init(a), Init(b)) + Cost(Last(a), Last(b)), Lev(Init(a), b) + 1), Lev(a, Init(b)) + 1)
  }

  /** The distance of two prefixes. */
  ghost function Cell(a: string, b: string, i: nat, j: nat): nat
    requires i <= |a| && j <= |b|
  {
    Lev(a[..i], b[..j])
  }

  lemma CellStep(a: string, b: string, i: nat, j: nat)
    requires i < |a| && j < |b|
    ensures Cell(a, b, i + 1, j + 1) ==
      Min(Min(Cell(a, b, i, j) + Cost(a[i], b[j]), Cell(a, b, i, j + 1) + 1), Cell(a, b, i + 1, j) + 1)
  {
    assert Init(a[..i + 1]) == a[..i] && Init(b[..j + 1]) == b[..j];
  }

  lemma CellEdges(a: string, b: string, n: nat)
    ensures n <= |b| ==> Cell(a, b, 0, n) == n
    ensures n <= |a| ==> Cell(a, b, n, 0) == n
    ensures Cell(a, b, |a|, |b|) == Lev(a, b)
  {
    assert a[..|a|] == a && b[..|b|] == b;
  }

  /** The first `n` entries of row `i` of the table. */
  ghost predicate RowUpTo(row: seq<nat>, a: string, b: string, i: nat, n: nat) {
    i <= |a| && n <= |b| + 1 && n <= |row| && forall j :: 0 <= j < n ==> row[j] == Cell(a, b, i, j)
  }

  /** `edit_distance`: two rows, overwritten in place and swapped. */
  method Distance(a: string, b: string) returns (d: nat)
    ensures d == Lev(a, b)
  {
    hide Lev, Cell;
    var prev := new nat[|b| + 1](j => j);
    var cur := new nat[|b| + 1](_ => 0);
    forall j: nat | j <= |b| ensures Cell(a, b, 0, j) == j { CellEdges(a, b, j); }
    for i := 0 to |a|
      invariant prev != cur && fresh(prev) && fresh(cur)
      invariant prev.Length == cur.Length == |b| + 1
      invariant RowUpTo(prev[..], a, b, i, |b| + 1)
    {
      cur[0] := i + 1;
      CellEdges(a, b, i + 1);
      FillRow(a, b, i, prev, cur);
      prev, cur := cur, prev;
    }
    CellEdges(a, b, 0);
    d := prev[|b|];
  }

  /** The inner loop: row `i + 1` from row `i`. */
  method FillRow(a: string, b: string, i: nat, prev: array<nat>, cur: array<nat>)
    requires i < |a| && prev != cur && prev.Length == cur.Length == |b| + 1
    requires RowUpTo(prev[..], a, b, i, |b| + 1) && RowUpTo(cur[..], a, b, i + 1, 1)
    modifies cur
    ensures RowUpTo(cur[..], a, b, i + 1, |b| + 1)
  {
    hide Lev, Cell;
    for j := 0 to |b|
      invariant RowUpTo(prev[..], a, b, i, |b| + 1)
      invariant RowUpTo(cur[..], a, b, i + 1, j + 1)
    {
      var cost := if a[i] != b[j] then 1 else 0;
      CellStep(a, b, i, j);
      cur[j + 1] := Min(Min(prev[j] + cost, prev[j + 1] + 1), cur[j] + 1);
    }
  }

  // ----- the metric laws -----

  lemma {:induction false} Symmetric(a: string, b: string)
    ensures Lev(a, b) == Lev(b, a)
    decreases |a| + |b|
  {
    if a != "" && b != "" {
      Symmetric(Init(a), Init(b));
      Symmetric(Init(a), b);
      Symmetric(a, Init(b));
    }
  }

  /** No shorter than the difference in length. */
  lemma {:induction false} LengthBound(a: string, b: string)
    ensures |a| <= |b| + Lev(a, b) && |b| <= |a| + Lev(a, b)
    decreases |a| + |b|
  {
    if a != "" && b != "" {
      LengthBound(Init(a), Init(b));
      LengthBound(Init(a), b);
      LengthBound(a, Init(b));
    }
  }

  /** Dropping one character costs at most one. */
  lemma StepBounds(a: string, b: string)
    ensures a != "" ==> Lev(a, b) <= Lev(Init(a), b) + 1
    ensures b != "" ==> Lev(a, b) <= Lev(a, Init(b)) + 1
    ensures a != "" && b != "" ==> Lev(a, b) <= Lev(Init(a), Init(b)) + Cost(Last(a), Last(b))
  {
  }

  lemma {:induction false} LongestBound(a: string, b: string)
    ensures Lev(a, b) <= |a| + |b|
    decreases |a| + |b|
  {
    if a != "" && b != "" { LongestBound(Init(a), b); }
  }

  lemma {:induction false} Triangle(a: string, b: string, c: string)
    ensures Lev(a, c) <= Lev(a, b) + Lev(b, c)
    decreases |a| + |b| + |c|
  {
    StepBounds(a, c);
    if b == "" {
      LongestBound(a, c);
    } else if a == "" {
      LengthBound(b, c);
    } else if c == "" {
      LengthBound(a, b);
    } else if Lev(a, b) == Lev(Init(a), b) + 1 {
      Triangle(Init(a), b, c);
    } else if Lev(b, c) == Lev(b, Init(c)) + 1 {
      Triangle(a, b, Init(c));
    } else if Lev(a, b) == Lev(a, Init(b)) + 1 {
      if Lev(b, c) == Lev(Init(b), c) + 1 { Triangle(a, Init(b), c); }
      else { Triangle(a, Init(b), Init(c)); }
    } else {
      if Lev(b, c) == Lev(Init(b), c) + 1 { Triangle(Init(a), Init(b), c); }
      else { Triangle(Init(a), Init(b), Init(c)); }
    }
  }

  // ----- the length of a shortest edit script -----

  datatype Edit = Insert(at: nat, c: char) | Delete(at: nat) | Replace(at: nat, c: char)

  /** One edit; `None` when its position lies outside the string. */
  ghost function ApplyEdit(e: Edit, s: string): Option<string> {
    match e
    case Insert(at, c) => if at <= |s| then Some(s[..at] + [c] + s[at..]) else None
    case Delete(at) => if at < |s| then Some(s[..at] + s[at + 1..]) else None
    case Replace(at, c) => if at < |s| then Some(s[..at] + [c] + s[at + 1..]) else None
  }

  ghost function ApplyScript(es: seq<Edit>, s: string): Option<string> {
    if es == [] then Some(s)
    else match ApplyEdit(es[0], s)
      case None => None
      case Some(t) => ApplyScript(es[1..], t)
  }

  lemma {:induction false} ScriptConcat(es: seq<Edit>, fs: seq<Edit>, s: string)
    ensures ApplyScript(es + fs, s) ==
      if ApplyScript(es, s).None? then None else ApplyScript(fs, ApplyScript(es, s).value)
  {
    if es == [] {
      assert es + fs == fs;
    } else {
      assert (es + fs)[1..] == es[1..] + fs;
      if ApplyEdit(es[0], s).Some? { ScriptConcat(es[1..], fs, ApplyEdit(es[0], s).value); }
    }
  }

  lemma EditLift(e: Edit, s: string, r: string)
    requires ApplyEdit(e, s).Some?
    ensures ApplyEdit(e, s + r) == Some(ApplyEdit(e, s).value + r)
  {
    var t := s + r;
    assert t[..e.at] == s[..e.at];
    match e
    case Insert(at, c) =>
      assert t[at..] == s[at..] + r;
      assert t[..at] + [c] + t[at..] == s[..at] + [c] + s[at..] + r;
    case Delete(at) =>
      assert t[at + 1..] == s[at + 1..] + r;
      assert t[..at] + t[at + 1..] == s[..at] + s[at + 1..] + r;
    case Replace(at, c) =>
      assert t[at + 1..] == s[at + 1..] + r;
      assert t[..at] + [c] + t[at + 1..] == s[..at] + [c] + s[at + 1..] + r;
  }

  /** A script keeps working when text is appended. */
  lemma {:induction false} ScriptLift(es: seq<Edit>, s: string, r: string)
    requires ApplyScript(es, s).Some?
    ensures ApplyScript(es, s + r) == Some(ApplyScript(es, s).value + r)
  {
    if es != [] {
      EditLift(es[0], s, r);
      ScriptLift(es[1..], ApplyEdit(es[0], s).value, r);
    }
  }

  lemma ScriptThen(es: seq<Edit>, e: Edit, s: string)
    requires ApplyScript(es, s).Some?
    ensures ApplyScript(es + [e], s) == ApplyEdit(e, ApplyScript(es, s).value)
  {
    ScriptConcat(es, [e], s);
    assert [e][1..] == [];
  }

  /** Delete the last character first. */
  lemma DropLast(a: string, es: seq<Edit>)
    requires a != ""
    ensures ApplyScript([Delete(|a| - 1)] + es, a) == ApplyScript(es, Init(a))
  {
    assert a[..|a| - 1] + a[|a|..] == Init(a);
    assert ([Delete(|a| - 1)] + es)[1..] == es;
  }

  /** Append the last character at the end. */
  lemma AddLast(a: string, b: string, es: seq<Edit>)
    requires b != "" && ApplyScript(es, a) == Some(Init(b))
    ensures ApplyScript(es + [Insert(|b| - 1, Last(b))], a) == Some(b)
  {
    ScriptThen(es, Insert(|b| - 1, Last(b)), a);
    assert Init(b)[..|b| - 1] + [Last(b)] + Init(b)[|b| - 1..] == b;
  }

  /** Edit the front, then the last character if it differs. */
  lemma MatchLast(a: string, b: string, es: seq<Edit>)
    requires a != "" && b != "" && ApplyScript(es, Init(a)) == Some(Init(b))
    ensures ApplyScript(es + if Last(a) == Last(b) then [] else [Replace(|b| - 1, Last(b))], a) == Some(b)
  {
    ScriptLift(es, Init(a), [Last(a)]);
    assert Init(a) + [Last(a)] == a && Init(b) + [Last(b)] == b;
    if Last(a) == Last(b) {
      assert es + [] == es;
    } else {
      ScriptThen(es, Replace(|b| - 1, Last(b)), a);
      var t := Init(b) + [Last(a)];
      assert t[..|b| - 1] + [Last(b)] + t[|b|..] == b;
    }
  }

  lemma EmptySides(a: string, b: string)
    ensures b == "" ==> Lev(a, b) == |a|
    ensures a == "" ==> Lev(a, b) == |b|
  {
  }

  /** There is a script of that length. */
  lemma {:induction false} ScriptExists(a: string, b: string) returns (es: seq<Edit>)
    ensures ApplyScript(es, a) == Some(b) && |es| == Lev(a, b)
    decreases |a| + |b|
  {
    EmptySides(a, b);
    if a == "" && b == "" {
      es := [];
    } else if a != "" && (b == "" || Lev(a, b) == Lev(Init(a), b) + 1) {
      EmptySides(Init(a), b);
      var fs := ScriptExists(Init(a), b);
      DropLast(a, fs);
      es := [Delete(|a| - 1)] + fs;
    } else if b != "" && (a == "" || Lev(a, b) == Lev(a, Init(b)) + 1) {
      EmptySides(a, Init(b));
      var fs := ScriptExists(a, Init(b));
      AddLast(a, b, fs);
      es := fs + [Insert(|b| - 1, Last(b))];
    } else {
      var fs := ScriptExists(Init(a), Init(b));
      MatchLast(a, b, fs);
      es := fs + if Last(a) == Last(b) then [] else [Replace(|b| - 1, Last(b))];
    }
  }

  lemma {:induction false} CommonSuffix(u: string, w: string, v: string)
    ensures Lev(u + v, w + v) <= Lev(u, w)
    decreases |v|
  {
    if v == "" {
      assert u + v == u && w + v == w;
    } else {
      assert Init(u + v) == u + Init(v) && Init(w + v) == w + Init(v);
      CommonSuffix(u, w, Init(v));
      StepBounds(u + v, w + v);
    }
  }

  lemma {:induction false} SelfDistance(a: string)
    ensures Lev(a, a) == 0
  {
    if a != "" { SelfDistance(Init(a)); }
  }

  /** Appending a character, or exchanging the last one. */
  lemma LastCharacter(u: string, x: char, y: char)
    ensures Lev(u, u + [x]) <= 1 && Lev(u + [x], u) <= 1 && Lev(u + [x], u + [y]) <= 1
  {
    SelfDistance(u);
    assert Init(u + [x]) == u && Init(u + [y]) == u;
    StepBounds(u, u + [x]);
    StepBounds(u + [x], u);
    StepBounds(u + [x], u + [y]);
  }

  /** One edit moves a string by at most one. */
  lemma OneEdit(e: Edit, s: string)
    requires ApplyEdit(e, s).Some?
    ensures Lev(s, ApplyEdit(e, s).value) <= 1
  {
    var u := s[..e.at];
    if e.Insert? {
      LastCharacter(u, e.c, e.c);
      CommonSuffix(u, u + [e.c], s[e.at..]);
      assert s == u + s[e.at..];
    } else {
      var x, v := s[e.at], s[e.at + 1..];
      assert s == u + [x] + v;
      LastCharacter(u, x, if e.Replace? then e.c else x);
      if e.Replace? { CommonSuffix(u + [x], u + [e.c], v); }
      else { CommonSuffix(u + [x], u, v); }
    }
  }

  /** No script is shorter. */
  lemma {:induction false} ScriptsAreLonger(es: seq<Edit>, a: string, b: string)
    requires ApplyScript(es, a) == Some(b)
    ensures Lev(a, b) <= |es|
    decreases |es|
  {
    if es == [] {
      SelfDistance(a);
    } else {
      var t := ApplyEdit(es[0], a).value;
      OneEdit(es[0], a);
      ScriptsAreLonger(es[1..], t, b);
      Triangle(a, t, b);
    }
  }

  /** `d` is the distance exactly when some script of `d` edits turns `a` into `b` and none shorter does. */
  lemma ShortestScript(a: string, b: string, d: nat)
    ensures d == Lev(a, b) <==>
      && (exists es :: |es| == d && ApplyScript(es, a) == Some(b))
      && (forall es :: ApplyScript(es, a) == Some(b) ==> d <= |es|)
  {
    var best := ScriptExists(a, b);
    forall es | ApplyScript(es, a) == Some(b) ensures Lev(a, b) <= |es| { ScriptsAreLonger(es, a, b); }
  }

  lemma {:induction false} ZeroExact(a: string, b: string)
    ensures Lev(a, b) == 0 <==> a == b
  {
    SelfDistance(a);
    var es := ScriptExists(a, b);
  }
}
