/** Splitting a migration file into statements, and the one-character-at-a-time lexer it refines. */
module SqlSplit {
  import opened Text

  // ----- the reference lexer -----

  /** `Dash` and `Slash` are code right after a `-` or `/` that may open a comment; `Star` is a block
      comment right after a `*` that may close it. */
  datatype Lex = Code | Dash | Slash | Literal | Line | Block | Star {
    predicate InCode() { Code? || Dash? || Slash? }
  }

  function FromCode(c: char): Lex {
    if c == '\'' then Literal else if c == '-' then Dash else if c == '/' then Slash else Code
  }

  function Next(q: Lex, c: char): Lex {
    match q
    case Code => FromCode(c)
    case Dash => if c == '-' then Line else FromCode(c)
    case Slash => if c == '*' then Block else FromCode(c)
    case Literal => if c == '\'' then Code else Literal
    case Line => if c == '\n' then Code else Line
    case Block => if c == '*' then Star else Block
    case Star => if c == '/' then Code else if c == '*' then Star else Block
  }

  ghost function After(q: Lex, s: string): Lex
    decreases |s|
  {
    if s == [] then q else After(Next(q, s[0]), s[1..])
  }

  /** The raw pieces between the semicolons met in code; `cur` is the piece begun so far. */
  ghost function Pieces(q: Lex, cur: string, s: string): (ps: seq<string>)
    ensures ps != []
    decreases |s|
  {
    if s == [] then [cur]
    else if q.InCode() && s[0] == ';' then [cur] + Pieces(Code, [], s[1..])
    else Pieces(Next(q, s[0]), cur + [s[0]], s[1..])
  }

  /** Trim each piece and drop the empty ones. */
  function Clean(ps: seq<string>): seq<string> {
    if ps == [] then []
    else (if Trim(ps[0]) != "" then [Trim(ps[0])] else []) + Clean(ps[1..])
  }

  ghost function Statements(s: string): seq<string> { Clean(Pieces(Code, [], s)) }

  lemma CleanCons(p: string, ps: seq<string>)
    ensures Clean([p] + ps) == Clean([p]) + Clean(ps)
  {
  }

  // ----- the splitter -----

  /** One character at position `i`. */
  lemma PiecesAt(q: Lex, cur: string, sql: string, i: nat)
    requires i < |sql|
    ensures Pieces(q, cur, sql[i..]) ==
      if q.InCode() && sql[i] == ';' then [cur] + Pieces(Code, [], sql[i + 1..])
      else Pieces(Next(q, sql[i]), cur + [sql[i]], sql[i + 1..])
  {
  }

  /** The piece that a semicolon or the end of the text closes. */
  method Close(out: seq<string>, current: string) returns (longer: seq<string>)
    ensures longer == out + Clean([current])
  {
    var trimmed := Trim(current);
    longer := if trimmed != "" then out + [trimmed] else out;
  }

  lemma Closed(out: seq<string>, current: string, rest: seq<string>)
    ensures out + Clean([current]) + Clean(rest) == out + Clean([current] + rest)
  {
    CleanCons(current, rest);
  }

  /** `split_sql`.  `i` is the position of the character iterator. */
  method SplitSql(sql: string) returns (out: seq<string>)
    ensures out == Statements(sql)
  {
    assert sql[0..] == sql;
    hide Pieces, Clean;
    out := [];
    var current, i := "", 0;
    while i < |sql|
      invariant 0 <= i <= |sql|
      invariant out + Clean(Pieces(Code, current, sql[i..])) == Statements(sql)
    {
      var c := sql[i];
      PiecesAt(Code, current, sql, i);
      i := i + 1;
      if c == '\'' {
        current, i := TakeLiteral(sql, current + [c], i);
      } else if c == '-' && i < |sql| && sql[i] == '-' {
        current, i := TakeLineComment(sql, current + [c], i);
      } else if c == '/' && i < |sql| && sql[i] == '*' {
        PiecesAt(Slash, current + [c], sql, i);
        assert current + [c] + [sql[i]] == current + [c, sql[i]];
        current, i := TakeBlockComment(sql, current + [c, sql[i]], i + 1);
      } else if c == ';' {
        Closed(out, current, Pieces(Code, [], sql[i..]));
        out := Close(out, current);
        current := "";
      } else {
        OpenerIsCode(c, current + [c], sql[i..]);
        current := current + [c];
      }
    }
    EndOfText(current);
    out := Close(out, current);
  }

  lemma EndOfText(cur: string)
    ensures Pieces(Code, cur, []) == [cur]
  {
  }

  /** A `-` or `/` that opens no comment is ordinary code. */
  lemma OpenerIsCode(c: char, cur: string, s: string)
    requires !(c == '-' && s != [] && s[0] == '-') && !(c == '/' && s != [] && s[0] == '*')
    requires c != '\''
    ensures Pieces(Next(Code, c), cur, s) == Pieces(Code, cur, s)
  {
  }

  // ----- where a literal or a comment ends -----

  /** Text inside a literal: no quote but doubled ones. */
  ghost predicate LiteralBody(s: string) {
    || s == ""
    || (s[|s| - 1] != '\'' && LiteralBody(s[..|s| - 1]))
    || (|s| >= 2 && s[|s| - 2..] == "''" && LiteralBody(s[..|s| - 2]))
  }

  /** `*` and `/` side by side. */
  ghost predicate HasClose(s: string) { exists i :: 0 <= i < |s| - 1 && s[i] == '*' && s[i + 1] == '/' }

  /** `sql[start..i]` is the rest of the literal: up to the first quote that no quote follows, or to
      the end of the text. */
  ghost predicate LiteralEnds(sql: string, start: nat, i: nat)
    requires start <= i <= |sql|
  {
    || (i == |sql| && LiteralBody(sql[start..i]))
    || (start < i && sql[i - 1] == '\'' && (i < |sql| ==> sql[i] != '\'') && LiteralBody(sql[start..i - 1]))
  }

  /** `sql[start..i]` is the rest of the line: up to and with the first newline, or to the end. */
  ghost predicate LineEnds(sql: string, start: nat, i: nat)
    requires start <= i <= |sql|
  {
    || (i == |sql| && '\n' !in sql[start..i])
    || (start < i && sql[i - 1] == '\n' && '\n' !in sql[start..i - 1])
  }

  /** `sql[start..i]` is the rest of the block comment: up to and with the first `*` and `/` side by
      side, or to the end. */
  ghost predicate BlockEnds(sql: string, start: nat, i: nat)
    requires start <= i <= |sql|
  {
    || (i == |sql| && !HasClose(sql[start..i]))
    || (start + 2 <= i && sql[i - 2..i] == "*/" && !HasClose(sql[start..i - 1]))
  }

  /** The rest of a string literal; a doubled quote stays inside it. */
  method TakeLiteral(sql: string, begun: string, start: nat) returns (current: string, i: nat)
    requires start <= |sql|
    ensures start <= i <= |sql| && current == begun + sql[start..i]
    ensures LiteralEnds(sql, start, i)
    ensures Pieces(Code, current, sql[i..]) == Pieces(Literal, begun, sql[start..])
  {
    hide Pieces, LiteralBody;
    current, i := begun, start;
    EmptyBody();
    while i < |sql|
      invariant start <= i <= |sql| && current == begun + sql[start..i]
      invariant LiteralBody(sql[start..i])
      invariant Pieces(Literal, current, sql[i..]) == Pieces(Literal, begun, sql[start..])
    {
      var c := sql[i];
      PiecesAt(Literal, current, sql, i);
      BodyGrows(sql, start, i);
      TakeOne(begun, sql, start, i);
      current, i := current + [c], i + 1;
      if c == '\'' {
        if i < |sql| && sql[i] == '\'' {
          PiecesAt(Code, current, sql, i);
          TakeOne(begun, sql, start, i);
          current, i := current + ['\''], i + 1;
        } else {
          return;
        }
      }
    }
    assert sql[i..] == [];
    EndsAnywhere(Literal, Code, current);
  }

  lemma TakeOne(begun: string, sql: string, start: nat, i: nat)
    requires start <= i < |sql|
    ensures begun + sql[start..i] + [sql[i]] == begun + sql[start..i + 1]
    ensures sql[start..i + 1] == sql[start..i] + [sql[i]]
  {
  }

  lemma EmptyBody()
    ensures LiteralBody("")
  {
  }

  lemma BodyPlus(s: string, c: char)
    requires LiteralBody(s)
    ensures c != '\'' ==> LiteralBody(s + [c])
  {
    assert (s + [c])[..|s|] == s;
  }

  lemma BodyPlusTwo(s: string, q: char)
    requires LiteralBody(s) && q == '\''
    ensures LiteralBody(s + [q] + [q])
  {
    var t := s + [q] + [q];
    assert t[..|s|] == s && t[|s|..] == "''";
  }

  lemma BodyGrows(sql: string, start: nat, i: nat)
    requires start <= i < |sql| && LiteralBody(sql[start..i])
    ensures sql[i] != '\'' ==> LiteralBody(sql[start..i + 1])
    ensures i + 1 < |sql| && sql[i] == sql[i + 1] == '\'' ==> LiteralBody(sql[start..i + 2])
  {
    hide LiteralBody;
    TakeOne("", sql, start, i);
    BodyPlus(sql[start..i], sql[i]);
    if i + 1 < |sql| && sql[i] == sql[i + 1] == '\'' {
      TakeOne("", sql, start, i + 1);
      BodyPlusTwo(sql[start..i], sql[i]);
    }
  }

  /** At the end of the text every state yields the one piece. */
  lemma EndsAnywhere(q: Lex, r: Lex, cur: string)
    ensures Pieces(q, cur, []) == Pieces(r, cur, [])
  {
  }

  method TakeLineComment(sql: string, begun: string, start: nat) returns (current: string, i: nat)
    requires start < |sql| && sql[start] == '-'
    ensures start <= i <= |sql| && current == begun + sql[start..i]
    ensures LineEnds(sql, start, i)
    ensures Pieces(Code, current, sql[i..]) == Pieces(Dash, begun, sql[start..])
  {
    hide Pieces;
    PiecesAt(Dash, begun, sql, start);
    current, i := begun + [sql[start]], start + 1;
    while i < |sql|
      invariant start < i <= |sql| && current == begun + sql[start..i]
      invariant '\n' !in sql[start..i]
      invariant Pieces(Line, current, sql[i..]) == Pieces(Dash, begun, sql[start..])
    {
      var c := sql[i];
      PiecesAt(Line, current, sql, i);
      TakeOne(begun, sql, start, i);
      current, i := current + [c], i + 1;
      if c == '\n' { return; }
    }
    assert sql[i..] == [];
    EndsAnywhere(Line, Code, current);
  }

  method TakeBlockComment(sql: string, begun: string, start: nat) returns (current: string, i: nat)
    requires start <= |sql|
    ensures start <= i <= |sql| && current == begun + sql[start..i]
    ensures BlockEnds(sql, start, i)
    ensures Pieces(Code, current, sql[i..]) == Pieces(Block, begun, sql[start..])
  {
    hide Pieces, HasClose;
    current, i := begun, start;
    NoClose("");
    while i < |sql|
      invariant start <= i <= |sql| && current == begun + sql[start..i]
      invariant !HasClose(sql[start..i]) && (start < i < |sql| && sql[i - 1] == '*' ==> sql[i] != '/')
      invariant Pieces(Block, current, sql[i..]) == Pieces(Block, begun, sql[start..])
    {
      var c := sql[i];
      PiecesAt(Block, current, sql, i);
      CloseAt(sql, start, i);
      TakeOne(begun, sql, start, i);
      current, i := current + [c], i + 1;
      if c == '*' {
        if i < |sql| && sql[i] == '/' {
          PiecesAt(Star, current, sql, i);
          TakeOne(begun, sql, start, i);
          assert sql[i - 1..i + 1] == "*/";
          current, i := current + ['/'], i + 1;
          return;
        }
        StarIsBlock(current, sql[i..]);
      }
    }
    assert sql[i..] == [];
    EndsAnywhere(Block, Code, current);
  }

  lemma NoClose(s: string)
    requires |s| < 2
    ensures !HasClose(s)
  {
  }

  /** One more character closes only as a `/` right after a `*`. */
  lemma CloseAt(sql: string, start: nat, i: nat)
    requires start <= i < |sql|
    ensures HasClose(sql[start..i + 1]) <==> HasClose(sql[start..i]) || (start < i && sql[i - 1..i + 1] == "*/")
  {
    var s, t := sql[start..i], sql[start..i + 1];
    assert forall k :: 0 <= k < |s| ==> s[k] == t[k];
    if start < i && sql[i - 1..i + 1] == "*/" { assert t[i - start - 1] == '*' && t[i - start] == '/'; }
    if HasClose(s) {
      var k :| 0 <= k < |s| - 1 && s[k] == '*' && s[k + 1] == '/';
      assert t[k] == '*' && t[k + 1] == '/';
    }
    if HasClose(t) && !(start < i && sql[i - 1..i + 1] == "*/") {
      var k :| 0 <= k < |t| - 1 && t[k] == '*' && t[k + 1] == '/';
      assert k + 1 < |s| && s[k] == '*' && s[k + 1] == '/';
    }
  }

  /** What leaves code, and what comes back to it. */
  lemma Openers()
    ensures After(Code, "'") == Literal && After(Code, "--") == Line && After(Code, "/*") == Block
    ensures After(Literal, "'") == Code && After(Line, "\n") == Code && After(Block, "*/") == Code
    ensures forall c :: c !in {'\'', '-', '/'} ==> After(Code, [c]) == Code
    ensures forall c :: c !in {'-', '\'', '/'} ==> After(Code, ['-', c]) == Code
    ensures forall c :: c !in {'*', '\'', '-', '/'} ==> After(Code, ['/', c]) == Code
  {
    AfterOne(Code, '\'');
    AfterOne(Literal, '\'');
    AfterOne(Line, '\n');
    forall c ensures After(Code, [c]) == Next(Code, c) { AfterOne(Code, c); }
    AfterTwo(Code, '-', '-');
    AfterTwo(Code, '/', '*');
    AfterTwo(Block, '*', '/');
    forall c ensures After(Code, ['-', c]) == Next(Dash, c) && After(Code, ['/', c]) == Next(Slash, c) {
      AfterTwo(Code, '-', c);
      AfterTwo(Code, '/', c);
    }
    hide After;
  }

  lemma AfterTwo(q: Lex, a: char, b: char)
    ensures After(q, [a, b]) == Next(Next(q, a), b)
  {
    assert [a, b][1..] == [b];
    AfterOne(Next(q, a), b);
  }

  lemma AfterOne(q: Lex, a: char)
    ensures After(q, [a]) == Next(q, a)
  {
    assert [a][1..] == [];
  }

  // The slash right after the star of an opener closes nothing.
  lemma SlashAfterOpener()
    ensures After(Code, "/*/").Block?
  {
    assert "/*/"[1..] == "*/" && "*/"[1..] == "/" && "/"[1..] == "";
  }

  /** A `*` that no `/` follows leaves the comment as it was. */
  lemma StarIsBlock(cur: string, s: string)
    requires s == [] || s[0] != '/'
    ensures Pieces(Star, cur, s) == Pieces(Block, cur, s)
  {
  }

  // ----- where the cuts are -----

  /** No semicolon of `s`, read from state `q`, is met in code. */
  ghost predicate NoCut(q: Lex, s: string)
    decreases |s|
  {
    s == [] || (!(q.InCode() && s[0] == ';') && NoCut(Next(q, s[0]), s[1..]))
  }

  function Join(ps: seq<string>): string {
    if ps == [] then "" else if |ps| == 1 then ps[0] else ps[0] + ";" + Join(ps[1..])
  }

  /** Every piece but the last ends where a semicolon would cut. */
  ghost predicate EndInCode(ps: seq<string>) {
    forall i :: 0 <= i < |ps| - 1 ==> After(Code, ps[i]).InCode()
  }

  ghost predicate NoCuts(ps: seq<string>) {
    forall i :: 0 <= i < |ps| ==> NoCut(Code, ps[i])
  }

  lemma JoinCons(p: string, ps: seq<string>)
    requires ps != []
    ensures Join([p] + ps) == p + ";" + Join(ps)
  {
    assert ([p] + ps)[1..] == ps;
  }

  lemma Unshift(a: string, s: string)
    requires s != ""
    ensures a + [s[0]] + s[1..] == a + s
  {
  }

  lemma PieceStep(q: Lex, cur: string, s: string)
    ensures s == "" ==> Pieces(q, cur, s) == [cur]
    ensures s != "" && q.InCode() && s[0] == ';' ==> Pieces(q, cur, s) == [cur] + Pieces(Code, [], s[1..])
    ensures s != "" && !(q.InCode() && s[0] == ';') ==>
      Pieces(q, cur, s) == Pieces(Next(q, s[0]), cur + [s[0]], s[1..])
  {
  }

  lemma {:induction false} PiecesJoin(q: Lex, cur: string, s: string)
    ensures Join(Pieces(q, cur, s)) == cur + s
    decreases |s|
  {
    PieceStep(q, cur, s);
    assert Join([cur]) == cur;
    hide Pieces, Join;
    if s == "" {
      assert cur + s == cur;
    } else {
      Unshift(cur, s);
      if q.InCode() && s[0] == ';' {
        PiecesJoin(Code, [], s[1..]);
        JoinCons(cur, Pieces(Code, [], s[1..]));
        assert [] + s[1..] == s[1..];
      } else {
        PiecesJoin(Next(q, s[0]), cur + [s[0]], s[1..]);
      }
    }
  }

  lemma {:induction false} AfterAppend(q: Lex, a: string, b: string)
    ensures After(q, a + b) == After(After(q, a), b)
    decreases |a|
  {
    if a == [] { assert a + b == b; }
    else { assert (a + b)[1..] == a[1..] + b; AfterAppend(Next(q, a[0]), a[1..], b); }
  }

  lemma {:induction false} NoCutAppend(q: Lex, a: string, b: string)
    ensures NoCut(q, a + b) <==> NoCut(q, a) && NoCut(After(q, a), b)
    decreases |a|
  {
    if a == [] { assert a + b == b; }
    else { assert (a + b)[1..] == a[1..] + b; NoCutAppend(Next(q, a[0]), a[1..], b); }
  }

  /** Text without a cut only extends the current piece. */
  lemma {:induction false} SkipNoCut(q: Lex, cur: string, a: string, r: string)
    requires NoCut(q, a)
    ensures Pieces(q, cur, a + r) == Pieces(After(q, a), cur + a, r)
    decreases |a|
  {
    if a == [] {
      assert a + r == r && cur + a == cur;
    } else {
      assert (a + r)[1..] == a[1..] + r && cur + [a[0]] + a[1..] == cur + a;
      SkipNoCut(Next(q, a[0]), cur + [a[0]], a[1..], r);
    }
  }

  lemma {:induction false} PiecesSound(q: Lex, cur: string, s: string)
    requires NoCut(Code, cur) && After(Code, cur) == q
    ensures NoCuts(Pieces(q, cur, s)) && EndInCode(Pieces(q, cur, s))
    decreases |s|
  {
    if s == [] {
    } else if q.InCode() && s[0] == ';' {
      PiecesSound(Code, [], s[1..]);
      var rest := Pieces(Code, [], s[1..]);
      forall i | 0 <= i < |rest| + 1 ensures NoCut(Code, ([cur] + rest)[i]) {}
    } else {
      NoCutAppend(Code, cur, [s[0]]);
      AfterAppend(Code, cur, [s[0]]);
      PiecesSound(Next(q, s[0]), cur + [s[0]], s[1..]);
    }
  }

  /** Pieces that hold no cut, all but the last ending in code, are what their join splits into. */
  lemma {:induction false} PiecesComplete(ps: seq<string>)
    requires ps != [] && NoCuts(ps) && EndInCode(ps)
    ensures Pieces(Code, [], Join(ps)) == ps
  {
    assert NoCut(Code, ps[0]);
    if |ps| == 1 {
      assert ps[0] + [] == ps[0] && [] + ps[0] == ps[0];
      SkipNoCut(Code, [], ps[0], []);
    } else {
      var rest := ps[1..];
      assert forall i :: 0 <= i < |rest| ==> rest[i] == ps[i + 1];
      PiecesComplete(rest);
      assert After(Code, ps[0]).InCode();
      assert Join(ps) == ps[0] + (";" + Join(rest)) && (";" + Join(rest))[1..] == Join(rest);
      assert [] + ps[0] == ps[0];
      SkipNoCut(Code, [], ps[0], ";" + Join(rest));
    }
  }

  /** The raw pieces of `s` are the only way to read `s` as pieces joined by `;` that are cut at
      every semicolon met in code and at no other. */
  lemma CutsExact(s: string, ps: seq<string>)
    ensures ps == Pieces(Code, [], s) <==>
      ps != [] && Join(ps) == s && NoCuts(ps) && EndInCode(ps)
  {
    PiecesJoin(Code, [], s);
    assert [] + s == s;
    PiecesSound(Code, [], s);
    if ps != [] && NoCuts(ps) && EndInCode(ps) { PiecesComplete(ps); }
  }

  // ----- statements -----

  ghost predicate Statement(t: string) { t != "" && Trimmed(t) && NoCut(Code, t) }

  lemma {:induction false} WhitespaceIsCode(pre: string)
    requires AllWhitespace(pre)
    ensures After(Code, pre) == Code
  {
    if pre != [] {
      assert IsWhitespace(pre[0]);
      forall i | 0 <= i < |pre[1..]| ensures IsWhitespace(pre[1..][i]) { assert pre[1..][i] == pre[i + 1]; }
      WhitespaceIsCode(pre[1..]);
    }
  }

  lemma TrimmedPiece(p: string)
    requires NoCut(Code, p) && Trim(p) != ""
    ensures Statement(Trim(p))
  {
    var pre, post := TrimSplit(p);
    NoCutAppend(Code, pre + Trim(p), post);
    NoCutAppend(Code, pre, Trim(p));
    WhitespaceIsCode(pre);
  }

  lemma {:induction false} CleanStatements(ps: seq<string>, t: string)
    requires NoCuts(ps) && t in Clean(ps)
    ensures Statement(t)
  {
    assert NoCut(Code, ps[0]);
    assert forall i :: 0 <= i < |ps[1..]| ==> ps[1..][i] == ps[i + 1];
    if Trim(ps[0]) != "" { TrimmedPiece(ps[0]); }
    if t in Clean(ps[1..]) { CleanStatements(ps[1..], t); }
  }

  lemma SingleStatement(t: string)
    requires Statement(t)
    ensures Statements(t) == [t]
  {
    PiecesComplete([t]);
    TrimOfTrimmed(t);
    assert Clean([t]) == [t];
  }

  /** Every statement the splitter returns is nonempty, trimmed and free of cuts, and splits into
      just itself. */
  lemma StatementsAreFixed(s: string, t: string)
    requires t in Statements(s)
    ensures Statement(t) && Statements(t) == [t]
  {
    PiecesSound(Code, [], s);
    CleanStatements(Pieces(Code, [], s), t);
    SingleStatement(t);
  }

  ghost predicate AllStatements(ts: seq<string>) {
    forall i :: 0 <= i < |ts| ==> Statement(ts[i])
  }

  lemma {:induction false} CleanOfStatements(ts: seq<string>)
    requires AllStatements(ts)
    ensures Clean(ts) == ts
  {
    if ts != [] {
      assert Statement(ts[0]);
      TrimOfTrimmed(ts[0]);
      assert forall i :: 0 <= i < |ts[1..]| ==> ts[1..][i] == ts[i + 1];
      CleanOfStatements(ts[1..]);
      assert ts == [ts[0]] + ts[1..];
    }
  }

  lemma {:induction false} FirstPieceExtends(q: Lex, cur: string, s: string)
    ensures cur <= Pieces(q, cur, s)[0]
    decreases |s|
  {
    if s != [] && !(q.InCode() && s[0] == ';') {
      FirstPieceExtends(Next(q, s[0]), cur + [s[0]], s[1..]);
    }
  }

  lemma {:induction false} TrimEndKeeps(a: string, b: string)
    requires a != "" && !IsWhitespace(a[|a| - 1])
    ensures a <= TrimEnd(a + b)
  {
    if b == [] {
      assert a + b == a;
    } else if IsWhitespace(b[|b| - 1]) {
      assert (a + b)[..|a + b| - 1] == a + b[..|b| - 1];
      TrimEndKeeps(a, b[..|b| - 1]);
    }
  }

  /** After a statement that does not end in code the joining semicolon is swallowed. */
  lemma SwallowedSemicolon(t: string, r: string)
    requires Statement(t) && !After(Code, t).InCode()
    ensures var ts := Statements(t + (";" + r)); ts != [] && |ts[0]| > |t|
  {
    var q := Next(After(Code, t), ';');
    assert [] + t == t && (";" + r)[1..] == r;
    SkipNoCut(Code, [], t, ";" + r);
    var ps := Pieces(q, t + ";", r);
    assert Pieces(Code, [], t + (";" + r)) == ps;
    FirstPieceExtends(q, t + ";", r);
    var more := ps[0][|t| + 1..];
    assert ps[0] == (t + ";") + more;
    TrimEndKeeps(t + ";", more);
    assert TrimStart(ps[0]) == ps[0];
  }

  lemma {:induction false} RoundTripOnlyIf(ts: seq<string>)
    requires AllStatements(ts) && Statements(Join(ts)) == ts
    ensures EndInCode(ts)
  {
    if |ts| > 1 {
      var t, rest := ts[0], ts[1..];
      assert Statement(t);
      assert forall i :: 0 <= i < |rest| ==> rest[i] == ts[i + 1];
      assert Join(ts) == t + (";" + Join(rest)) && (";" + Join(rest))[1..] == Join(rest);
      assert [] + t == t;
      SkipNoCut(Code, [], t, ";" + Join(rest));
      var q := After(Code, t);
      if q.InCode() {
        var ps := Pieces(Code, [], Join(rest));
        TrimOfTrimmed(t);
        CleanCons(t, ps);
        assert Clean([t]) == [t];
        assert Statements(Join(rest)) == ts[1..];
        RoundTripOnlyIf(rest);
      } else {
        SwallowedSemicolon(t, Join(rest));
      }
    }
  }

  /** The splitter undoes joining by `;` on a list of statements exactly when every statement but
      the last ends in code. */
  lemma RoundTripExact(ts: seq<string>)
    requires AllStatements(ts)
    ensures Statements(Join(ts)) == ts <==> EndInCode(ts)
  {
    if EndInCode(ts) {
      if ts == [] {
        assert Clean([""]) == [];
      } else {
        PiecesComplete(ts);
        CleanOfStatements(ts);
      }
    }
    if Statements(Join(ts)) == ts { RoundTripOnlyIf(ts); }
  }

  /** Trimming can cut the newline that closed a line comment, so the statements of a file joined
      again need not split the same way. */
  lemma RejoiningCanMerge()
    ensures Statements("--x\n;b") == ["--x", "b"]
    ensures Statements(Join(Statements("--x\n;b"))) != Statements("--x\n;b")
  {
    CommentStatements();
    OpenComment();
    hide Statements, Statement, Join, NoCut, After;
    var ts := ["--x", "b"];
    assert !After(Code, ts[0]).InCode();
    RoundTripExact(ts);
  }

  lemma OpenComment()
    ensures Statement("--x") && Statement("b") && After(Code, "--x") == Line
  {
  }

  lemma CommentStatements()
    ensures Statements("--x\n;b") == ["--x", "b"]
  {
    var ps := ["--x\n", "b"];
    CommentLine();
    assert NoCut(Code, "b");
    assert Join(ps) == "--x\n" + ";" + "b" == "--x\n;b";
    hide NoCut, After, Pieces, Join;
    PiecesComplete(ps);
    CommentClean();
  }

  lemma CommentClean()
    ensures Clean(["--x\n", "b"]) == ["--x", "b"]
  {
    CommentTrims();
    hide Trim;
    CleanCons("--x\n", ["b"]);
    assert ["--x\n"] + ["b"] == ["--x\n", "b"];
    assert Clean(["--x\n"]) == ["--x"] && Clean(["b"]) == ["b"];
  }

  lemma CommentTrims()
    ensures Trim("--x\n") == "--x" && Trim("--x") == "--x" && Trim("b") == "b"
  {
  }

  lemma CommentLine()
    ensures NoCut(Code, "--x\n") && After(Code, "--x\n") == Code
    ensures NoCut(Code, "--x") && After(Code, "--x") == Line
  {
  }
}
