/** The name part of a migration file: runs of ASCII letters and digits, lower-cased and joined by
    single underscores. */
module Slugs {

  predicate IsAlnum(c: char) {
    '0' <= c <= '9' || 'a' <= c <= 'z' || 'A' <= c <= 'Z'
  }

  /** `to_lowercase` on the ASCII letters and digits. */
  function Lower(c: char): char
    requires IsAlnum(c)
  {
    if 'A' <= c <= 'Z' then c + ('a' - 'A') else c
  }

  // ----- what the slug is -----

  /** The runs of letters and digits of `s`, empty ones included; `cur` is the run begun so far. */
  ghost function Runs(cur: string, s: string): seq<string>
    decreases |s|
  {
    if s == [] then [cur]
    else if IsAlnum(s[0]) then Runs(cur + [Lower(s[0])], s[1..])
    else [cur] + Runs([], s[1..])
  }

  ghost function NonEmpty(ws: seq<string>): seq<string> {
    if ws == [] then [] else (if ws[0] == [] then [] else [ws[0]]) + NonEmpty(ws[1..])
  }

  ghost function Words(s: string): seq<string> { NonEmpty(Runs([], s)) }

  ghost function Underscored(ws: seq<string>): string {
    if ws == [] then [] else if |ws| == 1 then ws[0] else Underscored(ws[..|ws| - 1]) + "_" + ws[|ws| - 1]
  }

  ghost function Slug(name: string): string { Underscored(Words(name)) }

  // ----- sanitize_name -----

  function TrimEndUnderscores(s: string): string {
    if s != [] && s[|s| - 1] == '_' then TrimEndUnderscores(s[..|s| - 1]) else s
  }

  function TrimStartUnderscores(s: string): string {
    if s != [] && s[0] == '_' then TrimStartUnderscores(s[1..]) else s
  }

  /** `out` holds the words `done`, and after a letter or digit also the run `cur`. */
  ghost predicate Emitted(out: string, done: seq<string>, cur: string, lastSep: bool) {
    && (lastSep <==> cur == [])
    && (cur != [] ==> out == Underscored(done + [cur]))
    && (cur == [] ==> out == if done == [] then [] else Underscored(done) + "_")
  }

  /** A lower-case word. */
  ghost predicate Word(w: string) {
    w != [] && forall i :: 0 <= i < |w| ==> IsAlnum(w[i]) && Lower(w[i]) == w[i]
  }

  ghost predicate AllWords(ws: seq<string>) { forall i :: 0 <= i < |ws| ==> Word(ws[i]) }

  /** The state of the loop before `rest`. */
  ghost predicate Scanned(out: string, done: seq<string>, cur: string, lastSep: bool, rest: string, name: string) {
    && Emitted(out, done, cur, lastSep)
    && AllWords(done) && (cur == [] || Word(cur))
    && done + NonEmpty(Runs(cur, rest)) == Words(name)
  }

  /** `sanitize_name`. */
  method SanitizeName(name: string) returns (out: string)
    ensures out == Slug(name)
  {
    out := "";
    var lastSep := true;
    ghost var done: seq<string>, cur: string := [], [];
    assert name[0..] == name && [] + Words(name) == Words(name);
    for i := 0 to |name|
      invariant Scanned(out, done, cur, lastSep, name[i..], name)
    {
      var c := name[i];
      assert name[i..] == [c] + name[i + 1..];
      if IsAlnum(c) {
        ScanLetter(out, done, cur, c, name[i + 1..], name);
        out := out + [Lower(c)];
        cur := cur + [Lower(c)];
        lastSep := false;
      } else if !lastSep {
        ScanSeparator(out, done, cur, c, name[i + 1..], name);
        out := out + ['_'];
        done, cur := done + [cur], [];
        lastSep := true;
      } else {
        ScanSeparator(out, done, cur, c, name[i + 1..], name);
      }
    }
    assert name[|name|..] == [];
    ScanEnd(out, done, cur, name);
    out := TrimEndUnderscores(TrimStartUnderscores(out));
  }

  lemma ScanLetter(out: string, done: seq<string>, cur: string, c: char, rest: string, name: string)
    requires IsAlnum(c) && Scanned(out, done, cur, cur == [], [c] + rest, name)
    ensures Scanned(out + [Lower(c)], done, cur + [Lower(c)], false, rest, name)
  {
    hide Emitted, Runs, NonEmpty, Words, Word, AllWords;
    Extend(out, done, cur, Lower(c));
    RunsLetter(cur, c, rest);
    GrowWord(cur, c);
  }

  lemma GrowWord(cur: string, c: char)
    requires IsAlnum(c) && (cur == [] || Word(cur))
    ensures Word(cur + [Lower(c)])
  {
  }

  lemma RunsLetter(cur: string, c: char, rest: string)
    requires IsAlnum(c)
    ensures Runs(cur, [c] + rest) == Runs(cur + [Lower(c)], rest)
  {
    assert ([c] + rest)[1..] == rest;
  }

  lemma NonEmptyCons(w: string, ws: seq<string>)
    ensures NonEmpty([w] + ws) == (if w == [] then [] else [w]) + NonEmpty(ws)
  {
    assert ([w] + ws)[1..] == ws;
  }

  lemma RunsCut(cur: string, c: char, rest: string)
    requires !IsAlnum(c)
    ensures Runs(cur, [c] + rest) == [cur] + Runs([], rest)
  {
    assert ([c] + rest)[1..] == rest;
  }

  lemma RunsSeparator(done: seq<string>, cur: string, c: char, rest: string)
    requires !IsAlnum(c)
    ensures done + NonEmpty(Runs(cur, [c] + rest)) ==
      (if cur == [] then done else done + [cur]) + NonEmpty(Runs([], rest))
  {
    hide Runs, NonEmpty;
    RunsCut(cur, c, rest);
    NonEmptyCons(cur, Runs([], rest));
    if cur == [] { Regroup(done, [], [], NonEmpty(Runs([], rest))); }
    else { Regroup(done, [cur], [], NonEmpty(Runs([], rest))); }
  }

  lemma ScanSeparator(out: string, done: seq<string>, cur: string, c: char, rest: string, name: string)
    requires !IsAlnum(c) && Scanned(out, done, cur, cur == [], [c] + rest, name)
    ensures cur == [] ==> Scanned(out, done, [], true, rest, name)
    ensures cur != [] ==> Scanned(out + ['_'], done + [cur], [], true, rest, name)
  {
    hide Runs, NonEmpty, Words, Word, Underscored;
    RunsSeparator(done, cur, c, rest);
  }

  lemma TrimsTo(u: string)
    requires u == [] || (u[0] != '_' && u[|u| - 1] != '_')
    ensures TrimEndUnderscores(TrimStartUnderscores(u)) == u
    ensures u != [] ==> TrimEndUnderscores(TrimStartUnderscores(u + "_")) == u
  {
    if u != [] {
      var v := u + "_";
      assert v[0] == u[0] && v[|v| - 1] == '_' && v[..|v| - 1] == u;
    }
  }

  lemma LastRun(done: seq<string>, cur: string)
    ensures done + NonEmpty(Runs(cur, [])) == if cur == [] then done else done + [cur]
  {
    assert [cur][1..] == [] && NonEmpty([cur]) == if cur == [] then [] else [cur];
  }

  lemma ScanEnd(out: string, done: seq<string>, cur: string, name: string)
    requires Scanned(out, done, cur, cur == [], [], name)
    ensures TrimEndUnderscores(TrimStartUnderscores(out)) == Slug(name)
  {
    hide Runs, NonEmpty, Word, TrimEndUnderscores, TrimStartUnderscores;
    LastRun(done, cur);
    var words := if cur == [] then done else done + [cur];
    assert words == Words(name) && AllWords(words);
    UnderscoredEnds(words);
    TrimsTo(Underscored(words));
  }

  lemma Extend(out: string, done: seq<string>, cur: string, c: char)
    requires Emitted(out, done, cur, cur == [])
    ensures Emitted(out + [c], done, cur + [c], false)
  {
    var ws, ws' := done + [cur], done + [cur + [c]];
    assert ws[..|ws| - 1] == done && ws'[..|ws'| - 1] == done;
    if done != [] { assert Underscored(done) + "_" + (cur + [c]) == Underscored(done) + "_" + cur + [c]; }
  }

  lemma {:induction false} UnderscoredEnds(ws: seq<string>)
    requires AllWords(ws)
    ensures var s := Underscored(ws);
      ws == [] || (s != [] && s[0] != '_' && s[|s| - 1] != '_')
  {
    if ws != [] {
      assert Word(ws[0]);
      assert Word(ws[|ws| - 1]);
      if |ws| > 1 {
        assert forall i :: 0 <= i < |ws| - 1 ==> ws[..|ws| - 1][i] == ws[i];
        UnderscoredEnds(ws[..|ws| - 1]);
      }
    }
  }

  // ----- slugs are the fixed points -----

  lemma {:induction false} WordsAreWords(cur: string, s: string)
    requires cur == [] || Word(cur)
    ensures AllWords(NonEmpty(Runs(cur, s)))
    decreases |s|
  {
    if s == [] {
      assert [cur][1..] == [];
    } else if IsAlnum(s[0]) {
      WordsAreWords(cur + [Lower(s[0])], s[1..]);
    } else {
      WordsAreWords([], s[1..]);
      assert ([cur] + Runs([], s[1..]))[1..] == Runs([], s[1..]);
    }
  }

  lemma {:induction false} RunsOfWord(cur: string, w: string, r: string)
    requires forall i :: 0 <= i < |w| ==> IsAlnum(w[i]) && Lower(w[i]) == w[i]
    ensures Runs(cur, w + r) == Runs(cur + w, r)
    decreases |w|
  {
    if w == [] {
      assert w + r == r && cur + w == cur;
    } else {
      assert (w + r)[1..] == w[1..] + r && cur + [w[0]] + w[1..] == cur + w;
      assert forall i :: 0 <= i < |w[1..]| ==> w[1..][i] == w[i + 1];
      RunsOfWord(cur + [w[0]], w[1..], r);
    }
  }

  lemma RunsAfterUnderscore(cur: string, w: string, r: string)
    requires Word(w)
    ensures Runs(cur, "_" + w + r) == [cur] + Runs(w, r)
  {
    assert ("_" + w + r)[1..] == w + r && [] + w == w;
    RunsOfWord([], w, r);
  }

  lemma {:induction false} RunsOfUnderscored(ws: seq<string>, r: string)
    requires ws != [] && AllWords(ws)
    ensures Runs([], Underscored(ws) + r) == ws[..|ws| - 1] + Runs(ws[|ws| - 1], r)
    decreases |ws|
  {
    var front, last := ws[..|ws| - 1], ws[|ws| - 1];
    assert Word(last);
    if |ws| == 1 {
      assert Underscored(ws) == last;
      hide Underscored, Runs;
      assert [] + last == last;
      RunsOfWord([], last, r);
    } else {
      UnderscoredLast(ws, r);
      FrontWords(ws);
      hide Underscored, Runs, Word, AllWords;
      var before := front[|front| - 1];
      RunsOfUnderscored(front, "_" + last + r);
      RunsAfterUnderscore(before, last, r);
      assert front == front[..|front| - 1] + [before];
    }
  }

  lemma UnderscoredLast(ws: seq<string>, r: string)
    requires |ws| > 1
    ensures Underscored(ws) + r == Underscored(ws[..|ws| - 1]) + ("_" + ws[|ws| - 1] + r)
  {
    assert Underscored(ws) == Underscored(ws[..|ws| - 1]) + "_" + ws[|ws| - 1];
    hide Underscored;
    Regroup(Underscored(ws[..|ws| - 1]), "_", ws[|ws| - 1], r);
  }

  lemma Regroup<T>(a: seq<T>, b: seq<T>, c: seq<T>, d: seq<T>)
    ensures a + b + c + d == a + (b + c + d)
  {
  }

  lemma FrontWords(ws: seq<string>)
    requires ws != [] && AllWords(ws)
    ensures AllWords(ws[..|ws| - 1])
  {
    assert forall i :: 0 <= i < |ws| - 1 ==> ws[..|ws| - 1][i] == ws[i];
  }

  lemma {:induction false} NonEmptyWords(ws: seq<string>)
    requires AllWords(ws)
    ensures NonEmpty(ws) == ws
  {
    if ws != [] {
      assert Word(ws[0]);
      assert forall i :: 0 <= i < |ws[1..]| ==> ws[1..][i] == ws[i + 1];
      NonEmptyWords(ws[1..]);
    }
  }

  /** The words of a slug are the words it was made from. */
  lemma WordsOfSlug(ws: seq<string>)
    requires AllWords(ws)
    ensures Words(Underscored(ws)) == ws
  {
    if ws == [] {
      var none: seq<string> := [[]];
      assert none[1..] == [];
    } else {
      assert Underscored(ws) + [] == Underscored(ws);
      RunsOfUnderscored(ws, []);
      assert ws == ws[..|ws| - 1] + [ws[|ws| - 1]];
      NonEmptyWords(ws);
    }
  }

  /** Sanitising changes nothing exactly on lower-case words joined by single underscores; in
      particular sanitising twice is sanitising once. */
  lemma SlugFixedPoints(s: string)
    ensures Slug(s) == s <==> exists ws :: AllWords(ws) && s == Underscored(ws)
    ensures Slug(Slug(s)) == Slug(s)
  {
    WordsAreWords([], s);
    WordsOfSlug(Words(s));
    if exists ws :: AllWords(ws) && s == Underscored(ws) {
      var ws :| AllWords(ws) && s == Underscored(ws);
      WordsOfSlug(ws);
    }
  }

  // ----- what characters a slug has -----

  lemma {:induction false} UnderscoredChars(ws: seq<string>, c: char)
    requires AllWords(ws) && c in Underscored(ws)
    ensures 'a' <= c <= 'z' || '0' <= c <= '9' || c == '_'
    decreases |ws|
  {
    assert Word(ws[|ws| - 1]);
    FrontWords(ws);
    if |ws| > 1 && c in Underscored(ws[..|ws| - 1]) { UnderscoredChars(ws[..|ws| - 1], c); }
  }

  /** A slug has lower-case letters, digits and underscores, and no capital. */
  lemma SlugIsLower(name: string, c: char)
    requires c in Slug(name)
    ensures ('a' <= c <= 'z' || '0' <= c <= '9' || c == '_') && !('A' <= c <= 'Z')
  {
    WordsAreWords([], name);
    UnderscoredChars(Words(name), c);
  }

  /** Equal, or the same ASCII letter in two cases. */
  predicate SameLetter(c: char, d: char) {
    c == d || ('A' <= c <= 'Z' && d == c + ' ') || ('A' <= d <= 'Z' && c == d + ' ')
  }

  lemma {:induction false} RunsIgnoreCase(cur: string, a: string, b: string)
    requires |a| == |b| && forall i :: 0 <= i < |a| ==> SameLetter(a[i], b[i])
    ensures Runs(cur, a) == Runs(cur, b)
    decreases |a|
  {
    if a != "" {
      assert SameLetter(a[0], b[0]);
      assert forall i :: 0 <= i < |a[1..]| ==> SameLetter(a[1..][i], b[1..][i]);
      RunsIgnoreCase(cur + [if IsAlnum(a[0]) then Lower(a[0]) else 'x'], a[1..], b[1..]);
      RunsIgnoreCase([], a[1..], b[1..]);
    }
  }

  /** Names that differ only in the case of ASCII letters have one slug. */
  lemma SlugIgnoresCase(a: string, b: string)
    requires |a| == |b| && forall i :: 0 <= i < |a| ==> SameLetter(a[i], b[i])
    ensures Slug(a) == Slug(b)
  {
    RunsIgnoreCase([], a, b);
  }

  // ----- what a slug keeps -----

  /** The ASCII letters and digits of the text, in order, in lower case. */
  ghost function Letters(s: string): string {
    if s == "" then ""
    else
      (if '0' <= s[0] <= '9' || 'a' <= s[0] <= 'z' then [s[0]]
       else if 'A' <= s[0] <= 'Z' then [s[0] + ' ']
       else "") + Letters(s[1..])
  }

  ghost function Joined(ws: seq<string>): string { if ws == [] then "" else ws[0] + Joined(ws[1..]) }

  lemma {:induction false} LettersConcat(a: string, b: string)
    ensures Letters(a + b) == Letters(a) + Letters(b)
  {
    if a == "" {
      assert a + b == b;
    } else {
      assert (a + b)[1..] == a[1..] + b;
      LettersConcat(a[1..], b);
    }
  }

  lemma {:induction false} WordLetters(w: string)
    requires forall i :: 0 <= i < |w| ==> IsAlnum(w[i]) && Lower(w[i]) == w[i]
    ensures Letters(w) == w
  {
    if w != "" {
      assert IsAlnum(w[0]) && Lower(w[0]) == w[0];
      assert forall i :: 0 <= i < |w[1..]| ==> w[1..][i] == w[i + 1];
      WordLetters(w[1..]);
      assert w == [w[0]] + w[1..];
    }
  }

  lemma {:induction false} RunsJoined(cur: string, s: string)
    ensures Joined(NonEmpty(Runs(cur, s))) == cur + Letters(s)
    decreases |s|
  {
    if s == "" {
      NonEmptyCons(cur, []);
      assert [cur] + [] == [cur];
      if cur != "" { assert [cur][1..] == []; }
    } else if IsAlnum(s[0]) {
      RunsJoined(cur + [Lower(s[0])], s[1..]);
      assert cur + [Lower(s[0])] + Letters(s[1..]) == cur + ([Lower(s[0])] + Letters(s[1..]));
    } else {
      RunsJoined([], s[1..]);
      var ws := Runs([], s[1..]);
      NonEmptyCons(cur, ws);
      if cur == "" { assert [] + NonEmpty(ws) == NonEmpty(ws); }
      else { assert ([cur] + NonEmpty(ws))[1..] == NonEmpty(ws); }
    }
  }

  lemma {:induction false} JoinedSnoc(ws: seq<string>, w: string)
    ensures Joined(ws + [w]) == Joined(ws) + w
  {
    if ws == [] {
      assert [w][1..] == [] && ws + [w] == [w];
    } else {
      assert (ws + [w])[1..] == ws[1..] + [w];
      JoinedSnoc(ws[1..], w);
    }
  }

  lemma UnderscoreBetween(front: string, last: string)
    ensures Letters(front + "_" + last) == Letters(front) + Letters(last)
  {
    LettersConcat(front + "_", last);
    LettersConcat(front, "_");
  }

  lemma {:induction false} UnderscoredLetters(ws: seq<string>)
    requires AllWords(ws)
    ensures Letters(Underscored(ws)) == Joined(ws)
    decreases |ws|
  {
    if ws != [] {
      var front, last := ws[..|ws| - 1], ws[|ws| - 1];
      assert Word(last) && ws == front + [last];
      assert Underscored(ws) == if front == [] then last else Underscored(front) + "_" + last;
      assert Joined([]) == "";
      FrontWords(ws);
      WordLetters(last);
      hide Underscored, Letters, Joined, AllWords, Word;
      JoinedSnoc(front, last);
      UnderscoredLetters(front);
      if front != [] { UnderscoreBetween(Underscored(front), last); }
    }
  }

  /** A slug keeps the letters and digits of the name, all of them, in order and in lower case. */
  lemma SlugKeepsLetters(name: string)
    ensures Letters(Slug(name)) == Letters(name)
  {
    WordsAreWords([], name);
    UnderscoredLetters(Words(name));
    RunsJoined([], name);
  }
}
