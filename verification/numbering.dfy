/** How migration files are named: `NNNN_<slug>.sql`, numbered after the highest number in the
    directory.  Filename order is creation order only while the numbers have four digits. */
module Numbering {
  import opened Wrappers
  import opened Order
  import opened Keyed
  import opened Migrations
  import opened Slugs

  const U32_SIZE: nat := 0x1_0000_0000

  // ----- decimal numbers -----

  predicate IsDigit(c: char) { '0' <= c <= '9' }

  function Digit(d: nat): char
    requires d < 10
  {
    '0' + d as char
  }

  function DigitValue(c: char): nat
    requires IsDigit(c)
  {
    (c - '0') as nat
  }

  predicate AllDigits(s: string) { forall i :: 0 <= i < |s| ==> IsDigit(s[i]) }

  /** Decimal rendering without padding. */
  function Dec(n: nat): string {
    if n < 10 then [Digit(n)] else Dec(n / 10) + [Digit(n % 10)]
  }

  function Zeros(k: nat): string { seq(k, _ => '0') }

  /** `format!("{:04}", n)`. */
  function Format04(n: nat): string {
    if |Dec(n)| < 4 then Zeros(4 - |Dec(n)|) + Dec(n) else Dec(n)
  }

  function Value(s: string): nat
    requires AllDigits(s)
  {
    if s == [] then 0 else 10 * Value(s[..|s| - 1]) + DigitValue(s[|s| - 1])
  }

  /** `str::parse::<u32>`: an optional plus sign, then at least one digit, within range. */
  function ParseU32(s: string): Option<nat> {
    var digits := if |s| > 1 && s[0] == '+' then s[1..] else s;
    if digits == [] || !AllDigits(digits) || Value(digits) >= U32_SIZE then None else Some(Value(digits))
  }

  /** The text before the first underscore. */
  function BeforeUnderscore(s: string): Option<string> {
    if s == [] then None
    else if s[0] == '_' then Some([])
    else match BeforeUnderscore(s[1..])
      case None => None
      case Some(p) => Some([s[0]] + p)
  }

  /** The number a filename carries, if it carries one. */
  function NumberOf(name: string): Option<nat> {
    match BeforeUnderscore(name)
    case None => None
    case Some(prefix) => ParseU32(prefix)
  }

  function MaxNumber(names: seq<string>): Option<nat> {
    if names == [] then None
    else match (NumberOf(names[0]), MaxNumber(names[1..]))
      case (None, m) => m
      case (n, None) => n
      case (Some(n), Some(m)) => Some(if n > m then n else m)
  }

  /** `next_number`; the release build adds in `u32` without an overflow check. */
  function NextNumber(names: seq<string>): nat {
    match MaxNumber(names)
    case None => 1
    case Some(n) => (n + 1) % U32_SIZE
  }

  function MigrationName(n: nat, slug: string): string { Format04(n) + "_" + slug + ".sql" }

  // ----- rendering and parsing -----

  lemma {:induction false} DecDigits(n: nat)
    ensures AllDigits(Dec(n)) && Dec(n) != [] && Value(Dec(n)) == n
  {
    if n < 10 {
      assert Dec(n)[..0] == [];
      assert Value(Dec(n)[..0]) == 0;
    } else {
      DecDigits(n / 10);
      var s := Dec(n);
      assert s[..|s| - 1] == Dec(n / 10);
    }
  }

  lemma {:induction false} ZerosValue(k: nat, s: string)
    requires AllDigits(s)
    ensures AllDigits(Zeros(k) + s) && Value(Zeros(k) + s) == Value(s)
  {
    var t := Zeros(k) + s;
    if s == [] {
      assert t == Zeros(k);
      if k > 0 {
        assert Zeros(k)[..k - 1] == Zeros(k - 1) + [];
        ZerosValue(k - 1, []);
      }
    } else {
      assert t[..|t| - 1] == Zeros(k) + s[..|s| - 1];
      ZerosValue(k, s[..|s| - 1]);
    }
  }

  lemma FormatDigits(n: nat)
    ensures AllDigits(Format04(n)) && Value(Format04(n)) == n && |Format04(n)| >= 4
  {
    DecDigits(n);
    if |Dec(n)| < 4 { ZerosValue(4 - |Dec(n)|, Dec(n)); }
  }

  lemma {:induction false} DigitsBeforeUnderscore(d: string, rest: string)
    requires AllDigits(d)
    ensures BeforeUnderscore(d + "_" + rest) == Some(d)
  {
    if d == [] {
      assert d + "_" + rest == "_" + rest;
    } else {
      assert IsDigit(d[0]);
      assert (d + "_" + rest)[1..] == d[1..] + "_" + rest;
      DigitsBeforeUnderscore(d[1..], rest);
      assert d == [d[0]] + d[1..];
    }
  }

  /** The number is read back from the name it was put into. */
  lemma NumberRoundTrip(n: nat, slug: string)
    requires n < U32_SIZE
    ensures NumberOf(MigrationName(n, slug)) == Some(n)
  {
    FormatDigits(n);
    var d := Format04(n);
    assert MigrationName(n, slug) == d + "_" + (slug + ".sql");
    DigitsBeforeUnderscore(d, slug + ".sql");
    assert IsDigit(d[0]);
  }

  /** For instance. */
  lemma SeventhFile()
    ensures MigrationName(7, "add_users") == "0007_add_users.sql"
  {
    assert Dec(7) == "7" && Format04(7) == "0007";
  }

  lemma {:induction false} MaxIsMax(names: seq<string>)
    ensures MaxNumber(names).None? ==> forall x :: x in names ==> NumberOf(x).None?
    ensures MaxNumber(names).Some? ==>
      && (forall x :: x in names && NumberOf(x).Some? ==> NumberOf(x).value <= MaxNumber(names).value)
      && exists x :: x in names && NumberOf(x) == MaxNumber(names)
  {
    hide NumberOf;
    if names != [] {
      MaxIsMax(names[1..]);
      assert names == [names[0]] + names[1..];
      if MaxNumber(names[1..]).Some? {
        var x :| x in names[1..] && NumberOf(x) == MaxNumber(names[1..]);
        assert x in names;
      }
      assert names[0] in names;
    }
  }

  lemma {:induction false} NumbersInRange(names: seq<string>)
    ensures MaxNumber(names).Some? ==> MaxNumber(names).value < U32_SIZE
  {
    if names != [] { NumbersInRange(names[1..]); }
  }

  /** The next number exceeds every number in the directory exactly when the largest of them is not
      the largest `u32`. */
  lemma NextExceedsExact(names: seq<string>)
    ensures (forall x :: x in names && NumberOf(x).Some? ==> NumberOf(x).value < NextNumber(names)) <==>
      MaxNumber(names) != Some(U32_SIZE - 1)
  {
    MaxIsMax(names);
    NumbersInRange(names);
  }

  /** The wrap: after the file numbered with the largest `u32` the next number is 0. */
  lemma NumberWraps(slug: string)
    ensures NextNumber([MigrationName(U32_SIZE - 1, slug)]) == 0
  {
    NumberRoundTrip(U32_SIZE - 1, slug);
    hide NumberOf;
    var names := [MigrationName(U32_SIZE - 1, slug)];
    MaxIsMax(names);
  }

  // ----- filename order -----

  /** Fixed-width rendering. */
  ghost function Fixed(n: nat, w: nat): (s: string)
    ensures |s| == w && AllDigits(s)
  {
    if w == 0 then [] else Fixed(n / 10, w - 1) + [Digit(n % 10)]
  }

  ghost function Pow10(w: nat): nat { if w == 0 then 1 else 10 * Pow10(w - 1) }

  lemma {:induction false} FixedOrder(n: nat, m: nat, w: nat, x: string, y: string)
    requires n < m < Pow10(w)
    ensures Before(Fixed(n, w) + x, Fixed(m, w) + y)
  {
    var a, b := Fixed(n / 10, w - 1), Fixed(m / 10, w - 1);
    var x', y' := [Digit(n % 10)] + x, [Digit(m % 10)] + y;
    assert Fixed(n, w) + x == a + x' && Fixed(m, w) + y == b + y';
    if n / 10 < m / 10 {
      FixedOrder(n / 10, m / 10, w - 1, x', y');
    } else {
      assert a == b && n % 10 < m % 10;
      CommonPrefix(a, x', y');
    }
  }

  lemma {:induction false} FixedZero(w: nat)
    ensures Fixed(0, w) == Zeros(w)
  {
    if w > 0 { FixedZero(w - 1); }
  }

  lemma {:induction false} FixedIsPadded(n: nat, w: nat)
    requires n < Pow10(w) && w > 0
    ensures |Dec(n)| <= w && Fixed(n, w) == Zeros(w - |Dec(n)|) + Dec(n)
  {
    if n < 10 {
      FixedZero(w - 1);
    } else {
      assert w > 1;
      FixedIsPadded(n / 10, w - 1);
      assert Zeros(w - |Dec(n)|) + Dec(n) == Zeros(w - 1 - |Dec(n / 10)|) + Dec(n / 10) + [Digit(n % 10)];
    }
  }

  lemma FourDigits(n: nat)
    requires n <= 9999
    ensures Format04(n) == Fixed(n, 4)
  {
    assert Pow10(4) == 10 * (10 * (10 * (10 * Pow10(0)))) == 10000;
    FixedIsPadded(n, 4);
    assert Zeros(0) + Dec(n) == Dec(n);
  }

  lemma FourDigitName(n: nat, slug: string)
    requires n <= 9999
    ensures MigrationName(n, slug) == Fixed(n, 4) + ("_" + slug + ".sql")
  {
    FourDigits(n);
    hide Format04, Fixed;
  }

  /** Four-digit numbers sort as numbers, whatever follows them. */
  lemma FourDigitsOrder(n: nat, m: nat, a: string, b: string)
    requires n < m <= 9999
    ensures Before(MigrationName(n, a), MigrationName(m, b))
  {
    assert Pow10(4) == 10 * (10 * (10 * (10 * Pow10(0)))) == 10000;
    FourDigitName(n, a);
    FourDigitName(m, b);
    hide MigrationName, Fixed, Pow10;
    FixedOrder(n, m, 4, "_" + a + ".sql", "_" + b + ".sql");
  }

  ghost function Nines(k: nat): string { seq(k, _ => '9') }

  /** Longer digit strings sort before a shorter run of nines that an underscore ends. */
  lemma {:induction false} DigitsBeforeNines(d: string, k: nat, x: string, y: string)
    requires AllDigits(d) && |d| > k
    ensures Before(d + x, Nines(k) + "_" + y)
  {
    assert IsDigit(d[0]);
    if k > 0 {
      assert (d + x)[1..] == d[1..] + x;
      assert (Nines(k) + "_" + y)[1..] == Nines(k - 1) + "_" + y;
      DigitsBeforeNines(d[1..], k - 1, x, y);
    }
  }

  lemma {:induction false} LongNumbers(n: nat, w: nat)
    requires n >= Pow10(w)
    ensures |Dec(n)| > w
  {
    if w > 0 {
      if n >= 10 { LongNumbers(n / 10, w - 1); }
      else { PowPositive(w - 1); }
    }
  }

  lemma {:induction false} PowPositive(w: nat)
    ensures Pow10(w) >= 1
  {
    if w > 0 { PowPositive(w - 1); }
  }

  lemma {:induction false} AllNines(w: nat)
    ensures Pow10(w) >= 1 && Fixed(Pow10(w) - 1, w) == Nines(w)
  {
    if w > 0 {
      AllNines(w - 1);
      var n := Pow10(w) - 1;
      assert n / 10 == Pow10(w - 1) - 1 && n % 10 == 9;
      assert Nines(w) == Nines(w - 1) + ['9'];
    }
  }

  lemma FourNines()
    ensures Pow10(4) == 10000 && Format04(9999) == Nines(4)
  {
  }

  /** A number of five digits or more sorts before the last four-digit one. */
  lemma FifthDigitSortsEarly(m: nat, a: string, b: string)
    requires m > 9999
    ensures Before(MigrationName(m, b), MigrationName(9999, a))
  {
    FourNines();
    LongNumbers(m, 4);
    DecDigits(m);
    var nines := Nines(4);
    assert MigrationName(m, b) == Dec(m) + ("_" + b + ".sql");
    assert MigrationName(9999, a) == nines + "_" + (a + ".sql");
    DigitsBeforeNines(Dec(m), 4, "_" + b + ".sql", a + ".sql");
  }

  // ----- directories built by generate -----

  function NameSeq(files: seq<File>): seq<string> {
    seq(|files|, i requires 0 <= i < |files| => files[i].name)
  }

  ghost predicate Numbered(f: File, k: nat) { exists slug :: f.name == MigrationName(k, slug) }

  ghost predicate HasNumber(files: seq<File>, k: nat) { exists f :: f in files && Numbered(f, k) }

  ghost predicate NumberUpTo(f: File, n: nat) { exists k :: 1 <= k <= n && Numbered(f, k) }

  /** The listing holds exactly the generated files numbered `1` to `n`. */
  ghost predicate GeneratedDir(files: seq<File>, n: nat) {
    && |files| == n
    && (forall f :: f in files ==> NumberUpTo(f, n))
    && (forall k :: 1 <= k <= n ==> HasNumber(files, k))
  }

  lemma NumberOfNumbered(f: File, k: nat)
    requires Numbered(f, k) && k < U32_SIZE
    ensures NumberOf(f.name) == Some(k)
  {
    var slug :| f.name == MigrationName(k, slug);
    NumberRoundTrip(k, slug);
  }

  lemma GeneratedMax(files: seq<File>, n: nat)
    requires GeneratedDir(files, n) && n < U32_SIZE
    ensures forall x :: x in NameSeq(files) ==> NumberOf(x).Some? && NumberOf(x).value <= n
    ensures n > 0 ==> exists x :: x in NameSeq(files) && NumberOf(x) == Some(n)
  {
    var names := NameSeq(files);
    forall x | x in names ensures NumberOf(x).Some? && NumberOf(x).value <= n {
      var i :| 0 <= i < |names| && names[i] == x;
      assert files[i] in files;
      var k :| 1 <= k <= n && Numbered(files[i], k);
      NumberOfNumbered(files[i], k);
    }
    if n > 0 {
      assert HasNumber(files, n);
      var f :| f in files && Numbered(f, n);
      NumberOfNumbered(f, n);
      var i :| 0 <= i < |files| && files[i] == f;
      assert names[i] in names;
    }
  }

  lemma NextAfter(names: seq<string>, n: nat)
    requires forall x :: x in names ==> NumberOf(x).Some? && NumberOf(x).value <= n
    requires if n == 0 then names == [] else exists x :: x in names && NumberOf(x) == Some(n)
    requires n < U32_SIZE - 1
    ensures NextNumber(names) == n + 1
  {
    hide NumberOf, MaxNumber;
    MaxIsMax(names);
    assert names == [] ==> MaxNumber(names).None? by { EmptyMax(); }
  }

  lemma EmptyMax()
    ensures MaxNumber([]) == None
  {
  }

  lemma GeneratedNext(files: seq<File>, n: nat)
    requires GeneratedDir(files, n) && n < U32_SIZE - 1
    ensures NextNumber(NameSeq(files)) == n + 1
  {
    GeneratedMax(files, n);
    assert |files| == n;
    hide NumberOf, MaxNumber, NextNumber, GeneratedDir;
    NextAfter(NameSeq(files), n);
  }

  /** The file `generate` writes: the next number and the sanitised name. */
  function Generated(files: seq<File>, slug: string, content: Option<string>): File {
    File(MigrationName(NextNumber(NameSeq(files)), slug), content)
  }

  /** Filename order is creation order up to number 9999 and not beyond: in a directory built by
      `generate`, the next file sorts after all others exactly when its number has four digits. */
  lemma GeneratedSortsLastExact(files: seq<File>, n: nat, slug: string, content: Option<string>)
    requires GeneratedDir(files, n) && n < U32_SIZE - 1
    ensures (forall g :: g in files ==> Before(g.name, Generated(files, slug, content).name)) <==> n + 1 <= 9999
  {
    GeneratedNext(files, n);
    var f := Generated(files, slug, content);
    if n + 1 <= 9999 {
      forall g | g in files ensures Before(g.name, f.name) {
        var k :| 1 <= k <= n && Numbered(g, k);
        var s :| g.name == MigrationName(k, s);
        FourDigitsOrder(k, n + 1, s, slug);
      }
    } else {
      assert HasNumber(files, 9999);
      var g :| g in files && Numbered(g, 9999);
      var s :| g.name == MigrationName(9999, s);
      FifthDigitSortsEarly(n + 1, s, slug);
      Asymmetric(f.name, g.name);
    }
  }

  // ----- schedules of generate and apply -----

  datatype Command = Generate(name: string, content: string) | ApplyNow(outage: set<string>)

  /** `generate` refuses a name that sanitises to nothing, and then writes nothing. */
  ghost function StepCommand<U>(exec: Exec<U>, w: World<U>, c: Command): World<U> {
    match c
    case Generate(name, content) =>
      if Slug(name) == "" then w else Step(exec, w, AddFile(Generated(w.dir, Slug(name), Some(content))))
    case ApplyNow(outage) => Step(exec, w, RunApply(outage))
  }

  ghost function RunCommands<U>(exec: Exec<U>, w: World<U>, cs: seq<Command>): World<U>
    decreases |cs|
  {
    if cs == [] then w else RunCommands(exec, StepCommand(exec, w, cs[0]), cs[1..])
  }

  ghost predicate Writes(c: Command) { c.Generate? && Slug(c.name) != "" }

  ghost function Written(cs: seq<Command>): nat {
    if cs == [] then 0 else (if Writes(cs[0]) then 1 else 0) + Written(cs[1..])
  }

  lemma GenerateStep<U>(exec: Exec<U>, u0: U, w: World<U>, c: Command, n: nat)
    requires Writes(c) && PrefixApplied(exec, u0, w) && GeneratedDir(w.dir, n) && n + 1 <= 9999
    ensures var w' := StepCommand(exec, w, c);
      PrefixApplied(exec, u0, w') && GeneratedDir(w'.dir, n + 1)
  {
    var slug := Slug(c.name);
    var f := Generated(w.dir, slug, Some(c.content));
    GeneratedSortsLastExact(w.dir, n, slug, Some(c.content));
    GeneratedNext(w.dir, n);
    assert f.name == MigrationName(n + 1, slug);
    forall i | 0 <= i < |w.dir| ensures FileName(w.dir[i]) != f.name {
      assert w.dir[i] in w.dir;
      Irreflexive(f.name);
    }
    StepKeepsPrefix(exec, u0, w, AddFile(f));
    GrownDir(w.dir, f, n, slug);
  }

  lemma GrownDir(files: seq<File>, f: File, n: nat, slug: string)
    requires GeneratedDir(files, n) && f.name == MigrationName(n + 1, slug)
    ensures GeneratedDir(SortBy(files + [f], FileName), n + 1)
  {
    var dir := SortBy(files + [f], FileName);
    SortPermutes(files + [f], FileName);
    PermutedElements(dir, files + [f]);
    assert |dir| == |multiset(dir)| == |multiset(files + [f])| == n + 1;
    forall g | g in dir ensures NumberUpTo(g, n + 1) {
      assert g in files + [f];
      if g in files {
        var k :| 1 <= k <= n && Numbered(g, k);
        assert 1 <= k <= n + 1 && Numbered(g, k);
      } else {
        assert Numbered(f, n + 1);
      }
    }
    forall k | 1 <= k <= n + 1 ensures HasNumber(dir, k) {
      if k <= n {
        assert HasNumber(files, k);
        var g :| g in files && Numbered(g, k);
        assert g in files + [f];
      } else {
        assert Numbered(f, k) && f in files + [f];
      }
    }
  }

  /** A project that only generates and applies, in any order and with any failures, keeps the prefix
      property as long as it never generates a five-digit number. */
  lemma {:induction false} GeneratedSchedulesKeepPrefix<U>(exec: Exec<U>, u0: U, w: World<U>,
                                                           cs: seq<Command>, n: nat)
    requires PrefixApplied(exec, u0, w) && GeneratedDir(w.dir, n) && n + Written(cs) <= 9999
    ensures PrefixApplied(exec, u0, RunCommands(exec, w, cs))
    ensures GeneratedDir(RunCommands(exec, w, cs).dir, n + Written(cs))
    decreases |cs|
  {
    if cs != [] {
      if Writes(cs[0]) {
        GenerateStep(exec, u0, w, cs[0], n);
        GeneratedSchedulesKeepPrefix(exec, u0, StepCommand(exec, w, cs[0]), cs[1..], n + 1);
      } else {
        if cs[0].ApplyNow? { StepKeepsPrefix(exec, u0, w, RunApply(cs[0].outage)); }
        GeneratedSchedulesKeepPrefix(exec, u0, StepCommand(exec, w, cs[0]), cs[1..], n);
      }
    }
  }

  function Repeated(c: Command, n: nat): seq<Command> { seq(n, _ => c) }

  lemma {:induction false} RepeatedWritten(c: Command, n: nat)
    requires Writes(c)
    ensures Written(Repeated(c, n)) == n
  {
    if n > 0 {
      assert Repeated(c, n)[1..] == Repeated(c, n - 1);
      RepeatedWritten(c, n - 1);
    }
  }

  /** Generating 9999 times in an empty project gets there: the file generated next does not sort last. */
  lemma TenThousandthFile<U>(exec: Exec<U>, u0: U, name: string, content: string)
    requires Slug(name) != ""
    ensures var dir := RunCommands(exec, World([], Store({}, u0)), Repeated(Generate(name, content), 9999)).dir;
      && GeneratedDir(dir, 9999)
      && !forall g :: g in dir ==> Before(g.name, Generated(dir, Slug(name), Some(content)).name)
  {
    var w, cs := World([], Store({}, u0)), Repeated(Generate(name, content), 9999);
    RepeatedWritten(Generate(name, content), 9999);
    FreshStart(exec, u0, []);
    hide Repeated, RunCommands, Written, PrefixApplied;
    GeneratedSchedulesKeepPrefix(exec, u0, w, cs, 0);
    GeneratedSortsLastExact(RunCommands(exec, w, cs).dir, 9999, Slug(name), Some(content));
  }
}
