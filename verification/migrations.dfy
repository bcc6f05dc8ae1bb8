/** Applying migrations: each pending file in filename order, in its own transaction, recorded in a
    tracking table.  Executing one statement is an abstract partial function. */
module Migrations {
  import opened Wrappers
  import opened Keyed
  import opened Order
  import opened SqlSplit

  /** A `.sql` file; `content` is `None` when reading it fails. */
  datatype File = File(name: string, content: Option<string>)

  function FileName(f: File): string { f.name }

  /** What one database does with one statement; `None` when it is refused. */
  type Exec<!U> = (string, U) -> Option<U>

  datatype Store<U> = Store(tracked: set<string>, user: U)

  // ----- the meaning of a file -----

  ghost function ExecAll<U>(exec: Exec<U>, stmts: seq<string>, u: U): Option<U> {
    if stmts == [] then Some(u)
    else match exec(stmts[0], u)
      case None => None
      case Some(u') => ExecAll(exec, stmts[1..], u')
  }

  /** `us` are the states the statements lead through, one after the other, none refused. */
  ghost predicate Trace<U>(exec: Exec<U>, stmts: seq<string>, us: seq<U>) {
    |us| == |stmts| + 1 && forall i :: 0 <= i < |stmts| ==> exec(stmts[i], us[i]) == Some(us[i + 1])
  }

  /** The statements lead from `u` to `t`, none refused. */
  ghost predicate Leads<U(!new)>(exec: Exec<U>, stmts: seq<string>, u: U, t: U) {
    exists us :: Trace(exec, stmts, us) && us[0] == u && us[|stmts|] == t
  }

  /** Some statement is refused in the state the ones before it leave. */
  ghost predicate Refuses<U(!new)>(exec: Exec<U>, stmts: seq<string>, u: U) {
    exists i: nat, t :: RefusedAt(exec, stmts, u, i, t)
  }

  ghost predicate RefusedAt<U(!new)>(exec: Exec<U>, stmts: seq<string>, u: U, i: nat, t: U) {
    i < |stmts| && Leads(exec, stmts[..i], u, t) && exec(stmts[i], t) == None
  }

  lemma {:induction false} TraceOf<U(!new)>(exec: Exec<U>, stmts: seq<string>, u: U) returns (us: seq<U>, n: nat)
    ensures n <= |stmts| && Trace(exec, stmts[..n], us) && us[0] == u
    ensures ExecAll(exec, stmts, u) == if n == |stmts| then Some(us[n]) else None
    ensures n < |stmts| ==> exec(stmts[n], us[n]) == None
  {
    if stmts == [] || exec(stmts[0], u) == None {
      us, n := [u], 0;
    } else {
      var rest, m := TraceOf(exec, stmts[1..], exec(stmts[0], u).value);
      us, n := [u] + rest, m + 1;
      forall i | 0 <= i < n ensures exec(stmts[..n][i], us[i]) == Some(us[i + 1]) {
        if i > 0 { assert stmts[1..][..m][i - 1] == stmts[i]; }
      }
    }
  }

  /** There is only one way through the statements. */
  lemma {:induction false} TraceUnique<U(!new)>(exec: Exec<U>, stmts: seq<string>, us: seq<U>, vs: seq<U>, n: nat)
    requires n <= |stmts| && |vs| == n + 1 && Trace(exec, stmts[..n], vs)
    requires 0 < |us| <= |stmts| + 1 && Trace(exec, stmts[..|us| - 1], us) && us[0] == vs[0]
    ensures forall i :: 0 <= i < |us| && i <= n ==> us[i] == vs[i]
  {
    if |us| > 1 {
      var k := |us| - 1;
      assert forall i :: 0 <= i < k - 1 ==> stmts[..k - 1][i] == stmts[..k][i];
      TraceUnique(exec, stmts, us[..k], vs, n);
      if k <= n {
        assert us[..k][k - 1] == us[k - 1] == vs[k - 1];
        assert stmts[..k][k - 1] == stmts[k - 1] && stmts[..n][k - 1] == stmts[k - 1];
      }
    }
  }

  lemma GoesOn<U(!new)>(exec: Exec<U>, stmts: seq<string>, us: seq<U>, n: nat)
    requires Trace(exec, stmts, us) && n < |stmts|
    ensures exec(stmts[n], us[n]) == Some(us[n + 1])
  {
  }

  /** All or nothing: the statements take effect exactly when they lead from state to state, and
      nothing is kept exactly when one of them is refused where the ones before it lead. */
  lemma ExecAllExact<U(!new)>(exec: Exec<U>, stmts: seq<string>, u: U)
    ensures forall t :: ExecAll(exec, stmts, u) == Some(t) <==> Leads(exec, stmts, u, t)
    ensures ExecAll(exec, stmts, u) == None <==> Refuses(exec, stmts, u)
  {
    var vs, n := TraceOf(exec, stmts, u);
    assert stmts[..|stmts|] == stmts;
    forall t | Leads(exec, stmts, u, t) ensures ExecAll(exec, stmts, u) == Some(t) {
      var us :| Trace(exec, stmts, us) && us[0] == u && us[|stmts|] == t;
      TraceUnique(exec, stmts, us, vs, n);
      if n < |stmts| { GoesOn(exec, stmts, us, n); }
    }
    if n < |stmts| { assert RefusedAt(exec, stmts, u, n, vs[n]); }
    if Refuses(exec, stmts, u) {
      var i: nat, t :| RefusedAt(exec, stmts, u, i, t);
      var us :| Trace(exec, stmts[..i], us) && us[0] == u && us[i] == t;
      TraceUnique(exec, stmts, us, vs, n);
      assert i < n ==> exec(stmts[..n][i], vs[i]) == Some(vs[i + 1]);
    }
  }

  ghost function RunFile<U>(exec: Exec<U>, f: File, u: U): Option<U> {
    if f.content.None? then None else ExecAll(exec, Statements(f.content.value), u)
  }

  /** The files one after the other. */
  ghost function RunFiles<U>(exec: Exec<U>, files: seq<File>, u: U): Option<U> {
    if files == [] then Some(u)
    else match RunFile(exec, files[0], u)
      case None => None
      case Some(u') => RunFiles(exec, files[1..], u')
  }

  lemma {:induction false} RunFilesAppend<U>(exec: Exec<U>, a: seq<File>, b: seq<File>, u: U)
    ensures RunFiles(exec, a + b, u) ==
      if RunFiles(exec, a, u).None? then None else RunFiles(exec, b, RunFiles(exec, a, u).value)
  {
    if a == [] {
      assert a + b == b;
    } else {
      assert (a + b)[1..] == a[1..] + b;
      var r := RunFile(exec, a[0], u);
      if r.Some? { RunFilesAppend(exec, a[1..], b, r.value); }
    }
  }

  // ----- apply_with -----

  /** Why a run stopped: the file, and whether it was unreadable, refused, or not committed. */
  datatype Failure = Unreadable(file: string) | Refused(file: string) | NotCommitted(file: string)

  /** One run over the listing `files`: the store it leaves, the files it applied, and how it ended.
      `seen` is the tracking table as read at the start; `outage` holds the files whose transaction
      the database fails to begin, record or commit in this run. */
  ghost function ApplyFrom<U>(exec: Exec<U>, outage: set<string>, seen: set<string>,
                              files: seq<File>, s: Store<U>): (Store<U>, seq<string>, Option<Failure>)
    decreases |files|
  {
    if files == [] then (s, [], None)
    else
      var f := files[0];
      if f.name in seen then ApplyFrom(exec, outage, seen, files[1..], s)
      else if f.content.None? then (s, [], Some(Unreadable(f.name)))
      else match RunFile(exec, f, s.user)
        case None => (s, [], Some(Refused(f.name)))
        case Some(u) =>
          if f.name in outage then (s, [], Some(NotCommitted(f.name)))
          else
            var (t, names, e) :=
              ApplyFrom(exec, outage, seen, files[1..], Store(s.tracked + {f.name}, u));
            (t, [f.name] + names, e)
  }

  class Db<!U(!new)> {
    const exec: Exec<U>
    var tracked: set<string>
    var user: U

    constructor (exec: Exec<U>, user: U)
      ensures this.exec == exec && Value() == Store({}, user)
    {
      this.exec, this.tracked, this.user := exec, {}, user;
    }

    ghost function Value(): Store<U>
      reads this
    {
      Store(tracked, user)
    }

    /** `apply_with`: on failure the files committed before it stay applied. */
    method Apply(files: seq<File>, outage: set<string>) returns (newly: seq<string>, failure: Option<Failure>)
      modifies this`tracked, this`user
      ensures (Value(), newly, failure) == ApplyFrom(exec, outage, old(tracked), files, old(Value()))
    {
      var seen := tracked;
      newly := [];
      ghost var whole := ApplyFrom(exec, outage, seen, files, Value());
      assert files[0..] == files;
      for i := 0 to |files|
        invariant ApplyFrom(exec, outage, seen, files[i..], Value()).0 == whole.0
        invariant newly + ApplyFrom(exec, outage, seen, files[i..], Value()).1 == whole.1
        invariant ApplyFrom(exec, outage, seen, files[i..], Value()).2 == whole.2
      {
        var f := files[i];
        assert files[i..][0] == f && files[i..][1..] == files[i + 1..];
        assert newly + [] == newly;
        if f.name in seen { continue; }
        if f.content.None? { return newly, Some(Unreadable(f.name)); }
        var tx := Transaction(f.content.value);
        if tx.None? { return newly, Some(Refused(f.name)); }
        if f.name in outage { return newly, Some(NotCommitted(f.name)); }
        user, tracked := tx.value, tracked + {f.name};
        newly := newly + [f.name];
      }
      assert newly + [] == newly;
      return newly, None;
    }

    /** The statements of one file inside its transaction; nothing is kept unless it commits. */
    method Transaction(sql: string) returns (tx: Option<U>)
      ensures tx == ExecAll(exec, Statements(sql), user)
      ensures forall t :: tx == Some(t) <==> Leads(exec, Statements(sql), user, t)
      ensures tx == None <==> Refuses(exec, Statements(sql), user)
    {
      ExecAllExact(exec, Statements(sql), user);
      hide Leads, Refuses;
      var stmts := SplitSql(sql);
      var state := user;
      for i := 0 to |stmts|
        invariant ExecAll(exec, stmts[i..], state) == ExecAll(exec, stmts, user)
      {
        assert stmts[i..][1..] == stmts[i + 1..];
        match exec(stmts[i], state)
        case None => return None;
        case Some(next) => state := next;
      }
      return Some(state);
    }
  }

  /** `status().pending`. */
  ghost function Pending(files: seq<File>, tracked: set<string>): seq<string> {
    if files == [] then []
    else (if files[0].name !in tracked then [files[0].name] else []) + Pending(files[1..], tracked)
  }

  // ----- the prefix property -----

  ghost function NamesOf(files: seq<File>): set<string> { set f | f in files :: f.name }

  /** The first `k` files, and only they, have taken effect, each once and in order. */
  ghost predicate AppliedUpTo<U>(exec: Exec<U>, files: seq<File>, u0: U, s: Store<U>, k: nat) {
    && k <= |files|
    && s.tracked == NamesOf(files[..k])
    && RunFiles(exec, files[..k], u0) == Some(s.user)
  }

  lemma PrefixNames(files: seq<File>, k: nat, i: nat)
    requires Sorted(files, FileName) && k <= |files| && i < |files|
    ensures files[i].name in NamesOf(files[..k]) <==> i < k
  {
    SortedIsDistinct(files, FileName);
    if i < k { assert files[..k][i] == files[i]; assert files[i] in files[..k]; }
    if files[i].name in NamesOf(files[..k]) {
      var f :| f in files[..k] && f.name == files[i].name;
      var j :| 0 <= j < k && files[..k][j] == f;
      assert FileName(files[j]) == FileName(files[i]);
    }
  }

  lemma NamesSnoc(files: seq<File>, k: nat)
    requires k < |files|
    ensures NamesOf(files[..k + 1]) == NamesOf(files[..k]) + {files[k].name}
  {
  }

  ghost function NameList(files: seq<File>, i: nat, j: nat): seq<string>
    requires i <= j <= |files|
  {
    seq(j - i, k requires 0 <= k < j - i => files[i + k].name)
  }

  /** One committed file takes the prefix one further. */
  lemma AppliedNext<U>(exec: Exec<U>, files: seq<File>, u0: U, s: Store<U>, k: nat, u: U)
    requires AppliedUpTo(exec, files, u0, s, k) && k < |files|
    requires RunFile(exec, files[k], s.user) == Some(u)
    ensures AppliedUpTo(exec, files, u0, Store(s.tracked + {files[k].name}, u), k + 1)
  {
    NamesSnoc(files, k);
    assert files[..k + 1] == files[..k] + [files[k]];
    RunFilesAppend(exec, files[..k], [files[k]], u0);
    assert [files[k]][1..] == [];
  }

  /** The failure a run reports when it stops at file `k`. */
  ghost function FailureAt<U>(exec: Exec<U>, f: File, u: U): Failure {
    if f.content.None? then Unreadable(f.name)
    else if RunFile(exec, f, u).None? then Refused(f.name)
    else NotCommitted(f.name)
  }

  lemma ListedNext(files: seq<File>, i: nat, j: nat)
    requires i < j <= |files|
    ensures NameList(files, i, j) == [files[i].name] + NameList(files, i + 1, j)
  {
  }

  /** From a prefix of `i` applied files a run reaches a longer prefix: it ends at `j`, lists exactly
      the files between, and fails, if it does, on file `j` and for the reason that file gives. */
  lemma {:induction false} RunPending<U>(exec: Exec<U>, outage: set<string>, seen: set<string>,
                                         files: seq<File>, u0: U, s: Store<U>, i: nat) returns (j: nat)
    requires Sorted(files, FileName) && AppliedUpTo(exec, files, u0, s, i)
    requires forall k :: i <= k < |files| ==> files[k].name !in seen
    ensures var (t, names, e) := ApplyFrom(exec, outage, seen, files[i..], s);
      && i <= j && AppliedUpTo(exec, files, u0, t, j) && names == NameList(files, i, j)
      && (e.None? <==> j == |files|)
      && (e.Some? ==> j < |files| && e.value == FailureAt(exec, files[j], t.user)
                      && (e.value.NotCommitted? ==> files[j].name in outage))
    decreases |files| - i
  {
    if i == |files| {
      j := i;
    } else {
      var f := files[i];
      assert files[i..][0] == f && files[i..][1..] == files[i + 1..];
      var r := RunFile(exec, f, s.user);
      if r.Some? && f.name !in outage {
        AppliedNext(exec, files, u0, s, i, r.value);
        j := RunPending(exec, outage, seen, files, u0, Store(s.tracked + {f.name}, r.value), i + 1);
        ListedNext(files, i, j);
      } else {
        j := i;
      }
    }
  }

  /** Files already in the tracking table are passed over. */
  lemma {:induction false} SkipApplied<U>(exec: Exec<U>, outage: set<string>, seen: set<string>,
                                          files: seq<File>, s: Store<U>, k: nat)
    requires k <= |files| && forall i :: 0 <= i < k ==> files[i].name in seen
    ensures ApplyFrom(exec, outage, seen, files, s) == ApplyFrom(exec, outage, seen, files[k..], s)
    decreases k
  {
    if k == 0 {
      assert files[0..] == files;
    } else {
      assert files[1..][k - 1..] == files[k..];
      assert forall i :: 0 <= i < k - 1 ==> files[1..][i] == files[i + 1];
      SkipApplied(exec, outage, seen, files[1..], s, k - 1);
    }
  }

  /** A whole run on a sorted directory whose first `k` files are applied. */
  lemma ApplyExtendsPrefix<U>(exec: Exec<U>, outage: set<string>, files: seq<File>, u0: U,
                              s: Store<U>, k: nat) returns (j: nat)
    requires Sorted(files, FileName) && AppliedUpTo(exec, files, u0, s, k)
    ensures var (t, names, e) := ApplyFrom(exec, outage, s.tracked, files, s);
      && k <= j && AppliedUpTo(exec, files, u0, t, j) && names == NameList(files, k, j)
      && (e.None? <==> j == |files|)
      && (e.Some? ==> j < |files| && e.value == FailureAt(exec, files[j], t.user)
                      && (e.value.NotCommitted? ==> files[j].name in outage))
  {
    forall i | 0 <= i < |files| ensures files[i].name in s.tracked <==> i < k { PrefixNames(files, k, i); }
    SkipApplied(exec, outage, s.tracked, files, s, k);
    j := RunPending(exec, outage, s.tracked, files, u0, s, k);
  }

  lemma {:induction false} PendingNone(files: seq<File>, tracked: set<string>)
    ensures Pending(files, tracked) == [] <==> forall f :: f in files ==> f.name in tracked
  {
    if files != [] {
      PendingNone(files[1..], tracked);
      assert files == [files[0]] + files[1..];
    }
  }

  /** After a run that succeeded nothing is pending, and any run right after it applies nothing,
      changes nothing and succeeds, whatever outage it meets. */
  lemma SuccessIsIdempotent<U>(exec: Exec<U>, outage: set<string>, later: set<string>, files: seq<File>,
                               u0: U, s: Store<U>, k: nat)
    requires Sorted(files, FileName) && AppliedUpTo(exec, files, u0, s, k)
    requires ApplyFrom(exec, outage, s.tracked, files, s).2.None?
    ensures var t := ApplyFrom(exec, outage, s.tracked, files, s).0;
      && Pending(files, t.tracked) == []
      && ApplyFrom(exec, later, t.tracked, files, t) == (t, [], None)
  {
    var j := ApplyExtendsPrefix(exec, outage, files, u0, s, k);
    var t := ApplyFrom(exec, outage, s.tracked, files, s).0;
    assert files[..j] == files;
    PendingNone(files, t.tracked);
    assert forall i :: 0 <= i < |files| ==> files[i] in files;
    SkipApplied(exec, later, t.tracked, files, t, |files|);
  }

  // ----- what a run reports, file by file -----

  /** The file's statements lead from `u` to `t`, none refused. */
  ghost predicate Ran<U(!new)>(exec: Exec<U>, f: File, u: U, t: U) {
    f.content.Some? && Leads(exec, Statements(f.content.value), u, t)
  }

  /** The run ends on the file `f` in the state `u`, for the reason it reports. */
  ghost predicate EndsOn<U(!new)>(exec: Exec<U>, f: File, outage: set<string>, u: U, e: Failure) {
    && e.file == f.name
    && (e.Unreadable? ==> f.content.None?)
    && (e.Refused? ==> f.content.Some? && Refuses(exec, Statements(f.content.value), u))
    && (e.NotCommitted? ==> f.name in outage && exists t :: Ran(exec, f, u, t))
  }

  ghost predicate RanFrom<U(!new)>(exec: Exec<U>, files: seq<File>, name: string, u: U, t: U) {
    exists f :: f in files && f.name == name && Ran(exec, f, u, t)
  }

  ghost predicate Stops<U(!new)>(exec: Exec<U>, files: seq<File>, outage: set<string>, seen: set<string>, u: U,
                                 e: Failure) {
    exists f :: f in files && f.name !in seen && EndsOn(exec, f, outage, u, e)
  }

  /** The states `us` a run leads through: one file after the other ran as a whole, each from the state
      the one before it left; these files and no others are recorded; and a failure is that of a file
      which did not run as a whole, or did not commit, and changed nothing. */
  ghost predicate Reports<U(!new)>(exec: Exec<U>, outage: set<string>, seen: set<string>, files: seq<File>,
                                   s: Store<U>, t: Store<U>, names: seq<string>, e: Option<Failure>, us: seq<U>) {
    && |us| == |names| + 1 && us[0] == s.user && us[|names|] == t.user
    && (forall n :: n in t.tracked <==> n in s.tracked || n in names)
    && (forall i :: 0 <= i < |names| ==> names[i] !in seen && RanFrom(exec, files, names[i], us[i], us[i + 1]))
    && (e.Some? ==> Stops(exec, files, outage, seen, t.user, e.value))
    && (e.None? ==> forall f :: f in files ==> f.name in seen || f.name in names)
  }

  lemma RunFileExact<U(!new)>(exec: Exec<U>, f: File, u: U)
    ensures forall t :: RunFile(exec, f, u) == Some(t) <==> Ran(exec, f, u, t)
    ensures f.content.Some? ==> (RunFile(exec, f, u) == None <==> Refuses(exec, Statements(f.content.value), u))
  {
    if f.content.Some? { ExecAllExact(exec, Statements(f.content.value), u); }
  }

  lemma LaterFile<U(!new)>(exec: Exec<U>, outage: set<string>, seen: set<string>, files: seq<File>, u: U, t: U,
                           name: string, e: Failure)
    requires files != []
    ensures RanFrom(exec, files[1..], name, u, t) ==> RanFrom(exec, files, name, u, t)
    ensures Stops(exec, files[1..], outage, seen, u, e) ==> Stops(exec, files, outage, seen, u, e)
  {
  }

  lemma ReportsSkip<U(!new)>(exec: Exec<U>, outage: set<string>, seen: set<string>, files: seq<File>,
                             s: Store<U>, t: Store<U>, names: seq<string>, e: Option<Failure>, us: seq<U>)
    requires files != [] && files[0].name in seen && Reports(exec, outage, seen, files[1..], s, t, names, e, us)
    ensures Reports(exec, outage, seen, files, s, t, names, e, us)
  {
    forall i | 0 <= i < |names| ensures RanFrom(exec, files, names[i], us[i], us[i + 1]) {
      LaterFile(exec, outage, seen, files, us[i], us[i + 1], names[i], Refused(""));
    }
    if e.Some? { LaterFile(exec, outage, seen, files, t.user, t.user, "", e.value); }
    assert files == [files[0]] + files[1..];
  }

  lemma FirstThenRest<U(!new)>(exec: Exec<U>, files: seq<File>, seen: set<string>, u0: U, names: seq<string>,
                               us: seq<U>)
    requires files != [] && files[0].name !in seen && |us| == |names| + 1 && Ran(exec, files[0], u0, us[0])
    requires forall i :: 0 <= i < |names| ==>
      names[i] !in seen && RanFrom(exec, files[1..], names[i], us[i], us[i + 1])
    ensures var ns, vs := [files[0].name] + names, [u0] + us;
      forall i :: 0 <= i < |ns| ==> ns[i] !in seen && RanFrom(exec, files, ns[i], vs[i], vs[i + 1])
  {
    var ns, vs := [files[0].name] + names, [u0] + us;
    assert RanFrom(exec, files, ns[0], vs[0], vs[1]);
    forall i | 0 < i < |ns| ensures ns[i] !in seen && RanFrom(exec, files, ns[i], vs[i], vs[i + 1]) {
      LaterFile(exec, {}, seen, files, us[i - 1], us[i], names[i - 1], Refused(""));
    }
  }

  lemma ReportsFirst<U(!new)>(exec: Exec<U>, outage: set<string>, seen: set<string>, files: seq<File>,
                              s: Store<U>, u: U, t: Store<U>, names: seq<string>, e: Option<Failure>, us: seq<U>)
    requires files != [] && files[0].name !in seen && Ran(exec, files[0], s.user, u)
    requires Reports(exec, outage, seen, files[1..], Store(s.tracked + {files[0].name}, u), t, names, e, us)
    ensures Reports(exec, outage, seen, files, s, t, [files[0].name] + names, e, [s.user] + us)
  {
    hide RanFrom, Stops, Ran;
    FirstThenRest(exec, files, seen, s.user, names, us);
    if e.Some? { LaterFile(exec, outage, seen, files, t.user, t.user, "", e.value); }
    assert files == [files[0]] + files[1..];
  }

  /** Every run reports exactly what it did. */
  lemma {:induction false} RunReports<U(!new)>(exec: Exec<U>, outage: set<string>, seen: set<string>,
                                               files: seq<File>, s: Store<U>) returns (us: seq<U>)
    ensures var (t, names, e) := ApplyFrom(exec, outage, seen, files, s);
      Reports(exec, outage, seen, files, s, t, names, e, us)
    decreases |files|
  {
    us := [s.user];
    if files != [] {
      var f := files[0];
      RunFileExact(exec, f, s.user);
      if f.name in seen {
        us := RunReports(exec, outage, seen, files[1..], s);
        var (t, names, e) := ApplyFrom(exec, outage, seen, files[1..], s);
        ReportsSkip(exec, outage, seen, files, s, t, names, e, us);
      } else if RunFile(exec, f, s.user).Some? && f.name !in outage {
        var u := RunFile(exec, f, s.user).value;
        var next := Store(s.tracked + {f.name}, u);
        us := RunReports(exec, outage, seen, files[1..], next);
        var (t, names, e) := ApplyFrom(exec, outage, seen, files[1..], next);
        ReportsFirst(exec, outage, seen, files, s, u, t, names, e, us);
        us := [s.user] + us;
      } else {
        assert EndsOn(exec, f, outage, s.user, FailureAt(exec, f, s.user));
      }
    }
  }

  /** A pending file with a refused statement stops the run with itself, recording and changing
      nothing. */
  lemma RefusedStops<U(!new)>(exec: Exec<U>, outage: set<string>, files: seq<File>, u0: U, s: Store<U>, k: nat)
    requires Sorted(files, FileName) && AppliedUpTo(exec, files, u0, s, k) && k < |files|
    requires files[k].content.Some? && Refuses(exec, Statements(files[k].content.value), s.user)
    ensures ApplyFrom(exec, outage, s.tracked, files, s) == (s, [], Some(Refused(files[k].name)))
  {
    RunFileExact(exec, files[k], s.user);
    forall i | 0 <= i < |files| ensures files[i].name in s.tracked <==> i < k { PrefixNames(files, k, i); }
    SkipApplied(exec, outage, s.tracked, files, s, k);
    assert files[k..][0] == files[k];
  }

  lemma {:induction false} PendingConcat(a: seq<File>, b: seq<File>, tracked: set<string>)
    ensures Pending(a + b, tracked) == Pending(a, tracked) + Pending(b, tracked)
  {
    if a == [] {
      assert a + b == b;
    } else {
      assert (a + b)[1..] == a[1..] + b;
      PendingConcat(a[1..], b, tracked);
    }
  }

  lemma {:induction false} PendingAll(files: seq<File>, tracked: set<string>)
    requires forall f :: f in files ==> f.name !in tracked
    ensures Pending(files, tracked) == NameList(files, 0, |files|)
  {
    if files != [] { PendingAll(files[1..], tracked); }
  }

  lemma NoneTracked<U>(exec: Exec<U>, files: seq<File>, u0: U, s: Store<U>, k: nat)
    requires Sorted(files, FileName) && AppliedUpTo(exec, files, u0, s, k)
    ensures forall f :: f in files[k..] ==> f.name !in s.tracked
  {
    forall f | f in files[k..] ensures f.name !in s.tracked {
      var i :| 0 <= i < |files[k..]| && files[k..][i] == f;
      PrefixNames(files, k, k + i);
    }
  }

  /** `status` lists as pending exactly the files after the applied ones, in order. */
  lemma PendingIsRest<U>(exec: Exec<U>, files: seq<File>, u0: U, s: Store<U>, k: nat)
    requires Sorted(files, FileName) && AppliedUpTo(exec, files, u0, s, k)
    ensures Pending(files, s.tracked) == NameList(files, k, |files|)
  {
    hide Pending, Sorted;
    NoneTracked(exec, files, u0, s, k);
    assert files == files[..k] + files[k..];
    PendingConcat(files[..k], files[k..], s.tracked);
    PendingNone(files[..k], s.tracked);
    PendingAll(files[k..], s.tracked);
  }

  // ----- schedules -----

  /** What may happen to a project: a file is added, a file that is not applied yet is edited, or the
      migrations are applied. */
  datatype Event = AddFile(file: File) | EditFile(name: string, content: Option<string>) | RunApply(outage: set<string>)

  datatype World<U> = World(dir: seq<File>, db: Store<U>)

  ghost predicate NewName(dir: seq<File>, f: File) { !HasKey(dir, FileName, f.name) }

  /** The file sorts after every file that has been applied. */
  ghost predicate AfterApplied<U>(w: World<U>, f: File) {
    forall g :: g in w.dir && g.name in w.db.tracked ==> Before(g.name, f.name)
  }

  ghost predicate Legal<U>(w: World<U>, e: Event) {
    match e
    case AddFile(f) => NewName(w.dir, f) && AfterApplied(w, f)
    case EditFile(name, _) => name !in w.db.tracked
    case RunApply(_) => true
  }

  function WithContent(files: seq<File>, name: string, content: Option<string>): (r: seq<File>)
    ensures |r| == |files|
    ensures forall i :: 0 <= i < |files| ==>
      r[i] == if files[i].name == name then File(name, content) else files[i]
  {
    seq(|files|, i requires 0 <= i < |files| =>
      if files[i].name == name then File(name, content) else files[i])
  }

  ghost function Step<U>(exec: Exec<U>, w: World<U>, e: Event): World<U> {
    match e
    case AddFile(f) => w.(dir := SortBy(w.dir + [f], FileName))
    case EditFile(name, content) => w.(dir := WithContent(w.dir, name, content))
    case RunApply(outage) => w.(db := ApplyFrom(exec, outage, w.db.tracked, w.dir, w.db).0)
  }

  ghost predicate LegalRun<U>(exec: Exec<U>, w: World<U>, events: seq<Event>)
    decreases |events|
  {
    events == [] || (Legal(w, events[0]) && LegalRun(exec, Step(exec, w, events[0]), events[1..]))
  }

  ghost function RunEvents<U>(exec: Exec<U>, w: World<U>, events: seq<Event>): World<U>
    decreases |events|
  {
    if events == [] then w else RunEvents(exec, Step(exec, w, events[0]), events[1..])
  }

  ghost predicate PrefixApplied<U>(exec: Exec<U>, u0: U, w: World<U>) {
    Sorted(w.dir, FileName) && exists k :: AppliedUpTo(exec, w.dir, u0, w.db, k)
  }

  lemma PushSorts(files: seq<File>, f: File)
    requires Sorted(files, FileName) && NewName(files, f)
    ensures var dir := SortBy(files + [f], FileName);
      Sorted(dir, FileName) && SameElements(dir, files + [f])
  {
    SortedIsDistinct(files, FileName);
    IndexKeys(files, FileName, f.name);
    PushIndex(files, f, FileName);
    SortSorts(files + [f], FileName);
  }

  /** A file that sorts after the first `k` leaves them in place. */
  lemma PushKeepsPrefix(files: seq<File>, f: File, k: nat)
    requires Sorted(files, FileName) && NewName(files, f) && k <= |files|
    requires forall i :: 0 <= i < k ==> Before(files[i].name, f.name)
    ensures |SortBy(files + [f], FileName)| >= k && SortBy(files + [f], FileName)[..k] == files[..k]
  {
    var front, back := files[..k], files[k..];
    assert files == front + back && files + [f] == front + (back + [f]);
    var tail := SortBy(back + [f], FileName);
    BackIsNew(files, f, k);
    hide Sorted, SortBy;
    PushSorts(back, f);
    PushSorts(files, f);
    forall x | x in tail ensures forall i :: 0 <= i < k ==> Before(front[i].name, x.name) {
      assert x in back + [f];
      if x != f { AfterFront(files, k, x); }
    }
    SortedConcat(front, tail);
    SortedUnique(front + tail, SortBy(files + [f], FileName), FileName);
  }

  lemma AfterFront(files: seq<File>, k: nat, x: File)
    requires Sorted(files, FileName) && k <= |files| && x in files[k..]
    ensures forall i :: 0 <= i < k ==> Before(files[i].name, x.name)
  {
  }

  lemma BackIsNew(files: seq<File>, f: File, k: nat)
    requires Sorted(files, FileName) && NewName(files, f) && k <= |files|
    ensures NewName(files[k..], f) && Sorted(files[k..], FileName) && Sorted(files[..k], FileName)
  {
  }

  lemma SortedConcat(a: seq<File>, b: seq<File>)
    requires Sorted(a, FileName) && Sorted(b, FileName)
    requires forall y :: y in b ==> forall i :: 0 <= i < |a| ==> Before(a[i].name, y.name)
    ensures Sorted(a + b, FileName)
  {
  }

  lemma AddFileKeepsPrefix<U>(exec: Exec<U>, u0: U, w: World<U>, f: File, k: nat)
    requires Sorted(w.dir, FileName) && AppliedUpTo(exec, w.dir, u0, w.db, k)
    requires NewName(w.dir, f) && AfterApplied(w, f)
    ensures PrefixApplied(exec, u0, Step(exec, w, AddFile(f)))
  {
    forall i | 0 <= i < k ensures Before(w.dir[i].name, f.name) {
      PrefixNames(w.dir, k, i);
      assert w.dir[i] in w.dir;
    }
    PushSorts(w.dir, f);
    PushKeepsPrefix(w.dir, f, k);
    assert AppliedUpTo(exec, SortBy(w.dir + [f], FileName), u0, w.db, k);
  }

  lemma AddFileBreaksPrefix<U>(exec: Exec<U>, u0: U, w: World<U>, f: File)
    requires PrefixApplied(exec, u0, w) && NewName(w.dir, f)
    requires PrefixApplied(exec, u0, Step(exec, w, AddFile(f)))
    ensures AfterApplied(w, f)
  {
    var k: nat :| AppliedUpTo(exec, w.dir, u0, w.db, k);
    var dir := SortBy(w.dir + [f], FileName);
    var j: nat :| AppliedUpTo(exec, dir, u0, w.db, j);
    PushSorts(w.dir, f);
    assert f.name !in w.db.tracked by {
      forall g | g in w.dir[..k] ensures g.name != f.name {
        var i :| 0 <= i < k && w.dir[i] == g;
        assert FileName(w.dir[i]) != f.name;
      }
    }
    assert f in w.dir + [f];
    var x :| 0 <= x < |dir| && dir[x] == f;
    PrefixNames(dir, j, x);
    forall g | g in w.dir && g.name in w.db.tracked ensures Before(g.name, f.name) {
      assert g in w.dir + [f];
      var y :| 0 <= y < |dir| && dir[y] == g;
      PrefixNames(dir, j, y);
      assert Before(FileName(dir[y]), FileName(dir[x]));
    }
  }

  /** A new file keeps the prefix property exactly when it sorts after everything applied. */
  lemma AddFileExact<U>(exec: Exec<U>, u0: U, w: World<U>, f: File)
    requires PrefixApplied(exec, u0, w) && NewName(w.dir, f)
    ensures PrefixApplied(exec, u0, Step(exec, w, AddFile(f))) <==> AfterApplied(w, f)
  {
    if AfterApplied(w, f) {
      var k: nat :| AppliedUpTo(exec, w.dir, u0, w.db, k);
      AddFileKeepsPrefix(exec, u0, w, f, k);
    }
    if PrefixApplied(exec, u0, Step(exec, w, AddFile(f))) { AddFileBreaksPrefix(exec, u0, w, f); }
  }

  lemma StepKeepsPrefix<U>(exec: Exec<U>, u0: U, w: World<U>, e: Event)
    requires PrefixApplied(exec, u0, w) && Legal(w, e)
    ensures PrefixApplied(exec, u0, Step(exec, w, e))
  {
    var k: nat :| AppliedUpTo(exec, w.dir, u0, w.db, k);
    match e
    case AddFile(f) => AddFileKeepsPrefix(exec, u0, w, f, k);
    case EditFile(name, content) =>
      var dir := WithContent(w.dir, name, content);
      assert forall i :: 0 <= i < |dir| ==> FileName(dir[i]) == FileName(w.dir[i]);
      forall i | 0 <= i < k ensures dir[i] == w.dir[i] { PrefixNames(w.dir, k, i); }
      assert dir[..k] == w.dir[..k];
      assert AppliedUpTo(exec, dir, u0, w.db, k);
    case RunApply(outage) =>
      var j := ApplyExtendsPrefix(exec, outage, w.dir, u0, w.db, k);
  }

  /** Over every schedule the applied files form a prefix of the sorted directory, and the database
      is the fold of those files, each once and in order. */
  lemma {:induction false} SchedulesKeepPrefix<U>(exec: Exec<U>, u0: U, w: World<U>, events: seq<Event>)
    requires PrefixApplied(exec, u0, w) && LegalRun(exec, w, events)
    ensures PrefixApplied(exec, u0, RunEvents(exec, w, events))
    decreases |events|
  {
    if events != [] {
      StepKeepsPrefix(exec, u0, w, events[0]);
      SchedulesKeepPrefix(exec, u0, Step(exec, w, events[0]), events[1..]);
    }
  }

  /** A fresh database starts out with the empty prefix applied. */
  lemma FreshStart<U>(exec: Exec<U>, u0: U, dir: seq<File>)
    requires Sorted(dir, FileName)
    ensures PrefixApplied(exec, u0, World(dir, Store({}, u0)))
  {
    assert dir[..0] == [];
    assert AppliedUpTo(exec, dir, u0, Store({}, u0), 0);
  }
}
