/** Several runs of the migrations on one database, interleaved between their transactions.  Each run
    goes through its own listing with its own copy of the tracking table, read when it began. */
module MigrationRaces {
  import opened Wrappers
  import opened Keyed
  import opened Order
  import opened Migrations

  /** One run: it has read the table into `seen`, has perhaps listed the first `upto` files of the
      directory, and is about to treat file `pos`. */
  datatype Racer = Racer(listed: bool, pos: nat, upto: nat, seen: set<string>, applied: seq<string>,
                         failure: Option<Failure>)
  {
    predicate Running() { listed && failure.None? && pos < upto }
  }

  datatype Shared<U> = Shared(dir: seq<File>, db: Store<U>, runs: seq<Racer>)

  /** A run begins and reads the table, lists the directory, or treats its next file; or a file is
      added that sorts after all others, as `generate` does within four digits. */
  datatype Move = Begin | ListDir(run: nat) | Advance(run: nat, commits: bool) | Append(file: File)

  ghost predicate Legal<U>(w: Shared<U>, m: Move) {
    match m
    case Begin => true
    case ListDir(i) => i < |w.runs| && !w.runs[i].listed
    case Advance(i, _) => i < |w.runs| && w.runs[i].Running() && w.runs[i].upto <= |w.dir|
    case Append(f) => forall g :: g in w.dir ==> Before(g.name, f.name)
  }

  /** One iteration of the loop, from the test against `seen` to the commit.  The file name is the
      primary key of the tracking table, so a name already there cannot be recorded again, and the
      transaction is rolled back. */
  ghost function Treat<U>(exec: Exec<U>, db: Store<U>, f: File, r: Racer, commits: bool): (Store<U>, Racer) {
    if f.name in r.seen then (db, r.(pos := r.pos + 1))
    else if f.content.None? then (db, r.(failure := Some(Unreadable(f.name))))
    else
      match RunFile(exec, f, db.user)
      case None => (db, r.(failure := Some(Refused(f.name))))
      case Some(u) =>
        if !commits || f.name in db.tracked then (db, r.(failure := Some(NotCommitted(f.name))))
        else (Store(db.tracked + {f.name}, u), r.(pos := r.pos + 1, applied := r.applied + [f.name]))
  }

  ghost function Play<U>(exec: Exec<U>, w: Shared<U>, m: Move): Shared<U>
    requires Legal(w, m)
  {
    match m
    case Begin => w.(runs := w.runs + [Racer(false, 0, 0, w.db.tracked, [], None)])
    case ListDir(i) => w.(runs := w.runs[i := w.runs[i].(listed := true, upto := |w.dir|)])
    case Advance(i, commits) =>
      var (db, r) := Treat(exec, w.db, w.dir[w.runs[i].pos], w.runs[i], commits);
      w.(db := db, runs := w.runs[i := r])
    case Append(f) => w.(dir := w.dir + [f])
  }

  ghost predicate LegalPlay<U>(exec: Exec<U>, w: Shared<U>, ms: seq<Move>)
    decreases |ms|
  {
    ms == [] || (Legal(w, ms[0]) && LegalPlay(exec, Play(exec, w, ms[0]), ms[1..]))
  }

  ghost function PlayAll<U>(exec: Exec<U>, w: Shared<U>, ms: seq<Move>): Shared<U>
    requires LegalPlay(exec, w, ms)
    decreases |ms|
  {
    if ms == [] then w else PlayAll(exec, Play(exec, w, ms[0]), ms[1..])
  }

  // ----- what every interleaving keeps -----

  /** The run read the table when the first `k0` files were applied, and has itself applied exactly
      the files from there to where it is. */
  ghost predicate ReadAt(dir: seq<File>, r: Racer, k0: nat) {
    && k0 <= |dir| && r.seen == NamesOf(dir[..k0])
    && r.applied == if r.pos <= k0 then [] else if r.pos <= |dir| then NameList(dir, k0, r.pos) else []
  }

  ghost predicate RacerInv(dir: seq<File>, k: nat, r: Racer) {
    && r.pos <= k && r.pos <= r.upto <= |dir|
    && exists k0: nat :: k0 <= k && ReadAt(dir, r, k0)
  }

  /** The first `k` files, and only they, have taken effect, each once and in order, and every run
      fits to that. */
  ghost predicate Fits<U>(exec: Exec<U>, u0: U, w: Shared<U>, k: nat) {
    && Sorted(w.dir, FileName) && AppliedUpTo(exec, w.dir, u0, w.db, k)
    && forall i :: 0 <= i < |w.runs| ==> RacerInv(w.dir, k, w.runs[i])
  }

  lemma ReadPoint(dir: seq<File>, k: nat, r: Racer) returns (k0: nat)
    requires RacerInv(dir, k, r)
    ensures k0 <= k && ReadAt(dir, r, k0)
  {
    k0 :| k0 <= k && ReadAt(dir, r, k0);
  }

  lemma BeginFits<U>(exec: Exec<U>, u0: U, w: Shared<U>, k: nat)
    requires Fits(exec, u0, w, k)
    ensures Fits(exec, u0, Play(exec, w, Begin), k)
  {
    var r := Racer(false, 0, 0, w.db.tracked, [], None);
    assert ReadAt(w.dir, r, k);
  }

  lemma ListFits<U>(exec: Exec<U>, u0: U, w: Shared<U>, k: nat, i: nat)
    requires Fits(exec, u0, w, k) && Legal(w, ListDir(i))
    ensures Fits(exec, u0, Play(exec, w, ListDir(i)), k)
  {
    var r := w.runs[i];
    var k0 := ReadPoint(w.dir, k, r);
    assert ReadAt(w.dir, r.(listed := true, upto := |w.dir|), k0);
  }

  lemma ReadAtAppended(dir: seq<File>, f: File, r: Racer, k0: nat)
    requires ReadAt(dir, r, k0) && r.pos <= |dir|
    ensures ReadAt(dir + [f], r, k0)
  {
    assert (dir + [f])[..k0] == dir[..k0];
    if r.pos > k0 { assert NameList(dir + [f], k0, r.pos) == NameList(dir, k0, r.pos); }
  }

  lemma RacerAppended(dir: seq<File>, f: File, k: nat, r: Racer)
    requires RacerInv(dir, k, r)
    ensures RacerInv(dir + [f], k, r)
  {
    var k0 := ReadPoint(dir, k, r);
    ReadAtAppended(dir, f, r, k0);
    hide ReadAt;
  }

  lemma SortedAppend(dir: seq<File>, f: File)
    requires Sorted(dir, FileName) && forall g :: g in dir ==> Before(g.name, f.name)
    ensures Sorted(dir + [f], FileName)
  {
    forall i, j | 0 <= i < j < |dir + [f]| ensures Before(FileName((dir + [f])[i]), FileName((dir + [f])[j])) {
      if j == |dir| { assert dir[i] in dir; }
    }
  }

  lemma AppendFits<U>(exec: Exec<U>, u0: U, w: Shared<U>, k: nat, f: File)
    requires Fits(exec, u0, w, k) && Legal(w, Append(f))
    ensures Fits(exec, u0, Play(exec, w, Append(f)), k)
  {
    SortedAppend(w.dir, f);
    assert (w.dir + [f])[..k] == w.dir[..k];
    assert AppliedUpTo(exec, w.dir + [f], u0, w.db, k);
    hide Sorted, AppliedUpTo, RacerInv;
    forall i | 0 <= i < |w.runs| ensures RacerInv(w.dir + [f], k, w.runs[i]) {
      RacerAppended(w.dir, f, k, w.runs[i]);
    }
  }

  /** The outcomes of one iteration, by where the file stands: read as applied, it is passed over;
      committed by another run in the meantime, it stops this run; otherwise it is the first file that
      is not applied, and the prefix grows by it or the run stops. */
  lemma TreatExact<U>(exec: Exec<U>, u0: U, dir: seq<File>, db: Store<U>, k: nat, r: Racer, k0: nat, commits: bool)
    requires Sorted(dir, FileName) && AppliedUpTo(exec, dir, u0, db, k)
    requires r.Running() && r.pos <= k && r.pos < |dir| && k0 <= k && ReadAt(dir, r, k0)
    ensures var (t, q) := Treat(exec, db, dir[r.pos], r, commits);
      && (r.pos < k0 ==> t == db && q == r.(pos := r.pos + 1))
      && (k0 <= r.pos < k ==> t == db && q.failure.Some? && q == r.(failure := q.failure))
      && (r.pos == k ==>
            || (t == db && q.failure.Some? && q == r.(failure := q.failure))
            || (AppliedUpTo(exec, dir, u0, t, k + 1)
                && q == r.(pos := k + 1, applied := r.applied + [dir[k].name])))
  {
    PrefixNames(dir, k0, r.pos);
    PrefixNames(dir, k, r.pos);
    var f := dir[r.pos];
    if r.pos == k && f.content.Some? && RunFile(exec, f, db.user).Some? {
      AppliedNext(exec, dir, u0, db, k, RunFile(exec, f, db.user).value);
    }
  }

  lemma ReadAtNext(dir: seq<File>, r: Racer, k0: nat)
    requires ReadAt(dir, r, k0) && r.pos < |dir|
    ensures r.pos < k0 ==> ReadAt(dir, r.(pos := r.pos + 1), k0)
    ensures r.pos >= k0 ==> ReadAt(dir, r.(pos := r.pos + 1, applied := r.applied + [dir[r.pos].name]), k0)
  {
    if r.pos >= k0 { assert NameList(dir, k0, r.pos + 1) == NameList(dir, k0, r.pos) + [dir[r.pos].name]; }
  }

  lemma LaterInv(dir: seq<File>, k: nat, j: nat, r: Racer)
    requires RacerInv(dir, k, r) && k <= j
    ensures RacerInv(dir, j, r)
  {
    var k0 := ReadPoint(dir, k, r);
    hide ReadAt;
  }

  lemma TreatFits<U>(exec: Exec<U>, u0: U, dir: seq<File>, db: Store<U>, k: nat, r: Racer, commits: bool)
    returns (j: nat)
    requires Sorted(dir, FileName) && AppliedUpTo(exec, dir, u0, db, k) && RacerInv(dir, k, r) && r.Running()
    ensures k <= j
    ensures var (t, q) := Treat(exec, db, dir[r.pos], r, commits);
      AppliedUpTo(exec, dir, u0, t, j) && RacerInv(dir, j, q)
  {
    var k0 := ReadPoint(dir, k, r);
    var (t, q) := Treat(exec, db, dir[r.pos], r, commits);
    TreatExact(exec, u0, dir, db, k, r, k0, commits);
    ReadAtNext(dir, r, k0);
    hide Sorted, AppliedUpTo, Treat;
    assert q == r.(failure := q.failure) ==> ReadAt(dir, q, k0);
    hide ReadAt;
    j := if r.pos == k && q.failure.None? then k + 1 else k;
    assert ReadAt(dir, q, k0);
  }

  lemma AdvanceFits<U>(exec: Exec<U>, u0: U, w: Shared<U>, k: nat, i: nat, commits: bool) returns (j: nat)
    requires Fits(exec, u0, w, k) && Legal(w, Advance(i, commits))
    ensures k <= j && Fits(exec, u0, Play(exec, w, Advance(i, commits)), j)
  {
    hide Sorted, AppliedUpTo, Treat, RacerInv;
    j := TreatFits(exec, u0, w.dir, w.db, k, w.runs[i], commits);
    forall n | 0 <= n < |w.runs| ensures RacerInv(w.dir, j, w.runs[n]) { LaterInv(w.dir, k, j, w.runs[n]); }
  }

  /** However runs overlap, fail, and start from stale copies of the table: the applied files stay a
      prefix of the directory, and the state is the fold of their statements, each file once. */
  lemma {:induction false} RacesKeepPrefix<U>(exec: Exec<U>, u0: U, w: Shared<U>, k: nat, ms: seq<Move>)
    returns (j: nat)
    requires Fits(exec, u0, w, k) && LegalPlay(exec, w, ms)
    ensures k <= j && Fits(exec, u0, PlayAll(exec, w, ms), j)
    decreases |ms|
  {
    j := k;
    if ms != [] {
      hide Fits, Legal, Play;
      match ms[0] {
        case Begin => BeginFits(exec, u0, w, k);
        case ListDir(i) => ListFits(exec, u0, w, k, i);
        case Append(f) => AppendFits(exec, u0, w, k, f);
        case Advance(i, commits) => j := AdvanceFits(exec, u0, w, k, i, commits);
      }
      j := RacesKeepPrefix(exec, u0, Play(exec, w, ms[0]), j, ms[1..]);
    }
  }

  // ----- no file is applied by two runs -----

  /** What the runs report as newly applied is tracked, and no name is reported twice. */
  ghost predicate ReportedOnce<U>(w: Shared<U>) {
    && (forall i :: 0 <= i < |w.runs| ==> Reported(w.runs[i], w.db.tracked))
    && (forall i, j :: 0 <= i < j < |w.runs| ==> NoneShared(w.runs[i], w.runs[j]))
  }

  ghost predicate Reported(r: Racer, tracked: set<string>) {
    && (forall n :: n in r.applied ==> n in tracked)
    && (forall a, b :: 0 <= a < b < |r.applied| ==> r.applied[a] != r.applied[b])
  }

  ghost predicate NoneShared(r: Racer, q: Racer) { forall n :: n in r.applied ==> n !in q.applied }

  lemma TreatReports<U>(exec: Exec<U>, db: Store<U>, f: File, r: Racer, commits: bool)
    requires Reported(r, db.tracked)
    ensures var (t, q) := Treat(exec, db, f, r, commits);
      && Reported(q, t.tracked) && db.tracked <= t.tracked
      && forall n :: n in q.applied && n !in r.applied ==> n !in db.tracked
  {
  }

  lemma MoveReportsOnce<U>(exec: Exec<U>, w: Shared<U>, m: Move)
    requires ReportedOnce(w) && Legal(w, m)
    ensures ReportedOnce(Play(exec, w, m))
  {
    if m.Advance? {
      var r := w.runs[m.run];
      var (t, q) := Treat(exec, w.db, w.dir[r.pos], r, m.commits);
      TreatReports(exec, w.db, w.dir[r.pos], r, m.commits);
      hide Treat;
      var runs := w.runs[m.run := q];
      forall n | 0 <= n < |runs| ensures Reported(runs[n], t.tracked) {
        if n != m.run { assert Reported(w.runs[n], w.db.tracked); }
      }
      forall i, j | 0 <= i < j < |runs| ensures NoneShared(runs[i], runs[j]) {
        assert NoneShared(w.runs[i], w.runs[j]);
        assert Reported(w.runs[i], w.db.tracked) && Reported(w.runs[j], w.db.tracked);
      }
    }
  }

  /** Over any interleaving no two runs report the same file as applied, nor one run twice. */
  lemma {:induction false} RacesReportOnce<U>(exec: Exec<U>, w: Shared<U>, ms: seq<Move>)
    requires ReportedOnce(w) && LegalPlay(exec, w, ms)
    ensures ReportedOnce(PlayAll(exec, w, ms))
    decreases |ms|
  {
    if ms != [] {
      hide ReportedOnce, Legal, Play;
      MoveReportsOnce(exec, w, ms[0]);
      RacesReportOnce(exec, Play(exec, w, ms[0]), ms[1..]);
    }
  }

  /** Both from the start: on a project where nothing has been applied yet. */
  lemma RacesFromFresh<U>(exec: Exec<U>, u0: U, dir: seq<File>, ms: seq<Move>) returns (k: nat)
    requires Sorted(dir, FileName) && LegalPlay(exec, Shared(dir, Store({}, u0), []), ms)
    ensures var w := PlayAll(exec, Shared(dir, Store({}, u0), []), ms);
      Fits(exec, u0, w, k) && ReportedOnce(w)
  {
    var w := Shared(dir, Store({}, u0), []);
    assert dir[..0] == [];
    assert Fits(exec, u0, w, 0) && ReportedOnce(w);
    hide Fits, ReportedOnce;
    k := RacesKeepPrefix(exec, u0, w, 0, ms);
    RacesReportOnce(exec, w, ms);
  }

  // ----- stale runs -----

  /** A run that meets a file another run has committed since it began stops there and changes
      nothing. */
  lemma StaleRunStops<U>(exec: Exec<U>, w: Shared<U>, i: nat, commits: bool)
    requires Legal(w, Advance(i, commits))
    requires w.dir[w.runs[i].pos].name in w.db.tracked && w.dir[w.runs[i].pos].name !in w.runs[i].seen
    ensures var t := Play(exec, w, Advance(i, commits));
      && t.db == w.db && !t.runs[i].Running() && t.runs[i].applied == w.runs[i].applied
      && t.runs[i].failure.Some? && t.runs[i].failure.value.file == w.dir[w.runs[i].pos].name
  {
  }

  /** And it never gets past such a file: in every state the interleavings reach, a run stands at or
      before the first file that another run has committed and that it did not read as applied. */
  lemma StaleRunNeverPasses<U>(exec: Exec<U>, u0: U, w: Shared<U>, k: nat, a: nat, b: nat, j: nat)
    requires Fits(exec, u0, w, k) && ReportedOnce(w) && a < |w.runs| && b < |w.runs| && a != b && j < |w.dir|
    requires w.dir[j].name in w.runs[b].applied && w.dir[j].name !in w.runs[a].seen
    ensures w.runs[a].pos <= j
  {
    var r := w.runs[a];
    assert RacerInv(w.dir, k, r);
    var k0 := ReadPoint(w.dir, k, r);
    PrefixNames(w.dir, k0, j);
    assert NoneShared(w.runs[if a < b then a else b], w.runs[if a < b then b else a]);
    assert w.dir[j].name !in r.applied;
    hide ReportedOnce, Fits, NoneShared;
    if j < r.pos { OwnFiles(w.dir, r, k0, j); }
  }

  /** A run past a file it did not read as applied has applied it. */
  lemma OwnFiles(dir: seq<File>, r: Racer, k0: nat, j: nat)
    requires ReadAt(dir, r, k0) && k0 <= j < r.pos <= |dir|
    ensures dir[j].name in r.applied
  {
    assert NameList(dir, k0, r.pos)[j - k0] == dir[j].name;
  }

  // ----- a run alone -----

  /** A run that nothing interrupts. */
  ghost function Alone<U>(exec: Exec<U>, outage: set<string>, dir: seq<File>, db: Store<U>, r: Racer): (Store<U>, Racer)
    requires r.upto <= |dir|
    decreases if r.Running() then r.upto - r.pos else 0
  {
    if !r.Running() then (db, r)
    else
      var commits := dir[r.pos].name !in outage;
      var (t, q) := Treat(exec, db, dir[r.pos], r, commits);
      Alone(exec, outage, dir, t, q)
  }

  ghost predicate UpToDate<U>(dir: seq<File>, db: Store<U>, r: Racer) {
    forall i :: r.pos <= i < |dir| ==> (dir[i].name in db.tracked ==> dir[i].name in r.seen)
  }

  lemma TreatIsApply<U>(exec: Exec<U>, outage: set<string>, files: seq<File>, db: Store<U>, r: Racer,
                        commits: bool)
    requires files != [] && (commits <==> files[0].name !in outage)
    requires r.failure.None? && (files[0].name in db.tracked ==> files[0].name in r.seen)
    ensures var f := files[0];
      var (t, q) := Treat(exec, db, f, r, commits);
      var (u, names, e) := ApplyFrom(exec, outage, r.seen, files[1..], t);
      && q.seen == r.seen && q.listed == r.listed && q.upto == r.upto
      && (q.failure.Some? ==>
            t == db && q.applied == r.applied && ApplyFrom(exec, outage, r.seen, files, db) == (db, [], q.failure))
      && (q.failure.None? ==>
            && q.pos == r.pos + 1 && t.tracked <= db.tracked + {f.name}
            && (f.name in r.seen ==>
                  q.applied == r.applied && ApplyFrom(exec, outage, r.seen, files, db) == (u, names, e))
            && (f.name !in r.seen ==>
                  q.applied == r.applied + [f.name]
                  && ApplyFrom(exec, outage, r.seen, files, db) == (u, [f.name] + names, e)))
  {
  }

  /** Nothing new: without interruption the iterations are the run of the sequential model. */
  lemma {:induction false} AloneIsApply<U>(exec: Exec<U>, outage: set<string>, dir: seq<File>, db: Store<U>, r: Racer)
    requires Sorted(dir, FileName) && r.listed && r.failure.None? && r.pos <= r.upto == |dir| && UpToDate(dir, db, r)
    ensures var (t, names, e) := ApplyFrom(exec, outage, r.seen, dir[r.pos..], db);
      var (u, q) := Alone(exec, outage, dir, db, r);
      u == t && q.applied == r.applied + names && q.failure == e
    decreases |dir| - r.pos
  {
    if r.pos == |dir| {
      assert dir[r.pos..] == [] && r.applied + [] == r.applied;
    } else {
      var f := dir[r.pos];
      assert dir[r.pos..][0] == f && dir[r.pos..][1..] == dir[r.pos + 1..];
      var commits := f.name !in outage;
      var (t, q) := Treat(exec, db, f, r, commits);
      TreatIsApply(exec, outage, dir[r.pos..], db, r, commits);
      hide Treat, ApplyFrom;
      assert r.applied + [] == r.applied;
      if q.failure.None? {
        SortedIsDistinct(dir, FileName);
        forall i | q.pos <= i < |dir| ensures dir[i].name in t.tracked ==> dir[i].name in q.seen {
          assert FileName(dir[r.pos]) != FileName(dir[i]);
        }
        AloneIsApply(exec, outage, dir, t, q);
        var names := ApplyFrom(exec, outage, q.seen, dir[q.pos..], t).1;
        assert r.applied + [f.name] + names == r.applied + ([f.name] + names);
      }
    }
  }
}
