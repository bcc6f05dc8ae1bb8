/** The login rate limiter, and how many failures interleaved login attempts can record. */
module Limiter {
  import opened Wrappers

  const U32_MAX: nat := 0xFFFF_FFFF

  /** Instants and durations are counted in one unit. */
  datatype FailureEntry = FailureEntry(count: nat, locked_until: nat)

  datatype Params = Params(max_failures: nat, lockout: nat) {
    ghost predicate Valid() { max_failures <= U32_MAX && lockout > 0 }
  }

  predicate Locked(p: Params, e: FailureEntry) { e.count >= p.max_failures }

  // ----- the limiter on one key -----

  /** The verdict of `check`, and the entry it leaves. */
  function CheckEntry(p: Params, e: Option<FailureEntry>, now: nat): (Option<FailureEntry>, Result<(), nat>) {
    if e.None? || !Locked(p, e.value) then (e, Ok(()))
    else if e.value.locked_until > now then (e, Err(e.value.locked_until - now))
    else (None, Ok(()))
  }

  function FailEntry(p: Params, e: Option<FailureEntry>, now: nat): FailureEntry {
    var entry := if e.Some? then e.value else FailureEntry(0, now);
    var count := if entry.count < U32_MAX then entry.count + 1 else entry.count;
    FailureEntry(count, if count >= p.max_failures then now + p.lockout else entry.locked_until)
  }

  class LoginRateLimiter {
    const params: Params
    var failures: map<string, FailureEntry>

    constructor WithParams(max_failures: nat, lockout: nat)
      ensures params == Params(max_failures, lockout) && failures == map[]
    {
      params, failures := Params(max_failures, lockout), map[];
    }

    function Entry(key: string): Option<FailureEntry>
      reads this
    {
      if key in failures then Some(failures[key]) else None
    }

    twostate predicate OthersKept(key: string)
      reads this
    {
      forall k :: k != key ==> Entry(k) == old(Entry(k))
    }

    /** `check`: refuses while the key is locked out, with the time that is left. */
    method Check(key: string, now: nat) returns (r: Result<(), nat>)
      modifies this`failures
      ensures (Entry(key), r) == CheckEntry(params, old(Entry(key)), now)
      ensures OthersKept(key)
    {
      if key in failures && failures[key].count >= params.max_failures {
        var entry := failures[key];
        if entry.locked_until > now {
          return Err(entry.locked_until - now);
        }
        failures := failures - {key};
      }
      return Ok(());
    }

    /** `record_failure`. */
    method RecordFailure(key: string, now: nat)
      modifies this`failures
      ensures Entry(key) == Some(FailEntry(params, old(Entry(key)), now))
      ensures OthersKept(key)
    {
      if key !in failures { failures := failures[key := FailureEntry(0, now)]; }
      var count := if failures[key].count < U32_MAX then failures[key].count + 1 else failures[key].count;
      failures := failures[key := failures[key].(count := count)];
      if count >= params.max_failures {
        failures := failures[key := failures[key].(locked_until := now + params.lockout)];
      }
    }

    /** `record_success`. */
    method RecordSuccess(key: string)
      modifies this`failures
      ensures Entry(key) == None && OthersKept(key)
    {
      failures := failures - {key};
    }
  }

  /** The time left is right: a key refused with `left` to wait is refused until then, with the rest of
      the wait, and admitted from then on, if nothing is recorded in between. */
  lemma WaitExact(p: Params, e: Option<FailureEntry>, now: nat, left: nat, later: nat)
    requires CheckEntry(p, e, now) == (e, Err(left)) && later >= now
    ensures left > 0
    ensures later < now + left ==> CheckEntry(p, e, later) == (e, Err(now + left - later))
    ensures later >= now + left ==> CheckEntry(p, e, later) == (None, Ok(()))
  {
  }

  /** From the failure that reaches the limit on, the wait is one whole lockout. */
  lemma LockingFailure(p: Params, e: Option<FailureEntry>, now: nat)
    requires p.Valid()
    ensures var f := FailEntry(p, e, now);
      CheckEntry(p, Some(f), now).1 ==
        if Locked(p, f) then Err(p.lockout) else Ok(())
    ensures var count := if e.Some? then e.value.count else 0;
      Locked(p, FailEntry(p, e, now)) <==> count + 1 >= p.max_failures
  {
  }

  // ----- interleaved attempts -----

  /** The limiter calls of `handle_login` for one key, in the order the attempts happen to make them.
      An attempt starts with its check; if that passes it ends by recording a failure, by recording a
      success, or without recording (a lookup error, an inactive user). */
  datatype Event = Attempt(at: nat) | Fail(at: nat) | Succeed(at: nat) | Abandon(at: nat)

  /** `inflight` attempts are between their check and their end; `recorded` failures so far. */
  datatype State = State(entry: Option<FailureEntry>, inflight: nat, now: nat, recorded: nat, succeeded: nat)

  /** With `c` the most attempts in flight at once. */
  ghost predicate Possible(s: State, c: nat, e: Event) {
    s.now <= e.at && if e.Attempt? then s.inflight < c else s.inflight > 0
  }

  /** What an event does to the limiter's entry. */
  ghost function EntryStep(p: Params, entry: Option<FailureEntry>, e: Event): Option<FailureEntry> {
    match e
    case Attempt(at) => CheckEntry(p, entry, at).0
    case Fail(at) => Some(FailEntry(p, entry, at))
    case Succeed(_) => None
    case Abandon(_) => entry
  }

  ghost function Step(p: Params, s: State, e: Event): State
    requires e.Attempt? || s.inflight > 0
  {
    var t := s.(entry := EntryStep(p, s.entry, e), now := e.at);
    match e
    case Attempt(at) => if CheckEntry(p, s.entry, at).1.Ok? then t.(inflight := s.inflight + 1) else t
    case Fail(_) => t.(inflight := s.inflight - 1, recorded := s.recorded + 1)
    case Succeed(_) => t.(inflight := s.inflight - 1, succeeded := s.succeeded + 1)
    case Abandon(_) => t.(inflight := s.inflight - 1)
  }

  ghost predicate PossibleRun(p: Params, s: State, c: nat, es: seq<Event>)
    decreases |es|
  {
    es == [] || (Possible(s, c, es[0]) && PossibleRun(p, Step(p, s, es[0]), c, es[1..]))
  }

  ghost function RunEvents(p: Params, s: State, c: nat, es: seq<Event>): State
    requires PossibleRun(p, s, c, es)
    decreases |es|
  {
    if es == [] then s else RunEvents(p, Step(p, s, es[0]), c, es[1..])
  }

  // ----- the bound -----

  /** The failures after which a key is locked: even a limit of none takes one failure to lock. */
  ghost function Threshold(p: Params): nat { if p.max_failures > 0 then p.max_failures else 1 }

  /** The most failures one lockout period can see. */
  ghost function Quota(p: Params, c: nat): nat
    requires c > 0
  {
    Threshold(p) + c - 1
  }

  /** Where a run stands: the lockouts it has sat out since `start`, and the failures recorded since
      the entry was last cleared. */
  datatype Progress = Progress(start: nat, periods: nat, unpaid: nat)

  ghost predicate Within(p: Params, c: nat, s: State, g: Progress)
    requires c > 0
  {
    && s.inflight <= c
    && s.recorded <= Quota(p, c) * (g.periods + s.succeeded) + g.unpaid
    && g.start + p.lockout * g.periods <= s.now
    && (s.entry.None? ==> g.unpaid == 0)
    && (s.entry.Some? ==>
          if Locked(p, s.entry.value)
          then g.unpaid + s.inflight <= Quota(p, c)
               && (g.unpaid > 0 ==> s.entry.value.locked_until >= g.start + p.lockout * (g.periods + 1))
          else g.unpaid <= s.entry.value.count)
  }

  /** Clearing the entry closes a period or costs a success: the quota pays for what was fresh. */
  lemma OneMoreQuota(q: nat, n: nat, recorded: nat, unpaid: nat)
    requires recorded <= q * n + unpaid && unpaid <= q
    ensures recorded <= q * (n + 1)
  {
  }

  lemma AttemptWithin(p: Params, c: nat, s: State, e: Event, g: Progress) returns (h: Progress)
    requires p.Valid() && c > 0 && Within(p, c, s, g) && Possible(s, c, e) && e.Attempt?
    ensures h.start == g.start && Within(p, c, Step(p, s, e), h)
  {
    h := g;
    if s.entry.Some? && Locked(p, s.entry.value) && s.entry.value.locked_until <= e.at {
      if g.unpaid > 0 {
        h := Progress(g.start, g.periods + 1, 0);
        OneMoreQuota(Quota(p, c), g.periods + s.succeeded, s.recorded, g.unpaid);
      }
    }
  }

  lemma FailWithin(p: Params, c: nat, s: State, e: Event, g: Progress) returns (h: Progress)
    requires p.Valid() && c > 0 && Within(p, c, s, g) && Possible(s, c, e) && e.Fail?
    ensures h.start == g.start && Within(p, c, Step(p, s, e), h)
  {
    h := g.(unpaid := g.unpaid + 1);
    assert p.lockout * (g.periods + 1) == p.lockout * g.periods + p.lockout;
  }

  lemma SucceedWithin(p: Params, c: nat, s: State, e: Event, g: Progress) returns (h: Progress)
    requires p.Valid() && c > 0 && Within(p, c, s, g) && Possible(s, c, e) && e.Succeed?
    ensures h.start == g.start && Within(p, c, Step(p, s, e), h)
  {
    h := g.(unpaid := 0);
    OneMoreQuota(Quota(p, c), g.periods + s.succeeded, s.recorded, g.unpaid);
    assert g.periods + s.succeeded + 1 == g.periods + (s.succeeded + 1);
  }

  lemma {:induction false} RunWithin(p: Params, c: nat, s: State, es: seq<Event>, g: Progress) returns (h: Progress)
    requires p.Valid() && c > 0 && Within(p, c, s, g) && PossibleRun(p, s, c, es)
    ensures h.start == g.start && Within(p, c, RunEvents(p, s, c, es), h)
    decreases |es|
  {
    h := g;
    if es != [] {
      match es[0] {
        case Attempt(_) => h := AttemptWithin(p, c, s, es[0], g);
        case Fail(_) => h := FailWithin(p, c, s, es[0], g);
        case Succeed(_) => h := SucceedWithin(p, c, s, es[0], g);
        case Abandon(_) =>
      }
      h := RunWithin(p, c, Step(p, s, es[0]), es[1..], h);
    }
  }

  lemma PeriodsFit(l: nat, n: nat, t: nat)
    requires l > 0 && l * n <= t
    ensures n <= t / l
  {
    if n > t / l { ProductMonotone(l, t / l + 1, n); }
  }

  lemma ProductMonotone(q: nat, a: nat, b: nat)
    requires a <= b
    ensures q * a <= q * b
  {
  }

  lemma WithinBounds(p: Params, c: nat, s: State, g: Progress)
    requires p.Valid() && c > 0 && Within(p, c, s, g)
    ensures g.unpaid <= Quota(p, c) && s.recorded <= Quota(p, c) * (g.periods + s.succeeded) + g.unpaid
    ensures g.start <= s.now && p.lockout * g.periods <= s.now - g.start
  {
  }

  lemma QuotaOf(q: nat, periods: nat, most: nat, succeeded: nat, recorded: nat, unpaid: nat)
    requires periods <= most && unpaid <= q && recorded <= q * (periods + succeeded) + unpaid
    ensures recorded <= q * (most + succeeded + 1)
  {
  }

  /** From any state of the limiter: over an elapsed time `T`, with at most `c` attempts in flight at
      once, the failures recorded number at most `(max + c - 1) * (T / lockout + 1)`, and each success
      in between allows one more such batch. */
  lemma FailuresBounded(p: Params, c: nat, s: State, es: seq<Event>)
    requires p.Valid() && c > 0 && s.inflight <= c && s.recorded == s.succeeded == 0
    requires PossibleRun(p, s, c, es)
    ensures var t := RunEvents(p, s, c, es);
      t.now >= s.now && t.recorded <= Quota(p, c) * ((t.now - s.now) / p.lockout + t.succeeded + 1)
  {
    var h := RunWithin(p, c, s, es, Progress(s.now, 0, 0));
    var t := RunEvents(p, s, c, es);
    hide Within, RunEvents, PossibleRun, Quota;
    WithinBounds(p, c, t, h);
    PeriodsFit(p.lockout, h.periods, t.now - s.now);
    QuotaOf(Quota(p, c), h.periods, (t.now - s.now) / p.lockout, t.succeeded, t.recorded, h.unpaid);
  }

  // ----- the bound is attained -----

  lemma {:induction false} RunConcat(p: Params, s: State, c: nat, a: seq<Event>, b: seq<Event>)
    requires PossibleRun(p, s, c, a) && PossibleRun(p, RunEvents(p, s, c, a), c, b)
    ensures PossibleRun(p, s, c, a + b)
    ensures RunEvents(p, s, c, a + b) == RunEvents(p, RunEvents(p, s, c, a), c, b)
    decreases |a|
  {
    if a == [] {
      assert a + b == b;
    } else {
      assert (a + b)[1..] == a[1..] + b;
      RunConcat(p, Step(p, s, a[0]), c, a[1..], b);
    }
  }

  lemma RunThen(p: Params, s: State, s1: State, c: nat, a: seq<Event>, b: seq<Event>)
    requires PossibleRun(p, s, c, a) && s1 == RunEvents(p, s, c, a) && PossibleRun(p, s1, c, b)
    ensures PossibleRun(p, s, c, a + b) && RunEvents(p, s, c, a + b) == RunEvents(p, s1, c, b)
  {
    RunConcat(p, s, c, a, b);
  }

  /** Open for attempts at time `t`: no entry, fewer failures than the limit, or a lockout over. */
  ghost predicate Open(p: Params, s: State, t: nat) {
    s.now <= t && (s.entry.Some? && Locked(p, s.entry.value) ==> s.entry.value.locked_until <= t)
  }

  /** The failures that count towards the next lockout. */
  ghost function Strikes(p: Params, s: State): nat {
    if s.entry.None? || Locked(p, s.entry.value) then 0 else s.entry.value.count
  }

  /** `n` attempts one after the other, all failing. */
  ghost function Serial(t: nat, n: nat): seq<Event> {
    if n == 0 then [] else [Attempt(t), Fail(t)] + Serial(t, n - 1)
  }

  lemma {:induction false} SerialRun(p: Params, s: State, c: nat, t: nat, n: nat)
    requires p.Valid() && c > 0 && s.inflight == 0 && Open(p, s, t)
    requires Strikes(p, s) + n < Threshold(p)
    ensures PossibleRun(p, s, c, Serial(t, n))
    ensures var u := RunEvents(p, s, c, Serial(t, n));
      && u.inflight == 0 && u.recorded == s.recorded + n && u.succeeded == s.succeeded
      && Open(p, u, t) && Strikes(p, u) == Strikes(p, s) + n
      && (n > 0 ==> u.now == t)
    decreases n
  {
    if n > 0 {
      var es := Serial(t, n);
      assert es[0] == Attempt(t) && es[1..][0] == Fail(t) && es[1..][1..] == Serial(t, n - 1);
      var s1 := Step(p, s, Attempt(t));
      var s2 := Step(p, s1, Fail(t));
      assert Strikes(p, s2) == Strikes(p, s) + 1;
      SerialRun(p, s2, c, t, n - 1);
    }
  }

  ghost function Copies(e: Event, n: nat): seq<Event> {
    if n == 0 then [] else [e] + Copies(e, n - 1)
  }

  lemma {:induction false} OpenAttempts(p: Params, s: State, c: nat, t: nat, n: nat)
    requires p.Valid() && s.inflight + n <= c && Open(p, s, t)
    ensures PossibleRun(p, s, c, Copies(Attempt(t), n))
    ensures var u := RunEvents(p, s, c, Copies(Attempt(t), n));
      && u.inflight == s.inflight + n && u.recorded == s.recorded && u.succeeded == s.succeeded
      && Open(p, u, t) && Strikes(p, u) == Strikes(p, s)
      && (n > 0 ==> u.now == t && (u.entry.Some? ==> !Locked(p, u.entry.value)))
    decreases n
  {
    if n > 0 {
      assert Copies(Attempt(t), n)[1..] == Copies(Attempt(t), n - 1);
      OpenAttempts(p, Step(p, s, Attempt(t)), c, t, n - 1);
    }
  }

  /** All attempts in flight fail: from one strike short the first locks the key, and all are recorded. */
  lemma {:induction false} InflightFail(p: Params, s: State, c: nat, t: nat, n: nat)
    requires p.Valid() && n > 0 && s.inflight == n && s.now == t
    requires s.entry.None? ==> Threshold(p) == 1
    requires s.entry.Some? ==> s.entry.value.count >= Threshold(p) - 1
    ensures PossibleRun(p, s, c, Copies(Fail(t), n))
    ensures var u := RunEvents(p, s, c, Copies(Fail(t), n));
      && u.inflight == 0 && u.recorded == s.recorded + n && u.succeeded == s.succeeded && u.now == t
      && u.entry.Some? && Locked(p, u.entry.value) && u.entry.value.locked_until == t + p.lockout
    decreases n
  {
    assert Copies(Fail(t), n)[1..] == Copies(Fail(t), n - 1);
    var s1 := Step(p, s, Fail(t));
    if n > 1 { InflightFail(p, s1, c, t, n - 1); }
    else { assert Copies(Fail(t), 0) == []; }
  }

  /** One batch at time `t`. */
  ghost function Batch(p: Params, c: nat, t: nat): seq<Event>
  {
    Serial(t, Threshold(p) - 1) + Copies(Attempt(t), c) + Copies(Fail(t), c)
  }

  lemma BatchRun(p: Params, s: State, c: nat, t: nat)
    requires p.Valid() && c > 0
    requires s.inflight == 0 && Open(p, s, t) && Strikes(p, s) == 0
    ensures PossibleRun(p, s, c, Batch(p, c, t))
    ensures var u := RunEvents(p, s, c, Batch(p, c, t));
      && u.inflight == 0 && u.recorded == s.recorded + Quota(p, c) && u.succeeded == s.succeeded
      && u.now == t && Open(p, u, t + p.lockout) && Strikes(p, u) == 0
  {
    var a, b, d := Serial(t, Threshold(p) - 1), Copies(Attempt(t), c), Copies(Fail(t), c);
    SerialRun(p, s, c, t, Threshold(p) - 1);
    var s1 := RunEvents(p, s, c, a);
    OpenAttempts(p, s1, c, t, c);
    RunConcat(p, s, c, a, b);
    var s2 := RunEvents(p, s1, c, b);
    InflightFail(p, s2, c, t, c);
    RunConcat(p, s, c, a + b, d);
  }

  /** A batch at the end of every lockout. */
  ghost function Batches(p: Params, c: nat, t: nat, n: nat): seq<Event>
    decreases n
  {
    if n == 0 then Batch(p, c, t) else Batch(p, c, t) + Batches(p, c, t + p.lockout, n - 1)
  }

  lemma {:induction false} BatchesRun(p: Params, s: State, c: nat, t: nat, n: nat)
    requires p.Valid() && c > 0
    requires s.inflight == 0 && Open(p, s, t) && Strikes(p, s) == 0
    ensures PossibleRun(p, s, c, Batches(p, c, t, n))
    ensures var u := RunEvents(p, s, c, Batches(p, c, t, n));
      && u.recorded == s.recorded + Times(Quota(p, c), n + 1) && u.succeeded == s.succeeded
      && u.now == t + Times(p.lockout, n)
    decreases n
  {
    assert Batches(p, c, t, n) ==
      if n == 0 then Batch(p, c, t) else Batch(p, c, t) + Batches(p, c, t + p.lockout, n - 1);
    hide Times, Batches, Batch, Quota, Strikes, Open, RunEvents, PossibleRun;
    BatchRun(p, s, c, t);
    OneMore(Quota(p, c), n);
    if n > 0 {
      var s1 := RunEvents(p, s, c, Batch(p, c, t));
      BatchesRun(p, s1, c, t + p.lockout, n - 1);
      RunThen(p, s, s1, c, Batch(p, c, t), Batches(p, c, t + p.lockout, n - 1));
      OneMore(p.lockout, n - 1);
    } else {
      OneMore(p.lockout, 0);
    }
  }

  ghost function Times(q: nat, n: nat): nat { q * n }

  lemma OneMore(q: nat, n: nat)
    ensures Times(q, n + 1) == Times(q, n) + q && Times(q, 0) == 0
  {
  }

  /** The bound is the best one: for every number of lockouts there is a run without successes that
      records exactly that many failures. */
  lemma BoundAttained(p: Params, c: nat, n: nat) returns (es: seq<Event>)
    requires p.Valid() && c > 0
    ensures var s := State(None, 0, 0, 0, 0);
      && PossibleRun(p, s, c, es)
      && var t := RunEvents(p, s, c, es);
         t.now == p.lockout * n && t.succeeded == 0 && t.recorded == Quota(p, c) * (t.now / p.lockout + 1)
  {
    es := Batches(p, c, 0, n);
    BatchesRun(p, State(None, 0, 0, 0, 0), c, 0, n);
    WholePeriods(p.lockout, n);
  }

  lemma WholePeriods(l: nat, n: nat)
    requires l > 0
    ensures l * n / l == n
  {
    PeriodsFit(l, n, l * n);
  }
}
