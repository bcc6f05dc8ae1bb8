/** The session table: expiry, the clean-up of expired rows, and invalidation. */
module Sessions {
  import opened Wrappers

  const SECONDS_PER_DAY: nat := 86400
  const SESSION_TTL_DAYS: nat := 7

  datatype Session = Session(id: string, user_id: int, expires_at: int, csrf_token: string)

  type Rows = map<string, Session>

  function TtlEnd(now: int): int { now + SESSION_TTL_DAYS * SECONDS_PER_DAY }

  ghost predicate Live(rows: Rows, id: string, now: int) { id in rows && rows[id].expires_at > now }

  /** The live sessions of a user. */
  ghost function ActiveIds(rows: Rows, user: int, now: int): set<string> {
    set id | id in rows && rows[id].user_id == user && rows[id].expires_at > now
  }

  function Unexpired(rows: Rows, now: int): Rows {
    map id | id in rows && rows[id].expires_at > now :: rows[id]
  }

  function WithoutUser(rows: Rows, user: int): Rows {
    map id | id in rows && rows[id].user_id != user :: rows[id]
  }

  function WithoutOthers(rows: Rows, user: int, keep: string): Rows {
    map id | id in rows && !(rows[id].user_id == user && id != keep) :: rows[id]
  }

  datatype User = User(email: string, password_hash: string, is_active: bool, is_admin: bool)

  ghost predicate SameRow(rows: Rows, before: Rows, id: string) {
    (id in rows <==> id in before) && (id in rows ==> rows[id] == before[id])
  }

  /** `ids` are exactly the tokens of the user's live sessions. */
  ghost predicate Lists(ids: set<string>, rows: Rows, user: int, now: int) {
    forall id :: id in ids <==> Live(rows, id, now) && rows[id].user_id == user
  }

  /** The token has a live session, and that an existing, active user. */
  ghost predicate Identifies(rows: Rows, users: map<int, User>, token: string, now: int) {
    Live(rows, token, now) && rows[token].user_id in users && users[rows[token].user_id].is_active
  }

  /** The session and user tables. */
  class AuthDb {
    var rows: Rows
    var users: map<int, User>

    constructor (users: map<int, User>)
      ensures rows == map[] && this.users == users
    {
      rows, this.users := map[], users;
    }

    /** `session::create` with freshly drawn tokens; the id is the primary key. */
    method Create(id: string, csrf: string, user_id: int, now: int) returns (r: Option<Session>)
      modifies this`rows
      ensures r == if id in old(rows) then None else Some(Session(id, user_id, TtlEnd(now), csrf))
      ensures rows == if id in old(rows) then old(rows) else old(rows)[id := r.value]
      ensures Answer.Created(r) == AnswerOf(old(rows), now, Op.Create(id, csrf, user_id))
      ensures rows == Next(old(rows), now, Op.Create(id, csrf, user_id))
    {
      if id in rows { return None; }
      var s := Session(id, user_id, TtlEnd(now), csrf);
      rows := rows[id := s];
      return Some(s);
    }

    /** `session::find_valid`.  An expired row is deleted inline; the deletion may fail, and its
        outcome `cleaned` does not show in the answer. */
    method FindValid(id: string, now: int, cleaned: bool) returns (r: Option<Session>)
      modifies this`rows
      ensures r == if Live(old(rows), id, now) then Some(old(rows)[id]) else None
      ensures forall other :: other != id ==> SameRow(rows, old(rows), other)
      ensures id in rows <==> id in old(rows) && (cleaned ==> Live(old(rows), id, now))
      ensures id in rows ==> rows[id] == old(rows)[id]
      ensures rows == Next(old(rows), now, Op.FindValid(id, cleaned))
    {
      if id !in rows { return None; }
      var row := rows[id];
      if row.expires_at <= now {
        if cleaned {
          Delete(id);
          assert rows == Next(old(rows), now, Op.Delete(id));
        }
        return None;
      }
      return Some(row);
    }

    method Delete(id: string)
      modifies this`rows
      ensures id !in rows && forall other :: other != id ==> SameRow(rows, old(rows), other)
      ensures forall now :: rows == Next(old(rows), now, Op.Delete(id))
    {
      rows := rows - {id};
    }

    /** `session::sweep_expired`: the live rows stay as they are, and no other; `removed` counts the
        tokens that are gone. */
    method SweepExpired(now: int) returns (removed: nat)
      modifies this`rows
      ensures removed == |old(rows).Keys - rows.Keys|
      ensures forall id :: id in rows <==> Live(old(rows), id, now)
      ensures forall id :: id in rows ==> SameRow(rows, old(rows), id)
      ensures rows == Next(old(rows), now, Sweep)
    {
      ghost var before := rows.Keys;
      removed := |rows|;
      rows := Unexpired(rows, now);
      assert before == rows.Keys + (before - rows.Keys);
      assert |before| == |rows.Keys| + |before - rows.Keys|;
      removed := removed - |rows|;
    }

    /** `session::count_active`: the size of any set that lists exactly the user's live tokens. */
    method CountActive(user_id: int, now: int) returns (n: nat)
      ensures forall ids: set<string> :: Lists(ids, rows, user_id, now) ==> |ids| == n
      ensures exists ids: set<string> :: Lists(ids, rows, user_id, now)
      ensures Count(n) == AnswerOf(rows, now, Op.CountActive(user_id))
    {
      var active := set id | id in rows && rows[id].user_id == user_id && rows[id].expires_at > now;
      assert Lists(active, rows, user_id, now);
      forall ids: set<string> | Lists(ids, rows, user_id, now) ensures ids == active {}
      return |active|;
    }

    /** `session::delete_others`: of the user's rows at most the kept one stays, all others stay as
        they are, and `removed` counts the tokens that are gone. */
    method DeleteOthers(user_id: int, keep_id: string) returns (removed: nat)
      modifies this`rows
      ensures forall id :: id in rows <==> id in old(rows) && (old(rows)[id].user_id == user_id ==> id == keep_id)
      ensures forall id :: id in rows ==> SameRow(rows, old(rows), id)
      ensures removed == |old(rows).Keys - rows.Keys|
      ensures forall now :: rows == Next(old(rows), now, Op.DeleteOthers(user_id, keep_id))
    {
      ghost var before := rows.Keys;
      removed := |rows|;
      rows := WithoutOthers(rows, user_id, keep_id);
      assert before == rows.Keys + (before - rows.Keys);
      assert |before| == |rows.Keys| + |before - rows.Keys|;
      removed := removed - |rows|;
    }

    /** `user::set_password`: the new hash, and every session of the user dropped with the old one;
        other users keep their rows and their sessions. */
    method SetPassword(user_id: int, hash: string)
      modifies this
      ensures forall id :: id in rows <==> id in old(rows) && old(rows)[id].user_id != user_id
      ensures forall id :: id in rows ==> SameRow(rows, old(rows), id)
      ensures users.Keys == old(users).Keys && forall u :: u in users ==>
        users[u] == if u == user_id then old(users)[u].(password_hash := hash) else old(users)[u]
      ensures forall now :: rows == Next(old(rows), now, Op.SetPassword(user_id))
    {
      if user_id in users { users := users[user_id := users[user_id].(password_hash := hash)]; }
      rows := WithoutUser(rows, user_id);
    }

    /** `resolve_identity_with_session`: a live session of an active user, and nothing else.  A
        database error in either lookup reads as no identity. */
    method Resolve(token: Option<string>, now: int, cleaned: bool, sessionFails: bool, userFails: bool)
      returns (r: Option<(int, Session)>)
      modifies this`rows
      ensures r.Some? <==>
        token.Some? && !sessionFails && !userFails && Identifies(old(rows), users, token.value, now)
      ensures r.Some? ==> r.value == (old(rows)[token.value].user_id, old(rows)[token.value])
      ensures rows == if token.None? || sessionFails then old(rows)
                      else Next(old(rows), now, Op.FindValid(token.value, cleaned))
    {
      if token.None? || sessionFails { return None; }
      var found := FindValid(token.value, now, cleaned);
      if found.None? || userFails { return None; }
      if found.value.user_id !in users || !users[found.value.user_id].is_active { return None; }
      return Some((found.value.user_id, found.value));
    }
  }

  // ----- runs -----

  /** One operation, with the time the clock shows.  `cleaned` says whether a lookup's inline deletion
      went through. */
  datatype Op =
    | Create(id: string, csrf: string, user: int)
    | FindValid(id: string, cleaned: bool)
    | Delete(id: string)
    | Sweep
    | CountActive(user: int)
    | DeleteOthers(user: int, keep: string)
    | SetPassword(user: int)

  datatype Timed = Timed(at: int, op: Op)

  /** What the caller sees; the row counts of the deletions are dropped by every caller. */
  datatype Answer = Created(session: Option<Session>) | Found(session: Option<Session>) | Count(n: nat) | Done

  ghost function AnswerOf(rows: Rows, at: int, op: Op): Answer {
    match op
    case Create(id, csrf, user) =>
      Created(if id in rows then None else Some(Session(id, user, TtlEnd(at), csrf)))
    case FindValid(id, _) => Found(if Live(rows, id, at) then Some(rows[id]) else None)
    case CountActive(user) => Count(|ActiveIds(rows, user, at)|)
    case _ => Done
  }

  /** The effect of an operation other than cleaning up. */
  ghost function Effect(rows: Rows, at: int, op: Op): Rows {
    match op
    case Create(id, csrf, user) => if id in rows then rows else rows[id := Session(id, user, TtlEnd(at), csrf)]
    case Delete(id) => rows - {id}
    case DeleteOthers(user, keep) => WithoutOthers(rows, user, keep)
    case SetPassword(user) => WithoutUser(rows, user)
    case _ => rows
  }

  /** The store as it is: with inline deletion and sweeps. */
  ghost function Next(rows: Rows, at: int, op: Op): Rows {
    match op
    case FindValid(id, cleaned) => if id in rows && !Live(rows, id, at) && cleaned then rows - {id} else rows
    case Sweep => Unexpired(rows, at)
    case _ => Effect(rows, at, op)
  }

  ghost function Answers(rows: Rows, ops: seq<Timed>): (r: seq<Answer>)
    ensures |r| == |ops|
    decreases |ops|
  {
    if ops == [] then []
    else [AnswerOf(rows, ops[0].at, ops[0].op)] + Answers(Next(rows, ops[0].at, ops[0].op), ops[1..])
  }

  /** The same run on a store that never cleans up. */
  ghost function AnswersUncleaned(rows: Rows, ops: seq<Timed>): (r: seq<Answer>)
    ensures |r| == |ops|
    decreases |ops|
  {
    if ops == [] then []
    else [AnswerOf(rows, ops[0].at, ops[0].op)] + AnswersUncleaned(Effect(rows, ops[0].at, ops[0].op), ops[1..])
  }

  /** The clock never runs backwards, starting from `now`. */
  ghost predicate Monotone(now: int, ops: seq<Timed>)
    decreases |ops|
  {
    ops == [] || (now <= ops[0].at && Monotone(ops[0].at, ops[1..]))
  }

  /** No token is drawn that the never-cleaning store still holds. */
  ghost predicate FreshTokens(rows: Rows, ops: seq<Timed>)
    decreases |ops|
  {
    ops == [] || (
      && (ops[0].op.Create? ==> ops[0].op.id !in rows)
      && FreshTokens(Effect(rows, ops[0].at, ops[0].op), ops[1..]))
  }

  /** `swept` lacks some rows of `full`, all of them expired at `now`. */
  ghost predicate Cleaned(swept: Rows, full: Rows, now: int) {
    && (forall id :: id in swept ==> id in full && swept[id] == full[id])
    && (forall id :: id in full && id !in swept ==> full[id].expires_at <= now)
  }

  lemma CleanedAnswer(swept: Rows, full: Rows, at: int, op: Op)
    requires Cleaned(swept, full, at) && (op.Create? ==> op.id !in full)
    ensures AnswerOf(swept, at, op) == AnswerOf(full, at, op)
  {
    if op.CountActive? { assert ActiveIds(swept, op.user, at) == ActiveIds(full, op.user, at); }
  }

  lemma CleanedNext(swept: Rows, full: Rows, at: int, op: Op)
    requires Cleaned(swept, full, at) && (op.Create? ==> op.id !in full)
    ensures Cleaned(Next(swept, at, op), Effect(full, at, op), at)
  {
  }

  /** Clean-up cannot be observed: with a clock that never runs backwards and fresh tokens, the store
      that deletes expired rows, whenever it does, answers as the store that never deletes them. */
  lemma {:induction false} CleanupUnobservable(swept: Rows, full: Rows, now: int, ops: seq<Timed>)
    requires Cleaned(swept, full, now) && Monotone(now, ops) && FreshTokens(full, ops)
    ensures Answers(swept, ops) == AnswersUncleaned(full, ops)
    decreases |ops|
  {
    if ops != [] {
      var at, op := ops[0].at, ops[0].op;
      CleanedAnswer(swept, full, at, op);
      CleanedNext(swept, full, at, op);
      CleanupUnobservable(Next(swept, at, op), Effect(full, at, op), at, ops[1..]);
    }
  }

  // ----- the clocks under which clean-up cannot be observed -----

  ghost predicate Nondecreasing(ts: seq<int>) {
    forall i :: 0 <= i < |ts| - 1 ==> ts[i] <= ts[i + 1]
  }

  /** The run shows the times `ts`, one an operation. */
  ghost predicate Clocked(ops: seq<Timed>, ts: seq<int>) {
    |ops| == |ts| && forall i :: 0 <= i < |ts| ==> ops[i].at == ts[i]
  }

  /** No run with these times and fresh tokens tells the store from one that never cleans up. */
  ghost predicate Unobservable(ts: seq<int>) {
    forall rows: Rows, ops: seq<Timed> :: Clocked(ops, ts) && FreshTokens(rows, ops) ==>
      Answers(rows, ops) == AnswersUncleaned(rows, ops)
  }

  lemma {:induction false} ClockedMonotone(ops: seq<Timed>, ts: seq<int>, now: int)
    requires Clocked(ops, ts) && Nondecreasing(ts) && (ts != [] ==> now <= ts[0])
    ensures Monotone(now, ops)
    decreases |ops|
  {
    if ops != [] { ClockedMonotone(ops[1..], ts[1..], ts[0]); }
  }

  /** Counting sessions changes nothing, so a run that starts so answers like its rest. */
  lemma {:induction false} QuietStart(rows: Rows, ops: seq<Timed>, k: nat)
    requires k <= |ops| && forall i :: 0 <= i < k ==> ops[i].op.CountActive?
    ensures Answers(rows, ops)[k..] == Answers(rows, ops[k..])
    ensures AnswersUncleaned(rows, ops)[k..] == AnswersUncleaned(rows, ops[k..])
    ensures FreshTokens(rows, ops) <==> FreshTokens(rows, ops[k..])
    decreases k
  {
    if k > 0 {
      QuietStart(rows, ops[1..], k - 1);
      assert ops[1..][k - 1..] == ops[k..];
      assert Answers(rows, ops)[k..] == Answers(rows, ops[1..])[k - 1..];
      assert AnswersUncleaned(rows, ops)[k..] == AnswersUncleaned(rows, ops[1..])[k - 1..];
    }
  }

  lemma {:induction false} CountingIsFresh(rows: Rows, ops: seq<Timed>)
    requires forall i :: 0 <= i < |ops| ==> ops[i].op.CountActive?
    ensures FreshTokens(rows, ops)
    decreases |ops|
  {
    if ops != [] { CountingIsFresh(rows, ops[1..]); }
  }

  /** A session that expires at `t`, swept at `t` and looked up at an earlier time. */
  lemma SweptTooEarly(id: string, user: int, t: int, earlier: int, rest: seq<Timed>)
    requires earlier < t && forall i :: 0 <= i < |rest| ==> rest[i].op.CountActive?
    ensures var rows: Rows := map[id := Session(id, user, t, "")];
      var ops := [Timed(t, Sweep), Timed(earlier, FindValid(id, true))] + rest;
      Answers(rows, ops) != AnswersUncleaned(rows, ops) && FreshTokens(rows, ops)
  {
    var s := Session(id, user, t, "");
    var rows: Rows := map[id := s];
    var ops := [Timed(t, Sweep), Timed(earlier, FindValid(id, true))] + rest;
    assert ops[1..][0] == ops[1] && ops[1..][1..] == rest;
    assert Next(rows, t, Sweep) == map[];
    assert Answers(rows, ops)[1] == Found(None);
    assert AnswersUncleaned(rows, ops)[1] == Found(Some(s));
    CountingIsFresh(rows, rest);
  }

  /** Wherever the clock steps back, some run observes the clean-up. */
  lemma DropObserves(ts: seq<int>, k: nat) returns (rows: Rows, ops: seq<Timed>)
    requires k + 1 < |ts| && ts[k + 1] < ts[k]
    ensures Clocked(ops, ts) && FreshTokens(rows, ops) && Answers(rows, ops) != AnswersUncleaned(rows, ops)
  {
    rows := map["" := Session("", 0, ts[k], "")];
    ops := seq(|ts|, i requires 0 <= i < |ts| =>
      Timed(ts[i], if i == k then Sweep else if i == k + 1 then FindValid("", true) else CountActive(0)));
    assert ops[k..] == [Timed(ts[k], Sweep), Timed(ts[k + 1], FindValid("", true))] + ops[k + 2..];
    QuietStart(rows, ops, k);
    SweptTooEarly("", 0, ts[k], ts[k + 1], ops[k + 2..]);
  }

  /** Clean-up cannot be observed by any run with these times exactly when they never decrease. */
  lemma ClockExact(ts: seq<int>)
    ensures Unobservable(ts) <==> Nondecreasing(ts)
  {
    if Nondecreasing(ts) {
      forall rows: Rows, ops: seq<Timed> | Clocked(ops, ts) && FreshTokens(rows, ops)
        ensures Answers(rows, ops) == AnswersUncleaned(rows, ops)
      {
        var now := if ts == [] then 0 else ts[0];
        ClockedMonotone(ops, ts, now);
        CleanupUnobservable(rows, rows, now, ops);
      }
    } else {
      var k :| 0 <= k < |ts| - 1 && ts[k + 1] < ts[k];
      var rows, ops := DropObserves(ts, k);
    }
  }

  /** The shortest such run: a session swept at 20 is missed at 5, when it had not expired. */
  lemma BackwardClockObserves(id: string, user: int)
    ensures var rows: Rows := map[id := Session(id, user, 20, "")];
      var ops := [Timed(20, Sweep), Timed(5, FindValid(id, true))];
      Answers(rows, ops) != AnswersUncleaned(rows, ops)
  {
    var ops := [Timed(20, Sweep), Timed(5, FindValid(id, true))];
    assert ops + [] == ops;
    SweptTooEarly(id, user, 20, 5, []);
  }

  // ----- invalidation -----

  ghost predicate NeverCreates(ops: seq<Timed>, id: string) {
    forall i :: 0 <= i < |ops| && ops[i].op.Create? ==> ops[i].op.id != id
  }

  /** A token without a row stays without one until it is drawn again. */
  lemma {:induction false} GoneStaysGone(rows: Rows, ops: seq<Timed>, id: string, i: nat)
    requires id !in rows && NeverCreates(ops, id) && i < |ops| && ops[i].op.FindValid? && ops[i].op.id == id
    ensures Answers(rows, ops)[i] == Found(None)
    decreases |ops|
  {
    if i > 0 {
      assert NeverCreates(ops[1..], id) by {
        assert forall j :: 0 <= j < |ops[1..]| ==> ops[1..][j] == ops[j + 1];
      }
      assert ops[0].op.Create? ==> ops[0].op.id != id;
      GoneStaysGone(Next(rows, ops[0].at, ops[0].op), ops[1..], id, i - 1);
    }
  }

  /** After a password change no earlier token of that user resolves again, whatever happens later,
      unless the same token is drawn again; sessions of other users are untouched. */
  lemma {:induction false} PasswordChangeInvalidates(rows: Rows, at: int, user: int, ops: seq<Timed>,
                                                     id: string, i: nat)
    requires id in rows && rows[id].user_id == user && NeverCreates(ops, id)
    requires i < |ops| && ops[i].op.FindValid? && ops[i].op.id == id
    ensures var after := Next(rows, at, SetPassword(user));
      && Answers(after, ops)[i] == Found(None)
      && forall other, t :: other in rows && rows[other].user_id != user ==>
           (Live(after, other, t) <==> Live(rows, other, t)) && other in after && after[other] == rows[other]
  {
    GoneStaysGone(Next(rows, at, SetPassword(user)), ops, id, i);
  }

  /** A new session is found for seven days to the second, and not from then on. */
  lemma LivesSevenDays(rows: Rows, at: int, id: string, csrf: string, user: int, later: int, cleaned: bool)
    requires id !in rows
    ensures AnswerOf(Next(rows, at, Create(id, csrf, user)), later, FindValid(id, cleaned)) ==
      Found(if later < at + 604800 then Some(Session(id, user, at + 604800, csrf)) else None)
  {
  }
}
