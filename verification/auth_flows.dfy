/** The two handlers that drive the limiter and the session table: signing in, and changing one's
    password.  Password hashing, lower-casing, the clock and the random tokens are parameters. */
module AuthFlows {
  import opened Wrappers
  import opened Text
  import opened Limiter
  import opened Sessions

  // ----- CSRF tokens -----

  /** `csrf::verify_token`: equal and not empty, by a comparison without early exit. */
  method VerifyToken(expected: seq<bv8>, provided: seq<bv8>) returns (ok: bool)
    ensures ok <==> expected != [] && expected == provided
  {
    if expected == [] || provided == [] { return false; }
    if |expected| != |provided| { return false; }
    var diff: bv8 := 0;
    for i := 0 to |expected|
      invariant diff == 0 <==> expected[..i] == provided[..i]
    {
      OrXorZero(diff, expected[i], provided[i]);
      assert expected[..i + 1] == expected[..i] + [expected[i]];
      assert provided[..i + 1] == provided[..i] + [provided[i]];
      diff := diff | (expected[i] ^ provided[i]);
    }
    assert expected[..|expected|] == expected && provided[..|expected|] == provided;
    return diff == 0;
  }

  lemma OrXorZero(d: bv8, a: bv8, b: bv8)
    ensures d | (a ^ b) == 0 <==> d == 0 && a == b
  {
  }

  // ----- signing in -----

  /** `compose_key`. */
  function ComposeKey(email: string, ip: Option<string>): string {
    match ip
    case Some(ip) => "email:" + email + "|ip:" + ip
    case None => "email:" + email
  }

  const PEER: string := "|ip:"

  lemma CutAt(a: string, b: string, x: string, y: string)
    requires a + x == b + y
    ensures |a| == |b| ==> a == b && x == y
    ensures |a| <= |b| ==> b == a + b[|a|..] && x == b[|a|..] + y
  {
    assert (a + x)[..|a|] == a && (a + x)[|a|..] == x;
    assert |a| <= |b| ==> (b + y)[..|a|] == b[..|a|] && (b + y)[|a|..] == b[|a|..] + y;
  }

  /** Behind one peer, or without one, every address has its own key. */
  lemma AddressesApart(a: string, b: string, ip: Option<string>)
    ensures ComposeKey(a, ip) == ComposeKey(b, ip) <==> a == b
  {
    if ComposeKey(a, ip) == ComposeKey(b, ip) {
      var rest := if ip.Some? then PEER + ip.value else "";
      assert ComposeKey(a, ip) == "email:" + (a + rest) && ComposeKey(b, ip) == "email:" + (b + rest);
      CutAt("email:", "email:", a + rest, b + rest);
      CutAt(a, b, rest, rest);
    }
  }

  /** For one address, every peer, and having none, has its own key. */
  lemma PeersApart(a: string, x: Option<string>, y: Option<string>)
    ensures ComposeKey(a, x) == ComposeKey(a, y) <==> x == y
  {
    if ComposeKey(a, x) == ComposeKey(a, y) {
      var p := if x.Some? then PEER + x.value else "";
      var q := if y.Some? then PEER + y.value else "";
      assert ComposeKey(a, x) == ("email:" + a) + p && ComposeKey(a, y) == ("email:" + a) + q;
      CutAt("email:" + a, "email:" + a, p, q);
      if x.Some? && y.Some? { CutAt(PEER, PEER, x.value, y.value); }
    }
  }

  /** The text after the first address continues into the second one. */
  ghost predicate Continues(a: string, x: string, b: string, y: string) {
    exists t :: b == a + t && PEER + x == t + (PEER + y)
  }

  /** Two addresses behind two peers share a key exactly when one address and its peer are written into
      the other; which an address with a bar alone can bring about. */
  lemma KeysExact(a: string, x: string, b: string, y: string)
    ensures ComposeKey(a, Some(x)) == ComposeKey(b, Some(y)) <==> Continues(a, x, b, y) || Continues(b, y, a, x)
    ensures '|' !in x && '|' !in y ==> (ComposeKey(a, Some(x)) == ComposeKey(b, Some(y)) <==> a == b && x == y)
  {
    var p, q := PEER + x, PEER + y;
    KeyText(a, x);
    KeyText(b, y);
    hide ComposeKey;
    if ComposeKey(a, Some(x)) == ComposeKey(b, Some(y)) {
      CutAt("email:", "email:", a + p, b + q);
      if |a| <= |b| { CutAt(a, b, p, q); assert Continues(a, x, b, y); }
      else { CutAt(b, a, q, p); assert Continues(b, y, a, x); }
    }
    if Continues(a, x, b, y) { ContinuedKey(a, x, b, y); }
    if Continues(b, y, a, x) { ContinuedKey(b, y, a, x); }
  }

  lemma BarInside(t: string, x: string, y: string)
    requires PEER + x == t + (PEER + y)
    ensures t != "" ==> '|' in x
  {
    if t != "" {
      assert (t + (PEER + y))[|t|] == '|';
      assert PEER[1] == 'i' && PEER[2] == 'p' && PEER[3] == ':';
      assert x[|t| - |PEER|] == '|';
    }
  }

  lemma KeyText(a: string, x: string)
    ensures ComposeKey(a, Some(x)) == "email:" + (a + (PEER + x))
  {
    Regroup("email:", a, PEER, x);
  }

  lemma Regroup(a: string, b: string, c: string, d: string)
    ensures a + b + c + d == a + (b + (c + d))
  {
  }

  lemma ContinuedKey(a: string, x: string, b: string, y: string)
    requires Continues(a, x, b, y)
    ensures ComposeKey(a, Some(x)) == ComposeKey(b, Some(y))
    ensures '|' !in x ==> a == b && x == y
  {
    var t :| b == a + t && PEER + x == t + (PEER + y);
    KeyText(a, x);
    KeyText(b, y);
    BarInside(t, x, y);
    if t == "" { CutAt(PEER, PEER, x, y); }
    var q := PEER + y;
    hide ComposeKey;
    assert a + (t + q) == (a + t) + q;
  }

  /** An address without a peer shares its key with another address behind a peer exactly when it is
      that address with the peer written after it. */
  lemma PeerlessKeyExact(a: string, x: string, b: string)
    ensures ComposeKey(a, Some(x)) == ComposeKey(b, None) <==> b == a + PEER + x
  {
    assert ComposeKey(a, Some(x)) == "email:" + (a + PEER + x);
    if ComposeKey(a, Some(x)) == ComposeKey(b, None) { CutAt("email:", "email:", a + PEER + x, b); }
  }

  /** Such an address exists. */
  lemma SharedKey()
    ensures ComposeKey("a", Some("::1")) == ComposeKey("a|ip:::1", None)
  {
    PeerlessKeyExact("a", "::1", "a|ip:::1");
    assert "a" + PEER + "::1" == "a|ip:::1";
  }

  /** What the handler answers; `DbError` is the error its `?` passes on. */
  datatype LoginReply =
    | MissingInput | LockedOut(remaining: nat) | DbError | Invalid | Inactive | SignedIn(session: Session)

  /** The limiter event that ends an attempt which passed its check; `cleared` says that the
      success was recorded before a later database error. */
  ghost function EndEvent(reply: LoginReply, cleared: bool, at: nat): Option<Event> {
    match reply
    case Invalid => Some(Fail(at))
    case SignedIn(_) => Some(Succeed(at))
    case Inactive => Some(Abandon(at))
    case DbError => Some(if cleared then Succeed(at) else Abandon(at))
    case _ => None
  }

  /** What one request does to the limiter's entry: nothing without input, else its check and then
      the event that ends it. */
  ghost function EntryAfter(p: Params, entry: Option<FailureEntry>, reply: LoginReply, cleared: bool,
                            checkedAt: nat, endedAt: nat): Option<FailureEntry> {
    if reply.MissingInput? then entry
    else
      var e := EntryStep(p, entry, Attempt(checkedAt));
      match EndEvent(reply, cleared, endedAt)
      case None => e
      case Some(ev) => EntryStep(p, e, ev)
  }

  /** One request on a key, as the limiter sees it. */
  datatype Call = Call(reply: LoginReply, cleared: bool, checkedAt: nat, endedAt: nat)

  /** A reply that `HandleLogin` can give where the limiter's entry is `entry`. */
  ghost predicate Answerable(p: Params, entry: Option<FailureEntry>, c: Call) {
    && (c.reply.MissingInput? || (c.reply.LockedOut? <==> CheckEntry(p, entry, c.checkedAt).1.Err?))
    && (c.reply.SignedIn? ==> c.cleared) && (c.cleared ==> c.reply.SignedIn? || c.reply.DbError?)
  }

  /** The password verifies for the active account `id` of that address. */
  ghost predicate Proven(users: map<int, User>, email: string, password: string,
                         verify: (string, string) -> bool, id: int) {
    && id in users && users[id].email == email && users[id].is_active
    && verify(password, users[id].password_hash)
  }

  /** It verifies for the account `id`, which is not active. */
  ghost predicate Dormant(users: map<int, User>, email: string, password: string,
                          verify: (string, string) -> bool, id: int) {
    && id in users && users[id].email == email && !users[id].is_active
    && verify(password, users[id].password_hash)
  }

  /** The address has no account, or one whose password does not verify. */
  ghost predicate Unproven(users: map<int, User>, email: string, password: string, verify: (string, string) -> bool) {
    forall id :: id in users && users[id].email == email ==> !verify(password, users[id].password_hash)
  }

  /** The table's constraint on the address column. */
  ghost predicate UniqueEmails(users: map<int, User>) {
    forall a, b :: a in users && b in users && users[a].email == users[b].email ==> a == b
  }

  method FindByEmail(db: AuthDb, email: string) returns (r: Option<int>)
    ensures r.Some? ==> r.value in db.users && db.users[r.value].email == email
    ensures r.None? ==> forall id :: id in db.users ==> db.users[id].email != email
  {
    if id :| id in db.users && db.users[id].email == email {
      return Some(id);
    }
    return None;
  }

  datatype Credentials = Wrong | Inactive(id: int) | Right(id: int)

  /** The credentials part of `handle_login`.  Without an account the dummy hash is verified and the
      answer dropped. */
  method CheckCredentials(db: AuthDb, email: string, password: string, verify: (string, string) -> bool, dummy: string)
    returns (c: Credentials)
    requires UniqueEmails(db.users)
    ensures c.Wrong? <==> Unproven(db.users, email, password, verify)
    ensures forall id :: c == Credentials.Inactive(id) <==> Dormant(db.users, email, password, verify, id)
    ensures forall id :: c == Right(id) <==> Proven(db.users, email, password, verify, id)
  {
    var user := FindByEmail(db, email);
    var valid;
    if user.Some? {
      valid := verify(password, db.users[user.value].password_hash);
    } else {
      var _ := verify(password, dummy);
      valid := false;
    }
    assert user.Some? ==> forall id :: id in db.users && db.users[id].email == email ==> id == user.value;
    if !valid { return Wrong; }
    return if db.users[user.value].is_active then Right(user.value) else Credentials.Inactive(user.value);
  }

  /** The inputs a request cannot choose. */
  datatype World = World(
    lower: string -> string, verify: (string, string) -> bool, dummy: string,
    lookupFails: bool, sweepFails: bool, insertFails: bool, updateFails: bool,
    token: string, csrf: string, checkedAt: nat, endedAt: nat, clock: int)

  /** `normalise_email` of the trimmed form field. */
  function Address(w: World, email0: string): string { w.lower(Trim(Trim(email0))) }

  /** Two e-mail fields are one address exactly when they agree trimmed and lower-cased. */
  lemma AddressIsNormal(w: World, e: string)
    ensures Address(w, e) == w.lower(Trim(e))
  {
    var pre, post := TrimSplit(e);
    TrimOfTrimmed(Trim(e));
  }

  ghost function GateOf(p: Params, entry: Option<FailureEntry>, w: World): Result<(), nat> {
    CheckEntry(p, entry, w.checkedAt).1
  }

  /** The input is complete and the limiter lets the attempt through. */
  ghost predicate Admitted(p: Params, entry: Option<FailureEntry>, email0: string, password: string, w: World) {
    Trim(email0) != "" && password != "" && GateOf(p, entry, w).Ok?
  }

  /** The rows after the clean-up of a sign-in, which may fail. */
  ghost function Swept(rows: Rows, w: World): Rows { if w.sweepFails then rows else Unexpired(rows, w.clock) }

  /** The end of a sign-in: clean up, then draw a session. */
  method OpenSession(db: AuthDb, id: int, w: World) returns (session: Option<Session>)
    modifies db`rows
    ensures session == if w.insertFails || w.token in Swept(old(db.rows), w) then None
                       else Some(Session(w.token, id, TtlEnd(w.clock), w.csrf))
    ensures db.rows == if session.None? then Swept(old(db.rows), w)
                       else Swept(old(db.rows), w)[w.token := session.value]
  {
    hide Live, SameRow;
    if !w.sweepFails { var _ := db.SweepExpired(w.clock); }
    if w.insertFails { return None; }
    session := db.Create(w.token, w.csrf, id, w.clock);
  }

  /** `handle_login`.  Who is refused, who is signed in, and what stays untouched.  The limiter sees
      the check, and then exactly one of: a failure for credentials that do not verify, a success for
      an active account, nothing for a lookup error or an inactive account. */
  method HandleLogin(limiter: LoginRateLimiter, db: AuthDb, email0: string, password: string,
                     ip: Option<string>, w: World) returns (reply: LoginReply, ghost cleared: bool)
    requires UniqueEmails(db.users)
    modifies limiter`failures, db`rows
    ensures var key := ComposeKey(Address(w, email0), ip);
      && limiter.Entry(key) ==
           EntryAfter(limiter.params, old(limiter.Entry(key)), reply, cleared, w.checkedAt, w.endedAt)
      && (forall k :: k != key ==> limiter.Entry(k) == old(limiter.Entry(k)))
    ensures forall other :: other != Address(w, email0) ==>
      limiter.Entry(ComposeKey(other, ip)) == old(limiter.Entry(ComposeKey(other, ip)))
    ensures forall peer :: peer != ip ==>
      limiter.Entry(ComposeKey(Address(w, email0), peer)) == old(limiter.Entry(ComposeKey(Address(w, email0), peer)))
    ensures Answerable(limiter.params, old(limiter.Entry(ComposeKey(Address(w, email0), ip))),
                       Call(reply, cleared, w.checkedAt, w.endedAt))
    ensures reply.MissingInput? <==> Trim(email0) == "" || password == ""
    ensures reply.LockedOut? ==>
      GateOf(limiter.params, old(limiter.Entry(ComposeKey(Address(w, email0), ip))), w) == Err(reply.remaining)
    ensures !reply.MissingInput? && !reply.LockedOut? <==>
      Admitted(limiter.params, old(limiter.Entry(ComposeKey(Address(w, email0), ip))), email0, password, w)
    ensures !reply.MissingInput? && !reply.LockedOut? && w.lookupFails ==> reply.DbError? && !cleared
    ensures !reply.MissingInput? && !reply.LockedOut? && !w.lookupFails ==>
      && (reply.Invalid? <==> Unproven(db.users, Address(w, email0), password, w.verify))
      && (reply.Inactive? <==> exists id :: Dormant(db.users, Address(w, email0), password, w.verify, id))
      && (cleared <==> exists id :: Proven(db.users, Address(w, email0), password, w.verify, id))
    ensures reply.SignedIn? <==> cleared && !w.insertFails && w.token !in Swept(old(db.rows), w)
    ensures reply.SignedIn? ==>
      && Proven(db.users, Address(w, email0), password, w.verify, reply.session.user_id)
      && reply.session == Session(w.token, reply.session.user_id, TtlEnd(w.clock), w.csrf)
    ensures reply.MissingInput? || reply.LockedOut? ==> !cleared
    ensures db.rows == if reply.SignedIn? then Swept(old(db.rows), w)[w.token := reply.session]
                       else if cleared then Swept(old(db.rows), w) else old(db.rows)
  {
    hide Proven, Dormant, Unproven, UniqueEmails, CheckEntry, FailEntry, ComposeKey;
    forall other ensures ComposeKey(other, ip) == ComposeKey(Address(w, email0), ip) <==> other == Address(w, email0) {
      AddressesApart(other, Address(w, email0), ip);
    }
    forall peer ensures ComposeKey(Address(w, email0), peer) == ComposeKey(Address(w, email0), ip) <==> peer == ip {
      PeersApart(Address(w, email0), peer, ip);
    }
    cleared := false;
    var email := Trim(email0);
    if email == "" || password == "" { return MissingInput, false; }
    var key := ComposeKey(Address(w, email0), ip);
    var verdict := limiter.Check(key, w.checkedAt);
    if verdict.Err? { return LockedOut(verdict.error), false; }
    if w.lookupFails { return DbError, false; }
    var c := CheckCredentials(db, Address(w, email0), password, w.verify, w.dummy);
    if c.Wrong? {
      limiter.RecordFailure(key, w.endedAt);
      return Invalid, false;
    }
    if c.Inactive? { return LoginReply.Inactive, false; }
    limiter.RecordSuccess(key);
    cleared := true;
    var session := OpenSession(db, c.id, w);
    reply := if session.None? then DbError else SignedIn(session.value);
  }

  // ----- requests one after the other -----

  /** Calls of `HandleLogin` on one key, one after the other on a clock that never runs backwards. */
  ghost predicate CallRun(p: Params, entry: Option<FailureEntry>, now: nat, calls: seq<Call>)
    decreases |calls|
  {
    calls == [] || (
      var c := calls[0];
      && now <= c.checkedAt <= c.endedAt && Answerable(p, entry, c)
      && CallRun(p, EntryAfter(p, entry, c.reply, c.cleared, c.checkedAt, c.endedAt), c.endedAt, calls[1..]))
  }

  ghost function LastTime(now: nat, calls: seq<Call>): nat {
    if calls == [] then now else calls[|calls| - 1].endedAt
  }

  ghost function Invalids(calls: seq<Call>): nat {
    if calls == [] then 0 else (if calls[0].reply.Invalid? then 1 else 0) + Invalids(calls[1..])
  }

  ghost function Clearings(calls: seq<Call>): nat {
    if calls == [] then 0 else (if calls[0].cleared then 1 else 0) + Clearings(calls[1..])
  }

  /** The limiter calls of one request. */
  ghost function EventsOf(c: Call): seq<Event> {
    if c.reply.MissingInput? then []
    else
      match EndEvent(c.reply, c.cleared, c.endedAt)
      case None => [Attempt(c.checkedAt)]
      case Some(end) => [Attempt(c.checkedAt), end]
  }

  lemma RunOne(p: Params, s: State, c: nat, a: Event)
    requires Possible(s, c, a)
    ensures PossibleRun(p, s, c, [a]) && RunEvents(p, s, c, [a]) == Step(p, s, a)
  {
    assert [a][1..] == [];
  }

  lemma RunTwo(p: Params, s: State, c: nat, a: Event, b: Event)
    requires Possible(s, c, a) && Possible(Step(p, s, a), c, b)
    ensures PossibleRun(p, s, c, [a, b]) && RunEvents(p, s, c, [a, b]) == Step(p, Step(p, s, a), b)
  {
    RunOne(p, s, c, a);
    RunOne(p, Step(p, s, a), c, b);
    RunConcat(p, s, c, [a], [b]);
    assert [a] + [b] == [a, b];
  }

  lemma CallEvents(p: Params, s: State, c: Call)
    requires s.inflight == 0 && s.now <= c.checkedAt <= c.endedAt && Answerable(p, s.entry, c)
    ensures PossibleRun(p, s, 1, EventsOf(c))
    ensures var t := RunEvents(p, s, 1, EventsOf(c));
      && t.entry == EntryAfter(p, s.entry, c.reply, c.cleared, c.checkedAt, c.endedAt)
      && t.inflight == 0 && s.now <= t.now <= c.endedAt
      && t.recorded == s.recorded + (if c.reply.Invalid? then 1 else 0)
      && t.succeeded == s.succeeded + (if c.cleared then 1 else 0)
  {
    var es := EventsOf(c);
    if |es| == 1 { RunOne(p, s, 1, es[0]); }
    if |es| == 2 { RunTwo(p, s, 1, es[0], es[1]); }
  }

  /** The requests drive the limiter through one run with at most one attempt in flight. */
  lemma {:induction false} CallsAreRun(p: Params, s: State, calls: seq<Call>, now: nat) returns (es: seq<Event>)
    requires s.inflight == 0 && s.now <= now && CallRun(p, s.entry, now, calls)
    ensures PossibleRun(p, s, 1, es)
    ensures var t := RunEvents(p, s, 1, es);
      && t.recorded == s.recorded + Invalids(calls) && t.succeeded == s.succeeded + Clearings(calls)
      && s.now <= t.now <= LastTime(now, calls)
    decreases |calls|
  {
    es := [];
    if calls != [] {
      CallEvents(p, s, calls[0]);
      var t := RunEvents(p, s, 1, EventsOf(calls[0]));
      var rest := CallsAreRun(p, t, calls[1..], calls[0].endedAt);
      RunConcat(p, s, 1, EventsOf(calls[0]), rest);
      es := EventsOf(calls[0]) + rest;
    }
  }

  /** End to end: whatever the limiter holds at `now`, over a time `T` the requests on one address and
      one IP get at most `limit * (T / lockout + 1)` answers to wrong credentials, and one such batch
      more for each sign-in that clears the key. */
  lemma InvalidsBounded(p: Params, entry: Option<FailureEntry>, now: nat, calls: seq<Call>)
    requires p.Valid() && CallRun(p, entry, now, calls)
    ensures LastTime(now, calls) >= now
    ensures Invalids(calls) <=
      Threshold(p) * ((LastTime(now, calls) - now) / p.lockout + Clearings(calls) + 1)
  {
    var s := State(entry, 0, now, 0, 0);
    var es := CallsAreRun(p, s, calls, now);
    hide CallRun, PossibleRun, RunEvents, Invalids, Clearings, LastTime;
    FailuresBounded(p, 1, s, es);
    var t := RunEvents(p, s, 1, es);
    LaterBound(Threshold(p), t.now - now, LastTime(now, calls) - now, p.lockout, Clearings(calls));
  }

  lemma LaterBound(q: nat, t: nat, longer: nat, l: nat, n: nat)
    requires t <= longer && l > 0
    ensures q * (t / l + n + 1) <= q * (longer / l + n + 1)
  {
    DivisionMonotone(t, longer, l);
    ProductMonotone(q, t / l + n + 1, longer / l + n + 1);
  }

  lemma DivisionMonotone(t: nat, longer: nat, l: nat)
    requires t <= longer && l > 0
    ensures t / l <= longer / l
  {
    PeriodsFit(l, t / l, longer);
  }

  // ----- changing the password -----

  datatype ChangeReply =
    | Forbidden | NotSignedIn | FieldsRequired | Mismatch | TooShort | LookupFailed | WrongOldPassword
    | Failed | Changed(session: Session)

  datatype ChangeForm = ChangeForm(old_password: string, new1: string, new2: string)

  ghost predicate Filled(f: ChangeForm) { f.old_password != "" && f.new1 != "" && f.new2 != "" }

  /** Filled in, both new passwords alike, and of at least eight bytes. */
  ghost predicate LongEnough(f: ChangeForm) { Filled(f) && f.new1 == f.new2 && Utf8Len(f.new1) >= 8 }

  /** The request is complete, consistent and long enough, and proves the old password. */
  ghost predicate Acceptable(users: map<int, User>, user: Option<int>, f: ChangeForm,
                             verify: (string, string) -> bool) {
    && user.Some? && user.value in users
    && f.old_password != "" && f.new1 != "" && f.new1 == f.new2 && Utf8Len(f.new1) >= 8
    && verify(f.old_password, users[user.value].password_hash)
  }

  /** Which answer is given: each refusal under exactly its condition, in the order of the tests. */
  ghost predicate Explains(reply: ChangeReply, users: map<int, User>, user: Option<int>, csrf: bool, f: ChangeForm,
                           w: World) {
    && (reply.Forbidden? <==> !csrf)
    && (csrf ==>
          && (reply.FieldsRequired? <==> user.Some? && !Filled(f))
          && (reply.Mismatch? <==> user.Some? && Filled(f) && f.new1 != f.new2)
          && (reply.TooShort? <==> user.Some? && Filled(f) && f.new1 == f.new2 && Utf8Len(f.new1) < 8)
          && (reply.LookupFailed? <==> user.Some? && LongEnough(f) && w.lookupFails)
          && (reply.NotSignedIn? <==> user.None? || (LongEnough(f) && !w.lookupFails && user.value !in users))
          && (reply.WrongOldPassword? <==>
                && user.Some? && LongEnough(f) && !w.lookupFails && user.value in users
                && !w.verify(f.old_password, users[user.value].password_hash)))
  }

  /** The tests of the handler; nothing when the request passes them all. */
  method CheckChange(db: AuthDb, user: Option<int>, expected: seq<bv8>, provided: seq<bv8>, f: ChangeForm, w: World)
    returns (refusal: Option<ChangeReply>)
    ensures refusal.None? <==>
      expected != [] && expected == provided && !w.lookupFails && Acceptable(db.users, user, f, w.verify)
    ensures refusal.Some? ==> !refusal.value.Changed? && !refusal.value.Failed?
    ensures refusal.Some? ==>
      Explains(refusal.value, db.users, user, expected != [] && expected == provided, f, w)
    ensures refusal.None? ==>
      Explains(Failed, db.users, user, expected != [] && expected == provided, f, w)
  {
    hide Utf8Len;
    var ok := VerifyToken(expected, provided);
    if !ok { return Some(Forbidden); }
    if user.None? { return Some(NotSignedIn); }
    if f.old_password == "" || f.new1 == "" || f.new2 == "" { return Some(FieldsRequired); }
    if f.new1 != f.new2 { return Some(Mismatch); }
    if Utf8Len(f.new1) < 8 { return Some(TooShort); }
    if w.lookupFails { return Some(LookupFailed); }
    if user.value !in db.users { return Some(NotSignedIn); }
    if !w.verify(f.old_password, db.users[user.value].password_hash) { return Some(WrongOldPassword); }
    return None;
  }

  /** The change itself: the new hash, all sessions dropped, and a new one. */
  method Rotate(db: AuthDb, id: int, password: string, hash: string -> Option<string>, w: World)
    returns (reply: ChangeReply)
    requires id in db.users
    modifies db
    ensures reply.Failed? || reply.Changed?
    ensures reply.Failed? <==>
      hash(password).None? || w.updateFails || w.insertFails || w.token in WithoutUser(old(db.rows), id)
    ensures hash(password).None? || w.updateFails ==> db.rows == old(db.rows) && db.users == old(db.users)
    ensures hash(password).Some? && !w.updateFails ==>
      db.users == old(db.users)[id := old(db.users)[id].(password_hash := hash(password).value)]
    ensures reply.Failed? && hash(password).Some? && !w.updateFails ==>
      db.rows == WithoutUser(old(db.rows), id) && ActiveIds(db.rows, id, w.clock) == {}
    ensures reply.Changed? ==>
      && reply.session == Session(w.token, id, TtlEnd(w.clock), w.csrf)
      && db.rows == WithoutUser(old(db.rows), id)[w.token := reply.session]
      && ActiveIds(db.rows, id, w.clock) == {w.token}
  {
    var h := hash(password);
    if h.None? || w.updateFails { return Failed; }
    db.SetPassword(id, h.value);
    assert db.rows == WithoutUser(old(db.rows), id);
    if w.insertFails { return Failed; }
    var session := db.Create(w.token, w.csrf, id, w.clock);
    return if session.None? then Failed else Changed(session.value);
  }

  /** `handle_password_change_post`.  A refused request changes nothing; an accepted one leaves the
      user with the new hash and exactly the one session it hands back. */
  method HandlePasswordChange(db: AuthDb, user: Option<int>, expected: seq<bv8>, provided: seq<bv8>,
                              f: ChangeForm, hash: string -> Option<string>, w: World) returns (reply: ChangeReply)
    modifies db
    ensures reply.Changed? || reply.Failed? <==>
      expected != [] && expected == provided && !w.lookupFails && Acceptable(old(db.users), user, f, w.verify)
    ensures !reply.Changed? && !reply.Failed? ==>
      && db.rows == old(db.rows) && db.users == old(db.users)
      && Explains(reply, old(db.users), user, expected != [] && expected == provided, f, w)
    ensures reply.Changed? ==>
      && hash(f.new1).Some? && !w.updateFails && !w.insertFails
      && db.users == old(db.users)[user.value := old(db.users)[user.value].(password_hash := hash(f.new1).value)]
      && reply.session == Session(w.token, user.value, TtlEnd(w.clock), w.csrf)
      && db.rows == WithoutUser(old(db.rows), user.value)[w.token := reply.session]
      && ActiveIds(db.rows, user.value, w.clock) == {w.token}
    ensures reply.Failed? ==>
      || hash(f.new1).None? || w.updateFails || w.insertFails
      || (user.Some? && w.token in WithoutUser(old(db.rows), user.value))
    ensures reply.Failed? && (hash(f.new1).None? || w.updateFails) ==>
      db.rows == old(db.rows) && db.users == old(db.users)
    ensures reply.Failed? && hash(f.new1).Some? && !w.updateFails ==>
      && db.users == old(db.users)[user.value := old(db.users)[user.value].(password_hash := hash(f.new1).value)]
      && db.rows == WithoutUser(old(db.rows), user.value) && ActiveIds(db.rows, user.value, w.clock) == {}
  {
    hide Explains, Utf8Len, ActiveIds, WithoutUser;
    var refusal := CheckChange(db, user, expected, provided, f, w);
    if refusal.Some? { return refusal.value; }
    reply := Rotate(db, user.value, f.new1, hash, w);
  }
}
