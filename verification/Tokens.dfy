/** The token tables: JWTs, refresh tokens and password-reset tokens, and the
    in-memory blacklist of logged-out JWTs that sits in front of them. */
module Tokens {
  import opened Wrappers
  import opened Text
  import opened AccessControl

  const TWO_63: int := 0x8000_0000_0000_0000
  const TWO_64: int := 0x1_0000_0000_0000_0000

  type u64 = x: int | 0 <= x < TWO_64
  type i64 = x: int | -TWO_63 <= x < TWO_63

  /** The tables hold hashes as signed integers, the blacklist as unsigned ones. */
  function AsI64(x: u64): i64 {
    if x < TWO_63 then x else x - TWO_64
  }

  function AsU64(x: i64): u64 {
    if x < 0 then x + TWO_64 else x
  }

  /** Time is counted in microseconds. */
  const DAY: int := 86_400_000_000
  const MINUTE: int := 60_000_000

  /** A signed token, identified with its claims. */
  datatype Jwt = Jwt(user: string, groups: set<string>, issuedAt: int, expiry: int)

  /** The hash functions are foreign code: any functions will do. */
  datatype Hashes = Hashes(jwt: Jwt -> u64, refresh: string -> u64)

  datatype JwtRow = JwtRow(user: string, expiry: int, blacklisted: bool)

  datatype ExpiringRow = ExpiringRow(user: string, expiry: int)

  /** The database tables, the clock, and the blacklist held in memory.
      `users` maps each existing user to the names of their groups. */
  datatype State = State(
    now: int,
    users: map<string, set<string>>,
    jwts: map<i64, JwtRow>,
    refreshTokens: map<i64, ExpiringRow>,
    resetTokens: map<string, ExpiringRow>,
    blacklist: set<u64>)

  const EMPTY: State := State(0, map[], map[], map[], map[], {})

  datatype Event =
    | Login(name: string, secret: string)
    | Refresh(cookie: string)
    | Logout(cookie: string)
    | ResetStart(found: seq<string>, token: string)
    | ResetFinish(token: string)
    | Cleanup
    | Restart
    | Elapse(duration: nat)
    | PutUser(name: string, groups: set<string>)
    | DeleteUser(name: string)

  datatype Reply = Refused | Done | Issued(jwt: Jwt)

  // ----- Cookies -----

  /** The refresh cookie is the random part, a plus sign and the user id. */
  function RefreshCookie(secret: string, user: string): string {
    secret + "+" + user
  }

  function ParseRefreshCookie(h: Hashes, cookie: string): Option<(u64, string)> {
    var i := IndexOf(cookie, '+');
    if i == |cookie| then None
    else Some((h.refresh(cookie[..i]), Lower(cookie[i + 1..])))
  }

  /** A cookie made for a user parses back to that user and the hash of its
      secret, even when the user id itself contains a plus sign. */
  lemma RefreshCookieRoundTrip(h: Hashes, secret: string, user: string)
    requires '+' !in secret && IsLower(user)
    ensures ParseRefreshCookie(h, RefreshCookie(secret, user)) == Some((h.refresh(secret), user))
  {
    IndexOfConcat(secret, '+', user);
    var cookie := secret + ['+'] + user;
    assert RefreshCookie(secret, user) == cookie;
    assert cookie[..|secret|] == secret && cookie[|secret| + 1..] == user;
  }

  // ----- The effect of each request on the tables -----

  /** Inserting a JWT row: the hash is the primary key, the user a foreign key. */
  function RegisterJwt(s: State, user: string, hash: u64, expiry: int): Option<State> {
    if AsI64(hash) in s.jwts || user !in s.users then None
    else Some(s.(jwts := s.jwts[AsI64(hash) := JwtRow(user, expiry, false)]))
  }

  function CreateJwt(h: Hashes, s: State, user: string, groups: set<string>): (State, Reply) {
    var jwt := Jwt(user, groups, s.now, s.now + DAY);
    match RegisterJwt(s, user, h.jwt(jwt), jwt.expiry)
    case None => (s, Refused)
    case Some(s') => (s', Issued(jwt))
  }

  function LoginStep(h: Hashes, s: State, user: string, secret: string): (State, Reply) {
    var key := AsI64(h.refresh(secret));
    if user !in s.users || key in s.refreshTokens then (s, Refused)
    else
      var s' := s.(refreshTokens := s.refreshTokens[key := ExpiringRow(user, s.now + 30 * DAY)]);
      CreateJwt(h, s', user, s.users[user])
  }

  function RefreshStep(h: Hashes, s: State, cookie: string): (State, Reply) {
    match ParseRefreshCookie(h, cookie)
    case None => (s, Refused)
    case Some((hash, user)) =>
      var key := AsI64(hash);
      if key !in s.refreshTokens || s.refreshTokens[key].user != user || user !in s.users then (s, Refused)
      else CreateJwt(h, s, user, s.users[user])
  }

  function ValidHashes(s: State, user: string): set<u64> {
    set k | k in s.jwts && s.jwts[k].user == user && !s.jwts[k].blacklisted :: AsU64(k)
  }

  function BlacklistRows(jwts: map<i64, JwtRow>, user: string): map<i64, JwtRow> {
    map k | k in jwts ::
      if jwts[k].user == user then jwts[k].(blacklisted := true) else jwts[k]
  }

  function LogoutStep(h: Hashes, s: State, cookie: string): (State, Reply) {
    match ParseRefreshCookie(h, cookie)
    case None => (s, Refused)
    case Some((hash, user)) =>
      (s.(refreshTokens := s.refreshTokens - {AsI64(hash)},
          jwts := BlacklistRows(s.jwts, user),
          blacklist := s.blacklist + ValidHashes(s, user)), Done)
  }

  /** A reset is asked for by id or by email; `found` are the users that have it. Nobody is
      told that there is none. */
  function ResetStartStep(s: State, found: seq<string>, token: string): (State, Reply) {
    if |found| > 1 then (s, Refused)
    else if found == [] || found[0] !in s.users then (s, Done)
    else if token in s.resetTokens then (s, Refused)
    else (s.(resetTokens := s.resetTokens[token := ExpiringRow(found[0], s.now + 10 * MINUTE)]), Done)
  }

  function ResetFinishStep(h: Hashes, s: State, token: string): (State, Reply) {
    if token !in s.resetTokens || !(s.resetTokens[token].expiry > s.now) then (s, Refused)
    else
      var user := s.resetTokens[token].user;
      CreateJwt(h, s.(resetTokens := s.resetTokens - {token}), user, {})
  }

  function CleanupStep(s: State): State {
    s.(refreshTokens := map k | k in s.refreshTokens && !(s.refreshTokens[k].expiry < s.now) :: s.refreshTokens[k],
       jwts := map k | k in s.jwts && !(s.jwts[k].expiry < s.now) :: s.jwts[k],
       resetTokens := map k | k in s.resetTokens && !(s.resetTokens[k].expiry < s.now) :: s.resetTokens[k])
  }

  function LoadBlacklist(s: State): set<u64> {
    set k | k in s.jwts && s.jwts[k].blacklisted :: AsU64(k)
  }

  /** Deleting a user cascades to every token row of theirs, not to memory. */
  function DeleteUserStep(s: State, user: string): State {
    s.(users := s.users - {user},
       jwts := map k | k in s.jwts && s.jwts[k].user != user :: s.jwts[k],
       refreshTokens := map k | k in s.refreshTokens && s.refreshTokens[k].user != user :: s.refreshTokens[k],
       resetTokens := map k | k in s.resetTokens && s.resetTokens[k].user != user :: s.resetTokens[k])
  }

  function Step(h: Hashes, s: State, e: Event): (State, Reply) {
    match e
    case Login(name, secret) => LoginStep(h, s, Lower(name), secret)
    case Refresh(cookie) => RefreshStep(h, s, cookie)
    case Logout(cookie) => LogoutStep(h, s, cookie)
    case ResetStart(found, token) => ResetStartStep(s, found, token)
    case ResetFinish(token) => ResetFinishStep(h, s, token)
    case Cleanup => (CleanupStep(s), Done)
    case Restart => (s.(blacklist := LoadBlacklist(s)), Done)
    case Elapse(d) => (s.(now := s.now + d), Done)
    case PutUser(name, groups) => (s.(users := s.users[Lower(name) := groups]), Done)
    case DeleteUser(name) => (DeleteUserStep(s, Lower(name)), Done)
  }

  function Run(h: Hashes, s: State, events: seq<Event>): State
    decreases |events|
  {
    if events == [] then s else Run(h, Step(h, s, events[0]).0, events[1..])
  }

  /** Every JWT handed out during a run. */
  function IssuedIn(h: Hashes, s: State, events: seq<Event>): set<Jwt>
    decreases |events|
  {
    if events == [] then {}
    else
      var (s', reply) := Step(h, s, events[0]);
      (if reply.Issued? then {reply.jwt} else {}) + IssuedIn(h, s', events[1..])
  }

  // ----- Checking a token -----

  /** The answer of the token check to a correctly signed JWT. */
  function CheckToken(h: Hashes, s: State, jwt: Jwt): Option<ValidationResults> {
    if jwt.expiry < s.now then None
    else if h.jwt(jwt) in s.blacklist then None
    else Some(PermissionsFromGroups(Lower(jwt.user), jwt.groups))
  }

  predicate Accepted(h: Hashes, s: State, jwt: Jwt) {
    CheckToken(h, s, jwt).Some?
  }

  // ----- What every run keeps -----

  /** The blacklist in memory covers the blacklisted rows of the table, and every
      token row belongs to an existing user. */
  ghost predicate Consistent(s: State) {
    && (forall k :: k in s.jwts && s.jwts[k].blacklisted ==> AsU64(k) in s.blacklist)
    && (forall k :: k in s.jwts ==> s.jwts[k].user in s.users)
    && (forall k :: k in s.refreshTokens ==> s.refreshTokens[k].user in s.users)
    && (forall t :: t in s.resetTokens ==> s.resetTokens[t].user in s.users)
  }

  lemma StepConsistent(h: Hashes, s: State, e: Event)
    requires Consistent(s)
    ensures Consistent(Step(h, s, e).0)
  {
    hide ParseRefreshCookie, ValidHashes, BlacklistRows, CleanupStep;
    if e.Logout? {
      LogoutConsistent(h, s, e);
    } else if e.Cleanup? {
      CleanupConsistent(s);
    }
  }

  lemma LogoutConsistent(h: Hashes, s: State, e: Event)
    requires Consistent(s) && e.Logout?
    ensures Consistent(Step(h, s, e).0)
  {
    hide ParseRefreshCookie;
    var s' := Step(h, s, e).0;
    if ParseRefreshCookie(h, e.cookie).Some? {
      var user := ParseRefreshCookie(h, e.cookie).value.1;
      forall k | k in s'.jwts && s'.jwts[k].blacklisted
        ensures AsU64(k) in s'.blacklist
      {
        if !s.jwts[k].blacklisted {
          assert AsU64(k) in ValidHashes(s, user);
        }
      }
    }
  }

  lemma CleanupConsistent(s: State)
    requires Consistent(s)
    ensures Consistent(CleanupStep(s))
  {
  }

  lemma {:induction false} RunConsistent(h: Hashes, s: State, events: seq<Event>)
    requires Consistent(s)
    ensures Consistent(Run(h, s, events))
    decreases |events|
  {
    if events != [] {
      StepConsistent(h, s, events[0]);
      RunConsistent(h, Step(h, s, events[0]).0, events[1..]);
    }
  }

  lemma {:induction false} RunConcat(h: Hashes, s: State, a: seq<Event>, b: seq<Event>)
    ensures Run(h, s, a + b) == Run(h, Run(h, s, a), b)
    decreases |a|
  {
    if a == [] {
      assert a + b == b;
    } else {
      assert (a + b)[0] == a[0] && (a + b)[1..] == a[1..] + b;
      RunConcat(h, Step(h, s, a[0]).0, a[1..], b);
    }
  }

  // ----- Logging out is final -----

  /** The table row of `jwt`. */
  ghost predicate HasRow(h: Hashes, s: State, jwt: Jwt) {
    var k := AsI64(h.jwt(jwt));
    k in s.jwts && s.jwts[k].user == jwt.user && s.jwts[k].expiry == jwt.expiry
  }

  ghost predicate RowBlacklisted(h: Hashes, s: State, jwt: Jwt) {
    var k := AsI64(h.jwt(jwt));
    k in s.jwts && s.jwts[k].blacklisted
  }

  predicate Deletes(e: Event, user: string) {
    e.DeleteUser? && Lower(e.name) == user
  }

  predicate LogsOut(h: Hashes, e: Event, user: string) {
    e.Logout? && var parsed := ParseRefreshCookie(h, e.cookie); parsed.Some? && parsed.value.1 == user
  }

  predicate NeverDeleted(events: seq<Event>, user: string) {
    forall e :: e in events ==> !Deletes(e, user)
  }

  /** `jwt` has expired, or has its row, blacklisted if `revoked` says so. */
  ghost predicate Held(h: Hashes, s: State, jwt: Jwt, revoked: bool) {
    jwt.expiry < s.now || (HasRow(h, s, jwt) && (revoked ==> RowBlacklisted(h, s, jwt)))
  }

  lemma StepHolds(h: Hashes, s: State, e: Event, jwt: Jwt, revoked: bool)
    requires Held(h, s, jwt, revoked) && !Deletes(e, jwt.user)
    ensures Held(h, Step(h, s, e).0, jwt, revoked || LogsOut(h, e, jwt.user))
  {
    var s' := Step(h, s, e).0;
    if HasRow(h, s, jwt) && !(jwt.expiry < s.now) {
      assert HasRow(h, s', jwt) || jwt.expiry < s'.now;
      assert RowBlacklisted(h, s, jwt) ==> RowBlacklisted(h, s', jwt) || jwt.expiry < s'.now;
    }
  }

  /** Until it expires, an issued JWT keeps its row, and once blacklisted the row
      stays so: cleanup only drops what the expiry check rejects already. */
  lemma {:induction false} RunHolds(h: Hashes, s: State, events: seq<Event>, jwt: Jwt, revoked: bool)
    requires Held(h, s, jwt, revoked) && NeverDeleted(events, jwt.user)
    ensures Held(h, Run(h, s, events), jwt, revoked)
    decreases |events|
  {
    if events != [] {
      StepHolds(h, s, events[0], jwt, revoked);
      RunHolds(h, Step(h, s, events[0]).0, events[1..], jwt, revoked);
    }
  }

  /** A JWT issued before its user logs out is never accepted again, whatever
      logins, refreshes, resets, cleanups and restarts follow, as long as the user
      is not deleted. No assumption on the hash functions is needed. */
  lemma LogoutIsFinal(h: Hashes, start: State, issue: Event, before: seq<Event>, logout: Event, after: seq<Event>)
    requires Consistent(start)
    requires Step(h, start, issue).1.Issued?
    requires LogsOut(h, logout, Step(h, start, issue).1.jwt.user)
    requires NeverDeleted(before + after, Step(h, start, issue).1.jwt.user)
    ensures !Accepted(h, Run(h, start, [issue] + before + [logout] + after), Step(h, start, issue).1.jwt)
  {
    hide Step, Consistent, Run;
    var (s0, reply) := Step(h, start, issue);
    var jwt := reply.jwt;
    StepConsistent(h, start, issue);
    IssuedIsHeld(h, start, issue);
    assert NeverDeleted(before, jwt.user) by {
      assert forall e :: e in before ==> e in before + after;
    }
    assert NeverDeleted(after, jwt.user) by {
      assert forall e :: e in after ==> e in before + after;
    }
    var s1 := Run(h, s0, before);
    RunHolds(h, s0, before, jwt, false);
    RunConsistent(h, s0, before);
    var s2 := Step(h, s1, logout).0;
    StepHolds(h, s1, logout, jwt, false);
    StepConsistent(h, s1, logout);
    var s3 := Run(h, s2, after);
    RunHolds(h, s2, after, jwt, true);
    RunConsistent(h, s2, after);
    RevokedIsRefused(h, s3, jwt);
    RunConcat(h, start, [issue] + before + [logout], after);
    RunConcat(h, start, [issue] + before, [logout]);
    RunConcat(h, start, [issue], before);
    RunOfOne(h, start, issue);
    RunOfOne(h, s1, logout);
  }

  lemma RunOfOne(h: Hashes, s: State, e: Event)
    ensures Run(h, s, [e]) == Step(h, s, e).0
  {
  }

  lemma IssuedIsHeld(h: Hashes, s: State, issue: Event)
    requires Step(h, s, issue).1.Issued?
    ensures Held(h, Step(h, s, issue).0, Step(h, s, issue).1.jwt, false)
  {
  }

  lemma RevokedIsRefused(h: Hashes, s: State, jwt: Jwt)
    requires Consistent(s) && Held(h, s, jwt, true)
    ensures !Accepted(h, s, jwt)
  {
    assert AsU64(AsI64(h.jwt(jwt))) == h.jwt(jwt);
  }

  // ----- Exactly which tokens are accepted -----

  /** What the events alone say about a JWT that has not expired. A deleted user's
      JWTs lose their row; `blocked` tells whether memory still remembers them. */
  datatype Fate = Live | Revoked | Dropped(blocked: bool)

  function FateStep(h: Hashes, fate: Fate, e: Event, user: string): Fate {
    if LogsOut(h, e, user) then if fate.Live? then Revoked else fate
    else if Deletes(e, user) then if fate.Dropped? then fate else Dropped(fate.Revoked?)
    else if e.Restart? && fate.Dropped? then Dropped(false)
    else fate
  }

  function FateRun(h: Hashes, fate: Fate, events: seq<Event>, user: string): Fate
    decreases |events|
  {
    if events == [] then fate else FateRun(h, FateStep(h, fate, events[0], user), events[1..], user)
  }

  ghost predicate Tracks(h: Hashes, s: State, jwt: Jwt, fate: Fate) {
    jwt.expiry < s.now ||
    match fate
    case Live => HasRow(h, s, jwt) && !RowBlacklisted(h, s, jwt) && h.jwt(jwt) !in s.blacklist
    case Revoked => HasRow(h, s, jwt) && RowBlacklisted(h, s, jwt) && h.jwt(jwt) in s.blacklist
    case Dropped(blocked) => AsI64(h.jwt(jwt)) !in s.jwts && (h.jwt(jwt) in s.blacklist <==> blocked)
  }

  /** No issued token shares the hash of `jwt`. */
  ghost predicate HashUnique(h: Hashes, issued: set<Jwt>, jwt: Jwt) {
    forall t :: t in issued ==> h.jwt(t) != h.jwt(jwt)
  }

  lemma LogoutTracks(h: Hashes, s: State, e: Event, jwt: Jwt, fate: Fate)
    requires Tracks(h, s, jwt, fate) && e.Logout?
    ensures Tracks(h, Step(h, s, e).0, jwt, FateStep(h, fate, e, jwt.user))
  {
    hide ParseRefreshCookie;
    var k := AsI64(h.jwt(jwt));
    assert AsU64(k) == h.jwt(jwt);
    if jwt.expiry >= s.now && ParseRefreshCookie(h, e.cookie).Some? {
      var user := ParseRefreshCookie(h, e.cookie).value.1;
      assert h.jwt(jwt) in ValidHashes(s, user) <==> k in s.jwts && s.jwts[k].user == user && !s.jwts[k].blacklisted;
    }
  }

  lemma RestartTracks(h: Hashes, s: State, jwt: Jwt, fate: Fate)
    requires Tracks(h, s, jwt, fate)
    ensures Tracks(h, Step(h, s, Restart).0, jwt, FateStep(h, fate, Restart, jwt.user))
  {
    var k := AsI64(h.jwt(jwt));
    assert AsU64(k) == h.jwt(jwt);
  }

  lemma StepTracks(h: Hashes, s: State, e: Event, jwt: Jwt, fate: Fate)
    requires Consistent(s) && Tracks(h, s, jwt, fate)
    requires var reply := Step(h, s, e).1; reply.Issued? ==> h.jwt(reply.jwt) != h.jwt(jwt)
    ensures Tracks(h, Step(h, s, e).0, jwt, FateStep(h, fate, e, jwt.user))
  {
    hide ParseRefreshCookie, LoadBlacklist, ValidHashes, BlacklistRows;
    if e.Logout? {
      LogoutTracks(h, s, e, jwt, fate);
    } else if e.Restart? {
      RestartTracks(h, s, jwt, fate);
    } else {
      var k := AsI64(h.jwt(jwt));
      assert AsU64(k) == h.jwt(jwt);
    }
  }

  lemma {:induction false} RunTracks(h: Hashes, s: State, events: seq<Event>, jwt: Jwt, fate: Fate)
    requires Consistent(s) && Tracks(h, s, jwt, fate)
    requires HashUnique(h, IssuedIn(h, s, events), jwt)
    ensures Tracks(h, Run(h, s, events), jwt, FateRun(h, fate, events, jwt.user))
    decreases |events|
  {
    if events != [] {
      var (s', reply) := Step(h, s, events[0]);
      if reply.Issued? {
        assert reply.jwt in IssuedIn(h, s, events);
      }
      StepTracks(h, s, events[0], jwt, fate);
      StepConsistent(h, s, events[0]);
      assert forall t :: t in IssuedIn(h, s', events[1..]) ==> t in IssuedIn(h, s, events);
      RunTracks(h, s', events[1..], jwt, FateStep(h, fate, events[0], jwt.user));
    }
  }

  /** Every hash in the table or the blacklist is that of a known token. */
  ghost predicate OnlyKnown(h: Hashes, s: State, known: set<Jwt>) {
    && (forall k :: k in s.jwts ==> exists t :: t in known && AsI64(h.jwt(t)) == k)
    && (forall x :: x in s.blacklist ==> exists t :: t in known && h.jwt(t) == x)
  }

  lemma StepOnlyKnown(h: Hashes, s: State, e: Event, known: set<Jwt>)
    requires OnlyKnown(h, s, known)
    ensures var (s', reply) := Step(h, s, e);
      OnlyKnown(h, s', known + if reply.Issued? then {reply.jwt} else {})
  {
    var (s', reply) := Step(h, s, e);
    var known' := known + if reply.Issued? then {reply.jwt} else {};
    forall k | k in s'.jwts
      ensures exists t :: t in known' && AsI64(h.jwt(t)) == k
    {
      if k in s.jwts {
        var t :| t in known && AsI64(h.jwt(t)) == k;
        assert t in known';
      } else {
        assert reply.jwt in known';
      }
    }
    forall x | x in s'.blacklist
      ensures exists t :: t in known' && h.jwt(t) == x
    {
      if x in s.blacklist {
        var t :| t in known && h.jwt(t) == x;
        assert t in known';
      } else {
        var k :| k in s.jwts && AsU64(k) == x;
        var t :| t in known && AsI64(h.jwt(t)) == k;
        assert t in known';
      }
    }
  }

  /** Only hashes of tokens that were issued ever reach the table or the blacklist. */
  lemma {:induction false} RunOnlyKnown(h: Hashes, s: State, events: seq<Event>, known: set<Jwt>)
    requires OnlyKnown(h, s, known)
    ensures OnlyKnown(h, Run(h, s, events), known + IssuedIn(h, s, events))
    decreases |events|
  {
    if events == [] {
      assert known + IssuedIn(h, s, events) == known;
    } else {
      var (s', reply) := Step(h, s, events[0]);
      var known' := known + if reply.Issued? then {reply.jwt} else {};
      StepOnlyKnown(h, s, events[0], known);
      RunOnlyKnown(h, s', events[1..], known');
      assert known' + IssuedIn(h, s', events[1..]) == known + IssuedIn(h, s, events);
    }
  }

  /** In any run of the server from empty tables, a JWT is accepted exactly when it
      has not expired and the events since its issue leave it live, or dropped by the
      deletion of its user and no longer remembered in memory. The hypothesis says
      that no other token of the run has its hash, and that it is issued only once. */
  lemma AcceptedExactly(h: Hashes, before: seq<Event>, issue: Event, after: seq<Event>)
    requires var s := Run(h, EMPTY, before);
      var (s', reply) := Step(h, s, issue);
      && reply.Issued?
      && HashUnique(h, IssuedIn(h, EMPTY, before), reply.jwt)
      && HashUnique(h, IssuedIn(h, s', after), reply.jwt)
    ensures
      var s := Run(h, EMPTY, before);
      var (s', reply) := Step(h, s, issue);
      var end := Run(h, s', after);
      var fate := FateRun(h, Live, after, reply.jwt.user);
      Accepted(h, end, reply.jwt) <==>
        reply.jwt.expiry >= end.now && (fate == Live || fate == Dropped(false))
  {
    hide Run, FateRun, IssuedIn, Step, Tracks, Accepted, Consistent;
    var s := Run(h, EMPTY, before);
    var (s', reply) := Step(h, s, issue);
    EmptyConsistent();
    RunConsistent(h, EMPTY, before);
    StepConsistent(h, s, issue);
    RunOnlyKnown(h, EMPTY, before, {});
    IssuedIsLive(h, s, issue);
    RunTracks(h, s', after, reply.jwt, Live);
    TrackedAnswer(h, Run(h, s', after), reply.jwt, FateRun(h, Live, after, reply.jwt.user));
  }

  lemma EmptyConsistent()
    ensures Consistent(EMPTY)
  {
  }

  lemma IssuedIsLive(h: Hashes, s: State, issue: Event)
    requires var (s', reply) := Step(h, s, issue); reply.Issued? && h.jwt(reply.jwt) !in s.blacklist
    ensures var (s', reply) := Step(h, s, issue); Tracks(h, s', reply.jwt, Live)
  {
    hide ParseRefreshCookie;
  }

  lemma TrackedAnswer(h: Hashes, s: State, jwt: Jwt, fate: Fate)
    requires Tracks(h, s, jwt, fate)
    ensures Accepted(h, s, jwt) <==> jwt.expiry >= s.now && (fate == Live || fate == Dropped(false))
  {
    var k := AsI64(h.jwt(jwt));
    assert AsU64(k) == h.jwt(jwt);
  }

  /** Cleanup never changes an answer, neither at once nor after a restart: the rows it
      drops are those of tokens that the expiry check refuses anyway. */
  lemma CleanupInvisible(h: Hashes, s: State, jwt: Jwt)
    requires AsI64(h.jwt(jwt)) in s.jwts ==> s.jwts[AsI64(h.jwt(jwt))].expiry == jwt.expiry
    ensures Accepted(h, Step(h, s, Cleanup).0, jwt) <==> Accepted(h, s, jwt)
    ensures
      var restarted := Step(h, s, Restart).0;
      var cleaned := Step(h, Step(h, s, Cleanup).0, Restart).0;
      Accepted(h, cleaned, jwt) <==> Accepted(h, restarted, jwt)
  {
    var k := AsI64(h.jwt(jwt));
    assert forall s' :: h.jwt(jwt) in LoadBlacklist(s') <==> k in s'.jwts && s'.jwts[k].blacklisted by {
      forall s': State
        ensures h.jwt(jwt) in LoadBlacklist(s') <==> k in s'.jwts && s'.jwts[k].blacklisted
      {
        assert AsU64(k) == h.jwt(jwt);
      }
    }
  }

  /** The deletion hypothesis of `LogoutIsFinal` cannot be dropped: log out, delete
      the user, restart, and the JWT is accepted until it expires. */
  lemma DeletedUserIsForgotten(h: Hashes, secret: string, user: string)
    requires '+' !in secret && IsLower(user)
    ensures
      var events := [Logout(RefreshCookie(secret, user)), DeleteUser(user), Restart];
      var jwt := Jwt(user, {}, 0, DAY);
      Accepted(h, Run(h, EMPTY, [PutUser(user, {}), Login(user, secret)] + events), jwt)
  {
    var events := [Logout(RefreshCookie(secret, user)), DeleteUser(user), Restart];
    var (s, reply) := Step(h, Step(h, EMPTY, PutUser(user, {})).0, Login(user, secret));
    assert reply == Issued(Jwt(user, {}, 0, DAY)) && s.now == 0 && forall k :: k in s.jwts ==> s.jwts[k].user == user;
    ForgottenAfter(h, s, secret, user);
    hide Step, Accepted;
    RunOfThree(h, s, events);
    RunOfTwo(h, EMPTY, PutUser(user, {}), Login(user, secret), events);
  }

  lemma ForgottenAfter(h: Hashes, s: State, secret: string, user: string)
    requires '+' !in secret && IsLower(user) && forall k :: k in s.jwts ==> s.jwts[k].user == user
    ensures
      var end := Step(h, Step(h, Step(h, s, Logout(RefreshCookie(secret, user))).0, DeleteUser(user)).0, Restart).0;
      end.blacklist == {} && end.now == s.now
  {
    hide ParseRefreshCookie, ValidHashes, IsLower;
    RefreshCookieRoundTrip(h, secret, user);
    var s1 := Step(h, s, Logout(RefreshCookie(secret, user))).0;
    var s2 := Step(h, s1, DeleteUser(user)).0;
    assert Lower(user) == user by { IsLowerIs(user); }
    assert s2.jwts == map[];
  }

  lemma IsLowerIs(s: string)
    requires IsLower(s)
    ensures Lower(s) == s
  {
  }

  lemma RunOfTwo(h: Hashes, s: State, a: Event, b: Event, rest: seq<Event>)
    ensures Run(h, s, [a, b] + rest) == Run(h, Step(h, Step(h, s, a).0, b).0, rest)
  {
    hide Step;
    var all := [a, b] + rest;
    assert all[1..][0] == b && all[1..][1..] == rest;
  }

  lemma RunOfThree(h: Hashes, s: State, events: seq<Event>)
    requires |events| == 3
    ensures Run(h, s, events) == Step(h, Step(h, Step(h, s, events[0]).0, events[1]).0, events[2]).0
  {
    hide Step;
    assert events == [events[0], events[1]] + [events[2]];
    RunOfTwo(h, s, events[0], events[1], [events[2]]);
  }
}
