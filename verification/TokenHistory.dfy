/** When a token is issued, and what it says, from the events of a run. */
module TokenHistory {
  import opened Wrappers
  import opened Text
  import opened AccessControl
  import opened Tokens

  /** The state before the event at this place of a run from empty tables. */
  function At(h: Hashes, events: seq<Event>, i: nat): State
    requires i <= |events|
  {
    Run(h, EMPTY, events[..i])
  }

  function Now(h: Hashes, events: seq<Event>): State {
    Run(h, EMPTY, events)
  }

  lemma LastStep(h: Hashes, events: seq<Event>)
    requires events != []
    ensures Now(h, events) == Step(h, Now(h, events[..|events| - 1]), events[|events| - 1]).0
  {
    var n := |events| - 1;
    assert events == events[..n] + [events[n]];
    RunConcat(h, EMPTY, events[..n], [events[n]]);
    RunOfOne(h, Now(h, events[..n]), events[n]);
  }

  lemma AllConsistent(h: Hashes, events: seq<Event>)
    ensures Consistent(Now(h, events))
  {
    EmptyConsistent();
    RunConsistent(h, EMPTY, events);
  }

  // ----- What a token says -----

  /** The user that a request speaks for, and the groups that a token for it carries. */
  function Claims(h: Hashes, s: State, e: Event): Option<(string, set<string>)> {
    match e
    case Login(name, _) => if Lower(name) in s.users then Some((Lower(name), s.users[Lower(name)])) else None
    case Refresh(cookie) =>
      var plus := IndexOf(cookie, '+');
      var user := if plus < |cookie| then Lower(cookie[plus + 1..]) else "";
      if plus < |cookie| && user in s.users then Some((user, s.users[user])) else None
    case ResetFinish(token) => if token in s.resetTokens then Some((s.resetTokens[token].user, {})) else None
    case _ => None
  }

  /** A token is only issued by a login, a refresh or a reset. It names the user with the
      groups of that moment, none after a reset, and holds for a day. */
  lemma IssuedClaims(h: Hashes, s: State, e: Event)
    ensures var (s', reply) := Step(h, s, e);
      reply.Issued? ==>
        && Claims(h, s, e) == Some((reply.jwt.user, reply.jwt.groups))
        && reply.jwt.issuedAt == s.now && reply.jwt.expiry == s.now + 86_400_000_000
        && HasRow(h, s', reply.jwt) && !RowBlacklisted(h, s', reply.jwt)
  {
  }

  predicate InNamed(groups: set<string>, name: string) {
    exists g :: g in groups && Lower(g) == name
  }

  /** What an accepted token permits, by the groups that it carries. */
  lemma CheckedRights(h: Hashes, s: State, jwt: Jwt)
    ensures var r := CheckToken(h, s, jwt);
      && (r.Some? <==> jwt.expiry >= s.now && h.jwt(jwt) !in s.blacklist)
      && (r.Some? ==>
            && r.value.user == Lower(jwt.user)
            && r.value.permission ==
                 if InNamed(jwt.groups, "lldap_admin") then Admin
                 else if InNamed(jwt.groups, "lldap_password_manager") then PasswordManager
                 else if InNamed(jwt.groups, "lldap_strict_readonly") then Readonly
                 else Regular)
  {
    assert Lower(ADMIN_GROUP) == "lldap_admin" && Lower(PASSWORD_MANAGER_GROUP) == "lldap_password_manager";
    assert Lower(READONLY_GROUP) == "lldap_strict_readonly";
  }

  /** The hash of a new token is not that of a stored one. */
  predicate HashFree(h: Hashes, s: State, user: string, groups: set<string>) {
    AsI64(h.jwt(Jwt(user, groups, s.now, s.now + DAY))) !in s.jwts
  }

  // ----- Refresh tokens -----

  const MONTH := 2_592_000_000_000

  /** A login that stores a refresh token. */
  predicate StoresAt(h: Hashes, events: seq<Event>, j: int, key: i64, user: string)
    requires 0 <= j < |events|
  {
    var s, e := At(h, events, j), events[j];
    e.Login? && Lower(e.name) == user && AsI64(h.refresh(e.secret)) == key && user in s.users &&
      key !in s.refreshTokens
  }

  /** An event that takes a refresh token away: a logout by it, the deletion of its user, or
      a cleanup after it expired. */
  predicate Removes(h: Hashes, s: State, e: Event, key: i64, row: ExpiringRow) {
    match e
    case Logout(cookie) =>
      var parsed := ParseRefreshCookie(h, cookie);
      parsed.Some? && AsI64(parsed.value.0) == key
    case DeleteUser(name) => Lower(name) == row.user
    case Cleanup => row.expiry < s.now
    case _ => false
  }

  /** A refresh token stored at this place, and none of that since. */
  predicate HeldSince(h: Hashes, events: seq<Event>, j: int, key: i64, user: string)
    requires 0 <= j < |events|
  {
    StoresAt(h, events, j, key, user) &&
    var row := ExpiringRow(user, At(h, events, j).now + MONTH);
    forall k :: j < k < |events| ==> !Removes(h, At(h, events, k), events[k], key, row)
  }

  predicate HasRefresh(s: State, key: i64, row: ExpiringRow) {
    key in s.refreshTokens && s.refreshTokens[key] == row
  }

  lemma StepOfRefresh(h: Hashes, s: State, e: Event, key: i64, row: ExpiringRow)
    ensures HasRefresh(Step(h, s, e).0, key, row) <==>
      || (HasRefresh(s, key, row) && !Removes(h, s, e, key, row))
      || (e.Login? && Lower(e.name) == row.user && AsI64(h.refresh(e.secret)) == key && row.user in s.users &&
            key !in s.refreshTokens && row.expiry == s.now + MONTH)
  {
    hide ParseRefreshCookie, BlacklistRows, ValidHashes, LoadBlacklist;
  }

  lemma PrefixHolds(h: Hashes, events: seq<Event>, n: nat)
    requires n <= |events|
    ensures forall i: nat :: i <= n ==> events[..n][..i] == events[..i]
    ensures forall i: nat :: i <= n ==> At(h, events[..n], i) == At(h, events, i)
  {
  }

  /** A refresh token is in the table exactly if a login stored it and nothing took it away
      since. */
  lemma {:induction false} RefreshHistory(h: Hashes, events: seq<Event>, key: i64, row: ExpiringRow)
    ensures HasRefresh(Now(h, events), key, row) <==>
      exists j :: 0 <= j < |events| && HeldSince(h, events, j, key, row.user) &&
        row.expiry == At(h, events, j).now + MONTH
    decreases |events|
  {
    hide Step, Removes, HasRefresh, Run;
    if events == [] {
      EmptyTables(h, key, row);
    } else {
      var n := |events| - 1;
      var before, s, e := events[..n], Now(h, events[..n]), events[n];
      LastStep(h, events);
      RefreshHistory(h, before, key, row);
      StepOfRefresh(h, s, e, key, row);
      PrefixHolds(h, events, n);
      assert At(h, events, n) == s;
      forall j | 0 <= j < n && At(h, events, j).now + MONTH == row.expiry
        ensures HeldSince(h, events, j, key, row.user) <==>
          HeldSince(h, before, j, key, row.user) && !Removes(h, s, e, key, row)
      {
        assert row == ExpiringRow(row.user, At(h, events, j).now + MONTH);
        assert StoresAt(h, events, j, key, row.user) <==> StoresAt(h, before, j, key, row.user);
        assert forall k :: j < k < n ==> At(h, events, k) == At(h, before, k) && events[k] == before[k];
      }
      assert HeldSince(h, events, n, key, row.user) <==> StoresAt(h, events, n, key, row.user);
    }
  }

  lemma EmptyTables(h: Hashes, key: i64, row: ExpiringRow)
    ensures !HasRefresh(Now(h, []), key, row) && forall token :: !HasReset(Now(h, []), token, row)
  {
  }

  /** Over any run: a refresh issues a token exactly if a login of that user stored the
      secret of the cookie, and since then nobody logged out with it, the user was not
      deleted, and no cleanup found it expired; and if the new token's hash is free. */
  lemma RefreshIssuesExactly(h: Hashes, events: seq<Event>, cookie: string)
    ensures var s := Now(h, events);
      var parsed := ParseRefreshCookie(h, cookie);
      Step(h, s, Refresh(cookie)).1.Issued? <==>
        parsed.Some? &&
        var (hash, user) := parsed.value;
        (exists j :: 0 <= j < |events| && HeldSince(h, events, j, AsI64(hash), user)) &&
        user in s.users && HashFree(h, s, user, s.users[user])
  {
    hide Run, HeldSince, ParseRefreshCookie;
    var s, parsed := Now(h, events), ParseRefreshCookie(h, cookie);
    if parsed.Some? {
      var (hash, user) := parsed.value;
      var key := AsI64(hash);
      if key in s.refreshTokens {
        RefreshHistory(h, events, key, s.refreshTokens[key]);
      }
      if j :| 0 <= j < |events| && HeldSince(h, events, j, key, user) {
        RefreshHistory(h, events, key, ExpiringRow(user, At(h, events, j).now + MONTH));
      }
    }
  }

  // ----- Reset tokens -----

  const TEN_MINUTES := 600_000_000

  /** A request that stores a reset token: exactly one user was found, who exists. */
  predicate AsksAt(h: Hashes, events: seq<Event>, j: int, token: string, user: string)
    requires 0 <= j < |events|
  {
    var s, e := At(h, events, j), events[j];
    e.ResetStart? && e.found == [user] && e.token == token && user in s.users && token !in s.resetTokens
  }

  /** It is taken away by its use before it expires, the deletion of its user, or a cleanup
      after it expired. */
  predicate Uses(s: State, e: Event, token: string, row: ExpiringRow) {
    match e
    case ResetFinish(t) => t == token && row.expiry > s.now
    case DeleteUser(name) => Lower(name) == row.user
    case Cleanup => row.expiry < s.now
    case _ => false
  }

  predicate AskedSince(h: Hashes, events: seq<Event>, j: int, token: string, user: string)
    requires 0 <= j < |events|
  {
    AsksAt(h, events, j, token, user) &&
    var row := ExpiringRow(user, At(h, events, j).now + TEN_MINUTES);
    forall k :: j < k < |events| ==> !Uses(At(h, events, k), events[k], token, row)
  }

  predicate HasReset(s: State, token: string, row: ExpiringRow) {
    token in s.resetTokens && s.resetTokens[token] == row
  }

  lemma StepOfReset(h: Hashes, s: State, e: Event, token: string, row: ExpiringRow)
    ensures HasReset(Step(h, s, e).0, token, row) <==>
      || (HasReset(s, token, row) && !Uses(s, e, token, row))
      || (e.ResetStart? && e.found == [row.user] && e.token == token && row.user in s.users &&
            token !in s.resetTokens && row.expiry == s.now + TEN_MINUTES)
  {
    hide ParseRefreshCookie, BlacklistRows, ValidHashes, LoadBlacklist;
  }

  lemma {:induction false} ResetHistory(h: Hashes, events: seq<Event>, token: string, row: ExpiringRow)
    ensures HasReset(Now(h, events), token, row) <==>
      exists j :: 0 <= j < |events| && AskedSince(h, events, j, token, row.user) &&
        row.expiry == At(h, events, j).now + TEN_MINUTES
    decreases |events|
  {
    hide Step, Uses, HasReset, Run;
    if events == [] {
      EmptyTables(h, 0, row);
    } else {
      var n := |events| - 1;
      var before, s, e := events[..n], Now(h, events[..n]), events[n];
      LastStep(h, events);
      ResetHistory(h, before, token, row);
      StepOfReset(h, s, e, token, row);
      PrefixHolds(h, events, n);
      assert At(h, events, n) == s;
      forall j | 0 <= j < n && At(h, events, j).now + TEN_MINUTES == row.expiry
        ensures AskedSince(h, events, j, token, row.user) <==>
          AskedSince(h, before, j, token, row.user) && !Uses(s, e, token, row)
      {
        assert row == ExpiringRow(row.user, At(h, events, j).now + TEN_MINUTES);
        assert AsksAt(h, events, j, token, row.user) <==> AsksAt(h, before, j, token, row.user);
        assert forall k :: j < k < n ==> At(h, events, k) == At(h, before, k) && events[k] == before[k];
      }
      assert AskedSince(h, events, n, token, row.user) <==> AsksAt(h, events, n, token, row.user);
    }
  }

  /** Over any run: a reset issues a token for a user exactly if it was asked for them less
      than ten minutes ago, and not used, and the user was not deleted since; and if the new
      token's hash is free. */
  lemma ResetIssuesExactly(h: Hashes, events: seq<Event>, token: string, user: string)
    ensures var s := Now(h, events);
      var reply := Step(h, s, ResetFinish(token)).1;
      reply.Issued? && reply.jwt.user == user <==>
        (exists j :: 0 <= j < |events| && AskedSince(h, events, j, token, user) &&
           At(h, events, j).now + TEN_MINUTES > s.now) &&
        HashFree(h, s, user, {})
  {
    hide Run, AskedSince;
    var s := Now(h, events);
    AllConsistent(h, events);
    if token in s.resetTokens {
      ResetHistory(h, events, token, s.resetTokens[token]);
    }
    if j :| 0 <= j < |events| && AskedSince(h, events, j, token, user) && At(h, events, j).now + TEN_MINUTES > s.now {
      ResetHistory(h, events, token, ExpiringRow(user, At(h, events, j).now + TEN_MINUTES));
    }
  }

  /** A reset token works once: after it issued a token it does not, until it is handed out
      again. */
  lemma {:induction false} ResetWorksOnce(h: Hashes, s: State, token: string, events: seq<Event>)
    requires token !in s.resetTokens
    requires forall e :: e in events ==> !(e.ResetStart? && e.token == token)
    ensures Step(h, Run(h, s, events), ResetFinish(token)).1 == Refused
    decreases |events|
  {
    if events != [] {
      hide Run;
      var s' := Step(h, s, events[0]).0;
      StepKeepsAway(h, s, events[0], token);
      ResetWorksOnce(h, s', token, events[1..]);
      RunOfFirst(h, s, events);
    }
  }

  lemma RunOfFirst(h: Hashes, s: State, events: seq<Event>)
    requires events != []
    ensures Run(h, s, events) == Run(h, Step(h, s, events[0]).0, events[1..])
  {
  }

  lemma StepKeepsAway(h: Hashes, s: State, e: Event, token: string)
    requires token !in s.resetTokens && !(e.ResetStart? && e.token == token)
    ensures token !in Step(h, s, e).0.resetTokens
  {
    hide ParseRefreshCookie, BlacklistRows, ValidHashes, LoadBlacklist;
  }

  lemma UsedIsGone(h: Hashes, s: State, token: string)
    ensures Step(h, s, ResetFinish(token)).1.Issued? ==> token !in Step(h, s, ResetFinish(token)).0.resetTokens
  {
  }

  /** A login issues a token exactly if the user exists and both hashes are free. */
  lemma LoginIssuesExactly(h: Hashes, s: State, name: string, secret: string)
    ensures Step(h, s, Login(name, secret)).1.Issued? <==>
      Lower(name) in s.users && AsI64(h.refresh(secret)) !in s.refreshTokens &&
      HashFree(h, s, Lower(name), s.users[Lower(name)])
  {
  }
}
