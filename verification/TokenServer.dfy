/** The token endpoints as they run: table rows and the shared blacklist changed in
    place, one database statement at a time. Each method is tied to the step
    function of module Tokens that the theorems there are about. */
module TokenServer {
  import opened Wrappers
  import opened Text
  import opened Tokens

  class TokenServer {
    const hashes: Hashes
    var now: int
    var users: map<string, set<string>>
    var jwts: map<i64, JwtRow>
    var refreshTokens: map<i64, ExpiringRow>
    var resetTokens: map<string, ExpiringRow>
    var blacklist: set<u64>

    function View(): State
      reads this
    {
      State(now, users, jwts, refreshTokens, resetTokens, blacklist)
    }

    /** Memory covers the blacklisted rows, and every row belongs to a user. */
    ghost predicate Valid()
      reads this
    {
      Consistent(View())
    }

    constructor (hashes: Hashes)
      ensures View() == EMPTY && this.hashes == hashes && Valid()
    {
      this.hashes := hashes;
      now, users, jwts, refreshTokens, resetTokens, blacklist := 0, map[], map[], map[], map[], {};
    }

    method RegisterJwt(user: string, hash: u64, expiry: int) returns (ok: bool)
      modifies this`jwts
      ensures ok == Tokens.RegisterJwt(old(View()), user, hash, expiry).Some?
      ensures View() == Tokens.RegisterJwt(old(View()), user, hash, expiry).GetOr(old(View()))
    {
      ok := AsI64(hash) !in jwts && user in users;
      if ok {
        jwts := jwts[AsI64(hash) := JwtRow(user, expiry, false)];
      }
    }

    method CreateJwt(user: string, groups: set<string>) returns (reply: Reply)
      modifies this`jwts
      ensures (View(), reply) == Tokens.CreateJwt(hashes, old(View()), user, groups)
    {
      var jwt := Jwt(user, groups, now, now + DAY);
      var ok := RegisterJwt(user, hashes.jwt(jwt), jwt.expiry);
      reply := if ok then Issued(jwt) else Refused;
    }

    method CreateRefreshToken(user: string, secret: string) returns (ok: bool)
      modifies this`refreshTokens
      ensures var key := AsI64(hashes.refresh(secret));
        && ok == (key !in old(refreshTokens) && user in users)
        && refreshTokens ==
           if ok then old(refreshTokens)[key := ExpiringRow(user, now + 30 * DAY)] else old(refreshTokens)
    {
      var key := AsI64(hashes.refresh(secret));
      ok := key !in refreshTokens && user in users;
      if ok {
        refreshTokens := refreshTokens[key := ExpiringRow(user, now + 30 * DAY)];
      }
    }

    method Login(user: string, secret: string) returns (reply: Reply)
      modifies this`jwts, this`refreshTokens
      ensures (View(), reply) == LoginStep(hashes, old(View()), user, secret)
    {
      if user !in users {
        return Refused;
      }
      var groups := users[user];
      var ok := CreateRefreshToken(user, secret);
      if !ok {
        return Refused;
      }
      reply := CreateJwt(user, groups);
    }

    method GetRefresh(cookie: string) returns (reply: Reply)
      modifies this`jwts
      ensures (View(), reply) == RefreshStep(hashes, old(View()), cookie)
    {
      var parsed := ParseRefreshCookie(hashes, cookie);
      if parsed.None? {
        return Refused;
      }
      var (hash, user) := parsed.value;
      var found := AsI64(hash) in refreshTokens && refreshTokens[AsI64(hash)].user == user;
      if !found || user !in users {
        return Refused;
      }
      reply := CreateJwt(user, users[user]);
    }

    /** Blacklists the rows of a user; returns the hashes that were not yet blacklisted. */
    method BlacklistJwts(user: string) returns (validTokens: set<u64>)
      modifies this`jwts
      ensures validTokens == ValidHashes(old(View()), user)
      ensures jwts == BlacklistRows(old(jwts), user)
    {
      validTokens := set k | k in jwts && jwts[k].user == user && !jwts[k].blacklisted :: AsU64(k);
      jwts := BlacklistRows(jwts, user);
    }

    method GetLogout(cookie: string) returns (reply: Reply)
      requires Valid()
      modifies this`jwts, this`refreshTokens, this`blacklist
      ensures (View(), reply) == LogoutStep(hashes, old(View()), cookie)
      ensures Valid()
    {
      StepConsistent(hashes, View(), Logout(cookie));
      var parsed := ParseRefreshCookie(hashes, cookie);
      if parsed.None? {
        return Refused;
      }
      var (hash, user) := parsed.value;
      refreshTokens := refreshTokens - {AsI64(hash)};
      var newHashes := BlacklistJwts(user);
      assert newHashes == ValidHashes(old(View()), user);
      var remaining := newHashes;
      while remaining != {}
        invariant remaining <= newHashes
        invariant blacklist == old(blacklist) + (newHashes - remaining)
        invariant refreshTokens == old(refreshTokens) - {AsI64(hash)}
        invariant jwts == BlacklistRows(old(jwts), user)
        decreases remaining
      {
        var x :| x in remaining;
        blacklist := blacklist + {x};
        remaining := remaining - {x};
      }
      assert newHashes - {} == newHashes;
      reply := Done;
    }

    method ResetStep1(found: seq<string>, token: string) returns (reply: Reply)
      modifies this`resetTokens
      ensures (View(), reply) == ResetStartStep(old(View()), found, token)
    {
      reply := Done;
      if found == [] {
        return;
      } else if |found| > 1 {
        return Refused;
      }
      if found[0] !in users {
        return;
      }
      if token in resetTokens {
        return Refused;
      }
      resetTokens := resetTokens[token := ExpiringRow(found[0], now + 10 * MINUTE)];
    }

    method ResetStep2(token: string) returns (reply: Reply)
      modifies this`jwts, this`resetTokens
      ensures (View(), reply) == ResetFinishStep(hashes, old(View()), token)
    {
      if token !in resetTokens || !(resetTokens[token].expiry > now) {
        return Refused;
      }
      var user := resetTokens[token].user;
      resetTokens := resetTokens - {token};
      reply := CreateJwt(user, {});
    }

    /** Exactly the expired rows go, and no token is answered differently for that. */
    method CleanupDb()
      requires Valid()
      modifies this`jwts, this`refreshTokens, this`resetTokens
      ensures forall k :: k in jwts <==> k in old(jwts) && old(jwts)[k].expiry >= now
      ensures forall k :: k in refreshTokens <==> k in old(refreshTokens) && old(refreshTokens)[k].expiry >= now
      ensures forall t :: t in resetTokens <==> t in old(resetTokens) && old(resetTokens)[t].expiry >= now
      ensures forall jwt :: Accepted(hashes, View(), jwt) <==> Accepted(hashes, old(View()), jwt)
      ensures Valid()
      ensures View() == CleanupStep(old(View()))
    {
      hide Consistent;
      CleanupConsistent(View());
      refreshTokens := map k | k in refreshTokens && !(refreshTokens[k].expiry < now) :: refreshTokens[k];
      jwts := map k | k in jwts && !(jwts[k].expiry < now) :: jwts[k];
      resetTokens := map k | k in resetTokens && !(resetTokens[k].expiry < now) :: resetTokens[k];
    }

    /** Starting the server loads the blacklist from the table. */
    method Restart()
      modifies this`blacklist
      ensures View() == old(View()).(blacklist := LoadBlacklist(old(View())))
    {
      blacklist := set k | k in jwts && jwts[k].blacklisted :: AsU64(k);
    }

    method DeleteUser(user: string)
      modifies this
      ensures View() == DeleteUserStep(old(View()), user)
    {
      users := users - {user};
      jwts := map k | k in jwts && jwts[k].user != user :: jwts[k];
      refreshTokens := map k | k in refreshTokens && refreshTokens[k].user != user :: refreshTokens[k];
      resetTokens := map k | k in resetTokens && resetTokens[k].user != user :: resetTokens[k];
    }

    /** One request, timer tick or restart: exactly one step of the state machine. */
    method Handle(e: Event) returns (reply: Reply)
      requires Valid()
      modifies this
      ensures (View(), reply) == Step(hashes, old(View()), e)
      ensures Valid()
    {
      StepConsistent(hashes, View(), e);
      reply := Done;
      match e
      case Login(name, secret) => reply := Login(Lower(name), secret);
      case Refresh(cookie) => reply := GetRefresh(cookie);
      case Logout(cookie) => reply := GetLogout(cookie);
      case ResetStart(found, token) => reply := ResetStep1(found, token);
      case ResetFinish(token) => reply := ResetStep2(token);
      case Cleanup => CleanupDb();
      case Restart => Restart();
      case Elapse(d) => now := now + d;
      case PutUser(name, groups) => users := users[Lower(name) := groups];
      case DeleteUser(name) => DeleteUser(Lower(name));
    }

    /** The token check reads the clock, the claims and the blacklist only, yet it never
        lets through a token whose row is blacklisted. */
    method CheckIfTokenIsValid(jwt: Jwt) returns (ok: bool)
      requires Valid()
      ensures ok == Accepted(hashes, View(), jwt)
      ensures ok ==> jwt.expiry >= now && !RowBlacklisted(hashes, View(), jwt)
    {
      assert AsU64(AsI64(hashes.jwt(jwt))) == hashes.jwt(jwt);
      if jwt.expiry < now {
        return false;
      }
      ok := hashes.jwt(jwt) !in blacklist;
    }
  }
}
