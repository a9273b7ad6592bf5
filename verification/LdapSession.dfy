/** One LDAP connection: who is bound to it, and what its messages do to the directory. */
module LdapSession {
  import opened Wrappers
  import opened Text
  import opened Codec
  import opened Database
  import opened AccessControl
  import opened DistinguishedName
  import opened LdapFilters
  import L = Ldap
  import M = Mutations
  import I = Invariants

  /** Password files are foreign: made from a user and a password, and checked. */
  datatype Crypto = Crypto(hash: (string, seq<byte>) -> string, verify: (string, string, seq<byte>) -> bool)

  ghost predicate SoundCrypto(c: Crypto) {
    forall u, p, q :: c.verify(u, c.hash(u, p), q) <==> p == q
  }

  datatype Env = Env(info: LdapInfo, crypto: Crypto, directory: M.Env)

  datatype Change = Change(attribute: string, isReplace: bool, values: seq<seq<byte>>)

  datatype Message =
    | Bind(dn: string, password: Option<seq<byte>>)
    | Unbind
    | Modify(dn: string, changes: seq<Change>)
    | ChangePassword(user: Option<string>, newPassword: Option<seq<byte>>)
    | Add(dn: string, attributes: seq<M.LdapAttribute>)

  type Identity = Option<ValidationResults>

  // ----- Binding -----

  predicate PasswordMatches(crypto: Crypto, db: Db, user: string, password: seq<byte>) {
    && user in db.users
    && db.users[user].passwordHash.Some?
    && crypto.verify(user, db.users[user].passwordHash.value, password)
  }

  function PermissionsOf(db: Db, user: string): (r: ValidationResults)
    ensures r.user == user
  {
    PermissionsFromGroups(user, GroupNamesOf(db, user))
  }

  /** Only a successful bind changes who is bound. */
  function BindStep(env: Env, db: Db, who: Identity, dn: string, password: Option<seq<byte>>)
    : (Identity, L.LdapResult<L.ResultCode>)
  {
    match GetUserId(Lower(dn), env.info.base)
    case Panic => (who, L.Panic)
    case Err(_) => (who, L.Ok(L.NamingViolation))
    case Ok(user) =>
      if password.None? then (who, L.Ok(L.UnwillingToPerform))
      else if PasswordMatches(env.crypto, db, user, password.value) then
        (Some(PermissionsOf(db, user)), L.Ok(L.Success))
      else (who, L.Ok(L.InvalidCredentials))
  }

  // ----- Changing passwords -----

  function SetPassword(crypto: Crypto, db: Db, user: string, password: seq<byte>): (r: Db)
    requires user in db.users
    ensures r.users.Keys == db.users.Keys
  {
    db.(users := db.users[user := db.users[user].(passwordHash := Some(crypto.hash(user, password)))])
  }

  function IsAdminUser(db: Db, user: string): bool {
    InGroup(GroupNamesOf(db, user), ADMIN_GROUP)
  }

  /** The user that a name means to the bound one, and whether they are an administrator.
      The name is taken as it comes; a name that the bound user may not read is not
      expected to come. */
  function TargetOf(env: Env, db: Db, who: Identity, dn: string): L.LdapResult<(ValidationResults, string, bool)> {
    if who.None? then L.Err(L.InsufficientAccessRights)
    else
      match GetUserId(dn, env.info.base)
      case Panic => L.Panic
      case Err(_) => L.Err(L.InvalidDNSyntax)
      case Ok(user) =>
        if !who.value.CanRead(user) then L.Panic
        else if user !in db.users then L.Err(L.OperationsError)
        else L.Ok((who.value, user, IsAdminUser(db, user)))
  }

  /** The password that one change of a modify request sets. */
  function NewPassword(viewer: ValidationResults, user: string, isAdmin: bool, c: Change): (r: L.LdapResult<seq<byte>>)
    ensures !r.Panic? && r != L.Err(L.Success)
  {
    if Lower(c.attribute) != "userpassword" || !c.isReplace then L.Err(L.UnwillingToPerform)
    else if !viewer.CanChangePassword(user, isAdmin) then L.Err(L.InsufficientAccessRights)
    else if |c.values| != 1 then L.Err(L.InvalidAttributeSyntax)
    else L.Ok(c.values[0])
  }

  /** The changes in order, up to the first that is refused; those before it stay. */
  function ApplyChanges(crypto: Crypto, db: Db, viewer: ValidationResults, user: string, isAdmin: bool,
                        changes: seq<Change>)
    : (Db, L.ResultCode)
    requires user in db.users
    decreases |changes|
  {
    if changes == [] then (db, L.Success)
    else
      match NewPassword(viewer, user, isAdmin, changes[0])
      case Ok(password) =>
        ApplyChanges(crypto, SetPassword(crypto, db, user, password), viewer, user, isAdmin, changes[1..])
      case Err(code) => (db, code)
      case Panic => (db, L.Other)
  }

  function ModifyStep(env: Env, db: Db, who: Identity, dn: string, changes: seq<Change>)
    : (Db, L.LdapResult<L.ResultCode>)
  {
    match TargetOf(env, db, who, dn)
    case Panic => (db, L.Panic)
    case Err(code) => (db, L.Ok(code))
    case Ok((viewer, user, isAdmin)) =>
      var (db', code) := ApplyChanges(env.crypto, db, viewer, user, isAdmin, changes);
      (db', L.Ok(code))
  }

  function ChangePasswordStep(env: Env, db: Db, who: Identity, user: Option<string>, password: Option<seq<byte>>)
    : (Db, L.LdapResult<L.ResultCode>)
  {
    if who.None? then (db, L.Ok(L.InsufficientAccessRights))
    else if user.None? || password.None? then (db, L.Ok(L.ConstraintViolation))
    else
      match TargetOf(env, db, who, user.value)
      case Panic => (db, L.Panic)
      case Err(code) => (db, L.Ok(code))
      case Ok((viewer, id, isAdmin)) =>
        if !viewer.CanChangePassword(id, isAdmin) then (db, L.Ok(L.InsufficientAccessRights))
        else (SetPassword(env.crypto, db, id, password.value), L.Ok(L.Success))
  }

  // ----- Adding -----

  function AddStep(env: Env, db: Db, who: Identity, now: string, dn: string, attributes: seq<M.LdapAttribute>)
    : (Db, L.LdapResult<L.ResultCode>)
  {
    if who.None? || !who.value.IsAdmin() then (db, L.Ok(L.InsufficientAccessRights))
    else
      match M.AddRequest(env.directory, dn, attributes)
      case Panic => (db, L.Panic)
      case Err(code) => (db, L.Ok(code))
      case Ok(_) =>
        match M.Step(env.directory, db, who.value, now, M.LdapAdd(dn, attributes))
        case None => (db, L.Ok(L.OperationsError))
        case Some(db') => (db', L.Ok(L.Success))
  }

  // ----- A message -----

  datatype State = State(who: Identity, db: Db)

  /** The state after a message, and the result code; a message that panics drops the
      connection with everything as it was. */
  function Step(env: Env, s: State, now: string, m: Message): (State, L.LdapResult<L.ResultCode>) {
    match m
    case Bind(dn, password) =>
      var (who, r) := BindStep(env, s.db, s.who, dn, password);
      (State(who, s.db), r)
    case Unbind => (State(None, s.db), L.Ok(L.Success))
    case Modify(dn, changes) =>
      var (db, r) := ModifyStep(env, s.db, s.who, dn, changes);
      (State(s.who, db), r)
    case ChangePassword(user, password) =>
      var (db, r) := ChangePasswordStep(env, s.db, s.who, user, password);
      (State(s.who, db), r)
    case Add(dn, attributes) =>
      var (db, r) := AddStep(env, s.db, s.who, now, dn, attributes);
      (State(s.who, db), r)
  }

  // ----- What can be changed, and by whom -----

  lemma ExpectedBase(info: LdapInfo)
    requires ValidInfo(info)
    ensures LowerPairs(info.base)
  {
    ParsedIsLower(info.baseStr);
  }

  /** A bind never panics: its name is lower-cased first. It succeeds exactly if the name
      is that of a user and the password is theirs, and only then changes who is bound. */
  lemma BindExactly(env: Env, db: Db, who: Identity, dn: string, password: Option<seq<byte>>)
    requires ValidInfo(env.info)
    ensures var (who', r) := BindStep(env, db, who, dn, password);
      var user := GetUserId(Lower(dn), env.info.base);
      var success := user.Ok? && password.Some? && PasswordMatches(env.crypto, db, user.value, password.value);
      && r.Ok?
      && (r.value == L.Success <==> success)
      && who' == if success then Some(PermissionsOf(db, user.value)) else who
  {
    hide GetIdFromDistinguishedName;
    ExpectedBase(env.info);
    LowerIdempotent(dn);
    GetIdNoPanic(Lower(dn), env.info.base, false);
  }

  /** A name with an upper-case letter, or of a user that the bound one may not read. */
  predicate UnexpectedTarget(env: Env, viewer: ValidationResults, dn: string) {
    !IsLower(dn) || (GetUserId(dn, env.info.base).Ok? && !viewer.CanRead(GetUserId(dn, env.info.base).value))
  }

  lemma TargetPanics(env: Env, db: Db, who: Identity, dn: string)
    requires ValidInfo(env.info)
    ensures TargetOf(env, db, who, dn).Panic? <==> who.Some? && UnexpectedTarget(env, who.value, dn)
  {
    ExpectedBase(env.info);
    hide ParseComponents;
    if IsLower(dn) {
      GetIdNoPanic(dn, env.info.base, false);
    }
  }

  /** Such a name makes a bound connection panic, in the two requests that change a
      password; nothing else does. */
  lemma TargetPanicsExactly(env: Env, db: Db, who: Identity, dn: string, changes: seq<Change>,
                            user: Option<string>, password: Option<seq<byte>>)
    requires ValidInfo(env.info)
    ensures ModifyStep(env, db, who, dn, changes).1.Panic? <==> who.Some? && UnexpectedTarget(env, who.value, dn)
    ensures ChangePasswordStep(env, db, who, user, password).1.Panic? <==>
      who.Some? && user.Some? && password.Some? && UnexpectedTarget(env, who.value, user.value)
  {
    hide TargetOf, UnexpectedTarget, ApplyChanges;
    TargetPanics(env, db, who, dn);
    if user.Some? {
      TargetPanics(env, db, who, user.value);
    }
  }

  /** The number of changes before the first that is refused. */
  function Accepted(viewer: ValidationResults, user: string, isAdmin: bool, changes: seq<Change>): (n: nat)
    ensures n <= |changes|
    decreases |changes|
  {
    if changes == [] || !NewPassword(viewer, user, isAdmin, changes[0]).Ok? then 0
    else 1 + Accepted(viewer, user, isAdmin, changes[1..])
  }

  /** Only the password of the one user changes: it becomes the last one accepted, even
      if a later change fails the request; the request succeeds exactly if all are. */
  lemma {:induction false} ChangesApplied(crypto: Crypto, db: Db, viewer: ValidationResults, user: string,
                                          isAdmin: bool, changes: seq<Change>)
    requires user in db.users
    ensures var (db', code) := ApplyChanges(crypto, db, viewer, user, isAdmin, changes);
      var n := Accepted(viewer, user, isAdmin, changes);
      && (code == L.Success <==> n == |changes|)
      && (n > 0 ==> NewPassword(viewer, user, isAdmin, changes[n - 1]).Ok?)
      && db' == if n == 0 then db
                else SetPassword(crypto, db, user, NewPassword(viewer, user, isAdmin, changes[n - 1]).value)
    decreases |changes|
  {
    hide NewPassword, SetPassword;
    if changes != [] && NewPassword(viewer, user, isAdmin, changes[0]).Ok? {
      var password := NewPassword(viewer, user, isAdmin, changes[0]).value;
      var next := SetPassword(crypto, db, user, password);
      ChangesApplied(crypto, next, viewer, user, isAdmin, changes[1..]);
      var n := Accepted(viewer, user, isAdmin, changes[1..]);
      if n > 0 {
        assert changes[1..][n - 1] == changes[n];
        LastPasswordStays(crypto, db, user, password, NewPassword(viewer, user, isAdmin, changes[n]).value);
      }
    }
  }

  lemma LastPasswordStays(crypto: Crypto, db: Db, user: string, first: seq<byte>, last: seq<byte>)
    requires user in db.users
    ensures SetPassword(crypto, SetPassword(crypto, db, user, first), user, last) == SetPassword(crypto, db, user, last)
  {
    assert db.users[user := db.users[user].(passwordHash := Some(crypto.hash(user, first)))]
                   [user := db.users[user].(passwordHash := Some(crypto.hash(user, last)))] ==
           db.users[user := db.users[user].(passwordHash := Some(crypto.hash(user, last)))];
  }

  /** Whatever is asked of a connection, the only row it can change is the password of a
      user that the bound one may change, or a new user if they are an administrator. */
  lemma ChangesNeedRights(env: Env, s: State, now: string, m: Message)
    ensures var (s', r) := Step(env, s, now, m);
      s'.db != s.db ==>
        && s.who.Some?
        && (|| (m.Add? && s.who.value.IsAdmin() &&
                Some(s'.db) == M.Step(env.directory, s.db, s.who.value, now, M.LdapAdd(m.dn, m.attributes)))
            || (exists user, password :: user in s.db.users &&
                  s.who.value.CanChangePassword(user, IsAdminUser(s.db, user)) &&
                  s'.db == SetPassword(env.crypto, s.db, user, password)))
  {
    hide GetIdFromDistinguishedName, M.AdminStep, PermissionsFromGroups, GroupNamesOf;
    match m
    case Modify(dn, changes) =>
      var target := TargetOf(env, s.db, s.who, dn);
      if target.Ok? {
        var (viewer, user, isAdmin) := target.value;
        ChangesApplied(env.crypto, s.db, viewer, user, isAdmin, changes);
      }
    case _ =>
  }

  lemma SetPasswordKeepsValid(crypto: Crypto, db: Db, user: string, password: seq<byte>)
    requires Valid(db) && user in db.users
    ensures Valid(SetPassword(crypto, db, user, password))
  {
    hide Valid;
    I.PasswordKeepsValid(db, user, crypto.hash(user, password));
  }

  lemma StepKeepsValid(env: Env, s: State, now: string, m: Message)
    requires Valid(s.db)
    ensures Valid(Step(env, s, now, m).0.db)
  {
    hide Valid, M.Step, GetIdFromDistinguishedName, PermissionsFromGroups, GroupNamesOf;
    var s' := Step(env, s, now, m).0;
    if s'.db != s.db {
      ChangesNeedRights(env, s, now, m);
      if m.Add? && M.Step(env.directory, s.db, s.who.value, now, M.LdapAdd(m.dn, m.attributes)) == Some(s'.db) {
        M.StepKeepsValid(env.directory, s.db, s.who.value, now, M.LdapAdd(m.dn, m.attributes));
      } else {
        var user, password :| user in s.db.users && s'.db == SetPassword(env.crypto, s.db, user, password);
        SetPasswordKeepsValid(env.crypto, s.db, user, password);
      }
    }
  }

  /** After a successful change, exactly the new password binds. */
  lemma NewPasswordBinds(env: Env, db: Db, who: Identity, other: Identity, dn: string, password: seq<byte>,
                         attempt: seq<byte>)
    requires SoundCrypto(env.crypto) && ValidInfo(env.info)
    requires ChangePasswordStep(env, db, who, Some(dn), Some(password)).1 == L.Ok(L.Success)
    ensures var db' := ChangePasswordStep(env, db, who, Some(dn), Some(password)).0;
      BindStep(env, db', other, dn, Some(attempt)).1 == L.Ok(L.Success) <==> attempt == password
  {
    TargetPanics(env, db, who, dn);
    BindExactly(env, ChangePasswordStep(env, db, who, Some(dn), Some(password)).0, other, dn, Some(attempt));
    hide GetIdFromDistinguishedName, PermissionsFromGroups, GroupNamesOf;
  }

  // ----- Runs -----

  /** What a connection sees: its messages, and the changes that others make. */
  datatype Event = Received(now: string, m: Message) | Elsewhere(db: Db)

  function After(env: Env, s: State, e: Event): State {
    match e
    case Received(now, m) => Step(env, s, now, m).0
    case Elsewhere(db) => s.(db := db)
  }

  function Run(env: Env, s: State, events: seq<Event>): State
    decreases |events|
  {
    if events == [] then s else After(env, Run(env, s, events[..|events| - 1]), events[|events| - 1])
  }

  predicate Rebinds(env: Env, s: State, e: Event) {
    e.Received? && (e.m.Unbind? || (e.m.Bind? && BindStep(env, s.db, s.who, e.m.dn, e.m.password).1 == L.Ok(L.Success)))
  }

  /** Over any run, a connection speaks for the user of its last successful bind, with
      the permissions of that moment, unless it was unbound since; and for nobody before
      the first. */
  lemma {:induction false} BoundIdentity(env: Env, db: Db, events: seq<Event>, user: ValidationResults)
    requires ValidInfo(env.info)
    ensures Run(env, State(None, db), events).who == Some(user) <==>
      exists i :: 0 <= i < |events| && LastBoundAt(env, db, events, i, user)
    decreases |events|
  {
    hide Step, Rebinds, BindStep, PermissionsOf, GetIdFromDistinguishedName;
    if events != [] {
      var last := |events| - 1;
      var before := events[..last];
      var s := Run(env, State(None, db), before);
      BoundIdentity(env, db, before, user);
      PrefixesAgree(env, db, events, user);
      if RebindsAt(env, db, events, last) {
        LastRebind(env, db, events, user);
        assert forall i :: 0 <= i < last ==> !LastBoundAt(env, db, events, i, user);
        assert LastBoundAt(env, db, events, last, user) <==> BoundAt(env, db, events, last, user);
      } else {
        NoRebindKeeps(env, s, events[last]);
        forall i | 0 <= i < last
          ensures LastBoundAt(env, db, events, i, user) <==> LastBoundAt(env, db, before, i, user)
        {
        }
        assert !LastBoundAt(env, db, events, last, user);
      }
    }
  }

  lemma LastRebind(env: Env, db: Db, events: seq<Event>, user: ValidationResults)
    requires ValidInfo(env.info) && events != [] && RebindsAt(env, db, events, |events| - 1)
    ensures Run(env, State(None, db), events).who == Some(user) <==> BoundAt(env, db, events, |events| - 1, user)
  {
    hide GetIdFromDistinguishedName, PermissionsFromGroups, GroupNamesOf, ModifyStep, ChangePasswordStep, AddStep,
      PasswordMatches, Lower;
    var last := |events| - 1;
    var s := Run(env, State(None, db), events[..last]);
    if events[last].m.Bind? {
      BindExactly(env, s.db, s.who, events[last].m.dn, events[last].m.password);
    }
  }

  ghost predicate RebindsAt(env: Env, db: Db, events: seq<Event>, i: int)
    requires 0 <= i < |events|
  {
    Rebinds(env, Run(env, State(None, db), events[..i]), events[i])
  }

  /** The bind at this place succeeded and made this the bound user. */
  ghost predicate BoundAt(env: Env, db: Db, events: seq<Event>, i: int, user: ValidationResults)
    requires 0 <= i < |events|
  {
    && RebindsAt(env, db, events, i)
    && events[i].m.Bind?
    && var at := Run(env, State(None, db), events[..i]).db;
    && GetUserId(Lower(events[i].m.dn), env.info.base) == L.Ok(user.user)
    && PermissionsOf(at, user.user) == user
  }

  /** ... and nothing has bound or unbound since. */
  ghost predicate LastBoundAt(env: Env, db: Db, events: seq<Event>, i: int, user: ValidationResults)
    requires 0 <= i < |events|
  {
    BoundAt(env, db, events, i, user) && forall j :: i < j < |events| ==> !RebindsAt(env, db, events, j)
  }

  lemma PrefixesAgree(env: Env, db: Db, events: seq<Event>, user: ValidationResults)
    requires events != []
    ensures var before := events[..|events| - 1];
      forall i :: 0 <= i < |before| ==>
        && (RebindsAt(env, db, events, i) <==> RebindsAt(env, db, before, i))
        && (BoundAt(env, db, events, i, user) <==> BoundAt(env, db, before, i, user))
  {
    var before := events[..|events| - 1];
    forall i | 0 <= i < |before|
      ensures events[..i] == before[..i] && events[i] == before[i]
    {
    }
  }

  lemma NoRebindKeeps(env: Env, s: State, e: Event)
    requires ValidInfo(env.info) && !Rebinds(env, s, e)
    ensures After(env, s, e).who == s.who
  {
    hide GetIdFromDistinguishedName, PermissionsFromGroups, GroupNamesOf;
    if e.Received? && e.m.Bind? {
      BindExactly(env, s.db, s.who, e.m.dn, e.m.password);
    }
  }
}
