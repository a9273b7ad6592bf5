/** Who may do what over LDAP, by the groups that they were in when they bound. */
module Rights {
  import opened Wrappers
  import opened Text
  import opened Codec
  import opened Database
  import opened AccessControl
  import opened DistinguishedName
  import opened LdapFilters
  import opened Search
  import opened SearchAnswers
  import L = Ldap
  import A = Administration
  import M = Mutations
  import S = LdapSession

  /** The user is in a group that is called this, in any spelling. */
  ghost predicate IsIn(db: Db, user: string, name: string) {
    exists g :: g in db.groups && Membership(user, g) in db.memberships && Lower(db.groups[g].displayName) == name
  }

  ghost predicate IsAdministrator(db: Db, user: string) {
    IsIn(db, user, "lldap_admin")
  }

  ghost predicate IsManager(db: Db, user: string) {
    IsIn(db, user, "lldap_password_manager")
  }

  ghost predicate IsReader(db: Db, user: string) {
    IsIn(db, user, "lldap_strict_readonly")
  }

  /** Administrators, password managers and readers see everything. */
  ghost predicate SeesAll(db: Db, user: string) {
    IsAdministrator(db, user) || IsManager(db, user) || IsReader(db, user)
  }

  /** Administrators may change every password, password managers those of others than
      administrators, and everyone their own. */
  ghost predicate MayChange(bound: Db, user: string, now: Db, target: string) {
    IsAdministrator(bound, user) || (IsManager(bound, user) && !IsAdministrator(now, target)) || user == target
  }

  // ----- Group names and memberships -----

  lemma InNamedGroup(db: Db, user: string, name: string, lower: string)
    requires Lower(name) == lower
    ensures InGroup(GroupNamesOf(db, user), name) <==> IsIn(db, user, lower)
  {
    var names := GroupNamesOf(db, user);
    if n :| n in names && Lower(n) == lower {
      var m :| m in db.memberships && m.user == user && m.group in db.groups && db.groups[m.group].displayName == n;
      assert Membership(user, m.group) in db.memberships;
    }
    if g :| g in db.groups && Membership(user, g) in db.memberships && Lower(db.groups[g].displayName) == lower {
      var m := Membership(user, g);
      assert m.user == user && m.group == g;
      assert db.groups[g].displayName in names;
    }
  }

  lemma GroupNamesAreLower()
    ensures Lower(ADMIN_GROUP) == "lldap_admin" && Lower(PASSWORD_MANAGER_GROUP) == "lldap_password_manager"
    ensures Lower(READONLY_GROUP) == "lldap_strict_readonly"
  {
  }

  /** What a user bound in a directory may do. */
  lemma BoundRights(db: Db, user: string)
    ensures var r := S.PermissionsOf(db, user);
      && r.user == user
      && (r.IsAdmin() <==> IsAdministrator(db, user))
      && (r.CanReadAll() <==> SeesAll(db, user))
      && (forall other :: r.CanRead(other) <==> SeesAll(db, user) || user == other)
      && (forall now: Db, other :: r.CanChangePassword(other, S.IsAdminUser(now, other)) <==>
            MayChange(db, user, now, other))
  {
    hide InGroup, GroupNamesOf, IsIn;
    GroupNamesAreLower();
    InNamedGroup(db, user, ADMIN_GROUP, "lldap_admin");
    InNamedGroup(db, user, PASSWORD_MANAGER_GROUP, "lldap_password_manager");
    InNamedGroup(db, user, READONLY_GROUP, "lldap_strict_readonly");
    forall now: Db, other: string
      ensures S.IsAdminUser(now, other) <==> IsAdministrator(now, other)
    {
      InNamedGroup(now, other, ADMIN_GROUP, "lldap_admin");
    }
  }

  /** Administrators are the members of group 1, as long as it has its name. */
  lemma AdministratorsAreMembers(db: Db, user: string)
    requires Valid(db) && A.AdminGroupNamed(db)
    ensures IsAdministrator(db, user) <==> Membership(user, 1) in db.memberships
  {
    hide Valid, GroupNamesOf, InGroup;
    GroupNamesAreLower();
    InNamedGroup(db, user, ADMIN_GROUP, "lldap_admin");
    A.AdminsAreMembers(db, user);
  }

  // ----- Passwords -----

  /** After a bind, a change of the password of an existing user whom the bound one may
      see succeeds exactly if they may change it, and then changes that password and
      nothing else; else it is refused and changes nothing. A user whom they may not see
      makes the server panic. */
  lemma PasswordChangeExactly(env: S.Env, bound: Db, before: S.Identity, bindDn: string, secret: seq<byte>, now: Db,
                              dn: string, password: seq<byte>)
    requires ValidInfo(env.info) && S.BindStep(env, bound, before, bindDn, Some(secret)).1 == L.Ok(L.Success)
    requires IsLower(dn) && GetUserId(dn, env.info.base).Ok? && GetUserId(dn, env.info.base).value in now.users
    ensures var who := S.BindStep(env, bound, before, bindDn, Some(secret)).0;
      var me, target := GetUserId(Lower(bindDn), env.info.base), GetUserId(dn, env.info.base).value;
      var (db', r) := S.ChangePasswordStep(env, now, who, Some(dn), Some(password));
      me.Ok? &&
      if !SeesAll(bound, me.value) && me.value != target then r.Panic? && db' == now
      else if MayChange(bound, me.value, now, target) then
        r == L.Ok(L.Success) && db' == S.SetPassword(env.crypto, now, target, password)
      else r == L.Ok(L.InsufficientAccessRights) && db' == now
  {
    hide GetIdFromDistinguishedName, PermissionsFromGroups, GroupNamesOf, IsIn, S.PermissionsOf, S.SetPassword,
      MayChange,
      SeesAll;
    S.BindExactly(env, bound, before, bindDn, Some(secret));
    var me := GetUserId(Lower(bindDn), env.info.base).value;
    BoundRights(bound, me);
  }

  /** The same of a modify request with one change that is well-formed. */
  lemma PasswordModifyExactly(env: S.Env, bound: Db, before: S.Identity, bindDn: string, secret: seq<byte>, now: Db,
                              dn: string, attribute: string, password: seq<byte>)
    requires ValidInfo(env.info) && S.BindStep(env, bound, before, bindDn, Some(secret)).1 == L.Ok(L.Success)
    requires IsLower(dn) && GetUserId(dn, env.info.base).Ok? && GetUserId(dn, env.info.base).value in now.users
    requires Lower(attribute) == "userpassword"
    ensures var who := S.BindStep(env, bound, before, bindDn, Some(secret)).0;
      var me, target := GetUserId(Lower(bindDn), env.info.base), GetUserId(dn, env.info.base).value;
      var (db', r) := S.ModifyStep(env, now, who, dn, [S.Change(attribute, true, [password])]);
      me.Ok? &&
      if !SeesAll(bound, me.value) && me.value != target then r.Panic? && db' == now
      else if MayChange(bound, me.value, now, target) then
        r == L.Ok(L.Success) && db' == S.SetPassword(env.crypto, now, target, password)
      else r == L.Ok(L.InsufficientAccessRights) && db' == now
  {
    hide GetIdFromDistinguishedName, PermissionsFromGroups, GroupNamesOf, IsIn, S.PermissionsOf, S.SetPassword,
      MayChange,
      SeesAll;
    S.BindExactly(env, bound, before, bindDn, Some(secret));
    var me := GetUserId(Lower(bindDn), env.info.base).value;
    BoundRights(bound, me);
    var target := GetUserId(dn, env.info.base).value;
    hide S.ApplyChanges;
    OneChange(env.crypto, now, S.PermissionsOf(bound, me), target, S.IsAdminUser(now, target),
              S.Change(attribute, true, [password]));
  }

  lemma OneChange(crypto: S.Crypto, db: Db, viewer: ValidationResults, user: string, isAdmin: bool, c: S.Change)
    requires user in db.users
    ensures var first := S.NewPassword(viewer, user, isAdmin, c);
      S.ApplyChanges(crypto, db, viewer, user, isAdmin, [c]) ==
        if first.Ok? then (S.SetPassword(crypto, db, user, first.value), L.Success) else (db, first.code)
  {
    hide S.NewPassword, S.SetPassword;
    assert [c][1..] == [];
    var first := S.NewPassword(viewer, user, isAdmin, c);
    if first.Ok? {
      var db' := S.SetPassword(crypto, db, user, first.value);
      assert S.ApplyChanges(crypto, db', viewer, user, isAdmin, []) == (db', L.Success);
    }
  }

  /** How the requests answer that get no further: nobody is bound, no name or password is
      given, the name is no user's, or there is no such user. */
  lemma EarlyAnswers(env: S.Env, db: Db, who: S.Identity, user: Option<string>, password: Option<seq<byte>>,
                     changes: seq<S.Change>)
    requires ValidInfo(env.info)
    ensures var (db', r) := S.ChangePasswordStep(env, db, who, user, password);
      && (who.None? ==> r == L.Ok(L.InsufficientAccessRights) && db' == db)
      && (who.Some? && (user.None? || password.None?) ==> r == L.Ok(L.ConstraintViolation) && db' == db)
      && (who.Some? && user.Some? && password.Some? && IsLower(user.value) ==>
            var id := GetUserId(user.value, env.info.base);
            && (id.Err? ==> r == L.Ok(L.InvalidDNSyntax) && db' == db)
            && (id.Ok? && who.value.CanRead(id.value) && id.value !in db.users ==>
                  r == L.Ok(L.OperationsError) && db' == db))
    ensures user.Some? ==>
      var (db', r) := S.ModifyStep(env, db, who, user.value, changes);
      && (who.None? ==> r == L.Ok(L.InsufficientAccessRights) && db' == db)
      && (who.Some? && IsLower(user.value) ==>
            var id := GetUserId(user.value, env.info.base);
            && (id.Err? ==> r == L.Ok(L.InvalidDNSyntax) && db' == db)
            && (id.Ok? && who.value.CanRead(id.value) && id.value !in db.users ==>
                  r == L.Ok(L.OperationsError) && db' == db))
  {
    hide GetIdFromDistinguishedName, GroupNamesOf, S.SetPassword, S.ApplyChanges;
    if user.Some? {
      S.TargetPanics(env, db, who, user.value);
    }
  }

  /** A bind: only the password stored for the named user is let in, and so they answer. */
  lemma BindAnswers(env: S.Env, db: Db, who: S.Identity, dn: string, password: Option<seq<byte>>)
    requires ValidInfo(env.info)
    ensures var (who', r) := S.BindStep(env, db, who, dn, password);
      match GetUserId(Lower(dn), env.info.base)
      case Err(_) => r == L.Ok(L.NamingViolation) && who' == who
      case Panic => false
      case Ok(user) =>
        if password.None? then r == L.Ok(L.UnwillingToPerform) && who' == who
        else if user in db.users && db.users[user].passwordHash.Some? &&
                env.crypto.verify(user, db.users[user].passwordHash.value, password.value) then
          r == L.Ok(L.Success) && who'.Some? && who'.value.user == user &&
          (who'.value.IsAdmin() <==> IsAdministrator(db, user)) && (who'.value.CanReadAll() <==> SeesAll(db, user))
        else r == L.Ok(L.InvalidCredentials) && who' == who
  {
    hide GetIdFromDistinguishedName, PermissionsFromGroups, GroupNamesOf, IsIn, S.PermissionsOf, SeesAll,
      IsAdministrator;
    S.BindExactly(env, db, who, dn, password);
    var user := GetUserId(Lower(dn), env.info.base);
    if user.Ok? {
      BoundRights(db, user.value);
    }
  }

  // ----- Adding and searching -----

  lemma AddErrors(env: M.Env, dn: string, attributes: seq<M.LdapAttribute>)
    ensures M.AddRequest(env, dn, attributes) != L.Err(L.Success)
  {
    hide GetIdFromDistinguishedName;
    NamesHaveCodes(dn, env.base);
    ValuesHaveCodes(attributes, map[]);
  }

  lemma {:induction false} ValuesHaveCodes(attributes: seq<M.LdapAttribute>, found: map<string, seq<byte>>)
    ensures M.CollectAttributes(attributes, found) != L.Err(L.Success)
    decreases |attributes|
  {
    if attributes != [] {
      ValuesHaveCodes(attributes[1..], found);
      if |attributes[0].values| == 1 {
        ValuesHaveCodes(attributes[1..], found[Lower(attributes[0].name) := attributes[0].values[0]]);
      }
    }
  }

  lemma NamesHaveCodes(dn: string, base: seq<Rdn>)
    ensures GetUserId(dn, base) != L.Err(L.Success)
  {
    if ParseDistinguishedName(dn).Err? {
      ComponentsHaveCodes(Split(dn, ','));
    }
  }

  lemma {:induction false} ComponentsHaveCodes(parts: seq<string>)
    ensures ParseComponents(parts) != L.Err(L.Success)
  {
    if parts != [] {
      ComponentsHaveCodes(parts[1..]);
    }
  }

  /** After a bind, adding an entry is refused for want of rights exactly to those who were
      no administrators. */
  lemma AddNeedsAdministrator(env: S.Env, bound: Db, before: S.Identity, bindDn: string, secret: seq<byte>, db: Db,
                              now: string, dn: string, attributes: seq<M.LdapAttribute>)
    requires ValidInfo(env.info) && S.BindStep(env, bound, before, bindDn, Some(secret)).1 == L.Ok(L.Success)
    ensures var who := S.BindStep(env, bound, before, bindDn, Some(secret)).0;
      var me := GetUserId(Lower(bindDn), env.info.base);
      var (db', r) := S.AddStep(env, db, who, now, dn, attributes);
      me.Ok? &&
      (!IsAdministrator(bound, me.value) ==> r == L.Ok(L.InsufficientAccessRights) && db' == db) &&
      (IsAdministrator(bound, me.value) && r == L.Ok(L.Success) ==>
         M.Step(env.directory, db, ValidationResults(me.value, Admin), now, M.LdapAdd(dn, attributes)) == Some(db'))
  {
    hide GetIdFromDistinguishedName, PermissionsFromGroups, GroupNamesOf, IsIn, S.PermissionsOf, M.Step, M.AddRequest;
    AddErrors(env.directory, dn, attributes);
    S.BindExactly(env, bound, before, bindDn, Some(secret));
    BoundRights(bound, GetUserId(Lower(bindDn), env.info.base).value);
    var who := S.BindStep(env, bound, before, bindDn, Some(secret)).0.value;
    assert who.IsAdmin() ==> who == ValidationResults(who.user, Admin);
  }

  /** After a bind, a search sees the whole directory if the bound user was an
      administrator, password manager or reader, and else only what concerns them: here, of
      the base itself; other bases differ only in what they ask for. */
  lemma SearchReach(env: S.Env, bound: Db, before: S.Identity, bindDn: string, secret: seq<byte>, ctx: Context,
                    r: Request)
    requires ValidInfo(env.info) && S.BindStep(env, bound, before, bindDn, Some(secret)).1 == L.Ok(L.Success)
    requires Valid(ctx.db) && ValidInfo(ctx.info) && HasBase(r, ctx.info.base)
    ensures var who := S.BindStep(env, bound, before, bindDn, Some(secret)).0;
      var me := GetUserId(Lower(bindDn), env.info.base);
      me.Ok? && who.Some? && UserFilterFor(who.value) == (if SeesAll(bound, me.value) then None else Some(me.value)) &&
      AnswersBoth(ctx, if SeesAll(bound, me.value) then None else Some(me.value), r.attrs, r.filter,
                  SearchReply(ctx, who, r))
  {
    hide GetIdFromDistinguishedName, PermissionsFromGroups, GroupNamesOf, IsIn, S.PermissionsOf, AnswersBoth, HasBase,
      SearchReply, SeesAll, Valid, ValidInfo;
    S.BindExactly(env, bound, before, bindDn, Some(secret));
    BoundRights(bound, GetUserId(Lower(bindDn), env.info.base).value);
    var who := S.BindStep(env, bound, before, bindDn, Some(secret)).0.value;
    RootAnswers(ctx, who, r);
  }
}
