/** The LDAP connection as it runs: the bound user is a field, changed by binding and
    unbinding, and the directory behind it is changed in place. */
module LdapHandler {
  import opened Wrappers
  import opened Text
  import opened Codec
  import opened Schema
  import opened Database
  import opened AccessControl
  import opened DistinguishedName
  import opened LdapFilters
  import opened Listing
  import opened Search
  import opened LdapSession
  import opened DirectoryServer
  import L = Ldap
  import M = Mutations

  class LdapHandler {
    const env: Env
    const server: DirectoryServer
    var userInfo: Identity

    ghost predicate Fits() {
      server.env == env.directory
    }

    function View(): State
      reads this, server
    {
      State(userInfo, server.Tables())
    }

    constructor (env: Env, server: DirectoryServer)
      requires server.env == env.directory
      ensures Fits() && userInfo == None && this.env == env && this.server == server
    {
      this.env := env;
      this.server := server;
      userInfo := None;
    }

    /** Answers success exactly for the name and password of a user, and then, and only
        then, binds them with the permissions of the moment. */
    method DoBind(dn: string, password: Option<seq<byte>>) returns (r: L.LdapResult<L.ResultCode>)
      requires ValidInfo(env.info)
      modifies this`userInfo
      ensures var user := GetUserId(Lower(dn), env.info.base);
        && r.Ok?
        && (r.value == L.Success <==>
              user.Ok? && password.Some? && PasswordMatches(env.crypto, server.Tables(), user.value, password.value))
        && userInfo == if r.value == L.Success then Some(PermissionsOf(server.Tables(), user.value)) else old(userInfo)
      ensures (userInfo, r) == BindStep(env, server.Tables(), old(userInfo), dn, password)
    {
      BindExactly(env, server.Tables(), userInfo, dn, password);
      var user := GetUserId(Lower(dn), env.info.base);
      if user.Panic? {
        return L.Panic;
      }
      if user.Err? {
        return L.Ok(L.NamingViolation);
      }
      if password.None? {
        return L.Ok(L.UnwillingToPerform);
      }
      if PasswordMatches(env.crypto, server.Tables(), user.value, password.value) {
        userInfo := Some(PermissionsOf(server.Tables(), user.value));
        return L.Ok(L.Success);
      }
      return L.Ok(L.InvalidCredentials);
    }

    method StorePassword(user: string, password: seq<byte>)
      requires user in server.users
      modifies server`users
      ensures server.Tables() == SetPassword(env.crypto, old(server.Tables()), user, password)
    {
      server.users := server.users[user := server.users[user].(passwordHash := Some(env.crypto.hash(user, password)))];
    }

    /** The changes one by one; the first that is refused ends the request. */
    method DoModify(dn: string, changes: seq<Change>) returns (r: L.LdapResult<L.ResultCode>)
      modifies server`users
      ensures (server.Tables(), r) == ModifyStep(env, old(server.Tables()), userInfo, dn, changes)
    {
      var target := TargetOf(env, server.Tables(), userInfo, dn);
      if target.Panic? {
        return L.Panic;
      }
      if target.Err? {
        return L.Ok(target.code);
      }
      var (viewer, user, isAdmin) := target.value;
      hide TargetOf, SetPassword, NewPassword, ApplyChanges;
      assert changes[0..] == changes;
      var i := 0;
      while i < |changes|
        invariant 0 <= i <= |changes|
        invariant user in server.users
        invariant ApplyChanges(env.crypto, server.Tables(), viewer, user, isAdmin, changes[i..]) ==
                  ApplyChanges(env.crypto, old(server.Tables()), viewer, user, isAdmin, changes)
      {
        ChangesStep(env.crypto, server.Tables(), viewer, user, isAdmin, changes, i);
        var password := NewPassword(viewer, user, isAdmin, changes[i]);
        if password.Err? {
          return L.Ok(password.code);
        }
        StorePassword(user, password.value);
        i := i + 1;
      }
      assert changes[i..] == [];
      ChangesEnd(env.crypto, server.Tables(), viewer, user, isAdmin);
      r := L.Ok(L.Success);
    }

    method DoChangePassword(user: Option<string>, password: Option<seq<byte>>) returns (r: L.LdapResult<L.ResultCode>)
      modifies server`users
      ensures (server.Tables(), r) == ChangePasswordStep(env, old(server.Tables()), userInfo, user, password)
    {
      if userInfo.None? {
        return L.Ok(L.InsufficientAccessRights);
      }
      if user.None? || password.None? {
        return L.Ok(L.ConstraintViolation);
      }
      var target := TargetOf(env, server.Tables(), userInfo, user.value);
      if target.Panic? {
        return L.Panic;
      }
      if target.Err? {
        return L.Ok(target.code);
      }
      var (viewer, id, isAdmin) := target.value;
      if !viewer.CanChangePassword(id, isAdmin) {
        return L.Ok(L.InsufficientAccessRights);
      }
      StorePassword(id, password.value);
      r := L.Ok(L.Success);
    }

    method DoAdd(now: string, dn: string, attributes: seq<M.LdapAttribute>) returns (r: L.LdapResult<L.ResultCode>)
      requires Fits() && server.Valid()
      modifies server
      ensures (server.Tables(), r) == AddStep(env, old(server.Tables()), userInfo, now, dn, attributes)
    {
      hide M.Step, M.AddRequest;
      if userInfo.None? || !userInfo.value.IsAdmin() {
        return L.Ok(L.InsufficientAccessRights);
      }
      var request := M.AddRequest(env.directory, dn, attributes);
      if request.Panic? {
        return L.Panic;
      }
      if request.Err? {
        return L.Ok(request.code);
      }
      var ok := server.Handle(userInfo.value, now, M.LdapAdd(dn, attributes));
      r := L.Ok(if ok then L.Success else L.OperationsError);
    }

    /** One message is exactly one step of the session. */
    method Handle(now: string, m: Message) returns (r: L.LdapResult<L.ResultCode>)
      requires Fits() && server.Valid() && ValidInfo(env.info)
      modifies this`userInfo, server
      ensures (View(), r) == Step(env, old(View()), now, m)
      ensures server.Valid()
    {
      LdapSession.StepKeepsValid(env, View(), now, m);
      hide BindStep, ModifyStep, ChangePasswordStep, AddStep, Valid, ValidInfo;
      match m
      case Bind(dn, password) => r := DoBind(dn, password);
      case Unbind =>
        userInfo := None;
        r := L.Ok(L.Success);
      case Modify(dn, changes) => r := DoModify(dn, changes);
      case ChangePassword(user, password) => r := DoChangePassword(user, password);
      case Add(dn, attributes) => r := DoAdd(now, dn, attributes);
    }
  }

  lemma ChangesStep(crypto: Crypto, db: Db, viewer: ValidationResults, user: string, isAdmin: bool,
                    changes: seq<Change>, i: nat)
    requires user in db.users && i < |changes|
    ensures var password := NewPassword(viewer, user, isAdmin, changes[i]);
      ApplyChanges(crypto, db, viewer, user, isAdmin, changes[i..]) ==
        if password.Ok? then
          ApplyChanges(crypto, SetPassword(crypto, db, user, password.value), viewer, user, isAdmin, changes[i + 1..])
        else (db, password.code)
  {
    hide SetPassword, NewPassword;
    assert changes[i..][0] == changes[i] && changes[i..][1..] == changes[i + 1..];
  }

  lemma ChangesEnd(crypto: Crypto, db: Db, viewer: ValidationResults, user: string, isAdmin: bool)
    requires user in db.users
    ensures ApplyChanges(crypto, db, viewer, user, isAdmin, []) == (db, L.Success)
  {
  }

  // ----- Answering a search -----

  lemma UserOpsStep(es: seq<UserEntry>, i: nat, attrs: seq<string>, info: LdapInfo, schema: Schema)
    requires i < |es|
    ensures var op, rest := UserOp(es[i], attrs, info, schema), UserOps(es[i + 1..], attrs, info, schema);
      var all := UserOps(es[i..], attrs, info, schema);
      && (all.Ok? <==> op.Ok? && rest.Ok?)
      && (all.Ok? ==> all.value == [op.value] + rest.value)
      && (op.Panic? ==> all.Panic?) && (op.Err? ==> all == L.Err(op.code))
  {
    hide UserOp;
    assert es[i..][0] == es[i] && es[i..][1..] == es[i + 1..];
  }

  lemma GroupOpsStep(es: seq<GroupEntry>, i: nat, attrs: seq<string>, only: Option<string>, info: LdapInfo,
                     schema: Schema)
    requires i < |es|
    ensures var op, rest := GroupOp(es[i], attrs, only, info, schema), GroupOps(es[i + 1..], attrs, only, info, schema);
      var all := GroupOps(es[i..], attrs, only, info, schema);
      && (all.Ok? <==> op.Ok? && rest.Ok?)
      && (all.Ok? ==> all.value == [op.value] + rest.value)
      && (op.Panic? ==> all.Panic?) && (op.Err? ==> all == L.Err(op.code))
  {
    hide GroupOp;
    assert es[i..][0] == es[i] && es[i..][1..] == es[i + 1..];
  }

  method PushUsers(users: seq<UserEntry>, attrs: seq<string>, info: LdapInfo, schema: Schema)
    returns (ok: bool, results: seq<LdapOp>)
    ensures var ops := UserOps(users, attrs, info, schema);
      ok == ops.Ok? && (ok ==> results == ops.value)
  {
    hide UserOp, UserOps;
    results := [];
    var i := 0;
    assert users[0..] == users;
    while i < |users|
      invariant 0 <= i <= |users|
      invariant var all, rest := UserOps(users, attrs, info, schema), UserOps(users[i..], attrs, info, schema);
        (all.Ok? <==> rest.Ok?) && (all.Ok? ==> all.value == results + rest.value)
    {
      UserOpsStep(users, i, attrs, info, schema);
      var op := UserOp(users[i], attrs, info, schema);
      if !op.Ok? {
        return false, [];
      }
      results := results + [op.value];
      i := i + 1;
    }
    assert users[i..] == [];
    NoMoreOps(attrs, None, info, schema);
    ok := true;
  }

  method PushGroups(start: seq<LdapOp>, groups: seq<GroupEntry>, attrs: seq<string>, only: Option<string>,
                    info: LdapInfo, schema: Schema)
    returns (ok: bool, results: seq<LdapOp>)
    ensures var ops := GroupOps(groups, attrs, only, info, schema);
      ok == ops.Ok? && (ok ==> results == start + ops.value)
  {
    hide GroupOp, GroupOps;
    results := start;
    var i := 0;
    assert groups[0..] == groups;
    while i < |groups|
      invariant 0 <= i <= |groups|
      invariant var all, rest :=
        GroupOps(groups, attrs, only, info, schema), GroupOps(groups[i..], attrs, only, info, schema);
        (all.Ok? <==> rest.Ok?) && (all.Ok? ==> start + all.value == results + rest.value)
    {
      GroupOpsStep(groups, i, attrs, only, info, schema);
      var op := GroupOp(groups[i], attrs, only, info, schema);
      if !op.Ok? {
        return false, [];
      }
      results := results + [op.value];
      i := i + 1;
    }
    assert groups[i..] == [];
    NoMoreOps(attrs, only, info, schema);
    ok := true;
  }

  lemma NoMoreOps(attrs: seq<string>, only: Option<string>, info: LdapInfo, schema: Schema)
    ensures UserOps([], attrs, info, schema).Ok? && UserOps([], attrs, info, schema).value == []
    ensures GroupOps([], attrs, only, info, schema).Ok? && GroupOps([], attrs, only, info, schema).value == []
  {
  }

  /** Pushes the answers for the users found, then those for the groups, then, unless
      there is one, the final one. */
  method PushResults(users: seq<UserEntry>, groups: seq<GroupEntry>, attrs: seq<string>, only: Option<string>,
                     info: LdapInfo, schema: Schema)
    returns (ok: bool, results: seq<LdapOp>)
    ensures var expected := ToOps(UsersAndGroups(users, groups), attrs, only, info, schema);
      ok == expected.Ok? && (ok ==> results == PushDone(expected.value))
  {
    hide UserOps, GroupOps;
    ok, results := PushUsers(users, attrs, info, schema);
    if !ok {
      return;
    }
    ok, results := PushGroups(results, groups, attrs, only, info, schema);
    if ok && (results == [] || !results[|results| - 1].SearchResultDone?) {
      results := results + [SearchResultDone(L.Success)];
    }
  }
}
