/** The requests that change the directory, with their guards: GraphQL mutations and
    the LDAP add. A refused request, or one that panics, leaves the tables alone. */
module Mutations {
  import opened Wrappers
  import opened Text
  import opened Codec
  import opened Schema
  import opened Database
  import opened AccessControl
  import opened DistinguishedName
  import opened Invariants
  import L = Ldap
  import D = Directory

  /** An attribute as GraphQL receives it: always a list of strings. */
  datatype AttributeInput = AttributeInput(name: string, value: seq<string>)

  datatype LdapAttribute = LdapAttribute(name: string, values: seq<seq<byte>>)

  datatype Mutation =
    | CreateUser(id: string, email: string, displayName: Option<string>, firstName: Option<string>,
                 lastName: Option<string>, avatar: Option<string>, attributes: seq<AttributeInput>)
    | UpdateUser(id: string, newEmail: Option<string>, displayName: Option<string>, firstName: Option<string>,
                 lastName: Option<string>, avatar: Option<string>, removed: seq<string>, inserted: seq<AttributeInput>)
    | CreateGroup(name: string, attributes: seq<AttributeInput>)
    | UpdateGroup(group: int, displayName: Option<string>, removed: seq<string>, inserted: seq<AttributeInput>)
    | AddUserToGroup(id: string, group: int)
    | RemoveUserFromGroup(id: string, group: int)
    | DeleteUser(id: string)
    | DeleteGroup(group: int)
    | AddUserAttribute(name: string, typ: AttributeType, isList: bool, isVisible: bool, isEditable: bool)
    | AddGroupAttribute(name: string, typ: AttributeType, isList: bool, isVisible: bool, isEditable: bool)
    | DeleteUserAttribute(name: string)
    | DeleteGroupAttribute(name: string)
    | AddUserClass(name: string)
    | AddGroupClass(name: string)
    | DeleteUserClass(name: string)
    | DeleteGroupClass(name: string)
    | LdapAdd(dn: string, ldapAttributes: seq<LdapAttribute>)

  /** Foreign code: parsers, the JPEG check, and UUIDs made from a name and a date. */
  datatype Env = Env(lib: Parsers, isJpeg: seq<byte> -> bool, uuid: (string, string) -> string, base: seq<Rdn>)

  const ADMIN_GROUP_ID := 1

  // ----- Attributes of a request -----

  /** What the public schema says of a name: database rows win over built-in ones. */
  function PublicRow(rows: map<string, SchemaRow>, builtin: seq<AttributeSchema>, name: string): Option<SchemaRow> {
    if name in rows then Some(rows[name]) else GetAttributeSchema(builtin, name)
  }

  lemma PublicRowsAreLookups(db: Db, name: string)
    ensures PublicRow(db.userSchema, BUILTIN_USER_ATTRIBUTES, name) ==
              GetAttributeSchema(ViewerSchema(db, false).userAttributes, name)
    ensures PublicRow(db.groupSchema, BUILTIN_GROUP_ATTRIBUTES, name) ==
              GetAttributeSchema(ViewerSchema(db, false).groupAttributes, name)
  {
    ViewerUserLookup(db, false, name);
    ViewerGroupLookup(db, false, name);
  }

  /** What an input stands for, if its name is known and may be set, and its strings parse. */
  function InputValue(lib: Parsers, rows: map<string, SchemaRow>, builtin: seq<AttributeSchema>,
                      attribute: AttributeInput, isAdmin: bool): Option<Value>
  {
    var row :- PublicRow(rows, builtin, Lower(attribute.name));
    if isAdmin || row.isEditable then ParseValue(lib, attribute.value, row.typ, row.isList) else None
  }

  function DeserializeAttribute(lib: Parsers, rows: map<string, SchemaRow>, builtin: seq<AttributeSchema>,
                                attribute: AttributeInput, isAdmin: bool): (r: Option<AttributeValue>)
    ensures r.Some? <==> InputValue(lib, rows, builtin, attribute, isAdmin).Some?
    ensures r.Some? ==> IsStoredForm(lib, rows, builtin, attribute, isAdmin, r.value)
  {
    var name := Lower(attribute.name);
    var row :- PublicRow(rows, builtin, name);
    if !isAdmin && !row.isEditable then None
    else
      var bytes :- DeserializeAttributeValue(lib, attribute.value, row.typ, row.isList);
      Some(AttributeValue(name, bytes))
  }

  /** The stored form of an input: its lower-cased name, and bytes of the public type that
      decode to what it stands for. */
  ghost predicate IsStoredForm(lib: Parsers, rows: map<string, SchemaRow>, builtin: seq<AttributeSchema>,
                               attribute: AttributeInput, isAdmin: bool, stored: AttributeValue)
  {
    var row := PublicRow(rows, builtin, stored.name);
    && stored.name == Lower(attribute.name)
    && row.Some? && WellTyped(stored.bytes, row.value)
    && Decode(stored.bytes, row.value.typ, row.value.isList) == InputValue(lib, rows, builtin, attribute, isAdmin)
  }

  /** Accepts exactly inputs that all stand for a value. */
  function DeserializeAttributes(lib: Parsers, rows: map<string, SchemaRow>, builtin: seq<AttributeSchema>,
                                 attributes: seq<AttributeInput>, isAdmin: bool): (r: Option<seq<AttributeValue>>)
    ensures r.Some? <==> forall a :: a in attributes ==> InputValue(lib, rows, builtin, a, isAdmin).Some?
    ensures r.Some? ==> |r.value| == |attributes|
  {
    if attributes == [] then Some([])
    else
      assert attributes[0] in attributes;
      assert forall a :: a in attributes <==> a == attributes[0] || a in attributes[1..];
      var first :- DeserializeAttribute(lib, rows, builtin, attributes[0], isAdmin);
      var rest :- DeserializeAttributes(lib, rows, builtin, attributes[1..], isAdmin);
      Some([first] + rest)
  }

  /** And gives the stored form of each. */
  lemma {:induction false} DeserializedAreStored(lib: Parsers, rows: map<string, SchemaRow>,
                                                 builtin: seq<AttributeSchema>, attributes: seq<AttributeInput>,
                                                 isAdmin: bool)
    requires DeserializeAttributes(lib, rows, builtin, attributes, isAdmin).Some?
    ensures var r := DeserializeAttributes(lib, rows, builtin, attributes, isAdmin).value;
      forall i :: 0 <= i < |attributes| ==> IsStoredForm(lib, rows, builtin, attributes[i], isAdmin, r[i])
  {
    hide IsStoredForm, InputValue;
    if attributes != [] {
      DeserializedAreStored(lib, rows, builtin, attributes[1..], isAdmin);
      assert IsStoredForm(lib, rows, builtin, attributes[0], isAdmin,
                          DeserializeAttribute(lib, rows, builtin, attributes[0], isAdmin).value);
    }
  }

  /** A regular user only gets editable names through. */
  lemma DeserializedAreEditable(lib: Parsers, rows: map<string, SchemaRow>, builtin: seq<AttributeSchema>,
                                attributes: seq<AttributeInput>)
    requires DeserializeAttributes(lib, rows, builtin, attributes, false).Some?
    ensures forall a :: a in DeserializeAttributes(lib, rows, builtin, attributes, false).value ==>
      var row := PublicRow(rows, builtin, a.name);
      row.Some? && row.value.isEditable
  {
    hide ParseValue, WellTyped;
    DeserializedAreStored(lib, rows, builtin, attributes, false);
    var r := DeserializeAttributes(lib, rows, builtin, attributes, false).value;
    forall i | 0 <= i < |r|
      ensures var row := PublicRow(rows, builtin, r[i].name);
        row.Some? && row.value.isEditable
    {
      assert attributes[i] in attributes;
    }
  }

  lemma DeserializedAreTyped(lib: Parsers, rows: map<string, SchemaRow>, builtin: seq<AttributeSchema>,
                             attributes: seq<AttributeInput>, isAdmin: bool)
    requires DeserializeAttributes(lib, rows, builtin, attributes, isAdmin).Some?
    ensures TypedRows(DeserializeAttributes(lib, rows, builtin, attributes, isAdmin).value, rows)
  {
    DeserializedAreStored(lib, rows, builtin, attributes, isAdmin);
  }

  function LowerAll(names: seq<string>): (r: seq<string>)
    ensures |r| == |names|
    ensures forall i :: 0 <= i < |names| ==> r[i] == Lower(names[i])
  {
    seq(|names|, i requires 0 <= i < |names| => Lower(names[i]))
  }

  /** The outer option is a failed decoding, the inner one an absent photo. */
  function DecodePhoto(lib: Parsers, avatar: Option<string>): Option<Option<seq<byte>>> {
    if avatar.None? then Some(None)
    else
      var bytes :- lib.photo(avatar.value);
      Some(Some(bytes))
  }

  // ----- The LDAP add -----

  /** The attributes by lower-case name, each with one value; of equal names the last one
      counts. */
  function CollectAttributes(attributes: seq<LdapAttribute>, found: map<string, seq<byte>>)
    : L.LdapResult<map<string, seq<byte>>>
    decreases |attributes|
  {
    if attributes == [] then L.Ok(found)
    else
      var a := attributes[0];
      if Lower(a.name) == "objectclass" then CollectAttributes(attributes[1..], found)
      else if |a.values| != 1 then L.Err(L.ConstraintViolation)
      else CollectAttributes(attributes[1..], found[Lower(a.name) := a.values[0]])
  }

  function TextAttribute(found: map<string, seq<byte>>, name: string): L.LdapResult<Option<string>> {
    if name !in found then L.Ok(None)
    else if !IsTextBytes(found[name]) then L.Err(L.ConstraintViolation)
    else L.Ok(Some(BytesText(found[name])))
  }

  function AddRequest(env: Env, dn: string, attributes: seq<LdapAttribute>): L.LdapResult<D.CreateUserRequest> {
    var id :- GetUserId(dn, env.base);
    var found :- CollectAttributes(attributes, map[]);
    var mail :- TextAttribute(found, if "mail" in found then "mail" else "email");
    var displayName :- TextAttribute(found, "cn");
    var firstName :- TextAttribute(found, "givenname");
    var lastName :- TextAttribute(found, "sn");
    var avatar := if "avatar" in found then Some(found["avatar"]) else None;
    if avatar.Some? && avatar.value != [] && !env.isJpeg(avatar.value) then L.Err(L.ConstraintViolation)
    else L.Ok(D.CreateUserRequest(Lower(id), mail.GetOr(""), displayName, firstName, lastName, avatar, []))
  }

  /** The name is taken as it comes, and asserted to be in lower case: an add panics
      exactly if its name has an upper-case letter. */
  lemma AddPanicsExactly(env: Env, dn: string, attributes: seq<LdapAttribute>)
    requires LowerPairs(env.base)
    ensures AddRequest(env, dn, attributes).Panic? <==> !IsLower(dn)
  {
    hide CollectAttributes, TextAttribute, ParseComponents, IsUnder, LowerPairs;
    CollectNeverPanics(attributes, map[]);
    TextNeverPanics();
    if IsLower(dn) {
      GetIdNoPanic(dn, env.base, false);
    }
  }

  lemma TextNeverPanics()
    ensures forall found, name :: !TextAttribute(found, name).Panic?
  {
  }

  lemma {:induction false} CollectNeverPanics(attributes: seq<LdapAttribute>, found: map<string, seq<byte>>)
    ensures !CollectAttributes(attributes, found).Panic?
    decreases |attributes|
  {
    if attributes != [] {
      var a := attributes[0];
      CollectNeverPanics(attributes[1..], found);
      if |a.values| == 1 {
        CollectNeverPanics(attributes[1..], found[Lower(a.name) := a.values[0]]);
      }
    }
  }

  // ----- One request -----

  function CreateUserStep(env: Env, db: Db, r: D.CreateUserRequest, now: string): Option<Db> {
    D.CreateUser(db, r, now, env.uuid(r.userId, now))
  }

  function Step(env: Env, db: Db, actor: ValidationResults, now: string, m: Mutation): Option<Db> {
    if m.UpdateUser? then UpdateUserStep(env, db, actor, m)
    else if !actor.IsAdmin() then None
    else AdminStep(env, db, actor, now, m)
  }

  /** A user may change their own entry; others need an administrator. */
  function UpdateUserStep(env: Env, db: Db, actor: ValidationResults, m: Mutation): Option<Db>
    requires m.UpdateUser?
  {
    if !actor.CanWrite(Lower(m.id)) then None
    else
      var avatar :- DecodePhoto(env.lib, m.avatar);
      var inserted :- DeserializeAttributes(env.lib, db.userSchema, BUILTIN_USER_ATTRIBUTES, m.inserted,
                                            actor.IsAdmin());
      D.UpdateUser(db, D.UpdateUserRequest(Lower(m.id), m.newEmail, m.displayName, m.firstName, m.lastName, avatar,
                                           LowerAll(m.removed), inserted))
  }

  function AdminStep(env: Env, db: Db, actor: ValidationResults, now: string, m: Mutation): Option<Db>
    requires !m.UpdateUser?
  {
    match m
    case CreateUser(id, email, displayName, firstName, lastName, photo, attributes) =>
      var avatar :- DecodePhoto(env.lib, photo);
      var values :- DeserializeAttributes(env.lib, db.userSchema, BUILTIN_USER_ATTRIBUTES, attributes, true);
      CreateUserStep(env, db, D.CreateUserRequest(Lower(id), email, displayName, firstName, lastName, avatar, values),
                     now)
    case CreateGroup(name, attributes) =>
      var values :- DeserializeAttributes(env.lib, db.groupSchema, BUILTIN_GROUP_ATTRIBUTES, attributes, true);
      D.CreateGroup(db, D.CreateGroupRequest(name, values), now, env.uuid(name, now))
    case UpdateGroup(group, name, removed, inserted) =>
      if group == ADMIN_GROUP_ID && name.Some? then None
      else
        var values :- DeserializeAttributes(env.lib, db.groupSchema, BUILTIN_GROUP_ATTRIBUTES, inserted, true);
        D.UpdateGroup(db, D.UpdateGroupRequest(group, name, LowerAll(removed), values))
    case AddUserToGroup(id, group) => D.AddUserToGroup(db, Lower(id), group)
    case RemoveUserFromGroup(id, group) =>
      if actor.user == Lower(id) && group == ADMIN_GROUP_ID then None else D.RemoveUserFromGroup(db, Lower(id), group)
    case DeleteUser(id) => if actor.user == Lower(id) then None else D.DeleteUser(db, Lower(id))
    case DeleteGroup(group) => if group == ADMIN_GROUP_ID then None else D.DeleteGroup(db, group)
    case AddUserAttribute(name, typ, isList, isVisible, isEditable) =>
      D.AddUserAttribute(db, Lower(name), SchemaRow(typ, isList, isVisible, isEditable, false))
    case AddGroupAttribute(name, typ, isList, isVisible, isEditable) =>
      D.AddGroupAttribute(db, Lower(name), SchemaRow(typ, isList, isVisible, isEditable, false))
    case DeleteUserAttribute(name) =>
      var row :- PublicRow(db.userSchema, BUILTIN_USER_ATTRIBUTES, Lower(name));
      if row.isHardcoded then None else Some(D.DeleteUserAttribute(db, Lower(name)))
    case DeleteGroupAttribute(name) =>
      var row :- PublicRow(db.groupSchema, BUILTIN_GROUP_ATTRIBUTES, Lower(name));
      if row.isHardcoded then None else Some(D.DeleteGroupAttribute(db, Lower(name)))
    case AddUserClass(name) => var classes :- D.AddClass(db.userClasses, name); Some(db.(userClasses := classes))
    case AddGroupClass(name) => var classes :- D.AddClass(db.groupClasses, name); Some(db.(groupClasses := classes))
    case DeleteUserClass(name) => Some(db.(userClasses := db.userClasses - {Lower(name)}))
    case DeleteGroupClass(name) => Some(db.(groupClasses := db.groupClasses - {Lower(name)}))
    case LdapAdd(dn, attributes) =>
      var request := AddRequest(env, dn, attributes);
      if request.Ok? then CreateUserStep(env, db, request.value, now) else None
  }

  // ----- Every step keeps the directory valid -----

  lemma CreateUserStepKeepsValid(env: Env, db: Db, r: D.CreateUserRequest, now: string)
    requires Valid(db) && IsLower(r.userId) && TypedRows(r.attributes, db.userSchema)
    ensures CreateUserStep(env, db, r, now).Some? ==> Valid(CreateUserStep(env, db, r, now).value)
  {
    if CreateUserStep(env, db, r, now).Some? {
      CreateUserKeepsValid(db, r, now, env.uuid(r.userId, now));
    }
  }

  lemma UpdateUserStepKeepsValid(env: Env, db: Db, actor: ValidationResults, m: Mutation)
    requires Valid(db) && m.UpdateUser? && UpdateUserStep(env, db, actor, m).Some?
    ensures Valid(UpdateUserStep(env, db, actor, m).value)
  {
    hide Valid, TypedRows, D.UpdateUser;
    DeserializedAreTyped(env.lib, db.userSchema, BUILTIN_USER_ATTRIBUTES, m.inserted, actor.IsAdmin());
    var inserted :=
      DeserializeAttributes(env.lib, db.userSchema, BUILTIN_USER_ATTRIBUTES, m.inserted, actor.IsAdmin()).value;
    var avatar := DecodePhoto(env.lib, m.avatar).value;
    UpdateUserKeepsValid(db,
                         D.UpdateUserRequest(Lower(m.id), m.newEmail, m.displayName, m.firstName, m.lastName, avatar,
                                                 LowerAll(m.removed), inserted));
  }

  lemma CreationKeepsValid(env: Env, db: Db, actor: ValidationResults, now: string, m: Mutation)
    requires Valid(db) && (m.CreateUser? || m.CreateGroup? || m.LdapAdd? || m.UpdateGroup?)
    requires AdminStep(env, db, actor, now, m).Some?
    ensures Valid(AdminStep(env, db, actor, now, m).value)
  {
    hide Valid, TypedRows, D.CreateUser, D.CreateGroup, D.UpdateGroup, CreateUserStep;
    match m
    case CreateUser(id, email, displayName, firstName, lastName, photo, attributes) =>
      DeserializedAreTyped(env.lib, db.userSchema, BUILTIN_USER_ATTRIBUTES, attributes, true);
      var values := DeserializeAttributes(env.lib, db.userSchema, BUILTIN_USER_ATTRIBUTES, attributes, true).value;
      LowerIdempotent(id);
      CreateUserStepKeepsValid(env, db, D.CreateUserRequest(Lower(id), email, displayName, firstName, lastName,
                                                            DecodePhoto(env.lib, photo).value, values), now);
    case CreateGroup(name, attributes) =>
      DeserializedAreTyped(env.lib, db.groupSchema, BUILTIN_GROUP_ATTRIBUTES, attributes, true);
      var values := DeserializeAttributes(env.lib, db.groupSchema, BUILTIN_GROUP_ATTRIBUTES, attributes, true).value;
      CreateGroupKeepsValid(db, D.CreateGroupRequest(name, values), now, env.uuid(name, now));
    case UpdateGroup(group, name, removed, inserted) =>
      DeserializedAreTyped(env.lib, db.groupSchema, BUILTIN_GROUP_ATTRIBUTES, inserted, true);
      var values := DeserializeAttributes(env.lib, db.groupSchema, BUILTIN_GROUP_ATTRIBUTES, inserted, true).value;
      UpdateGroupKeepsValid(db, D.UpdateGroupRequest(group, name, LowerAll(removed), values));
    case LdapAdd(dn, attributes) =>
      AddedIsLower(env, dn, attributes);
      NoRowsTyped(db.userSchema);
      CreateUserStepKeepsValid(env, db, AddRequest(env, dn, attributes).value, now);
  }

  lemma NoRowsTyped(schema: map<string, SchemaRow>)
    ensures TypedRows([], schema)
  {
  }

  lemma AddedIsLower(env: Env, dn: string, attributes: seq<LdapAttribute>)
    requires AddRequest(env, dn, attributes).Ok?
    ensures IsLower(AddRequest(env, dn, attributes).value.userId)
    ensures AddRequest(env, dn, attributes).value.attributes == []
  {
    LowerIdempotent(GetUserId(dn, env.base).value);
  }

  lemma AddedNamesAreNew(db: Db, name: string, row: SchemaRow)
    ensures D.AddUserAttribute(db, name, row).Some? ==> name !in db.userSchema
    ensures D.AddGroupAttribute(db, name, row).Some? ==> name !in db.groupSchema
  {
  }

  lemma HardcodedNames(db: Db)
    requires Valid(db)
    ensures forall n :: n in [FIRST_NAME, LAST_NAME, AVATAR] ==> n in db.userSchema && db.userSchema[n].isHardcoded
  {
    hide ValidTypes, ValidUsers, ValidGroups;
  }

  lemma SchemaStepKeepsValid(env: Env, db: Db, actor: ValidationResults, now: string, m: Mutation)
    requires Valid(db)
    requires (m.AddUserAttribute? || m.AddGroupAttribute? || m.DeleteUserAttribute? || m.DeleteGroupAttribute?)
    requires AdminStep(env, db, actor, now, m).Some?
    ensures Valid(AdminStep(env, db, actor, now, m).value)
  {
    hide Valid, D.AddUserAttribute, D.AddGroupAttribute, D.DeleteUserAttribute, D.DeleteGroupAttribute;
    LowerIdempotent(m.name);
    match m
    case AddUserAttribute(name, typ, isList, isVisible, isEditable) =>
      AddedNamesAreNew(db, Lower(name), SchemaRow(typ, isList, isVisible, isEditable, false));
      AddUserAttributeKeepsValid(db, Lower(name), SchemaRow(typ, isList, isVisible, isEditable, false));
    case AddGroupAttribute(name, typ, isList, isVisible, isEditable) =>
      AddedNamesAreNew(db, Lower(name), SchemaRow(typ, isList, isVisible, isEditable, false));
      AddGroupAttributeKeepsValid(db, Lower(name), SchemaRow(typ, isList, isVisible, isEditable, false));
    case DeleteUserAttribute(name) =>
      HardcodedNames(db);
      DeleteUserAttributeKeepsValid(db, Lower(name));
    case DeleteGroupAttribute(name) => DeleteGroupAttributeKeepsValid(db, Lower(name));
  }

  lemma ClassesDoNotMatter(db: Db, users: map<string, string>, groups: map<string, string>)
    requires Valid(db)
    ensures Valid(db.(userClasses := users)) && Valid(db.(groupClasses := groups))
  {
    hide WellTyped, ValidTable;
    ValidByParts(db);
    ValidByParts(db.(userClasses := users));
    ValidByParts(db.(groupClasses := groups));
  }

  /** The reachable-state theorem, one step: unique lower-case ids, emails and names, no
      dangling row, and every stored value typed as the schema says. */
  lemma StepKeepsValid(env: Env, db: Db, actor: ValidationResults, now: string, m: Mutation)
    requires Valid(db) && Step(env, db, actor, now, m).Some?
    ensures Valid(Step(env, db, actor, now, m).value)
  {
    hide Valid, D.UpdateUser, D.CreateUser, D.CreateGroup, D.UpdateGroup, D.DeleteUser, D.DeleteGroup, AddRequest;
    match m
    case UpdateUser(_, _, _, _, _, _, _, _) => UpdateUserStepKeepsValid(env, db, actor, m);
    case CreateUser(_, _, _, _, _, _, _) => CreationKeepsValid(env, db, actor, now, m);
    case CreateGroup(_, _) => CreationKeepsValid(env, db, actor, now, m);
    case UpdateGroup(_, _, _, _) => CreationKeepsValid(env, db, actor, now, m);
    case LdapAdd(_, _) => CreationKeepsValid(env, db, actor, now, m);
    case AddUserToGroup(id, group) => MembershipStepsKeepValid(db, Lower(id), group);
    case RemoveUserFromGroup(id, group) => MembershipStepsKeepValid(db, Lower(id), group);
    case DeleteUser(id) => DeleteUserKeepsValid(db, Lower(id));
    case DeleteGroup(group) => DeleteGroupKeepsValid(db, group);
    case AddUserAttribute(_, _, _, _, _) => SchemaStepKeepsValid(env, db, actor, now, m);
    case AddGroupAttribute(_, _, _, _, _) => SchemaStepKeepsValid(env, db, actor, now, m);
    case DeleteUserAttribute(_) => SchemaStepKeepsValid(env, db, actor, now, m);
    case DeleteGroupAttribute(_) => SchemaStepKeepsValid(env, db, actor, now, m);
    case AddUserClass(name) => ClassesDoNotMatter(db, db.userClasses[Lower(name) := name], map[]);
    case AddGroupClass(name) => ClassesDoNotMatter(db, map[], db.groupClasses[Lower(name) := name]);
    case DeleteUserClass(name) => ClassesDoNotMatter(db, db.userClasses - {Lower(name)}, map[]);
    case DeleteGroupClass(name) => ClassesDoNotMatter(db, map[], db.groupClasses - {Lower(name)});
  }
}
