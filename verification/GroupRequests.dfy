/** The same for the requests about groups, memberships, schemas and classes. */
module GroupRequests {
  import opened Wrappers
  import opened Text
  import opened Codec
  import opened Schema
  import opened Database
  import opened AccessControl
  import opened LdapFilters
  import opened Requests
  import D = Directory
  import M = Mutations

  // ----- New groups -----

  /** No group has the name in any spelling, or the UUID; and the ids are not used up. */
  predicate IsNewGroup(db: Db, name: string, uuid: string) {
    && db.nextGroupId <= 0x7fff_ffff
    && forall g :: g in db.groups ==> Lower(db.groups[g].displayName) != Lower(name) && db.groups[g].uuid != uuid
  }

  /** Each input reads back as the value it stands for. */
  ghost predicate InputsStoredAt(env: M.Env, db: Db, g: int, inputs: seq<M.AttributeInput>) {
    forall a :: a in inputs ==>
      var v := M.InputValue(env.lib, db.groupSchema, BUILTIN_GROUP_ATTRIBUTES, a, true);
      v.Some? && StoredGroupValue(db, g, Lower(a.name), v.value)
  }

  lemma NameIsFree(db: Db, name: string, self: int)
    requires Valid(db)
    ensures D.GroupNameFree(db, name, self) <==>
      forall g :: g in db.groups && g != self ==> Lower(db.groups[g].displayName) != Lower(name)
  {
    hide ValidUsers, ValidTypes, ValidSchema, ValidReferences;
  }

  lemma NextIsUnused(db: Db)
    requires Valid(db)
    ensures db.nextGroupId !in db.groups
    ensures forall name: string :: AttributeKey(db.nextGroupId, name) !in db.groupAttributes
  {
    hide ValidUsers, ValidTypes, ValidSchema;
    forall name: string
      ensures AttributeKey(db.nextGroupId, name) !in db.groupAttributes
    {
      assert AttributeKey(db.nextGroupId, name).owner == db.nextGroupId;
    }
  }

  lemma CreatesGroupExactly(db: Db, name: string, rows: seq<AttributeValue>, now: string, uuid: string)
    requires Valid(db)
    ensures D.CreateGroup(db, D.CreateGroupRequest(name, rows), now, uuid).Some? <==>
      IsNewGroup(db, name, uuid) && AllIn(RowNames(rows), db.groupSchema) && NoneTwice(RowNames(rows))
  {
    hide Valid, D.InsertRows, D.GroupNameFree, NoneTwice;
    NameIsFree(db, name, db.nextGroupId);
    NextIsUnused(db);
    KnownAreIn(rows, db.groupSchema);
    InsertsExactly(db.groupAttributes, db.nextGroupId, rows, db.groupSchema.Keys);
  }

  lemma CreatedGroupIsStored(db: Db, name: string, rows: seq<AttributeValue>, now: string, uuid: string)
    requires Valid(db) && D.CreateGroup(db, D.CreateGroupRequest(name, rows), now, uuid).Some?
    ensures var db' := D.CreateGroup(db, D.CreateGroupRequest(name, rows), now, uuid).value;
      && IsStoredGroup(db, db', name, now, uuid, RowNames(rows))
      && forall i :: 0 <= i < |rows| ==>
           D.StoredAt(db'.groupAttributes, AttributeKey(db.nextGroupId, rows[i].name)) == Some(rows[i].bytes)
  {
    hide Valid, D.InsertRows, D.GroupNameFree;
    var db' := D.CreateGroup(db, D.CreateGroupRequest(name, rows), now, uuid).value;
    NextIsUnused(db);
    forall k: AttributeKey<int>
      ensures if k.owner == db.nextGroupId then
                (k in db'.groupAttributes <==> k.name in RowNames(rows)) &&
                (forall i :: 0 <= i < |rows| && rows[i].name == k.name ==>
                   k in db'.groupAttributes && db'.groupAttributes[k] == rows[i].bytes)
              else D.StoredAt(db'.groupAttributes, k) == D.StoredAt(db.groupAttributes, k)
    {
      InsertsAll(db.groupAttributes, db.nextGroupId, rows, db.groupSchema.Keys, k);
    }
    assert forall name: string :: AttributeKey(db.nextGroupId, name).owner == db.nextGroupId;
  }

  /** The group as stored, under the next id, with no attribute but those named. The rest of
      the directory is as before, and nobody is in it. */
  ghost predicate IsStoredGroup(db: Db, db': Db, name: string, now: string, uuid: string, names: seq<string>) {
    var id := db.nextGroupId;
    && db' == db.(groups := db'.groups, groupAttributes := db'.groupAttributes, nextGroupId := id + 1)
    && db'.groups == db.groups[id := GroupRow(name, Lower(name), now, uuid)]
    && (forall n: string :: AttributeKey(id, n) in db'.groupAttributes <==> n in names)
    && (forall k: AttributeKey<int> :: k.owner != id ==>
          D.StoredAt(db'.groupAttributes, k) == D.StoredAt(db.groupAttributes, k))
  }

  lemma RowsAreInputsAt(env: M.Env, db: Db, g: int, inputs: seq<M.AttributeInput>, rows: seq<AttributeValue>)
    requires M.DeserializeAttributes(env.lib, db.groupSchema, BUILTIN_GROUP_ATTRIBUTES, inputs, true) == Some(rows)
    requires forall i :: 0 <= i < |rows| ==>
      rows[i].name in db.groupSchema &&
      D.StoredAt(db.groupAttributes, AttributeKey(g, rows[i].name)) == Some(rows[i].bytes)
    ensures InputsStoredAt(env, db, g, inputs)
  {
    hide M.InputValue, M.IsStoredForm, Encode, HasType;
    InputsAreRows(env, db.groupSchema, BUILTIN_GROUP_ATTRIBUTES, inputs, true);
    M.DeserializedAreStored(env.lib, db.groupSchema, BUILTIN_GROUP_ATTRIBUTES, inputs, true);
    forall a | a in inputs
      ensures var v := M.InputValue(env.lib, db.groupSchema, BUILTIN_GROUP_ATTRIBUTES, a, true);
        v.Some? && StoredGroupValue(db, g, Lower(a.name), v.value)
    {
      var i :| 0 <= i < |inputs| && inputs[i] == a;
      FormIsValue(env, db.groupSchema, BUILTIN_GROUP_ATTRIBUTES, a, true, rows[i]);
    }
  }

  /** Creating a group is accepted exactly from an administrator, for a new name and UUID,
      with attributes that stand for values and have known names, none of them twice. */
  lemma CreateGroupExactly(env: M.Env, db: Db, actor: ValidationResults, now: string, m: M.Mutation)
    requires Valid(db) && m.CreateGroup?
    ensures M.Step(env, db, actor, now, m).Some? <==>
      && actor.permission.Admin? && AllStand(env, db.groupSchema, BUILTIN_GROUP_ATTRIBUTES, m.attributes, true)
      && IsNewGroup(db, m.name, env.uuid(m.name, now))
      && AllIn(InputNames(m.attributes), db.groupSchema) && NoneTwice(InputNames(m.attributes))
    ensures M.Step(env, db, actor, now, m).Some? ==>
      var db' := M.Step(env, db, actor, now, m).value;
      && IsStoredGroup(db, db', m.name, now, env.uuid(m.name, now), InputNames(m.attributes))
      && InputsStoredAt(env, db', db.nextGroupId, m.attributes)
  {
    hide Valid, D.CreateGroup, M.DeserializeAttributes, NoneTwice, IsStoredGroup, AllStand, IsNewGroup, AllIn,
      InputsStoredAt;
    InputsAreRows(env, db.groupSchema, BUILTIN_GROUP_ATTRIBUTES, m.attributes, true);
    var rows := M.DeserializeAttributes(env.lib, db.groupSchema, BUILTIN_GROUP_ATTRIBUTES, m.attributes, true);
    if actor.IsAdmin() && rows.Some? {
      CreatesGroupExactly(db, m.name, rows.value, now, env.uuid(m.name, now));
      if D.CreateGroup(db, D.CreateGroupRequest(m.name, rows.value), now, env.uuid(m.name, now)).Some? {
        CreatedGroupIsStored(db, m.name, rows.value, now, env.uuid(m.name, now));
        NewInputsRead(env, db, m.name, m.attributes, rows.value, now);
      }
    }
  }

  lemma NewInputsRead(env: M.Env, db: Db, name: string, inputs: seq<M.AttributeInput>, rows: seq<AttributeValue>,
                      now: string)
    requires Valid(db) && D.CreateGroup(db, D.CreateGroupRequest(name, rows), now, env.uuid(name, now)).Some?
    requires M.DeserializeAttributes(env.lib, db.groupSchema, BUILTIN_GROUP_ATTRIBUTES, inputs, true) == Some(rows)
    ensures InputsStoredAt(env, D.CreateGroup(db, D.CreateGroupRequest(name, rows), now, env.uuid(name, now)).value,
                           db.nextGroupId, inputs)
  {
    hide Valid, M.DeserializeAttributes, InputsStoredAt, D.InsertRows, D.GroupNameFree, D.StoredAt;
    CreatedGroupIsStored(db, name, rows, now, env.uuid(name, now));
    RowsAreInputsAt(env, D.CreateGroup(db, D.CreateGroupRequest(name, rows), now, env.uuid(name, now)).value,
                    db.nextGroupId, inputs, rows);
  }

  // ----- Updating groups -----

  /** An attribute after an update: the last value inserted for it, or else nothing if it is
      removed, or else what it was. */
  ghost predicate IsUpdatedAt(env: M.Env, db: Db, db': Db, m: M.Mutation, name: string)
    requires m.UpdateGroup?
  {
    var key, inserted := AttributeKey(m.group, name), LastInput(m.inserted, name);
    if inserted.Some? then
      var v := M.InputValue(env.lib, db.groupSchema, BUILTIN_GROUP_ATTRIBUTES, inserted.value, true);
      v.Some? && StoredGroupValue(db', m.group, name, v.value)
    else if name in LowerNames(m.removed) then key !in db'.groupAttributes
    else D.StoredAt(db'.groupAttributes, key) == D.StoredAt(db.groupAttributes, key)
  }

  function UpdateOfGroup(m: M.Mutation, rows: seq<AttributeValue>): D.UpdateGroupRequest
    requires m.UpdateGroup?
  {
    D.UpdateGroupRequest(m.group, m.displayName, M.LowerAll(m.removed), rows)
  }

  function RenamedGroup(row: GroupRow, name: Option<string>): GroupRow {
    if name.None? then row else row.(displayName := name.value, lowercaseDisplayName := Lower(name.value))
  }

  predicate NameIsUnused(db: Db, name: string, g: int) {
    forall h :: h in db.groups && h != g ==> Lower(db.groups[h].displayName) != Lower(name)
  }

  lemma UpdatesGroupExactly(db: Db, m: M.Mutation, rows: seq<AttributeValue>)
    requires Valid(db) && m.UpdateGroup?
    ensures D.UpdateGroup(db, UpdateOfGroup(m, rows)).Some? <==>
      && m.group in db.groups && (m.displayName.Some? ==> NameIsUnused(db, m.displayName.value, m.group))
      && AllIn(RowNames(rows), db.groupSchema) && AllIn(LowerNames(m.removed), db.groupSchema)
  {
    hide Valid, D.GroupNameFree, D.KnownValues, D.KnownNames, AllIn, D.UpsertRows, D.RemoveRows;
    RemovedKnown(m.removed, db.groupSchema);
    KnownAreIn(rows, db.groupSchema);
    if m.displayName.Some? {
      NameIsFree(db, m.displayName.value, m.group);
    }
  }

  lemma RestStays(db: Db, r: D.UpdateGroupRequest)
    requires D.UpdateGroup(db, r).Some?
    ensures var db' := D.UpdateGroup(db, r).value;
      && db' == db.(groups := db'.groups, groupAttributes := db'.groupAttributes)
      && r.groupId in db.groups
      && db'.groups == db.groups[r.groupId := RenamedGroup(db.groups[r.groupId], r.displayName)]
      && forall k: AttributeKey<int> :: k.owner != r.groupId ==>
           D.StoredAt(db'.groupAttributes, k) == D.StoredAt(db.groupAttributes, k)
  {
    hide D.UpsertRows, D.RemoveRows, D.KnownValues, D.KnownNames, D.GroupNameFree;
    forall k: AttributeKey<int> | k.owner != r.groupId
      ensures D.StoredAt(D.UpdateGroup(db, r).value.groupAttributes, k) == D.StoredAt(db.groupAttributes, k)
    {
      D.UpdateGroupAttributes(db, r, k);
    }
  }

  lemma GroupAttributeIsUpdated(env: M.Env, db: Db, m: M.Mutation, rows: seq<AttributeValue>, name: string)
    requires Valid(db) && m.UpdateGroup? && D.UpdateGroup(db, UpdateOfGroup(m, rows)).Some?
    requires M.DeserializeAttributes(env.lib, db.groupSchema, BUILTIN_GROUP_ATTRIBUTES, m.inserted, true) == Some(rows)
    ensures IsUpdatedAt(env, db, D.UpdateGroup(db, UpdateOfGroup(m, rows)).value, m, name)
  {
    hide Valid, D.UpdateGroup, M.DeserializeAttributes, D.LastValue, LastInput, Encode, HasType, M.IsStoredForm,
      M.InputValue;
    RestStays(db, UpdateOfGroup(m, rows));
    InputsAreRows(env, db.groupSchema, BUILTIN_GROUP_ATTRIBUTES, m.inserted, true);
    M.DeserializedAreStored(env.lib, db.groupSchema, BUILTIN_GROUP_ATTRIBUTES, m.inserted, true);
    NamesOfForms(env, db, m.inserted, true, rows);
    LastInputIsLastValue(m.inserted, rows, name);
    D.UpdateGroupAttributes(db, UpdateOfGroup(m, rows), AttributeKey(m.group, name));
    UpdatesGroupExactly(db, m, rows);
    assert M.LowerAll(m.removed) == LowerNames(m.removed);
    if LastInput(m.inserted, name).Some? {
      var i :| 0 <= i < |rows| && m.inserted[i] == LastInput(m.inserted, name).value && rows[i].name == name &&
        D.LastValue(rows, name) == Some(rows[i].bytes);
      assert RowNames(rows)[i] in db.groupSchema;
      FormIsValue(env, db.groupSchema, BUILTIN_GROUP_ATTRIBUTES, m.inserted[i], true, rows[i]);
    }
  }

  /** An update of a group is accepted exactly from an administrator, for an existing group,
      of which group 1 keeps its name, with a name that no other has, and known attributes
      that stand for values. Then name and attributes are as asked for. */
  lemma UpdateGroupExactly(env: M.Env, db: Db, actor: ValidationResults, now: string, m: M.Mutation)
    requires Valid(db) && m.UpdateGroup?
    ensures M.Step(env, db, actor, now, m).Some? <==>
      && actor.permission.Admin? && m.group in db.groups && !(m.group == 1 && m.displayName.Some?)
      && (m.displayName.Some? ==> NameIsUnused(db, m.displayName.value, m.group))
      && AllStand(env, db.groupSchema, BUILTIN_GROUP_ATTRIBUTES, m.inserted, true)
      && AllIn(InputNames(m.inserted), db.groupSchema) && AllIn(LowerNames(m.removed), db.groupSchema)
    ensures M.Step(env, db, actor, now, m).Some? ==>
      var db' := M.Step(env, db, actor, now, m).value;
      && db' == db.(groups := db'.groups, groupAttributes := db'.groupAttributes)
      && db'.groups == db.groups[m.group := RenamedGroup(db.groups[m.group], m.displayName)]
      && (forall name :: IsUpdatedAt(env, db, db', m, name))
      && (forall k: AttributeKey<int> :: k.owner != m.group ==>
            D.StoredAt(db'.groupAttributes, k) == D.StoredAt(db.groupAttributes, k))
  {
    hide Valid, D.UpdateGroup, M.DeserializeAttributes, AllStand, AllIn, IsUpdatedAt, NameIsUnused, RenamedGroup,
      D.StoredAt;
    InputsAreRows(env, db.groupSchema, BUILTIN_GROUP_ATTRIBUTES, m.inserted, true);
    var rows := M.DeserializeAttributes(env.lib, db.groupSchema, BUILTIN_GROUP_ATTRIBUTES, m.inserted, true);
    if actor.IsAdmin() && rows.Some? {
      UpdatesGroupExactly(db, m, rows.value);
      if D.UpdateGroup(db, UpdateOfGroup(m, rows.value)).Some? {
        RestStays(db, UpdateOfGroup(m, rows.value));
        forall name
          ensures IsUpdatedAt(env, db, D.UpdateGroup(db, UpdateOfGroup(m, rows.value)).value, m, name)
        {
          GroupAttributeIsUpdated(env, db, m, rows.value, name);
        }
      }
    }
  }

  // ----- Memberships and deletions -----

  /** Joining and leaving: accepted exactly from an administrator, who may not leave group 1
      themselves; and they change one membership. */
  lemma MembershipExactly(env: M.Env, db: Db, actor: ValidationResults, now: string, id: string, g: int)
    ensures var r, x := M.Step(env, db, actor, now, M.AddUserToGroup(id, g)), Membership(Lower(id), g);
      && (r.Some? <==> actor.permission.Admin? && x.user in db.users && g in db.groups && x !in db.memberships)
      && (r.Some? ==> r.value == db.(memberships := db.memberships + {x}))
    ensures var r, x := M.Step(env, db, actor, now, M.RemoveUserFromGroup(id, g)), Membership(Lower(id), g);
      && (r.Some? <==> actor.permission.Admin? && x in db.memberships && !(actor.user == Lower(id) && g == 1))
      && (r.Some? ==> r.value == db.(memberships := db.memberships - {x}))
  {
    hide M.UpdateUserStep, M.DeserializeAttributes, M.AddRequest, M.CreateUserStep, D.CreateGroup, D.UpdateGroup;
  }

  /** Deleting a user: accepted exactly from an administrator who is another one; and
      exactly the rows of that user go. */
  lemma DeleteUserExactly(env: M.Env, db: Db, actor: ValidationResults, now: string, id: string)
    ensures var r, u := M.Step(env, db, actor, now, M.DeleteUser(id)), Lower(id);
      && (r.Some? <==> actor.permission.Admin? && u in db.users && actor.user != u)
      && (r.Some? ==>
            var db' := r.value;
            && db' == db.(users := db.users - {u}, memberships := db'.memberships, userAttributes := db'.userAttributes)
            && (forall x :: x in db'.memberships <==> x in db.memberships && x.user != u)
            && (forall k: AttributeKey<string> ::
                  D.StoredAt(db'.userAttributes, k) == if k.owner == u then None else D.StoredAt(db.userAttributes, k)))
  {
    hide M.UpdateUserStep, M.DeserializeAttributes, M.AddRequest, M.CreateUserStep, D.CreateGroup, D.UpdateGroup;
  }

  /** Deleting a group: accepted exactly from an administrator, for any but group 1; and
      exactly the rows of that group go. */
  lemma DeleteGroupExactly(env: M.Env, db: Db, actor: ValidationResults, now: string, g: int)
    ensures var r := M.Step(env, db, actor, now, M.DeleteGroup(g));
      && (r.Some? <==> actor.permission.Admin? && g in db.groups && g != 1)
      && (r.Some? ==>
            var db' := r.value;
            && db' == db.(groups := db.groups - {g}, memberships := db'.memberships,
                          groupAttributes := db'.groupAttributes)
            && (forall x :: x in db'.memberships <==> x in db.memberships && x.group != g)
            && (forall k: AttributeKey<int> ::
                  D.StoredAt(db'.groupAttributes, k) == if k.owner == g then None
                    else D.StoredAt(db.groupAttributes, k)))
  {
    hide M.UpdateUserStep, M.DeserializeAttributes, M.AddRequest, M.CreateUserStep, D.CreateGroup, D.UpdateGroup;
  }

  // ----- Schemas and classes -----

  lemma {:induction false} FoundRow(attributes: seq<AttributeSchema>, name: string)
    requires GetAttributeSchema(attributes, name).Some?
    ensures exists i :: 0 <= i < |attributes| && attributes[i].row == GetAttributeSchema(attributes, name).value
  {
    if attributes[0].name != name {
      FoundRow(attributes[1..], name);
      var i :| 0 <= i < |attributes[1..]| && attributes[1..][i].row == GetAttributeSchema(attributes[1..], name).value;
      assert attributes[i + 1].row == GetAttributeSchema(attributes, name).value;
    }
  }

  lemma BuiltinsAreHardcoded(name: string)
    ensures BuiltinUserRow(name).Some? ==> BuiltinUserRow(name).value.isHardcoded
    ensures BuiltinGroupRow(name).Some? ==> BuiltinGroupRow(name).value.isHardcoded
  {
    if BuiltinUserRow(name).Some? {
      FoundRow(BUILTIN_USER_ATTRIBUTES, name);
    }
    if BuiltinGroupRow(name).Some? {
      FoundRow(BUILTIN_GROUP_ATTRIBUTES, name);
    }
  }

  /** New attributes: accepted exactly from an administrator, for a name that the schema does
      not have; they get the type and flags of the request and can be deleted again. */
  lemma AddAttributeExactly(env: M.Env, db: Db, actor: ValidationResults, now: string, name: string, typ: AttributeType,
                            isList: bool, isVisible: bool, isEditable: bool)
    ensures var r := M.Step(env, db, actor, now, M.AddUserAttribute(name, typ, isList, isVisible, isEditable));
      && (r.Some? <==> actor.permission.Admin? && Lower(name) !in db.userSchema)
      && (r.Some? ==> r.value == db.(
            userSchema := db.userSchema[Lower(name) := SchemaRow(typ, isList, isVisible, isEditable, false)]))
    ensures var r := M.Step(env, db, actor, now, M.AddGroupAttribute(name, typ, isList, isVisible, isEditable));
      && (r.Some? <==> actor.permission.Admin? && Lower(name) !in db.groupSchema)
      && (r.Some? ==> r.value == db.(
            groupSchema := db.groupSchema[Lower(name) := SchemaRow(typ, isList, isVisible, isEditable, false)]))
  {
    hide M.UpdateUserStep, M.DeserializeAttributes, M.AddRequest, M.CreateUserStep, D.CreateGroup, D.UpdateGroup;
  }

  /** Deleting attributes: accepted exactly from an administrator, for one that the schema
      has and that is not hardcoded; and exactly its row and its values go. */
  lemma DeleteUserAttributeExactly(env: M.Env, db: Db, actor: ValidationResults, now: string, name: string)
    ensures var r, n := M.Step(env, db, actor, now, M.DeleteUserAttribute(name)), Lower(name);
      && (r.Some? <==> actor.permission.Admin? && n in db.userSchema && !db.userSchema[n].isHardcoded)
      && (r.Some? ==>
            var db' := r.value;
            && db' == db.(userSchema := db.userSchema - {n}, userAttributes := db'.userAttributes)
            && (forall k: AttributeKey<string> ::
                  D.StoredAt(db'.userAttributes, k) == if k.name == n then None else D.StoredAt(db.userAttributes, k)))
  {
    hide M.UpdateUserStep, M.DeserializeAttributes, M.AddRequest, M.CreateUserStep, D.CreateGroup, D.UpdateGroup,
      GetAttributeSchema;
    BuiltinsAreHardcoded(Lower(name));
  }

  lemma DeleteGroupAttributeExactly(env: M.Env, db: Db, actor: ValidationResults, now: string, name: string)
    ensures var r, n := M.Step(env, db, actor, now, M.DeleteGroupAttribute(name)), Lower(name);
      && (r.Some? <==> actor.permission.Admin? && n in db.groupSchema && !db.groupSchema[n].isHardcoded)
      && (r.Some? ==>
            var db' := r.value;
            && db' == db.(groupSchema := db.groupSchema - {n}, groupAttributes := db'.groupAttributes)
            && (forall k: AttributeKey<int> ::
                  D.StoredAt(db'.groupAttributes, k) == if k.name == n then None
                    else D.StoredAt(db.groupAttributes, k)))
  {
    hide M.UpdateUserStep, M.DeserializeAttributes, M.AddRequest, M.CreateUserStep, D.CreateGroup, D.UpdateGroup,
      GetAttributeSchema;
    BuiltinsAreHardcoded(Lower(name));
  }

  /** Object classes: added exactly if new in any spelling, and kept in the spelling given. */
  lemma AddClassExactly(env: M.Env, db: Db, actor: ValidationResults, now: string, name: string)
    ensures var r := M.Step(env, db, actor, now, M.AddUserClass(name));
      && (r.Some? <==> actor.permission.Admin? && Lower(name) !in db.userClasses)
      && (r.Some? ==> r.value == db.(userClasses := db.userClasses[Lower(name) := name]))
    ensures var r := M.Step(env, db, actor, now, M.AddGroupClass(name));
      && (r.Some? <==> actor.permission.Admin? && Lower(name) !in db.groupClasses)
      && (r.Some? ==> r.value == db.(groupClasses := db.groupClasses[Lower(name) := name]))
  {
    hide M.UpdateUserStep, M.DeserializeAttributes, M.AddRequest, M.CreateUserStep, D.CreateGroup, D.UpdateGroup;
  }

  /** They are taken out in any spelling. */
  lemma DeleteClassExactly(env: M.Env, db: Db, actor: ValidationResults, now: string, name: string)
    ensures var r := M.Step(env, db, actor, now, M.DeleteUserClass(name));
      && (r.Some? <==> actor.permission.Admin?)
      && (r.Some? ==> r.value == db.(userClasses := db.userClasses - {Lower(name)}))
    ensures var r := M.Step(env, db, actor, now, M.DeleteGroupClass(name));
      && (r.Some? <==> actor.permission.Admin?)
      && (r.Some? ==> r.value == db.(groupClasses := db.groupClasses - {Lower(name)}))
  {
    hide M.UpdateUserStep, M.DeserializeAttributes, M.AddRequest, M.CreateUserStep, D.CreateGroup, D.UpdateGroup;
  }
}
