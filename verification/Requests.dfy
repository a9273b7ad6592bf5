/** What each request of an administrator, or of a user for themselves, does to the tables:
    when exactly it is accepted, and what is stored then, from its own fields. */
module Requests {
  import opened Wrappers
  import opened Text
  import opened Codec
  import opened Schema
  import opened Database
  import opened AccessControl
  import opened DistinguishedName
  import opened LdapFilters
  import D = Directory
  import P = DirectoryProperties
  import M = Mutations

  // ----- Attributes of a request -----

  /** What each input stands for at its public type; some may be refused. */
  predicate AllStand(env: M.Env, rows: map<string, SchemaRow>, builtin: seq<AttributeSchema>,
                     inputs: seq<M.AttributeInput>, isAdmin: bool)
  {
    forall a :: a in inputs ==> M.InputValue(env.lib, rows, builtin, a, isAdmin).Some?
  }

  /** Names are taken without regard to case. */
  function InputNames(inputs: seq<M.AttributeInput>): (r: seq<string>)
    ensures |r| == |inputs|
    ensures forall i :: 0 <= i < |r| ==> r[i] == Lower(inputs[i].name)
  {
    seq(|inputs|, i requires 0 <= i < |inputs| => Lower(inputs[i].name))
  }

  predicate AllIn(names: seq<string>, rows: map<string, SchemaRow>) {
    forall i :: 0 <= i < |names| ==> names[i] in rows
  }

  predicate NoneTwice(names: seq<string>) {
    forall i, j :: 0 <= i < j < |names| ==> names[i] != names[j]
  }

  function Listed(present: bool, name: string): seq<string> {
    if present then [name] else []
  }

  // ----- Inserting rows -----

  function RowNames(rows: seq<AttributeValue>): (r: seq<string>)
    ensures |r| == |rows|
    ensures forall i :: 0 <= i < |r| ==> r[i] == rows[i].name
  {
    seq(|rows|, i requires 0 <= i < |rows| => rows[i].name)
  }

  /** Rows of an owner who has none go in exactly if their names are known, each once. */
  lemma {:induction false} InsertsExactly<T>(table: AttributeTable<T>, owner: T, rows: seq<AttributeValue>,
                                             names: set<string>)
    ensures D.InsertRows(table, owner, rows, names).Some? <==>
      && (forall i :: 0 <= i < |rows| ==> rows[i].name in names && AttributeKey(owner, rows[i].name) !in table)
      && NoneTwice(RowNames(rows))
    decreases |rows|
  {
    if rows != [] {
      var key := AttributeKey(owner, rows[0].name);
      var rest := rows[1..];
      InsertsExactly(table[key := rows[0].bytes], owner, rest, names);
      assert forall i :: 0 <= i < |rest| ==> rest[i] == rows[i + 1];
      assert RowNames(rows) == [rows[0].name] + RowNames(rest);
      NoneTwiceCons(rows[0].name, RowNames(rest));
      assert (exists i :: 0 <= i < |rest| && RowNames(rest)[i] == rows[0].name) <==> rows[0].name in RowNames(rest);
    }
  }

  lemma NoneTwiceCons(name: string, names: seq<string>)
    ensures NoneTwice([name] + names) <==> name !in names && NoneTwice(names)
  {
    var all := [name] + names;
    assert forall i :: 0 <= i < |names| ==> names[i] == all[i + 1];
    if NoneTwice(all) {
      forall i, j | 0 <= i < j < |names|
        ensures names[i] != names[j]
      {
        assert all[i + 1] == names[i] && all[j + 1] == names[j];
      }
      forall i | 0 <= i < |names|
        ensures names[i] != name
      {
        assert all[0] == name && all[i + 1] == names[i];
      }
    }
    if name !in names && NoneTwice(names) {
      forall i, j | 0 <= i < j < |all|
        ensures all[i] != all[j]
      {
        assert all[j] == names[j - 1];
      }
    }
  }

  /** Then exactly these are added. */
  lemma InsertsAll<T>(table: AttributeTable<T>, owner: T, rows: seq<AttributeValue>, names: set<string>,
                      key: AttributeKey<T>)
    requires D.InsertRows(table, owner, rows, names).Some? && forall n: string :: AttributeKey(owner, n) !in table
    ensures var r := D.InsertRows(table, owner, rows, names).value;
      if key.owner == owner then
        (key in r <==> key.name in RowNames(rows)) &&
        (forall i :: 0 <= i < |rows| && rows[i].name == key.name ==> key in r && r[key] == rows[i].bytes)
      else (key in r <==> key in table) && (key in r ==> r[key] == table[key])
  {
    hide D.InsertRows;
    D.InsertedValue(table, owner, rows, names);
    var r := D.InsertRows(table, owner, rows, names).value;
    assert key.owner == owner ==> key == AttributeKey(owner, key.name);
    if key.owner == owner && key.name in RowNames(rows) {
      var i :| 0 <= i < |rows| && RowNames(rows)[i] == key.name;
      assert rows[i] in rows;
    }
    if key in r && key !in table {
      var a := AttributeValue(key.name, r[key]);
      var i :| 0 <= i < |rows| && rows[i] == a;
      assert RowNames(rows)[i] == key.name;
    }
    forall i | 0 <= i < |rows| && rows[i].name == key.name && key.owner == owner
      ensures key in r && r[key] == rows[i].bytes
    {
      assert rows[i] in rows;
    }
  }

  // ----- New users -----

  /** The value that a text, or a photo, is stored as. */
  function TextOf(s: string): Value {
    One(Bytes(TextBytes(s)))
  }

  function PhotoOf(b: seq<byte>): Value {
    One(Bytes(b))
  }

  predicate FitText(s: Option<string>) {
    s.Some? ==> IsText(s.value)
  }

  predicate FitPhoto(b: Option<seq<byte>>) {
    b.Some? ==> |b.value| < TWO_64
  }

  /** No user has the email in any spelling, or the UUID, or the id. */
  predicate IsNew(db: Db, id: string, email: string, uuid: string) {
    id !in db.users &&
    forall u :: u in db.users ==> Lower(db.users[u].email) != Lower(email) && db.users[u].uuid != uuid
  }

  /** The names of the attributes that a new user comes with. */
  function NewNames(first: bool, last: bool, photo: bool, others: seq<string>): seq<string> {
    Listed(first, "first_name") + Listed(last, "last_name") + Listed(photo, "avatar") + others
  }

  /** The user as stored: the columns, the two names and the photo, each if given, and no
      attribute but those named. The rest of the directory is as before. */
  ghost predicate IsStoredAs(db: Db, db': Db, id: string, email: string, displayName: Option<string>,
                             first: Option<string>, last: Option<string>, photo: Option<seq<byte>>, now: string,
                             uuid: string, others: seq<string>)
  {
    && db' == db.(users := db'.users, userAttributes := db'.userAttributes)
    && db'.users == db.users[id := UserRow(email, Lower(email), if displayName == Some("") then None else displayName,
                                           now, uuid, None, None, None)]
    && (first.Some? ==> StoredUserValue(db', id, "first_name", TextOf(first.value)))
    && (last.Some? ==> StoredUserValue(db', id, "last_name", TextOf(last.value)))
    && (photo.Some? ==> StoredUserValue(db', id, "avatar", PhotoOf(photo.value)))
    && (forall name: string ::
          AttributeKey(id, name) in db'.userAttributes <==>
            name in NewNames(first.Some?, last.Some?, photo.Some?, others))
    && (forall k: AttributeKey<string> :: k.owner != id ==>
          D.StoredAt(db'.userAttributes, k) == D.StoredAt(db.userAttributes, k))
  }

  lemma NamesOfNewRows(r: D.CreateUserRequest)
    requires D.CreateFits(r)
    ensures RowNames(D.NewUserRows(r)) ==
      NewNames(r.firstName.Some?, r.lastName.Some?, r.avatar.Some?, RowNames(r.attributes))
  {
    hide D.SerializedText, D.SerializedPhoto;
    var a := D.NewText(FIRST_NAME, r.firstName);
    var b := D.NewText(LAST_NAME, r.lastName);
    var c := D.NewPhoto(r.avatar);
    assert RowNames(a) == Listed(r.firstName.Some?, FIRST_NAME);
    assert RowNames(b) == Listed(r.lastName.Some?, LAST_NAME);
    assert RowNames(c) == Listed(r.avatar.Some?, AVATAR);
    RowNamesConcat(a, b);
    RowNamesConcat(a + b, c);
    RowNamesConcat(a + b + c, r.attributes);
  }

  lemma RowNamesConcat(a: seq<AttributeValue>, b: seq<AttributeValue>)
    ensures RowNames(a + b) == RowNames(a) + RowNames(b)
  {
  }

  lemma NoRowsYet(db: Db, id: string)
    requires Valid(db) && id !in db.users
    ensures forall name: string :: AttributeKey(id, name) !in db.userAttributes
  {
    hide ValidUsers, ValidGroups, ValidTypes, ValidSchema;
    forall name: string
      ensures AttributeKey(id, name) !in db.userAttributes
    {
      assert AttributeKey(id, name).owner == id;
    }
  }

  lemma EmailIsFree(db: Db, email: string, id: string)
    requires Valid(db)
    ensures D.EmailFree(db, email, id) <==>
      forall u :: u in db.users && u != id ==> Lower(db.users[u].email) != Lower(email)
  {
    hide ValidGroups, ValidTypes, ValidSchema, ValidReferences;
  }

  /** The insertion of a user succeeds exactly if everything about them is new and known. */
  lemma CreatesExactly(db: Db, r: D.CreateUserRequest, now: string, uuid: string)
    requires Valid(db)
    ensures D.CreateUser(db, r, now, uuid).Some? <==>
      FitText(r.firstName) && FitText(r.lastName) && FitPhoto(r.avatar) && IsNew(db, r.userId, r.email, uuid) &&
      var names := NewNames(r.firstName.Some?, r.lastName.Some?, r.avatar.Some?, RowNames(r.attributes));
      AllIn(names, db.userSchema) && NoneTwice(names)
  {
    hide Valid, D.InsertRows, D.NewUserRows, D.EmailFree, NewNames, NoneTwice;
    EmailIsFree(db, r.email, r.userId);
    if D.CreateFits(r) && r.userId !in db.users {
      var rows := D.NewUserRows(r);
      NamesOfNewRows(r);
      NoRowsYet(db, r.userId);
      InsertsExactly(db.userAttributes, r.userId, rows, db.userSchema.Keys);
      assert forall i :: 0 <= i < |rows| ==> RowNames(rows)[i] == rows[i].name;
      OthersKnown(r, db.userSchema);
    }
  }

  lemma OthersKnown(r: D.CreateUserRequest, schema: map<string, SchemaRow>)
    ensures AllIn(NewNames(r.firstName.Some?, r.lastName.Some?, r.avatar.Some?, RowNames(r.attributes)), schema) ==>
      D.KnownValues(r.attributes, schema)
  {
    var head := Listed(r.firstName.Some?, "first_name") + Listed(r.lastName.Some?, "last_name") +
      Listed(r.avatar.Some?, "avatar");
    var names := head + RowNames(r.attributes);
    assert names == NewNames(r.firstName.Some?, r.lastName.Some?, r.avatar.Some?, RowNames(r.attributes));
    assert forall i :: 0 <= i < |r.attributes| ==> names[|head| + i] == r.attributes[i].name;
  }

  /** Where each attribute of a new user comes from. */
  lemma CreatedRows(db: Db, r: D.CreateUserRequest, now: string, uuid: string, k: AttributeKey<string>)
    requires Valid(db) && D.CreateUser(db, r, now, uuid).Some?
    ensures D.CreateFits(r)
    ensures var table, rows := D.CreateUser(db, r, now, uuid).value.userAttributes, D.NewUserRows(r);
      if k.owner == r.userId then
        (k in table <==> k.name in RowNames(rows)) &&
        (forall i :: 0 <= i < |rows| && rows[i].name == k.name ==> D.StoredAt(table, k) == Some(rows[i].bytes))
      else D.StoredAt(table, k) == D.StoredAt(db.userAttributes, k)
  {
    hide Valid, D.InsertRows, D.NewUserRows, D.EmailFree;
    NoRowsYet(db, r.userId);
    InsertsAll(db.userAttributes, r.userId, D.NewUserRows(r), db.userSchema.Keys, k);
  }

  lemma CreatedIsStored(db: Db, r: D.CreateUserRequest, now: string, uuid: string)
    requires Valid(db) && D.CreateUser(db, r, now, uuid).Some?
    ensures var db' := D.CreateUser(db, r, now, uuid).value;
      && IsStoredAs(db, db', r.userId, r.email, r.displayName, r.firstName, r.lastName, r.avatar, now, uuid,
                    RowNames(r.attributes))
      && forall i :: 0 <= i < |r.attributes| ==>
           D.StoredAt(db'.userAttributes, AttributeKey(r.userId, r.attributes[i].name)) == Some(r.attributes[i].bytes)
  {
    hide Valid, D.InsertRows, D.NewUserRows, D.EmailFree, NewNames, D.StoredAt, RowNames, StoredUserValue;
    var db' := D.CreateUser(db, r, now, uuid).value;
    var rows := D.NewUserRows(r);
    NamesOfNewRows(r);
    NewRowsListed(r);
    BuiltinTypes(db);
    forall i | 0 <= i < |rows|
      ensures D.StoredAt(db'.userAttributes, AttributeKey(r.userId, rows[i].name)) == Some(rows[i].bytes)
    {
      CreatedRows(db, r, now, uuid, AttributeKey(r.userId, rows[i].name));
    }
    ValueStored(db', r.userId, rows, r);
    forall i | 0 <= i < |r.attributes|
      ensures D.StoredAt(db'.userAttributes, AttributeKey(r.userId, r.attributes[i].name)) ==
              Some(r.attributes[i].bytes)
    {
      assert r.attributes[i] in rows;
    }
    forall name: string
      ensures AttributeKey(r.userId, name) in db'.userAttributes <==> name in RowNames(rows)
    {
      CreatedRows(db, r, now, uuid, AttributeKey(r.userId, name));
    }
    forall k: AttributeKey<string> | k.owner != r.userId
      ensures D.StoredAt(db'.userAttributes, k) == D.StoredAt(db.userAttributes, k)
    {
      CreatedRows(db, r, now, uuid, k);
    }
  }

  /** The rows of a new user hold each of the given values. */
  lemma NewRowsListed(r: D.CreateUserRequest)
    requires D.CreateFits(r)
    ensures r.firstName.Some? ==> AttributeValue(FIRST_NAME, D.SerializedText(r.firstName.value)) in D.NewUserRows(r)
    ensures r.lastName.Some? ==> AttributeValue(LAST_NAME, D.SerializedText(r.lastName.value)) in D.NewUserRows(r)
    ensures r.avatar.Some? ==> AttributeValue(AVATAR, D.SerializedPhoto(r.avatar.value)) in D.NewUserRows(r)
    ensures forall a :: a in r.attributes ==> a in D.NewUserRows(r)
  {
    P.NewRowsMembers(r);
  }

  lemma BuiltinTypes(db: Db)
    requires Valid(db)
    ensures FIRST_NAME in db.userSchema && db.userSchema[FIRST_NAME] == HARDCODED_TEXT
    ensures LAST_NAME in db.userSchema && db.userSchema[LAST_NAME] == HARDCODED_TEXT
    ensures AVATAR in db.userSchema && db.userSchema[AVATAR] == HARDCODED_PHOTO
  {
  }

  lemma TextStored(db: Db, u: string, name: string, s: string)
    requires IsText(s) && name in db.userSchema && db.userSchema[name] == HARDCODED_TEXT
    ensures D.StoredAt(db.userAttributes, AttributeKey(u, name)) == Some(D.SerializedText(s)) <==>
      StoredUserValue(db, u, name, TextOf(s))
  {
    TextRoundTrip(s);
  }

  lemma PhotoStored(db: Db, u: string, b: seq<byte>)
    requires |b| < TWO_64 && AVATAR in db.userSchema && db.userSchema[AVATAR] == HARDCODED_PHOTO
    ensures D.StoredAt(db.userAttributes, AttributeKey(u, AVATAR)) == Some(D.SerializedPhoto(b)) <==>
      StoredUserValue(db, u, AVATAR, PhotoOf(b))
  {
  }

  lemma ValueStored(db': Db, u: string, rows: seq<AttributeValue>, r: D.CreateUserRequest)
    requires D.CreateFits(r) && rows == D.NewUserRows(r)
    requires FIRST_NAME in db'.userSchema && db'.userSchema[FIRST_NAME] == HARDCODED_TEXT
    requires LAST_NAME in db'.userSchema && db'.userSchema[LAST_NAME] == HARDCODED_TEXT
    requires AVATAR in db'.userSchema && db'.userSchema[AVATAR] == HARDCODED_PHOTO
    requires forall i :: 0 <= i < |rows| ==>
      D.StoredAt(db'.userAttributes, AttributeKey(u, rows[i].name)) == Some(rows[i].bytes)
    ensures r.firstName.Some? ==> StoredUserValue(db', u, "first_name", TextOf(r.firstName.value))
    ensures r.lastName.Some? ==> StoredUserValue(db', u, "last_name", TextOf(r.lastName.value))
    ensures r.avatar.Some? ==> StoredUserValue(db', u, "avatar", PhotoOf(r.avatar.value))
  {
    hide D.NewUserRows, D.SerializedText, D.SerializedPhoto, StoredUserValue, TextOf, PhotoOf;
    NewRowsListed(r);
    if r.firstName.Some? {
      TextStored(db', u, FIRST_NAME, r.firstName.value);
    }
    if r.lastName.Some? {
      TextStored(db', u, LAST_NAME, r.lastName.value);
    }
    if r.avatar.Some? {
      PhotoStored(db', u, r.avatar.value);
    }
  }

  // ----- Inputs become rows -----

  lemma InputsAreRows(env: M.Env, rows: map<string, SchemaRow>, builtin: seq<AttributeSchema>,
                      inputs: seq<M.AttributeInput>, isAdmin: bool)
    ensures var r := M.DeserializeAttributes(env.lib, rows, builtin, inputs, isAdmin);
      && (r.Some? <==> AllStand(env, rows, builtin, inputs, isAdmin))
      && (r.Some? ==> |r.value| == |inputs| && RowNames(r.value) == InputNames(inputs))
  {
    hide M.InputValue, WellTyped;
    var r := M.DeserializeAttributes(env.lib, rows, builtin, inputs, isAdmin);
    if r.Some? {
      M.DeserializedAreStored(env.lib, rows, builtin, inputs, isAdmin);
    }
  }

  /** Bytes in the stored form of an input are those of the value it stands for. */
  lemma FormIsValue(env: M.Env, rows: map<string, SchemaRow>, builtin: seq<AttributeSchema>, a: M.AttributeInput,
                    isAdmin: bool, stored: AttributeValue)
    requires M.IsStoredForm(env.lib, rows, builtin, a, isAdmin, stored) && stored.name in rows
    ensures stored.name == Lower(a.name)
    ensures var v, row := M.InputValue(env.lib, rows, builtin, a, isAdmin), rows[stored.name];
      v.Some? && HasType(v.value, row.typ, row.isList) && stored.bytes == Encode(v.value, row.typ, row.isList)
  {
    hide Encode, Decode, HasType, M.InputValue;
    var row := rows[stored.name];
    assert WellTyped(stored.bytes, row);
    var w :| HasType(w, row.typ, row.isList) && stored.bytes == Encode(w, row.typ, row.isList);
    RoundTrip(w, row.typ, row.isList, []);
    assert stored.bytes + [] == stored.bytes;
  }

  // ----- Creating users -----

  /** Each input reads back as the value it stands for. */
  ghost predicate InputsStored(env: M.Env, db: Db, u: string, inputs: seq<M.AttributeInput>, isAdmin: bool) {
    forall a :: a in inputs ==>
      var v := M.InputValue(env.lib, db.userSchema, BUILTIN_USER_ATTRIBUTES, a, isAdmin);
      v.Some? && StoredUserValue(db, u, Lower(a.name), v.value)
  }

  lemma RowsAreInputs(env: M.Env, db: Db, u: string, inputs: seq<M.AttributeInput>, rows: seq<AttributeValue>)
    requires M.DeserializeAttributes(env.lib, db.userSchema, BUILTIN_USER_ATTRIBUTES, inputs, true) == Some(rows)
    requires forall i :: 0 <= i < |rows| ==>
      rows[i].name in db.userSchema &&
        D.StoredAt(db.userAttributes, AttributeKey(u, rows[i].name)) == Some(rows[i].bytes)
    ensures InputsStored(env, db, u, inputs, true)
  {
    hide M.InputValue, M.IsStoredForm, Encode, HasType;
    InputsAreRows(env, db.userSchema, BUILTIN_USER_ATTRIBUTES, inputs, true);
    M.DeserializedAreStored(env.lib, db.userSchema, BUILTIN_USER_ATTRIBUTES, inputs, true);
    forall a | a in inputs
      ensures var v := M.InputValue(env.lib, db.userSchema, BUILTIN_USER_ATTRIBUTES, a, true);
        v.Some? && StoredUserValue(db, u, Lower(a.name), v.value)
    {
      var i :| 0 <= i < |inputs| && inputs[i] == a;
      FormIsValue(env, db.userSchema, BUILTIN_USER_ATTRIBUTES, a, true, rows[i]);
    }
  }

  /** The photo of a request, if it has one that decodes. */
  predicate PhotoDecodes(env: M.Env, avatar: Option<string>) {
    avatar.Some? ==> env.lib.photo(avatar.value).Some? && FitPhoto(env.lib.photo(avatar.value))
  }

  function PhotoOfRequest(env: M.Env, avatar: Option<string>): Option<seq<byte>> {
    if avatar.Some? then env.lib.photo(avatar.value) else None
  }

  /** Creating a user is accepted exactly from an administrator, for new ids, emails and
      UUIDs, with texts that can be stored, a photo that decodes, and attributes that stand
      for values and have known names, none of them twice. Then the user is stored as the
      request says, field by field. */
  lemma CreateUserExactly(env: M.Env, db: Db, actor: ValidationResults, now: string, m: M.Mutation)
    requires Valid(db) && m.CreateUser?
    ensures M.Step(env, db, actor, now, m).Some? <==>
      && actor.permission.Admin? && PhotoDecodes(env, m.avatar) && FitText(m.firstName) && FitText(m.lastName)
      && AllStand(env, db.userSchema, BUILTIN_USER_ATTRIBUTES, m.attributes, true)
      && IsNew(db, Lower(m.id), m.email, env.uuid(Lower(m.id), now))
      && var names := NewNames(m.firstName.Some?, m.lastName.Some?, m.avatar.Some?, InputNames(m.attributes));
      AllIn(names, db.userSchema) && NoneTwice(names)
    ensures M.Step(env, db, actor, now, m).Some? ==>
      var db' := M.Step(env, db, actor, now, m).value;
      && IsStoredAs(db, db', Lower(m.id), m.email, m.displayName, m.firstName, m.lastName,
                    PhotoOfRequest(env, m.avatar), now, env.uuid(Lower(m.id), now), InputNames(m.attributes))
      && InputsStored(env, db', Lower(m.id), m.attributes, true)
  {
    hide Valid, D.CreateUser, M.DeserializeAttributes, NewNames, NoneTwice, IsStoredAs, AllStand, IsNew, FitText, AllIn,
      InputsStored;
    InputsAreRows(env, db.userSchema, BUILTIN_USER_ATTRIBUTES, m.attributes, true);
    var rows := M.DeserializeAttributes(env.lib, db.userSchema, BUILTIN_USER_ATTRIBUTES, m.attributes, true);
    if actor.IsAdmin() && M.DecodePhoto(env.lib, m.avatar).Some? && rows.Some? {
      var id := Lower(m.id);
      var r := D.CreateUserRequest(id, m.email, m.displayName, m.firstName, m.lastName,
                                   PhotoOfRequest(env, m.avatar), rows.value);
      CreatesExactly(db, r, now, env.uuid(id, now));
      if D.CreateUser(db, r, now, env.uuid(id, now)).Some? {
        CreatedIsStored(db, r, now, env.uuid(id, now));
        InputsRead(env, db, r, m.attributes, now);
      }
    }
  }

  lemma InputsRead(env: M.Env, db: Db, r: D.CreateUserRequest, inputs: seq<M.AttributeInput>, now: string)
    requires Valid(db) && D.CreateUser(db, r, now, env.uuid(r.userId, now)).Some?
    requires M.DeserializeAttributes(env.lib, db.userSchema, BUILTIN_USER_ATTRIBUTES, inputs, true) ==
      Some(r.attributes)
    ensures InputsStored(env, D.CreateUser(db, r, now, env.uuid(r.userId, now)).value, r.userId, inputs, true)
  {
    hide Valid, M.DeserializeAttributes, InputsStored, D.NewUserRows, D.InsertRows, D.EmailFree, D.StoredAt;
    CreatedIsStored(db, r, now, env.uuid(r.userId, now));
    RowsAreInputs(env, D.CreateUser(db, r, now, env.uuid(r.userId, now)).value, r.userId, inputs, r.attributes);
  }

  // ----- The LDAP add -----

  /** Every attribute but the classes has one value. */
  predicate SingleValued(attributes: seq<M.LdapAttribute>) {
    forall i :: 0 <= i < |attributes| && Lower(attributes[i].name) != "objectclass" ==> |attributes[i].values| == 1
  }

  /** The value given last to a name other than that of the classes. */
  function LastGiven(attributes: seq<M.LdapAttribute>, name: string): Option<seq<byte>>
    requires SingleValued(attributes)
  {
    if attributes == [] || name == "objectclass" then None
    else
      var last := attributes[|attributes| - 1];
      if Lower(last.name) == name then Some(last.values[0]) else LastGiven(attributes[..|attributes| - 1], name)
  }

  lemma {:induction false} LastGivenCons(first: M.LdapAttribute, rest: seq<M.LdapAttribute>, name: string)
    requires SingleValued([first] + rest) && (Lower(first.name) != "objectclass" ==> |first.values| == 1)
    ensures SingleValued(rest)
    ensures LastGiven([first] + rest, name) ==
      if LastGiven(rest, name).Some? then LastGiven(rest, name)
      else if name != "objectclass" && Lower(first.name) == name then Some(first.values[0]) else None
    decreases |rest|
  {
    var all := [first] + rest;
    assert forall i :: 0 <= i < |rest| ==> rest[i] == all[i + 1];
    if rest == [] {
      assert all[..0] == [];
    } else {
      assert all[|all| - 1] == rest[|rest| - 1];
      assert all[..|all| - 1] == [first] + rest[..|rest| - 1];
      LastGivenCons(first, rest[..|rest| - 1], name);
    }
  }

  lemma SingleCons(attributes: seq<M.LdapAttribute>)
    requires attributes != []
    ensures SingleValued(attributes) <==>
      SingleValued(attributes[1..]) && (Lower(attributes[0].name) != "objectclass" ==> |attributes[0].values| == 1)
  {
    assert forall i :: 0 <= i < |attributes[1..]| ==> attributes[1..][i] == attributes[i + 1];
    assert forall i :: 0 < i < |attributes| ==> attributes[i] == attributes[1..][i - 1];
  }

  function Lookup(found: map<string, seq<byte>>, name: string): Option<seq<byte>> {
    if name in found then Some(found[name]) else None
  }

  /** Collecting succeeds exactly for single values, and keeps the last of each name. */
  lemma {:induction false} CollectsLast(attributes: seq<M.LdapAttribute>, found: map<string, seq<byte>>)
    requires "objectclass" !in found
    ensures M.CollectAttributes(attributes, found).Ok? <==> SingleValued(attributes)
    ensures SingleValued(attributes) ==>
      forall name :: Lookup(M.CollectAttributes(attributes, found).value, name) ==
        if LastGiven(attributes, name).Some? then LastGiven(attributes, name) else Lookup(found, name)
    decreases |attributes|
  {
    if attributes != [] {
      var a, rest := attributes[0], attributes[1..];
      SingleCons(attributes);
      assert attributes == [a] + rest;
      var next :=
        if Lower(a.name) == "objectclass" || |a.values| != 1 then found else found[Lower(a.name) := a.values[0]];
      CollectsLast(rest, next);
      if SingleValued(attributes) {
        forall name
          ensures Lookup(M.CollectAttributes(attributes, found).value, name) ==
                  if LastGiven(attributes, name).Some? then LastGiven(attributes, name) else Lookup(found, name)
        {
          LastGivenCons(a, rest, name);
        }
      }
    }
  }

  /** A text among the values, if it is one. */
  predicate TextGiven(attributes: seq<M.LdapAttribute>, name: string)
    requires SingleValued(attributes)
  {
    var b := LastGiven(attributes, name);
    b.Some? ==> IsTextBytes(b.value)
  }

  function GivenText(attributes: seq<M.LdapAttribute>, name: string): Option<string>
    requires SingleValued(attributes) && TextGiven(attributes, name)
  {
    var b := LastGiven(attributes, name);
    if b.Some? then Some(BytesText(b.value)) else None
  }

  /** The email is called "mail" or else "email". */
  function MailName(attributes: seq<M.LdapAttribute>): string
    requires SingleValued(attributes)
  {
    if LastGiven(attributes, "mail").Some? then "mail" else "email"
  }

  /** What can be read of the attributes: texts in the four names, and a photo or nothing in
      the avatar. */
  predicate IsReadable(env: M.Env, attributes: seq<M.LdapAttribute>) {
    && SingleValued(attributes)
    && TextGiven(attributes, MailName(attributes)) && TextGiven(attributes, "cn")
    && TextGiven(attributes, "givenname") && TextGiven(attributes, "sn")
    && (var photo := LastGiven(attributes, "avatar");
        photo.Some? && photo.value != [] ==> env.isJpeg(photo.value))
  }

  lemma TextIsGiven(attributes: seq<M.LdapAttribute>, found: map<string, seq<byte>>, name: string)
    requires SingleValued(attributes) && Lookup(found, name) == LastGiven(attributes, name)
    ensures M.TextAttribute(found, name).Ok? <==> TextGiven(attributes, name)
    ensures TextGiven(attributes, name) ==> M.TextAttribute(found, name).value == GivenText(attributes, name)
  {
  }

  /** The request made of an add: its fields come from these names and no others. */
  lemma AddRequestIs(env: M.Env, dn: string, attributes: seq<M.LdapAttribute>)
    ensures var r := M.AddRequest(env, dn, attributes);
      && (r.Ok? <==> GetUserId(dn, env.base).Ok? && IsReadable(env, attributes))
      && (r.Ok? ==>
            r.value == D.CreateUserRequest(
              Lower(GetUserId(dn, env.base).value), GivenText(attributes, MailName(attributes)).GetOr(""),
              GivenText(attributes, "cn"), GivenText(attributes, "givenname"), GivenText(attributes, "sn"),
              LastGiven(attributes, "avatar"), []))
  {
    hide GetIdFromDistinguishedName, M.CollectAttributes, M.TextAttribute, LastGiven, TextGiven, SingleValued;
    CollectsLast(attributes, map[]);
    var found := M.CollectAttributes(attributes, map[]);
    if found.Ok? {
      assert forall name :: Lookup(found.value, name) == LastGiven(attributes, name);
      TextIsGiven(attributes, found.value, MailName(attributes));
      TextIsGiven(attributes, found.value, "cn");
      TextIsGiven(attributes, found.value, "givenname");
      TextIsGiven(attributes, found.value, "sn");
      assert ("mail" in found.value) == Lookup(found.value, "mail").Some?;
      assert Lookup(found.value, "avatar") == LastGiven(attributes, "avatar");
    }
  }

  lemma BuiltinNamesFit(db: Db, first: bool, last: bool, photo: bool)
    requires Valid(db)
    ensures var names := NewNames(first, last, photo, []); AllIn(names, db.userSchema) && NoneTwice(names)
  {
    BuiltinTypes(db);
    NamesDiffer();
  }

  /** An LDAP add is accepted exactly from an administrator, with the name of a user and
      readable attributes, for a new id, email and UUID. Then the user is stored with the
      first name from "givenname", the last from "sn", the display name from "cn", and the
      email from "mail" or else "email". */
  lemma LdapAddExactly(env: M.Env, db: Db, actor: ValidationResults, now: string, m: M.Mutation)
    requires Valid(db) && m.LdapAdd?
    ensures M.Step(env, db, actor, now, m).Some? <==>
      && actor.permission.Admin? && GetUserId(m.dn, env.base).Ok? && IsReadable(env, m.ldapAttributes)
      && var id, given := Lower(GetUserId(m.dn, env.base).value), m.ldapAttributes;
      && FitText(GivenText(given, "givenname")) && FitText(GivenText(given, "sn")) &&
         FitPhoto(LastGiven(given, "avatar"))
      && IsNew(db, id, GivenText(given, MailName(given)).GetOr(""), env.uuid(id, now))
    ensures M.Step(env, db, actor, now, m).Some? ==>
      var id, given := Lower(GetUserId(m.dn, env.base).value), m.ldapAttributes;
      IsStoredAs(db, M.Step(env, db, actor, now, m).value, id, GivenText(given, MailName(given)).GetOr(""),
                 GivenText(given, "cn"), GivenText(given, "givenname"), GivenText(given, "sn"),
                 LastGiven(given, "avatar"), now, env.uuid(id, now), [])
  {
    hide Valid, D.CreateUser, M.AddRequest, NewNames, NoneTwice, IsStoredAs, IsNew, FitText, AllIn, IsReadable,
      GetIdFromDistinguishedName, GivenText, LastGiven, MailName, FitPhoto;
    AddRequestIs(env, m.dn, m.ldapAttributes);
    var request := M.AddRequest(env, m.dn, m.ldapAttributes);
    if request.Ok? {
      var r := request.value;
      assert RowNames(r.attributes) == [];
      CreatesExactly(db, r, now, env.uuid(r.userId, now));
      BuiltinNamesFit(db, r.firstName.Some?, r.lastName.Some?, r.avatar.Some?);
      if D.CreateUser(db, r, now, env.uuid(r.userId, now)).Some? {
        CreatedIsStored(db, r, now, env.uuid(r.userId, now));
      }
    }
  }

  // ----- Updating users -----

  /** The last input for a name. */
  function LastInput(inputs: seq<M.AttributeInput>, name: string): Option<M.AttributeInput> {
    if inputs == [] then None
    else
      var last := inputs[|inputs| - 1];
      if Lower(last.name) == name then Some(last) else LastInput(inputs[..|inputs| - 1], name)
  }

  lemma {:induction false} LastInputIsLastValue(inputs: seq<M.AttributeInput>, rows: seq<AttributeValue>, name: string)
    requires |rows| == |inputs| && forall i :: 0 <= i < |rows| ==> rows[i].name == Lower(inputs[i].name)
    ensures LastInput(inputs, name).Some? <==> D.LastValue(rows, name).Some?
    ensures LastInput(inputs, name).Some? ==>
      exists i :: 0 <= i < |rows| && inputs[i] == LastInput(inputs, name).value && rows[i].name == name &&
        D.LastValue(rows, name) == Some(rows[i].bytes)
    decreases |rows|
  {
    if inputs != [] {
      var n := |inputs| - 1;
      if Lower(inputs[n].name) != name {
        LastInputIsLastValue(inputs[..n], rows[..n], name);
        if LastInput(inputs, name).Some? {
          var i :| 0 <= i < n && inputs[..n][i] == LastInput(inputs[..n], name).value && rows[..n][i].name == name &&
            D.LastValue(rows[..n], name) == Some(rows[..n][i].bytes);
          assert inputs[i] == LastInput(inputs, name).value && D.LastValue(rows, name) == Some(rows[i].bytes);
        }
      }
    }
  }

  /** A text that a request puts in place of the old one; an empty one asks for removal. */
  predicate Puts(s: Option<string>) {
    s.Some? && s.value != ""
  }

  predicate PutsPhoto(b: Option<seq<byte>>) {
    b.Some? && b.value != []
  }

  function LowerNames(names: seq<string>): (r: seq<string>)
    ensures |r| == |names| && forall i :: 0 <= i < |r| ==> r[i] == Lower(names[i])
  {
    seq(|names|, i requires 0 <= i < |names| => Lower(names[i]))
  }

  /** The request removes the attribute, or empties it. */
  predicate Drops(m: M.Mutation, photo: Option<seq<byte>>, name: string)
    requires m.UpdateUser?
  {
    || name in LowerNames(m.removed)
    || (name == "first_name" && m.firstName == Some(""))
    || (name == "last_name" && m.lastName == Some(""))
    || (name == "avatar" && photo == Some([]))
  }

  /** An attribute after an update: the last value inserted for it, or else the text or
      photo that the request puts there, or else nothing if it is dropped, or else what it
      was. */
  ghost predicate IsUpdated(env: M.Env, db: Db, db': Db, m: M.Mutation, isAdmin: bool, name: string)
    requires m.UpdateUser?
  {
    var id, key, photo := Lower(m.id), AttributeKey(Lower(m.id), name), PhotoOfRequest(env, m.avatar);
    var inserted := LastInput(m.inserted, name);
    if inserted.Some? then
      var v := M.InputValue(env.lib, db.userSchema, BUILTIN_USER_ATTRIBUTES, inserted.value, isAdmin);
      v.Some? && StoredUserValue(db', id, name, v.value)
    else if name == "first_name" && Puts(m.firstName) then StoredUserValue(db', id, name, TextOf(m.firstName.value))
    else if name == "last_name" && Puts(m.lastName) then StoredUserValue(db', id, name, TextOf(m.lastName.value))
    else if name == "avatar" && PutsPhoto(photo) then StoredUserValue(db', id, name, PhotoOf(photo.value))
    else if Drops(m, photo, name) then key !in db'.userAttributes
    else D.StoredAt(db'.userAttributes, key) == D.StoredAt(db.userAttributes, key)
  }

  /** The columns after an update: a given email and display name, all else as before. */
  function UpdatedColumns(row: UserRow, email: Option<string>, displayName: Option<string>): UserRow {
    var row := if email.Some? then row.(email := email.value, lowercaseEmail := Lower(email.value)) else row;
    if displayName.None? then row
    else if displayName.value == "" then row.(displayName := None)
    else row.(displayName := displayName)
  }

  predicate EmailIsUnused(db: Db, email: string, id: string) {
    forall u :: u in db.users && u != id ==> Lower(db.users[u].email) != Lower(email)
  }

  /** The row of an update to the database. */
  function UpdateOf(env: M.Env, m: M.Mutation, rows: seq<AttributeValue>): D.UpdateUserRequest
    requires m.UpdateUser?
  {
    D.UpdateUserRequest(Lower(m.id), m.newEmail, m.displayName, m.firstName, m.lastName, PhotoOfRequest(env, m.avatar),
                        M.LowerAll(m.removed), rows)
  }

  lemma UpdatesExactly(env: M.Env, db: Db, m: M.Mutation, rows: seq<AttributeValue>)
    requires Valid(db) && m.UpdateUser?
    ensures D.UpdateUser(db, UpdateOf(env, m, rows)).Some? <==>
      && FitText(m.firstName) && FitText(m.lastName) && FitPhoto(PhotoOfRequest(env, m.avatar))
      && AllIn(RowNames(rows), db.userSchema) && AllIn(LowerNames(m.removed), db.userSchema)
      && Lower(m.id) in db.users && (m.newEmail.Some? ==> EmailIsUnused(db, m.newEmail.value, Lower(m.id)))
  {
    hide Valid, D.EmailFree, D.KnownValues, D.UpdatedRows, AllIn;
    var r := UpdateOf(env, m, rows);
    BuiltinTypes(db);
    if m.newEmail.Some? {
      EmailIsFree(db, m.newEmail.value, Lower(m.id));
    }
    RemovedKnown(m.removed, db.userSchema);
    if D.UpdateFits(r) {
      UpdatedKnown(db, r);
    }
  }

  lemma RemovedKnown(names: seq<string>, schema: map<string, SchemaRow>)
    ensures D.KnownNames(M.LowerAll(names), schema) <==> AllIn(LowerNames(names), schema)
  {
  }

  lemma KnownAreIn(rows: seq<AttributeValue>, schema: map<string, SchemaRow>)
    ensures D.KnownValues(rows, schema) <==> AllIn(RowNames(rows), schema)
  {
    assert forall i :: 0 <= i < |rows| ==> RowNames(rows)[i] == rows[i].name;
  }

  lemma KnownConcat(a: seq<AttributeValue>, b: seq<AttributeValue>, schema: map<string, SchemaRow>)
    ensures D.KnownValues(a + b, schema) <==> D.KnownValues(a, schema) && D.KnownValues(b, schema)
  {
    var all := a + b;
    assert forall i :: 0 <= i < |a| ==> all[i] == a[i];
    assert forall i :: 0 <= i < |b| ==> all[|a| + i] == b[i];
  }

  lemma UpdatedKnown(db: Db, r: D.UpdateUserRequest)
    requires D.UpdateFits(r) && FIRST_NAME in db.userSchema && LAST_NAME in db.userSchema && AVATAR in db.userSchema
    ensures D.KnownValues(D.UpdatedRows(r), db.userSchema) <==> AllIn(RowNames(r.insertAttributes), db.userSchema)
  {
    hide D.KnownValues, D.ChangedBuiltins, AllIn;
    BuiltinsKnown(db, r);
    KnownConcat(D.ChangedBuiltins(r), r.insertAttributes, db.userSchema);
    KnownAreIn(r.insertAttributes, db.userSchema);
  }

  lemma BuiltinsKnown(db: Db, r: D.UpdateUserRequest)
    requires D.UpdateFits(r) && FIRST_NAME in db.userSchema && LAST_NAME in db.userSchema && AVATAR in db.userSchema
    ensures D.KnownValues(D.ChangedBuiltins(r), db.userSchema)
  {
    hide D.SerializedText, D.SerializedPhoto;
  }

  lemma DroppedNames(env: M.Env, m: M.Mutation, rows: seq<AttributeValue>, name: string)
    requires m.UpdateUser?
    ensures name in D.RemovedNames(UpdateOf(env, m, rows)) <==> Drops(m, PhotoOfRequest(env, m.avatar), name)
  {
    assert M.LowerAll(m.removed) == LowerNames(m.removed);
    var r := UpdateOf(env, m, rows);
    var a, b, c :=
      D.RemovedText(FIRST_NAME, m.firstName), D.RemovedText(LAST_NAME, m.lastName), D.RemovedPhoto(r.avatar);
    assert D.RemovedNames(r) == a + b + c + M.LowerAll(m.removed);
  }

  /** What each attribute of the user is after the update, row by row. */
  lemma AttributesUpdated(env: M.Env, db: Db, m: M.Mutation, rows: seq<AttributeValue>, name: string)
    requires Valid(db) && m.UpdateUser? && D.UpdateUser(db, UpdateOf(env, m, rows)).Some?
    ensures D.UpdateFits(UpdateOf(env, m, rows))
    ensures var table := D.UpdateUser(db, UpdateOf(env, m, rows)).value.userAttributes;
      var key, photo := AttributeKey(Lower(m.id), name), PhotoOfRequest(env, m.avatar);
      D.StoredAt(table, key) ==
        if D.LastValue(rows, name).Some? then D.LastValue(rows, name)
        else if name == "first_name" && Puts(m.firstName) then Some(D.SerializedText(m.firstName.value))
        else if name == "last_name" && Puts(m.lastName) then Some(D.SerializedText(m.lastName.value))
        else if name == "avatar" && PutsPhoto(photo) then Some(D.SerializedPhoto(photo.value))
        else if Drops(m, photo, name) then None
        else D.StoredAt(db.userAttributes, key)
  {
    hide Valid, D.SerializedText, D.SerializedPhoto, D.LastValue, D.ChangedText, D.ChangedPhoto, D.ChangedBuiltins,
      D.RemovedNames, D.UpdateUser, Drops;
    var r := UpdateOf(env, m, rows);
    NamesDiffer();
    D.UpdateUserAttributes(db, r, AttributeKey(Lower(m.id), name));
    P.LastValueConcat(D.ChangedBuiltins(r), rows, name);
    P.LastOfBuiltins(r, name);
    P.LastOfText(FIRST_NAME, r.firstName, name);
    P.LastOfText(LAST_NAME, r.lastName, name);
    P.LastOfPhoto(r.avatar, name);
    DroppedNames(env, m, rows, name);
  }

  /** The request and what came of it. */
  lemma AttributeIsUpdated(env: M.Env, db: Db, m: M.Mutation, isAdmin: bool, rows: seq<AttributeValue>, name: string)
    requires Valid(db) && m.UpdateUser? && D.UpdateUser(db, UpdateOf(env, m, rows)).Some?
    requires M.DeserializeAttributes(env.lib, db.userSchema, BUILTIN_USER_ATTRIBUTES, m.inserted, isAdmin) == Some(rows)
    ensures IsUpdated(env, db, D.UpdateUser(db, UpdateOf(env, m, rows)).value, m, isAdmin, name)
  {
    hide Valid, D.UpdateUser, M.DeserializeAttributes, D.SerializedText, D.SerializedPhoto, D.LastValue, LastInput,
      Drops,
      Encode, HasType, TextOf, PhotoOf, M.IsStoredForm, M.InputValue;
    var db' := D.UpdateUser(db, UpdateOf(env, m, rows)).value;
    BuiltinTypes(db);
    SchemaStays(db, UpdateOf(env, m, rows));
    InputsAreRows(env, db.userSchema, BUILTIN_USER_ATTRIBUTES, m.inserted, isAdmin);
    M.DeserializedAreStored(env.lib, db.userSchema, BUILTIN_USER_ATTRIBUTES, m.inserted, isAdmin);
    NamesOfForms(env, db, m.inserted, isAdmin, rows);
    LastInputIsLastValue(m.inserted, rows, name);
    AttributesUpdated(env, db, m, rows, name);
    UpdatesExactly(env, db, m, rows);
    if LastInput(m.inserted, name).Some? {
      var i :| 0 <= i < |rows| && m.inserted[i] == LastInput(m.inserted, name).value && rows[i].name == name &&
        D.LastValue(rows, name) == Some(rows[i].bytes);
      assert RowNames(rows)[i] in db.userSchema;
      FormIsValue(env, db.userSchema, BUILTIN_USER_ATTRIBUTES, m.inserted[i], isAdmin, rows[i]);
    } else if name == "first_name" && Puts(m.firstName) {
      TextStored(db', Lower(m.id), FIRST_NAME, m.firstName.value);
    } else if name == "last_name" && Puts(m.lastName) {
      TextStored(db', Lower(m.id), LAST_NAME, m.lastName.value);
    } else if name == "avatar" && PutsPhoto(PhotoOfRequest(env, m.avatar)) {
      PhotoStored(db', Lower(m.id), PhotoOfRequest(env, m.avatar).value);
    }
  }

  lemma NamesOfForms(env: M.Env, db: Db, inputs: seq<M.AttributeInput>, isAdmin: bool, rows: seq<AttributeValue>)
    requires |rows| == |inputs| && RowNames(rows) == InputNames(inputs)
    ensures forall i :: 0 <= i < |rows| ==> rows[i].name == Lower(inputs[i].name)
  {
    assert forall i :: 0 <= i < |rows| ==> RowNames(rows)[i] == rows[i].name;
  }

  lemma SchemaStays(db: Db, r: D.UpdateUserRequest)
    requires D.UpdateUser(db, r).Some?
    ensures var db' := D.UpdateUser(db, r).value;
      && db' == db.(users := db'.users, userAttributes := db'.userAttributes)
      && r.userId in db.users
      && db'.users == db.users[r.userId := UpdatedColumns(db.users[r.userId], r.email, r.displayName)]
      && forall k: AttributeKey<string> :: k.owner != r.userId ==>
           D.StoredAt(db'.userAttributes, k) == D.StoredAt(db.userAttributes, k)
  {
    hide D.UpsertRows, D.RemoveRows, D.UpdatedRows, D.RemovedNames, D.KnownValues, D.KnownNames, D.EmailFree;
    forall k: AttributeKey<string> | k.owner != r.userId
      ensures D.StoredAt(D.UpdateUser(db, r).value.userAttributes, k) == D.StoredAt(db.userAttributes, k)
    {
      D.UpdateUserAttributes(db, r, k);
    }
  }

  /** An update of a user is accepted exactly from themselves or an administrator, for an
      existing user, with an email that no other has, texts that can be stored, a photo that
      decodes, and known attributes that stand for values and, unless an administrator
      inserts them, are editable. Then the columns and each attribute are as asked for, and
      all else is as before. */
  lemma UpdateUserExactly(env: M.Env, db: Db, actor: ValidationResults, now: string, m: M.Mutation)
    requires Valid(db) && m.UpdateUser?
    ensures M.Step(env, db, actor, now, m).Some? <==>
      && (actor.permission.Admin? || actor.user == Lower(m.id))
      && PhotoDecodes(env, m.avatar) && FitText(m.firstName) && FitText(m.lastName)
      && AllStand(env, db.userSchema, BUILTIN_USER_ATTRIBUTES, m.inserted, actor.permission.Admin?)
      && AllIn(InputNames(m.inserted), db.userSchema) && AllIn(LowerNames(m.removed), db.userSchema)
      && Lower(m.id) in db.users && (m.newEmail.Some? ==> EmailIsUnused(db, m.newEmail.value, Lower(m.id)))
    ensures M.Step(env, db, actor, now, m).Some? ==>
      var db', id := M.Step(env, db, actor, now, m).value, Lower(m.id);
      && db' == db.(users := db'.users, userAttributes := db'.userAttributes)
      && db'.users == db.users[id := UpdatedColumns(db.users[id], m.newEmail, m.displayName)]
      && (forall name :: IsUpdated(env, db, db', m, actor.permission.Admin?, name))
      && (forall k: AttributeKey<string> :: k.owner != id ==>
            D.StoredAt(db'.userAttributes, k) == D.StoredAt(db.userAttributes, k))
  {
    hide Valid, D.UpdateUser, M.DeserializeAttributes, AllStand, FitText, AllIn, IsUpdated, EmailIsUnused,
      UpdatedColumns,
      D.StoredAt;
    InputsAreRows(env, db.userSchema, BUILTIN_USER_ATTRIBUTES, m.inserted, actor.IsAdmin());
    var rows := M.DeserializeAttributes(env.lib, db.userSchema, BUILTIN_USER_ATTRIBUTES, m.inserted, actor.IsAdmin());
    if actor.CanWrite(Lower(m.id)) && M.DecodePhoto(env.lib, m.avatar).Some? && rows.Some? {
      UpdatesExactly(env, db, m, rows.value);
      if D.UpdateUser(db, UpdateOf(env, m, rows.value)).Some? {
        SchemaStays(db, UpdateOf(env, m, rows.value));
        forall name
          ensures IsUpdated(env, db, D.UpdateUser(db, UpdateOf(env, m, rows.value)).value, m, actor.IsAdmin(), name)
        {
          AttributeIsUpdated(env, db, m, actor.IsAdmin(), rows.value, name);
        }
      }
    }
  }
}
