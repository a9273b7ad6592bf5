/** Inputs at which the server does not do what one would expect. */
module Counterexamples {
  import opened Wrappers
  import opened Text
  import opened Codec
  import opened Schema
  import opened Like
  import opened Database
  import opened AccessControl
  import opened Sql
  import opened DistinguishedName
  import opened LdapFilters
  import opened Listing
  import opened Search
  import opened SearchProperties
  import opened MatchingRules
  import opened StandardUsers
  import opened StandardGroups
  import L = Ldap
  import D = Directory
  import I = Invariants
  import M = Mutations
  import S = LdapSession

  // ----- Display names and presence -----

  const BOB_ROW := UserRow("", "", Some("Bob"), "", "", None, None, None)

  /** One user, with an upper-case letter in the display name and without a photo. */
  const BOB: Db := EMPTY_DB.(users := map["b" := BOB_ROW])

  lemma BobIsValid()
    ensures Valid(BOB)
  {
    EmptyDbValid();
    assert IsLower("b");
    assert Lower("") == "";
    I.SameSchema(EMPTY_DB, BOB);
    I.SameGroups(EMPTY_DB, BOB);
    hide ValidSchema, ValidGroups;
    assert ValidUsers(BOB) && ValidReferences(BOB);
  }

  lemma BobFields(schema: Schema)
    ensures MapUserField(Lower("cn"), schema) == UserPrimary(UserDisplayName)
    ensures MapUserField(Lower("avatar"), schema) == UserAttribute(AVATAR, JpegPhoto, false)
  {
    NameField(schema);
    assert Lower("avatar") == "avatar";
  }

  lemma BobLowered()
    ensures Lower("Bob") == "bob" && "bob" != "Bob"
  {
    assert Lower("Bob") == "bob";
    assert "bob"[0] != "Bob"[0];
  }

  /** Looking for Bob by display name does not find him, looking for all others does;
      by the standard it is the other way round. */
  lemma BobIsMissed(info: LdapInfo, lib: Parsers)
    ensures Valid(BOB)
    ensures var schema := ViewerSchema(BOB, false);
      var test := L.Equality("cn", "Bob");
      && ConvertUserFilter(info, lib, schema, test).Ok? && ConvertUserFilter(info, lib, schema, L.Not(test)).Ok?
      && LdapUserMeaning(info, lib, schema, BOB, "b", test) == False
      && StandardUserMeaning(info, lib, schema, BOB, "b", test) == True
      && LdapUserMeaning(info, lib, schema, BOB, "b", L.Not(test)) == True
      && StandardUserMeaning(info, lib, schema, BOB, "b", L.Not(test)) == False
  {
    hide ViewerSchema, MapUserField, ShownUser, Valid;
    BobIsValid();
    BobShows(info, ViewerSchema(BOB, false));
    BobLowered();
    assert Plain("Bob") in ShownUser(info, ViewerSchema(BOB, false), BOB, "b", "cn");
  }

  lemma BobShows(info: LdapInfo, schema: Schema)
    ensures MapUserField(Lower("cn"), schema) == UserPrimary(UserDisplayName)
    ensures BOB.users["b"] == BOB_ROW && ShownUser(info, schema, BOB, "b", "cn") == [Plain("Bob")]
  {
    hide MapUserField, ShownUser;
    BobFields(schema);
    ShownColumn(info, schema, BOB, "b", "cn", UserDisplayName);
  }

  /** Looking for users with a photo finds one who has none. */
  lemma UnsetPhotoIsFound(info: LdapInfo, lib: Parsers)
    ensures var schema := ViewerSchema(BOB, false);
      var test := L.Present("avatar");
      && ConvertUserFilter(info, lib, schema, test).Ok?
      && LdapUserMeaning(info, lib, schema, BOB, "b", test) == True
      && StandardUserMeaning(info, lib, schema, BOB, "b", test) == False
  {
    hide ViewerSchema, MapUserField, GetAttributeSchema, Decode;
    var schema := ViewerSchema(BOB, false);
    BobFields(schema);
    assert UserAttributeNames(BOB, "b") == {};
    assert UserAttributesOf(BOB, "b") == [];
    assert FullUser(BOB, "b").attributes == [];
  }

  // ----- Substrings -----

  /** A percent sign in a substring test matches anything. */
  lemma PercentMatchesAll(info: LdapInfo, lib: Parsers)
    ensures var schema := ViewerSchema(BOB, false);
      var test := L.Substring("cn", SubStringFilter(Some("%"), [], None));
      && ConvertUserFilter(info, lib, schema, test).Ok?
      && LdapUserMeaning(info, lib, schema, BOB, "b", test) == True
      && StandardUserMeaning(info, lib, schema, BOB, "b", test) == False
  {
    hide ViewerSchema, MapUserField, ShownUser;
    BobShows(info, ViewerSchema(BOB, false));
    BobLowered();
    assert Lower("%") == "%" && Lower("") == "";
    var pattern := SqlPattern(SubStringFilter(Some("%"), [], None));
    assert pattern == "%%";
    assert Matches("", "") && Matches("%", "") && Matches("%%", "");
    assert Matches("%%", "b") && Matches("%%", "ob") && Matches("%%", "bob");
  }

  // ----- Classes and members -----

  const A_ROW := UserRow("x", "x", None, "", "x", None, None, None)
  const B_ROW := UserRow("y", "y", None, "", "y", None, None, None)
  const G_ROW := GroupRow("g", "g", "", "")

  /** Two users in one group. */
  const TEAM: Db := EMPTY_DB.(
    users := map["a" := A_ROW, "b" := B_ROW],
    groups := map[1 := G_ROW],
    memberships := {Membership("a", 1), Membership("b", 1)},
    nextGroupId := 2)

  lemma NamesOfTeam()
    ensures "a" != "b" && "x" != "y" && CleanName("a") && CleanName("b")
    ensures IsLower("a") && IsLower("b") && IsLower("x") && IsLower("y") && IsLower("g")
  {
    assert "a"[0] != "b"[0] && "x"[0] != "y"[0];
  }

  lemma TeamTables()
    ensures ValidUsers(TEAM) && ValidGroups(TEAM) && ValidReferences(TEAM)
  {
    hide IsLower, CleanName;
    NamesOfTeam();
    LowerTexts();
    assert TEAM.users["a"] == A_ROW && TEAM.users["b"] == B_ROW && TEAM.groups[1] == G_ROW;
  }

  lemma LowerTexts()
    ensures Lower("x") == "x" && Lower("y") == "y" && Lower("g") == "g"
  {
  }

  lemma TeamIsValid()
    ensures Valid(TEAM)
  {
    hide ValidUsers, ValidGroups, ValidSchema;
    EmptyDbValid();
    TeamTables();
    I.SameSchema(EMPTY_DB, TEAM);
  }

  /** A search for groups of the class "groupOfNames" finds one that does not show it. */
  lemma HiddenClassIsFound(info: LdapInfo, lib: Parsers, uuids: UuidParser)
    ensures Valid(TEAM)
    ensures var test := L.Equality("objectclass", "groupOfNames");
      && GroupFilterConverts(info, lib, uuids, TEAM, None, test)
      && LdapGroupMeaning(info, lib, uuids, ViewerSchema(TEAM, false), TEAM, 1, test) == True
      && StandardGroupMeaning(info, lib, uuids, TEAM, None, 1, test) == False
  {
    hide ShownGroup, HasClass, SomeMatch, Valid;
    TeamIsValid();
    var value := "groupOfNames";
    assert Lower("objectclass") == "objectclass" && Lower(value) == "groupofnames";
    assert ViewerSchema(TEAM, false).extraGroupClasses == [];
    assert !HasClass([], value) by { NoClasses(value); }
    GroupClassExactly(info, lib, uuids, TEAM, None, 1, "objectclass", value, true);
  }

  lemma NoClasses(value: string)
    ensures !HasClass([], value)
  {
  }

  lemma TeamShows(info: LdapInfo)
    ensures MapGroupField(Lower("member"), ViewerSchema(TEAM, true)) == GroupMember
    ensures ShownGroup(info, TEAM, Some("b"), 1, "member") == [Plain(UserDn("b", info.baseStr))]
  {
    hide ViewerSchema, UserDn, GetGroupAttribute;
    assert Lower("member") == "member";
    RegularUserMembers(TEAM, 1, "b", "member", info, ViewerSchema(TEAM, true));
  }

  /** A regular user finds a group by a member whom the entry does not show to them. */
  lemma HiddenMemberIsFound(info: LdapInfo, lib: Parsers, uuids: UuidParser)
    requires ValidInfo(info)
    ensures Valid(TEAM)
    ensures var test := L.Equality("member", UserDn("a", info.baseStr));
      && GroupFilterConverts(info, lib, uuids, TEAM, Some("b"), test)
      && LdapGroupMeaning(info, lib, uuids, ViewerSchema(TEAM, true), TEAM, 1, test) == True
      && StandardGroupMeaning(info, lib, uuids, TEAM, Some("b"), 1, test) == False
      && ShownGroup(info, TEAM, Some("b"), 1, "member") == [Plain(UserDn("b", info.baseStr))]
  {
    hide ShownGroup, SomeMatch, Valid, ViewerSchema, ValidInfo, CleanName, GetIdFromDistinguishedName,
      ParseDistinguishedName, SameDn, UserDn;
    TeamIsValid();
    NamesOfTeam();
    var value := UserDn("a", info.baseStr);
    assert Lower("member") == "member" && Lower("a") == "a";
    OwnNameHasId(info, "a");
    MemberMatches(info, lib, uuids, TEAM, Some("b"), 1, "member", value);
    TeamShows(info);
    assert forall u: string :: ShownMember(TEAM, Some("b"), 1, u) ==> u == "b";
  }

  // ----- Names with upper-case letters -----

  lemma UpperCase()
    ensures !IsLower("UID=b")
  {
    assert Lower("UID=b")[0] == 'u';
  }

  /** Whoever adds a user or changes a password by a name that is not in lower case
      makes the server panic. */
  lemma UpperCasePanics(env: S.Env, db: Db, viewer: ValidationResults, changes: seq<S.Change>, password: seq<byte>)
    requires ValidInfo(env.info) && LowerPairs(env.directory.base)
    ensures M.AddRequest(env.directory, "UID=b", []).Panic?
    ensures S.ModifyStep(env, db, Some(viewer), "UID=b", changes).1.Panic?
    ensures S.ChangePasswordStep(env, db, Some(viewer), Some("UID=b"), Some(password)).1.Panic?
  {
    hide ValidInfo, LowerPairs, IsLower, M.AddRequest, S.ModifyStep, S.ChangePasswordStep;
    UpperCase();
    M.AddPanicsExactly(env.directory, "UID=b", []);
    S.TargetPanicsExactly(env, db, Some(viewer), "UID=b", changes, Some("UID=b"), Some(password));
  }

  // ----- Attributes that a regular user may not edit -----

  const BADGE_ROW := SchemaRow(Integer, false, true, false, false)

  /** Bob has a badge number that only administrators may set. */
  function WithBadge(): Db {
    BOB.(userSchema := BOB.userSchema["badge" := BADGE_ROW],
         userAttributes := map[AttributeKey("b", "badge") := Encode(One(Int64(7)), Integer, false)])
  }

  lemma BadgeSchema()
    ensures ValidSchema(WithBadge())
  {
    EmptyDbValid();
    assert IsLower("badge");
    assert "badge"[0] != FIRST_NAME[0] && "badge"[0] != LAST_NAME[0] && "badge"[0] != AVATAR[0];
  }

  lemma BadgeIsValid()
    ensures Valid(WithBadge())
  {
    BobIsValid();
    BadgeSchema();
    var db := WithBadge();
    I.SameUsers(BOB, db);
    I.SameGroups(BOB, db);
    assert HasType(One(Int64(7)), Integer, false);
    hide ValidUsers, ValidGroups, ValidSchema;
    assert ValidReferences(db);
    assert WellTyped(db.userAttributes[AttributeKey("b", "badge")], BADGE_ROW);
  }

  /** He may not set it, but he may remove it. */
  lemma BadgeIsRemoved(env: M.Env, now: string, value: seq<string>)
    ensures Valid(WithBadge())
    ensures var bob := ValidationResults("b", Regular);
      && M.Step(env, WithBadge(), bob, now,
                M.UpdateUser("b", None, None, None, None, None, [], [M.AttributeInput("badge", value)])).None?
      && var r := M.Step(env, WithBadge(), bob, now, M.UpdateUser("b", None, None, None, None, None, ["badge"], []));
      && r.Some? && AttributeKey("b", "badge") !in r.value.userAttributes
  {
    BadgeIsValid();
    hide Valid, M.InputValue, WellTyped;
    assert Lower("b") == "b" && Lower("badge") == "badge";
    var db, bob := WithBadge(), ValidationResults("b", Regular);
    assert db.userSchema["badge"] == BADGE_ROW;
    var inputs := [M.AttributeInput("badge", value)];
    assert M.DeserializeAttribute(env.lib, db.userSchema, BUILTIN_USER_ATTRIBUTES, inputs[0], false).None?;
    assert M.DeserializeAttributes(env.lib, db.userSchema, BUILTIN_USER_ATTRIBUTES, inputs, false).None?;
    var removed := M.LowerAll(["badge"]);
    assert removed == ["badge"];
    var request := D.UpdateUserRequest("b", None, None, None, None, None, removed, []);
    assert D.RemovedNames(request) == removed && D.UpdatedRows(request) == [];
    assert D.KnownNames(removed, db.userSchema);
    assert D.UpdateUser(db, request).Some?;
    D.UpdateUserAttributes(db, request, AttributeKey("b", "badge"));
  }

  // ----- The built-in group id -----

  const HIDDEN_TEXT := SchemaRow(String, false, false, true, false)

  /** A hidden text attribute called like the built-in number. */
  const SHADOWED: Db := EMPTY_DB.(groupSchema := map["group_id" := HIDDEN_TEXT])

  /** A regular viewer takes it for a number. */
  lemma TextTakenForNumber()
    ensures MapGroupField("group_id", ViewerSchema(SHADOWED, true)) == GroupAttribute("group_id", Integer, false)
    ensures !GroupSchemaFits(SHADOWED, ViewerSchema(SHADOWED, true))
  {
    hide GroupAlias, ViewerSchema, GetAttributeSchema, BuiltinGroupRow, GroupSchemaFits;
    GroupIdIsNoAlias();
    ViewerGroupLookup(SHADOWED, true, "group_id");
    assert SHADOWED.groupSchema["group_id"] == HIDDEN_TEXT;
    ViewerGroupSchemaFits(SHADOWED, true);
  }
}
