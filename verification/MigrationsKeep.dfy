/** Each migration keeps the data and the constraints, and fails only if the data
    cannot meet a new constraint. */
module MigrationsKeep {
  import opened Wrappers
  import opened Text
  import opened Codec
  import opened Schema
  import opened Database
  import opened SchemaTables
  import opened Migrations
  import opened Invariants
  import D = Directory

  lemma UniqueSame<T(!new)>(t: Table<T>, t': Table<T>, c: Column)
    requires t.rows.Keys == t'.rows.Keys
    requires forall k :: k in t.rows ==> Get(t.rows[k], c) == Get(t'.rows[k], c)
    ensures UniqueColumn(t, c) <==> UniqueColumn(t', c)
  {
  }

  lemma SetColumns(row: Row, c: Column, cell: Cell)
    requires c in row
    ensures row[c := cell].Keys == row.Keys
    ensures forall d :: Get(row[c := cell], d) == if d == c then cell else Get(row, d)
  {
    assert row[c := cell].Keys == row.Keys + {c} == row.Keys;
    forall d
      ensures Get(row[c := cell], d) == if d == c then cell else Get(row, d)
    {
    }
  }

  /** The two forms of a replacement that occur. */
  lemma ReplacedRows<T(!new)>(t: Table<T>, c: Column, drop: bool)
    requires HasItsColumns(t) && c in t.columns && TempName !in t.columns
    ensures var r := Replaced(t, c, if drop then [EmptyToNull] else []);
      && r.Some? && r.value.columns == t.columns && r.value.rows.Keys == t.rows.Keys && HasItsColumns(r.value)
      && forall k :: k in t.rows ==>
           r.value.rows[k] == t.rows[k][c := if drop then EmptyToNull(Get(t.rows[k], c)) else Get(t.rows[k], c)]
  {
    var updates := if drop then [EmptyToNull] else [];
    forall k | k in t.rows
      ensures ApplyAll(updates, Get(t.rows[k], c)) == if drop then EmptyToNull(Get(t.rows[k], c)) else Get(t.rows[k], c)
    {
      assert updates[..0] == [];
    }
    var r := Replaced(t, c, updates).value;
    forall k | k in t.rows
      ensures r.rows[k].Keys == t.columns
    {
      SetColumns(t.rows[k], c, r.rows[k][c]);
    }
  }

  // ----- Versions 2 and 3 -----

  /** Emptying a name changes neither the data nor the indexed columns. */
  lemma EmptiedName(version: int, s: Store, u: string, row: Row, c: Column)
    requires (c == DisplayName && version == 2) || (c in {FirstName, LastName} && version == 3)
    requires s.attributes.None? && UserRowFits(version - 1, row)
    ensures var row' := row[c := EmptyToNull(Get(row, c))];
      && UserRowFits(2, row')
      && LogicalUserOf(s, u, row') == LogicalUserOf(s, u, row)
      && Get(row', Email) == Get(row, Email) && Get(row', Uuid) == Get(row, Uuid)
  {
    SetColumns(row, c, EmptyToNull(Get(row, c)));
  }

  /** Replacing one column keeps the store as it is, up to that column. */
  lemma ReplacedStore(s: Store, c: Column, drop: bool, version: int)
    requires HasItsColumns(s.users) && c in s.users.columns && TempName !in s.users.columns && s.attributes.None?
    requires (c == DisplayName && version == 2) || (c in {FirstName, LastName} && version == 3) ||
      (c == Avatar && version == 3 && !drop)
    requires drop || c == Avatar
    requires forall u :: u in s.users.rows ==> UserRowFits(version - 1, s.users.rows[u])
    ensures var r := Replaced(s.users, c, if drop then [EmptyToNull] else []);
      && r.Some? && r.value.columns == s.users.columns && r.value.rows.Keys == s.users.rows.Keys &&
         HasItsColumns(r.value)
      && (forall u :: u in s.users.rows ==> UserRowFits(2, r.value.rows[u]))
      && (forall u :: u in s.users.rows ==>
            r.value.rows[u] ==
              s.users.rows[u][c := if drop then EmptyToNull(Get(s.users.rows[u], c)) else Get(s.users.rows[u], c)])
      && LogicalOf(s.(users := r.value)) == LogicalOf(s)
  {
    hide UserRowFits, LogicalUserOf, LogicalOf, OtherAttributes, Replaced, EmptyToNull;
    ReplacedRows(s.users, c, drop);
    var t := Replaced(s.users, c, if drop then [EmptyToNull] else []).value;
    forall u | u in s.users.rows
      ensures UserRowFits(2, t.rows[u]) && LogicalUserOf(s, u, t.rows[u]) == LogicalUserOf(s, u, s.users.rows[u])
    {
      if drop {
        EmptiedName(version, s, u, s.users.rows[u], c);
      } else {
        SameRow(s.users.rows[u]);
      }
    }
    SameUsersLogical(s, t);
  }

  lemma SameRow(row: Row)
    requires UserRowFits(2, row)
    ensures row[Avatar := Get(row, Avatar)] == row
  {
  }

  lemma SameUsersLogical(s: Store, t: Table<string>)
    requires s.users.rows.Keys == t.rows.Keys
    requires forall u :: u in s.users.rows ==> LogicalUserOf(s, u, t.rows[u]) == LogicalUserOf(s, u, s.users.rows[u])
    ensures LogicalOf(s.(users := t)) == LogicalOf(s)
  {
    var s' := s.(users := t);
    forall u | u in s.users.rows
      ensures LogicalUserOf(s, u, s.users.rows[u]) == LogicalUserOf(s', u, s'.users.rows[u])
    {
    }
    SameLogical(s, s');
  }

  lemma ValidTables(s: Store)
    requires WellFormed(s)
    ensures HasItsColumns(s.users) && HasItsColumns(s.groups) && TempName !in s.users.columns
    ensures TempName !in s.groups.columns
  {
  }

  /** Rows of groups look the same at neighbouring versions, except at 6. */
  lemma SameGroupRows(version: int)
    requires version != 6
    ensures forall row :: GroupRowFits(version, row) <==> GroupRowFits(version - 1, row)
    ensures GroupColumns(version) == GroupColumns(version - 1)
  {
  }

  /** And so do rows of users, except at 2, 3, 5 and 6. */
  lemma SameUserRows(version: int)
    requires version !in {2, 3, 5, 6}
    ensures forall row :: UserRowFits(version, row) <==> UserRowFits(version - 1, row)
    ensures UserColumns(version) == UserColumns(version - 1)
  {
  }

  /** Indexes other than those on changed columns still hold. */
  lemma SameIndexes(version: int, s: Store, s': Store)
    requires Indexed(version - 1, s) && IndexesAt(version) == IndexesAt(version - 1) && s'.indexes == s.indexes
    requires s'.memberships == s.memberships
    requires s.users.rows.Keys == s'.users.rows.Keys && s.groups.rows.Keys == s'.groups.rows.Keys
    requires forall u :: u in s.users.rows ==>
      && Get(s.users.rows[u], Email) == Get(s'.users.rows[u], Email)
      && Get(s.users.rows[u], Uuid) == Get(s'.users.rows[u], Uuid)
    requires forall g: int :: g in s.groups.rows ==> Get(s.groups.rows[g], Uuid) == Get(s'.groups.rows[g], Uuid)
    requires version < 10
    ensures Indexed(version, s')
  {
    hide UniqueColumn;
    UniqueSame(s.users, s'.users, Email);
    UniqueSame(s.users, s'.users, Uuid);
    forall g: int | g in s.groups.rows
      ensures Get(s.groups.rows[g], Uuid) == Get(s'.groups.rows[g], Uuid)
    {
    }
    UniqueSame(s.groups, s'.groups, Uuid);
  }

  lemma MigratedTo2(backend: Backend, s: Store)
    requires WellFormed(s) && s.version == 1
    ensures GoodMigration(backend, 2, s)
  {
    hide UserRowFits, GroupRowFits, LogicalOf, UserColumns, GroupColumns, Indexed, AttributesFit, IndexesAt, Replaced;
    ValidTables(s);
    FirstColumns();
    SameGroupRows(2);
    ReplacedStore(s, DisplayName, true, 2);
    NoIndexes(2, s, MigrateTo2(s).value);
  }

  /** What an empty name becomes; everything else stays. */
  function NameKept(cell: Cell): Cell {
    match cell
    case Str(text) => if text == "" then Null else cell
    case _ => cell
  }

  /** Version 2 makes exactly the empty display names absent, and changes nothing else. */
  lemma DisplayNamesEmptied(s: Store)
    requires WellFormed(s) && s.version == 1
    ensures var r := MigrateTo2(s);
      && r.Some? && r.value == s.(users := r.value.users) && r.value.users.rows.Keys == s.users.rows.Keys
      && forall u, c :: u in s.users.rows ==>
           Get(r.value.users.rows[u], c) ==
             if c == DisplayName then NameKept(Get(s.users.rows[u], c)) else Get(s.users.rows[u], c)
  {
    hide UserRowFits, GroupRowFits, LogicalOf, UserColumns, GroupColumns, Indexed, AttributesFit, Replaced;
    ValidTables(s);
    FirstColumns();
    ReplacedStore(s, DisplayName, true, 2);
    var t := MigrateTo2(s).value.users;
    forall u, c | u in s.users.rows
      ensures Get(t.rows[u], c) ==
              if c == DisplayName then NameKept(Get(s.users.rows[u], c)) else Get(s.users.rows[u], c)
    {
      assert t.rows[u] == s.users.rows[u][DisplayName := EmptyToNull(Get(s.users.rows[u], DisplayName))];
    }
  }

  lemma EmptiedRow(row: Row, row': Row)
    requires UserRowFits(2, row)
    requires row' == row[FirstName := EmptyToNull(Get(row, FirstName))][LastName := EmptyToNull(Get(row, LastName))]
    ensures UserRowFits(3, row')
    ensures forall c ::
      Get(row', c) == if c == FirstName || c == LastName then NameKept(Get(row, c)) else Get(row, c)
  {
    assert row'.Keys == row.Keys;
  }

  /** The rows after the three replacements of version 3. */
  lemma ReplacedNames(s: Store)
    requires WellFormed(s) && s.version == 2
    ensures var r := MigrateTo3(s);
      && r.Some? && r.value == s.(users := r.value.users) && r.value.users.rows.Keys == s.users.rows.Keys
      && r.value.users.columns == s.users.columns && HasItsColumns(r.value.users)
      && LogicalOf(r.value) == LogicalOf(s)
      && forall u :: u in s.users.rows ==>
           var row := s.users.rows[u];
           r.value.users.rows[u] ==
             row[FirstName := EmptyToNull(Get(row, FirstName))][LastName := EmptyToNull(Get(row, LastName))]
  {
    hide UserRowFits, GroupRowFits, LogicalOf, UserColumns, GroupColumns, Indexed, AttributesFit, IndexesAt, Replaced,
      EmptyToNull, Get;
    ValidTables(s);
    FirstColumns();
    ReplacedStore(s, FirstName, true, 3);
    var s1 := s.(users := Replaced(s.users, FirstName, [EmptyToNull]).value);
    ReplacedStore(s1, LastName, true, 3);
    var s2 := s1.(users := Replaced(s1.users, LastName, [EmptyToNull]).value);
    ReplacedStore(s2, Avatar, false, 3);
    var r := MigrateTo3(s).value;
    forall u | u in s.users.rows
      ensures var row := s.users.rows[u];
        r.users.rows[u] ==
          row[FirstName := EmptyToNull(Get(row, FirstName))][LastName := EmptyToNull(Get(row, LastName))]
    {
      RowOfThree(s.users.rows[u], s1.users.rows[u], s2.users.rows[u], r.users.rows[u]);
    }
  }

  lemma RowOfThree(row: Row, row1: Row, row2: Row, row3: Row)
    requires row1 == row[FirstName := EmptyToNull(Get(row, FirstName))]
    requires row2 == row1[LastName := EmptyToNull(Get(row1, LastName))]
    requires row3 == row2[Avatar := Get(row2, Avatar)] && UserRowFits(2, row2)
    ensures row3 == row[FirstName := EmptyToNull(Get(row, FirstName))][LastName := EmptyToNull(Get(row, LastName))]
  {
    hide EmptyToNull;
    SameRow(row2);
  }

  lemma MigratedTo3(backend: Backend, s: Store)
    requires WellFormed(s) && s.version == 2
    ensures GoodMigration(backend, 3, s)
  {
    hide UserRowFits, GroupRowFits, LogicalOf, UserColumns, GroupColumns, Indexed, AttributesFit, IndexesAt, Replaced,
      MigrateTo3, EmptyToNull;
    ReplacedNames(s);
    SameGroupRows(3);
    FirstColumns();
    var r := MigrateTo3(s).value;
    forall u | u in s.users.rows
      ensures UserRowFits(3, r.users.rows[u])
    {
      EmptiedRow(s.users.rows[u], r.users.rows[u]);
    }
    NoIndexes(3, s, r);
  }

  /** Version 3 makes exactly the empty first and last names absent, and changes nothing
      else. */
  lemma NamesEmptied(s: Store)
    requires WellFormed(s) && s.version == 2
    ensures var r := MigrateTo3(s);
      && r.Some? && r.value == s.(users := r.value.users) && r.value.users.rows.Keys == s.users.rows.Keys
      && forall u, c :: u in s.users.rows ==>
           Get(r.value.users.rows[u], c) ==
             if c == FirstName || c == LastName then NameKept(Get(s.users.rows[u], c)) else Get(s.users.rows[u], c)
  {
    hide UserRowFits, GroupRowFits, LogicalOf, UserColumns, GroupColumns, Indexed, AttributesFit, MigrateTo3,
      EmptyToNull, Get, NameKept;
    ReplacedNames(s);
    var r := MigrateTo3(s).value;
    forall u | u in s.users.rows
      ensures forall c ::
        Get(r.users.rows[u], c) ==
          if c == FirstName || c == LastName then NameKept(Get(s.users.rows[u], c)) else Get(s.users.rows[u], c)
    {
      EmptiedRow(s.users.rows[u], r.users.rows[u]);
    }
  }

  lemma FirstColumns()
    ensures DisplayName in UserColumns(1) && UserColumns(1) == UserColumns(2) == UserColumns(3)
    ensures FirstName in UserColumns(2) && LastName in UserColumns(2) && Avatar in UserColumns(2)
    ensures IndexesAt(1) == IndexesAt(2) == IndexesAt(3) == {}
  {
  }

  lemma NoIndexes(version: int, s: Store, s': Store)
    requires 2 <= version <= 3 && Indexed(version - 1, s) && s'.indexes == s.indexes
    ensures Indexed(version, s') && Indexed(version, s'.(version := version))
  {
  }

  // ----- Versions 4, 7, 8, 9 and 10 -----

  /** The data does not depend on what is recorded beside the tables. */
  lemma SameData(s: Store, s': Store)
    requires s'.users == s.users && s'.groups == s.groups && s'.attributes == s.attributes
    requires forall x :: x in s.memberships <==> x in s'.memberships
    requires LogicalOf(s).userClasses == LogicalOf(s').userClasses
    requires LogicalOf(s).groupClasses == LogicalOf(s').groupClasses
    ensures LogicalOf(s) == LogicalOf(s')
  {
    SameLogical(s, s');
  }

  lemma SameClasses(s: Store, s': Store)
    requires s.classes == s'.classes
    ensures LogicalOf(s).userClasses == LogicalOf(s').userClasses
    ensures LogicalOf(s).groupClasses == LogicalOf(s').groupClasses
  {
  }

  /** The shape at a version whose migration leaves the rows alone. */
  lemma SameShape(version: int, s: Store, s': Store)
    requires version in {4, 7, 8, 9, 10} && Shape(version - 1, s)
    requires s'.users == s.users && s'.groups == s.groups && s'.attributes == s.attributes
    requires forall x :: x in s'.memberships ==> x in s.memberships
    requires s'.keyColumns == (version >= 7) && s'.classes.Some? == (version >= 9)
    ensures Shape(version, s')
  {
    hide UserRowFits, GroupRowFits, UserColumns, GroupColumns;
    SameUserRows(version);
    SameGroupRows(version);
    if s'.attributes.Some? {
      SameAttributesFit(s, s');
    }
  }

  lemma SameAttributesFit(s: Store, s': Store)
    requires s.attributes.Some? && AttributesFit(s)
    requires s'.users == s.users && s'.groups == s.groups && s'.attributes == s.attributes
    ensures AttributesFit(s')
  {
    hide WellTyped;
  }

  /** What the three migrations that create indexes come down to. */
  lemma Indexing4(s: Store)
    requires Indexed(3, s)
    ensures var r := MigrateTo4(s);
      && (r.Some? <==> UniqueColumn(s.users, Email) && UniqueColumn(s.users, Uuid) && UniqueColumn(s.groups, Uuid))
      && (r.Some? ==> r.value == s.(indexes := IndexesAt(4)) && Indexed(4, r.value.(version := 4)))
  {
    hide UniqueColumn;
  }

  lemma Indexing8(s: Store, m: multiset<Membership>)
    requires Indexed(7, s) && NoRepeats(m)
    ensures var s' := s.(memberships := m);
      var r := CreateIndex(s', MembershipIndex);
      r.Some? && r.value == s'.(indexes := IndexesAt(8)) && Indexed(8, r.value.(version := 8))
  {
    hide UniqueColumn, NoRepeats;
  }

  lemma Indexing10(s: Store)
    requires Indexed(9, s)
    ensures var r := MigrateTo10(s);
      && (r.Some? <==> UniqueColumn(s.groups, LowercaseDisplayName) && UniqueColumn(s.users, LowercaseEmail))
      && (r.Some? ==> r.value == s.(indexes := IndexesAt(10)) && Indexed(10, r.value.(version := 10)))
  {
    hide UniqueColumn, NoRepeats;
  }

  lemma MigratedTo4(backend: Backend, s: Store)
    requires WellFormed(s) && s.version == 3
    ensures GoodMigration(backend, 4, s)
  {
    hide Shape, Indexed, LogicalOf, MigrateTo4, UniqueColumn;
    Indexing4(s);
    var r := MigrateTo4(s);
    if r.Some? {
      ShapeFlags(3, s);
      SameShape(4, s, r.value.(version := 4));
      SameClasses(s, r.value);
      SameData(s, r.value);
    }
  }

  lemma ShapeFlags(version: int, s: Store)
    requires Shape(version, s)
    ensures s.keyColumns == (version >= 7) && s.classes.Some? == (version >= 9)
  {
  }

  lemma MigratedTo7(backend: Backend, s: Store)
    requires WellFormed(s) && s.version == 6
    ensures GoodMigration(backend, 7, s)
  {
    hide Shape, LogicalOf, UniqueColumn;
    ShapeFlags(6, s);
    var r := MigrateTo7(s).value;
    SameShape(7, s, r.(version := 7));
    SameIndexes(7, s, r.(version := 7));
    SameClasses(s, r);
    SameData(s, r);
  }

  /** Deleting the repetitions keeps each pair, once. */
  lemma OnceEach(m: multiset<Membership>)
    ensures NoRepeats(Once(m)) && forall x :: x in m <==> x in Once(m)
    ensures forall x :: Once(m)[x] == if x in m then 1 else 0
  {
  }

  lemma MigratedTo8(backend: Backend, s: Store)
    requires WellFormed(s) && s.version == 7
    ensures GoodMigration(backend, 8, s)
  {
    hide Shape, Indexed, LogicalOf, UniqueColumn, NoRepeats, Once, CreateIndex;
    OnceEach(s.memberships);
    ShapeFlags(7, s);
    var m := if NoRepeats(s.memberships) then s.memberships else Once(s.memberships);
    Indexing8(s, m);
    assert s.(memberships := s.memberships) == s;
    var r := MigrateTo8(backend, s);
    if r.Some? {
      SameShape(8, s, r.value.(version := 8));
      SameClasses(s, r.value);
      SameData(s, r.value);
    }
  }

  lemma MigratedTo9(backend: Backend, s: Store)
    requires WellFormed(s) && s.version == 8
    ensures GoodMigration(backend, 9, s)
  {
    hide Shape, LogicalOf, UniqueColumn;
    ShapeFlags(8, s);
    var r := MigrateTo9(s).value;
    SameShape(9, s, r.(version := 9));
    SameIndexes(9, s, r.(version := 9));
    NewClasses(s);
    SameData(s, r);
  }

  lemma NewClasses(s: Store)
    requires s.classes.None?
    ensures var s' := MigrateTo9(s).value;
      LogicalOf(s).userClasses == LogicalOf(s').userClasses && LogicalOf(s).groupClasses == LogicalOf(s').groupClasses
  {
  }

  lemma MigratedTo10(backend: Backend, s: Store)
    requires WellFormed(s) && s.version == 9
    ensures GoodMigration(backend, 10, s)
  {
    hide Shape, Indexed, LogicalOf, MigrateTo10, UniqueColumn;
    Indexing10(s);
    var r := MigrateTo10(s);
    if r.Some? {
      ShapeFlags(9, s);
      SameShape(10, s, r.value.(version := 10));
      SameClasses(s, r.value);
      SameData(s, r.value);
    }
  }

  // ----- Version 5: columns become attributes -----

  lemma RowsOfUserAre(u: string, row: Row)
    requires NameFits(Get(row, FirstName)) && NameFits(Get(row, LastName)) && PhotoCellFits(Get(row, Avatar))
    ensures var r := RowsOfUser(u, row);
      && (forall k :: k in r ==> k.owner == u && k.name in [FIRST_NAME, LAST_NAME, AVATAR])
      && (AttributeKey(u, FIRST_NAME) in r <==> !Get(row, FirstName).Null?)
      && (AttributeKey(u, FIRST_NAME) in r ==>
            r[AttributeKey(u, FIRST_NAME)] == D.SerializedText(Get(row, FirstName).text))
      && (AttributeKey(u, LAST_NAME) in r <==> !Get(row, LastName).Null?)
      && (AttributeKey(u, LAST_NAME) in r ==>
            r[AttributeKey(u, LAST_NAME)] == D.SerializedText(Get(row, LastName).text))
      && (AttributeKey(u, AVATAR) in r <==> !Get(row, Avatar).Null?)
      && (AttributeKey(u, AVATAR) in r ==> r[AttributeKey(u, AVATAR)] == D.SerializedPhoto(Get(row, Avatar).bytes))
  {
    hide D.SerializedText, D.SerializedPhoto;
    NamesDiffer();
  }

  /** Each first name, last name and avatar that is present goes into exactly one row of
      its user, with the value it had, and there are no other rows. */
  lemma MovedExactly(users: map<string, Row>, key: AttributeKey<string>)
    requires NamesFit(users)
    ensures var table := MovedRows(users);
      var row := if key.owner in users then users[key.owner] else map[];
      && (key in table <==>
            || (key.name == FIRST_NAME && Get(row, FirstName).Str?)
            || (key.name == LAST_NAME && Get(row, LastName).Str?)
            || (key.name == AVATAR && Get(row, Avatar).Blob?))
      && (key in table ==>
            table[key] ==
              if key.name == FIRST_NAME then D.SerializedText(Get(row, FirstName).text)
              else if key.name == LAST_NAME then D.SerializedText(Get(row, LastName).text)
              else D.SerializedPhoto(Get(row, Avatar).bytes))
  {
    hide D.SerializedText, D.SerializedPhoto, RowsOfUser;
    NamesDiffer();
    if key.owner in users {
      RowsOfUserAre(key.owner, users[key.owner]);
    }
  }

  /** Reading the moved rows gives what reading the columns gave. */
  lemma MovedReads(users: map<string, Row>, u: string)
    requires NamesFit(users) && u in users
    ensures var table := MovedRows(users);
      && NonEmpty(D.StoredText(table, u, FIRST_NAME)) == CellText(Get(users[u], FirstName))
      && NonEmpty(D.StoredText(table, u, LAST_NAME)) == CellText(Get(users[u], LastName))
      && D.StoredBytes(table, u, AVATAR, JpegPhoto) == CellPhoto(Get(users[u], Avatar))
  {
    hide D.SerializedText, D.SerializedPhoto, MovedRows, Decode;
    NamesDiffer();
    var table, row := MovedRows(users), users[u];
    MovedExactly(users, AttributeKey(u, FIRST_NAME));
    MovedExactly(users, AttributeKey(u, LAST_NAME));
    MovedExactly(users, AttributeKey(u, AVATAR));
    if Get(row, FirstName).Str? {
      D.ReadsText(table, u, FIRST_NAME, Get(row, FirstName).text);
    }
    if Get(row, LastName).Str? {
      D.ReadsText(table, u, LAST_NAME, Get(row, LastName).text);
    }
    if Get(row, Avatar).Blob? {
      D.ReadsPhoto(table, u, Get(row, Avatar).bytes);
    }
  }

  lemma MovedTyped(users: map<string, Row>, k: AttributeKey<string>)
    requires NamesFit(users) && k in MovedRows(users)
    ensures k.owner in users && k.name in EMPTY_DB.userSchema
    ensures WellTyped(MovedRows(users)[k], EMPTY_DB.userSchema[k.name])
    ensures k.name in [FIRST_NAME, LAST_NAME, AVATAR]
  {
    hide D.SerializedText, D.SerializedPhoto, MovedRows, WellTyped;
    NamesDiffer();
    MovedExactly(users, k);
    if k.owner in users {
      var row := users[k.owner];
      if k.name == AVATAR {
        SerializedPhotoTyped(Get(row, Avatar).bytes, HARDCODED_PHOTO);
      } else {
        var cell := if k.name == FIRST_NAME then Get(row, FirstName) else Get(row, LastName);
        SerializedTextTyped(cell.text, HARDCODED_TEXT);
      }
    }
  }

  /** The row that remains when the three columns are gone. */
  lemma DroppedRow(row: Row)
    requires UserRowFits(4, row)
    ensures var row' := row - {FirstName} - {LastName} - {Avatar};
      && UserRowFits(5, row')
      && forall c :: c !in {FirstName, LastName, Avatar} ==> Get(row', c) == Get(row, c)
  {
    var row' := row - {FirstName} - {LastName} - {Avatar};
    assert row'.Keys == row.Keys - {FirstName, LastName, Avatar};
  }

  lemma DroppedTable(s: Store)
    requires Shape(4, s)
    ensures MigrateTo5(s).Some?
    ensures var s' := MigrateTo5(s).value;
      && s' == s.(users := s'.users,
                  attributes := Some(AttributeTables(EMPTY_DB.userSchema, map[], MovedRows(s.users.rows), map[])))
      && s'.users.columns == UserColumns(5) && s'.users.rows.Keys == s.users.rows.Keys
      && forall u :: u in s.users.rows ==> s'.users.rows[u] == s.users.rows[u] - {FirstName} - {LastName} - {Avatar}
  {
    hide MovedRows;
    assert NamesFit(s.users.rows);
    var t1 := DropColumn(s.users, FirstName).value;
    var t2 := DropColumn(t1, LastName).value;
    var t3 := DropColumn(t2, Avatar).value;
    assert t3.columns == UserColumns(5);
  }

  lemma MovedUser(s: Store, s': Store, u: string)
    requires s.attributes.None? && NamesFit(s.users.rows) && u in s.users.rows && u in s'.users.rows
    requires UserRowFits(4, s.users.rows[u])
    requires s'.attributes.Some? && s'.attributes.value.userAttributes == MovedRows(s.users.rows)
    requires s'.users.rows[u] == s.users.rows[u] - {FirstName} - {LastName} - {Avatar}
    ensures LogicalUserOf(s', u, s'.users.rows[u]) == LogicalUserOf(s, u, s.users.rows[u])
  {
    hide MovedRows, D.StoredText, D.StoredBytes, UserRowFits;
    MovedReads(s.users.rows, u);
    DroppedRow(s.users.rows[u]);
  }

  lemma MigratedTo5(backend: Backend, s: Store)
    requires WellFormed(s) && s.version == 4
    ensures GoodMigration(backend, 5, s)
  {
    hide UserRowFits, GroupRowFits, LogicalOf, LogicalUserOf, MigrateTo5, MovedRows, WellTyped, Indexed, UserColumns,
      GroupColumns;
    DroppedTable(s);
    var s' := MigrateTo5(s).value;
    forall u | u in s.users.rows
      ensures UserRowFits(5, s'.users.rows[u])
      ensures LogicalUserOf(s', u, s'.users.rows[u]) == LogicalUserOf(s, u, s.users.rows[u])
      ensures Get(s'.users.rows[u], Email) == Get(s.users.rows[u], Email)
      ensures Get(s'.users.rows[u], Uuid) == Get(s.users.rows[u], Uuid)
    {
      assert NamesFit(s.users.rows) by { FitsNames(s); }
      DroppedRow(s.users.rows[u]);
      MovedUser(s, s', u);
    }
    FitsNames(s);
    NewAttributesFit(s, s');
    SameGroupRows(5);
    SameIndexes5(s, s'.(version := 5));
    MovedLogical(s, s');
  }

  lemma FitsNames(s: Store)
    requires Shape(4, s)
    ensures NamesFit(s.users.rows)
  {
  }

  lemma NewAttributesFit(s: Store, s': Store)
    requires NamesFit(s.users.rows) && s'.users.rows.Keys == s.users.rows.Keys
    requires s'.attributes == Some(AttributeTables(EMPTY_DB.userSchema, map[], MovedRows(s.users.rows), map[]))
    ensures AttributesFit(s') && AttributesFit(s'.(version := 5)) && OtherAttributes(s') == map[]
  {
    hide MovedRows, WellTyped;
    forall k | k in MovedRows(s.users.rows)
      ensures k.owner in s.users.rows && k.name in EMPTY_DB.userSchema
      ensures WellTyped(MovedRows(s.users.rows)[k], EMPTY_DB.userSchema[k.name])
      ensures k.name in [FIRST_NAME, LAST_NAME, AVATAR]
    {
      MovedTyped(s.users.rows, k);
    }
  }

  lemma SameIndexes5(s: Store, s': Store)
    requires Indexed(4, s) && s' == s.(version := 5, users := s'.users, attributes := s'.attributes)
    requires s.users.rows.Keys == s'.users.rows.Keys
    requires forall u :: u in s.users.rows ==>
      && Get(s.users.rows[u], Email) == Get(s'.users.rows[u], Email)
      && Get(s.users.rows[u], Uuid) == Get(s'.users.rows[u], Uuid)
    ensures Indexed(5, s')
  {
    hide Indexed;
    SameIndexes(5, s, s');
  }

  lemma MovedLogical(s: Store, s': Store)
    requires s.attributes.None? && s'.attributes.Some? && OtherAttributes(s') == map[]
    requires s'.attributes.value.groupAttributes == map[]
    requires s' == s.(users := s'.users, attributes := s'.attributes) && s.users.rows.Keys == s'.users.rows.Keys
    requires forall u :: u in s.users.rows ==>
      LogicalUserOf(s', u, s'.users.rows[u]) == LogicalUserOf(s, u, s.users.rows[u])
    ensures LogicalOf(s') == LogicalOf(s)
  {
    hide LogicalUserOf;
    SameClasses(s, s');
    SameLogical(s, s');
  }

  // ----- Version 6: lower-case mirrors -----

  lemma MirroredUser(s: Store, s': Store, u: string, row: Row, row': Row)
    requires UserRowFits(5, row) && s.attributes == s'.attributes && s.attributes.Some?
    requires row' == row[LowercaseEmail := Str("UNSET")][LowercaseEmail := LowerCell(Get(row, Email))]
    ensures UserRowFits(6, row') && LogicalUserOf(s', u, row') == LogicalUserOf(s, u, row)
    ensures Get(row', Email) == Get(row, Email) && Get(row', Uuid) == Get(row, Uuid)
  {
    hide D.StoredText, D.StoredBytes, LowerCell;
    assert row'.Keys == row.Keys + {LowercaseEmail};
  }

  lemma MirroredGroup(row: Row, row': Row)
    requires GroupRowFits(5, row)
    requires row' == row[LowercaseDisplayName := Str("UNSET")][LowercaseDisplayName := LowerCell(Get(row, DisplayName))]
    ensures GroupRowFits(6, row') && LogicalGroupOf(row') == LogicalGroupOf(row)
    ensures Get(row', Uuid) == Get(row, Uuid)
  {
    assert row'.Keys == row.Keys + {LowercaseDisplayName};
  }

  lemma MirroredTables(s: Store)
    requires Shape(5, s)
    ensures MigrateTo6(s).Some?
    ensures var s' := MigrateTo6(s).value;
      && s' == s.(users := s'.users, groups := s'.groups)
      && s'.users.columns == UserColumns(6) && s'.users.rows.Keys == s.users.rows.Keys
      && s'.groups.columns == GroupColumns(6) && s'.groups.rows.Keys == s.groups.rows.Keys
      && (forall u :: u in s.users.rows ==>
            var row := s.users.rows[u];
            s'.users.rows[u] == row[LowercaseEmail := Str("UNSET")][LowercaseEmail := LowerCell(Get(row, Email))])
      && (forall g: int :: g in s.groups.rows ==>
            var row := s.groups.rows[g];
            s'.groups.rows[g] ==
              row[LowercaseDisplayName := Str("UNSET")][LowercaseDisplayName := LowerCell(Get(row, DisplayName))])
  {
    hide LowerCell, UserRowFits, GroupRowFits, AttributesFit;
  }

  lemma MigratedTo6(backend: Backend, s: Store)
    requires WellFormed(s) && s.version == 5
    ensures GoodMigration(backend, 6, s)
  {
    hide UserRowFits, GroupRowFits, LogicalOf, LogicalUserOf, LogicalGroupOf, MigrateTo6, Indexed, UserColumns,
      GroupColumns, AttributesFit, LowerCell;
    MirroredTables(s);
    var s' := MigrateTo6(s).value;
    forall u | u in s.users.rows
      ensures UserRowFits(6, s'.users.rows[u])
      ensures LogicalUserOf(s', u, s'.users.rows[u]) == LogicalUserOf(s, u, s.users.rows[u])
      ensures Get(s'.users.rows[u], Email) == Get(s.users.rows[u], Email)
      ensures Get(s'.users.rows[u], Uuid) == Get(s.users.rows[u], Uuid)
    {
      MirroredUser(s, s', u, s.users.rows[u], s'.users.rows[u]);
    }
    forall g: int | g in s.groups.rows
      ensures GroupRowFits(6, s'.groups.rows[g])
      ensures LogicalGroupOf(s'.groups.rows[g]) == LogicalGroupOf(s.groups.rows[g])
      ensures Get(s'.groups.rows[g], Uuid) == Get(s.groups.rows[g], Uuid)
    {
      MirroredGroup(s.groups.rows[g], s'.groups.rows[g]);
    }
    FitsStill(s, s'.(version := 6));
    SameIndexes6(s, s'.(version := 6));
    SameClasses(s, s');
    SameAttributeData(s, s');
    SameLogical(s, s');
  }

  lemma SameAttributeData(s: Store, s': Store)
    requires s.attributes == s'.attributes
    ensures OtherAttributes(s) == OtherAttributes(s') && LogicalOf(s).groupAttributes == LogicalOf(s').groupAttributes
  {
  }

  lemma FitsStill(s: Store, s': Store)
    requires s.attributes.Some? && s'.attributes == s.attributes && AttributesFit(s)
    requires s.users.rows.Keys == s'.users.rows.Keys && s.groups.rows.Keys == s'.groups.rows.Keys
    ensures AttributesFit(s')
  {
    hide WellTyped;
  }

  lemma SameIndexes6(s: Store, s': Store)
    requires Indexed(5, s) && s' == s.(version := 6, users := s'.users, groups := s'.groups)
    requires s.users.rows.Keys == s'.users.rows.Keys && s.groups.rows.Keys == s'.groups.rows.Keys
    requires forall u :: u in s.users.rows ==>
      && Get(s.users.rows[u], Email) == Get(s'.users.rows[u], Email)
      && Get(s.users.rows[u], Uuid) == Get(s'.users.rows[u], Uuid)
    requires forall g: int :: g in s.groups.rows ==> Get(s.groups.rows[g], Uuid) == Get(s'.groups.rows[g], Uuid)
    ensures Indexed(6, s')
  {
    hide Indexed;
    SameIndexes(6, s, s');
  }

  // ----- Whole runs -----

  /** One migration of a well-formed store: when it fails, and what it keeps. */
  lemma MigrationIsGood(backend: Backend, n: int, s: Store)
    requires WellFormed(s) && s.version == n - 1 && 2 <= n <= LAST_VERSION
    ensures GoodMigration(backend, n, s)
  {
    hide WellFormed, GoodMigration;
    match n
    case 2 => MigratedTo2(backend, s);
    case 3 => MigratedTo3(backend, s);
    case 4 => MigratedTo4(backend, s);
    case 5 => MigratedTo5(backend, s);
    case 6 => MigratedTo6(backend, s);
    case 7 => MigratedTo7(backend, s);
    case 8 => MigratedTo8(backend, s);
    case 9 => MigratedTo9(backend, s);
    case _ => MigratedTo10(backend, s);
  }

  lemma SqliteKeepsMemberships(n: int, s: Store)
    requires 2 <= n <= LAST_VERSION && Apply(Sqlite, n, s).Some?
    ensures Apply(Sqlite, n, s).value.memberships == s.memberships
  {
    hide MovedRows, Replaced, DropColumn, AddColumn, UpdateColumn, IndexHolds;
  }

  /** A run that succeeds, fails or is interrupted: the tables are well-formed at the
      version they record, and hold the data they held before. */
  lemma {:induction false} LoopKeepsData(env: Env, s: Store, n: int, last: int)
    requires WellFormed(s) && s.version == n - 1 && 2 <= n <= last + 1 <= LAST_VERSION + 1
    ensures var (s', ok) := MigrateLoop(env, s, n - 1, n, last);
      && WellFormed(s') && n - 1 <= s'.version <= last
      && LogicalOf(s') == LogicalOf(s)
      && (env.backend.Sqlite? ==> s'.memberships == s.memberships)
      && (ok <==> s'.version == last)
      && (!ok ==> s'.version + 1 in env.faults || Blocked(env.backend, s'.version + 1, s'))
    decreases last - n
  {
    hide WellFormed, LogicalOf, Blocked, Apply;
    if n <= last {
      MigrationIsGood(env.backend, n, s);
      if Transaction(env, n, s).Some? {
        var next := Transaction(env, n, s).value;
        VersionIsNoData(Apply(env.backend, n, s).value, n);
        if env.backend.Sqlite? {
          SqliteKeepsMemberships(n, s);
        }
        LoopForgetsStart(env, next, n - 1, n, n + 1, last);
        LoopKeepsData(env, next, n + 1, last);
      }
    }
  }

  lemma VersionIsNoData(s: Store, n: int)
    ensures LogicalOf(s.(version := n)) == LogicalOf(s)
  {
    SameClasses(s, s.(version := n));
    SameData(s, s.(version := n));
  }

  lemma MigrationKeepsData(env: Env, s: Store, last: int)
    requires WellFormed(s) && s.version <= last <= LAST_VERSION
    ensures var (s', ok) := MigrateFromVersion(env, s, last);
      && WellFormed(s') && s.version <= s'.version <= last
      && LogicalOf(s') == LogicalOf(s)
      && (env.backend.Sqlite? ==> s'.memberships == s.memberships)
      && (ok <==> s'.version == last)
      && (!ok ==> s'.version + 1 in env.faults || Blocked(env.backend, s'.version + 1, s'))
  {
    hide Shape, Indexed, LogicalOf, Blocked;
    LoopSkips(env, s, s.version, 2, last);
    LoopKeepsData(env, s, s.version + 1, last);
  }

  // ----- Which directories can be upgraded -----

  predicate DistinctCells<T(!new)>(cells: map<T, Cell>) {
    forall k, l :: k in cells && l in cells && k != l ==> cells[k] != cells[l]
  }

  function LowerEmails(d: Logical): map<string, Cell> {
    map u | u in d.users :: LowerCell(d.users[u].email)
  }

  function UserUuids(d: Logical): map<string, Cell> {
    map u | u in d.users :: d.users[u].uuid
  }

  function LowerGroupNames(d: Logical): map<int, Cell> {
    map g | g in d.groups :: LowerCell(d.groups[g].displayName)
  }

  function GroupUuids(d: Logical): map<int, Cell> {
    map g | g in d.groups :: d.groups[g].uuid
  }

  /** Emails and group names differ by more than case, and identifiers differ. */
  predicate Upgradable(d: Logical) {
    DistinctCells(LowerEmails(d)) && DistinctCells(UserUuids(d)) && DistinctCells(LowerGroupNames(d)) &&
      DistinctCells(GroupUuids(d))
  }

  /** Distinct cells are a unique column, if none is absent. */
  lemma CellsOfColumn<T(!new)>(t: Table<T>, c: Column, cells: map<T, Cell>)
    requires cells.Keys == t.rows.Keys && forall k :: k in cells ==> cells[k] == Get(t.rows[k], c) && cells[k] != Null
    ensures DistinctCells(cells) <==> UniqueColumn(t, c)
  {
  }

  lemma LowerCellsOfColumn<T(!new)>(t: Table<T>, c: Column, cells: map<T, Cell>)
    requires cells.Keys == t.rows.Keys && forall k :: k in cells ==> cells[k] == LowerCell(Get(t.rows[k], c))
    ensures DistinctCells(cells) ==> UniqueColumn(t, c)
  {
    hide LowerCell;
  }

  lemma UserCells(s: Store)
    requires Shape(s.version, s)
    ensures var d := LogicalOf(s);
      && (DistinctCells(UserUuids(d)) <==> UniqueColumn(s.users, Uuid))
      && (DistinctCells(LowerEmails(d)) ==> UniqueColumn(s.users, Email))
      && (s.version >= 6 ==> (DistinctCells(LowerEmails(d)) <==> UniqueColumn(s.users, LowercaseEmail)))
  {
    hide AttributesFit, DistinctCells, UniqueColumn;
    var d := LogicalOf(s);
    CellsOfColumn(s.users, Uuid, UserUuids(d));
    LowerCellsOfColumn(s.users, Email, LowerEmails(d));
    if s.version >= 6 {
      CellsOfColumn(s.users, LowercaseEmail, LowerEmails(d));
    }
  }

  lemma GroupCells(s: Store)
    requires Shape(s.version, s)
    ensures var d := LogicalOf(s);
      && (DistinctCells(GroupUuids(d)) <==> UniqueColumn(s.groups, Uuid))
      && (s.version >= 6 ==> (DistinctCells(LowerGroupNames(d)) <==> UniqueColumn(s.groups, LowercaseDisplayName)))
  {
    hide AttributesFit, DistinctCells, UniqueColumn;
    var d := LogicalOf(s);
    forall g: int | g in GroupUuids(d)
      ensures GroupUuids(d)[g] == Get(s.groups.rows[g], Uuid) && GroupUuids(d)[g] != Null
    {
    }
    CellsOfColumn(s.groups, Uuid, GroupUuids(d));
    if s.version >= 6 {
      forall g: int | g in LowerGroupNames(d)
        ensures LowerGroupNames(d)[g] == Get(s.groups.rows[g], LowercaseDisplayName) && LowerGroupNames(d)[g] != Null
      {
      }
      CellsOfColumn(s.groups, LowercaseDisplayName, LowerGroupNames(d));
    }
  }

  /** Without outside failures, the upgrade to the last version succeeds exactly for
      directories whose data meets the constraints of the last version; SQLite also needs
      that no membership is repeated. */
  lemma UpgradeSucceedsExactly(backend: Backend, s: Store)
    requires WellFormed(s)
    ensures MigrateFromVersion(Env(backend, {}), s, LAST_VERSION).1 <==>
      Upgradable(LogicalOf(s)) && (backend.Sqlite? ==> NoRepeats(s.memberships))
  {
    hide Shape, LogicalOf, NoRepeats, UniqueColumn, DistinctCells;
    var env := Env(backend, {});
    MigrationKeepsData(env, s, LAST_VERSION);
    var (s', ok) := MigrateFromVersion(env, s, LAST_VERSION);
    UserCells(s');
    GroupCells(s');
    if ok {
      AllIndexes(s');
    }
  }

  lemma AllIndexes(s: Store)
    requires Indexed(LAST_VERSION, s)
    ensures forall i: Index :: IndexHolds(s, i)
  {
    hide IndexHolds;
    forall i: Index
      ensures i in IndexesAt(LAST_VERSION)
    {
      match i
      case UserEmailIndex =>
      case _ =>
    }
  }

  // ----- The result as a directory -----

  function CellString(c: Cell): Option<string> {
    match c
    case Null => None
    case Str(text) => Some(text)
    case Blob(bytes) => Some(seq(|bytes|, i requires 0 <= i < |bytes| => bytes[i] as char))
  }

  function ToUserRow(row: Row): UserRow {
    UserRow(
      CellString(Get(row, Email)).GetOr(""), CellString(Get(row, LowercaseEmail)).GetOr(""),
      CellString(Get(row, DisplayName)),
      CellString(Get(row, CreationDate)).GetOr(""), CellString(Get(row, Uuid)).GetOr(""),
      CellString(Get(row, PasswordHash)), CellString(Get(row, TotpSecret)), CellString(Get(row, MfaType)))
  }

  function ToGroupRow(row: Row): GroupRow {
    GroupRow(CellString(Get(row, DisplayName)).GetOr(""), CellString(Get(row, LowercaseDisplayName)).GetOr(""),
             CellString(Get(row, CreationDate)).GetOr(""), CellString(Get(row, Uuid)).GetOr(""))
  }

  /** The tables of a fully upgraded store, as the server uses them. */
  function ToDb(s: Store, nextGroupId: int): Db
    requires s.attributes.Some? && s.classes.Some?
  {
    var a := s.attributes.value;
    Db((map u | u in s.users.rows :: ToUserRow(s.users.rows[u])),
       (map g | g in s.groups.rows :: ToGroupRow(s.groups.rows[g])),
       (set x | x in s.memberships),
       a.userSchema, a.groupSchema, a.userAttributes, a.groupAttributes, s.classes.value.users, s.classes.value.groups,
       nextGroupId)
  }

  /** Ids and attribute names are lower-case, and group ids were handed out in order. */
  predicate LowerNames(s: Store, nextGroupId: int)
    requires s.attributes.Some?
  {
    && nextGroupId > 0
    && (forall u :: u in s.users.rows ==> IsLower(u))
    && (forall g :: g in s.groups.rows ==> 0 < g < nextGroupId)
    && (forall n :: n in s.attributes.value.userSchema ==> IsLower(n))
    && (forall n :: n in s.attributes.value.groupSchema ==> IsLower(n))
  }

  lemma FinalUniqueness(s: Store)
    requires Indexed(LAST_VERSION, s)
    ensures UniqueColumn(s.users, LowercaseEmail) && UniqueColumn(s.users, Uuid)
    ensures UniqueColumn(s.groups, LowercaseDisplayName) && UniqueColumn(s.groups, Uuid)
    ensures NoRepeats(s.memberships)
  {
    hide Indexed, UniqueColumn, NoRepeats;
    AllIndexes(s);
    assert IndexHolds(s, UserLowerEmailIndex) && IndexHolds(s, UserUuidIndex);
    assert IndexHolds(s, GroupNameIndex) && IndexHolds(s, GroupUuidIndex) && IndexHolds(s, MembershipIndex);
  }

  lemma UpgradedUsers(s: Store, nextGroupId: int)
    requires WellFormed(s) && s.version == LAST_VERSION
    ensures ValidUsers(ToDb(s, nextGroupId)) <==> forall u :: u in s.users.rows ==> IsLower(u)
  {
    hide AttributesFit, UserColumns, GroupColumns, Indexed, GroupRowFits;
    FinalUniqueness(s);
    var db := ToDb(s, nextGroupId);
    assert db.users.Keys == s.users.rows.Keys;
  }

  lemma UpgradedGroups(s: Store, nextGroupId: int)
    requires WellFormed(s) && s.version == LAST_VERSION
    ensures ValidGroups(ToDb(s, nextGroupId)) <==>
      nextGroupId > 0 && forall g: int :: g in s.groups.rows ==> 0 < g < nextGroupId
  {
    hide AttributesFit, UserColumns, GroupColumns, Indexed, UserRowFits;
    FinalUniqueness(s);
    var db := ToDb(s, nextGroupId);
    assert db.groups.Keys == s.groups.rows.Keys;
  }

  /** An upgraded database has everything that the server's own steps keep and rely on,
      if and only if its ids and attribute names are lower-case; no membership is lost or
      left repeated. */
  lemma UpgradedIsValid(s: Store, nextGroupId: int)
    requires WellFormed(s) && s.version == LAST_VERSION
    ensures Valid(ToDb(s, nextGroupId)) <==> LowerNames(s, nextGroupId)
    ensures forall x :: s.memberships[x] == if x in ToDb(s, nextGroupId).memberships then 1 else 0
  {
    hide WellTyped, UserRowFits, GroupRowFits, ValidUsers, ValidGroups, UserColumns, GroupColumns, Indexed,
      UniqueColumn;
    UpgradedUsers(s, nextGroupId);
    UpgradedGroups(s, nextGroupId);
    FinalUniqueness(s);
    var db := ToDb(s, nextGroupId);
    assert FIRST_NAME in EMPTY_DB.userSchema && LAST_NAME in EMPTY_DB.userSchema && AVATAR in EMPTY_DB.userSchema;
    assert ValidSchema(db) <==>
      (forall n :: n in db.userSchema ==> IsLower(n)) && (forall n :: n in db.groupSchema ==> IsLower(n)) by {
      NamesDiffer();
    }
    assert ValidReferences(db);
  }

  // ----- Empty names -----

  /** No row holds an empty first or last name. */
  ghost predicate NoEmptyRows(s: Store) {
    s.attributes.Some? ==>
      forall k :: k in s.attributes.value.userAttributes && k.name in [FIRST_NAME, LAST_NAME] ==>
        var text := D.StoredText(s.attributes.value.userAttributes, k.owner, k.name);
        text.Some? && text.value != ""
  }

  lemma ApplyKeepsAttributes(backend: Backend, n: int, s: Store)
    requires 2 <= n <= LAST_VERSION && n != 5 && Apply(backend, n, s).Some?
    ensures Apply(backend, n, s).value.attributes == s.attributes
  {
    hide Replaced, AddColumn, UpdateColumn, IndexHolds, Once, NoRepeats, MigrateTo5;
  }

  lemma MovedKeyNotEmpty(users: map<string, Row>, k: AttributeKey<string>)
    requires NamesFit(users) && k in MovedRows(users) && k.name in [FIRST_NAME, LAST_NAME]
    requires k.owner in users ==>
      Get(users[k.owner], FirstName) != Str("") && Get(users[k.owner], LastName) != Str("")
    ensures var text := D.StoredText(MovedRows(users), k.owner, k.name); text.Some? && text.value != ""
  {
    hide D.SerializedText, D.SerializedPhoto, D.StoredText, MovedRows;
    NamesDiffer();
    MovedExactly(users, k);
    var row := users[k.owner];
    var cell := if k.name == FIRST_NAME then Get(row, FirstName) else Get(row, LastName);
    D.ReadsText(MovedRows(users), k.owner, k.name, cell.text);
  }

  lemma MovedNotEmpty(s: Store)
    requires WellFormed(s) && s.version == 4
    ensures MigrateTo5(s).Some? && NoEmptyRows(MigrateTo5(s).value)
  {
    hide MovedRows, D.StoredText, GroupRowFits, Indexed, MigrateTo5, UserColumns, GroupColumns;
    DroppedTable(s);
    FitsNames(s);
    var table := MovedRows(s.users.rows);
    forall k | k in table && k.name in [FIRST_NAME, LAST_NAME]
      ensures var text := D.StoredText(table, k.owner, k.name); text.Some? && text.value != ""
    {
      assert k.owner in s.users.rows ==> UserRowFits(4, s.users.rows[k.owner]);
      MovedKeyNotEmpty(s.users.rows, k);
    }
  }

  lemma {:induction false} LoopMovesNames(env: Env, s: Store, n: int, last: int)
    requires WellFormed(s) && s.version == n - 1 && 2 <= n <= last + 1 <= LAST_VERSION + 1 && NoEmptyRows(s)
    ensures NoEmptyRows(MigrateLoop(env, s, n - 1, n, last).0)
    decreases last - n
  {
    hide WellFormed, LogicalOf, Blocked, Apply;
    if n <= last && Transaction(env, n, s).Some? {
      MigrationIsGood(env.backend, n, s);
      var next := Transaction(env, n, s).value;
      NextNames(env.backend, n, s);
      LoopForgetsStart(env, next, n - 1, n, n + 1, last);
      LoopMovesNames(env, next, n + 1, last);
    }
  }

  lemma NextNames(backend: Backend, n: int, s: Store)
    requires WellFormed(s) && s.version == n - 1 && 2 <= n <= LAST_VERSION && NoEmptyRows(s)
    requires Apply(backend, n, s).Some?
    ensures NoEmptyRows(Apply(backend, n, s).value.(version := n))
  {
    hide Shape, Indexed, D.StoredText;
    if n == 5 {
      MovedNotEmpty(s);
    } else {
      ApplyKeepsAttributes(backend, n, s);
    }
  }

  /** The text of a cell. */
  function TextOf(cell: Cell): Option<string> {
    if cell.Str? then Some(cell.text) else None
  }

  /** The upgrade from a version below 5: display names, and first and last names, are the
      old ones, and absent exactly if they were absent or empty. */
  lemma UpgradedNames(env: Env, s: Store, u: string)
    requires WellFormed(s) && s.version < 5 && u in s.users.rows
    requires MigrateFromVersion(env, s, LAST_VERSION).1
    ensures var s' := MigrateFromVersion(env, s, LAST_VERSION).0;
      && u in s'.users.rows && s'.attributes.Some?
      && var row, row', table := s.users.rows[u], s'.users.rows[u], s'.attributes.value.userAttributes;
      && Get(row', DisplayName) == NameKept(Get(row, DisplayName))
      && NameRead(table, u, FIRST_NAME, NameKept(Get(row, FirstName)))
      && NameRead(table, u, LAST_NAME, NameKept(Get(row, LastName)))
  {
    hide LogicalOf, Indexed, D.StoredText, D.StoredBytes, UserColumns, GroupColumns, GroupRowFits, AttributesFit,
      MigrateLoop, NameRead, NoEmptyRows;
    MigrationKeepsData(env, s, LAST_VERSION);
    LoopSkips(env, s, s.version, 2, LAST_VERSION);
    NoRowsYet(s);
    LoopMovesNames(env, s, s.version + 1, LAST_VERSION);
    var s' := MigrateFromVersion(env, s, LAST_VERSION).0;
    LogicalOfUser(s, s', u);
    assert UserRowFits(s.version, s.users.rows[u]);
    ReadsAsBefore(s, s', u, FirstName, FIRST_NAME);
    ReadsAsBefore(s, s', u, LastName, LAST_NAME);
  }

  lemma NoRowsYet(s: Store)
    requires s.attributes.None?
    ensures NoEmptyRows(s)
  {
  }

  lemma ReadsAsBefore(s: Store, s': Store, u: string, c: Column, name: string)
    requires s.attributes.None? && s'.attributes.Some? && NoEmptyRows(s') && u in s.users.rows && u in s'.users.rows
    requires name in [FIRST_NAME, LAST_NAME] && NameFits(Get(s.users.rows[u], c))
    requires LogicalName(s', u, s'.users.rows[u], c, name) == LogicalName(s, u, s.users.rows[u], c, name)
    ensures NameRead(s'.attributes.value.userAttributes, u, name, NameKept(Get(s.users.rows[u], c)))
  {
    var table, key := s'.attributes.value.userAttributes, AttributeKey(u, name);
    if key !in table {
      AbsentReads(table, u, name);
    }
    hide D.StoredText;
    assert key in table ==> key.owner == u && key.name == name;
  }

  lemma AbsentReads(table: AttributeTable<string>, u: string, name: string)
    requires AttributeKey(u, name) !in table
    ensures D.StoredText(table, u, name) == None
  {
  }

  /** Reading a name gives the text of the cell; there is no row exactly if it is absent. */
  ghost predicate NameRead(table: AttributeTable<string>, u: string, name: string, cell: Cell) {
    D.StoredText(table, u, name) == TextOf(cell) && (AttributeKey(u, name) in table <==> cell.Str?)
  }

  lemma LogicalOfUser(s: Store, s': Store, u: string)
    requires LogicalOf(s') == LogicalOf(s) && u in s.users.rows
    ensures u in s'.users.rows && LogicalUserOf(s', u, s'.users.rows[u]) == LogicalUserOf(s, u, s.users.rows[u])
  {
    hide LogicalUserOf, LogicalGroupOf, OtherAttributes;
    assert u in LogicalOf(s).users && u in LogicalOf(s').users;
  }

  const NEW_STORE: Store := Store(
    1, Table(UserColumns(1), map[]), Table(GroupColumns(1), map[]), multiset{}, None, false, None, {})

  /** No upgrade touches the attribute schemas but the one that creates them. */
  predicate StandardSchemas(s: Store) {
    s.attributes.Some? ==>
      s.attributes.value.userSchema == EMPTY_DB.userSchema && s.attributes.value.groupSchema == map[]
  }

  lemma ApplyKeepsSchemas(backend: Backend, n: int, s: Store)
    requires 2 <= n <= LAST_VERSION && StandardSchemas(s) && Apply(backend, n, s).Some?
    ensures StandardSchemas(Apply(backend, n, s).value)
  {
    hide MovedRows, Replaced, DropColumn, AddColumn, UpdateColumn, IndexHolds, Once, NoRepeats;
  }

  lemma {:induction false} LoopKeepsSchemas(env: Env, s: Store, version: int, n: int, last: int)
    requires 2 <= n && last <= LAST_VERSION && StandardSchemas(s)
    ensures StandardSchemas(MigrateLoop(env, s, version, n, last).0)
    decreases last - n
  {
    hide Apply, StandardSchemas;
    if n <= last {
      if version >= n {
        LoopKeepsSchemas(env, s, version, n + 1, last);
      } else if Transaction(env, n, s).Some? {
        ApplyKeepsSchemas(env.backend, n, s);
        var next := Transaction(env, n, s).value;
        VersionIsNoSchema(Apply(env.backend, n, s).value, n);
        LoopKeepsSchemas(env, next, version, n + 1, last);
      }
    }
  }

  lemma VersionIsNoSchema(s: Store, n: int)
    ensures StandardSchemas(s) <==> StandardSchemas(s.(version := n))
  {
  }

  lemma NewStoreFits()
    ensures WellFormed(NEW_STORE) && Upgradable(LogicalOf(NEW_STORE)) && NoRepeats(NEW_STORE.memberships)
  {
  }

  lemma EmptyLogical(s: Store)
    requires WellFormed(s) && s.version == LAST_VERSION && StandardSchemas(s) && LogicalOf(s) == LogicalOf(NEW_STORE)
    ensures ToDb(s, 1) == EMPTY_DB
  {
    hide Indexed, UserRowFits, GroupRowFits, LogicalUserOf, LogicalGroupOf, WellTyped, UserColumns, GroupColumns;
    var d := LogicalOf(s);
    var a := s.attributes.value;
    assert d.users == map[] && d.groups == map[] && d.memberships == {};
    assert s.users.rows.Keys == d.users.Keys && s.groups.rows.Keys == d.groups.Keys;
    assert forall k: AttributeKey<string> :: k !in a.userAttributes;
    assert a.userAttributes == map[] && a.groupAttributes == map[];
    assert s.users.rows == map[] && s.groups.rows == map[];
    var db := ToDb(s, 1);
    assert db.users == map[] && db.groups == map[];
    assert db.memberships == {};
  }

  /** A new database ends up with the empty tables that the directory starts from. */
  lemma NewDatabase(backend: Backend)
    ensures var (s, ok) := MigrateFromVersion(Env(backend, {}), NEW_STORE, LAST_VERSION);
      ok && s.attributes.Some? && s.classes.Some? && ToDb(s, 1) == EMPTY_DB
  {
    hide LogicalOf, MigrateLoop, Indexed, NoRepeats, Upgradable, StandardSchemas;
    var env := Env(backend, {});
    NewStoreFits();
    UpgradeSucceedsExactly(backend, NEW_STORE);
    MigrationKeepsData(env, NEW_STORE, LAST_VERSION);
    NoSchemasYet();
    LoopKeepsSchemas(env, NEW_STORE, 1, 2, LAST_VERSION);
    EmptyLogical(MigrateFromVersion(env, NEW_STORE, LAST_VERSION).0);
  }

  lemma NoSchemasYet()
    ensures StandardSchemas(NEW_STORE)
  {
  }
}
