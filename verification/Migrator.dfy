/** The upgrades as they run: tables changed in place inside a transaction that is
    dropped on failure. Each method is tied to its migration in module Migrations. */
module Migrator {
  import opened Wrappers
  import opened Codec
  import opened Database
  import opened SchemaTables
  import opened Migrations
  import D = Directory
  import MigrationsKeep

  /** Rows to insert, in the order in which they were pushed. */
  datatype Statement = Statement(rows: seq<(AttributeKey<string>, seq<byte>)>)

  /** Executing an insertion into an empty table fails on a repeated key. */
  function Execute(statement: Statement): Option<AttributeTable<string>>
    decreases |statement.rows|
  {
    if statement.rows == [] then Some(map[])
    else
      var last := |statement.rows| - 1;
      var table :- Execute(Statement(statement.rows[..last]));
      var (key, bytes) := statement.rows[last];
      if key in table then None else Some(table[key := bytes])
  }

  lemma ExecutePushed(statement: Statement, key: AttributeKey<string>, bytes: seq<byte>)
    requires Execute(statement).Some? && key !in Execute(statement).value
    ensures Execute(Statement(statement.rows + [(key, bytes)])) == Some(Execute(statement).value[key := bytes])
  {
    var rows := statement.rows + [(key, bytes)];
    assert rows[..|rows| - 1] == statement.rows;
  }

  /** Pushing a row whose key is new adds it to what the statement inserts. */
  lemma ExecuteAdds(statement: Statement, table: AttributeTable<string>, key: AttributeKey<string>, bytes: seq<byte>)
    requires Execute(statement) == Some(table) && key !in table
    ensures Execute(Statement(statement.rows + [(key, bytes)])) == Some(table + map[key := bytes])
  {
    ExecutePushed(statement, key, bytes);
    assert table[key := bytes] == table + map[key := bytes];
  }

  /** Pushes a row if there is a value. */
  method PushRow(statement: Statement, ghost table: AttributeTable<string>, key: AttributeKey<string>,
                 value: Option<seq<byte>>)
    returns (r: Statement)
    requires Execute(statement) == Some(table) && key !in table
    ensures Execute(r) == Some(table + if value.Some? then map[key := value.value] else map[])
  {
    r := statement;
    if value.Some? {
      ExecuteAdds(statement, table, key, value.value);
      r := Statement(statement.rows + [(key, value.value)]);
    } else {
      assert table + map[] == table;
    }
  }

  function TextToMove(c: Cell): Option<seq<byte>>
    requires NameFits(c)
  {
    if c.Null? then None else Some(D.SerializedText(c.text))
  }

  function PhotoToMove(c: Cell): Option<seq<byte>>
    requires PhotoCellFits(c)
  {
    if c.Null? then None else Some(D.SerializedPhoto(c.bytes))
  }

  /** Pushes the rows of one user. */
  method PushUser(statement: Statement, ghost table: AttributeTable<string>, u: string, row: Row) returns (r: Statement)
    requires NameFits(Get(row, FirstName)) && NameFits(Get(row, LastName)) && PhotoCellFits(Get(row, Avatar))
    requires Execute(statement) == Some(table) && forall k :: k in table ==> k.owner != u
    ensures Execute(r) == Some(table + RowsOfUser(u, row))
  {
    hide Execute, NameFits, PhotoCellFits, TextRow, PhotoRow, TextToMove, PhotoToMove;
    ghost var first := TextRow(u, FIRST_NAME, Get(row, FirstName));
    ghost var last := TextRow(u, LAST_NAME, Get(row, LastName));
    ghost var photo := PhotoRow(u, Get(row, Avatar));
    OwnKeysAreNew(table, u, row);
    RowsToMove(u, row);
    r := PushRow(statement, table, AttributeKey(u, FIRST_NAME), TextToMove(Get(row, FirstName)));
    r := PushRow(r, table + first, AttributeKey(u, LAST_NAME), TextToMove(Get(row, LastName)));
    r := PushRow(r, table + first + last, AttributeKey(u, AVATAR), PhotoToMove(Get(row, Avatar)));
    SumOfMaps(table, first, last, photo);
  }

  lemma SumOfMaps(a: AttributeTable<string>, b: AttributeTable<string>, c: AttributeTable<string>,
                  d: AttributeTable<string>)
    ensures a + b + c + d == a + (b + c + d)
  {
  }

  lemma OwnKeysAreNew(table: AttributeTable<string>, u: string, row: Row)
    requires NameFits(Get(row, FirstName)) && NameFits(Get(row, LastName))
    requires forall k :: k in table ==> k.owner != u
    ensures AttributeKey(u, FIRST_NAME) !in table
    ensures AttributeKey(u, LAST_NAME) !in table + TextRow(u, FIRST_NAME, Get(row, FirstName))
    ensures AttributeKey(u, AVATAR) !in
              table + TextRow(u, FIRST_NAME, Get(row, FirstName)) + TextRow(u, LAST_NAME, Get(row, LastName))
  {
    hide D.SerializedText;
    NamesDiffer();
  }

  lemma RowsToMove(u: string, row: Row)
    requires NameFits(Get(row, FirstName)) && NameFits(Get(row, LastName)) && PhotoCellFits(Get(row, Avatar))
    ensures forall name, c :: NameFits(c) ==>
      TextRow(u, name, c) == if TextToMove(c).Some? then map[AttributeKey(u, name) := TextToMove(c).value] else map[]
    ensures forall c :: PhotoCellFits(c) ==>
      PhotoRow(u, c) == if PhotoToMove(c).Some? then map[AttributeKey(u, AVATAR) := PhotoToMove(c).value] else map[]
  {
    hide D.SerializedText, D.SerializedPhoto;
  }

  /** The moved rows of some of the users. */
  ghost function MovedOf(users: map<string, Row>, done: set<string>): AttributeTable<string>
    requires NamesFit(users)
  {
    map k | k in MovedRows(users) && k.owner in done :: MovedRows(users)[k]
  }

  lemma MovedOfUser(users: map<string, Row>, u: string)
    requires NamesFit(users) && u in users
    ensures forall k :: (k in MovedRows(users) && k.owner == u) <==> k in RowsOfUser(u, users[u])
    ensures forall k :: k in RowsOfUser(u, users[u]) ==> MovedRows(users)[k] == RowsOfUser(u, users[u])[k]
  {
    hide RowsOfUser;
    MigrationsKeep.RowsOfUserAre(u, users[u]);
  }

  lemma MovedOneMore(users: map<string, Row>, done: set<string>, u: string)
    requires NamesFit(users) && u in users && u !in done
    ensures MovedOf(users, done + {u}) == MovedOf(users, done) + RowsOfUser(u, users[u])
  {
    hide RowsOfUser, MovedRows;
    MovedOfUser(users, u);
    assert MovedOf(users, done + {u}).Keys == (MovedOf(users, done) + RowsOfUser(u, users[u])).Keys;
  }

  lemma MovedOfAll(users: map<string, Row>)
    requires NamesFit(users)
    ensures MovedOf(users, {}) == map[] && MovedOf(users, users.Keys) == MovedRows(users)
  {
    hide RowsOfUser;
  }

  /** Collects the rows of all users, in no particular order. */
  method BuildStatement(users: map<string, Row>) returns (r: Statement)
    requires NamesFit(users)
    ensures Execute(r) == Some(MovedRows(users))
  {
    r := Statement([]);
    MovedOfAll(users);
    ghost var done: set<string> := {};
    var remaining := users.Keys;
    while remaining != {}
      invariant remaining !! done && remaining + done == users.Keys
      invariant Execute(r) == Some(MovedOf(users, done))
      decreases remaining
    {
      hide Execute, RowsOfUser, MovedRows;
      var u :| u in remaining;
      MovedOneMore(users, done, u);
      r := PushUser(r, MovedOf(users, done), u, users[u]);
      remaining := remaining - {u};
      done := done + {u};
    }
    assert done == users.Keys;
  }

  class Migrator {
    const backend: Backend
    var version: int
    var users: Table<string>
    var groups: Table<int>
    var memberships: multiset<Membership>
    var attributes: Option<AttributeTables>
    var keyColumns: bool
    var classes: Option<Classes>
    var indexes: set<Index>

    function View(): Store
      reads this
    {
      Store(version, users, groups, memberships, attributes, keyColumns, classes, indexes)
    }

    constructor (backend: Backend, s: Store)
      ensures View() == s && this.backend == backend
    {
      this.backend := backend;
      version, users, groups, memberships := s.version, s.users, s.groups, s.memberships;
      attributes, keyColumns, classes, indexes := s.attributes, s.keyColumns, s.classes, s.indexes;
    }

    method Rollback(s: Store)
      modifies this
      ensures View() == s
    {
      version, users, groups, memberships := s.version, s.users, s.groups, s.memberships;
      attributes, keyColumns, classes, indexes := s.attributes, s.keyColumns, s.classes, s.indexes;
    }

    method ReplaceUserColumn(c: Column, updates: seq<Cell -> Cell>) returns (ok: bool)
      requires HasItsColumns(users) && c != TempName
      modifies this`users
      ensures ok == Replaced(old(users), c, updates).Some?
      ensures ok ==> users == Replaced(old(users), c, updates).value
      ensures ok ==> HasItsColumns(users)
    {
      var r := ReplaceColumn(users, c, updates);
      ok := r.Some?;
      if ok {
        ReplacedHasColumns(users, c, updates);
        users := r.value;
      }
    }

    method AddIndex(i: Index) returns (ok: bool)
      modifies this`indexes
      ensures ok == CreateIndex(old(View()), i).Some?
      ensures ok ==> View() == CreateIndex(old(View()), i).value
      ensures !ok ==> View() == old(View())
    {
      ok := i in indexes || IndexHolds(View(), i);
      if ok && i !in indexes {
        indexes := indexes + {i};
      }
    }

    method DoMigrateTo2() returns (ok: bool)
      requires HasItsColumns(users)
      modifies this`users
      ensures MigrateTo2(old(View())) == if ok then Some(View()) else None
    {
      ok := ReplaceUserColumn(DisplayName, [EmptyToNull]);
    }

    method DoMigrateTo3() returns (ok: bool)
      requires HasItsColumns(users)
      modifies this`users
      ensures MigrateTo3(old(View())) == if ok then Some(View()) else None
    {
      hide Replaced;
      ok := ReplaceUserColumn(FirstName, [EmptyToNull]);
      if ok {
        ok := ReplaceUserColumn(LastName, [EmptyToNull]);
      }
      if ok {
        ok := ReplaceUserColumn(Avatar, []);
      }
    }

    method DoMigrateTo4() returns (ok: bool)
      modifies this`indexes
      ensures MigrateTo4(old(View())) == if ok then Some(View()) else None
    {
      hide CreateIndex;
      ok := AddIndex(UserEmailIndex);
      if ok {
        ok := AddIndex(UserUuidIndex);
      }
      if ok {
        ok := AddIndex(GroupUuidIndex);
      }
    }

    method DropUserColumn(c: Column) returns (ok: bool)
      modifies this`users
      ensures DropColumn(old(users), c) == if ok then Some(users) else None
    {
      var r := DropColumn(users, c);
      ok := r.Some?;
      if ok {
        users := r.value;
      }
    }

    /** Creates the attribute tables, moves the three columns into them, drops the columns. */
    method DoMigrateTo5() returns (ok: bool)
      modifies this`users, this`attributes
      ensures MigrateTo5(old(View())) == if ok then Some(View()) else None
    {
      hide Execute, MovedRows, DropColumn, NamesFit;
      if attributes.Some? || !NamesFit(users.rows) {
        return false;
      }
      var statement := BuildStatement(users.rows);
      var table := Execute(statement).value;
      attributes := Some(AttributeTables(EMPTY_DB.userSchema, map[], table, map[]));
      ok := DropUserColumn(FirstName);
      if ok {
        ok := DropUserColumn(LastName);
      }
      if ok {
        ok := DropUserColumn(Avatar);
      }
    }

    method DoMigrateTo6() returns (ok: bool)
      modifies this`users, this`groups
      ensures MigrateTo6(old(View())) == if ok then Some(View()) else None
    {
      hide AddColumn;
      var newGroups := AddColumn(groups, LowercaseDisplayName, Str("UNSET"));
      if newGroups.None? {
        return false;
      }
      groups := newGroups.value;
      var newUsers := AddColumn(users, LowercaseEmail, Str("UNSET"));
      if newUsers.None? {
        return false;
      }
      users := newUsers.value;
      newGroups := UpdateColumn(groups, LowercaseDisplayName, (row: Row) => LowerCell(Get(row, DisplayName)));
      if newGroups.None? {
        return false;
      }
      groups := newGroups.value;
      newUsers := UpdateColumn(users, LowercaseEmail, (row: Row) => LowerCell(Get(row, Email)));
      if newUsers.None? {
        return false;
      }
      users := newUsers.value;
      ok := true;
    }

    method DoMigrateTo7() returns (ok: bool)
      modifies this`keyColumns
      ensures MigrateTo7(old(View())) == if ok then Some(View()) else None
    {
      ok := !keyColumns;
      if ok {
        keyColumns := true;
      }
    }

    /** Deletes all but one of each repeated membership, one statement per pair. */
    method DoMigrateTo8() returns (ok: bool)
      modifies this`memberships, this`indexes
      ensures MigrateTo8(backend, old(View())) == if ok then Some(View()) else None
    {
      var repeated := set x | x in memberships && memberships[x] > 1;
      if repeated != {} {
        var x :| x in repeated;
        assert !NoRepeats(memberships);
        if backend.Sqlite? {
          return false;
        }
        DeleteRepeated(repeated);
      } else {
        assert forall x :: x in memberships ==> x !in repeated;
      }
      assert NoRepeats(old(memberships)) ==> memberships == old(memberships);
      ok := AddIndex(MembershipIndex);
    }

    method DeleteRepeated(repeated: set<Membership>)
      requires repeated == set x | x in memberships && memberships[x] > 1
      modifies this`memberships
      ensures memberships == Once(old(memberships))
    {
      var remaining := repeated;
      while remaining != {}
        invariant remaining <= repeated
        invariant forall x :: memberships[x] == if x in repeated - remaining then 1 else old(memberships)[x]
        decreases remaining
      {
        var x :| x in remaining;
        var count := memberships[x];
        memberships := memberships[x := count - (count - 1)];
        remaining := remaining - {x};
      }
      MigrationsKeep.OnceEach(old(memberships));
      forall x
        ensures memberships[x] == Once(old(memberships))[x]
      {
        if x in old(memberships) && x !in repeated {
          assert old(memberships)[x] == 1;
        }
      }
    }

    method DoMigrateTo9() returns (ok: bool)
      modifies this`classes
      ensures MigrateTo9(old(View())) == if ok then Some(View()) else None
    {
      if classes.None? {
        classes := Some(Classes(map[], map[]));
      }
      ok := true;
    }

    method DoMigrateTo10() returns (ok: bool)
      modifies this`indexes
      ensures MigrateTo10(old(View())) == if ok then Some(View()) else None
    {
      hide CreateIndex;
      ok := AddIndex(GroupNameIndex);
      if ok {
        ok := AddIndex(UserLowerEmailIndex);
      }
    }

    method RunMigration(n: int) returns (ok: bool)
      requires 2 <= n <= LAST_VERSION && HasItsColumns(users)
      modifies this
      ensures Apply(backend, n, old(View())) == if ok then Some(View()) else None
    {
      hide MigrateTo2, MigrateTo3, MigrateTo4, MigrateTo5, MigrateTo6, MigrateTo7, MigrateTo8, MigrateTo9, MigrateTo10;
      match n
      case 2 => ok := DoMigrateTo2();
      case 3 => ok := DoMigrateTo3();
      case 4 => ok := DoMigrateTo4();
      case 5 => ok := DoMigrateTo5();
      case 6 => ok := DoMigrateTo6();
      case 7 => ok := DoMigrateTo7();
      case 8 => ok := DoMigrateTo8();
      case 9 => ok := DoMigrateTo9();
      case _ => ok := DoMigrateTo10();
    }

    /** One transaction per version; the first that fails ends the run, and what the
        others did stays. */
    method Migrate(faults: set<int>, last: int) returns (ok: bool)
      requires last <= LAST_VERSION && WellFormed(View())
      modifies this
      ensures (View(), ok) == MigrateFromVersion(Env(backend, faults), old(View()), last)
      ensures WellFormed(View()) && LogicalOf(View()) == LogicalOf(old(View()))
    {
      hide Apply, Shape, Indexed, LogicalOf;
      if version <= last {
        MigrationsKeep.MigrationKeepsData(Env(backend, faults), View(), last);
      }
      var start := version;
      if start == last {
        return true;
      }
      if start > last {
        return false;
      }
      ghost var env := Env(backend, faults);
      var n := 2;
      while n <= last
        invariant 2 <= n <= last + 1
        invariant WellFormed(View())
        invariant version == if n - 1 < start then start else n - 1
        invariant MigrateLoop(env, View(), start, n, last) == MigrateLoop(env, old(View()), start, 2, last)
      {
        if start < n {
          var saved := View();
          MigrationsKeep.MigrationIsGood(backend, n, saved);
          MigrationsKeep.ValidTables(saved);
          ok := n !in faults;
          if ok {
            ok := RunMigration(n);
          }
          if !ok {
            Rollback(saved);
            return false;
          }
          version := n;
        }
        n := n + 1;
      }
      ok := true;
    }
  }

  lemma ReplacedHasColumns(t: Table<string>, c: Column, updates: seq<Cell -> Cell>)
    requires HasItsColumns(t) && Replaced(t, c, updates).Some?
    ensures HasItsColumns(Replaced(t, c, updates).value)
  {
    var r := Replaced(t, c, updates).value;
    forall k | k in t.rows
      ensures r.rows[k].Keys == t.columns
    {
      MigrationsKeep.SetColumns(t.rows[k], c, r.rows[k][c]);
    }
  }
}
