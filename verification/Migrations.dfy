/** The upgrades of the database schema from version 1 to version 10, one transaction
    each, and what they keep of the data. */
module Migrations {
  import opened Wrappers
  import opened Text
  import opened Codec
  import opened Schema
  import opened Database
  import opened SchemaTables
  import D = Directory

  datatype Backend = Sqlite | MySql | Postgres

  datatype Index =
    | UserEmailIndex
    | UserUuidIndex
    | GroupUuidIndex
    | MembershipIndex
    | GroupNameIndex
    | UserLowerEmailIndex

  datatype AttributeTables = AttributeTables(
    userSchema: map<string, SchemaRow>,
    groupSchema: map<string, SchemaRow>,
    userAttributes: AttributeTable<string>,
    groupAttributes: AttributeTable<int>)

  datatype Classes = Classes(users: map<string, string>, groups: map<string, string>)

  /** The tables that exist at some version. Memberships are a bag: before version 8
      nothing stops repeated rows. */
  datatype Store = Store(
    version: int,
    users: Table<string>,
    groups: Table<int>,
    memberships: multiset<Membership>,
    attributes: Option<AttributeTables>,
    keyColumns: bool,
    classes: Option<Classes>,
    indexes: set<Index>)

  const LAST_VERSION := 10

  // ----- Unique indexes -----

  /** As in SQL, absent values never clash. */
  predicate UniqueColumn<T(!new)>(t: Table<T>, c: Column) {
    forall k, l :: k in t.rows && l in t.rows && k != l ==>
      Get(t.rows[k], c) == Null || Get(t.rows[k], c) != Get(t.rows[l], c)
  }

  predicate NoRepeats(m: multiset<Membership>) {
    forall x :: x in m ==> m[x] == 1
  }

  predicate IndexHolds(s: Store, i: Index) {
    match i
    case UserEmailIndex => UniqueColumn(s.users, Email)
    case UserUuidIndex => UniqueColumn(s.users, Uuid)
    case GroupUuidIndex => UniqueColumn(s.groups, Uuid)
    case MembershipIndex => NoRepeats(s.memberships)
    case GroupNameIndex => UniqueColumn(s.groups, LowercaseDisplayName)
    case UserLowerEmailIndex => UniqueColumn(s.users, LowercaseEmail)
  }

  function CreateIndex(s: Store, i: Index): Option<Store> {
    if i in s.indexes then Some(s)
    else if IndexHolds(s, i) then Some(s.(indexes := s.indexes + {i}))
    else None
  }

  // ----- The migrations -----

  function Replaced<T(==)>(t: Table<T>, c: Column, updates: seq<Cell -> Cell>): Option<Table<T>> {
    if c in t.columns && TempName !in t.columns then Some(MapColumn(t, c, updates)) else None
  }

  function MigrateTo2(s: Store): Option<Store> {
    var users :- Replaced(s.users, DisplayName, [EmptyToNull]);
    Some(s.(users := users))
  }

  function MigrateTo3(s: Store): Option<Store> {
    var users :- Replaced(s.users, FirstName, [EmptyToNull]);
    var users :- Replaced(users, LastName, [EmptyToNull]);
    var users :- Replaced(users, Avatar, []);
    Some(s.(users := users))
  }

  function MigrateTo4(s: Store): Option<Store> {
    var s :- CreateIndex(s, UserEmailIndex);
    var s :- CreateIndex(s, UserUuidIndex);
    CreateIndex(s, GroupUuidIndex)
  }

  predicate NameFits(c: Cell) {
    c.Null? || (c.Str? && IsText(c.text))
  }

  predicate PhotoCellFits(c: Cell) {
    c.Null? || (c.Blob? && |c.bytes| < TWO_64)
  }

  predicate NamesFit(users: map<string, Row>) {
    forall u :: u in users ==>
      NameFits(Get(users[u], FirstName)) && NameFits(Get(users[u], LastName)) && PhotoCellFits(Get(users[u], Avatar))
  }

  function TextRow(u: string, name: string, c: Cell): AttributeTable<string>
    requires NameFits(c)
  {
    if c.Null? then map[] else map[AttributeKey(u, name) := D.SerializedText(c.text)]
  }

  function PhotoRow(u: string, c: Cell): AttributeTable<string>
    requires PhotoCellFits(c)
  {
    if c.Null? then map[] else map[AttributeKey(u, AVATAR) := D.SerializedPhoto(c.bytes)]
  }

  /** The attribute rows that take the place of the columns of one user. */
  function RowsOfUser(u: string, row: Row): AttributeTable<string>
    requires NameFits(Get(row, FirstName)) && NameFits(Get(row, LastName)) && PhotoCellFits(Get(row, Avatar))
  {
    TextRow(u, FIRST_NAME, Get(row, FirstName)) + TextRow(u, LAST_NAME, Get(row, LastName)) +
      PhotoRow(u, Get(row, Avatar))
  }

  /** ... and of all users. */
  function MovedRows(users: map<string, Row>): AttributeTable<string>
    requires NamesFit(users)
  {
    map k: AttributeKey<string> | k in MovedKeys(users) && k in RowsOfUser(k.owner, users[k.owner]) ::
      RowsOfUser(k.owner, users[k.owner])[k]
  }

  function MovedKeys(users: map<string, Row>): (r: set<AttributeKey<string>>)
    ensures forall k :: k in r <==> k.owner in users && k.name in [FIRST_NAME, LAST_NAME, AVATAR]
  {
    (set u | u in users :: AttributeKey(u, FIRST_NAME)) +
    (set u | u in users :: AttributeKey(u, LAST_NAME)) +
    (set u | u in users :: AttributeKey(u, AVATAR))
  }

  function MigrateTo5(s: Store): Option<Store> {
    if s.attributes.Some? || !NamesFit(s.users.rows) then None
    else
      var attributes := AttributeTables(EMPTY_DB.userSchema, map[], MovedRows(s.users.rows), map[]);
      var users :- DropColumn(s.users, FirstName);
      var users :- DropColumn(users, LastName);
      var users :- DropColumn(users, Avatar);
      Some(s.(users := users, attributes := Some(attributes)))
  }

  function LowerCell(c: Cell): Cell {
    if c.Str? then Str(Lower(c.text)) else c
  }

  function MigrateTo6(s: Store): Option<Store> {
    var groups :- AddColumn(s.groups, LowercaseDisplayName, Str("UNSET"));
    var users :- AddColumn(s.users, LowercaseEmail, Str("UNSET"));
    var groups :- UpdateColumn(groups, LowercaseDisplayName, (row: Row) => LowerCell(Get(row, DisplayName)));
    var users :- UpdateColumn(users, LowercaseEmail, (row: Row) => LowerCell(Get(row, Email)));
    Some(s.(users := users, groups := groups))
  }

  function MigrateTo7(s: Store): Option<Store> {
    if s.keyColumns then None else Some(s.(keyColumns := true))
  }

  function Once(m: multiset<Membership>): multiset<Membership> {
    multiset(set x | x in m)
  }

  /** Deleting a limited number of rows is not possible in every database. */
  function MigrateTo8(backend: Backend, s: Store): Option<Store> {
    if NoRepeats(s.memberships) then CreateIndex(s, MembershipIndex)
    else if backend.Sqlite? then None
    else CreateIndex(s.(memberships := Once(s.memberships)), MembershipIndex)
  }

  function MigrateTo9(s: Store): Option<Store> {
    Some(if s.classes.Some? then s else s.(classes := Some(Classes(map[], map[]))))
  }

  function MigrateTo10(s: Store): Option<Store> {
    var s :- CreateIndex(s, GroupNameIndex);
    CreateIndex(s, UserLowerEmailIndex)
  }

  function Apply(backend: Backend, n: int, s: Store): Option<Store>
    requires 2 <= n <= LAST_VERSION
  {
    match n
    case 2 => MigrateTo2(s)
    case 3 => MigrateTo3(s)
    case 4 => MigrateTo4(s)
    case 5 => MigrateTo5(s)
    case 6 => MigrateTo6(s)
    case 7 => MigrateTo7(s)
    case 8 => MigrateTo8(backend, s)
    case 9 => MigrateTo9(s)
    case _ => MigrateTo10(s)
  }

  // ----- The driver -----

  /** What a run depends on: the database product, and the migrations whose transaction
      fails for outside reasons. */
  datatype Env = Env(backend: Backend, faults: set<int>)

  function Transaction(env: Env, n: int, s: Store): (r: Option<Store>)
    requires 2 <= n <= LAST_VERSION
    ensures r.Some? ==> r.value.version == n
  {
    if n in env.faults then None
    else
      var s' :- Apply(env.backend, n, s);
      Some(s'.(version := n))
  }

  /** The migrations from `n` on, skipping those already done; it stops at the first
      failure. */
  function MigrateLoop(env: Env, s: Store, version: int, n: int, last: int): (Store, bool)
    requires 2 <= n && last <= LAST_VERSION
    decreases last - n
  {
    if n > last then (s, true)
    else if version < n then
      match Transaction(env, n, s)
      case None => (s, false)
      case Some(s') => MigrateLoop(env, s', version, n + 1, last)
    else MigrateLoop(env, s, version, n + 1, last)
  }

  function MigrateFromVersion(env: Env, s: Store, last: int): (Store, bool)
    requires last <= LAST_VERSION
  {
    if s.version == last then (s, true)
    else if s.version > last then (s, false)
    else MigrateLoop(env, s, s.version, 2, last)
  }

  // ----- Stopping and resuming -----

  lemma {:induction false} LoopSkips(env: Env, s: Store, version: int, n: int, last: int)
    requires 2 <= n <= version + 1 && last <= LAST_VERSION && version <= last
    ensures MigrateLoop(env, s, version, n, last) == MigrateLoop(env, s, version, version + 1, last)
    decreases version - n
  {
    if n <= version {
      LoopSkips(env, s, version, n + 1, last);
    }
  }

  /** The version recorded at the start only decides where the loop begins. */
  lemma {:induction false} LoopForgetsStart(env: Env, s: Store, v: int, w: int, n: int, last: int)
    requires 2 <= n && v < n && w < n && last <= LAST_VERSION
    ensures MigrateLoop(env, s, v, n, last) == MigrateLoop(env, s, w, n, last)
    decreases last - n
  {
    hide Transaction;
    if n <= last && Transaction(env, n, s).Some? {
      LoopForgetsStart(env, Transaction(env, n, s).value, v, w, n + 1, last);
    }
  }

  /** The loop runs each transaction on the state that the one before left, whose
      version it recorded. */
  lemma {:induction false} LoopSplits(env: Env, s: Store, n: int, mid: int, last: int)
    requires s.version == n - 1 && 2 <= n <= mid + 1 <= last + 1 <= LAST_VERSION + 1
    ensures var (s', ok) := MigrateLoop(env, s, n - 1, n, mid);
      && n - 1 <= s'.version <= mid
      && (ok <==> s'.version == mid)
      && (ok ==> MigrateLoop(env, s, n - 1, n, last) == MigrateLoop(env, s', mid, mid + 1, last))
      && (!ok ==> MigrateLoop(env, s, n - 1, n, last) == (s', false))
      && (!ok ==> Transaction(env, s'.version + 1, s').None?)
    decreases mid - n
  {
    hide Transaction;
    if n > mid {
    } else if Transaction(env, n, s).Some? {
      var next := Transaction(env, n, s).value;
      LoopForgetsStart(env, next, n - 1, n, n + 1, last);
      LoopForgetsStart(env, next, n - 1, n, n + 1, mid);
      LoopSplits(env, next, n + 1, mid, last);
    }
  }

  /** From a version on, the driver is the loop from the next migration. */
  lemma StartsThere(env: Env, s: Store, last: int)
    requires 1 <= s.version <= last <= LAST_VERSION
    ensures MigrateFromVersion(env, s, last) == MigrateLoop(env, s, s.version, s.version + 1, last)
  {
    hide Transaction;
    LoopSkips(env, s, s.version, 2, last);
  }

  /** Migrating to a version and then further is migrating all the way. */
  lemma MigrationComposes(env: Env, s: Store, mid: int, last: int)
    requires 1 <= s.version <= mid <= last <= LAST_VERSION
    ensures var (s', ok) := MigrateFromVersion(env, s, mid);
      MigrateFromVersion(env, s, last) == if ok then MigrateFromVersion(env, s', last) else (s', false)
  {
    hide Transaction, MigrateLoop, MigrateFromVersion;
    StartsThere(env, s, last);
    StartsThere(env, s, mid);
    LoopSplits(env, s, s.version + 1, mid, last);
    var (s', ok) := MigrateFromVersion(env, s, mid);
    if ok {
      StartsThere(env, s', last);
    }
  }

  /** With fewer faults, a run gets at least to where the other stopped, in the same way. */
  lemma {:induction false} LoopReaches(env: Env, calmer: Env, s: Store, n: int, last: int)
    requires s.version == n - 1 && 2 <= n <= last + 1 <= LAST_VERSION + 1
    requires calmer.backend == env.backend && calmer.faults <= env.faults
    ensures var (s', ok) := MigrateLoop(env, s, n - 1, n, last);
      && n - 1 <= s'.version <= last
      && MigrateLoop(calmer, s, n - 1, n, s'.version) == (s', true)
    decreases last - n
  {
    hide Apply;
    if n <= last && Transaction(env, n, s).Some? {
      var next := Transaction(env, n, s).value;
      LoopReaches(env, calmer, next, n + 1, last);
      var (s', ok) := MigrateLoop(env, next, n, n + 1, last);
      LoopForgetsStart(env, next, n - 1, n, n + 1, last);
      LoopForgetsStart(calmer, next, n - 1, n, n + 1, s'.version);
    }
  }

  /** A run that fails has done exactly the migrations up to the recorded version, and
      the next one is the one that failed. */
  lemma StopsAtFailure(env: Env, s: Store, last: int)
    requires 1 <= s.version <= last <= LAST_VERSION
    ensures var (s', ok) := MigrateFromVersion(env, s, last);
      && s.version <= s'.version <= last
      && (ok <==> s'.version == last)
      && MigrateFromVersion(env, s, s'.version) == (s', true)
      && (!ok ==> Transaction(env, s'.version + 1, s').None?)
  {
    hide Transaction;
    LoopSkips(env, s, s.version, 2, last);
    LoopSplits(env, s, s.version + 1, last, last);
    LoopReaches(env, env, s, s.version + 1, last);
    LoopSkips(env, s, s.version, 2, MigrateFromVersion(env, s, last).0.version);
  }

  /** Running again after an interrupted run ends as a run without interruption does. */
  lemma RerunFinishes(env: Env, s: Store, last: int)
    requires 1 <= s.version <= last <= LAST_VERSION
    ensures var calm := Env(env.backend, {});
      MigrateFromVersion(calm, MigrateFromVersion(env, s, last).0, last) == MigrateFromVersion(calm, s, last)
  {
    hide Transaction;
    var calm := Env(env.backend, {});
    var (s', ok) := MigrateFromVersion(env, s, last);
    LoopSkips(env, s, s.version, 2, last);
    LoopReaches(env, calm, s, s.version + 1, last);
    LoopSkips(calm, s, s.version, 2, s'.version);
    MigrationComposes(calm, s, s'.version, last);
  }

  // ----- The data behind the tables -----

  /** A user independent of the version: an empty name is an absent one. */
  datatype LogicalUser = LogicalUser(
    email: Cell,
    displayName: Option<string>,
    firstName: Option<string>,
    lastName: Option<string>,
    avatar: Option<seq<byte>>,
    creationDate: Cell,
    passwordHash: Cell,
    totpSecret: Cell,
    mfaType: Cell,
    uuid: Cell)

  datatype LogicalGroup = LogicalGroup(displayName: Cell, creationDate: Cell, uuid: Cell)

  datatype Logical = Logical(
    users: map<string, LogicalUser>,
    groups: map<int, LogicalGroup>,
    memberships: set<Membership>,
    otherUserAttributes: AttributeTable<string>,
    groupAttributes: AttributeTable<int>,
    userClasses: map<string, string>,
    groupClasses: map<string, string>)

  function CellText(c: Cell): Option<string> {
    if c.Str? && c.text != "" then Some(c.text) else None
  }

  function CellPhoto(c: Cell): Option<seq<byte>> {
    if c.Blob? then Some(c.bytes) else None
  }

  function NonEmpty(s: Option<string>): Option<string> {
    if s == Some("") then None else s
  }

  function LogicalName(s: Store, u: string, row: Row, c: Column, name: string): Option<string> {
    if s.attributes.None? then CellText(Get(row, c))
    else NonEmpty(D.StoredText(s.attributes.value.userAttributes, u, name))
  }

  function LogicalPhoto(s: Store, u: string, row: Row): Option<seq<byte>> {
    if s.attributes.None? then CellPhoto(Get(row, Avatar))
    else D.StoredBytes(s.attributes.value.userAttributes, u, AVATAR, JpegPhoto)
  }

  function LogicalUserOf(s: Store, u: string, row: Row): LogicalUser {
    LogicalUser(
      Get(row, Email), CellText(Get(row, DisplayName)),
      LogicalName(s, u, row, FirstName, FIRST_NAME), LogicalName(s, u, row, LastName, LAST_NAME),
      LogicalPhoto(s, u, row),
      Get(row, CreationDate), Get(row, PasswordHash), Get(row, TotpSecret), Get(row, MfaType), Get(row, Uuid))
  }

  function LogicalGroupOf(row: Row): LogicalGroup {
    LogicalGroup(Get(row, DisplayName), Get(row, CreationDate), Get(row, Uuid))
  }

  function OtherAttributes(s: Store): AttributeTable<string> {
    if s.attributes.None? then map[]
    else
      var table := s.attributes.value.userAttributes;
      map k | k in table && k.name !in [FIRST_NAME, LAST_NAME, AVATAR] :: table[k]
  }

  function LogicalOf(s: Store): Logical {
    Logical(
      (map u | u in s.users.rows :: LogicalUserOf(s, u, s.users.rows[u])),
      (map g | g in s.groups.rows :: LogicalGroupOf(s.groups.rows[g])),
      (set x | x in s.memberships),
      OtherAttributes(s),
      if s.attributes.None? then map[] else s.attributes.value.groupAttributes,
      if s.classes.None? then map[] else s.classes.value.users,
      if s.classes.None? then map[] else s.classes.value.groups)
  }

  /** Two stores hold the same data if their rows do, entry by entry. */
  lemma SameLogical(s: Store, s': Store)
    requires s.users.rows.Keys == s'.users.rows.Keys && s.groups.rows.Keys == s'.groups.rows.Keys
    requires forall u :: u in s.users.rows ==>
      LogicalUserOf(s, u, s.users.rows[u]) == LogicalUserOf(s', u, s'.users.rows[u])
    requires forall g :: g in s.groups.rows ==> LogicalGroupOf(s.groups.rows[g]) == LogicalGroupOf(s'.groups.rows[g])
    requires forall x :: x in s.memberships <==> x in s'.memberships
    requires OtherAttributes(s) == OtherAttributes(s')
    requires LogicalOf(s).groupAttributes == LogicalOf(s').groupAttributes
    requires LogicalOf(s).userClasses == LogicalOf(s').userClasses
    requires LogicalOf(s).groupClasses == LogicalOf(s').groupClasses
    ensures LogicalOf(s) == LogicalOf(s')
  {
    hide LogicalUserOf, LogicalGroupOf, OtherAttributes;
    var a, b := LogicalOf(s), LogicalOf(s');
    assert a.users == b.users;
    forall g: int | g in a.groups
      ensures g in b.groups && a.groups[g] == b.groups[g]
    {
    }
    assert a.groups == b.groups;
    assert a.memberships == b.memberships;
  }

  // ----- What holds at each version -----

  function UserColumns(version: int): set<Column> {
    {Email, DisplayName, CreationDate, PasswordHash, TotpSecret, MfaType, Uuid} +
    (if version < 5 then {FirstName, LastName, Avatar} else {}) +
    (if version < 6 then {} else {LowercaseEmail})
  }

  function GroupColumns(version: int): set<Column> {
    {DisplayName, CreationDate, Uuid} + (if version < 6 then {} else {LowercaseDisplayName})
  }

  function IndexesAt(version: int): set<Index> {
    (if version < 4 then {} else {UserEmailIndex, UserUuidIndex, GroupUuidIndex}) +
    (if version < 8 then {} else {MembershipIndex}) +
    (if version < 10 then {} else {GroupNameIndex, UserLowerEmailIndex})
  }

  predicate UserRowFits(version: int, row: Row) {
    && row.Keys == UserColumns(version)
    && Get(row, Email).Str?
    && Get(row, Uuid).Str?
    && (Get(row, DisplayName).Str? || (version > 1 && Get(row, DisplayName).Null?))
    && (version > 1 ==> Get(row, DisplayName) != Str(""))
    && (2 < version < 5 ==> Get(row, FirstName) != Str("") && Get(row, LastName) != Str(""))
    && (version < 5 ==>
          NameFits(Get(row, FirstName)) && NameFits(Get(row, LastName)) && PhotoCellFits(Get(row, Avatar)))
    && (version >= 6 ==> Get(row, LowercaseEmail) == LowerCell(Get(row, Email)))
  }

  predicate GroupRowFits(version: int, row: Row) {
    && row.Keys == GroupColumns(version)
    && Get(row, DisplayName).Str?
    && Get(row, Uuid).Str?
    && (version >= 6 ==> Get(row, LowercaseDisplayName) == LowerCell(Get(row, DisplayName)))
  }

  ghost predicate AttributesFit(s: Store)
    requires s.attributes.Some?
  {
    var a := s.attributes.value;
    && (forall n :: n in EMPTY_DB.userSchema ==> n in a.userSchema && a.userSchema[n] == EMPTY_DB.userSchema[n])
    && (forall k :: k in a.userAttributes ==>
          k.owner in s.users.rows && k.name in a.userSchema && WellTyped(a.userAttributes[k], a.userSchema[k.name]))
    && (forall k :: k in a.groupAttributes ==>
          k.owner in s.groups.rows && k.name in a.groupSchema && WellTyped(a.groupAttributes[k], a.groupSchema[k.name]))
  }

  ghost predicate Shape(version: int, s: Store) {
    && s.users.columns == UserColumns(version)
    && s.groups.columns == GroupColumns(version)
    && (forall u :: u in s.users.rows ==> UserRowFits(version, s.users.rows[u]))
    && (forall g :: g in s.groups.rows ==> GroupRowFits(version, s.groups.rows[g]))
    && (forall x :: x in s.memberships ==> x.user in s.users.rows && x.group in s.groups.rows)
    && (s.attributes.Some? <==> version >= 5)
    && (s.attributes.Some? ==> AttributesFit(s))
    && (s.keyColumns <==> version >= 7)
    && (s.classes.Some? <==> version >= 9)
  }

  predicate Indexed(version: int, s: Store) {
    s.indexes == IndexesAt(version) && forall i :: i in s.indexes ==> IndexHolds(s, i)
  }

  /** The shape and the constraints of the tables as a server of that version keeps them;
      from the version on that turns empty names into absent ones, none is stored empty. */
  ghost predicate WellFormed(s: Store) {
    1 <= s.version <= LAST_VERSION && Shape(s.version, s) && Indexed(s.version, s)
  }

  /** When a migration of a well-formed store fails: only if the data breaks a new
      uniqueness, or repeated memberships cannot be deleted. */
  predicate Blocked(backend: Backend, n: int, s: Store) {
    || (n == 4 && !(UniqueColumn(s.users, Email) && UniqueColumn(s.users, Uuid) && UniqueColumn(s.groups, Uuid)))
    || (n == 8 && backend.Sqlite? && !NoRepeats(s.memberships))
    || (n == 10 && !(UniqueColumn(s.groups, LowercaseDisplayName) && UniqueColumn(s.users, LowercaseEmail)))
  }

  /** What one migration promises. */
  ghost predicate GoodMigration(backend: Backend, n: int, s: Store)
    requires 2 <= n <= LAST_VERSION
  {
    var r := Apply(backend, n, s);
    && (r.None? <==> Blocked(backend, n, s))
    && (r.Some? ==> WellFormed(r.value.(version := n)) && LogicalOf(r.value) == LogicalOf(s))
  }
}
