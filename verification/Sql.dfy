/** SQL conditions as all/any trees with negation, and their value in the three-valued
    logic of SQL over the tables of the directory. */
module Sql {
  import opened Wrappers
  import opened Text
  import opened Codec
  import opened Like
  import opened Database

  // ----- Three-valued logic -----

  datatype Tri = True | False | Unknown

  function Bool(b: bool): Tri {
    if b then True else False
  }

  function NotT(a: Tri): Tri {
    match a
    case True => False
    case False => True
    case Unknown => Unknown
  }

  function AndT(a: Tri, b: Tri): Tri {
    if a.False? || b.False? then False else if a.True? && b.True? then True else Unknown
  }

  function OrT(a: Tri, b: Tri): Tri {
    if a.True? || b.True? then True else if a.False? && b.False? then False else Unknown
  }

  function Combine(any: bool, a: Tri, b: Tri): Tri {
    if any then OrT(a, b) else AndT(a, b)
  }

  // ----- Conditions -----

  datatype UserColumn =
    UserId | Email | LowercaseEmail | UserDisplayName | UserCreationDate | PasswordHash | TotpSecret | MfaType
    | UserUuid

  datatype GroupColumn = GroupId | GroupDisplayName | LowercaseDisplayName | GroupCreationDate | GroupUuid

  /** A column of the users, of the groups, or of the groups joined as `r1`. */
  datatype Column = UserCol(u: UserColumn) | GroupCol(g: GroupColumn) | R1Col(g: GroupColumn)

  datatype SqlValue = Null | TextValue(text: string) | Number(n: int)

  datatype Expr =
    | Literal(b: bool)
    | Eq(column: Column, value: SqlValue)
    | LikePattern(column: Column, lowered: bool, pattern: string)
    | In(column: Column, query: Query)

  datatype Query =
    | OwnersOfUserAttribute(name: string, bytes: seq<byte>)
    | OwnersOfGroupAttribute(name: string, bytes: seq<byte>)
    | GroupsOfMember(user: string)
    | UsersJoinGroups(filter: Cond)
    | GroupsJoinUsers(filter: Cond)

  datatype Part = Nested(cond: Cond) | Leaf(expr: Expr)

  datatype Cond = Cond(negated: bool, any: bool, parts: seq<Part>)

  function ExprCond(e: Expr): Cond {
    Cond(false, false, [Leaf(e)])
  }

  function Negate(c: Cond): Cond {
    c.(negated := !c.negated)
  }

  function All(): Cond {
    Cond(false, false, [])
  }

  function Any(): Cond {
    Cond(false, true, [])
  }

  function Add(c: Cond, d: Cond): Cond {
    c.(parts := c.parts + [Nested(d)])
  }

  // ----- Rows and evaluation -----

  /** A row of a query: the user, the group, and the joined group, each possibly absent. */
  datatype Row = Row(user: Option<string>, group: Option<int>, r1: Option<int>)

  function OptText(s: Option<string>): SqlValue {
    if s.Some? then TextValue(s.value) else Null
  }

  function UserColumnValue(db: Db, u: string, c: UserColumn): SqlValue
    requires u in db.users
  {
    match c
    case UserId => TextValue(u)
    case Email => TextValue(db.users[u].email)
    case LowercaseEmail => TextValue(db.users[u].lowercaseEmail)
    case UserDisplayName => OptText(db.users[u].displayName)
    case UserCreationDate => TextValue(db.users[u].creationDate)
    case PasswordHash => OptText(db.users[u].passwordHash)
    case TotpSecret => OptText(db.users[u].totpSecret)
    case MfaType => OptText(db.users[u].mfaType)
    case UserUuid => TextValue(db.users[u].uuid)
  }

  function GroupColumnValue(db: Db, g: int, c: GroupColumn): SqlValue
    requires g in db.groups
  {
    match c
    case GroupId => Number(g)
    case GroupDisplayName => TextValue(db.groups[g].displayName)
    case LowercaseDisplayName => TextValue(db.groups[g].lowercaseDisplayName)
    case GroupCreationDate => TextValue(db.groups[g].creationDate)
    case GroupUuid => TextValue(db.groups[g].uuid)
  }

  function ColumnValue(db: Db, row: Row, c: Column): SqlValue {
    match c
    case UserCol(c) =>
      if row.user.Some? && row.user.value in db.users then UserColumnValue(db, row.user.value, c) else Null
    case GroupCol(c) =>
      if row.group.Some? && row.group.value in db.groups then GroupColumnValue(db, row.group.value, c) else Null
    case R1Col(c) =>
      if row.r1.Some? && row.r1.value in db.groups then GroupColumnValue(db, row.r1.value, c) else Null
  }

  /** The rows of `users LEFT JOIN memberships LEFT JOIN groups r1`. */
  predicate UserJoinRow(db: Db, u: string, r1: Option<int>) {
    u in db.users &&
    match r1
    case Some(g) => Membership(u, g) in db.memberships && g in db.groups
    case None =>
      || (forall m :: m in db.memberships ==> m.user != u)
      || (exists m :: m in db.memberships && m.user == u && m.group !in db.groups)
  }

  /** The rows of `groups LEFT JOIN memberships LEFT JOIN users r1`. */
  predicate GroupJoinRow(db: Db, g: int, member: Option<string>) {
    g in db.groups &&
    match member
    case Some(u) => Membership(u, g) in db.memberships && u in db.users
    case None =>
      || (forall m :: m in db.memberships ==> m.group != g)
      || (exists m :: m in db.memberships && m.group == g && m.user !in db.users)
  }

  ghost function EvalCond(db: Db, row: Row, c: Cond): Tri
    decreases c, 1
  {
    var v := EvalParts(db, row, c.any, c.parts);
    if c.negated then NotT(v) else v
  }

  ghost function EvalParts(db: Db, row: Row, any: bool, parts: seq<Part>): Tri
    decreases parts, 0
  {
    if parts == [] then Bool(!any)
    else Combine(any, EvalPart(db, row, parts[0]), EvalParts(db, row, any, parts[1..]))
  }

  ghost function EvalPart(db: Db, row: Row, p: Part): Tri
    decreases p, 0
  {
    match p
    case Nested(c) => EvalCond(db, row, c)
    case Leaf(e) => EvalExpr(db, row, e)
  }

  ghost function EvalExpr(db: Db, row: Row, e: Expr): Tri
    decreases e, 0
  {
    match e
    case Literal(b) => Bool(b)
    case Eq(c, value) =>
      var v := ColumnValue(db, row, c);
      if v.Null? || value.Null? then Unknown else Bool(v == value)
    case LikePattern(c, lowered, pattern) =>
      var v := ColumnValue(db, row, c);
      if v.TextValue? then Bool(Matches(pattern, if lowered then Lower(v.text) else v.text))
      else if v.Null? then Unknown
      else False
    case In(c, query) =>
      var v := ColumnValue(db, row, c);
      if v.Null? then Unknown else Bool(QueryYields(db, query, v))
  }

  /** Whether a subquery selects the value. */
  ghost predicate QueryYields(db: Db, q: Query, v: SqlValue)
    decreases q, 0
  {
    match q
    case OwnersOfUserAttribute(name, bytes) =>
      v.TextValue? && var k := AttributeKey(v.text, name); k in db.userAttributes && db.userAttributes[k] == bytes
    case OwnersOfGroupAttribute(name, bytes) =>
      v.Number? && var k := AttributeKey(v.n, name); k in db.groupAttributes && db.groupAttributes[k] == bytes
    case GroupsOfMember(user) =>
      v.Number? && Membership(user, v.n) in db.memberships
    case UsersJoinGroups(filter) =>
      exists u, r1 :: UserJoinRow(db, u, r1) && v == TextValue(u) &&
        EvalCond(db, Row(Some(u), None, r1), filter) == True
    case GroupsJoinUsers(filter) =>
      exists g, member :: GroupJoinRow(db, g, member) && v == Number(g) &&
        EvalCond(db, Row(None, Some(g), None), filter) == True
  }

  function OfUser(u: string): Row {
    Row(Some(u), None, None)
  }

  function OfGroup(g: int): Row {
    Row(None, Some(g), None)
  }

  // ----- Laws of the tree -----

  lemma {:induction false} EvalPartsConcat(db: Db, row: Row, any: bool, a: seq<Part>, b: seq<Part>)
    ensures EvalParts(db, row, any, a + b) == Combine(any, EvalParts(db, row, any, a), EvalParts(db, row, any, b))
  {
    if a == [] {
      assert a + b == b;
    } else {
      assert (a + b)[1..] == a[1..] + b;
      EvalPartsConcat(db, row, any, a[1..], b);
    }
  }

  lemma EvalExprCond(db: Db, row: Row, e: Expr)
    ensures EvalCond(db, row, ExprCond(e)) == EvalExpr(db, row, e)
  {
    var parts := [Leaf(e)];
    assert parts[1..] == [];
    assert EvalParts(db, row, false, parts) ==
      Combine(false, EvalPart(db, row, parts[0]), EvalParts(db, row, false, parts[1..]));
  }

  lemma EvalNegate(db: Db, row: Row, c: Cond)
    ensures EvalCond(db, row, Negate(c)) == NotT(EvalCond(db, row, c))
  {
  }

  /** Adding a condition to a list that is not negated combines the values. */
  lemma EvalAdd(db: Db, row: Row, c: Cond, d: Cond)
    requires !c.negated
    ensures EvalCond(db, row, Add(c, d)) == Combine(c.any, EvalCond(db, row, c), EvalCond(db, row, d))
  {
    EvalPartsConcat(db, row, c.any, c.parts, [Nested(d)]);
    var parts := [Nested(d)];
    assert parts[1..] == [];
    assert EvalParts(db, row, c.any, parts) ==
      Combine(c.any, EvalPart(db, row, parts[0]), EvalParts(db, row, c.any, parts[1..]));
  }
}
