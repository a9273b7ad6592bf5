/** The request filters of the backend, their SQL conditions, and what they select. */
module Filters {
  import opened Wrappers
  import opened Text
  import opened Codec
  import opened Like
  import opened Database
  import opened Sql

  // ----- Users -----

  datatype UserFilter =
    | UserAnd(filters: seq<UserFilter>)
    | UserOr(filters: seq<UserFilter>)
    | UserNot(filter: UserFilter)
    | UserIdIs(id: string)
    | UserIdLike(substring: SubStringFilter)
    | UserEquality(column: UserColumn, value: string)
    | UserAttributeEquality(name: string, bytes: seq<byte>)
    | UserSubString(column: UserColumn, substring: SubStringFilter)
    | MemberOf(group: string)
    | MemberOfId(groupId: int)

  function UserFromBool(b: bool): UserFilter {
    if b then UserAnd([]) else UserNot(UserAnd([]))
  }

  /** The compiler panics on a user id that is compared as a plain column. */
  predicate PanicsOn(f: UserFilter) {
    match f
    case UserAnd(fs) => exists g :: g in fs && PanicsOn(g)
    case UserOr(fs) => exists g :: g in fs && PanicsOn(g)
    case UserNot(g) => PanicsOn(g)
    case UserEquality(c, _) => c == UserId
    case _ => false
  }

  function UserIdSubcondition(filter: Cond): Cond {
    ExprCond(In(UserCol(UserId), UsersJoinGroups(filter)))
  }

  function UserFilterExpr(f: UserFilter): Cond
    requires !PanicsOn(f)
    decreases f, 1
  {
    match f
    case UserAnd(fs) => RepeatedUserFilter(fs, All(), true)
    case UserOr(fs) => RepeatedUserFilter(fs, Any(), false)
    case UserNot(g) => Negate(UserFilterExpr(g))
    case UserIdIs(id) => ExprCond(Eq(UserCol(UserId), TextValue(id)))
    case UserEquality(c, value) =>
      if c == Email then ExprCond(Eq(UserCol(LowercaseEmail), TextValue(Lower(value))))
      else ExprCond(Eq(UserCol(c), TextValue(value)))
    case UserAttributeEquality(name, bytes) => ExprCond(In(UserCol(UserId), OwnersOfUserAttribute(name, bytes)))
    case MemberOf(group) => UserIdSubcondition(ExprCond(Eq(R1Col(LowercaseDisplayName), TextValue(Lower(group)))))
    case MemberOfId(g) => UserIdSubcondition(ExprCond(Eq(R1Col(GroupId), Number(g))))
    case UserIdLike(s) => ExprCond(LikePattern(UserCol(UserId), false, SqlPattern(s)))
    case UserSubString(c, s) => ExprCond(LikePattern(UserCol(c), true, SqlPattern(s)))
  }

  function RepeatedUserFilter(fs: seq<UserFilter>, condition: Cond, default: bool): Cond
    requires forall g :: g in fs ==> !PanicsOn(g)
    decreases fs, 1
  {
    if fs == [] then ExprCond(Literal(default)) else FoldUserFilters(fs, condition)
  }

  function FoldUserFilters(fs: seq<UserFilter>, condition: Cond): Cond
    requires forall g :: g in fs ==> !PanicsOn(g)
    decreases fs, 0
  {
    if fs == [] then condition
    else
      assert fs[0] in fs;
      FoldUserFilters(fs[1..], Add(condition, UserFilterExpr(fs[0])))
  }

  /** What a filter says of a user: the tables are asked directly, without joins or
      subqueries. Only an absent optional column leaves the answer open. */
  ghost function UserMeaning(db: Db, u: string, f: UserFilter): Tri
    requires u in db.users
    decreases f, 1
  {
    match f
    case UserAnd(fs) => UserMeanings(db, u, false, fs)
    case UserOr(fs) => UserMeanings(db, u, true, fs)
    case UserNot(g) => NotT(UserMeaning(db, u, g))
    case UserIdIs(id) => Bool(u == id)
    case UserIdLike(s) => Bool(Matches(SqlPattern(s), u))
    case UserEquality(c, value) =>
      if c == Email then Bool(db.users[u].lowercaseEmail == Lower(value))
      else if UserColumnValue(db, u, c).Null? then Unknown
      else Bool(UserColumnValue(db, u, c) == TextValue(value))
    case UserSubString(c, s) =>
      var v := UserColumnValue(db, u, c);
      if v.TextValue? then Bool(Matches(SqlPattern(s), Lower(v.text))) else Unknown
    case UserAttributeEquality(name, bytes) =>
      var k := AttributeKey(u, name);
      Bool(k in db.userAttributes && db.userAttributes[k] == bytes)
    case MemberOf(group) =>
      Bool(exists g :: g in GroupsOf(db, u) && db.groups[g].lowercaseDisplayName == Lower(group))
    case MemberOfId(g) => Bool(g in GroupsOf(db, u))
  }

  ghost function UserMeanings(db: Db, u: string, any: bool, fs: seq<UserFilter>): Tri
    requires u in db.users
    decreases fs, 0
  {
    if fs == [] then Bool(!any) else Combine(any, UserMeaning(db, u, fs[0]), UserMeanings(db, u, any, fs[1..]))
  }

  lemma CombineAssociative(any: bool, a: Tri, b: Tri, c: Tri)
    ensures Combine(any, Combine(any, a, b), c) == Combine(any, a, Combine(any, b, c))
    ensures Combine(any, a, Bool(!any)) == a && Combine(any, Bool(!any), a) == a
  {
  }

  lemma R1Meaning(db: Db, u: string, column: GroupColumn, value: SqlValue)
    requires u in db.users && !value.Null?
    ensures EvalCond(db, OfUser(u), UserIdSubcondition(ExprCond(Eq(R1Col(column), value)))) ==
      Bool(exists g :: g in GroupsOf(db, u) && GroupColumnValue(db, g, column) == value)
  {
    var filter := ExprCond(Eq(R1Col(column), value));
    var q := UsersJoinGroups(filter);
    EvalExprCond(db, OfUser(u), In(UserCol(UserId), q));
    forall r1 | UserJoinRow(db, u, r1)
      ensures EvalCond(db, Row(Some(u), None, r1), filter) == True <==>
              r1.Some? && GroupColumnValue(db, r1.value, column) == value
    {
      EvalExprCond(db, Row(Some(u), None, r1), Eq(R1Col(column), value));
    }
    if g :| g in GroupsOf(db, u) && GroupColumnValue(db, g, column) == value {
      assert UserJoinRow(db, u, Some(g));
    }
    if QueryYields(db, q, TextValue(u)) {
      var v, r1 :| UserJoinRow(db, v, r1) && TextValue(u) == TextValue(v) &&
        EvalCond(db, Row(Some(v), None, r1), filter) == True;
      assert Membership(u, r1.value) in db.memberships;
      assert r1.value in GroupsOf(db, u);
    }
  }

  /** The compiled condition has the value of the filter, for every user and every
      nesting; several membership tests do not disturb each other, because each is a
      subquery of its own. */
  lemma {:induction false} UserFilterExprCorrect(db: Db, u: string, f: UserFilter)
    requires u in db.users && !PanicsOn(f)
    ensures EvalCond(db, OfUser(u), UserFilterExpr(f)) == UserMeaning(db, u, f)
    decreases f, 1
  {
    hide Matches, SqlPattern;
    var row := OfUser(u);
    match f
    case UserAnd(fs) => RepeatedUserFilterCorrect(db, u, fs, All(), true);
    case UserOr(fs) => RepeatedUserFilterCorrect(db, u, fs, Any(), false);
    case UserNot(g) =>
      UserFilterExprCorrect(db, u, g);
      EvalNegate(db, row, UserFilterExpr(g));
    case UserIdIs(id) => EvalExprCond(db, row, Eq(UserCol(UserId), TextValue(id)));
    case UserEquality(c, value) =>
      EvalExprCond(db, row, Eq(UserCol(LowercaseEmail), TextValue(Lower(value))));
      EvalExprCond(db, row, Eq(UserCol(c), TextValue(value)));
    case UserAttributeEquality(name, bytes) =>
      EvalExprCond(db, row, In(UserCol(UserId), OwnersOfUserAttribute(name, bytes)));
    case MemberOf(group) =>
      R1Meaning(db, u, LowercaseDisplayName, TextValue(Lower(group)));
    case MemberOfId(g) =>
      R1Meaning(db, u, GroupId, Number(g));
    case UserIdLike(s) => EvalExprCond(db, row, LikePattern(UserCol(UserId), false, SqlPattern(s)));
    case UserSubString(c, s) => EvalExprCond(db, row, LikePattern(UserCol(c), true, SqlPattern(s)));
  }

  lemma {:induction false} RepeatedUserFilterCorrect(db: Db, u: string, fs: seq<UserFilter>, c: Cond, default: bool)
    requires u in db.users && forall g :: g in fs ==> !PanicsOn(g)
    requires c == if default then All() else Any()
    ensures EvalCond(db, OfUser(u), RepeatedUserFilter(fs, c, default)) == UserMeanings(db, u, !default, fs)
    decreases fs, 1
  {
    if fs == [] {
      EvalExprCond(db, OfUser(u), Literal(default));
    } else {
      FoldUserFiltersCorrect(db, u, fs, c);
      CombineAssociative(c.any, UserMeanings(db, u, c.any, fs), True, True);
    }
  }

  lemma {:induction false} FoldUserFiltersCorrect(db: Db, u: string, fs: seq<UserFilter>, c: Cond)
    requires u in db.users && !c.negated && forall g :: g in fs ==> !PanicsOn(g)
    ensures EvalCond(db, OfUser(u), FoldUserFilters(fs, c)) ==
      Combine(c.any, EvalCond(db, OfUser(u), c), UserMeanings(db, u, c.any, fs))
    decreases fs, 0
  {
    if fs == [] {
      CombineAssociative(c.any, EvalCond(db, OfUser(u), c), True, True);
    } else {
      assert fs[0] in fs;
      var d := UserFilterExpr(fs[0]);
      UserFilterExprCorrect(db, u, fs[0]);
      EvalAdd(db, OfUser(u), c, d);
      FoldUserFiltersCorrect(db, u, fs[1..], Add(c, d));
      CombineAssociative(c.any, EvalCond(db, OfUser(u), c), UserMeaning(db, u, fs[0]),
                         UserMeanings(db, u, c.any, fs[1..]));
    }
  }

  /** The users for which the condition is true. */
  ghost function SelectUsers(db: Db, c: Cond): set<string> {
    set u | u in db.users && EvalCond(db, OfUser(u), c) == True
  }

  // ----- Groups -----

  datatype GroupFilter =
    | GroupAnd(filters: seq<GroupFilter>)
    | GroupOr(filters: seq<GroupFilter>)
    | GroupNot(filter: GroupFilter)
    | DisplayNameIs(name: string)
    | DisplayNameLike(substring: SubStringFilter)
    | UuidIs(uuid: string)
    | GroupIdIs(id: int)
    | Member(user: string)
    | GroupAttributeEquality(name: string, bytes: seq<byte>)

  function GroupFromBool(b: bool): GroupFilter {
    if b then GroupAnd([]) else GroupNot(GroupAnd([]))
  }

  function GroupFilterExpr(f: GroupFilter): Cond
    decreases f, 1
  {
    match f
    case GroupAnd(fs) => if fs == [] then ExprCond(Literal(true)) else FoldGroupFilters(fs, All())
    case GroupOr(fs) => if fs == [] then ExprCond(Literal(false)) else FoldGroupFilters(fs, Any())
    case GroupNot(g) => Negate(GroupFilterExpr(g))
    case DisplayNameIs(name) => ExprCond(Eq(GroupCol(LowercaseDisplayName), TextValue(Lower(name))))
    case GroupIdIs(id) => ExprCond(Eq(GroupCol(GroupId), Number(id)))
    case UuidIs(uuid) => ExprCond(Eq(GroupCol(GroupUuid), TextValue(uuid)))
    case Member(user) => ExprCond(In(GroupCol(GroupId), GroupsOfMember(user)))
    case DisplayNameLike(s) => ExprCond(LikePattern(GroupCol(LowercaseDisplayName), true, SqlPattern(s)))
    case GroupAttributeEquality(name, bytes) => ExprCond(In(GroupCol(GroupId), OwnersOfGroupAttribute(name, bytes)))
  }

  function FoldGroupFilters(fs: seq<GroupFilter>, c: Cond): Cond
    decreases fs, 0
  {
    if fs == [] then c else FoldGroupFilters(fs[1..], Add(c, GroupFilterExpr(fs[0])))
  }

  /** The condition of the listing: the id is among those of the groups, joined with
      their members, for which the filter is true. */
  function GroupListCondition(f: Option<GroupFilter>): Cond {
    match f
    case None => ExprCond(Literal(true))
    case Some(f) => ExprCond(In(GroupCol(GroupId), GroupsJoinUsers(GroupFilterExpr(f))))
  }

  ghost function GroupMeaning(db: Db, g: int, f: GroupFilter): bool
    requires g in db.groups
    decreases f, 1
  {
    match f
    case GroupAnd(fs) => forall h :: h in fs ==> GroupMeaning(db, g, h)
    case GroupOr(fs) => exists h :: h in fs && GroupMeaning(db, g, h)
    case GroupNot(h) => !GroupMeaning(db, g, h)
    case DisplayNameIs(name) => db.groups[g].lowercaseDisplayName == Lower(name)
    case DisplayNameLike(s) => Matches(SqlPattern(s), Lower(db.groups[g].lowercaseDisplayName))
    case UuidIs(uuid) => db.groups[g].uuid == uuid
    case GroupIdIs(id) => g == id
    case Member(user) => Membership(user, g) in db.memberships
    case GroupAttributeEquality(name, bytes) =>
      var k := AttributeKey(g, name);
      k in db.groupAttributes && db.groupAttributes[k] == bytes
  }

  lemma {:induction false} GroupFilterExprCorrect(db: Db, g: int, f: GroupFilter)
    requires g in db.groups
    ensures EvalCond(db, OfGroup(g), GroupFilterExpr(f)) == Bool(GroupMeaning(db, g, f))
    decreases f, 1
  {
    var row := OfGroup(g);
    match f
    case GroupAnd(fs) =>
      if fs == [] {
        EvalExprCond(db, row, Literal(true));
      } else {
        FoldGroupFiltersCorrect(db, g, fs, All());
      }
    case GroupOr(fs) =>
      if fs == [] {
        EvalExprCond(db, row, Literal(false));
      } else {
        FoldGroupFiltersCorrect(db, g, fs, Any());
      }
    case GroupNot(h) =>
      GroupFilterExprCorrect(db, g, h);
      EvalNegate(db, row, GroupFilterExpr(h));
    case DisplayNameIs(name) => EvalExprCond(db, row, Eq(GroupCol(LowercaseDisplayName), TextValue(Lower(name))));
    case GroupIdIs(id) => EvalExprCond(db, row, Eq(GroupCol(GroupId), Number(id)));
    case UuidIs(uuid) => EvalExprCond(db, row, Eq(GroupCol(GroupUuid), TextValue(uuid)));
    case Member(user) => EvalExprCond(db, row, In(GroupCol(GroupId), GroupsOfMember(user)));
    case DisplayNameLike(s) => EvalExprCond(db, row, LikePattern(GroupCol(LowercaseDisplayName), true, SqlPattern(s)));
    case GroupAttributeEquality(name, bytes) =>
      EvalExprCond(db, row, In(GroupCol(GroupId), OwnersOfGroupAttribute(name, bytes)));
  }

  ghost predicate GroupMeanings(db: Db, g: int, any: bool, fs: seq<GroupFilter>)
    requires g in db.groups
  {
    if any then exists h :: h in fs && GroupMeaning(db, g, h) else forall h :: h in fs ==> GroupMeaning(db, g, h)
  }

  lemma {:induction false} FoldGroupFiltersCorrect(db: Db, g: int, fs: seq<GroupFilter>, c: Cond)
    requires g in db.groups && !c.negated
    ensures EvalCond(db, OfGroup(g), FoldGroupFilters(fs, c)) ==
      Combine(c.any, EvalCond(db, OfGroup(g), c), Bool(GroupMeanings(db, g, c.any, fs)))
    decreases fs, 0
  {
    if fs == [] {
      CombineAssociative(c.any, EvalCond(db, OfGroup(g), c), True, True);
    } else {
      var d := GroupFilterExpr(fs[0]);
      GroupFilterExprCorrect(db, g, fs[0]);
      EvalAdd(db, OfGroup(g), c, d);
      FoldGroupFiltersCorrect(db, g, fs[1..], Add(c, d));
      assert forall h :: h in fs <==> h == fs[0] || h in fs[1..];
      assert Bool(GroupMeanings(db, g, c.any, fs)) ==
        Combine(c.any, Bool(GroupMeaning(db, g, fs[0])), Bool(GroupMeanings(db, g, c.any, fs[1..])));
      CombineAssociative(c.any, EvalCond(db, OfGroup(g), c), Bool(GroupMeaning(db, g, fs[0])),
                         Bool(GroupMeanings(db, g, c.any, fs[1..])));
    }
  }

  /** The groups for which the condition is true. */
  ghost function SelectGroups(db: Db, c: Cond): set<int> {
    set g | g in db.groups && EvalCond(db, OfGroup(g), c) == True
  }

  /** Every group has a row in the join with its members. */
  lemma GroupHasJoinRow(db: Db, g: int) returns (member: Option<string>)
    requires g in db.groups
    ensures GroupJoinRow(db, g, member)
  {
    member := None;
    if m :| m in db.memberships && m.group == g && m.user in db.users {
      member := Some(m.user);
    }
  }

  /** Wrapping the condition in a subquery over groups joined with members changes
      nothing: a group without members is not lost, one with many counts once. */
  lemma GroupListConditionCorrect(db: Db, f: GroupFilter)
    ensures SelectGroups(db, GroupListCondition(Some(f))) == set g | g in db.groups && GroupMeaning(db, g, f)
  {
    var inner := GroupFilterExpr(f);
    var q := GroupsJoinUsers(inner);
    forall g | g in db.groups
      ensures EvalCond(db, OfGroup(g), GroupListCondition(Some(f))) == Bool(GroupMeaning(db, g, f))
    {
      EvalExprCond(db, OfGroup(g), In(GroupCol(GroupId), q));
      GroupFilterExprCorrect(db, g, f);
      var member := GroupHasJoinRow(db, g);
      assert Row(None, Some(g), None) == OfGroup(g);
    }
  }
}
