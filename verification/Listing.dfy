/** Listing users and groups: two ordered queries merged by one cursor. */
module Listing {
  import opened Text
  import opened Ordering
  import opened Codec
  import opened Database
  import opened Sql
  import opened Filters

  /** A row of an attribute table. */
  datatype AttributeRow<T> = AttributeRow(owner: T, value: AttributeValue)

  datatype Entry<T, D> = Entry(id: T, details: D, attributes: seq<AttributeValue>)

  // ----- The merge -----

  /** The attributes of one owner, in the order of the rows. */
  function OwnedBy<T(==)>(rows: seq<AttributeRow<T>>, owner: T): seq<AttributeValue> {
    if rows == [] then []
    else (if rows[0].owner == owner then [rows[0].value] else []) + OwnedBy(rows[1..], owner)
  }

  predicate AllOwnedBy<T(==)>(rows: seq<AttributeRow<T>>, owner: T) {
    forall r :: r in rows ==> r.owner == owner
  }

  predicate NoneOwnedBy<T(==)>(rows: seq<AttributeRow<T>>, owner: T) {
    forall r :: r in rows ==> r.owner != owner
  }

  predicate Distinct<T(==)>(ids: seq<T>) {
    forall i, j :: 0 <= i < j < |ids| ==> ids[i] != ids[j]
  }

  /** The owners of the rows appear among `ids`, in the same order. This is what
      ordering both queries by the id gives. */
  ghost predicate Aligned<T>(ids: seq<T>, rows: seq<AttributeRow<T>>) {
    && (forall k :: 0 <= k < |rows| ==> rows[k].owner in ids)
    && (forall k, l, i, j ::
          0 <= k < l < |rows| && 0 <= i < |ids| && 0 <= j < |ids| && rows[k].owner == ids[i] && rows[l].owner == ids[j]
          ==> i <= j)
  }

  lemma {:induction false} OwnedByConcat<T>(a: seq<AttributeRow<T>>, b: seq<AttributeRow<T>>, owner: T)
    ensures OwnedBy(a + b, owner) == OwnedBy(a, owner) + OwnedBy(b, owner)
  {
    if a == [] {
      assert a + b == b;
    } else {
      var all := a + b;
      assert all[0] == a[0] && all[1..] == a[1..] + b;
      OwnedByConcat(a[1..], b, owner);
      if a[0].owner == owner {
        assert OwnedBy(all, owner) == [a[0].value] + (OwnedBy(a[1..], owner) + OwnedBy(b, owner));
      }
    }
  }

  lemma {:induction false} OwnedByNone<T>(rows: seq<AttributeRow<T>>, owner: T)
    requires NoneOwnedBy(rows, owner)
    ensures OwnedBy(rows, owner) == []
  {
    if rows != [] {
      assert rows[0] in rows;
      OwnedByNone(rows[1..], owner);
    }
  }

  function Values<T>(rows: seq<AttributeRow<T>>): (r: seq<AttributeValue>)
    ensures |r| == |rows|
    ensures forall i :: 0 <= i < |r| ==> r[i] == rows[i].value
  {
    seq(|rows|, i requires 0 <= i < |rows| => rows[i].value)
  }

  lemma {:induction false} OwnedByAll<T>(rows: seq<AttributeRow<T>>, owner: T)
    requires AllOwnedBy(rows, owner)
    ensures OwnedBy(rows, owner) == Values(rows)
  {
    if rows != [] {
      assert rows[0] in rows;
      OwnedByAll(rows[1..], owner);
    }
  }

  ghost function Ids<T, D>(entries: seq<Entry<T, D>>): (r: seq<T>)
    ensures |r| == |entries|
    ensures forall i :: 0 <= i < |r| ==> r[i] == entries[i].id
  {
    seq(|entries|, i requires 0 <= i < |entries| => entries[i].id)
  }

  ghost function WithOwn<T, D>(entries: seq<Entry<T, D>>, rows: seq<AttributeRow<T>>): (r: seq<Entry<T, D>>)
    ensures |r| == |entries|
    ensures forall i :: 0 <= i < |r| ==> r[i] == entries[i].(attributes := OwnedBy(rows, entries[i].id))
  {
    seq(|entries|, i requires 0 <= i < |entries| => entries[i].(attributes := OwnedBy(rows, entries[i].id)))
  }

  /** The rows before the cursor belong to the entries already served, the others to
      the rest. */
  ghost predicate CursorAt<T>(ids: seq<T>, rows: seq<AttributeRow<T>>, served: nat, cursor: nat) {
    && served <= |ids| && cursor <= |rows|
    && forall k, i :: 0 <= k < |rows| && 0 <= i < |ids| && rows[k].owner == ids[i] ==> (k < cursor <==> i < served)
  }

  /** Behind the cursor, rows of the next entry come first: once another owner shows
      up, no row of the entry is left. */
  lemma NoneLeft<T>(ids: seq<T>, rows: seq<AttributeRow<T>>, served: nat, start: nat, end: nat, k: nat)
    requires Aligned(ids, rows) && served < |ids|
    requires CursorAt(ids, rows, served, start) && start <= end <= k < |rows|
    requires rows[end].owner != ids[served]
    ensures rows[k].owner != ids[served]
  {
    assert rows[end].owner in ids;
    var j :| 0 <= j < |ids| && ids[j] == rows[end].owner;
    assert j >= served;
    assert rows[k].owner == ids[served] ==> j <= served;
  }

  lemma OwnedByParts<T>(rows: seq<AttributeRow<T>>, id: T, start: nat, end: nat)
    requires start <= end <= |rows|
    ensures OwnedBy(rows, id) == OwnedBy(rows[..start], id) + OwnedBy(rows[start..end], id) + OwnedBy(rows[end..], id)
  {
    assert rows == rows[..end] + rows[end..];
    assert rows[..end] == rows[..start] + rows[start..end];
    OwnedByConcat(rows[..end], rows[end..], id);
    OwnedByConcat(rows[..start], rows[start..end], id);
  }

  lemma OnlyBetween<T>(rows: seq<AttributeRow<T>>, id: T, start: nat, end: nat)
    requires start <= end <= |rows|
    requires forall k :: 0 <= k < |rows| ==> (rows[k].owner == id <==> start <= k < end)
    ensures OwnedBy(rows, id) == Values(rows[start..end])
  {
    var a, b, c := rows[..start], rows[start..end], rows[end..];
    OwnedByParts(rows, id, start, end);
    assert OwnedBy(a, id) == [] by {
      OwnedByNone(a, id);
    }
    assert OwnedBy(c, id) == [] by {
      assert forall k :: 0 <= k < |c| ==> c[k] == rows[end + k];
      OwnedByNone(c, id);
    }
    assert OwnedBy(b, id) == Values(b) by {
      assert forall k :: 0 <= k < |b| ==> b[k] == rows[start + k];
      OwnedByAll(b, id);
    }
  }

  lemma TakenExactly<T>(ids: seq<T>, rows: seq<AttributeRow<T>>, served: nat, start: nat, end: nat, k: nat)
    requires Aligned(ids, rows) && served < |ids|
    requires CursorAt(ids, rows, served, start) && start <= end <= |rows|
    requires forall k :: start <= k < end ==> rows[k].owner == ids[served]
    requires end < |rows| ==> rows[end].owner != ids[served]
    requires k < |rows|
    ensures rows[k].owner == ids[served] <==> start <= k < end
  {
    hide Aligned;
    if k >= end {
      NoneLeft(ids, rows, served, start, end, k);
    }
  }

  lemma CursorMoves<T>(ids: seq<T>, rows: seq<AttributeRow<T>>, served: nat, start: nat, end: nat)
    requires Distinct(ids) && served < |ids| && CursorAt(ids, rows, served, start) && start <= end <= |rows|
    requires forall k :: 0 <= k < |rows| ==> (rows[k].owner == ids[served] <==> start <= k < end)
    ensures CursorAt(ids, rows, served + 1, end)
  {
    forall k, i | 0 <= k < |rows| && 0 <= i < |ids| && rows[k].owner == ids[i]
      ensures k < end <==> i < served + 1
    {
      assert i == served <==> ids[i] == ids[served];
    }
  }

  /** The rows taken for the next entry are all of its rows. */
  lemma TakenAreOwned<T>(ids: seq<T>, rows: seq<AttributeRow<T>>, served: nat, start: nat, end: nat)
    requires Distinct(ids) && Aligned(ids, rows) && served < |ids|
    requires CursorAt(ids, rows, served, start) && start <= end <= |rows|
    requires forall k :: start <= k < end ==> rows[k].owner == ids[served]
    requires end < |rows| ==> rows[end].owner != ids[served]
    ensures OwnedBy(rows, ids[served]) == Values(rows[start..end])
    ensures CursorAt(ids, rows, served + 1, end)
  {
    hide Aligned, CursorAt, Distinct, OwnedBy, Values;
    forall k | 0 <= k < |rows|
      ensures rows[k].owner == ids[served] <==> start <= k < end
    {
      TakenExactly(ids, rows, served, start, end, k);
    }
    OnlyBetween(rows, ids[served], start, end);
    CursorMoves(ids, rows, served, start, end);
  }

  lemma CursorAtEnd<T>(ids: seq<T>, rows: seq<AttributeRow<T>>, cursor: nat)
    requires Aligned(ids, rows) && CursorAt(ids, rows, |ids|, cursor)
    ensures cursor == |rows|
  {
    if |rows| > 0 {
      var last := |rows| - 1;
      assert rows[last].owner in ids;
      var i :| 0 <= i < |ids| && ids[i] == rows[last].owner;
    }
  }

  /** The merge loop: one cursor runs over all attribute rows while each entry takes
      the rows that carry its id. Every entry gets exactly its own attributes, in the
      order of the rows, and the cursor reaches the end. */
  method AssignAttributes<T(==), D>(entries: array<Entry<T, D>>, rows: seq<AttributeRow<T>>) returns (cursor: nat)
    requires Distinct(Ids(entries[..])) && Aligned(Ids(entries[..]), rows)
    modifies entries
    ensures entries[..] == WithOwn(old(entries[..]), rows)
    ensures cursor == |rows|
  {
    hide OwnedBy, Aligned, Values;
    ghost var was := entries[..];
    ghost var ids := Ids(was);
    cursor := 0;
    var i := 0;
    while i < entries.Length
      invariant 0 <= i <= entries.Length
      invariant CursorAt(ids, rows, i, cursor)
      invariant forall k :: 0 <= k < i ==> entries[k] == was[k].(attributes := OwnedBy(rows, was[k].id))
      invariant forall k :: i <= k < entries.Length ==> entries[k] == was[k]
    {
      ghost var start := cursor;
      var taken;
      taken, cursor := TakeWhile(rows, cursor, entries[i].id);
      TakenAreOwned(ids, rows, i, start, cursor);
      entries[i] := entries[i].(attributes := taken);
      i := i + 1;
    }
    CursorAtEnd(ids, rows, cursor);
  }

  /** Takes rows as long as they belong to the owner; the first other row stays. */
  method TakeWhile<T(==)>(rows: seq<AttributeRow<T>>, start: nat, owner: T)
    returns (taken: seq<AttributeValue>, cursor: nat)
    requires start <= |rows|
    ensures start <= cursor <= |rows|
    ensures forall k :: start <= k < cursor ==> rows[k].owner == owner
    ensures cursor < |rows| ==> rows[cursor].owner != owner
    ensures taken == Values(rows[start..cursor])
  {
    cursor := start;
    taken := [];
    while cursor < |rows| && rows[cursor].owner == owner
      invariant start <= cursor <= |rows|
      invariant forall k :: start <= k < cursor ==> rows[k].owner == owner
      invariant taken == Values(rows[start..cursor])
    {
      assert rows[start..cursor + 1] == rows[start..cursor] + [rows[cursor]];
      taken := taken + [rows[cursor].value];
      cursor := cursor + 1;
    }
  }

  // ----- Ascending listings are unique -----

  lemma {:induction false} AscendingUnique(a: seq<string>, b: seq<string>)
    requires Ascending(a) && Ascending(b) && forall x :: x in a <==> x in b
    ensures a == b
    decreases |a|
  {
    assert b != [] ==> b[0] in a;
    if a != [] {
      assert a[0] in b;
      if a[0] != b[0] {
        var i :| 0 <= i < |b| && b[i] == a[0];
        var j :| 0 <= j < |a| && a[j] == b[0];
        LeqAntisymmetric(a[0], b[0]);
      }
      forall x
        ensures x in a[1..] <==> x in b[1..]
      {
        assert x in a <==> x == a[0] || x in a[1..];
        assert x in b <==> x == b[0] || x in b[1..];
      }
      AscendingUnique(a[1..], b[1..]);
    }
  }

  // ----- The two queries -----

  ghost function UserAttributeNames(db: Db, u: string): set<string> {
    set k | k in db.userAttributes && k.owner == u :: k.name
  }

  ghost function GroupAttributeNames(db: Db, g: int): set<string> {
    set k | k in db.groupAttributes && k.owner == g :: k.name
  }

  ghost function AttributesOf<T>(table: AttributeTable<T>, owner: T, names: seq<string>): (r: seq<AttributeValue>)
    requires forall n :: n in names ==> AttributeKey(owner, n) in table
    ensures |r| == |names|
    ensures forall i :: 0 <= i < |r| ==> r[i] == AttributeValue(names[i], table[AttributeKey(owner, names[i])])
  {
    seq(|names|, i requires 0 <= i < |names| => AttributeValue(names[i], table[AttributeKey(owner, names[i])]))
  }

  /** All attributes of a user, in name order. */
  ghost function UserAttributesOf(db: Db, u: string): seq<AttributeValue> {
    AttributesOf(db.userAttributes, u, Sorted(UserAttributeNames(db, u)))
  }

  ghost function GroupAttributesOf(db: Db, g: int): seq<AttributeValue> {
    AttributesOf(db.groupAttributes, g, Sorted(GroupAttributeNames(db, g)))
  }

  /** The rows of an attribute table whose owner is selected: each once, with the names
      of one owner ascending. */
  ghost predicate SelectsRows<T(!new)>(rows: seq<AttributeRow<T>>, table: AttributeTable<T>, selected: set<T>) {
    && (forall k :: 0 <= k < |rows| ==>
          rows[k].owner in selected &&
          AttributeKey(rows[k].owner, rows[k].value.name) in table &&
          table[AttributeKey(rows[k].owner, rows[k].value.name)] == rows[k].value.bytes)
    && (forall key :: key in table && key.owner in selected ==>
          AttributeRow(key.owner, AttributeValue(key.name, table[key])) in rows)
    && (forall k, l :: 0 <= k < l < |rows| && rows[k].owner == rows[l].owner ==>
          Less(rows[k].value.name, rows[l].value.name))
  }

  ghost function Names(values: seq<AttributeValue>): (r: seq<string>)
    ensures |r| == |values|
    ensures forall i :: 0 <= i < |r| ==> r[i] == values[i].name
  {
    seq(|values|, i requires 0 <= i < |values| => values[i].name)
  }

  lemma {:induction false} OwnedByMembers<T>(rows: seq<AttributeRow<T>>, owner: T, v: AttributeValue)
    ensures v in OwnedBy(rows, owner) <==> AttributeRow(owner, v) in rows
  {
    if rows != [] {
      OwnedByMembers(rows[1..], owner, v);
      assert AttributeRow(owner, v) in rows <==>
        AttributeRow(owner, v) == rows[0] || AttributeRow(owner, v) in rows[1..];
    }
  }

  lemma {:induction false} OwnedByAscending<T>(rows: seq<AttributeRow<T>>, owner: T)
    requires forall k, l :: 0 <= k < l < |rows| && rows[k].owner == rows[l].owner ==>
        Less(rows[k].value.name, rows[l].value.name)
    ensures Ascending(Names(OwnedBy(rows, owner)))
  {
    if rows != [] {
      OwnedByAscending(rows[1..], owner);
      var rest := OwnedBy(rows[1..], owner);
      forall j | 0 <= j < |rest|
        ensures rows[0].owner == owner ==> Less(rows[0].value.name, rest[j].name)
      {
        OwnedByMembers(rows[1..], owner, rest[j]);
        var l :| 0 <= l < |rows[1..]| && rows[1..][l] == AttributeRow(owner, rest[j]);
        assert rows[l + 1] == AttributeRow(owner, rest[j]);
      }
    }
  }

  lemma SelectedAscend<T(!new)>(rows: seq<AttributeRow<T>>, table: AttributeTable<T>, selected: set<T>, owner: T)
    requires SelectsRows(rows, table, selected)
    ensures Ascending(Names(OwnedBy(rows, owner)))
  {
    OwnedByAscending(rows, owner);
  }

  /** The attributes among the rows of an owner are those stored for it. */
  lemma OwnedAreStored<T(!new)>(rows: seq<AttributeRow<T>>, table: AttributeTable<T>, selected: set<T>, owner: T,
                                v: AttributeValue)
    requires SelectsRows(rows, table, selected) && owner in selected
    ensures v in OwnedBy(rows, owner) <==>
      AttributeKey(owner, v.name) in table && table[AttributeKey(owner, v.name)] == v.bytes
  {
    hide OwnedBy;
    OwnedByMembers(rows, owner, v);
  }

  /** Out of the ordered rows, an owner gets all of its stored attributes, in name order. */
  lemma OwnedByIsStored<T(!new)>(rows: seq<AttributeRow<T>>, table: AttributeTable<T>, selected: set<T>, owner: T,
                                 names: set<string>)
    requires SelectsRows(rows, table, selected) && owner in selected
    requires forall n :: n in names <==> AttributeKey(owner, n) in table
    ensures OwnedBy(rows, owner) == AttributesOf(table, owner, Sorted(names))
  {
    hide OwnedBy, SelectsRows;
    var own := OwnedBy(rows, owner);
    var stored := AttributesOf(table, owner, Sorted(names));
    SelectedAscend(rows, table, selected, owner);
    forall i | 0 <= i < |own|
      ensures AttributeKey(owner, own[i].name) in table && table[AttributeKey(owner, own[i].name)] == own[i].bytes
    {
      OwnedAreStored(rows, table, selected, owner, own[i]);
    }
    forall n
      ensures n in Names(own) <==> n in Sorted(names)
    {
      if n in names {
        var v := AttributeValue(n, table[AttributeKey(owner, n)]);
        OwnedAreStored(rows, table, selected, owner, v);
        var i :| 0 <= i < |own| && own[i] == v;
        assert Names(own)[i] == n;
      }
    }
    AscendingUnique(Names(own), Sorted(names));
    forall i | 0 <= i < |own|
      ensures own[i] == stored[i]
    {
      assert Names(own)[i] == Sorted(names)[i];
    }
  }

  // ----- Listing users -----

  datatype UserDetails = UserDetails(row: UserRow, groups: seq<GroupRow>)

  datatype GroupDetails = GroupDetails(row: GroupRow, members: seq<string>)

  type UserEntry = Entry<string, UserDetails>

  type GroupEntry = Entry<int, GroupDetails>

  function DisplayNameKey(g: GroupRow): string {
    g.displayName
  }

  ghost function GroupRows(db: Db, ids: seq<int>): (r: seq<GroupRow>)
    requires forall i :: 0 <= i < |ids| ==> ids[i] in db.groups
    ensures |r| == |ids|
    ensures forall i :: 0 <= i < |r| ==> r[i] == db.groups[ids[i]]
  {
    seq(|ids|, i requires 0 <= i < |ids| => db.groups[ids[i]])
  }

  /** A user's groups, ordered by display name. */
  ghost function GroupListOf(db: Db, u: string): seq<GroupRow> {
    var ids := SortedInts(GroupsOf(db, u));
    assert forall i :: 0 <= i < |ids| ==> ids[i] in ids && ids[i] in GroupsOf(db, u);
    StableSort(DisplayNameKey, GroupRows(db, ids))
  }

  /** What the users query returns for an id, before the attributes are filled in. */
  ghost function BareUser(db: Db, u: string): UserEntry
    requires u in db.users
  {
    Entry(u, UserDetails(db.users[u], GroupListOf(db, u)), [])
  }

  ghost function FullUser(db: Db, u: string): UserEntry
    requires u in db.users
  {
    BareUser(db, u).(attributes := UserAttributesOf(db, u))
  }

  ghost function BareUsers(db: Db, ids: seq<string>): (r: seq<UserEntry>)
    requires forall u :: u in ids ==> u in db.users
    ensures |r| == |ids|
    ensures forall i :: 0 <= i < |r| ==> r[i] == BareUser(db, ids[i])
  {
    seq(|ids|, i requires 0 <= i < |ids| => BareUser(db, ids[i]))
  }

  ghost function FullUsers(db: Db, ids: seq<string>): (r: seq<UserEntry>)
    requires forall u :: u in ids ==> u in db.users
    ensures |r| == |ids|
    ensures forall i :: 0 <= i < |r| ==> r[i] == FullUser(db, ids[i])
  {
    seq(|ids|, i requires 0 <= i < |ids| => FullUser(db, ids[i]))
  }

  /** The answer that listing owes: each selected user once, by id, with all their
      groups and attributes. */
  ghost function ListUsers(db: Db, c: Cond): seq<UserEntry> {
    FullUsers(db, Sorted(SelectUsers(db, c)))
  }

  /** The rows come ordered by owner. */
  ghost predicate OwnersAscend(rows: seq<AttributeRow<string>>) {
    forall k, l :: 0 <= k < l < |rows| ==> Leq(rows[k].owner, rows[l].owner)
  }

  lemma OrderedRowsAlign(ids: seq<string>, rows: seq<AttributeRow<string>>)
    requires Ascending(ids) && OwnersAscend(rows)
    requires forall k :: 0 <= k < |rows| ==> rows[k].owner in ids
    ensures Distinct(ids) && Aligned(ids, rows)
  {
    forall k, l, i, j | 0 <= k < l < |rows| && 0 <= i < |ids| && 0 <= j < |ids| &&
      rows[k].owner == ids[i] && rows[l].owner == ids[j]
      ensures i <= j
    {
      if j < i {
        assert Less(ids[j], ids[i]);
        LeqAntisymmetric(ids[i], ids[j]);
      }
    }
  }

  /** Listing users from the results of the two queries, both ordered by user id: the
      entries are those of the database, each with exactly its stored attributes. */
  method FillUsers(ghost db: Db, ghost c: Cond, users: array<UserEntry>, rows: seq<AttributeRow<string>>)
    requires users[..] == BareUsers(db, Sorted(SelectUsers(db, c)))
    requires SelectsRows(rows, db.userAttributes, SelectUsers(db, c)) && OwnersAscend(rows)
    modifies users
    ensures users[..] == ListUsers(db, c)
  {
    ghost var ids := Sorted(SelectUsers(db, c));
    assert Ids(users[..]) == ids;
    OrderedRowsAlign(ids, rows);
    UsersWithOwn(db, c, rows);
    var _ := AssignAttributes(users, rows);
  }

  lemma UsersWithOwn(db: Db, c: Cond, rows: seq<AttributeRow<string>>)
    requires SelectsRows(rows, db.userAttributes, SelectUsers(db, c))
    ensures WithOwn(BareUsers(db, Sorted(SelectUsers(db, c))), rows) == ListUsers(db, c)
  {
    var selected := SelectUsers(db, c);
    var ids := Sorted(selected);
    forall i | 0 <= i < |ids|
      ensures WithOwn(BareUsers(db, ids), rows)[i] == ListUsers(db, c)[i]
    {
      assert ids[i] in ids;
      OwnedByIsStored(rows, db.userAttributes, selected, ids[i], UserAttributeNames(db, ids[i]));
    }
  }

  // ----- Listing groups -----

  ghost function MembersOf(db: Db, g: int): set<string> {
    set m | m in db.memberships && m.group == g :: m.user
  }

  ghost function BareGroup(db: Db, g: int): GroupEntry
    requires g in db.groups
  {
    Entry(g, GroupDetails(db.groups[g], Sorted(MembersOf(db, g))), [])
  }

  ghost function FullGroup(db: Db, g: int): GroupEntry
    requires g in db.groups
  {
    BareGroup(db, g).(attributes := GroupAttributesOf(db, g))
  }

  ghost function BareGroups(db: Db, ids: seq<int>): (r: seq<GroupEntry>)
    requires forall g :: g in ids ==> g in db.groups
    ensures |r| == |ids|
    ensures forall i :: 0 <= i < |r| ==> r[i] == BareGroup(db, ids[i])
  {
    seq(|ids|, i requires 0 <= i < |ids| => BareGroup(db, ids[i]))
  }

  ghost function FullGroups(db: Db, ids: seq<int>): (r: seq<GroupEntry>)
    requires forall g :: g in ids ==> g in db.groups
    ensures |r| == |ids|
    ensures forall i :: 0 <= i < |r| ==> r[i] == FullGroup(db, ids[i])
  {
    seq(|ids|, i requires 0 <= i < |ids| => FullGroup(db, ids[i]))
  }

  /** Group names are ordered without regard to case. */
  function NameKey(g: GroupEntry): string {
    Lower(g.details.row.displayName)
  }

  ghost function ListGroups(db: Db, c: Cond): seq<GroupEntry> {
    StableSort(NameKey, FullGroups(db, SortedInts(SelectGroups(db, c))))
  }

  lemma OrderedGroupRowsAlign(ids: seq<int>, rows: seq<AttributeRow<int>>)
    requires AscendingInts(ids)
    requires forall k, l :: 0 <= k < l < |rows| ==> rows[k].owner <= rows[l].owner
    requires forall k :: 0 <= k < |rows| ==> rows[k].owner in ids
    ensures Distinct(ids) && Aligned(ids, rows)
  {
  }

  /** The same loop for groups, which come ordered by id and are sorted by name last. */
  method FillGroups(ghost db: Db, ghost c: Cond, groups: array<GroupEntry>, rows: seq<AttributeRow<int>>)
    returns (sorted: seq<GroupEntry>)
    requires groups[..] == BareGroups(db, SortedInts(SelectGroups(db, c)))
    requires SelectsRows(rows, db.groupAttributes, SelectGroups(db, c))
    requires forall k, l :: 0 <= k < l < |rows| ==> rows[k].owner <= rows[l].owner
    modifies groups
    ensures sorted == ListGroups(db, c)
  {
    ghost var ids := SortedInts(SelectGroups(db, c));
    assert Ids(groups[..]) == ids;
    OrderedGroupRowsAlign(ids, rows);
    GroupsWithOwn(db, c, rows);
    var _ := AssignAttributes(groups, rows);
    sorted := StableSort(NameKey, groups[..]);
  }

  lemma GroupsWithOwn(db: Db, c: Cond, rows: seq<AttributeRow<int>>)
    requires SelectsRows(rows, db.groupAttributes, SelectGroups(db, c))
    ensures var ids := SortedInts(SelectGroups(db, c)); WithOwn(BareGroups(db, ids), rows) == FullGroups(db, ids)
  {
    var selected := SelectGroups(db, c);
    var ids := SortedInts(selected);
    forall i | 0 <= i < |ids|
      ensures WithOwn(BareGroups(db, ids), rows)[i] == FullGroups(db, ids)[i]
    {
      assert ids[i] in ids;
      assert ids[i] in db.groups;
      OwnedByIsStored(rows, db.groupAttributes, selected, ids[i], GroupAttributeNames(db, ids[i]));
    }
  }

  /** The final sort of the groups only permutes them. */
  lemma ListGroupsPermutes(db: Db, c: Cond)
    ensures multiset(ListGroups(db, c)) == multiset(FullGroups(db, SortedInts(SelectGroups(db, c))))
    ensures SortedBy(NameKey, ListGroups(db, c))
  {
    StableSortSorts(NameKey, FullGroups(db, SortedInts(SelectGroups(db, c))));
  }

  /** An entry is listed exactly when it is selected, and looks as the tables say. */
  lemma ListUsersMembers(db: Db, c: Cond, e: UserEntry)
    ensures e in ListUsers(db, c) <==> e.id in SelectUsers(db, c) && e == FullUser(db, e.id)
  {
    var ids := Sorted(SelectUsers(db, c));
    if e in ListUsers(db, c) {
      var i :| 0 <= i < |ids| && e == ListUsers(db, c)[i];
      assert ids[i] in ids;
    }
    if e.id in SelectUsers(db, c) && e == FullUser(db, e.id) {
      var i :| 0 <= i < |ids| && ids[i] == e.id;
      assert ListUsers(db, c)[i] == e;
    }
  }

  lemma ListGroupsMembers(db: Db, c: Cond, e: GroupEntry)
    ensures e in ListGroups(db, c) <==> e.id in SelectGroups(db, c) && e == FullGroup(db, e.id)
  {
    hide EvalCond, MembersOf, GroupAttributesOf, StableSort, SortedBy;
    var ids := SortedInts(SelectGroups(db, c));
    var full := FullGroups(db, ids);
    ListGroupsPermutes(db, c);
    assert e in ListGroups(db, c) <==> e in multiset(ListGroups(db, c));
    assert e in full <==> e in multiset(full);
    if e in full {
      var i :| 0 <= i < |ids| && e == full[i];
      assert ids[i] in ids;
    }
    if e.id in SelectGroups(db, c) && e == FullGroup(db, e.id) {
      var i :| 0 <= i < |ids| && ids[i] == e.id;
      assert full[i] == e;
    }
  }

  // ----- The order of groups -----

  lemma FullGroupsCons(db: Db, g: int, ids: seq<int>)
    requires g in db.groups && forall h :: h in ids ==> h in db.groups
    ensures (forall h :: h in [g] + ids ==> h in db.groups)
    ensures FullGroups(db, [g] + ids) == [FullGroup(db, g)] + FullGroups(db, ids)
  {
    hide FullGroup;
    forall h | h in [g] + ids
      ensures h in db.groups
    {
    }
    assert FullGroups(db, [g] + ids)[1..] == FullGroups(db, ids);
  }

  lemma NameOfFull(db: Db, g: int)
    requires g in db.groups
    ensures NameKey(FullGroup(db, g)) == Lower(db.groups[g].displayName)
  {
  }

  /** Sorting entries is sorting their ids. */
  lemma {:induction false} InsertFull(key: int -> string, db: Db, g: int, ids: seq<int>)
    requires g in db.groups && forall h :: h in ids ==> h in db.groups
    requires forall h: int :: h in db.groups ==> key(h) == Lower(db.groups[h].displayName)
    ensures (forall h :: h in Insert(key, g, ids) ==> h in db.groups) &&
      Insert(NameKey, FullGroup(db, g), FullGroups(db, ids)) == FullGroups(db, Insert(key, g, ids))
  {
    hide FullGroup, NameKey;
    NameOfFull(db, g);
    FullGroupsCons(db, g, ids);
    if ids != [] && !Leq(key(g), key(ids[0])) {
      assert ids[0] in ids;
      NameOfFull(db, ids[0]);
      assert forall h :: h in ids[1..] ==> h in ids;
      InsertFull(key, db, g, ids[1..]);
      assert ids == [ids[0]] + ids[1..];
      FullGroupsCons(db, ids[0], ids[1..]);
      FullGroupsCons(db, ids[0], Insert(key, g, ids[1..]));
      assert FullGroups(db, ids)[1..] == FullGroups(db, ids[1..]);
    } else if ids != [] {
      assert ids[0] in ids;
      NameOfFull(db, ids[0]);
    }
  }

  lemma {:induction false} SortFull(key: int -> string, db: Db, ids: seq<int>)
    requires forall h :: h in ids ==> h in db.groups
    requires forall h: int :: h in db.groups ==> key(h) == Lower(db.groups[h].displayName)
    ensures (forall h :: h in StableSort(key, ids) ==> h in db.groups) &&
      StableSort(NameKey, FullGroups(db, ids)) == FullGroups(db, StableSort(key, ids))
  {
    hide FullGroup, Insert;
    if ids != [] {
      assert ids[0] in ids;
      assert forall h :: h in ids[1..] ==> h in ids;
      assert FullGroups(db, ids)[1..] == FullGroups(db, ids[1..]);
      SortFull(key, db, ids[1..]);
      InsertFull(key, db, ids[0], StableSort(key, ids[1..]));
    }
  }

  lemma {:induction false} CountsOnce<T>(s: seq<T>, x: T)
    requires forall i, j :: 0 <= i < j < |s| ==> s[i] != s[j]
    ensures multiset(s)[x] <= 1
  {
    if s != [] {
      CountsOnce(s[1..], x);
      assert s == [s[0]] + s[1..];
      if s[0] == x {
        assert x !in s[1..];
      }
    }
  }

  lemma CountsTwice<T>(s: seq<T>, i: nat, j: nat)
    requires i < j < |s| && s[i] == s[j]
    ensures multiset(s)[s[i]] >= 2
  {
    assert s == s[..j] + s[j..];
    assert s[..j][i] == s[i] && s[j..][0] == s[i];
    assert s[i] in s[..j] && s[i] in s[j..];
  }

  /** Sorting keeps entries apart. */
  lemma StaysDistinct<T>(key: T -> string, s: seq<T>)
    requires forall i, j :: 0 <= i < j < |s| ==> s[i] != s[j]
    ensures var r := StableSort(key, s); forall i, j :: 0 <= i < j < |r| ==> r[i] != r[j]
  {
    hide StableSort, SortedBy;
    var r := StableSort(key, s);
    StableSortSorts(key, s);
    forall i, j | 0 <= i < j < |r|
      ensures r[i] != r[j]
    {
      if r[i] == r[j] {
        CountsTwice(r, i, j);
        CountsOnce(s, r[i]);
      }
    }
  }
}
