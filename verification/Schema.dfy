/** Attribute schemas: the rows of the database, and the public schema built from
    them by adding the built-in attributes, sorting, and finding the first match. */
module Schema {
  import opened Wrappers
  import opened Ordering
  import opened Codec

  datatype SchemaRow = SchemaRow(typ: AttributeType, isList: bool, isVisible: bool, isEditable: bool, isHardcoded: bool)

  datatype AttributeSchema = AttributeSchema(name: string, row: SchemaRow)

  datatype Schema = Schema(
    userAttributes: seq<AttributeSchema>,
    groupAttributes: seq<AttributeSchema>,
    extraUserClasses: seq<string>,
    extraGroupClasses: seq<string>)

  const BUILTIN_TEXT := SchemaRow(String, false, true, false, true)
  const BUILTIN_EDITABLE_TEXT := SchemaRow(String, false, true, true, true)
  const BUILTIN_DATE := SchemaRow(DateTime, false, true, false, true)
  const BUILTIN_NUMBER := SchemaRow(Integer, false, true, false, true)

  const BUILTIN_USER_ATTRIBUTES: seq<AttributeSchema> := [
    AttributeSchema("user_id", BUILTIN_TEXT),
    AttributeSchema("creation_date", BUILTIN_DATE),
    AttributeSchema("mail", BUILTIN_EDITABLE_TEXT),
    AttributeSchema("uuid", BUILTIN_TEXT),
    AttributeSchema("display_name", BUILTIN_EDITABLE_TEXT)]

  const BUILTIN_GROUP_ATTRIBUTES: seq<AttributeSchema> := [
    AttributeSchema("group_id", BUILTIN_NUMBER),
    AttributeSchema("creation_date", BUILTIN_DATE),
    AttributeSchema("uuid", BUILTIN_TEXT),
    AttributeSchema("display_name", BUILTIN_EDITABLE_TEXT)]

  function Name(a: AttributeSchema): string {
    a.name
  }

  /** The schema entry of a name is the first one in the list. */
  function GetAttributeSchema(attributes: seq<AttributeSchema>, name: string): Option<SchemaRow> {
    var a :- FindFirst(Name, attributes, name);
    Some(a.row)
  }

  function BuiltinUserRow(name: string): Option<SchemaRow> {
    GetAttributeSchema(BUILTIN_USER_ATTRIBUTES, name)
  }

  function BuiltinGroupRow(name: string): Option<SchemaRow> {
    GetAttributeSchema(BUILTIN_GROUP_ATTRIBUTES, name)
  }

  /** Extends both lists with the built-in attributes and sorts them by name: in the
      result every name has the entry of the database, or else the built-in one. */
  method ToPublicSchema(schema: Schema) returns (public: Schema)
    ensures SortedBy(Name, public.userAttributes) && SortedBy(Name, public.groupAttributes)
    ensures multiset(public.userAttributes) == multiset(schema.userAttributes) + multiset(BUILTIN_USER_ATTRIBUTES)
    ensures multiset(public.groupAttributes) == multiset(schema.groupAttributes) + multiset(BUILTIN_GROUP_ATTRIBUTES)
    ensures forall name ::
      GetAttributeSchema(public.userAttributes, name) ==
        OrElse(GetAttributeSchema(schema.userAttributes, name), BuiltinUserRow(name))
    ensures forall name ::
      GetAttributeSchema(public.groupAttributes, name) ==
        OrElse(GetAttributeSchema(schema.groupAttributes, name), BuiltinGroupRow(name))
    ensures public.extraUserClasses == schema.extraUserClasses && public.extraGroupClasses == schema.extraGroupClasses
    ensures public == PublicSchema(schema)
  {
    var users := schema.userAttributes;
    users := users + BUILTIN_USER_ATTRIBUTES;
    users := StableSort(Name, users);
    var groups := schema.groupAttributes;
    groups := groups + BUILTIN_GROUP_ATTRIBUTES;
    groups := StableSort(Name, groups);
    public := schema.(userAttributes := users, groupAttributes := groups);
    PublicSchemaPermutes(schema);
    forall name
      ensures GetAttributeSchema(public.userAttributes, name) ==
        OrElse(GetAttributeSchema(schema.userAttributes, name), BuiltinUserRow(name))
      ensures GetAttributeSchema(public.groupAttributes, name) ==
        OrElse(GetAttributeSchema(schema.groupAttributes, name), BuiltinGroupRow(name))
    {
      PublicLookup(schema.userAttributes, BUILTIN_USER_ATTRIBUTES, name);
      PublicLookup(schema.groupAttributes, BUILTIN_GROUP_ATTRIBUTES, name);
    }
  }

  function OrElse<T>(first: Option<T>, second: Option<T>): Option<T> {
    if first.Some? then first else second
  }

  function PublicSchema(schema: Schema): Schema {
    schema.(userAttributes := StableSort(Name, schema.userAttributes + BUILTIN_USER_ATTRIBUTES),
            groupAttributes := StableSort(Name, schema.groupAttributes + BUILTIN_GROUP_ATTRIBUTES))
  }

  /** An entry of the database wins over a built-in one of the same name: the sort
      keeps the order of equal names, and the built-in entries come second. */
  lemma PublicLookup(attributes: seq<AttributeSchema>, builtin: seq<AttributeSchema>, name: string)
    ensures GetAttributeSchema(StableSort(Name, attributes + builtin), name) ==
      if GetAttributeSchema(attributes, name).Some? then GetAttributeSchema(attributes, name)
      else GetAttributeSchema(builtin, name)
  {
    FindFirstSorted(Name, attributes + builtin, name);
    FindFirstConcat(Name, attributes, builtin, name);
  }

  // ----- The rows of the database as a list -----

  function ListRows(names: seq<string>, rows: map<string, SchemaRow>): seq<AttributeSchema>
    requires forall n :: n in names ==> n in rows
  {
    if names == [] then [] else [AttributeSchema(names[0], rows[names[0]])] + ListRows(names[1..], rows)
  }

  /** What remains for a viewer who may not see everything. */
  function RetainVisible(attributes: seq<AttributeSchema>): seq<AttributeSchema> {
    if attributes == [] then []
    else (if attributes[0].row.isVisible then [attributes[0]] else []) + RetainVisible(attributes[1..])
  }

  function ForViewer(attributes: seq<AttributeSchema>, restricted: bool): seq<AttributeSchema> {
    if restricted then RetainVisible(attributes) else attributes
  }

  ghost function AttributeList(rows: map<string, SchemaRow>): seq<AttributeSchema> {
    ListRows(Sorted(rows.Keys), rows)
  }

  predicate VisibleTo(row: SchemaRow, restricted: bool) {
    restricted ==> row.isVisible
  }

  lemma {:induction false} ListRowsLookup(names: seq<string>, rows: map<string, SchemaRow>, restricted: bool,
                                          name: string)
    requires forall n :: n in names ==> n in rows
    ensures GetAttributeSchema(ForViewer(ListRows(names, rows), restricted), name) ==
      if name in names && VisibleTo(rows[name], restricted) then Some(rows[name]) else None
  {
    if names != [] {
      ListRowsLookup(names[1..], rows, restricted, name);
      var all := ListRows(names, rows);
      assert all[1..] == ListRows(names[1..], rows);
      assert name in names <==> name == names[0] || name in names[1..];
      if restricted && rows[names[0]].isVisible {
        assert RetainVisible(all) == [all[0]] + RetainVisible(all[1..]);
        assert RetainVisible(all)[1..] == RetainVisible(all[1..]);
      } else if restricted {
        assert RetainVisible(all) == [] + RetainVisible(all[1..]) == RetainVisible(all[1..]);
      }
    }
  }

  /** What a viewer's public schema says of a name: the row of the database if they
      may see it, and the built-in entry otherwise. */
  lemma ViewerLookup(rows: map<string, SchemaRow>, builtin: seq<AttributeSchema>, restricted: bool, name: string)
    ensures GetAttributeSchema(StableSort(Name, ForViewer(AttributeList(rows), restricted) + builtin), name) ==
      if name in rows && VisibleTo(rows[name], restricted) then Some(rows[name]) else GetAttributeSchema(builtin, name)
  {
    PublicLookup(ForViewer(AttributeList(rows), restricted), builtin, name);
    ListRowsLookup(Sorted(rows.Keys), rows, restricted, name);
  }

  /** The lists that the public schema is made of stay sorted and lose nothing. */
  lemma PublicSchemaPermutes(schema: Schema)
    ensures SortedBy(Name, PublicSchema(schema).userAttributes)
    ensures multiset(PublicSchema(schema).userAttributes) ==
              multiset(schema.userAttributes) + multiset(BUILTIN_USER_ATTRIBUTES)
    ensures SortedBy(Name, PublicSchema(schema).groupAttributes)
    ensures multiset(PublicSchema(schema).groupAttributes) ==
              multiset(schema.groupAttributes) + multiset(BUILTIN_GROUP_ATTRIBUTES)
  {
    StableSortSorts(Name, schema.userAttributes + BUILTIN_USER_ATTRIBUTES);
    StableSortSorts(Name, schema.groupAttributes + BUILTIN_GROUP_ATTRIBUTES);
  }
}
