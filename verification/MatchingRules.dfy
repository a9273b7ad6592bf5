/** The matching rules by which section 4.5.1.7 of RFC 4511 has a test compare its
    assertion with the values that an entry shows. */
module MatchingRules {
  import opened Wrappers
  import opened Text
  import opened Codec
  import opened Like
  import opened Sql
  import opened DistinguishedName
  import opened LdapFilters
  import opened Search
  import L = Ldap

  // ----- Names -----

  /** Two distinguished names are the same if they parse alike, without regard to case. */
  predicate SameDn(value: string, dn: string) {
    var a, b := ParseDistinguishedName(Lower(value)), ParseDistinguishedName(Lower(dn));
    a.Ok? && b.Ok? && a.value == b.value
  }

  predicate IsDn(value: string) {
    ParseDistinguishedName(Lower(value)).Ok?
  }

  /** The attribute type that a name begins with. */
  function KeyOf(value: string): string {
    var p := ParseDistinguishedName(Lower(value));
    if p.Ok? && |p.value| > 0 then p.value[0].key else ""
  }

  function Unit(isGroup: bool): string {
    if isGroup then "groups" else "people"
  }

  /** The id that the server takes from a name. */
  function IdIn(info: LdapInfo, value: string, isGroup: bool): L.LdapResult<string> {
    GetIdFromDistinguishedName(Lower(value), info.base, isGroup)
  }

  lemma BaseIsLower(info: LdapInfo)
    requires ValidInfo(info)
    ensures LowerPairs(info.base)
  {
    ParsedIsLower(info.baseStr);
  }

  /** It takes one from names of two shapes. */
  lemma IdShape(info: LdapInfo, value: string, isGroup: bool)
    requires ValidInfo(info)
    ensures var p, r := ParseDistinguishedName(Lower(value)), IdIn(info, value, isGroup);
      && !r.Panic?
      && (r.Ok? ==>
            && p.Ok? && p.value == [Rdn(KeyOf(value), r.value), Rdn("ou", Unit(isGroup))] + info.base
            && (KeyOf(value) == "cn" || KeyOf(value) == "uid") && CleanName(r.value))
  {
    hide ParseComponents, CleanName;
    BaseIsLower(info);
    LowerIdempotent(value);
    GetIdNoPanic(Lower(value), info.base, isGroup);
    var p, r := ParseDistinguishedName(Lower(value)), IdIn(info, value, isGroup);
    if r.Ok? {
      ParsedIsClean(Lower(value));
      assert p.value == [p.value[0], p.value[1]] + p.value[2..];
      assert p.value[2..] == info.base;
    }
  }

  lemma ShapeHasId(info: LdapInfo, value: string, isGroup: bool, key: string, id: string)
    requires ValidInfo(info) && (key == "cn" || key == "uid")
    requires var p := ParseDistinguishedName(Lower(value));
      p.Ok? && p.value == [Rdn(key, id), Rdn("ou", Unit(isGroup))] + info.base
    ensures IdIn(info, value, isGroup) == L.Ok(id) && KeyOf(value) == key
  {
    hide ParseComponents;
    BaseIsLower(info);
    LowerIdempotent(value);
    ParsedIsLower(Lower(value));
    var p := ParseDistinguishedName(Lower(value));
    assert p.value[2..] == info.base;
  }

  lemma PlainKeys(key: string)
    requires key == "cn" || key == "uid"
    ensures ',' !in key && '=' !in key && !HasOuterSpace(key) && IsLower(key)
  {
  }

  /** A clean printed name is met by exactly the names with its type and its id. */
  lemma PrintedIsMet(info: LdapInfo, value: string, isGroup: bool, key: string, id: string)
    requires ValidInfo(info) && CleanName(id) && (key == "cn" || key == "uid")
    ensures SameDn(value, EntryDn(key, id, Unit(isGroup), info.baseStr)) <==>
      IdIn(info, value, isGroup) == L.Ok(Lower(id)) && KeyOf(value) == key
  {
    hide ParseDistinguishedName, CleanName, EntryDn, GetIdFromDistinguishedName, ValidInfo;
    PlainKeys(key);
    BaseParses(info);
    PrintedDnParses(key, id, Unit(isGroup), info.baseStr, info.base);
    IdShape(info, value, isGroup);
    if SameDn(value, EntryDn(key, id, Unit(isGroup), info.baseStr)) {
      ShapeHasId(info, value, isGroup, key, Lower(id));
    }
  }

  lemma BaseParses(info: LdapInfo)
    requires ValidInfo(info)
    ensures ParseDistinguishedName(info.baseStr) == L.Ok(info.base)
  {
  }

  /** The server takes the id of a user from the name it prints for them. */
  lemma OwnNameHasId(info: LdapInfo, id: string)
    requires ValidInfo(info) && CleanName(id)
    ensures IdIn(info, UserDn(id, info.baseStr), false) == L.Ok(Lower(id)) && KeyOf(UserDn(id, info.baseStr)) == "uid"
  {
    hide ParseDistinguishedName, CleanName, EntryDn, GetIdFromDistinguishedName, ValidInfo, UserDn;
    PlainKeys("uid");
    BaseParses(info);
    DnShapes(id, info.baseStr);
    PrintedDnParses("uid", id, "people", info.baseStr, info.base);
    PrintedIsMet(info, UserDn(id, info.baseStr), false, "uid", id);
  }

  // ----- Rules -----

  /** How values of an attribute are compared. */
  datatype Rule = TextRule | NameRule | UuidRule | TypedRule(typ: AttributeType)

  /** Texts match without regard to case; other values are what the assertion parses to. */
  predicate ScalarMatches(lib: Parsers, typ: AttributeType, s: Scalar, value: string) {
    if typ == String then s.Bytes? && IsTextBytes(s.bytes) && Lower(BytesText(s.bytes)) == Lower(value)
    else ParseScalar(lib, Lower(value), typ) == Some(s)
  }

  predicate RuleMatches(lib: Parsers, uuids: UuidParser, rule: Rule, x: OutputValue, value: string) {
    match rule
    case TextRule => x.Plain? && Lower(x.text) == Lower(value)
    case NameRule => x.Plain? && SameDn(value, x.text)
    case UuidRule => x.Plain? && uuids(Lower(value)) == Some(x.text)
    case TypedRule(typ) => x.Typed? && ScalarMatches(lib, typ, x.scalar, value)
  }

  /** The assertion is a value of the attribute's syntax. */
  predicate IsAssertion(lib: Parsers, uuids: UuidParser, rule: Rule, value: string) {
    match rule
    case TextRule => true
    case NameRule => IsDn(value)
    case UuidRule => uuids(Lower(value)).Some?
    case TypedRule(typ) => ParseScalar(lib, Lower(value), typ).Some?
  }

  predicate SomeMatch(lib: Parsers, uuids: UuidParser, rule: Rule, shown: seq<OutputValue>, value: string) {
    exists x :: x in shown && RuleMatches(lib, uuids, rule, x, value)
  }

  /** One matching value is enough; an unknown attribute, or an assertion that is no value
      of it, leaves the test open. */
  function StandardEquality(lib: Parsers, uuids: UuidParser, rule: Option<Rule>, shown: seq<OutputValue>, value: string)
    : Tri
  {
    if rule.None? || !IsAssertion(lib, uuids, rule.value, value) then Unknown
    else Bool(SomeMatch(lib, uuids, rule.value, shown, value))
  }

  function StandardPresence(rule: Option<Rule>, shown: seq<OutputValue>): Tri {
    if rule.None? then Unknown else Bool(shown != [])
  }

  /** Of the attributes that the server tests for substrings, all hold texts. */
  ghost function StandardSubstring(rule: Option<Rule>, shown: seq<OutputValue>, s: SubStringFilter): Tri {
    if rule == Some(TextRule) then Bool(exists x :: x in shown && x.Plain? && Holds(s, Lower(x.text))) else Unknown
  }

  /** Two values of a test agree: where it must hold, the same is true; where it must
      not, under an odd number of Nots, the same is false. */
  predicate AgreeOn(positive: bool, a: Tri, b: Tri) {
    if positive then a.True? <==> b.True? else a.False? <==> b.False?
  }

  // ----- Stored values -----

  function Scalars(v: Value): seq<Scalar> {
    match v
    case One(s) => [s]
    case Many(ss) => ss
  }

  /** A single empty value is not shown. */
  predicate Unseen(v: Value) {
    Scalars(v) == [Bytes([])]
  }

  function ShownValues(v: Value): seq<OutputValue> {
    if Unseen(v) then [] else TypedValues(v)
  }

  ghost predicate AnyMatches(lib: Parsers, typ: AttributeType, v: Value, value: string) {
    exists s :: s in Scalars(v) && ScalarMatches(lib, typ, s, value)
  }

  /** The server compares the whole value with that of the lower-cased assertion. */
  predicate WholeMatches(lib: Parsers, typ: AttributeType, isList: bool, v: Value, value: string) {
    ParseValue(lib, [Lower(value)], typ, isList) == Some(v)
  }

  /** A text in lower case. */
  predicate IsLowerText(s: Scalar) {
    s.Bytes? && IsTextBytes(s.bytes) && IsLower(BytesText(s.bytes))
  }

  /** Values for which that makes a difference: several in a list, a single empty one, and
      a text with an upper-case letter. */
  predicate SensitiveValue(typ: AttributeType, v: Value) {
    var ss := Scalars(v);
    |ss| >= 2 || Unseen(v) || (typ == String && |ss| == 1 && !IsLowerText(ss[0]))
  }

  lemma TextOfBytes(b: seq<byte>)
    requires IsTextBytes(b)
    ensures TextBytes(BytesText(b)) == b && (|b| < TWO_64 ==> IsText(BytesText(b)))
  {
  }

  lemma ParsedWhole(lib: Parsers, typ: AttributeType, isList: bool, v: Value, value: string)
    requires HasType(v, typ, isList)
    ensures WholeMatches(lib, typ, isList, v, value) <==>
      ParseScalar(lib, Lower(value), typ).Some? && Scalars(v) == [ParseScalar(lib, Lower(value), typ).value]
  {
    hide ParseScalar;
    var one := [Lower(value)];
    assert one[1..] == [];
    if ParseScalar(lib, Lower(value), typ).Some? {
      var s := ParseScalar(lib, Lower(value), typ).value;
      assert ParseScalars(lib, one[1..], typ) == Some([]);
      assert [s] + [] == [s];
    }
  }

  /** A text is what the lower-cased assertion parses to exactly if it matches and is in
      lower case. */
  lemma TextParses(lib: Parsers, s: Scalar, value: string)
    requires ScalarHasType(s, String) && ParseScalar(lib, Lower(value), String).Some?
    ensures ParseScalar(lib, Lower(value), String) == Some(s) <==>
      ScalarMatches(lib, String, s, value) && IsLowerText(s)
  {
    LowerIdempotent(value);
    TextRoundTrip(Lower(value));
    TextOfBytes(s.bytes);
  }

  lemma WholeIsOne(lib: Parsers, typ: AttributeType, isList: bool, v: Value, value: string)
    requires HasType(v, typ, isList) && ParseScalar(lib, Lower(value), typ).Some?
    ensures WholeMatches(lib, typ, isList, v, value) <==>
      |Scalars(v)| == 1 && AnyMatches(lib, typ, v, value) && (typ == String ==> IsLowerText(Scalars(v)[0]))
  {
    hide WholeMatches, ParseScalar, IsLowerText;
    ParsedWhole(lib, typ, isList, v, value);
    if |Scalars(v)| == 1 {
      var s := Scalars(v)[0];
      assert Scalars(v) == [s] && s in Scalars(v);
      if typ == String {
        TextParses(lib, s, value);
      }
    }
  }

  lemma ShownMatches(lib: Parsers, uuids: UuidParser, typ: AttributeType, v: Value, value: string)
    ensures SomeMatch(lib, uuids, TypedRule(typ), ShownValues(v), value) <==>
      !Unseen(v) && AnyMatches(lib, typ, v, value)
  {
    hide ScalarMatches;
    if !Unseen(v) {
      var shown := TypedValues(v);
      assert forall i :: 0 <= i < |shown| ==> shown[i] == Typed(Scalars(v)[i]);
      if AnyMatches(lib, typ, v, value) {
        var i :| 0 <= i < |Scalars(v)| && ScalarMatches(lib, typ, Scalars(v)[i], value);
        assert shown[i] in shown;
      }
    }
  }

  lemma EmptyTextIsLower()
    ensures IsLowerText(Bytes([]))
  {
    assert Lower("") == "";
  }

  /** The server's comparison of a stored value differs from the standard's on exactly the
      assertions that match a sensitive value. */
  lemma ValueExactly(lib: Parsers, uuids: UuidParser, typ: AttributeType, isList: bool, v: Value, value: string)
    requires HasType(v, typ, isList) && ParseScalar(lib, Lower(value), typ).Some?
    ensures (WholeMatches(lib, typ, isList, v, value) <==>
               SomeMatch(lib, uuids, TypedRule(typ), ShownValues(v), value)) <==>
      !(AnyMatches(lib, typ, v, value) && SensitiveValue(typ, v))
  {
    hide WholeMatches, SomeMatch, AnyMatches, IsLowerText, ParseScalar;
    WholeIsOne(lib, typ, isList, v, value);
    ShownMatches(lib, uuids, typ, v, value);
    EmptyTextIsLower();
    SomeScalar(lib, typ, v, value);
  }

  lemma SomeScalar(lib: Parsers, typ: AttributeType, v: Value, value: string)
    ensures AnyMatches(lib, typ, v, value) ==> |Scalars(v)| >= 1
  {
  }
}
