/** Distinguished names: printing, parsing, and what a search base selects. */
module DistinguishedName {
  import opened Text
  import opened Ldap

  datatype Rdn = Rdn(key: string, value: string)

  // ----- Parsing -----

  function TrimAll(elements: seq<string>): (r: seq<string>)
    ensures |r| == |elements|
    ensures forall i :: 0 <= i < |r| ==> r[i] == Trim(elements[i])
  {
    seq(|elements|, i requires 0 <= i < |elements| => Trim(elements[i]))
  }

  /** Exactly two elements make a pair. */
  function MakeDnPair(elements: seq<string>): LdapResult<Rdn> {
    if |elements| == 2 then Ok(Rdn(elements[0], elements[1])) else Err(InvalidDNSyntax)
  }

  function ParseComponent(s: string): LdapResult<Rdn> {
    MakeDnPair(TrimAll(Split(s, '=')))
  }

  /** Parses the components in order; the first error is the result. */
  function ParseComponents(parts: seq<string>): (r: LdapResult<seq<Rdn>>)
    ensures !r.Panic?
    ensures r.Ok? ==> |r.value| == |parts|
  {
    if parts == [] then Ok([])
    else
      var first :- ParseComponent(parts[0]);
      var rest :- ParseComponents(parts[1..]);
      Ok([first] + rest)
  }

  /** Asserts that the name is lower-case already. */
  function ParseDistinguishedName(dn: string): LdapResult<seq<Rdn>> {
    if !IsLower(dn) then Panic else ParseComponents(Split(dn, ','))
  }

  predicate LowerPairs(pairs: seq<Rdn>) {
    forall i :: 0 <= i < |pairs| ==> IsLower(pairs[i].key) && IsLower(pairs[i].value)
  }

  lemma ParseComponentLower(s: string)
    requires IsLower(s) && ParseComponent(s).Ok?
    ensures IsLower(ParseComponent(s).value.key) && IsLower(ParseComponent(s).value.value)
  {
    SplitLower(s, '=');
    var pieces := Split(s, '=');
    assert pieces[0] in pieces && pieces[1] in pieces;
    TrimLower(pieces[0]);
    TrimLower(pieces[1]);
  }

  lemma {:induction false} ParseComponentsLower(parts: seq<string>)
    requires forall p :: p in parts ==> IsLower(p)
    requires ParseComponents(parts).Ok?
    ensures LowerPairs(ParseComponents(parts).value)
  {
    if parts != [] {
      assert parts[0] in parts;
      ParseComponentLower(parts[0]);
      ParseComponentsLower(parts[1..]);
    }
  }

  /** A parsed name is lower-case in every component, so that no later assertion on
      case can fail. */
  lemma ParsedIsLower(dn: string)
    requires ParseDistinguishedName(dn).Ok?
    ensures LowerPairs(ParseDistinguishedName(dn).value)
  {
    SplitLower(dn, ',');
    ParseComponentsLower(Split(dn, ','));
  }

  lemma {:induction false} ParseComponentsConcat(a: seq<string>, b: seq<string>)
    ensures ParseComponents(a + b).Ok? <==> ParseComponents(a).Ok? && ParseComponents(b).Ok?
    ensures ParseComponents(a + b).Ok? ==>
              ParseComponents(a + b).value == ParseComponents(a).value + ParseComponents(b).value
  {
    if a == [] {
      assert a + b == b;
    } else {
      assert (a + b)[1..] == a[1..] + b;
      ParseComponentsConcat(a[1..], b);
      if ParseComponents(a + b).Ok? {
        var x := ParseComponent(a[0]).value;
        assert [x] + (ParseComponents(a[1..]).value + ParseComponents(b).value) ==
               ([x] + ParseComponents(a[1..]).value) + ParseComponents(b).value;
      }
    }
  }

  // ----- Subtrees -----

  /** Whether `base` is the end of `name`. */
  predicate IsUnder(name: seq<Rdn>, base: seq<Rdn>) {
    |name| >= |base| && name[|name| - |base|..] == base
  }

  function IsSubtree(name: seq<Rdn>, base: seq<Rdn>): LdapResult<bool> {
    if !LowerPairs(name) || !LowerPairs(base) then Panic else Ok(IsUnder(name, base))
  }

  /** The comparison loop: `name` is compared with `base` aligned at its end. */
  method CompareSuffix(name: seq<Rdn>, base: seq<Rdn>) returns (r: bool)
    ensures r == IsUnder(name, base)
  {
    if |name| < |base| {
      return false;
    }
    var sizeDiff := |name| - |base|;
    var i := 0;
    while i < |base|
      invariant 0 <= i <= |base|
      invariant name[sizeDiff..sizeDiff + i] == base[..i]
    {
      if name[sizeDiff + i] != base[i] {
        assert name[sizeDiff..][i] != base[i];
        return false;
      }
      assert name[sizeDiff..sizeDiff + i + 1] == name[sizeDiff..sizeDiff + i] + [name[sizeDiff + i]];
      assert base[..i + 1] == base[..i] + [base[i]];
      i := i + 1;
    }
    assert name[sizeDiff..] == name[sizeDiff..sizeDiff + |base|];
    assert base[..|base|] == base;
    return true;
  }

  // ----- Ids inside names -----

  function GetIdFromDistinguishedName(dn: string, base: seq<Rdn>, isGroup: bool): LdapResult<string> {
    var parts :- ParseDistinguishedName(dn);
    var under :- IsSubtree(parts, base);
    if !under then Err(InvalidDNSyntax)
    else if |parts| == |base| + 2 then
      if parts[1].key != "ou" || parts[1].value != (if isGroup then "groups" else "people") ||
         (parts[0].key != "cn" && parts[0].key != "uid")
      then Err(InvalidDNSyntax)
      else Ok(parts[0].value)
    else Err(InvalidDNSyntax)
  }

  function GetUserId(dn: string, base: seq<Rdn>): LdapResult<string> {
    GetIdFromDistinguishedName(dn, base, false)
  }

  function GetGroupName(dn: string, base: seq<Rdn>): LdapResult<string> {
    GetIdFromDistinguishedName(dn, base, true)
  }

  /** Looking for an id never fails an assertion when the name is lower-case. */
  lemma GetIdNoPanic(dn: string, base: seq<Rdn>, isGroup: bool)
    requires IsLower(dn) && LowerPairs(base)
    ensures !GetIdFromDistinguishedName(dn, base, isGroup).Panic?
    ensures GetIdFromDistinguishedName(dn, base, isGroup).Ok? ==>
              IsLower(GetIdFromDistinguishedName(dn, base, isGroup).value)
  {
    if ParseDistinguishedName(dn).Ok? {
      ParsedIsLower(dn);
    }
  }

  /** No name is both that of a user and that of a group. */
  lemma UserOrGroupName(dn: string, base: seq<Rdn>)
    ensures !(GetUserId(dn, base).Ok? && GetGroupName(dn, base).Ok?)
  {
    assert "people"[0] != "groups"[0];
  }

  // ----- Search bases -----

  datatype Scope =
    | Global
    | Users
    | Groups
    | User(filter: LdapFilter)
    | Group(filter: LdapFilter)
    | UserOuOnly
    | GroupOuOnly
    | UnknownScope
    | InvalidScope

  function GetSearchScope(base: seq<Rdn>, parts: seq<Rdn>, scope: SearchScope): LdapResult<Scope> {
    var under :- IsSubtree(parts, base);
    Ok(
      if !under then InvalidScope
      else if |parts| == |base| then Global
      else if |parts| == |base| + 1 && parts[0] == Rdn("ou", "people") then
        if scope.Base? then UserOuOnly else Users
      else if |parts| == |base| + 1 && parts[0] == Rdn("ou", "groups") then
        if scope.Base? then GroupOuOnly else Groups
      else if |parts| == |base| + 2 && parts[1] == Rdn("ou", "people") then
        User(Equality(parts[0].key, parts[0].value))
      else if |parts| == |base| + 2 && parts[1] == Rdn("ou", "groups") then
        Group(Equality(parts[0].key, parts[0].value))
      else UnknownScope)
  }

  // ----- Printing, and parsing what was printed -----

  function UserDn(id: string, base: string): string {
    "uid=" + id + ",ou=people," + base
  }

  function GroupDn(name: string, base: string): string {
    "cn=" + name + ",ou=groups," + base
  }

  /** Names that survive the parser, which knows no escaping. */
  predicate CleanName(s: string) {
    ',' !in s && '=' !in s && !HasOuterSpace(s)
  }

  function EntryDn(key: string, id: string, ou: string, base: string): string {
    key + "=" + id + ",ou=" + ou + "," + base
  }

  lemma ParseAtom(key: string, id: string)
    requires '=' !in key && !HasOuterSpace(key)
    ensures ParseComponent(key + "=" + id) == Ok(Rdn(key, id)) <==> '=' !in id && !HasOuterSpace(id)
  {
    SplitCons(key, '=', id);
    assert key + "=" + id == key + ['='] + id;
    var pieces := Split(key + "=" + id, '=');
    TrimUnchanged(key);
    TrimUnchanged(id);
    if '=' in id {
      SplitSingle(id, '=');
    } else {
      SplitAtom(id, '=');
    }
  }

  /** The value of a component has neither comma nor equals sign nor outer white space. */
  lemma ParsedComponentIsClean(s: string)
    requires ',' !in s && ParseComponent(s).Ok?
    ensures CleanName(ParseComponent(s).value.value)
  {
    SplitPieces(s, '=');
    var pieces := Split(s, '=');
    assert pieces[1] in pieces;
    TrimCleans(pieces[1]);
  }

  lemma {:induction false} ParsedComponentsAreClean(parts: seq<string>)
    requires (forall p :: p in parts ==> ',' !in p) && ParseComponents(parts).Ok?
    ensures var r := ParseComponents(parts).value;
      forall i :: 0 <= i < |r| ==> CleanName(r[i].value)
  {
    hide CleanName, ParseComponent;
    if parts != [] {
      assert parts[0] in parts;
      ParsedComponentIsClean(parts[0]);
      ParsedComponentsAreClean(parts[1..]);
    }
  }

  lemma ParsedIsClean(dn: string)
    requires ParseDistinguishedName(dn).Ok?
    ensures var r := ParseDistinguishedName(dn).value;
      forall i :: 0 <= i < |r| ==> CleanName(r[i].value)
  {
    SplitPieces(dn, ',');
    ParsedComponentsAreClean(Split(dn, ','));
  }

  lemma CleanLower(id: string)
    ensures CleanName(Lower(id)) <==> CleanName(id)
  {
    LowerKeepsNonLetter(id, ',');
    LowerKeepsNonLetter(id, '=');
    assert forall i :: 0 <= i < |id| ==> (IsSpace(Lower(id)[i]) <==> IsSpace(id[i]));
  }

  /** A printed name is its head, its unit and the base between commas. */
  lemma EntryDnParts(key: string, id: string, ou: string, base: string)
    ensures EntryDn(key, id, ou, base) == (key + "=" + id) + [','] + (("ou=" + ou) + [','] + base)
  {
  }

  /** The components of a printed name. */
  lemma SplitEntryDn(key: string, id: string, ou: string, base: string)
    requires ',' !in key && ',' !in ou
    ensures Split(EntryDn(key, id, ou, base), ',') == Split(key + "=" + id, ',') + ["ou=" + ou] + Split(base, ',')
  {
    hide Split, EntryDn;
    var head, unit := key + "=" + id, "ou=" + ou;
    var tail := unit + [','] + base;
    EntryDnParts(key, id, ou, base);
    SplitConcat(head, ',', tail);
    SplitCons(unit, ',', base);
    Regroup(Split(head, ','), [unit], Split(base, ','));
  }

  lemma Regroup(a: seq<string>, b: seq<string>, c: seq<string>)
    ensures a + (b + c) == a + b + c
  {
  }

  lemma LowerEntryDn(key: string, id: string, ou: string, base: string)
    requires IsLower(key) && IsLower(ou) && IsLower(base)
    ensures Lower(EntryDn(key, id, ou, base)) == EntryDn(key, Lower(id), ou, base)
  {
    assert IsLower("=") && IsLower(",ou=") && IsLower(",");
    LowerConcat(key, "=");
    LowerConcat(key + "=", id);
    LowerConcat(key + "=" + id, ",ou=");
    LowerConcat(key + "=" + id + ",ou=", ou);
    LowerConcat(key + "=" + id + ",ou=" + ou, ",");
    LowerConcat(key + "=" + id + ",ou=" + ou + ",", base);
  }

  lemma ParseSingle(s: string)
    ensures ParseComponents([s]).Ok? == ParseComponent(s).Ok?
    ensures ParseComponent(s).Ok? ==> ParseComponents([s]).value == [ParseComponent(s).value]
  {
    assert [s][1..] == [];
  }

  lemma ParseOu(ou: string)
    requires ou == "people" || ou == "groups"
    ensures ParseComponents(["ou=" + ou]) == Ok([Rdn("ou", ou)])
  {
    ParseAtom("ou", ou);
    assert "ou" + "=" + ou == "ou=" + ou;
    ParseSingle("ou=" + ou);
  }

  /** The first component gives back key and id exactly when the id is clean. */
  lemma ParseHead(key: string, id: string)
    requires ',' !in key && '=' !in key && !HasOuterSpace(key)
    ensures ParseComponents(Split(key + "=" + id, ',')) == Ok([Rdn(key, id)]) <==> CleanName(id)
  {
    var head := key + "=" + id;
    SplitSingle(head, ',');
    if |Split(head, ',')| == 1 {
      SplitAtom(head, ',');
      ParseSingle(head);
      ParseAtom(key, id);
    }
  }

  lemma ParseEntry(key: string, id: string, ou: string, baseStr: string, base: seq<Rdn>)
    requires ',' !in key && '=' !in key && !HasOuterSpace(key)
    requires ou == "people" || ou == "groups"
    requires ParseComponents(Split(baseStr, ',')) == Ok(base)
    ensures
      ParseComponents(Split(EntryDn(key, id, ou, baseStr), ',')) == Ok([Rdn(key, id), Rdn("ou", ou)] + base)
      <==> CleanName(id)
  {
    hide CleanName, ParseComponents, Split, HasOuterSpace;
    SplitEntryDn(key, id, ou, baseStr);
    var heads, unit, bases := Split(key + "=" + id, ','), ["ou=" + ou], Split(baseStr, ',');
    ParseHead(key, id);
    ParseOu(ou);
    ParseComponentsConcat(heads + unit, bases);
    ParseComponentsConcat(heads, unit);
    var all := ParseComponents(heads + unit + bases);
    if all.Ok? {
      var first := ParseComponents(heads).value;
      assert all.value == first + [Rdn("ou", ou)] + base;
      if all.value == [Rdn(key, id), Rdn("ou", ou)] + base {
        assert |first| == 1 && first[0] == all.value[0];
        assert first == [Rdn(key, id)];
      }
      if first == [Rdn(key, id)] {
        assert all.value == [Rdn(key, id), Rdn("ou", ou)] + base;
      }
    }
  }

  /** A printed name, lower-cased as for a search base, parses to its key and id in
      front of the unit and the base, exactly when the id is a clean name. */
  lemma PrintedDnParses(key: string, id: string, ou: string, baseStr: string, base: seq<Rdn>)
    requires ',' !in key && '=' !in key && !HasOuterSpace(key) && IsLower(key)
    requires ou == "people" || ou == "groups"
    requires ParseDistinguishedName(baseStr) == Ok(base)
    ensures
      ParseDistinguishedName(Lower(EntryDn(key, id, ou, baseStr))) == Ok([Rdn(key, Lower(id)), Rdn("ou", ou)] + base)
      <==> CleanName(id)
  {
    LowerEntryDn(key, id, ou, baseStr);
    LowerIdempotent(EntryDn(key, id, ou, baseStr));
    CleanLower(id);
    ParseEntry(key, Lower(id), ou, baseStr, base);
  }

  lemma DnShapes(id: string, base: string)
    ensures UserDn(id, base) == EntryDn("uid", id, "people", base)
    ensures GroupDn(id, base) == EntryDn("cn", id, "groups", base)
  {
    assert "uid" + "=" == "uid=" && ",ou=" + "people" + "," == ",ou=people,";
    assert "cn" + "=" == "cn=" && ",ou=" + "groups" + "," == ",ou=groups,";
    assert UserDn(id, base) == "uid" + "=" + id + (",ou=" + "people" + ",") + base;
    assert GroupDn(id, base) == "cn" + "=" + id + (",ou=" + "groups" + ",") + base;
  }

  /** The name printed for a user is a base that selects users by that id. */
  lemma UserDnScope(id: string, baseStr: string, base: seq<Rdn>, scope: SearchScope)
    requires ParseDistinguishedName(baseStr) == Ok(base) && CleanName(id)
    ensures var parsed := ParseDistinguishedName(Lower(UserDn(id, baseStr)));
      parsed.Ok? && GetSearchScope(base, parsed.value, scope) == Ok(User(Equality("uid", Lower(id))))
  {
    DnShapes(id, baseStr);
    PrintedDnParses("uid", id, "people", baseStr, base);
    var parsed := ParseDistinguishedName(Lower(UserDn(id, baseStr)));
    ParsedIsLower(Lower(UserDn(id, baseStr)));
    ParsedIsLower(baseStr);
    assert parsed.value[2..] == base;
  }

  /** The name printed for a group is a base that selects groups by that name. */
  lemma GroupDnScope(name: string, baseStr: string, base: seq<Rdn>, scope: SearchScope)
    requires ParseDistinguishedName(baseStr) == Ok(base) && CleanName(name)
    ensures var parsed := ParseDistinguishedName(Lower(GroupDn(name, baseStr)));
      parsed.Ok? && GetSearchScope(base, parsed.value, scope) == Ok(Group(Equality("cn", Lower(name))))
  {
    DnShapes(name, baseStr);
    PrintedDnParses("cn", name, "groups", baseStr, base);
    var parsed := ParseDistinguishedName(Lower(GroupDn(name, baseStr)));
    ParsedIsLower(Lower(GroupDn(name, baseStr)));
    ParsedIsLower(baseStr);
    assert parsed.value[2..] == base;
  }
}
