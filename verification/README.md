# LLDAP, modelled and proved in Dafny

LLDAP is a small LDAP server that keeps its users and groups in an SQL database. This
project models its logic and proves properties of it over every input, every state and
every run. There are five parts.

**Searching** (`DistinguishedName`, `Like`, `EscapedLike`, `Ldap`, `LdapFilters`, `Filters`,
`Sql`, `Listing`, `Search`, `SearchProperties`, `SearchAnswers`, `UserNames`, `GroupNames`,
`MatchingRules`, `StandardUsers`, `StandardGroups`, `Secrecy`). A search names a base by a distinguished name, from which the
server chooses what to search. The LDAP filter is converted into a request
filter, the request filter is compiled into an SQL condition with membership subqueries
and LIKE patterns, two ordered queries are run, a one-pass cursor merges attribute rows
into entries, and the entries are printed. `Sql` gives conditions their three-valued
meaning over joined rows. Each translation is proved to keep the meaning of what it
translates. `SearchAnswers` says of every base and scope which entries the answer has, and
`UserNames` and `GroupNames` say, from the stored rows, what an entry shows under each
spelling of each name and whom a test of it finds. `StandardUsers` and `StandardGroups` give the meaning that section 4.5.1.7 of
RFC 4511 asks for: every test compares its assertion, by the rule of the attribute
(`MatchingRules`), with the values that the entry shows to this viewer and nothing else.
They prove test by test, in terms of the stored rows, exactly when the server agrees, for
object classes, names and members as for the other attributes. No search panics, every
answer ends with its one final result, a regular user reaches only what concerns them, and
`Secrecy` proves exactly when their answers do not depend on what is hidden from them, or
on who else is in their groups.

**The directory as a state machine** (`Text`, `Ordering`, `Codec`, `Numbers`, `Schema`,
`Database`, `Directory`, `DirectoryProperties`, `Invariants`, `AccessControl`, `Mutations`,
`Requests`, `GroupRequests`, `Administration`, `DirectoryServer`, `Reachable`,
`Counterexamples`). The state is the tables; the steps are the GraphQL mutations, the LDAP
add and starting the server. `Requests` and `GroupRequests` say of each request exactly
when it is accepted and what is stored then, field by field. Every run from a new database keeps
identifiers, emails and names unique without regard to case, leaves no dangling row, and
keeps every stored value decodable at the type that the schema gives it; the
administrators' group survives every run whose administrators are members at the time they
act. `DirectoryServer` is the same machine as a class whose methods change the tables in
place inside transactions; `Handle` is proved to be one step of the state machine.

**One LDAP connection** (`LdapSession`, `Rights`, `LdapHandler`). Binding, unbinding,
changing passwords and adding users; over any run the connection speaks for its last
successful bind. `Rights` says who may do what, by the groups they were in when they bound.
`LdapHandler` is the class whose field is the bound user.

**Tokens** (`Tokens`, `TokenHistory`, `TokenServer`). Logins, refreshes, logouts, password resets, the
hourly cleanup and restarts, with the three token tables and the in-memory blacklist.
After a logout, no token issued before is accepted again, unless the user is deleted and
the server restarted; which tokens are accepted is characterised exactly. `TokenHistory`
says of any run when a refresh or a reset issues a token, and what the token says.
`TokenServer` is
the class that changes the tables and the blacklist in place.

**Schema migrations** (`SchemaTables`, `Migrations`, `MigrationsKeep`, `Migrator`). The
nine migrations from version 2 to version 10 over tables whose columns come and go. Every
run, also an interrupted or failing one, keeps the data behind the tables and the
constraints of the version it reached; migrating in two goes is migrating in one; running
again finishes what was interrupted; and it is proved exactly which databases can be
upgraded, and what becomes of each name. `Migrator` changes the tables in place, one transaction per version.

The functions of a part are the specification of its class: each method's contract equates
the new state with the function of the old one, and the theorems are about the functions.

## What the model assumes

- Texts are ASCII; a text with other characters, or of 2^64 bytes, is refused where the
  server would accept it. Lower-casing is ASCII lower-casing in the server and in SQL.
- Foreign code is an arbitrary function passed as a parameter: parsers of dates, base64
  photos and UUIDs, the JPEG check, UUIDs from a name and a date, password files, and the
  hashes of tokens. The clock is part of the token state and never goes back; elsewhere the
  time is a parameter. Expiry dates are stored exactly.
- Database statements fail only on constraint violations, except in the migrations, where
  any set of transactions may fail for outside reasons. A mutation, a logout or a message
  is one step: what happens inside is not interleaved with other requests. The server runs
  one worker (server/src/main.rs:185), so there is one blacklist.
- Error messages are dropped; result codes are kept. A failed assertion, `unwrap` or
  `expect` is an outcome of its own, `Panic`, so that its absence can be proved.

## What the code does, where that is not what one would expect

- An equality test lower-cases the assertion and compares it with the stored text as it is,
  also for display names and custom attributes, and compares lists as a whole; a presence
  test asks whether the schema knows the attribute, not whether the entry has it; under
  Not, users without a display name are missed (SQL's unknown) and a test of an unknown
  attribute, mapped to false, selects everybody (`BobIsMissed`, `UnsetPhotoIsFound`).
- Tests of names and classes do not go by the values shown. A member test is true of
  members whom the viewer is not shown (`HiddenMemberIsFound`), "groupOfNames" is true of
  groups that do not show it (`HiddenClassIsFound`), `cn` and `uid` are interchangeable in
  every name, and a group prints its entry name with `uid` and its own name with `cn`. "dn"
  can be tested, though it is no attribute of any entry. `UserEqualityExactly`,
  `UserPresenceExactly` and their group twins give the exact conditions under which each
  test agrees with the standard.
- So a regular user can find out, by naming somebody in a member test, in which of their
  own groups that user is; no other filter tells (`MemberTestExactly`, `SecretsKeptExactly`).
- LIKE metacharacters in a substring are not escaped (`PatternCorrectIffPlain`,
  `PercentMatchesAll`), nor is the backslash that escapes in MySQL and Postgres
  (`PatternCorrectIffHarmless`, `BackslashMisread`). Names are not escaped when they are
  printed (`PrintedDnParses`).
- A custom group attribute called `group_id` that is hidden uncovers the built-in one of
  that name, which has no row of its own: a regular user reads and tests the hidden bytes
  as a number (`SecretsKeptExactly`, `ViewerGroupSchemaFits`, `TextTakenForNumber`).
- LDAP add, modify and password change do not lower-case the name they are given, and then
  assert that it is in lower case (`AddPanicsExactly`, `TargetPanicsExactly`, `UpperCasePanics`). The latter
  two also panic when the bound user may not read the one named.
- A modify request is not atomic: changes before the first refused one stay
  (`ChangesApplied`).
- Attributes that are not editable can still be removed by their owner
  (`RegularUserChanges`, `BadgeIsRemoved`).
- Administrator permission is taken from the token: one who was removed from the group but
  still holds a token can empty the group (`StaleAdminEmptiesGroup`).
- Deleting a user forgets the blacklisted rows of their tokens (`DeletedUserIsForgotten`).
- The binary form of attribute values is injective at one type, not across types, and
  decoding ignores what follows the value.

## Model

| member | source | states |
|---|---|---|
| Ordering.CompareCaseInsensitive | server/src/domain/types.rs:127-143 | The character-by-character loop orders two strings as their lower-cased forms are ordered |
| Ordering.FindFirstSorted | server/src/domain/schema.rs:36-124 | A stable sort by name does not change which entry of a name is found first |
| Ordering.StableSortSorts | server/src/domain/schema.rs:36-124 | Sorting orders by name and only permutes |
| Codec.RoundTrip | server/src/domain/types.rs:107-125 | Decoding an encoded value at its type gives it back, whatever bytes follow |
| Codec.Injective | server/src/domain/types.rs:107-125 | At one type and list-ness, equal bytes are equal values, so comparing stored bytes compares values |
| Codec.NotInjectiveAcrossTypes | server/src/domain/types.rs:107-125 | Across types this fails: an input where two values of different types share their bytes |
| Codec.DeserializeAttributeValue | server/src/domain/deserialize.rs:4-50 | Accepts exactly the strings that parse at the type and list-ness, and stores bytes that decode to what they parse to |
| Numbers.ParseIntExactly | server/src/domain/deserialize.rs:11-15 | Exactly the texts of at least one digit after an optional sign parse, if what they stand for has 64 bits, and to that |
| Numbers.PrintedParses | server/src/domain/deserialize.rs:11-15 | Every 64-bit number parses back from its decimal print |
| Numbers.ElementsParse | server/src/domain/deserialize.rs:25-50 | A list parses element by element, in order, all or none |
| Numbers.BytesAsStored | server/src/domain/types.rs:107-125 | Some values as they are stored: eight bytes, lowest first, for a number or a length, then the bytes or elements |
| Schema.ToPublicSchema | server/src/domain/schema.rs:36-124 | Extending and sorting in place gives sorted lists of exactly the stored and built-in attributes, in which a stored one wins over a built-in one of its name |
| Schema.PublicSchemaPermutes | server/src/domain/schema.rs:36-124 | Both attribute lists come out sorted and hold exactly the stored and the built-in attributes |
| Schema.PublicLookup | server/src/domain/schema.rs:36-124 | In the public schema a stored attribute wins over a built-in one of its name |
| Schema.ViewerLookup | server/src/infra/access_control.rs:317-330 | What a viewer's schema says of a name: the stored row if they may see it, else the built-in one |
| Database.EmptyDbValid | server/src/domain/sql_migrations.rs:800-830 | The tables of a new database satisfy the invariant |
| DistinguishedName.ParsedIsLower | server/src/domain/ldap/utils.rs:55-60 | A parsed name is lower-case in every component, so later assertions on case hold |
| DistinguishedName.CompareSuffix | server/src/domain/ldap/utils.rs:138-157 | The comparison loop decides whether a name ends with the base |
| DistinguishedName.GetIdNoPanic | server/src/domain/ldap/utils.rs:62-111 | Extracting an id from a lower-case name fails no assertion and gives a lower-case id |
| DistinguishedName.UserOrGroupName | server/src/domain/ldap/utils.rs:62-111 | No name is both that of a user and that of a group |
| DistinguishedName.PrintedDnParses | server/src/domain/ldap/user.rs:132-145 | A printed name parses back to its parts exactly if the id has no comma, no equals sign and no outer whitespace |
| DistinguishedName.UserDnScope | server/src/infra/ldap_handler.rs:53-96 | The printed name of a user, as a base, selects users by that id in every scope |
| DistinguishedName.GroupDnScope | server/src/infra/ldap_handler.rs:53-96 | The printed name of a group, as a base, selects groups by that name in every scope |
| Like.ToSqlFilter | server/src/domain/handler.rs:27-47 | The push loop writes the pattern of the filter and fills exactly the reserved capacity |
| Like.PatternCorrect | server/src/domain/handler.rs:27-47 | Without metacharacters the pattern matches exactly the strings that split as initial, parts in order, final |
| Like.PatternCorrectIffPlain | server/src/domain/handler.rs:27-47 | It does so for all strings if and only if no fragment has a metacharacter |
| EscapedLike.PatternCorrectIffHarmless | server/src/domain/handler.rs:27-47 | Where a backslash escapes, it does so for all strings if and only if no fragment has a metacharacter, or a backslash other than as the last character of the final one |
| EscapedLike.BackslashMisread | server/src/domain/handler.rs:27-47 | There, an input where a backslash changes the meaning of the pattern |
| Filters.UserFilterExprCorrect | server/src/domain/sql_user_backend_handler.rs:25-102 | The compiled condition has the three-valued meaning of the request filter, for every nesting and any number of membership tests |
| Filters.GroupFilterExprCorrect | server/src/domain/sql_group_backend_handler.rs:19-76 | The same for group filters |
| Filters.GroupListConditionCorrect | server/src/domain/sql_group_backend_handler.rs:81-100 | Wrapping the condition in IN over groups left-joined to members loses no memberless group and duplicates none |
| LdapFilters.UserFieldType | server/src/domain/ldap/utils.rs:169-206 | A field that maps to a user attribute has the type of its stored row; password columns are never reached |
| LdapFilters.ViewerGroupSchemaFits | server/src/domain/ldap/utils.rs:221-239 | The same holds of group fields if and only if no hidden attribute shadows group_id |
| LdapFilters.ConvertUserFilterSafe | server/src/domain/ldap/user.rs:177-291 | Converting a user filter fails no assertion and its result never makes the compiler panic |
| LdapFilters.ConvertGroupFilterSafe | server/src/domain/ldap/group.rs:154-253 | Converting a group filter fails no assertion |
| LdapFilters.ConvertUserFilterCorrect | server/src/domain/ldap/user.rs:177-291 | A user filter that converts means, of every user, what the LDAP filter means leaf by leaf |
| LdapFilters.ConvertGroupFilterCorrect | server/src/domain/ldap/group.rs:154-253 | A group filter that converts means, of every group, what the LDAP filter means leaf by leaf |
| LdapFilters.SearchSelectsUsers | server/src/domain/ldap/user.rs:298-315 | From LDAP filter to SQL: the selected users are exactly those of which the filter is true |
| LdapFilters.SearchSelectsGroups | server/src/domain/ldap/group.rs:256-272 | From LDAP filter to SQL: the selected groups are exactly those of which the filter is true |
| UserNames.NamedColumnsShown | server/src/domain/ldap/utils.rs:171-206 | Under every spelling of the names of id, email, display name, date and UUID, a user's entry shows exactly that column, unless it is absent or empty |
| UserNames.NamedAttributesShown | server/src/domain/ldap/utils.rs:180-206 | Under every spelling of first name, last name and photo it shows exactly the stored value of that attribute; under any other name, that of the visible attribute called so, or nothing |
| UserNames.NamedRestShown | server/src/domain/ldap/user.rs:34-61 | What it shows of classes, names and groups: the printed names of exactly the groups the user is in |
| UserNames.NamedColumnsTested | server/src/domain/ldap/user.rs:191-212 | An equality test of a column is always accepted, and its SQL selects exactly those whose column has the lower-cased value |
| UserNames.NamedAttributesTested | server/src/domain/ldap/user.rs:191-224 | One of an attribute is accepted exactly if the value parses at its type, and selects exactly those who have stored what it parses to; one of an unknown name selects nobody |
| UserNames.NamedRestTested | server/src/domain/ldap/user.rs:191-245 | Tests of classes and of the own name: always accepted, and whom they select |
| UserNames.NamedGroupsTested | server/src/domain/ldap/user.rs:225-233 | One of groups is accepted exactly if it is a group's name, and selects exactly those in the group called so |
| UserNames.PresenceTested | server/src/domain/ldap/user.rs:246-255 | A presence test is always accepted, and selects everyone exactly if the name is known |
| UserNames.SubstringsTested | server/src/domain/ldap/user.rs:256-284 | Substring tests are accepted exactly for ids, emails, display names and unknown names, and select those whose text matches the pattern |
| GroupNames.NamedColumnsShown | server/src/domain/ldap/group.rs:31-66 | The same of what a group shows a viewer: name, date, UUID, entry name and classes |
| GroupNames.NamedMembersShown | server/src/domain/ldap/group.rs:54-59 | Its members are the printed names of exactly those whom the viewer may see |
| GroupNames.NamedAttributesShown | server/src/domain/ldap/utils.rs:221-239 | Any other name shows the attribute called so, or nothing |
| GroupNames.NamedColumnsTested | server/src/domain/ldap/group.rs:164-171 | Which tests of names, UUIDs and dates are accepted, and exactly which groups their SQL selects |
| GroupNames.NamedRestTested | server/src/domain/ldap/group.rs:180-198 | The same of tests of classes and of distinguished names |
| GroupNames.NamedMembersTested | server/src/domain/ldap/group.rs:172-179 | A test of members is accepted exactly if it is a user's name, and selects exactly the groups with that member |
| GroupNames.NamedAttributesTested | server/src/domain/ldap/group.rs:210-212 | The same of attributes, by the bytes stored |
| GroupNames.OtherTests | server/src/domain/ldap/group.rs:225-245 | Presence and substring tests of groups |
| MatchingRules.PrintedIsMet | server/src/domain/ldap/utils.rs:62-94 | The printed name of a clean id is met by exactly the names from which the server takes that id and whose first type is the printed one |
| MatchingRules.ValueExactly | server/src/domain/deserialize.rs:4-50 | Comparing a stored value whole with the lower-cased assertion differs from matching one of the values shown on exactly those assertions that match a value which is a longer list, a single empty value or a text with an upper-case letter |
| StandardUsers.UserEqualityExactly | server/src/domain/ldap/user.rs:191-245 | An equality test that converts agrees with the standard, positive or under Not, if and only if it does not go wrong in one of the ways listed in `WrongUserEquality`, in terms of the stored rows: for names by type and unclean ids, for texts and lists by case, length and emptiness, for unknown attributes and "dn" by polarity; object classes never go wrong |
| StandardUsers.DisplayNameExactly | server/src/domain/ldap/user.rs:191-203 | A display name is found by exactly the values that match it if and only if it is absent, or not empty and in lower case |
| StandardUsers.UserShowsStored | server/src/domain/ldap/user.rs:25-118 | An entry shows a value of an attribute if and only if the tables hold one: a column that is not empty, a group, an attribute row that is neither an empty list nor a single empty value |
| StandardUsers.UserPresenceExactly | server/src/domain/ldap/user.rs:246-255 | A presence test agrees with the standard if and only if the tables hold a value; or the attribute is unknown and the test not under Not; or it tests "dn" under Not |
| StandardUsers.UserReadingsAgree | server/src/domain/ldap/user.rs:177-291 | By induction on the filter and its polarity: where no test goes wrong, the server's value of the filter is the standard's as far as selection goes |
| StandardUsers.SelectedUserAsRfc | server/src/domain/ldap/user.rs:177-291 | A user is selected exactly when the filter is true of the values their entry shows by section 4.5.1.7 of RFC 4511 and section 2 of RFC 4526, for every filter in which no test goes wrong |
| StandardGroups.GroupEqualityExactly | server/src/domain/ldap/group.rs:164-223 | The same of groups, by what the entry shows to this viewer: besides, the class "groupOfNames", members who are not shown, the types of names, and bytes of a hidden attribute that hold more than the number they are read as |
| StandardGroups.GroupShowsStored | server/src/domain/ldap/group.rs:22-95 | A group shows a viewer a value if and only if the tables hold one for them: a column that is not empty, a member whom they may see, a value they read |
| StandardGroups.GroupPresenceExactly | server/src/domain/ldap/group.rs:225-231 | As for users |
| StandardGroups.GroupReadingsAgree | server/src/domain/ldap/group.rs:154-253 | The induction for group filters |
| StandardGroups.SelectedGroupAsRfc | server/src/domain/ldap/group.rs:154-253 | A group is selected exactly when the filter is true, by the standard, of the values it shows this viewer, for every filter in which no test goes wrong |
| Counterexamples.BobIsMissed | server/src/domain/ldap/user.rs:197-203 | An input where looking for a display name misses its owner, and looking for all others finds him |
| Counterexamples.UnsetPhotoIsFound | server/src/domain/ldap/user.rs:246-255 | An input where a presence test selects a user without a value |
| Counterexamples.PercentMatchesAll | server/src/domain/handler.rs:27-47 | An input where a percent sign in a fragment matches anything |
| Counterexamples.HiddenClassIsFound | server/src/domain/ldap/group.rs:180-186 | An input where a test for "groupOfNames" selects a group that shows another class |
| Counterexamples.HiddenMemberIsFound | server/src/domain/ldap/group.rs:172-179 | An input where a member test selects, for a regular user, a group that shows them only their own name |
| Listing.TakeWhile | server/src/domain/sql_user_backend_handler.rs:147-157 | Takes exactly the maximal run of rows of one owner and leaves the next row |
| Listing.AssignAttributes | server/src/domain/sql_user_backend_handler.rs:143-165 | The one-pass cursor loop gives each entry exactly its own rows and consumes all of them |
| Listing.FillUsers | server/src/domain/sql_user_backend_handler.rs:118-167 | From the results of the two ordered queries, the users listed are those of the specification |
| Listing.FillGroups | server/src/domain/sql_group_backend_handler.rs:96-134 | The same for groups, with the final sort by name |
| Listing.OwnedByIsStored | server/src/domain/sql_user_backend_handler.rs:127-165 | The rows an entry takes are all of its stored attributes, in name order |
| Listing.ListUsersMembers | server/src/domain/sql_user_backend_handler.rs:118-167 | An entry is listed if and only if it is selected and looks as the tables say |
| Listing.ListGroupsMembers | server/src/domain/sql_group_backend_handler.rs:81-134 | The same for groups |
| Listing.ListGroupsPermutes | server/src/domain/sql_group_backend_handler.rs:126-134 | The final sort orders the groups by name and only permutes them |
| Search.ExpandedNames | server/src/domain/ldap/utils.rs:113-136 | Expansion gives no star, no name twice and, in some spelling, exactly the names asked for and the usual ones if a star or nothing asks for them |
| SearchProperties.UserCustomAttribute | server/src/domain/ldap/utils.rs:248-306 | Reading a user attribute never fails to decode, and gives exactly the typed value stored |
| SearchProperties.GroupCustomAttribute | server/src/domain/ldap/utils.rs:248-306 | The same for group attributes that the viewer may see |
| SearchProperties.UserListContents | server/src/domain/ldap/user.rs:298-315 | The user list is exactly the users in reach of the viewer of which the filter is true, by id |
| SearchProperties.GroupListContents | server/src/domain/ldap/group.rs:256-272 | The group list is exactly the groups in reach of the viewer of which the filter is true, in listing order |
| SearchProperties.SearchSafe | server/src/infra/ldap_handler.rs:509-671 | No search panics; the answer has exactly one final result, last; every entry before it is in reach of the viewer |
| SearchAnswers.UnitAnswers | server/src/infra/ldap_handler.rs:591-624 | A search below ou=people answers with one entry for exactly the users in reach of whom the filter is true, by id, or refuses the filter; below ou=groups with exactly the groups, by name; of the unit itself with its description |
| SearchAnswers.RootAnswers | server/src/infra/ldap_handler.rs:567-590 | A search of the base answers with both, users first; a filter refused for one kind finds none of it, one refused for both is refused |
| SearchAnswers.EntryAnswers | server/src/infra/ldap_handler.rs:599-610 | A search below any name in a unit answers with the entries of that unit of which the filter is true and which have the value that the name begins with |
| SearchAnswers.OtherAnswers | server/src/infra/ldap_handler.rs:625-638 | Any other name answers with no entry, and what is no name with its error |
| SearchAnswers.UserEntryShows | server/src/domain/ldap/user.rs:132-175 | An entry has the printed name of its user, and under the names asked for, each in one spelling, exactly the values shown; a star or nothing asks for nine names |
| SearchAnswers.GroupEntryShows | server/src/domain/ldap/group.rs:97-152 | The same of groups, with six names |
| SearchProperties.RegularUserSees | server/src/infra/access_control.rs:337-372 | A regular user gets no user entry but their own and only groups they are in, for any filter |
| SearchProperties.RegularUserMembers | server/src/domain/ldap/group.rs:54-59 | Among the members of a group a regular user sees their own name if they are in it, and no other |
| SearchProperties.UserDnFindsUser | server/src/infra/ldap_handler.rs:599-606 | A search below a user's printed name answers with that user's entry if visible and matching, else with no entry |
| SearchProperties.GroupDnFindsGroup | server/src/infra/ldap_handler.rs:599-610 | A search below a group's printed name answers with that group's entry if visible and matching, else with no entry |
| SearchProperties.PrintedNamesRoundTrip | server/src/infra/ldap_handler.rs:599-606 | With the always-true filter, the printed name of a user finds one entry, printed under the same name |
| SearchProperties.PrintedGroupNamesRoundTrip | server/src/infra/ldap_handler.rs:607-610 | The same for groups that the viewer may see |
| SearchProperties.AtMostOneDenoted | server/src/domain/ldap/utils.rs:62-94 | One name denotes at most one user or one group and never both |
| SearchProperties.CompareAnswers | server/src/infra/ldap_handler.rs:758-805 | Compare never finds too many results: no such object exactly if the name denotes no visible entry, true exactly if the value is among those that the entry shows of the attribute, false otherwise |
| Secrecy.SecretsKept | server/src/infra/access_control.rs:317-372 | Directories that differ only in values of hidden attributes give a regular viewer the same reply to every search, if no hidden attribute of their groups is called like the built-in group id |
| Secrecy.SecretLeaks | server/src/infra/access_control.rs:317-330 | Otherwise there are two such directories and a search that tells them apart |
| Secrecy.SecretsKeptExactly | server/src/infra/access_control.rs:317-372 | So the replies never depend on what is hidden nor, for filters that name no other user as a member, on who else is in a group, if and only if that condition holds |
| Secrecy.MembersKept | server/src/infra/access_control.rs:337-372 | Directories that differ only in which groups other users are in give a regular viewer the same reply to every search whose filter, however nested, names no other existing user in a member test |
| Secrecy.MemberLeaks | server/src/domain/ldap/group.rs:172-179 | A member test that names another user changes its reply when that user joins or leaves a group of the viewer |
| Secrecy.MemberTestExactly | server/src/domain/ldap/group.rs:172-179 | So the replies to a single test never depend on the groups of others, if and only if it names no other user as a member or the viewer is in no group |
| Counterexamples.TextTakenForNumber | server/src/domain/ldap/utils.rs:221-239 | An input where a hidden text attribute is taken for the built-in number |
| LdapHandler.PushResults | server/src/infra/ldap_handler.rs:635-671 | The loops that push entries, and the final result if missing, give the reply of the specification |
| Directory.UpdateUserAttributes | server/src/domain/sql_user_backend_handler.rs:171-264 | A successful update makes a user's attributes the old ones without the removed, overridden by the inserted (the last of equal names); empty names and a null avatar count as removals; other users keep theirs |
| Directory.UpdateGroupAttributes | server/src/domain/sql_group_backend_handler.rs:234-305 | The same for groups |
| Directory.LastValueDistinct | server/src/domain/sql_user_backend_handler.rs:171-264 | When the inserted names are distinct, each takes its own value |
| Directory.InsertedValue | server/src/domain/sql_user_backend_handler.rs:302-371 | A successful creation stores exactly the given rows, once each, under known names, and leaves all other rows |
| DirectoryProperties.CreatedUserReads | server/src/domain/sql_user_backend_handler.rs:302-371 | A new user reads back, decoded, as they were asked for; all others are unchanged |
| DirectoryProperties.UpdatedUserReads | server/src/domain/sql_user_backend_handler.rs:171-264 | After an update the names read as the last value inserted for them, or else as asked for: kept if not mentioned, absent if emptied or removed; email and display name change only if mentioned; dates, ids and passwords stay |
| DirectoryProperties.DeleteUndoesCreateUser | server/src/domain/sql_user_backend_handler.rs:386-397 | Deleting a user who was just created restores the directory: the cascades leave nothing behind and touch nothing else |
| DirectoryProperties.DeleteUndoesCreateGroup | server/src/domain/sql_group_backend_handler.rs:219-230 | The same for groups, except that the id is not used again |
| DirectoryProperties.AttributeNamesAreReusable | server/src/domain/sql_schema_backend_handler.rs:30-61 | Deleting a user attribute just added restores everything; after deleting one and adding another of its name, none of the old values is found |
| DirectoryProperties.GroupAttributeNamesAreReusable | server/src/domain/sql_schema_backend_handler.rs:43-68 | The same for group attributes |
| DirectoryProperties.MembershipUndone | server/src/domain/sql_user_backend_handler.rs:400-421 | Leaving undoes joining, and joining undoes leaving |
| Invariants.CreateUserKeepsValid | server/src/domain/sql_user_backend_handler.rs:302-371 | Creating a user keeps the invariant |
| Invariants.UpdateUserKeepsValid | server/src/domain/sql_user_backend_handler.rs:171-264 | Updating a user keeps the invariant |
| Invariants.DeleteUserKeepsValid | server/src/domain/sql_user_backend_handler.rs:386-397 | Deleting a user, with its cascades, keeps the invariant |
| Invariants.CreateGroupKeepsValid | server/src/domain/sql_group_backend_handler.rs:170-216 | Creating a group keeps the invariant |
| Invariants.UpdateGroupKeepsValid | server/src/domain/sql_group_backend_handler.rs:234-305 | Updating a group keeps the invariant |
| Invariants.DeleteGroupKeepsValid | server/src/domain/sql_group_backend_handler.rs:219-230 | Deleting a group, with its cascades, keeps the invariant |
| Invariants.MembershipStepsKeepValid | server/src/domain/sql_user_backend_handler.rs:400-421 | Joining and leaving groups keeps the invariant: no membership without its user and group |
| Invariants.AddUserAttributeKeepsValid | server/src/domain/sql_schema_backend_handler.rs:30-41 | A new user attribute keeps the invariant |
| Invariants.DeleteUserAttributeKeepsValid | server/src/domain/sql_schema_backend_handler.rs:56-61 | Deleting a user attribute takes its values along, so that none is left to be read at another type |
| Invariants.DeleteGroupAttributeKeepsValid | server/src/domain/sql_schema_backend_handler.rs:63-68 | The same for group attributes |
| Invariants.StoredValuesDecode | server/src/domain/ldap/utils.rs:248-306 | In a valid state every stored value decodes at the type of its schema entry, to a value with the same bytes |
| Mutations.DeserializeAttributes | server/src/infra/graphql/mutation.rs:603-629 | Accepts exactly inputs whose names are public and may be set and whose strings parse |
| Mutations.DeserializedAreStored | server/src/infra/graphql/mutation.rs:603-629 | Of each of them it gives the lower-cased name and bytes of the public type that decode to what the strings parse to |
| Mutations.PublicRowsAreLookups | server/src/infra/graphql/mutation.rs:608-611 | The lookup used for that is the one in the unrestricted public schema |
| Mutations.AddPanicsExactly | server/src/infra/ldap_handler.rs:673-756 | An LDAP add panics if and only if its name has an upper-case letter |
| Mutations.StepKeepsValid | server/src/infra/graphql/mutation.rs:124-577 | Every mutation and LDAP add keeps the invariant |
| Requests.CreateUserExactly | server/src/infra/graphql/mutation.rs:126-166 | Creating a user is accepted exactly from an administrator, for a new id, email and UUID, with texts that can be stored, a photo that decodes and known attributes that stand for values, none twice; then the tables hold exactly the columns, names, photo and attributes of the request, and all else as before |
| Requests.LdapAddExactly | server/src/infra/ldap_handler.rs:673-756 | The same of an LDAP add: display name from cn, first name from givenname, last name from sn, email from mail or else email, of equal names the last |
| Requests.UpdateUserExactly | server/src/infra/graphql/mutation.rs:197-244 | An update is accepted exactly from the user or an administrator, under conditions on its fields; then each column and each attribute is what the request puts, drops or leaves |
| GroupRequests.CreateGroupExactly | server/src/infra/graphql/mutation.rs:168-195 | The same of a new group |
| GroupRequests.UpdateGroupExactly | server/src/infra/graphql/mutation.rs:246-283 | The same of an update of a group; group 1 keeps its name |
| GroupRequests.MembershipExactly | server/src/infra/graphql/mutation.rs:285-332 | Joining and leaving: exactly when accepted, and the one membership that changes |
| GroupRequests.DeleteUserExactly | server/src/infra/graphql/mutation.rs:334-349 | Deleting a user: exactly when accepted, and exactly their rows go |
| GroupRequests.DeleteGroupExactly | server/src/infra/graphql/mutation.rs:351-368 | The same of a group |
| GroupRequests.AddAttributeExactly | server/src/infra/graphql/mutation.rs:370-430 | New attributes: accepted exactly for unused names, with the type and flags of the request |
| GroupRequests.DeleteUserAttributeExactly | server/src/infra/graphql/mutation.rs:432-461 | Deleting a user attribute: exactly when accepted, and exactly its row and values go |
| GroupRequests.DeleteGroupAttributeExactly | server/src/infra/graphql/mutation.rs:463-492 | The same of a group attribute |
| GroupRequests.AddClassExactly | server/src/infra/graphql/mutation.rs:494-577 | Classes are added exactly if new in any spelling, and kept as given |
| DirectoryServer.InsertMany | server/src/domain/sql_user_backend_handler.rs:360-366 | The insertion loop inserts all rows or fails, as specified |
| DirectoryServer.UpsertMany | server/src/domain/sql_user_backend_handler.rs:248-262 | The insertion loop that overwrites on conflict, as specified |
| DirectoryServer.ProcessUpdate | server/src/domain/sql_user_backend_handler.rs:188-237 | Pushes exactly the rows to write and the names to remove, or rejects names not in the schema |
| DirectoryServer.DirectoryServer.CreateUser | server/src/domain/sql_user_backend_handler.rs:302-371 | In place, with rollback: the new tables are those of the specification, or the old ones on failure |
| DirectoryServer.DirectoryServer.UpdateUser | server/src/domain/sql_user_backend_handler.rs:171-264 | In place, with rollback: as specified, or nothing changed |
| DirectoryServer.DirectoryServer.DeleteUser | server/src/domain/sql_user_backend_handler.rs:386-397 | In place: no row names the user any more, all other rows stay, and the invariant is kept |
| DirectoryServer.DirectoryServer.CreateGroup | server/src/domain/sql_group_backend_handler.rs:170-216 | In place, with rollback: as specified, or nothing changed |
| DirectoryServer.DirectoryServer.UpdateGroup | server/src/domain/sql_group_backend_handler.rs:234-305 | In place, with rollback: as specified, or nothing changed |
| DirectoryServer.DirectoryServer.DeleteGroup | server/src/domain/sql_group_backend_handler.rs:219-230 | In place: no row names the group any more, all other rows stay, and the invariant is kept |
| DirectoryServer.DirectoryServer.Handle | server/src/infra/graphql/mutation.rs:124-629 | One request is one step, a refused request changes nothing, and the invariant of the tables is kept |
| Administration.AdminsAreMembers | server/src/infra/access_control.rs:286-308 | Administrator permission, derived from group names, is membership of group 1 |
| Administration.AdminGroupLostExactly | server/src/infra/graphql/mutation.rs:307-368 | An accepted request costs group 1 its existence, name or last member if and only if it takes out the last member |
| Administration.MembersKeepAdminGroup | server/src/infra/graphql/mutation.rs:323-346 | No request of an administrator who is a member does, nor of a regular user |
| Administration.StaleAdminEmptiesGroup | server/src/infra/graphql/mutation.rs:307-332 | An input where one who is no longer a member does |
| Administration.RegularUserChanges | server/src/infra/graphql/mutation.rs:197-244 | Without administrator permission only one's own entry changes; non-editable attributes are untouched unless removed |
| Counterexamples.BadgeIsRemoved | server/src/infra/graphql/mutation.rs:197-244 | An input where a regular user may not set an attribute and yet may remove it |
| Administration.CreateAdminWorks | server/src/main.rs:36-63 | Creating the first administrator succeeds if and only if id, email and UUID are free; it keeps the invariant |
| Administration.CreatedAdmin | server/src/main.rs:36-63 | The administrator is stored with the configured id, email and password in the group called lldap_admin and nothing else changes; a failure changes nothing |
| Administration.SetUpKeeps | server/src/main.rs:102-160 | Starting keeps the invariant and all groups and memberships; if it succeeds there is an administrator and the three groups |
| Administration.SetUpIdempotent | server/src/main.rs:102-160 | Starting on a directory in order changes nothing |
| Administration.SetUpNew | server/src/main.rs:102-160 | Starting on a new database succeeds and makes group 1 the administrators' |
| Administration.RunKeepsValid | server/src/infra/graphql/mutation.rs:124-577 | Every run of starts and requests keeps the invariant |
| Administration.RunKeepsAdminGroup | server/src/infra/graphql/mutation.rs:257-362 | Every run whose acting administrators are members at that moment keeps group 1, its name and a member, and permission equivalent to membership |
| Reachable.ReachableSearches | server/src/infra/ldap_handler.rs:509-805 | After any run on a new database no search or compare panics, and every stored value decodes at its type |
| LdapSession.BindExactly | server/src/infra/ldap_handler.rs:265-301 | A bind never panics, succeeds if and only if name and password are a user's, and only then changes who is bound |
| LdapSession.TargetPanicsExactly | server/src/infra/ldap_handler.rs:331-501 | Of a bound connection, modify and password change panic if and only if the name has an upper-case letter or is of a user whom the bound one may not read |
| Counterexamples.UpperCasePanics | server/src/infra/ldap_handler.rs:331-756 | A name that makes LDAP add, modify and password change panic |
| LdapSession.ChangesApplied | server/src/infra/ldap_handler.rs:487-490 | The password becomes that of the last change before the first refused one; success exactly if none is refused |
| LdapSession.ChangesNeedRights | server/src/infra/ldap_handler.rs:807-856 | The only things a connection changes are a password its user may change, or a new user for an administrator |
| LdapSession.NewPasswordBinds | server/src/infra/ldap_handler.rs:331-396 | After a successful change exactly the new password binds |
| Rights.BindAnswers | server/src/infra/ldap_handler.rs:265-301 | Each result code of a bind, and what it permits by the groups of that moment |
| Rights.PasswordChangeExactly | server/src/infra/ldap_handler.rs:331-396 | After a bind, a change of an existing user's password succeeds exactly if the bound user was then in lldap_admin, or in lldap_password_manager and the other is no administrator, or is the other; it changes that password and nothing else; a refusal changes nothing; one whom the bound user may not see makes the server panic |
| Rights.PasswordModifyExactly | server/src/infra/ldap_handler.rs:411-501 | The same of a modify request |
| Rights.EarlyAnswers | server/src/infra/ldap_handler.rs:331-501 | How these requests answer that get no further |
| Rights.AdministratorsAreMembers | server/src/infra/access_control.rs:286-308 | Being in lldap_admin is being in group 1 |
| Rights.AddNeedsAdministrator | server/src/infra/ldap_handler.rs:673-682 | After a bind, an add is refused exactly to those who were no administrators |
| Rights.SearchReach | server/src/infra/access_control.rs:298-308 | After a bind, a search reaches everything exactly if the bound user was in one of the three groups, and else only what concerns them |
| LdapSession.BoundIdentity | server/src/infra/ldap_handler.rs:265-301 | Over any run, the bound user and permissions are those of the last successful bind not followed by an unbind |
| LdapSession.StepKeepsValid | server/src/infra/ldap_handler.rs:807-856 | Every message keeps the invariant of the directory |
| LdapHandler.LdapHandler.DoBind | server/src/infra/ldap_handler.rs:265-301 | Answers success exactly for the name and password of a user, and only then changes the bound user, to them and their permissions of the moment |
| LdapHandler.LdapHandler.DoModify | server/src/infra/ldap_handler.rs:411-501 | The loop over changes, in place, as specified |
| LdapHandler.LdapHandler.Handle | server/src/infra/ldap_handler.rs:807-856 | One message is one step of the session and keeps the invariant of the directory |
| Tokens.RefreshCookieRoundTrip | server/src/infra/auth_service.rs:79-84 | A refresh cookie parses back to its user and the hash of its secret, even if the user id has a plus sign |
| Tokens.RunConsistent | server/src/infra/sql_backend_handler.rs:30-41 | Every blacklisted row that is stored is in the in-memory blacklist, after any run |
| Tokens.RunHolds | server/src/infra/db_cleaner.rs:50-72 | Until it expires an issued token keeps its row, and once blacklisted stays so |
| Tokens.LogoutIsFinal | server/src/infra/auth_service.rs:282-320 | A token issued before its user's logout is never accepted again in any run that does not delete the user |
| Tokens.AcceptedExactly | server/src/infra/auth_service.rs:618-645 | In any run from empty tables a token is accepted if and only if it has not expired and the events since its issue leave it live or forgotten |
| TokenHistory.RefreshIssuesExactly | server/src/infra/auth_service.rs:100-137 | Over any run, a refresh issues a token if and only if a login of that user stored the cookie's secret, since then nobody logged out with it, the user was not deleted and no cleanup found it older than thirty days, and the new token's hash is free |
| TokenHistory.ResetIssuesExactly | server/src/infra/auth_service.rs:152-267 | A reset issues a token for a user if and only if it was asked for them less than ten minutes ago and not used since, the user was not deleted, and the hash is free |
| TokenHistory.ResetWorksOnce | server/src/infra/auth_service.rs:224-267 | A used reset token is refused until it is handed out again |
| TokenHistory.LoginIssuesExactly | server/src/infra/auth_service.rs:356-395 | A login issues a token if and only if the user exists and both hashes are free |
| TokenHistory.IssuedClaims | server/src/infra/auth_service.rs:51-77 | Every issued token names the user that the request speaks for, with their groups of that moment, none after a reset, and holds for a day |
| TokenHistory.CheckedRights | server/src/infra/auth_service.rs:618-645 | Checking an accepted token gives the permission of the groups that it carries |
| Tokens.CleanupInvisible | server/src/infra/db_cleaner.rs:50-72 | Cleanup changes no answer, neither at once nor after a restart |
| Tokens.DeletedUserIsForgotten | server/src/infra/auth_service.rs:618-645 | For any user, logging out, deletion and a restart make a token accepted again |
| TokenServer.TokenServer.GetLogout | server/src/infra/auth_service.rs:282-320 | The loop over the shared blacklist, in place, is the logout step |
| TokenServer.TokenServer.CleanupDb | server/src/infra/db_cleaner.rs:50-72 | In place: exactly the expired rows of the three tables go, every token is answered as before, and memory still covers the table |
| TokenServer.TokenServer.Handle | server/src/infra/auth_service.rs:100-320 | One request, timer tick or restart is one step of the state machine and keeps memory covering the table |
| TokenServer.TokenServer.CheckIfTokenIsValid | server/src/infra/auth_service.rs:618-645 | Reads only the clock, the claims and memory, and yet never lets through an expired token or one whose row is blacklisted |
| SchemaTables.ReplaceColumn | server/src/domain/sql_migrations.rs:398-450 | Rename, add, copy, update, drop: succeeds if the column is there, and maps that column of each row and nothing else |
| Migrations.MigrationComposes | server/src/domain/sql_migrations.rs:1143-1185 | Migrating to a version and on to a later one is migrating to the later one |
| Migrations.StopsAtFailure | server/src/domain/sql_migrations.rs:1143-1185 | A failed run leaves exactly the effect and the version of the last migration that succeeded; the next one is the one that failed |
| Migrations.RerunFinishes | server/src/domain/sql_migrations.rs:1143-1185 | Running again after an interruption ends as an uninterrupted run |
| MigrationsKeep.DisplayNamesEmptied | server/src/domain/sql_migrations.rs:452-470 | Version 2 makes exactly the empty display names absent; every other cell is as before |
| MigrationsKeep.NamesEmptied | server/src/domain/sql_migrations.rs:472-514 | Version 3 does so with first and last names |
| MigrationsKeep.UpgradedNames | server/src/domain/sql_migrations.rs:452-897 | After an upgrade from a version below 5, display name, first name and last name read as the old cells, and are absent, without a row, exactly if those were absent or empty |
| MigrationsKeep.EmptiedName | server/src/domain/sql_migrations.rs:452-514 | Emptying a name changes neither the data nor the indexed columns |
| MigrationsKeep.MovedExactly | server/src/domain/sql_migrations.rs:831-888 | Each present first name, last name and avatar goes into exactly one attribute row of its user with its value; there are no other rows |
| MigrationsKeep.MovedReads | server/src/domain/sql_migrations.rs:831-888 | Reading the rows gives what reading the columns gave |
| Migrator.Migrator.DeleteRepeated | server/src/domain/sql_migrations.rs:1001-1031 | Deleting all but one of each repeated membership, pair by pair, leaves each pair once |
| MigrationsKeep.MigrationIsGood | server/src/domain/sql_migrations.rs:452-1132 | Each migration of a well-formed store fails if and only if the data breaks a new uniqueness (or, on SQLite, a membership is repeated), and otherwise keeps the data and the constraints |
| MigrationsKeep.MigrationKeepsData | server/src/domain/sql_migrations.rs:1143-1185 | Every run, successful or not, ends well-formed at the version it records, with the data it started from |
| MigrationsKeep.UpgradeSucceedsExactly | server/src/domain/sql_migrations.rs:1143-1185 | Without outside failures the upgrade succeeds if and only if emails, group names and UUIDs of the original data are unique, without regard to case (and, on SQLite, no membership is repeated) |
| MigrationsKeep.UpgradedIsValid | server/src/domain/sql_migrations.rs:1093-1132 | A fully upgraded database satisfies the invariant of the directory if and only if its ids and attribute names are lower-case; no membership is lost or left repeated |
| MigrationsKeep.NewDatabase | server/src/domain/sql_tables.rs:46-57 | A new database is upgraded to the empty tables that the directory starts from |
| Migrator.BuildStatement | server/src/domain/sql_migrations.rs:831-888 | The loop over users builds one insertion that succeeds and stores exactly the moved rows |
| Migrator.Migrator.DoMigrateTo5 | server/src/domain/sql_migrations.rs:609-897 | In place: the version 5 migration as specified |
| Migrator.Migrator.DoMigrateTo8 | server/src/domain/sql_migrations.rs:969-1046 | In place, one deletion per repeated pair: the version 8 migration as specified |
| Migrator.Migrator.Migrate | server/src/domain/sql_migrations.rs:1143-1185 | The driver loop with its transactions is the run of the specification; however it ends, the tables are well-formed and hold the same data |

## Left out

- StandardUsers.SelectedUserAsRfc: matching rules are modelled as far as letter case, lists and distinguished names go, the latter by the server's parser, which knows no escapes; spaces, time formats and the rules of photos are not modelled, and dates, photos and UUIDs compare by what their foreign parser makes of the lower-cased assertion. Tests that the server refuses are left open. Of substring tests with a metacharacter it is proved that they go wrong for some value (`PatternCorrectIffPlain`), not for which.
- StandardGroups.SelectedGroupAsRfc: the same.
- Secrecy.MembersKept: for filters with several tests, naming another user is not proved to change a reply; whether it does depends on the other tests.
- Tokens.LogoutIsFinal: not for a user who is deleted, by `DeletedUserIsForgotten`. Expiry of refresh tokens is only enforced by cleanup, and nothing is claimed about it.
- Tokens.AcceptedExactly: for a token whose hash no other token of the run has.
- MigrationsKeep.MigrationIsGood: a store that starts from version 2 on is taken to hold no empty display name, and one from version 3 on (below 5) no empty first or last name, as those migrations leave it and every write of the server keeps it.
- MigrationsKeep.MigratedTo8: repeated rows are deleted one statement per pair, as the code asks of MySQL and Postgres; whether a Postgres server accepts LIMIT in DELETE is not modelled.
- EscapedLike.PatternCorrectIffHarmless: a pattern that ends with a backslash takes it literally, as MySQL does; Postgres refuses such a query.
- Tokens.CreateJwt: when the hash of a new token clashes with a stored one the server panics; here the request is refused.
- Tokens.ResetStartStep: who has the given id or email is a parameter; the query for it is one of `Listing`.
- Directory.UpdateUserAttributes: of equal names inserted by one request the last one counts, as in SQLite and MySQL; Postgres refuses such an insertion.
- Directory.CreateGroup: a failed creation leaves the next group id alone; databases that burn the id on rollback are not modelled.
- Mutations.AddRequest: values that are not ASCII are refused where the server takes any UTF-8.
- LdapSession.Step: searches and compares are in `Search`, since they change nothing; unsupported operations only give an error code.
- Search.DoSearch: is a specification over the tables; the parts of it that loop or push (merging rows, sorting, pushing results) are methods proved against it, the queries themselves are not run.
- Cond is modelled as a tree of all, any and negation; the text of SQL statements and its dialects is not.
- The order of members inside a group entry, which no query fixes, is taken to be ascending.
- The upgrade to version 1, which probes for columns, and the query for the version.
- The HTTP endpoints around the token steps: OPAQUE messages, cookies, JWT signing, mail, and the self-service registration endpoints.
- GraphQL queries, which only print what listing gives.
- The private key check at start, health checks, logging, configuration, TLS, and the web pages.
- Resetting the administrator's password at start.
