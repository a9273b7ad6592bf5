/** Searches on whatever the directory can become. */
module Reachable {
  import opened Wrappers
  import opened Codec
  import opened Database
  import opened AccessControl
  import opened LdapFilters
  import opened Search
  import opened SearchProperties
  import opened Invariants
  import A = Administration
  import M = Mutations

  /** After any run of starts and requests on a new database, no search and no compare
      fails an assertion, each answer is complete, and every stored value decodes at its
      type. */
  lemma ReachableSearches(env: M.Env, events: seq<A.Event>, ctx: Context, viewer: ValidationResults, r: Request,
                          dn: string, attribute: string, value: OutputValue)
    requires A.LowerConfigs(events) && ValidInfo(ctx.info) && ctx.db == A.Run(env, EMPTY_DB, events)
    ensures var reply := SearchReply(ctx, Some(viewer), r);
      reply.Ok? && OneDoneLast(reply.value)
    ensures DoCompare(ctx, Some(viewer), dn, attribute, value).Ok?
    ensures ValidReferences(ctx.db)
    ensures forall k :: k in ctx.db.userAttributes ==>
      var row := ctx.db.userSchema[k.name];
      Decode(ctx.db.userAttributes[k], row.typ, row.isList).Some?
    ensures forall k :: k in ctx.db.groupAttributes ==>
      var row := ctx.db.groupSchema[k.name];
      Decode(ctx.db.groupAttributes[k], row.typ, row.isList).Some?
  {
    hide ValidUsers, ValidGroups, ValidTypes, ValidSchema, ValidInfo, SearchReply, DoCompare, OneDoneLast;
    EmptyDbValid();
    A.RunKeepsValid(env, EMPTY_DB, events);
    SearchSafe(ctx, Some(viewer), r);
    CompareAnswers(ctx, viewer, dn, attribute, value);
    StoredValuesDecode(ctx.db);
  }
}
