/** DbContextBulkExtensions.BulkSaveAdditions and its guard: refuse a working set that
    holds anything but additions, group the added entries per type, order the groups
    so that principals precede their dependants, insert group by group and count. */
module BulkExtensions {
  import opened Results
  import opened StateEntries
  import opened EntityKeys
  import opened Grouping
  import opened TopologicalOrder

  /** One entry of the guard's message: a type name and how many of its entries changed. */
  datatype TypeCount = TypeCount(name: string, count: nat)

  /** The InvalidOperationException the guard throws, with the per-type counts it lists. */
  datatype GuardError = OnlyAdditionsSupported(offending: seq<TypeCount>)

  /** `entitiesPerType.Select(e => (e.Key.Name, e.Count()))`. */
  function TypeCounts(groups: seq<Group>): seq<TypeCount>
  {
    seq(|groups|, i requires 0 <= i < |groups| => TypeCount(groups[i].key.name, |groups[i].entities|))
  }

  /** GuardAgainstOtherChanges: passes when no keyed entry is Modified or Deleted, and
      otherwise fails with the modified or deleted entries counted per type. */
  function GuardAgainstOtherChanges(context: seq<Entry>): (outcome: Outcome<GuardError>)
    ensures outcome.Pass? <==> forall e :: e in context && e.hasKey ==> e.state != Deleted && e.state != Modified
  {
    var modifiedOrDeletedEntities := ModifiedOrDeletedEntries(context);
    if modifiedOrDeletedEntities != [] then
      assert modifiedOrDeletedEntities[0] in modifiedOrDeletedEntities;
      Fail(OnlyAdditionsSupported(TypeCounts(GroupBy(modifiedOrDeletedEntities))))
    else
      Pass
  }

  /** The guard's message names each type that has a modified or deleted entry exactly
      once, each with the number of such entries of that type. */
  lemma GuardReportsChanges(context: seq<Entry>)
    requires GuardAgainstOtherChanges(context).Fail?
    ensures var offending := GuardAgainstOtherChanges(context).error.offending;
      && (forall e :: e in context && e.hasKey && (e.state == Deleted || e.state == Modified) ==>
            exists i :: 0 <= i < |offending| && offending[i].name == e.typeName)
      && (forall i, j :: 0 <= i < j < |offending| ==> offending[i].name != offending[j].name)
      && (forall i :: 0 <= i < |offending| ==>
            offending[i].count == |EntitiesNamed(ModifiedOrDeletedEntries(context), offending[i].name)| > 0)
  {
    var changed := ModifiedOrDeletedEntries(context);
    var groups := GroupBy(changed);
    var offending := TypeCounts(groups);
    forall e | e in context && e.hasKey && (e.state == Deleted || e.state == Modified)
      ensures exists i :: 0 <= i < |offending| && offending[i].name == e.typeName
    {
      assert e.typeName in KeyNames(groups);
      var g :| g in groups && g.key.name == e.typeName;
      var i :| 0 <= i < |groups| && groups[i] == g;
      assert offending[i].name == e.typeName;
    }
    forall i | 0 <= i < |offending|
      ensures offending[i].count == |EntitiesNamed(changed, offending[i].name)| > 0
    {
      assert groups[i] in groups;
      GroupContents(changed, groups[i]);
    }
  }

  /** A working set made only of keyed additions passes the guard and hands every entry
      on, in order. */
  lemma AdditionsOnly(context: seq<Entry>)
    requires forall k :: 0 <= k < |context| ==> context[k].state == Added && context[k].hasKey
    ensures GuardAgainstOtherChanges(context).Pass?
    ensures AddedEntries(context) == context
  {
    AllAddedKept(context);
  }

  /** BulkSaveAdditions. On a working set the guard refuses it returns the guard's error
      and inserts nothing. Otherwise `written` lists the groups handed to BulkInsert, in
      call order, `unordered` the names OrderTopologically reports as impossible to order,
      and the result is the number of entities inserted. */
  method BulkSaveAdditions(context: seq<Entry>) returns (result: Result<nat, GuardError>, written: seq<Group>,
                                                         unordered: seq<string>)
    ensures result.Err? <==> GuardAgainstOtherChanges(context).Fail?
    ensures result.Err? ==> result.error == GuardAgainstOtherChanges(context).error && written == [] && unordered == []
    ensures result.Ok? ==> result.value == TotalSize(written)
    ensures result.Ok? ==> IsLoadOrder(GroupBy(AddedEntries(context)), written, unordered)
    ensures result.Ok? && unordered == [] ==> result.value == |AddedEntries(context)|
  {
    var guard := GuardAgainstOtherChanges(context);
    if guard.Fail? {
      return Err(guard.error), [], [];
    }

    var addedEntities := AddedEntries(context);
    var entitiesPerType := GroupBy(addedEntities);
    var entitiesInTopologicalOrder;
    entitiesInTopologicalOrder, unordered := OrderTopologically(entitiesPerType);

    var count;
    count, written := InsertAll(entitiesInTopologicalOrder);

    if unordered == [] {
      AllEmittedConserveCount(addedEntities, written);
    }
    return Ok(count), written, unordered;
  }

  /** The insert loop of BulkSaveAdditions: hands each group to BulkInsert in order and
      adds up the group sizes. `written` lists the groups in the order they were handed on. */
  method InsertAll(entitiesInTopologicalOrder: seq<Group>) returns (count: nat, written: seq<Group>)
    ensures written == entitiesInTopologicalOrder
    ensures count == TotalSize(entitiesInTopologicalOrder)
  {
    count := 0;
    written := [];
    for i := 0 to |entitiesInTopologicalOrder|
      invariant written == entitiesInTopologicalOrder[..i]
      invariant count == TotalSize(written)
    {
      var entities := entitiesInTopologicalOrder[i];
      // context.BulkInsert(entities): the group's entities reach the database.
      TotalSizeAppend(written, entities);
      assert entitiesInTopologicalOrder[..i + 1] == written + [entities];
      written := written + [entities];
      count := count + |entities.entities|;
    }
    assert entitiesInTopologicalOrder[..|entitiesInTopologicalOrder|] == entitiesInTopologicalOrder;
  }

  /** When every group is emitted, the emitted sizes add up to the number of added entries. */
  lemma AllEmittedConserveCount(added: seq<Entry>, ordered: seq<Group>)
    requires IsLoadOrder(GroupBy(added), ordered, [])
    ensures TotalSize(ordered) == |added|
  {
    var groups := GroupBy(added);
    forall g ensures g in groups <==> g in ordered {
      if g in groups {
        assert g in ordered || g.key.name in [];
      }
    }
    TotalSizeReordered(groups, ordered);
    GroupBySize(added);
  }

  /** The type names of a list of entries. */
  function TypeNames(entries: seq<Entry>): set<string>
  {
    set e | e in entries :: e.typeName
  }

  /** `rank` orders the types of `entries`: it ranks exactly types among the entries, and
      every inbound edge an entry's key gets names a ranked type of lower rank. */
  predicate EntriesRanked(entries: seq<Entry>, rank: map<string, nat>)
  {
    && rank.Keys <= TypeNames(entries)
    && (forall e :: e in entries ==> e.typeName in rank)
    && forall e, x :: e in entries && x in KeyFor(e).inboundEdges ==> x in rank && rank[x] < rank[e.typeName]
  }

  /** A group GroupBy builds carries the key of one of its entries. */
  lemma GroupKeyOfEntry(entries: seq<Entry>, g: Group) returns (e: Entry)
    requires g in GroupBy(entries)
    ensures e in entries && g.key == KeyFor(e)
  {
    GroupContents(entries, g);
    FirstKeyOfEntry(entries, g.key.name);
    e :| e in entries && e.typeName == g.key.name && g.key == KeyFor(e);
  }

  /** A ranking of the entries ranks the groups GroupBy builds from them. */
  lemma GroupsRanked(entries: seq<Entry>, rank: map<string, nat>)
    requires EntriesRanked(entries, rank)
    ensures Ranked(GroupBy(entries), rank)
  {
    var groups := GroupBy(entries);
    assert KeyNames(groups) == TypeNames(entries);
    forall g | g in groups
      ensures g.key.name in rank
      ensures forall x :: x in g.key.inboundEdges ==> x in KeyNames(groups) && x in rank && rank[x] < rank[g.key.name]
    {
      var e := GroupKeyOfEntry(entries, g);
    }
  }

  /** When the added entries' edges are acyclic and stay inside the working set, a save
      that passes the guard reports no type as unordered and inserts every added entity. */
  lemma RankedSavesAll(context: seq<Entry>, written: seq<Group>, unordered: seq<string>, rank: map<string, nat>)
    requires IsLoadOrder(GroupBy(AddedEntries(context)), written, unordered)
    requires EntriesRanked(AddedEntries(context), rank)
    ensures unordered == []
    ensures TotalSize(written) == |AddedEntries(context)|
  {
    GroupsRanked(AddedEntries(context), rank);
    RankedNothingDropped(GroupBy(AddedEntries(context)), written, unordered, rank);
    AllEmittedConserveCount(AddedEntries(context), written);
  }

  /** Wherever groups of both types are written, the group of `x` is written first. */
  predicate WrittenBefore(written: seq<Group>, x: string, y: string)
  {
    forall p, q :: 0 <= p < |written| && 0 <= q < |written| && written[p].key.name == x && written[q].key.name == y ==> p < q
  }

  /** When every entry of type `x` has an inbound edge from `y`, then wherever groups of
      both types are written, the group of `x` comes before the group of `y`. */
  lemma EdgeOrdersWrites(entries: seq<Entry>, written: seq<Group>, unordered: seq<string>, x: string, y: string)
    requires IsLoadOrder(GroupBy(entries), written, unordered)
    requires forall e :: e in entries && e.typeName == x ==> y in KeyFor(e).inboundEdges
    ensures WrittenBefore(written, x, y)
  {
    forall p | 0 <= p < |written| && written[p].key.name == x
      ensures y in written[p].key.inboundEdges
    {
      var e := GroupKeyOfEntry(entries, written[p]);
    }
  }

  /** When `edges` lists the inbound edges of every type among the entries, then for every
      listed edge whose two types are both written, the principal is written first. */
  lemma EdgeMapOrdersWrites(entries: seq<Entry>, written: seq<Group>, unordered: seq<string>,
                            edges: map<string, seq<string>>)
    requires IsLoadOrder(GroupBy(entries), written, unordered)
    requires forall e :: e in entries ==> e.typeName in edges && KeyFor(e).inboundEdges == edges[e.typeName]
    ensures forall x, y :: x in edges && y in edges[x] ==> WrittenBefore(written, x, y)
  {
    forall x, y | x in edges && y in edges[x] ensures WrittenBefore(written, x, y) {
      EdgeOrdersWrites(entries, written, unordered, x, y);
    }
  }
}
