/** Concrete working sets: the eight-type graph of the test suite, a principal stranded
    behind a cycle, a two-type cycle, a principal added without its dependant, and a
    working set with a modification. */
module Scenarios {
  import opened Results
  import opened StateEntries
  import opened EntityKeys
  import opened Grouping
  import opened TopologicalOrder
  import opened BulkExtensions

  /** A required many-to-one association `Dependant_Principal` as code-first mapping
      builds it for `HasRequired(...).WithMany()`: end 0 is the dependant (many),
      end 1 the principal (one). */
  function Required(dependant: string, principal: string): Relationship
  {
    Relationship(dependant, principal, Many, One)
  }

  function NewEntry(typeName: string, id: nat, relationships: seq<Relationship>): Entry
  {
    Entry(EntryState.Added, typeName, true, Entity(id), relationships)
  }

  /** The new entities of GraphWithoutInheritanceOrLoops_Works, one per type A to H,
      each listing the associations its type takes part in. */
  function EntryA(): Entry { NewEntry("A", 0, [Required("D", "A")]) }
  function EntryB(): Entry { NewEntry("B", 1, [Required("D", "B"), Required("E", "B")]) }
  function EntryC(): Entry { NewEntry("C", 2, [Required("D", "C"), Required("H", "C")]) }
  function EntryD(): Entry { NewEntry("D", 3, [Required("D", "A"), Required("D", "B"), Required("D", "C"), Required("F", "D"), Required("G", "D")]) }
  function EntryE(): Entry { NewEntry("E", 4, [Required("E", "B"), Required("F", "E"), Required("H", "E")]) }
  function EntryF(): Entry { NewEntry("F", 5, [Required("F", "D"), Required("F", "E")]) }
  function EntryG(): Entry { NewEntry("G", 6, [Required("G", "D")]) }
  function EntryH(): Entry { NewEntry("H", 7, [Required("H", "E"), Required("H", "C")]) }

  /** The working set of GraphWithoutInheritanceOrLoops_Works, in the order the test adds it. */
  function GraphContext(): seq<Entry>
  {
    [EntryA(), EntryB(), EntryC(), EntryD(), EntryE(), EntryF(), EntryG(), EntryH()]
  }

  /** A required many-to-one association gives its principal an edge from the dependant,
      and the dependant none. */
  lemma RequiredEdge(name: string, dependant: string, principal: string)
    requires dependant != principal
    ensures EdgeFrom(name, Required(dependant, principal)) == if name == principal then Some(dependant) else None
  {
  }

  /** One more relationship adds at most its own edge. */
  lemma InboundEdgesStep(name: string, relationships: seq<Relationship>, r: Relationship)
    ensures InboundEdges(name, relationships + [r])
      == InboundEdges(name, relationships) + (match EdgeFrom(name, r) case Some(their) => [their] case None => [])
  {
    assert (relationships + [r])[..|relationships|] == relationships;
  }

  lemma KeyOfA()
    ensures KeyFor(EntryA()) == EntityKey("A", ["D"])
  {
    var r0 := Required("D", "A");
    assert EntryA().relationships == [] + [r0];
    RequiredEdge("A", "D", "A");
    InboundEdgesStep("A", [], r0);
  }

  lemma KeyOfG()
    ensures KeyFor(EntryG()) == EntityKey("G", [])
  {
    var r0 := Required("G", "D");
    assert EntryG().relationships == [] + [r0];
    RequiredEdge("G", "G", "D");
    InboundEdgesStep("G", [], r0);
  }

  lemma KeyOfB()
    ensures KeyFor(EntryB()) == EntityKey("B", ["D", "E"])
  {
    var r0, r1 := Required("D", "B"), Required("E", "B");
    assert EntryB().relationships == [r0] + [r1];
    RequiredEdge("B", "D", "B");
    RequiredEdge("B", "E", "B");
    InboundEdgesStep("B", [], r0);
    InboundEdgesStep("B", [r0], r1);
  }

  lemma KeyOfC()
    ensures KeyFor(EntryC()) == EntityKey("C", ["D", "H"])
  {
    var r0, r1 := Required("D", "C"), Required("H", "C");
    assert EntryC().relationships == [r0] + [r1];
    RequiredEdge("C", "D", "C");
    RequiredEdge("C", "H", "C");
    InboundEdgesStep("C", [], r0);
    InboundEdgesStep("C", [r0], r1);
  }

  lemma KeyOfD()
    ensures KeyFor(EntryD()) == EntityKey("D", ["F", "G"])
  {
    var r0, r1, r2, r3, r4 := Required("D", "A"), Required("D", "B"), Required("D", "C"), Required("F", "D"), Required("G", "D");
    var rs := [r0] + [r1] + [r2];
    assert EntryD().relationships == rs + [r3] + [r4];
    KeyOfDPrincipals();
    RequiredEdge("D", "F", "D");
    RequiredEdge("D", "G", "D");
    InboundEdgesStep("D", rs, r3);
    InboundEdgesStep("D", rs + [r3], r4);
  }

  /** D's own associations with its three principals give D no edge. */
  lemma KeyOfDPrincipals()
    ensures InboundEdges("D", [Required("D", "A")] + [Required("D", "B")] + [Required("D", "C")]) == []
  {
    var r0, r1, r2 := Required("D", "A"), Required("D", "B"), Required("D", "C");
    RequiredEdge("D", "D", "A");
    RequiredEdge("D", "D", "B");
    RequiredEdge("D", "D", "C");
    InboundEdgesStep("D", [], r0);
    InboundEdgesStep("D", [r0], r1);
    InboundEdgesStep("D", [r0] + [r1], r2);
  }

  lemma KeyOfE()
    ensures KeyFor(EntryE()) == EntityKey("E", ["F", "H"])
  {
    var r0, r1, r2 := Required("E", "B"), Required("F", "E"), Required("H", "E");
    assert EntryE().relationships == [r0] + [r1] + [r2];
    RequiredEdge("E", "E", "B");
    RequiredEdge("E", "F", "E");
    RequiredEdge("E", "H", "E");
    InboundEdgesStep("E", [], r0);
    InboundEdgesStep("E", [r0], r1);
    InboundEdgesStep("E", [r0] + [r1], r2);
  }

  lemma KeyOfF()
    ensures KeyFor(EntryF()) == EntityKey("F", [])
  {
    var r0, r1 := Required("F", "D"), Required("F", "E");
    assert EntryF().relationships == [r0] + [r1];
    RequiredEdge("F", "F", "D");
    RequiredEdge("F", "F", "E");
    InboundEdgesStep("F", [], r0);
    InboundEdgesStep("F", [r0], r1);
  }

  lemma KeyOfH()
    ensures KeyFor(EntryH()) == EntityKey("H", [])
  {
    var r0, r1 := Required("H", "E"), Required("H", "C");
    assert EntryH().relationships == [r0] + [r1];
    RequiredEdge("H", "H", "E");
    RequiredEdge("H", "H", "C");
    InboundEdgesStep("H", [], r0);
    InboundEdgesStep("H", [r0], r1);
  }

  /** The inbound edges of each type of the graph. */
  function GraphEdges(): map<string, seq<string>>
  {
    map["A" := ["D"], "B" := ["D", "E"], "C" := ["D", "H"], "D" := ["F", "G"], "E" := ["F", "H"],
        "F" := [], "G" := [], "H" := []]
  }

  /** Each entry of the graph gets the key its type's edges say. */
  lemma GraphKeyAt(k: nat)
    requires k < |GraphContext()|
    ensures GraphContext()[k].typeName in GraphEdges()
    ensures KeyFor(GraphContext()[k]) == EntityKey(GraphContext()[k].typeName, GraphEdges()[GraphContext()[k].typeName])
  {
    var e := GraphContext()[k];
    GraphEdgesListed();
    if k == 0 { assert e == EntryA(); KeyOfA(); }
    else if k == 1 { assert e == EntryB(); KeyOfB(); }
    else if k == 2 { assert e == EntryC(); KeyOfC(); }
    else if k == 3 { assert e == EntryD(); KeyOfD(); }
    else if k == 4 { assert e == EntryE(); KeyOfE(); }
    else if k == 5 { assert e == EntryF(); KeyOfF(); }
    else if k == 6 { assert e == EntryG(); KeyOfG(); }
    else { assert e == EntryH(); KeyOfH(); }
  }

  /** The ranks of the graph's types: leaves 0, D and E 1, the roots 2. */
  function GraphRank(): map<string, nat>
  {
    map["A" := 2, "B" := 2, "C" := 2, "D" := 1, "E" := 1, "F" := 0, "G" := 0, "H" := 0]
  }

  /** The rank table, entry by entry. */
  lemma GraphRankListed()
    ensures var rank := GraphRank();
      && "A" in rank && "B" in rank && "C" in rank && "D" in rank
      && "E" in rank && "F" in rank && "G" in rank && "H" in rank
      && rank["A"] == 2 && rank["B"] == 2 && rank["C"] == 2 && rank["D"] == 1
      && rank["E"] == 1 && rank["F"] == 0 && rank["G"] == 0 && rank["H"] == 0
  {
  }

  /** An entry is ranked: its type has a rank and each of its edges names a type of the
      working set with a lower rank. */
  predicate EntryRanked(e: Entry, rank: map<string, nat>)
  {
    && e.typeName in rank
    && forall x :: x in KeyFor(e).inboundEdges ==> x in rank && rank[x] < rank[e.typeName]
  }

  /** Entry `k` is ranked. */
  predicate RankedAt(entries: seq<Entry>, rank: map<string, nat>, k: nat)
    requires k < |entries|
  {
    EntryRanked(entries[k], rank)
  }

  lemma RankedByIndex(entries: seq<Entry>, rank: map<string, nat>)
    requires rank.Keys <= TypeNames(entries)
    requires forall k :: 0 <= k < |entries| ==> RankedAt(entries, rank, k)
    ensures EntriesRanked(entries, rank)
  {
    forall e | e in entries
      ensures e.typeName in rank
      ensures forall x :: x in KeyFor(e).inboundEdges ==> x in rank && rank[x] < rank[e.typeName]
    {
      var k :| 0 <= k < |entries| && entries[k] == e;
      assert RankedAt(entries, rank, k);
    }
  }

  lemma RankedA()
    ensures EntryRanked(EntryA(), GraphRank())
  {
    KeyOfA();
    GraphRankListed();
  }

  lemma RankedB()
    ensures EntryRanked(EntryB(), GraphRank())
  {
    KeyOfB();
    GraphRankListed();
  }

  lemma RankedC()
    ensures EntryRanked(EntryC(), GraphRank())
  {
    KeyOfC();
    GraphRankListed();
  }

  lemma RankedD()
    ensures EntryRanked(EntryD(), GraphRank())
  {
    KeyOfD();
    GraphRankListed();
  }

  lemma RankedE()
    ensures EntryRanked(EntryE(), GraphRank())
  {
    KeyOfE();
    GraphRankListed();
  }

  lemma RankedF()
    ensures EntryRanked(EntryF(), GraphRank())
  {
    KeyOfF();
    GraphRankListed();
  }

  lemma RankedG()
    ensures EntryRanked(EntryG(), GraphRank())
  {
    KeyOfG();
    GraphRankListed();
  }

  lemma RankedH()
    ensures EntryRanked(EntryH(), GraphRank())
  {
    KeyOfH();
    GraphRankListed();
  }

  /** Every ranked name is a type of the working set. */
  lemma GraphRankNamesTypes()
    ensures GraphRank().Keys <= TypeNames(GraphContext())
  {
    var context := GraphContext();
    assert context[0] in context && context[1] in context && context[2] in context && context[3] in context;
    assert context[4] in context && context[5] in context && context[6] in context && context[7] in context;
  }

  /** The graph is acyclic, and every edge stays inside the working set. */
  lemma GraphRanked()
    ensures EntriesRanked(GraphContext(), GraphRank())
  {
    GraphRankNamesTypes();
    assert |GraphContext()| == 8;
    forall k | 0 <= k < |GraphContext()| ensures RankedAt(GraphContext(), GraphRank(), k) {
      var e := GraphContext()[k];
      if k == 0 { RankedA(); assert e == EntryA(); }
      else if k == 1 { RankedB(); assert e == EntryB(); }
      else if k == 2 { RankedC(); assert e == EntryC(); }
      else if k == 3 { RankedD(); assert e == EntryD(); }
      else if k == 4 { RankedE(); assert e == EntryE(); }
      else if k == 5 { RankedF(); assert e == EntryF(); }
      else if k == 6 { RankedG(); assert e == EntryG(); }
      else { RankedH(); assert e == EntryH(); }
    }
    RankedByIndex(GraphContext(), GraphRank());
  }

  /** The test adds only new entities, so the guard lets the save through and every
      entry is passed on. */
  lemma GraphAllAdded()
    ensures GuardAgainstOtherChanges(GraphContext()).Pass?
    ensures AddedEntries(GraphContext()) == GraphContext()
  {
    var context := GraphContext();
    forall k | 0 <= k < |context| ensures context[k].state == EntryState.Added && context[k].hasKey {
    }
    AdditionsOnly(context);
  }

  /** The edge table of the graph, entry by entry. */
  lemma GraphEdgesListed()
    ensures var edges := GraphEdges();
      && "A" in edges && "B" in edges && "C" in edges && "D" in edges
      && "E" in edges && "F" in edges && "G" in edges && "H" in edges
      && edges["A"] == ["D"] && edges["B"] == ["D", "E"] && edges["C"] == ["D", "H"]
      && edges["D"] == ["F", "G"] && edges["E"] == ["F", "H"]
      && edges["F"] == [] && edges["G"] == [] && edges["H"] == []
  {
  }

  /** Each entry of the graph gets the key its type's edges say, looked up by type name. */
  lemma GraphKeysByName()
    ensures forall e :: e in GraphContext() ==>
      e.typeName in GraphEdges() && KeyFor(e).inboundEdges == GraphEdges()[e.typeName]
  {
    var context := GraphContext();
    forall e | e in context
      ensures e.typeName in GraphEdges() && KeyFor(e).inboundEdges == GraphEdges()[e.typeName]
    {
      var k :| 0 <= k < |context| && context[k] == e;
      GraphKeyAt(k);
    }
  }

  /** Any load order of the graph writes each principal before its dependants. */
  lemma GraphOrder(written: seq<Group>, unordered: seq<string>)
    requires IsLoadOrder(GroupBy(GraphContext()), written, unordered)
    ensures WrittenBefore(written, "A", "D") && WrittenBefore(written, "B", "D") && WrittenBefore(written, "C", "D")
    ensures WrittenBefore(written, "B", "E") && WrittenBefore(written, "D", "F") && WrittenBefore(written, "E", "F")
    ensures WrittenBefore(written, "D", "G") && WrittenBefore(written, "E", "H") && WrittenBefore(written, "C", "H")
  {
    var context := GraphContext();
    GraphKeysByName();
    EdgeMapOrdersWrites(context, written, unordered, GraphEdges());
    GraphEdgesListed();
    assert "D" in ["D"] && "D" in ["D", "E"] && "E" in ["D", "E"] && "F" in ["F", "G"] && "G" in ["F", "G"];
    assert "D" in ["D", "H"] && "H" in ["D", "H"] && "F" in ["F", "H"] && "H" in ["F", "H"];
  }

  /** Every load order of the graph writes the group of every one of its eight types. */
  lemma GraphAllWritten(written: seq<Group>, unordered: seq<string>)
    requires IsLoadOrder(GroupBy(GraphContext()), written, unordered)
    ensures forall g :: g in GroupBy(GraphContext()) ==> g in written
  {
    GraphRanked();
    GroupsRanked(GraphContext(), GraphRank());
    RankedNothingDropped(GroupBy(GraphContext()), written, unordered, GraphRank());
  }

  /** GraphWithoutInheritanceOrLoops_Works: saving the eight new entities inserts all
      eight, each principal's group before the groups of its dependants. */
  method GraphWithoutInheritanceOrLoops() returns (result: Result<nat, GuardError>, written: seq<Group>)
    ensures result == Ok(8)
    ensures forall g :: g in GroupBy(GraphContext()) ==> g in written
    ensures WrittenBefore(written, "A", "D") && WrittenBefore(written, "B", "D") && WrittenBefore(written, "C", "D")
    ensures WrittenBefore(written, "B", "E") && WrittenBefore(written, "D", "F") && WrittenBefore(written, "E", "F")
    ensures WrittenBefore(written, "D", "G") && WrittenBefore(written, "E", "H") && WrittenBefore(written, "C", "H")
  {
    var context := GraphContext();
    GraphAllAdded();
    var unordered;
    result, written, unordered := BulkSaveAdditions(context);
    GraphRanked();
    RankedSavesAll(context, written, unordered, GraphRank());
    GraphOrder(written, unordered);
    GraphAllWritten(written, unordered);
  }

  // ---------------------------------------------------------------------------
  // A principal stranded behind a cycle
  // ---------------------------------------------------------------------------

  /** Four type groups: `Y` depends on `X`, and `X` also waits on `Z`, which forms a
      cycle with `W`. */
  function StrandedGroups(): seq<Group>
  {
    [Group(EntityKey("X", ["Y", "Z"]), [Entity(0)]),
     Group(EntityKey("Y", []), [Entity(1)]),
     Group(EntityKey("Z", ["W"]), [Entity(2)]),
     Group(EntityKey("W", ["Z"]), [Entity(3)])]
  }

  /** A type that waits on a dropped type is dropped too, although it is in no cycle and
      waits on no absent type, while its dependant, which has no edges of its own, is
      still written. */
  lemma DependantOfDroppedPrincipalWritten(written: seq<Group>, unordered: seq<string>)
    requires IsLoadOrder(StrandedGroups(), written, unordered)
    ensures "Y" in KeyNames(written)
    ensures "X" !in KeyNames(written) && "X" in unordered
  {
    var groups := StrandedGroups();
    var gX, gY, gZ, gW := groups[0], groups[1], groups[2], groups[3];
    assert DistinctKeys(groups);
    TwoCycleDropped(groups, written, unordered, gZ, gW);
    assert "Z" !in KeyNames(written);
    assert gX !in written;
    assert gY in written;
  }

  // ---------------------------------------------------------------------------
  // Two types that each require the other
  // ---------------------------------------------------------------------------

  function EntryP(): Entry { NewEntry("P", 0, [Required("P", "Q"), Required("Q", "P")]) }
  function EntryQ(): Entry { NewEntry("Q", 1, [Required("P", "Q"), Required("Q", "P")]) }

  function CycleContext(): seq<Entry>
  {
    [EntryP(), EntryQ()]
  }

  /** Each of the two types waits for the other. */
  lemma CycleKeys()
    ensures KeyFor(EntryP()) == EntityKey("P", ["Q"])
    ensures KeyFor(EntryQ()) == EntityKey("Q", ["P"])
  {
    var r0, r1 := Required("P", "Q"), Required("Q", "P");
    assert EntryP().relationships == [r0] + [r1];
    assert EntryQ().relationships == [r0] + [r1];
    RequiredEdge("P", "P", "Q");
    RequiredEdge("P", "Q", "P");
    RequiredEdge("Q", "P", "Q");
    RequiredEdge("Q", "Q", "P");
    InboundEdgesStep("P", [], r0);
    InboundEdgesStep("P", [r0], r1);
    InboundEdgesStep("Q", [], r0);
    InboundEdgesStep("Q", [r0], r1);
  }

  /** The group GroupBy builds for a type of a working set whose entries each have a
      distinct type carries the key of that type's entry. */
  lemma GroupOfCycle(g: Group)
    requires g in GroupBy(CycleContext())
    ensures g.key == KeyFor(EntryP()) || g.key == KeyFor(EntryQ())
  {
    var e := GroupKeyOfEntry(CycleContext(), g);
  }

  /** Neither type of the cycle is written; both are reported. */
  lemma CycleNothingWritten(written: seq<Group>, unordered: seq<string>)
    requires IsLoadOrder(GroupBy(CycleContext()), written, unordered)
    ensures written == []
    ensures "P" in unordered && "Q" in unordered
  {
    var context := CycleContext();
    var groups := GroupBy(context);
    CycleKeys();
    assert context[0] in context && context[1] in context;
    assert "P" in KeyNames(groups) && "Q" in KeyNames(groups);
    var gP :| gP in groups && gP.key.name == "P";
    var gQ :| gQ in groups && gQ.key.name == "Q";
    GroupOfCycle(gP);
    GroupOfCycle(gQ);
    TwoCycleDropped(groups, written, unordered, gP, gQ);
    if written != [] {
      var w := written[0];
      assert w in written;
      GroupOfCycle(w);
      if w.key.name == "P" {
        SameNameSameGroup(groups, w, gP);
      } else {
        SameNameSameGroup(groups, w, gQ);
      }
      assert false;
    }
  }

  /** The cycle's working set holds only keyed additions, all of which are saved. */
  lemma CycleAllAdded()
    ensures GuardAgainstOtherChanges(CycleContext()).Pass?
    ensures AddedEntries(CycleContext()) == CycleContext()
  {
    var context := CycleContext();
    forall k | 0 <= k < |context| ensures context[k].state == EntryState.Added && context[k].hasKey {
    }
    AdditionsOnly(context);
  }

  /** A save of the cycle passes the guard, writes nothing and returns zero. */
  method CycleSave() returns (result: Result<nat, GuardError>, written: seq<Group>, unordered: seq<string>)
    ensures result == Ok(0) && written == []
    ensures "P" in unordered && "Q" in unordered
  {
    CycleAllAdded();
    result, written, unordered := BulkSaveAdditions(CycleContext());
    CycleNothingWritten(written, unordered);
  }

  // ---------------------------------------------------------------------------
  // A principal added without its dependant
  // ---------------------------------------------------------------------------

  function LoneContext(): seq<Entry>
  {
    [EntryA()]
  }

  /** A waits for D, which is not in the working set, so A is reported and not written. */
  lemma LoneNothingWritten(written: seq<Group>, unordered: seq<string>)
    requires IsLoadOrder(GroupBy(LoneContext()), written, unordered)
    ensures written == [] && unordered == ["A"]
  {
    var context := LoneContext();
    assert context[..0] == [];
    var groups := GroupBy(context);
    assert groups == [Group(KeyFor(EntryA()), [EntryA().entity])];
    assert groups[0].key == EntityKey("A", ["D"]);
    var gA := groups[0];
    assert gA in groups && "D" in gA.key.inboundEdges;
    assert KeyNames(groups) == {"A"};
    WaitingOnAbsentNotEmitted(groups, written, unordered, gA, "D");
    assert forall w :: w in written ==> w == gA;
    assert |written| == 0;
  }

  /** The working set of A alone holds only a keyed addition. */
  lemma LoneAllAdded()
    ensures GuardAgainstOtherChanges(LoneContext()).Pass?
    ensures AddedEntries(LoneContext()) == LoneContext()
  {
    var context := LoneContext();
    forall k | 0 <= k < |context| ensures context[k].state == EntryState.Added && context[k].hasKey {
    }
    AdditionsOnly(context);
  }

  /** A save of A alone passes the guard, writes nothing and returns zero. */
  method LoneSave() returns (result: Result<nat, GuardError>, written: seq<Group>, unordered: seq<string>)
    ensures result == Ok(0) && written == [] && unordered == ["A"]
  {
    LoneAllAdded();
    result, written, unordered := BulkSaveAdditions(LoneContext());
    LoneNothingWritten(written, unordered);
  }

  // ---------------------------------------------------------------------------
  // A working set with a modification
  // ---------------------------------------------------------------------------

  function ModifiedContext(): seq<Entry>
  {
    [EntryB(), Entry(Modified, "A", true, Entity(9), [Required("D", "A")])]
  }

  /** The guard fails on a modified A, listing A once with one changed entity. */
  lemma ModifiedGuard()
    ensures GuardAgainstOtherChanges(ModifiedContext()) == Fail(OnlyAdditionsSupported([TypeCount("A", 1)]))
  {
    var context := ModifiedContext();
    var modified := context[1];
    assert ModifiedOrDeletedEntries(context[..1]) == [];
    assert context[..1] + [modified] == context;
    assert ModifiedOrDeletedEntries(context) == [modified];
    assert [modified][..0] == [];
    assert GroupBy([modified][..0]) == [];
    assert Insert([], modified) == [Group(KeyFor(modified), [modified.entity])];
    var groups := GroupBy([modified]);
    assert groups == [Group(KeyFor(modified), [modified.entity])];
    assert TypeCounts(groups) == [TypeCount("A", 1)];
  }

  /** The guard refuses a working set with a modified A, naming A once with count 1, and
      nothing is written. */
  method ModifiedRefused() returns (result: Result<nat, GuardError>, written: seq<Group>)
    ensures result == Err(OnlyAdditionsSupported([TypeCount("A", 1)]))
    ensures written == []
  {
    ModifiedGuard();
    var unordered;
    result, written, unordered := BulkSaveAdditions(ModifiedContext());
  }
}
