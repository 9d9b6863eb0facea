# EntityFramework.BulkExtensions — a Dafny model of `BulkSaveAdditions`

`DbContext.BulkSaveAdditions()` writes every entity a context has marked as *Added* by one
bulk insert per entity type instead of one `INSERT` per entity. It works in four steps:

1. **Guard.** It refuses to run while any keyed entry is *Deleted* or *Modified*. The error
   names each offending type with its number of entries.
2. **Grouping.** It groups the keyed *Added* entries by an `EntityKey`. The key holds the type
   name and the "inbound edges": the types that depend on this type.
3. **Ordering.** It orders the groups topologically with Kahn's algorithm, so that a type is
   written before every type that depends on it. Types caught in a cycle, or waiting on a type
   outside the working set, are reported and dropped.
   - A type that waits on a dropped type is dropped as well, even when it is in no cycle itself.
   - A dependant of a dropped type is still written when it has no edges of its own. The
     ordering only constrains types that are both written, so such a dependant is inserted
     without its principal (`Scenarios.DependantOfDroppedPrincipalWritten`).
4. **Writing.** It bulk-inserts the groups in that order and returns how many entities it
   handed over.

The project models these steps:

| file | module | models |
|---|---|---|
| `results.dfy` | `Results` | `Option`, `Outcome` (pass or error) and `Result` |
| `state_entries.dfy` | `StateEntries` | the object state manager: entries with state, type name, key presence and relationship metadata; the `GetObjectStateEntries(...)` filters |
| `entity_key.dfy` | `EntityKeys` | the `EntityKey` struct: `Create` with its edge rule, `HasIncomingEdges`, `HasIncomingEdgeFromNode`, `ForgetEdgeFromNode` and the name-only equality |
| `grouping.dfy` | `Grouping` | LINQ `GroupBy(EntityKey.Create, e => e.Entity)` and `ToDictionary` |
| `topological_order.dfy` | `TopologicalOrder` | `OrderTopologically`: Kahn's algorithm with its stack, its pending list and `List.Remove` |
| `bulk_save.dfy` | `BulkExtensions` | `GuardAgainstOtherChanges` and `BulkSaveAdditions` |
| `scenarios.dfy` | `Scenarios` | the graph of the repository's integration test, a principal stranded behind a cycle, a two-type cycle, a type waiting on an absent type, and a context with a modified entry |

Some modelling choices:

- **The edge rule.** A relationship `Left_Right` gives an entity its *own* multiplicity and the
  *other* end's multiplicity. If the entity's type name equals the right name, it uses the right
  end; otherwise it uses the left end.
  - The pair is skipped if it is many-to-many or optional-to-optional.
  - Otherwise the other type is an inbound edge when ours is `One`/`ZeroOrOne` against `Many`,
    or when ours is `One` against `ZeroOrOne`.
  - `EdgeTable` restates this rule as an independent table.
- **An inbound edge `Y` on `X` means `Y` depends on `X`.** A key `X` with inbound edge `Y` stays
  pending until `Y` has been popped and forgotten, so Kahn's algorithm pops `Y` before `X`. The
  reversal of the popped order for the output then puts `X` before `Y`.
  - `IsLoadOrder` states what the returned sequence is.
  - `DependenciesFirst` states that if type `q` is an inbound edge of type `p`, then `p` comes
    before `q` in the output. So a principal (the "One" end) is written before its dependants,
    which is what foreign keys need.
- **Equality of keys** is by name only, so `List.Remove(nodeM)` removes the first pending key
  with that name (`RemoveFirst`).
- **The stack** is a sequence whose top is its last element. `Stack<T>(IEnumerable)` pushes in
  enumeration order, so the first pop takes the last key that has no incoming edges.
- **The grouping key** is the `EntityKey` of the *first* entry of each type. LINQ keeps the first
  key it meets, and key equality is by name.
- **The bulk insert** of one group is an abstract step. `InsertAll` returns the groups in the
  order they are handed to the provider and adds up their sizes.
- **The names of the types that cannot be ordered** go only to the console in the C# code. The
  model returns them as `unordered`, so that contracts can speak about them.

## Model

| member | source | states |
|---|---|---|
| `StateEntries.AddedEntries` | EntityFramework.BulkExtensions/DbContextBulkExtensions.cs:17-22 | an entry is kept iff it is in the context, is Added and has an entity key |
| `StateEntries.ModifiedOrDeletedEntries` | EntityFramework.BulkExtensions/DbContextBulkExtensions.cs:42-47 | an entry is kept iff it is in the context, is Deleted or Modified and has an entity key |
| `StateEntries.AllAddedKept` | EntityFramework.BulkExtensions/DbContextBulkExtensions.cs:17-22 | when every entry is Added and keyed, the filter returns the whole context in order |
| `StateEntries.EntitiesNamedCount` | EntityFramework.BulkExtensions/DbContextBulkExtensions.cs:24-26 | a type's group has as many entities as there are entries of that type |
| `EntityKeys.EdgeFrom` | EntityFramework.BulkExtensions/DbContextBulkExtensions.cs:178-213 | a relationship yields an edge iff the edge table holds for our and their multiplicity, taken from the right end when our name is the right name; the edge is the other end's name; equal non-One multiplicities never yield one |
| `EntityKeys.InboundEdgesMembers` | EntityFramework.BulkExtensions/DbContextBulkExtensions.cs:175-214 | a name is an inbound edge iff some relationship of the entry yields that edge |
| `EntityKeys.Create` | EntityFramework.BulkExtensions/DbContextBulkExtensions.cs:166-218 | the loop builds exactly `KeyFor(entry)`: the entity's type name and the edges its relationships yield, in order |
| `EntityKeys.SkipTestIsRedundant` | EntityFramework.BulkExtensions/DbContextBulkExtensions.cs:201-212 | every dependant-on-us pair is non-skippable, and the two tests together are exactly the edge table |
| `EntityKeys.NoTwoWayEdge` | EntityFramework.BulkExtensions/DbContextBulkExtensions.cs:185-212 | one relationship between two distinct types never gives each of them an edge to the other |
| `EntityKeys.PerspectiveIsSymmetric` | EntityFramework.BulkExtensions/DbContextBulkExtensions.cs:185-199 | for a relationship between two distinct types, swapping its ends (names and multiplicities) does not change the edge a participating type gets |
| `EntityKeys.SelfRelationshipUsesRightEnd` | EntityFramework.BulkExtensions/DbContextBulkExtensions.cs:188-193 | in a self relationship the entity takes the right end as its own and gets a self edge iff the table holds for (right, left) |
| `EntityKeys.Without` | EntityFramework.BulkExtensions/DbContextBulkExtensions.cs:131 | filtering out a name removes every occurrence of it and keeps every other name's count |
| `EntityKeys.ForgetEdgeFromNode` | EntityFramework.BulkExtensions/DbContextBulkExtensions.cs:129-132 | the rebased key has the same name; it no longer has an edge from the node; every other edge keeps its count; it still has edges iff another name was among them |
| `EntityKeys.WithoutDistributes` | EntityFramework.BulkExtensions/DbContextBulkExtensions.cs:131 | filtering a concatenation is the concatenation of the filtered parts |
| `EntityKeys.ForgetAbsentIsIdentity` | EntityFramework.BulkExtensions/DbContextBulkExtensions.cs:124-132 | forgetting a node the key has no edge from leaves the key unchanged |
| `Grouping.Find` | EntityFramework.BulkExtensions/DbContextBulkExtensions.cs:24-26 | the by-name lookup of a group that the grouping contracts use: it finds a group with the given name, and finds none iff no group has it |
| `Grouping.GroupBy` | EntityFramework.BulkExtensions/DbContextBulkExtensions.cs:24-26 | one group per type name present among the entries, with distinct names and none empty |
| `Grouping.GroupBySize` | EntityFramework.BulkExtensions/DbContextBulkExtensions.cs:24-26 | the groups hold exactly as many entities as there are entries |
| `Grouping.GroupByContents` | EntityFramework.BulkExtensions/DbContextBulkExtensions.cs:24-26 | each type's group holds that type's entities in tracking order, and its key is the key of the type's first entry |
| `Grouping.GroupContents` | EntityFramework.BulkExtensions/DbContextBulkExtensions.cs:24-26 | every produced group is the entities of its type's entries under its first entry's key |
| `Grouping.ToLookup` | EntityFramework.BulkExtensions/DbContextBulkExtensions.cs:113 | the dictionary has exactly the group names as keys and maps each to its own group |
| `Grouping.TotalSizeReordered` | EntityFramework.BulkExtensions/DbContextBulkExtensions.cs:30-35 | two orderings of the same distinct groups hold the same number of entities |
| `TopologicalOrder.WithIncomingEdges` | EntityFramework.BulkExtensions/DbContextBulkExtensions.cs:82 | keeps exactly the keys that have incoming edges |
| `TopologicalOrder.WithoutIncomingEdges` | EntityFramework.BulkExtensions/DbContextBulkExtensions.cs:83 | keeps exactly the keys without incoming edges (the `Except` of the keys with edges, by name) |
| `TopologicalOrder.SplitKeepsNames` | EntityFramework.BulkExtensions/DbContextBulkExtensions.cs:81-83 | the two halves together hold every key name exactly as often as the key list |
| `TopologicalOrder.WithIncomingEdgeFromNode` | EntityFramework.BulkExtensions/DbContextBulkExtensions.cs:90 | keeps exactly the pending keys with an edge from the popped node |
| `TopologicalOrder.RemoveFirst` | EntityFramework.BulkExtensions/DbContextBulkExtensions.cs:96 | `List.Remove` by name: removes one occurrence of the name if present, otherwise changes nothing, and keeps every key of another name |
| `TopologicalOrder.RemoveFirstDistinct` | EntityFramework.BulkExtensions/DbContextBulkExtensions.cs:96-102 | in a pending list with distinct names, removing a key takes out exactly that name and nothing else |
| `TopologicalOrder.ReleaseDependents` | EntityFramework.BulkExtensions/DbContextBulkExtensions.cs:90-104 | the released keys are pushed on the stack; pending plus released keep the pending names; released keys have no edges left and pending ones do; every key's edges are exactly its original edges from types not yet popped |
| `TopologicalOrder.OrderTopologically` | EntityFramework.BulkExtensions/DbContextBulkExtensions.cs:78-115 | the result is a load order: groups of the input, each type at most once, every inbound edge after its type, closed under edges; every group is emitted or reported; reported types are distinct, not emitted and blocked by an edge from a type never emitted |
| `TopologicalOrder.ConcludeEdges` | EntityFramework.BulkExtensions/DbContextBulkExtensions.cs:113-114 | reversing a pop order in which every inbound edge was popped before its key yields an output where each type comes before the types named in its inbound edges, and every such type is emitted |
| `TopologicalOrder.WaitingOnAbsentNotEmitted` | EntityFramework.BulkExtensions/DbContextBulkExtensions.cs:107-111 | a type with an edge from a type outside the working set is never emitted and is reported |
| `TopologicalOrder.RankedNothingDropped` | EntityFramework.BulkExtensions/DbContextBulkExtensions.cs:78-115 | when the edges admit a ranking (no cycle, no edge leaving the working set), nothing is reported and every group is emitted |
| `TopologicalOrder.TwoCycleDropped` | EntityFramework.BulkExtensions/DbContextBulkExtensions.cs:107-111 | two types with edges to each other are both dropped |
| `BulkExtensions.GuardAgainstOtherChanges` | EntityFramework.BulkExtensions/DbContextBulkExtensions.cs:40-62 | passes iff no keyed entry is Deleted or Modified |
| `BulkExtensions.GuardReportsChanges` | EntityFramework.BulkExtensions/DbContextBulkExtensions.cs:49-61 | on failure the error names each offending type exactly once, with the number of its keyed Deleted or Modified entries, which is positive |
| `BulkExtensions.AdditionsOnly` | EntityFramework.BulkExtensions/DbContextBulkExtensions.cs:15-22 | a context of keyed Added entries passes the guard, and every entry reaches the grouping, in order (whether all of them are written depends on the edges, see `BulkExtensions.RankedSavesAll`) |
| `BulkExtensions.InsertAll` | EntityFramework.BulkExtensions/DbContextBulkExtensions.cs:30-35 | hands the groups over in the given order and counts every entity of every group |
| `BulkExtensions.BulkSaveAdditions` | EntityFramework.BulkExtensions/DbContextBulkExtensions.cs:13-38 | fails iff the guard fails, with its error and nothing written; otherwise writes a load order of the keyed Added entries' groups and returns the number of entities written, which is all of them when nothing is reported |
| `BulkExtensions.AllEmittedConserveCount` | EntityFramework.BulkExtensions/DbContextBulkExtensions.cs:24-37 | when no type is dropped, the count equals the number of added entries |
| `BulkExtensions.GroupsRanked` | EntityFramework.BulkExtensions/DbContextBulkExtensions.cs:24-26 | a ranking of the entries' key edges is a ranking of their groups |
| `BulkExtensions.RankedSavesAll` | EntityFramework.BulkExtensions/DbContextBulkExtensions.cs:13-38 | an acyclic set of additions closed under its edges is saved whole: nothing is reported and every added entry is counted |
| `BulkExtensions.EdgeOrdersWrites` | EntityFramework.BulkExtensions/DbContextBulkExtensions.cs:28-35 | if every entry of type x has y as an inbound edge, then wherever groups of both x and y are written, x's group comes before y's |
| `BulkExtensions.EdgeMapOrdersWrites` | EntityFramework.BulkExtensions/DbContextBulkExtensions.cs:28-35 | the same for a whole table of edges: for every listed edge whose two types are both written, the principal's group comes first |
| `Scenarios.RequiredEdge` | EntityFramework.BulkExtensions.Tests/EntityFramework.BulkExtensionsTests.cs:91-103 | a required many-to-one relationship gives the principal an edge from the dependant and the dependant none |
| `Scenarios.GraphOrder` | EntityFramework.BulkExtensions.Tests/EntityFramework.BulkExtensionsTests.cs:89-104 | in every load order of the test's eight types, each principal is written before each of its dependants |
| `Scenarios.GraphAllWritten` | EntityFramework.BulkExtensions.Tests/EntityFramework.BulkExtensionsTests.cs:35-44 | every load order of the test's working set writes the group of each of its eight types |
| `Scenarios.GraphWithoutInheritanceOrLoops` | EntityFramework.BulkExtensions.Tests/EntityFramework.BulkExtensionsTests.cs:13-44 | saving the test's eight entities returns 8 and writes the group of every one of the eight types, each principal before each dependant |
| `Scenarios.DependantOfDroppedPrincipalWritten` | EntityFramework.BulkExtensions/DbContextBulkExtensions.cs:85-114 | when `X` waits on a type of a cycle, `X` is dropped and reported, while its dependant `Y`, which has no edges, is still written |
| `Scenarios.CycleNothingWritten` | EntityFramework.BulkExtensions/DbContextBulkExtensions.cs:107-111 | two types that require each other are never written and are both reported |
| `Scenarios.CycleSave` | EntityFramework.BulkExtensions/DbContextBulkExtensions.cs:13-38 | saving the two-type cycle returns 0, writes nothing and reports both types |
| `Scenarios.LoneNothingWritten` | EntityFramework.BulkExtensions/DbContextBulkExtensions.cs:107-111 | a type waiting on a type that is not being added is not written and is reported |
| `Scenarios.LoneSave` | EntityFramework.BulkExtensions/DbContextBulkExtensions.cs:13-38 | saving only such a type returns 0, writes nothing and reports exactly it |
| `Scenarios.ModifiedGuard` | EntityFramework.BulkExtensions/DbContextBulkExtensions.cs:49-61 | a context holding a modified `A` fails the guard with exactly `A:1` |
| `Scenarios.ModifiedRefused` | EntityFramework.BulkExtensions/DbContextBulkExtensions.cs:13-15 | saving a context that holds a modified entry is refused with that error and writes nothing |

## Left out

- The bulk insert itself (`BulkInsert`, `NonGenericBulkInsertProvider`) is left out: SQL bulk copy, connections and transactions are I/O. Each group is written in a connection and transaction of its own, so a failure part-way leaves the earlier groups written. The model only records the order in which groups are handed over.
- The relationship metadata is an input. EF's runtime metadata (`GetAllRelatedEnds`, `RelationshipSet.ElementType`) cannot be modelled here. Each entry carries its relationships, already split at `'_'` into a left name and a right name.
- The `Split('_')` of the relationship name is left out. Names with more than one `'_'` and names without one (which throw in the C# code) are not represented.
- The console message listing the types that cannot be ordered is left out. The model returns those names instead.
- The text of the `InvalidOperationException` is left out. The model carries the `Name:Count` items it formats.
- `GetHashCode` and `ToString` of `EntityKey` are left out: they are not used by the algorithm beyond name equality, which is modelled.
- The `ArgumentNullException` checks of the `EntityKey` constructor are left out. Dafny values cannot be null.
- Entry states after saving are left out. The C# code never calls `AcceptAllChanges`, so entries stay Added, although the second test's name says otherwise. The same test adds only `A`s (EntityFramework.BulkExtensions.Tests/EntityFramework.BulkExtensionsTests.cs:52-57). If the related ends of an `A` include the `D_A` association of line 91, as the model's scenarios assume, then `A` waits on the absent `D` and nothing is written: `Scenarios.LoneSave` proves this for one `A`, and the test's existence checks at lines 58-59 could not then succeed. Whether EF reports that association on `A`'s related ends is runtime metadata the model takes as input.
- BulkExtensions.BulkSaveAdditions: does not model the 32-bit wrap-around of the C# `int` count. The count is an unbounded `nat`.
- Entity types with inheritance are left out. The type name is the entity's runtime type name, exactly as the C# code uses it.
