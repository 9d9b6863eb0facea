/** The part of Entity Framework's object state manager that the bulk extensions read:
    tracked entries with their state, the runtime type name of their entity, whether
    they carry an entity key, and the relationship metadata of their related ends. */
module StateEntries {

  /** Multiplicity of one end of a relationship (RelationshipMultiplicity). */
  datatype Multiplicity = One | ZeroOrOne | Many

  /** One relationship type as the entity's related ends report it: the two type
      names that the relationship name `Left_Right` splits into at '_' and the
      multiplicities of relationship end 0 (left) and end 1 (right). */
  datatype Relationship = Relationship(
    leftName: string,
    rightName: string,
    leftMult: Multiplicity,
    rightMult: Multiplicity)

  /** A tracked domain object; only its identity matters to the bulk extensions. */
  datatype Entity = Entity(id: nat)

  /** EntityState of a tracked entry. */
  datatype EntryState = Detached | Unchanged | Added | Deleted | Modified

  /** An ObjectStateEntry: its state, the runtime type name of its entity, whether
      its EntityKey is non-null (entries without a key are relationship entries),
      the entity itself and the relationships of all its related ends. */
  datatype Entry = Entry(
    state: EntryState,
    typeName: string,
    hasKey: bool,
    entity: Entity,
    relationships: seq<Relationship>)

  /** The entries GetObjectStateEntries(Added) returns, restricted to those with an
      entity key, in tracking order. */
  function AddedEntries(context: seq<Entry>): (added: seq<Entry>)
    ensures |added| <= |context|
    ensures forall e :: e in added <==> e in context && e.state == Added && e.hasKey
  {
    if context == [] then []
    else
      var last := context[|context| - 1];
      AddedEntries(context[..|context| - 1]) + (if last.state == Added && last.hasKey then [last] else [])
  }

  /** The entries GetObjectStateEntries(Deleted | Modified) returns, restricted to
      those with an entity key, in tracking order. */
  function ModifiedOrDeletedEntries(context: seq<Entry>): (changed: seq<Entry>)
    ensures |changed| <= |context|
    ensures forall e :: e in changed <==> e in context && (e.state == Deleted || e.state == Modified) && e.hasKey
  {
    if context == [] then []
    else
      var last := context[|context| - 1];
      ModifiedOrDeletedEntries(context[..|context| - 1])
        + (if (last.state == Deleted || last.state == Modified) && last.hasKey then [last] else [])
  }

  /** A working set of new keyed entries is passed on whole, in order. */
  lemma {:induction false} AllAddedKept(context: seq<Entry>)
    requires forall e :: e in context ==> e.state == Added && e.hasKey
    ensures AddedEntries(context) == context
  {
    if context != [] {
      var n := |context| - 1;
      var last := context[n];
      assert context == context[..n] + [last];
      AllAddedKept(context[..n]);
      assert last in context;
    }
  }

  /** The entities of the entries of type `name`, in entry order. */
  function EntitiesNamed(entries: seq<Entry>, name: string): seq<Entity>
  {
    if entries == [] then []
    else
      var last := entries[|entries| - 1];
      EntitiesNamed(entries[..|entries| - 1], name) + (if last.typeName == name then [last.entity] else [])
  }

  /** The indices of the entries of type `name`. */
  function IndicesNamed(entries: seq<Entry>, name: string): set<nat>
  {
    set i: nat | i < |entries| && entries[i].typeName == name
  }

  /** Extending the entries by one adds the new index exactly when its type matches. */
  lemma IndicesNamedStep(entries: seq<Entry>, name: string)
    requires entries != []
    ensures |IndicesNamed(entries, name)|
      == |IndicesNamed(entries[..|entries| - 1], name)| + (if entries[|entries| - 1].typeName == name then 1 else 0)
  {
    var n := |entries| - 1;
    var before := IndicesNamed(entries[..n], name);
    var all := IndicesNamed(entries, name);
    assert all == before + (if entries[n].typeName == name then {n} else {}) by {
      forall i: nat ensures i in all <==> i in before || (i == n && entries[n].typeName == name) {
        if i < n {
          assert entries[..n][i] == entries[i];
        }
      }
    }
    assert n !in before;
  }

  /** The number of entities of type `name` is the number of entries of that type. */
  lemma {:induction false} EntitiesNamedCount(entries: seq<Entry>, name: string)
    ensures |EntitiesNamed(entries, name)| == |IndicesNamed(entries, name)|
  {
    if entries != [] {
      EntitiesNamedCount(entries[..|entries| - 1], name);
      IndicesNamedStep(entries, name);
    }
  }
}
