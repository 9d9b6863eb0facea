/** The EntityKey struct of DbContextBulkExtensions.cs: a scheduling node made of an
    entity set name and the names recorded as its inbound edges, and the rule that
    derives those edges from an entry's relationship metadata.

    An inbound edge Y on node X is written when, from X's side, X's end is single
    valued and Y's end is many valued (or X's end is required and Y's optional):
    rows of type Y refer to rows of type X, so X must be loaded before Y. */
module EntityKeys {
  import opened Results
  import opened StateEntries

  datatype EntityKey = EntityKey(name: string, inboundEdges: seq<string>)

  /** A relationship seen from one entity: the other type and both multiplicities. */
  datatype Perspective = Perspective(theirName: string, ours: Multiplicity, theirs: Multiplicity)

  // ---------------------------------------------------------------------------
  // Edge derivation (EntityKey.Create)
  // ---------------------------------------------------------------------------

  /** Which end of the relationship is ours: the right end when our type name is the
      right-hand name, otherwise the left end. */
  function Normalise(entityName: string, r: Relationship): Perspective
  {
    if entityName == r.rightName then Perspective(r.leftName, r.rightMult, r.leftMult)
    else Perspective(r.rightName, r.leftMult, r.rightMult)
  }

  /** Many-to-many and optional-to-optional relationships are skipped. */
  predicate IsSkippable(ours: Multiplicity, theirs: Multiplicity)
  {
    (ours == Many && theirs == Many) || (ours == ZeroOrOne && theirs == ZeroOrOne)
  }

  /** The `dependantOnUs` test of the C# code. */
  predicate DependantOnUs(ours: Multiplicity, theirs: Multiplicity)
  {
    ((ours == One || ours == ZeroOrOne) && theirs == Many) || (ours == One && theirs == ZeroOrOne)
  }

  /** The nine multiplicity pairs written out one by one: true exactly for the pairs
      where the other type depends on ours. */
  function EdgeTable(ours: Multiplicity, theirs: Multiplicity): bool
  {
    match (ours, theirs)
    case (One, One) => false
    case (One, ZeroOrOne) => true
    case (One, Many) => true
    case (ZeroOrOne, One) => false
    case (ZeroOrOne, ZeroOrOne) => false
    case (ZeroOrOne, Many) => true
    case (Many, One) => false
    case (Many, ZeroOrOne) => false
    case (Many, Many) => false
  }

  /** The inbound edge one relationship contributes to `entityName`, if any. */
  function EdgeFrom(entityName: string, r: Relationship): (edge: Option<string>)
    ensures edge.Some? <==> EdgeTable(Normalise(entityName, r).ours, Normalise(entityName, r).theirs)
    ensures edge.Some? ==> edge.value == (if entityName == r.rightName then r.leftName else r.rightName)
    ensures r.leftMult == r.rightMult && r.leftMult != One ==> edge == None
  {
    var p := Normalise(entityName, r);
    if !IsSkippable(p.ours, p.theirs) && DependantOnUs(p.ours, p.theirs) then Some(p.theirName) else None
  }

  /** The inbound edges of `entityName`, one per contributing relationship, in order. */
  function InboundEdges(entityName: string, relationships: seq<Relationship>): (edges: seq<string>)
    ensures |edges| <= |relationships|
  {
    if relationships == [] then []
    else
      var n := |relationships| - 1;
      var before := InboundEdges(entityName, relationships[..n]);
      match EdgeFrom(entityName, relationships[n])
      case Some(their) => before + [their]
      case None => before
  }

  /** A type is an inbound edge exactly when some relationship contributes it. */
  lemma {:induction false} InboundEdgesMembers(entityName: string, relationships: seq<Relationship>)
    ensures forall e :: e in InboundEdges(entityName, relationships) <==>
      exists i :: 0 <= i < |relationships| && EdgeFrom(entityName, relationships[i]) == Some(e)
  {
    if relationships != [] {
      var n := |relationships| - 1;
      InboundEdgesMembers(entityName, relationships[..n]);
      assert forall i :: 0 <= i < n ==> relationships[..n][i] == relationships[i];
    }
  }

  /** The key EntityKey.Create builds for an entry. */
  function KeyFor(entry: Entry): EntityKey
  {
    EntityKey(entry.typeName, InboundEdges(entry.typeName, entry.relationships))
  }

  /** EntityKey.Create: walk the entry's relationships and collect inbound edges. */
  method Create(entry: Entry) returns (key: EntityKey)
    ensures key == KeyFor(entry)
    ensures key.name == entry.typeName
  {
    var entityName := entry.typeName;
    var relationships := entry.relationships;
    var inboundEdges: seq<string> := [];
    for i := 0 to |relationships|
      invariant inboundEdges == InboundEdges(entityName, relationships[..i])
    {
      var relationship := relationships[i];
      var theirTypeName: string;
      var ourMultiplicity: Multiplicity;
      var theirMultiplicity: Multiplicity;
      if entityName == relationship.rightName {
        theirTypeName := relationship.leftName;
        ourMultiplicity := relationship.rightMult;
        theirMultiplicity := relationship.leftMult;
      } else {
        theirTypeName := relationship.rightName;
        ourMultiplicity := relationship.leftMult;
        theirMultiplicity := relationship.rightMult;
      }
      var isManyToMany := ourMultiplicity == Many && theirMultiplicity == Many;
      var isOptionalToOptional := ourMultiplicity == ZeroOrOne && theirMultiplicity == ZeroOrOne;
      var isSkippable := isManyToMany || isOptionalToOptional;
      assert relationships[..i + 1][..i] == relationships[..i];
      if !isSkippable {
        var dependantOnUs := ((ourMultiplicity == One || ourMultiplicity == ZeroOrOne) && theirMultiplicity == Many)
          || (ourMultiplicity == One && theirMultiplicity == ZeroOrOne);
        if dependantOnUs {
          inboundEdges := inboundEdges + [theirTypeName];
        }
      }
    }
    assert relationships[..|relationships|] == relationships;
    key := EntityKey(entityName, inboundEdges);
  }

  /** The skip test never changes the outcome: every pair the dependency test accepts
      is already outside the skippable pairs. */
  lemma SkipTestIsRedundant(ours: Multiplicity, theirs: Multiplicity)
    ensures DependantOnUs(ours, theirs) ==> !IsSkippable(ours, theirs)
    ensures (!IsSkippable(ours, theirs) && DependantOnUs(ours, theirs)) == EdgeTable(ours, theirs)
  {
  }

  /** A relationship between two different types never makes each type an inbound
      edge of the other, so one relationship alone cannot form a cycle. */
  lemma NoTwoWayEdge(r: Relationship)
    requires r.leftName != r.rightName
    ensures !(EdgeFrom(r.leftName, r) == Some(r.rightName) && EdgeFrom(r.rightName, r) == Some(r.leftName))
  {
  }

  /** The relationship gives the same edge whichever of its two ends is reported as
      end 0, as long as the entity is one of two distinct ends. */
  lemma PerspectiveIsSymmetric(entityName: string, r: Relationship)
    requires r.leftName != r.rightName
    requires entityName == r.leftName || entityName == r.rightName
    ensures EdgeFrom(entityName, r) == EdgeFrom(entityName, Relationship(r.rightName, r.leftName, r.rightMult, r.leftMult))
  {
  }

  /** A relationship of a type with itself is read from its right end: the type gets an
      inbound edge from itself exactly when the right end's multiplicity, against the left
      end's, passes the rule. */
  lemma SelfRelationshipUsesRightEnd(entityName: string, r: Relationship)
    requires r.leftName == entityName && r.rightName == entityName
    ensures EdgeFrom(entityName, r) == (if EdgeTable(r.rightMult, r.leftMult) then Some(entityName) else None)
  {
  }

  // ---------------------------------------------------------------------------
  // Node operations used by the topological sort
  // ---------------------------------------------------------------------------

  /** EntityKey.Equals: keys compare by name only, whatever their edges. */
  predicate SameKey(a: EntityKey, b: EntityKey)
  {
    a.name == b.name
  }

  predicate HasIncomingEdges(key: EntityKey)
  {
    key.inboundEdges != []
  }

  predicate HasIncomingEdgeFromNode(key: EntityKey, node: EntityKey)
  {
    node.name in key.inboundEdges
  }

  /** The edges of `edges` that are not `name`, in order (`Where(e => e != name)`). */
  function Without(edges: seq<string>, name: string): (kept: seq<string>)
    ensures name !in kept
    ensures forall e :: e != name ==> multiset(kept)[e] == multiset(edges)[e]
  {
    if edges == [] then []
    else
      assert edges == [edges[0]] + edges[1..];
      (if edges[0] == name then [] else [edges[0]]) + Without(edges[1..], name)
  }

  /** EntityKey.ForgetEdgeFromNode: a new key with the same name and every inbound edge
      from `fromNode` removed; the key itself is unchanged. */
  function ForgetEdgeFromNode(key: EntityKey, fromNode: EntityKey): (rebased: EntityKey)
    ensures SameKey(rebased, key)
    ensures !HasIncomingEdgeFromNode(rebased, fromNode)
    ensures forall e :: e != fromNode.name ==> multiset(rebased.inboundEdges)[e] == multiset(key.inboundEdges)[e]
    ensures HasIncomingEdges(rebased) <==> exists e :: e in key.inboundEdges && e != fromNode.name
    ensures forall e :: e in rebased.inboundEdges <==> e in key.inboundEdges && e != fromNode.name
  {
    var kept := Without(key.inboundEdges, fromNode.name);
    assert kept != [] ==> kept[0] in key.inboundEdges && kept[0] != fromNode.name by {
      if kept != [] {
        assert multiset(kept)[kept[0]] > 0;
      }
    }
    assert forall e :: e in key.inboundEdges && e != fromNode.name ==> e in kept by {
      forall e | e in key.inboundEdges && e != fromNode.name ensures e in kept {
        assert multiset(key.inboundEdges)[e] > 0;
      }
    }
    assert forall e :: e in kept ==> e in key.inboundEdges by {
      forall e | e in kept ensures e in key.inboundEdges {
        assert multiset(kept)[e] > 0;
      }
    }
    EntityKey(key.name, kept)
  }

  /** Removing a name works element by element: the edges that stay keep their order. */
  lemma {:induction false} WithoutDistributes(a: seq<string>, b: seq<string>, name: string)
    ensures Without(a + b, name) == Without(a, name) + Without(b, name)
  {
    if a == [] {
      assert a + b == b;
    } else {
      assert (a + b)[0] == a[0];
      assert (a + b)[1..] == a[1..] + b;
      WithoutDistributes(a[1..], b, name);
    }
  }

  /** Forgetting a node the key has no edge from gives back the same key. */
  lemma {:induction false} ForgetAbsentIsIdentity(key: EntityKey, fromNode: EntityKey)
    requires !HasIncomingEdgeFromNode(key, fromNode)
    ensures ForgetEdgeFromNode(key, fromNode) == key
  {
    WithoutAbsent(key.inboundEdges, fromNode.name);
  }

  lemma {:induction false} WithoutAbsent(edges: seq<string>, name: string)
    requires name !in edges
    ensures Without(edges, name) == edges
  {
    if edges != [] {
      WithoutAbsent(edges[1..], name);
    }
  }
}
