/** OrderTopologically of DbContextBulkExtensions.cs: Kahn's algorithm over one
    EntityKey per type group. A stack holds the nodes without inbound edges, a list
    the nodes that still have some; each popped node is appended to the sorted list
    and its name is forgotten by every node that has an edge from it. Nodes left
    with edges at the end are reported and dropped, and the popped order is
    reversed, so that a type comes before every type named in its inbound edges. */
module TopologicalOrder {
  import opened EntityKeys
  import opened Grouping

  // ---------------------------------------------------------------------------
  // Names of nodes
  // ---------------------------------------------------------------------------

  function Names(nodes: seq<EntityKey>): seq<string>
  {
    seq(|nodes|, i requires 0 <= i < |nodes| => nodes[i].name)
  }

  predicate Distinct(names: seq<string>)
  {
    forall i, j :: 0 <= i < j < |names| ==> names[i] != names[j]
  }

  lemma NamesConcat(a: seq<EntityKey>, b: seq<EntityKey>)
    ensures Names(a + b) == Names(a) + Names(b)
    ensures multiset(Names(a + b)) == multiset(Names(a)) + multiset(Names(b))
  {
    assert Names(a + b) == Names(a) + Names(b);
  }

  /** The names of a list built from a head and a tail. */
  lemma NamesCons(head: EntityKey, tail: seq<EntityKey>)
    ensures Names([head] + tail) == [head.name] + Names(tail)
    ensures multiset(Names([head] + tail)) == multiset{head.name} + multiset(Names(tail))
    ensures forall x :: x in Names([head] + tail) <==> x == head.name || x in Names(tail)
  {
    assert Names([head] + tail) == [head.name] + Names(tail);
  }

  lemma NamesMember(nodes: seq<EntityKey>, node: EntityKey)
    requires node in nodes
    ensures node.name in Names(nodes)
  {
    var i :| 0 <= i < |nodes| && nodes[i] == node;
    assert Names(nodes)[i] == node.name;
  }

  /** A list of names is free of repetitions exactly when no name occurs twice in it. */
  lemma {:induction false} DistinctCounts(names: seq<string>)
    ensures Distinct(names) <==> forall x :: multiset(names)[x] <= 1
  {
    if names != [] {
      var rest := names[1..];
      assert names == [names[0]] + rest;
      DistinctCounts(rest);
      if Distinct(names) {
        assert Distinct(rest) by {
          forall i, j | 0 <= i < j < |rest| ensures rest[i] != rest[j] {
            assert rest[i] == names[i + 1] && rest[j] == names[j + 1];
          }
        }
        assert names[0] !in rest by {
          forall k | 0 <= k < |rest| ensures rest[k] != names[0] {
            assert rest[k] == names[k + 1];
          }
        }
      }
      if forall x :: multiset(names)[x] <= 1 {
        assert forall x :: multiset(rest)[x] <= multiset(names)[x];
        assert names[0] !in rest by {
          assert multiset(names)[names[0]] == 1 + multiset(rest)[names[0]];
        }
        forall i, j | 0 <= i < j < |names| ensures names[i] != names[j] {
          assert names[j] == rest[j - 1];
          if i > 0 {
            assert names[i] == rest[i - 1];
          }
        }
      }
    }
  }

  // ---------------------------------------------------------------------------
  // The list operations OrderTopologically uses
  // ---------------------------------------------------------------------------

  /** `allNodes.Where(n => n.HasIncomingEdges)`. */
  function WithIncomingEdges(nodes: seq<EntityKey>): (r: seq<EntityKey>)
    ensures forall x :: x in r <==> x in nodes && HasIncomingEdges(x)
  {
    if nodes == [] then []
    else (if HasIncomingEdges(nodes[0]) then [nodes[0]] else []) + WithIncomingEdges(nodes[1..])
  }

  /** `allNodes.Except(nodesWithIncomingEdges)`: since keys compare by name and the names
      are distinct, this keeps the nodes without inbound edges, in order. */
  function WithoutIncomingEdges(nodes: seq<EntityKey>): (r: seq<EntityKey>)
    ensures forall x :: x in r <==> x in nodes && !HasIncomingEdges(x)
  {
    if nodes == [] then []
    else (if HasIncomingEdges(nodes[0]) then [] else [nodes[0]]) + WithoutIncomingEdges(nodes[1..])
  }

  /** The two filters split the nodes: every name lands in exactly one of them. */
  lemma {:induction false} SplitKeepsNames(nodes: seq<EntityKey>)
    ensures multiset(Names(WithIncomingEdges(nodes))) + multiset(Names(WithoutIncomingEdges(nodes)))
      == multiset(Names(nodes))
  {
    if nodes != [] {
      SplitKeepsNames(nodes[1..]);
      var head := [nodes[0]];
      assert nodes == head + nodes[1..];
      NamesConcat(head, nodes[1..]);
      NamesConcat(if HasIncomingEdges(nodes[0]) then head else [], WithIncomingEdges(nodes[1..]));
      NamesConcat(if HasIncomingEdges(nodes[0]) then [] else head, WithoutIncomingEdges(nodes[1..]));
    }
  }

  /** `nodesWithIncomingEdges.Where(n => n.HasIncomingEdgeFromNode(nodeN))`. */
  function WithIncomingEdgeFromNode(nodes: seq<EntityKey>, nodeN: EntityKey): (r: seq<EntityKey>)
    ensures forall x :: x in r <==> x in nodes && HasIncomingEdgeFromNode(x, nodeN)
    ensures multiset(Names(r)) <= multiset(Names(nodes))
  {
    if nodes == [] then []
    else
      var head := if HasIncomingEdgeFromNode(nodes[0], nodeN) then [nodes[0]] else [];
      var rest := WithIncomingEdgeFromNode(nodes[1..], nodeN);
      assert nodes == [nodes[0]] + nodes[1..];
      NamesConcat([nodes[0]], nodes[1..]);
      NamesConcat(head, rest);
      head + rest
  }

  /** `List.Remove(node)` with the name-only Equals: drops the first node with the same
      name, if there is one. */
  function RemoveFirst(nodes: seq<EntityKey>, node: EntityKey): (r: seq<EntityKey>)
    ensures node.name in Names(nodes) ==> multiset(Names(r)) == multiset(Names(nodes)) - multiset{node.name}
    ensures node.name !in Names(nodes) ==> r == nodes
    ensures forall x :: x in r ==> x in nodes
    ensures forall x :: x in nodes && !SameKey(x, node) ==> x in r
  {
    if nodes == [] then []
    else
      NamesCons(nodes[0], nodes[1..]);
      assert nodes == [nodes[0]] + nodes[1..];
      if SameKey(nodes[0], node) then nodes[1..]
      else
        var rest := RemoveFirst(nodes[1..], node);
        NamesCons(nodes[0], rest);
        [nodes[0]] + rest
  }

  // ---------------------------------------------------------------------------
  // What OrderTopologically promises
  // ---------------------------------------------------------------------------

  /** Every type comes before each type named in its inbound edges. */
  predicate DependenciesFirst(ordered: seq<Group>)
  {
    forall p, q :: 0 <= p < |ordered| && 0 <= q < |ordered| && ordered[q].key.name in ordered[p].key.inboundEdges ==> p < q
  }

  /** Every type named in an emitted type's inbound edges is emitted too. */
  predicate DependentsEmitted(ordered: seq<Group>)
  {
    forall g, e :: g in ordered && e in g.key.inboundEdges ==> e in KeyNames(ordered)
  }

  /** A dropped type still waits for a type that was never emitted: a type missing from
      the working set, or one that is itself dropped (a cycle or a self edge). */
  predicate Blocked(g: Group, ordered: seq<Group>)
  {
    exists e :: e in g.key.inboundEdges && e !in KeyNames(ordered)
  }

  /** The load order OrderTopologically returns for `groups`, with the names of the
      types it reports as impossible to order. */
  predicate IsLoadOrder(groups: seq<Group>, ordered: seq<Group>, unordered: seq<string>)
  {
    && (forall g :: g in ordered ==> g in groups)
    && DistinctKeys(ordered)
    && DependenciesFirst(ordered)
    && DependentsEmitted(ordered)
    && Distinct(unordered)
    && |ordered| + |unordered| == |groups|
    && (forall g :: g in groups ==> g in ordered || g.key.name in unordered)
    && (forall name :: name in unordered ==> name !in KeyNames(ordered) && name in KeyNames(groups))
    && (forall g :: g in groups && g.key.name in unordered ==> Blocked(g, ordered))
  }

  /** Only types of the working set are emitted. */
  lemma EmittedAreGrouped(groups: seq<Group>, ordered: seq<Group>, unordered: seq<string>)
    requires IsLoadOrder(groups, ordered, unordered)
    ensures KeyNames(ordered) <= KeyNames(groups)
  {
    forall name | name in KeyNames(ordered) ensures name in KeyNames(groups) {
      var g :| g in ordered && g.key.name == name;
      assert g in groups;
    }
  }

  /** A type waiting for a type outside the working set is never emitted. */
  lemma WaitingOnAbsentNotEmitted(groups: seq<Group>, ordered: seq<Group>, unordered: seq<string>, g: Group, x: string)
    requires IsLoadOrder(groups, ordered, unordered)
    requires g in groups && x in g.key.inboundEdges && x !in KeyNames(groups)
    ensures g !in ordered
    ensures g.key.name in unordered
  {
    EmittedAreGrouped(groups, ordered, unordered);
  }

  // ---------------------------------------------------------------------------
  // The algorithm
  // ---------------------------------------------------------------------------

  /** A node whose remaining edges are its original edges minus the names already sorted. */
  ghost predicate Tracks(node: EntityKey, lookup: map<string, Group>, done: set<string>)
  {
    && node.name in lookup
    && forall e :: e in node.inboundEdges <==> e in lookup[node.name].key.inboundEdges && e !in done
  }

  /** As Tracks, except that an edge from `skip` may not have been forgotten yet. */
  ghost predicate TracksExcept(node: EntityKey, lookup: map<string, Group>, done: set<string>, skip: string)
  {
    && node.name in lookup
    && forall e :: e != skip ==> (e in node.inboundEdges <==> e in lookup[node.name].key.inboundEdges && e !in done)
  }

  /** The state of the inner loop: `current` is the list so far, `released` the nodes
      pushed so far, `toRelease` the nodes with an edge from `nodeN` still to visit. */
  ghost predicate ReleaseInv(nodeN: EntityKey, withEdges: seq<EntityKey>, lookup: map<string, Group>, done: set<string>,
                             toRelease: seq<EntityKey>, current: seq<EntityKey>, released: seq<EntityKey>)
  {
    && multiset(Names(current)) + multiset(Names(released)) == multiset(Names(withEdges))
    && (forall node :: node in released ==> Tracks(node, lookup, done) && !HasIncomingEdges(node))
    && (forall node :: node in current ==> TracksExcept(node, lookup, done, nodeN.name) && HasIncomingEdges(node))
    && (forall node :: node in current && HasIncomingEdgeFromNode(node, nodeN) ==> node in toRelease)
    && (forall node :: node in toRelease ==> node in current)
    && Distinct(Names(toRelease))
  }

  lemma ReleaseStart(nodeN: EntityKey, withEdges: seq<EntityKey>, lookup: map<string, Group>, done: set<string>)
    requires nodeN.name in done
    requires forall node :: node in withEdges ==> Tracks(node, lookup, done - {nodeN.name}) && HasIncomingEdges(node)
    requires forall x :: multiset(Names(withEdges))[x] <= 1
    ensures ReleaseInv(nodeN, withEdges, lookup, done, WithIncomingEdgeFromNode(withEdges, nodeN), withEdges, [])
  {
    var fromN := WithIncomingEdgeFromNode(withEdges, nodeN);
    DistinctCounts(Names(fromN));
    assert Names([]) == [];
  }

  /** A node that has forgotten the popped node's edge tracks the new set of sorted names. */
  lemma RebasedTracks(nodeM: EntityKey, nodeN: EntityKey, lookup: map<string, Group>, done: set<string>)
    requires nodeN.name in done
    requires TracksExcept(nodeM, lookup, done, nodeN.name)
    ensures Tracks(ForgetEdgeFromNode(nodeM, nodeN), lookup, done)
  {
  }

  /** Removing a node from a list with distinct names removes exactly that node. */
  lemma RemoveFirstDistinct(nodes: seq<EntityKey>, node: EntityKey)
    requires node in nodes
    requires forall x :: multiset(Names(nodes))[x] <= 1
    ensures multiset(Names(RemoveFirst(nodes, node))) == multiset(Names(nodes)) - multiset{node.name}
    ensures forall x :: x in RemoveFirst(nodes, node) ==> x in nodes && x.name != node.name
    ensures forall x :: x in nodes && x.name != node.name ==> x in RemoveFirst(nodes, node)
  {
    var remaining := RemoveFirst(nodes, node);
    NamesMember(nodes, node);
    assert multiset(Names(nodes))[node.name] == 1;
    assert node.name !in multiset(Names(remaining));
    forall x | x in remaining ensures x.name != node.name {
      NamesMember(remaining, x);
    }
  }

  /** Dropping the head of a list with distinct names leaves distinct names, none of them
      the head's. */
  lemma DistinctTail(nodes: seq<EntityKey>)
    requires nodes != [] && Distinct(Names(nodes))
    ensures Distinct(Names(nodes[1..]))
    ensures forall x :: x in nodes[1..] ==> x.name != nodes[0].name
  {
    var later := nodes[1..];
    forall i, j | 0 <= i < j < |later| ensures Names(later)[i] != Names(later)[j] {
      assert Names(later)[i] == Names(nodes)[i + 1];
      assert Names(later)[j] == Names(nodes)[j + 1];
    }
    forall x | x in later ensures x.name != nodes[0].name {
      var j :| 0 <= j < |later| && later[j] == x;
      assert Names(nodes)[j + 1] == x.name;
      assert Names(nodes)[0] == nodes[0].name;
    }
  }

  /** What one visit of the inner loop does to the list, whichever way the node goes. */
  lemma ReleaseVisit(nodeN: EntityKey, withEdges: seq<EntityKey>, lookup: map<string, Group>, done: set<string>,
                     toRelease: seq<EntityKey>, current: seq<EntityKey>, released: seq<EntityKey>)
    requires nodeN.name in done
    requires forall x :: multiset(Names(withEdges))[x] <= 1
    requires ReleaseInv(nodeN, withEdges, lookup, done, toRelease, current, released)
    requires toRelease != []
    ensures var remaining := RemoveFirst(current, toRelease[0]);
            && Tracks(ForgetEdgeFromNode(toRelease[0], nodeN), lookup, done)
            && ForgetEdgeFromNode(toRelease[0], nodeN).name == toRelease[0].name
            && multiset(Names(remaining)) + multiset{toRelease[0].name} + multiset(Names(released)) == multiset(Names(withEdges))
            && (forall node :: node in remaining ==> TracksExcept(node, lookup, done, nodeN.name) && HasIncomingEdges(node))
            && (forall node :: node in remaining && HasIncomingEdgeFromNode(node, nodeN) ==> node in toRelease[1..])
            && (forall node :: node in toRelease[1..] ==> node in remaining)
            && Distinct(Names(toRelease[1..]))
  {
    var nodeM := toRelease[0];
    var remaining := RemoveFirst(current, nodeM);
    assert nodeM in toRelease;
    RebasedTracks(nodeM, nodeN, lookup, done);
    assert forall x :: multiset(Names(current))[x] <= 1 by {
      assert forall x :: multiset(Names(current))[x] <= multiset(Names(withEdges))[x];
    }
    RemoveFirstDistinct(current, nodeM);
    NamesMember(current, nodeM);
    DistinctTail(toRelease);
    var later := toRelease[1..];
    assert forall node :: node in later ==> node in toRelease;
    forall node | node in remaining && HasIncomingEdgeFromNode(node, nodeN) ensures node in later {
      assert node in current && node.name != nodeM.name;
      var j :| 0 <= j < |toRelease| && toRelease[j] == node;
      assert j != 0;
      assert later[j - 1] == node;
    }
  }

  lemma ReleaseStep(nodeN: EntityKey, withEdges: seq<EntityKey>, lookup: map<string, Group>, done: set<string>,
                    toRelease: seq<EntityKey>, current: seq<EntityKey>, released: seq<EntityKey>)
    requires nodeN.name in done
    requires forall x :: multiset(Names(withEdges))[x] <= 1
    requires ReleaseInv(nodeN, withEdges, lookup, done, toRelease, current, released)
    requires toRelease != []
    ensures var nodeM := toRelease[0];
            var rebased := ForgetEdgeFromNode(nodeM, nodeN);
            var remaining := RemoveFirst(current, nodeM);
            if HasIncomingEdges(rebased) then ReleaseInv(nodeN, withEdges, lookup, done, toRelease[1..], remaining + [rebased], released)
            else ReleaseInv(nodeN, withEdges, lookup, done, toRelease[1..], remaining, released + [rebased])
  {
    if HasIncomingEdges(ForgetEdgeFromNode(toRelease[0], nodeN)) {
      ReleaseKeep(nodeN, withEdges, lookup, done, toRelease, current, released);
    } else {
      ReleasePush(nodeN, withEdges, lookup, done, toRelease, current, released);
    }
  }

  /** A visited node that still has edges goes back to the end of the list. */
  lemma ReleaseKeep(nodeN: EntityKey, withEdges: seq<EntityKey>, lookup: map<string, Group>, done: set<string>,
                    toRelease: seq<EntityKey>, current: seq<EntityKey>, released: seq<EntityKey>)
    requires nodeN.name in done
    requires forall x :: multiset(Names(withEdges))[x] <= 1
    requires ReleaseInv(nodeN, withEdges, lookup, done, toRelease, current, released)
    requires toRelease != [] && HasIncomingEdges(ForgetEdgeFromNode(toRelease[0], nodeN))
    ensures ReleaseInv(nodeN, withEdges, lookup, done, toRelease[1..],
                       RemoveFirst(current, toRelease[0]) + [ForgetEdgeFromNode(toRelease[0], nodeN)], released)
  {
    var nodeM := toRelease[0];
    var rebased := ForgetEdgeFromNode(nodeM, nodeN);
    var remaining := RemoveFirst(current, nodeM);
    ReleaseVisit(nodeN, withEdges, lookup, done, toRelease, current, released);
    assert Names([rebased]) == [nodeM.name];
    NamesConcat(remaining, [rebased]);
    assert forall node :: node in remaining + [rebased] ==> node in remaining || node == rebased;
  }

  /** A visited node left without edges is pushed on the stack. */
  lemma ReleasePush(nodeN: EntityKey, withEdges: seq<EntityKey>, lookup: map<string, Group>, done: set<string>,
                    toRelease: seq<EntityKey>, current: seq<EntityKey>, released: seq<EntityKey>)
    requires nodeN.name in done
    requires forall x :: multiset(Names(withEdges))[x] <= 1
    requires ReleaseInv(nodeN, withEdges, lookup, done, toRelease, current, released)
    requires toRelease != [] && !HasIncomingEdges(ForgetEdgeFromNode(toRelease[0], nodeN))
    ensures ReleaseInv(nodeN, withEdges, lookup, done, toRelease[1..],
                       RemoveFirst(current, toRelease[0]), released + [ForgetEdgeFromNode(toRelease[0], nodeN)])
  {
    var nodeM := toRelease[0];
    var rebased := ForgetEdgeFromNode(nodeM, nodeN);
    var remaining := RemoveFirst(current, nodeM);
    ReleaseVisit(nodeN, withEdges, lookup, done, toRelease, current, released);
    assert Names([rebased]) == [nodeM.name];
    NamesConcat(released, [rebased]);
    assert forall node :: node in released + [rebased] ==> node in released || node == rebased;
  }

  lemma ReleaseEnd(nodeN: EntityKey, withEdges: seq<EntityKey>, lookup: map<string, Group>, done: set<string>,
                   current: seq<EntityKey>, released: seq<EntityKey>)
    requires nodeN.name in done
    requires ReleaseInv(nodeN, withEdges, lookup, done, [], current, released)
    ensures forall node :: node in current ==> Tracks(node, lookup, done) && HasIncomingEdges(node)
  {
  }

  /** The inner loop of OrderTopologically: every node that has an edge from the popped
      node forgets it, and is pushed on the stack when no edge remains, or moved to the
      end of the list otherwise. */
  method ReleaseDependents(nodeN: EntityKey, withEdges: seq<EntityKey>, stack: seq<EntityKey>,
                           ghost lookup: map<string, Group>, ghost done: set<string>)
    returns (withEdges': seq<EntityKey>, stack': seq<EntityKey>, ghost released: seq<EntityKey>)
    requires nodeN.name in done
    requires forall node :: node in withEdges ==> Tracks(node, lookup, done - {nodeN.name}) && HasIncomingEdges(node)
    requires forall x :: multiset(Names(withEdges))[x] <= 1
    ensures stack' == stack + released
    ensures multiset(Names(withEdges')) + multiset(Names(released)) == multiset(Names(withEdges))
    ensures forall node :: node in released ==> Tracks(node, lookup, done) && !HasIncomingEdges(node)
    ensures forall node :: node in withEdges' ==> Tracks(node, lookup, done) && HasIncomingEdges(node)
  {
    var nodesWithIncomingEdgesFromNodeN := WithIncomingEdgeFromNode(withEdges, nodeN);
    var toRelease := nodesWithIncomingEdgesFromNodeN;
    withEdges', stack', released := withEdges, stack, [];
    ReleaseStart(nodeN, withEdges, lookup, done);
    while toRelease != []
      invariant stack' == stack + released
      invariant ReleaseInv(nodeN, withEdges, lookup, done, toRelease, withEdges', released)
      decreases |toRelease|
    {
      var nodeM := toRelease[0];
      var rebasedNodeM := ForgetEdgeFromNode(nodeM, nodeN);
      ReleaseStep(nodeN, withEdges, lookup, done, toRelease, withEdges', released);
      if !HasIncomingEdges(rebasedNodeM) {
        withEdges' := RemoveFirst(withEdges', nodeM);
        stack' := stack' + [rebasedNodeM];
        released := released + [rebasedNodeM];
      } else {
        withEdges' := RemoveFirst(withEdges', nodeM) + [rebasedNodeM];
      }
      toRelease := toRelease[1..];
    }
    ReleaseEnd(nodeN, withEdges, lookup, done, withEdges', released);
  }

  /** The keys of the groups (`entitiesPerType.Select(g => g.Key)`). */
  function Keys(groups: seq<Group>): seq<EntityKey>
  {
    seq(|groups|, i requires 0 <= i < |groups| => groups[i].key)
  }

  /** Two groups of a grouping with distinct keys that share a name are the same group. */
  lemma SameNameSameGroup(groups: seq<Group>, g: Group, h: Group)
    requires DistinctKeys(groups) && g in groups && h in groups && g.key.name == h.key.name
    ensures g == h
  {
    var i :| 0 <= i < |groups| && groups[i] == g;
    var j :| 0 <= j < |groups| && groups[j] == h;
    assert !(i < j) && !(j < i);
  }

  /** The popped prefix respects the original edges: each sorted node's original edges
      are all sorted, and sorted earlier. */
  ghost predicate SortedRespectsEdges(sorted: seq<EntityKey>, lookup: map<string, Group>, done: set<string>)
  {
    && (forall i :: 0 <= i < |sorted| ==> sorted[i].name in lookup)
    && (forall i, e :: 0 <= i < |sorted| && e in lookup[sorted[i].name].key.inboundEdges ==> e in done)
    && (forall i, j :: (0 <= i < |sorted| && 0 <= j < |sorted|
          && sorted[j].name in lookup[sorted[i].name].key.inboundEdges) ==> j < i)
  }

  /** The state of the outer loop. */
  ghost predicate KahnInv(lookup: map<string, Group>, allNodes: seq<EntityKey>, sorted: seq<EntityKey>,
                          stack: seq<EntityKey>, withEdges: seq<EntityKey>, done: set<string>)
  {
    && multiset(Names(sorted)) + multiset(Names(stack)) + multiset(Names(withEdges)) == multiset(Names(allNodes))
    && (forall x :: x in done <==> x in Names(sorted))
    && (forall node :: node in stack ==> Tracks(node, lookup, done) && !HasIncomingEdges(node))
    && (forall node :: node in withEdges ==> Tracks(node, lookup, done) && HasIncomingEdges(node))
    && SortedRespectsEdges(sorted, lookup, done)
  }

  /** The names of the keys of a grouping with distinct keys occur once each. */
  lemma KeysOnce(groups: seq<Group>)
    requires DistinctKeys(groups)
    ensures forall x :: multiset(Names(Keys(groups)))[x] <= 1
  {
    var names := Names(Keys(groups));
    assert Distinct(names) by {
      forall i, j | 0 <= i < j < |names| ensures names[i] != names[j] {
        assert names[i] == groups[i].key.name && names[j] == groups[j].key.name;
      }
    }
    DistinctCounts(names);
  }

  /** Before anything is sorted, every key tracks its own group's edges. */
  lemma KeysTrack(groups: seq<Group>, lookup: map<string, Group>)
    requires DistinctKeys(groups) && lookup == ToLookup(groups)
    ensures forall node :: node in Keys(groups) ==> Tracks(node, lookup, {})
  {
    var allNodes := Keys(groups);
    forall node | node in allNodes ensures Tracks(node, lookup, {}) {
      var i :| 0 <= i < |allNodes| && allNodes[i] == node;
      assert groups[i] in groups;
      assert node.name in KeyNames(groups);
      SameNameSameGroup(groups, lookup[node.name], groups[i]);
    }
  }

  lemma KahnStart(groups: seq<Group>, lookup: map<string, Group>)
    requires DistinctKeys(groups) && lookup == ToLookup(groups)
    ensures forall x :: multiset(Names(Keys(groups)))[x] <= 1
    ensures KahnInv(lookup, Keys(groups), [], WithoutIncomingEdges(Keys(groups)), WithIncomingEdges(Keys(groups)), {})
  {
    var allNodes := Keys(groups);
    KeysOnce(groups);
    KeysTrack(groups, lookup);
    SplitKeepsNames(allNodes);
    assert Names([]) == [];
  }

  /** The popped node is new, and the name counts carry over to the next round. */
  lemma PopFresh(allNodes: seq<EntityKey>, sorted: seq<EntityKey>, stack: seq<EntityKey>,
                 withEdges: seq<EntityKey>, done: set<string>)
    requires forall x :: multiset(Names(allNodes))[x] <= 1
    requires multiset(Names(sorted)) + multiset(Names(stack)) + multiset(Names(withEdges)) == multiset(Names(allNodes))
    requires forall x :: x in done <==> x in Names(sorted)
    requires stack != []
    ensures stack[|stack| - 1].name !in done
    ensures |sorted| < |allNodes|
    ensures forall x :: multiset(Names(withEdges))[x] <= 1
    ensures forall x :: x in Names(sorted + [stack[|stack| - 1]]) <==> x in done || x == stack[|stack| - 1].name
    ensures multiset(Names(sorted + [stack[|stack| - 1]])) + multiset(Names(stack[..|stack| - 1])) + multiset(Names(withEdges))
      == multiset(Names(allNodes))
  {
    var top := |stack| - 1;
    var nodeN := stack[top];
    var rest := stack[..top];
    assert stack == rest + [nodeN];
    NamesConcat(rest, [nodeN]);
    NamesConcat(sorted, [nodeN]);
    assert Names([nodeN]) == [nodeN.name];
    assert nodeN.name !in done by {
      assert multiset(Names(allNodes))[nodeN.name] <= 1;
    }
    assert |sorted + [nodeN]| <= |allNodes| by {
      assert |multiset(Names(sorted + [nodeN]))| <= |multiset(Names(allNodes))|;
    }
    assert forall x :: multiset(Names(withEdges))[x] <= multiset(Names(allNodes))[x];
  }

  /** Appending a node with no edges left keeps the popped prefix consistent with the edges. */
  lemma PopEdges(lookup: map<string, Group>, sorted: seq<EntityKey>, done: set<string>, nodeN: EntityKey)
    requires SortedRespectsEdges(sorted, lookup, done)
    requires Tracks(nodeN, lookup, done) && !HasIncomingEdges(nodeN)
    requires nodeN.name !in done
    ensures SortedRespectsEdges(sorted + [nodeN], lookup, done + {nodeN.name})
  {
    var done' := done + {nodeN.name};
    var sorted' := sorted + [nodeN];
    forall e | e in lookup[nodeN.name].key.inboundEdges ensures e in done {
      assert e !in nodeN.inboundEdges;
    }
    forall i, j | 0 <= i < |sorted'| && 0 <= j < |sorted'| && sorted'[j].name in lookup[sorted'[i].name].key.inboundEdges
      ensures j < i
    {
      if j == |sorted| {
        assert false;
      }
    }
  }

  /** Marking a name as sorted keeps the stacked nodes tracking their edges. */
  lemma PopTracks(lookup: map<string, Group>, rest: seq<EntityKey>, withEdges: seq<EntityKey>,
                  done: set<string>, name: string)
    requires forall node :: node in rest ==> Tracks(node, lookup, done) && !HasIncomingEdges(node)
    requires forall node :: node in withEdges ==> Tracks(node, lookup, done) && HasIncomingEdges(node)
    requires name !in done
    ensures forall node :: node in withEdges ==> Tracks(node, lookup, (done + {name}) - {name}) && HasIncomingEdges(node)
    ensures forall node :: node in rest ==> Tracks(node, lookup, done + {name}) && !HasIncomingEdges(node)
  {
    assert (done + {name}) - {name} == done;
  }

  /** The state between popping `nodeN` (already appended to `sorted` and `done`) and
      releasing its dependents; `rest` is the stack without it. */
  ghost predicate Popped(lookup: map<string, Group>, allNodes: seq<EntityKey>, sorted: seq<EntityKey>,
                         rest: seq<EntityKey>, withEdges: seq<EntityKey>, done: set<string>, nodeN: EntityKey)
  {
    && nodeN.name in done
    && (forall node :: node in withEdges ==> Tracks(node, lookup, done - {nodeN.name}) && HasIncomingEdges(node))
    && (forall x :: multiset(Names(withEdges))[x] <= 1)
    && SortedRespectsEdges(sorted, lookup, done)
    && (forall x :: x in done <==> x in Names(sorted))
    && (forall node :: node in rest ==> Tracks(node, lookup, done) && !HasIncomingEdges(node))
    && multiset(Names(sorted)) + multiset(Names(rest)) + multiset(Names(withEdges)) == multiset(Names(allNodes))
  }

  /** Popping the top of the stack keeps the popped prefix consistent with the edges and
      sets up the inner loop. */
  lemma PopStep(lookup: map<string, Group>, allNodes: seq<EntityKey>, sorted: seq<EntityKey>,
                stack: seq<EntityKey>, withEdges: seq<EntityKey>, done: set<string>)
    requires forall x :: multiset(Names(allNodes))[x] <= 1
    requires KahnInv(lookup, allNodes, sorted, stack, withEdges, done)
    requires stack != []
    ensures |sorted| < |allNodes|
    ensures Popped(lookup, allNodes, sorted + [stack[|stack| - 1]], stack[..|stack| - 1], withEdges,
                   done + {stack[|stack| - 1].name}, stack[|stack| - 1])
  {
    var top := |stack| - 1;
    var nodeN := stack[top];
    PopFresh(allNodes, sorted, stack, withEdges, done);
    assert nodeN in stack;
    PopEdges(lookup, sorted, done, nodeN);
    assert forall node :: node in stack[..top] ==> node in stack;
    PopTracks(lookup, stack[..top], withEdges, done, nodeN.name);
  }

  /** Pushing the released nodes restores the outer-loop state. */
  lemma PopEnd(lookup: map<string, Group>, allNodes: seq<EntityKey>, sorted: seq<EntityKey>,
               rest: seq<EntityKey>, withEdges: seq<EntityKey>, done: set<string>, nodeN: EntityKey,
               withEdges': seq<EntityKey>, released: seq<EntityKey>)
    requires Popped(lookup, allNodes, sorted, rest, withEdges, done, nodeN)
    requires multiset(Names(withEdges')) + multiset(Names(released)) == multiset(Names(withEdges))
    requires forall node :: node in released ==> Tracks(node, lookup, done) && !HasIncomingEdges(node)
    requires forall node :: node in withEdges' ==> Tracks(node, lookup, done) && HasIncomingEdges(node)
    ensures KahnInv(lookup, allNodes, sorted, rest + released, withEdges', done)
  {
    NamesConcat(rest, released);
  }

  method OrderTopologically(entitiesPerType: seq<Group>) returns (ordered: seq<Group>, unordered: seq<string>)
    requires DistinctKeys(entitiesPerType)
    ensures IsLoadOrder(entitiesPerType, ordered, unordered)
  {
    ghost var lookup := ToLookup(entitiesPerType);
    var sortedNodes: seq<EntityKey> := [];
    var allNodes := Keys(entitiesPerType);
    var nodesWithIncomingEdges := WithIncomingEdges(allNodes);
    // The stack is built from this sequence, so its last element is the top.
    var nodesWithoutIncomingEdges := WithoutIncomingEdges(allNodes);
    ghost var done: set<string> := {};
    KahnStart(entitiesPerType, lookup);

    while nodesWithoutIncomingEdges != []
      invariant KahnInv(lookup, allNodes, sortedNodes, nodesWithoutIncomingEdges, nodesWithIncomingEdges, done)
      decreases |allNodes| - |sortedNodes|
    {
      PopStep(lookup, allNodes, sortedNodes, nodesWithoutIncomingEdges, nodesWithIncomingEdges, done);
      var top := |nodesWithoutIncomingEdges| - 1;
      var nodeN := nodesWithoutIncomingEdges[top];
      var rest := nodesWithoutIncomingEdges[..top];
      sortedNodes := sortedNodes + [nodeN];
      done := done + {nodeN.name};
      ghost var withEdgesBefore := nodesWithIncomingEdges;
      assert Popped(lookup, allNodes, sortedNodes, rest, withEdgesBefore, done, nodeN);
      ghost var released;
      nodesWithIncomingEdges, nodesWithoutIncomingEdges, released :=
        ReleaseDependents(nodeN, nodesWithIncomingEdges, rest, lookup, done);
      PopEnd(lookup, allNodes, sortedNodes, rest, withEdgesBefore, done, nodeN, nodesWithIncomingEdges, released);
    }

    if nodesWithIncomingEdges != [] {
      // The C# code writes the names of these nodes to the console and drops them.
      unordered := Names(nodesWithIncomingEdges);
    } else {
      unordered := [];
    }
    KahnEnd(lookup, allNodes, sortedNodes, nodesWithIncomingEdges, done);
    var entitiesPerTypeLookup := ToLookup(entitiesPerType);
    assert entitiesPerTypeLookup == lookup;
    ordered := LoadOrder(entitiesPerTypeLookup, sortedNodes);
    LoadOrderMirrors(lookup, sortedNodes);
    Conclude(entitiesPerType, lookup, sortedNodes, nodesWithIncomingEdges, done, ordered, unordered);
  }

  /** `ordered` is `sorted` reversed, each key replaced by its group. */
  ghost predicate Mirrors(lookup: map<string, Group>, sorted: seq<EntityKey>, ordered: seq<Group>)
  {
    && |ordered| == |sorted|
    && (forall i :: 0 <= i < |sorted| ==> sorted[i].name in lookup)
    && forall p :: 0 <= p < |ordered| ==> ordered[p] == lookup[sorted[|sorted| - 1 - p].name]
  }

  /** The key popped `j`-th is emitted `j`-th from the end. */
  lemma MirrorAt(lookup: map<string, Group>, sorted: seq<EntityKey>, ordered: seq<Group>, j: nat)
    requires Mirrors(lookup, sorted, ordered) && j < |sorted|
    ensures sorted[j].name in lookup && ordered[|sorted| - 1 - j] == lookup[sorted[j].name]
  {
    var p := |sorted| - 1 - j;
    assert |sorted| - 1 - p == j;
  }

  /** `sortedNodes.Select(n => entitiesPerTypeLookup[n]).Reverse()`: the groups of the
      popped keys, last popped first. */
  function LoadOrder(lookup: map<string, Group>, sorted: seq<EntityKey>): seq<Group>
    requires forall i :: 0 <= i < |sorted| ==> sorted[i].name in lookup
  {
    var n := |sorted|;
    seq(n, p requires 0 <= p < n => lookup[sorted[n - 1 - p].name])
  }

  /** Unfolds LoadOrder into Mirrors, outside the larger context of OrderTopologically. */
  lemma LoadOrderMirrors(lookup: map<string, Group>, sorted: seq<EntityKey>)
    requires forall i :: 0 <= i < |sorted| ==> sorted[i].name in lookup
    ensures Mirrors(lookup, sorted, LoadOrder(lookup, sorted))
  {
  }

  /** The emitted groups carry exactly the popped names, in reverse pop order. */
  lemma ConcludeNames(groups: seq<Group>, lookup: map<string, Group>, sorted: seq<EntityKey>, done: set<string>,
                      ordered: seq<Group>)
    requires forall name :: name in lookup ==> lookup[name] in groups && lookup[name].key.name == name
    requires Mirrors(lookup, sorted, ordered)
    requires forall x :: x in done <==> x in Names(sorted)
    ensures forall g :: g in ordered ==> g in groups
    ensures forall p :: 0 <= p < |ordered| ==> ordered[p].key.name == Names(sorted)[|sorted| - 1 - p]
    ensures KeyNames(ordered) == done
  {
    var n := |sorted|;
    forall p | 0 <= p < n ensures ordered[p] in groups && ordered[p].key.name == Names(sorted)[n - 1 - p] {
      assert sorted[n - 1 - p].name in lookup;
    }
    forall g | g in ordered ensures g in groups {
      var p :| 0 <= p < n && ordered[p] == g;
    }
    forall x ensures x in KeyNames(ordered) <==> x in done {
      if x in done {
        var j :| 0 <= j < n && Names(sorted)[j] == x;
        assert ordered[n - 1 - j] in ordered;
      }
      if x in KeyNames(ordered) {
        var g :| g in ordered && g.key.name == x;
        var p :| 0 <= p < n && ordered[p] == g;
        assert Names(sorted)[n - 1 - p] == x;
      }
    }
  }

  /** No type is emitted twice. */
  lemma ConcludeDistinct(sorted: seq<EntityKey>, ordered: seq<Group>)
    requires |ordered| == |sorted| && Distinct(Names(sorted))
    requires forall p :: 0 <= p < |ordered| ==> ordered[p].key.name == Names(sorted)[|sorted| - 1 - p]
    ensures DistinctKeys(ordered)
  {
    var n := |sorted|;
    forall p, q | 0 <= p < q < n ensures ordered[p].key.name != ordered[q].key.name {
      assert Names(sorted)[n - 1 - q] != Names(sorted)[n - 1 - p];
    }
  }

  /** Reversing the pop order puts every type before the types that depend on it. */
  lemma ConcludeEdges(lookup: map<string, Group>, sorted: seq<EntityKey>, done: set<string>, ordered: seq<Group>)
    requires Mirrors(lookup, sorted, ordered)
    requires SortedRespectsEdges(sorted, lookup, done)
    requires KeyNames(ordered) == done
    requires forall p :: 0 <= p < |ordered| ==> ordered[p].key.name == Names(sorted)[|sorted| - 1 - p]
    ensures DependenciesFirst(ordered)
    ensures DependentsEmitted(ordered)
  {
    var n := |sorted|;
    forall p, q | 0 <= p < n && 0 <= q < n && ordered[q].key.name in ordered[p].key.inboundEdges
      ensures p < q
    {
      assert Names(sorted)[n - 1 - q] == sorted[n - 1 - q].name;
      assert sorted[n - 1 - q].name in lookup[sorted[n - 1 - p].name].key.inboundEdges;
    }
    forall g, e | g in ordered && e in g.key.inboundEdges ensures e in KeyNames(ordered) {
      var p :| 0 <= p < n && ordered[p] == g;
      assert e in lookup[sorted[n - 1 - p].name].key.inboundEdges;
    }
  }

  /** Every type is either emitted or reported. */
  lemma ConcludeCovered(groups: seq<Group>, lookup: map<string, Group>, sorted: seq<EntityKey>, stuck: seq<EntityKey>,
                        done: set<string>, ordered: seq<Group>)
    requires DistinctKeys(groups) && lookup == ToLookup(groups)
    requires multiset(Names(sorted)) + multiset(Names(stuck)) == multiset(Names(Keys(groups)))
    requires forall x :: x in done <==> x in Names(sorted)
    requires Mirrors(lookup, sorted, ordered)
    ensures forall g :: g in groups ==> g in ordered || g.key.name in Names(stuck)
  {
    forall g | g in groups ensures g in ordered || g.key.name in Names(stuck) {
      CoveredOne(groups, lookup, sorted, stuck, ordered, g);
    }
  }

  /** One type of the working set is emitted or reported. */
  lemma CoveredOne(groups: seq<Group>, lookup: map<string, Group>, sorted: seq<EntityKey>, stuck: seq<EntityKey>,
                   ordered: seq<Group>, g: Group)
    requires DistinctKeys(groups)
    requires forall name :: name in lookup ==> lookup[name] in groups && lookup[name].key.name == name
    requires multiset(Names(sorted)) + multiset(Names(stuck)) == multiset(Names(Keys(groups)))
    requires Mirrors(lookup, sorted, ordered)
    requires g in groups
    ensures g in ordered || g.key.name in Names(stuck)
  {
    var i :| 0 <= i < |groups| && groups[i] == g;
    assert Names(Keys(groups))[i] == g.key.name;
    assert g.key.name in multiset(Names(Keys(groups)));
    if g.key.name in Names(sorted) {
      var n := |sorted|;
      var j :| 0 <= j < n && Names(sorted)[j] == g.key.name;
      SameNameSameGroup(groups, lookup[g.key.name], g);
      assert sorted[j].name == g.key.name;
      MirrorAt(lookup, sorted, ordered, j);
    }
  }

  /** A reported name belongs to a type of the working set that was not emitted. */
  lemma ConcludeReported(groups: seq<Group>, sorted: seq<EntityKey>, stuck: seq<EntityKey>, done: set<string>,
                         ordered: seq<Group>)
    requires multiset(Names(sorted)) + multiset(Names(stuck)) == multiset(Names(Keys(groups)))
    requires forall x :: multiset(Names(Keys(groups)))[x] <= 1
    requires forall x :: x in done <==> x in Names(sorted)
    requires KeyNames(ordered) == done
    ensures forall name :: name in Names(stuck) ==> name !in KeyNames(ordered) && name in KeyNames(groups)
  {
    forall name | name in Names(stuck) ensures name !in KeyNames(ordered) && name in KeyNames(groups) {
      assert multiset(Names(Keys(groups)))[name] == multiset(Names(sorted))[name] + multiset(Names(stuck))[name];
      var i :| 0 <= i < |groups| && Names(Keys(groups))[i] == name;
      assert groups[i] in groups;
    }
  }

  /** A reported type still waits on a type that was not emitted. */
  lemma ConcludeBlocked(groups: seq<Group>, lookup: map<string, Group>, stuck: seq<EntityKey>, done: set<string>,
                        ordered: seq<Group>)
    requires DistinctKeys(groups) && lookup == ToLookup(groups)
    requires forall node :: node in stuck ==> Tracks(node, lookup, done) && HasIncomingEdges(node)
    requires KeyNames(ordered) == done
    ensures forall g :: g in groups && g.key.name in Names(stuck) ==> Blocked(g, ordered)
  {
    forall g | g in groups && g.key.name in Names(stuck) ensures Blocked(g, ordered) {
      var k :| 0 <= k < |stuck| && Names(stuck)[k] == g.key.name;
      var node := stuck[k];
      assert node in stuck;
      SameNameSameGroup(groups, lookup[node.name], g);
      var e := node.inboundEdges[0];
      assert e in node.inboundEdges;
    }
  }

  /** What the outer loop's invariant says once the stack is empty. */
  lemma KahnEnd(lookup: map<string, Group>, allNodes: seq<EntityKey>, sorted: seq<EntityKey>, stuck: seq<EntityKey>,
                done: set<string>)
    requires KahnInv(lookup, allNodes, sorted, [], stuck, done)
    ensures multiset(Names(sorted)) + multiset(Names(stuck)) == multiset(Names(allNodes))
    ensures forall x :: x in done <==> x in Names(sorted)
    ensures forall node :: node in stuck ==> Tracks(node, lookup, done) && HasIncomingEdges(node)
    ensures SortedRespectsEdges(sorted, lookup, done)
  {
    assert Names([]) == [];
  }

  /** The facts the loop leaves behind give the load-order contract. */
  lemma Conclude(groups: seq<Group>, lookup: map<string, Group>, sorted: seq<EntityKey>, stuck: seq<EntityKey>,
                 done: set<string>, ordered: seq<Group>, unordered: seq<string>)
    requires DistinctKeys(groups) && lookup == ToLookup(groups)
    requires forall x :: multiset(Names(Keys(groups)))[x] <= 1
    requires multiset(Names(sorted)) + multiset(Names(stuck)) == multiset(Names(Keys(groups)))
    requires forall x :: x in done <==> x in Names(sorted)
    requires forall node :: node in stuck ==> Tracks(node, lookup, done) && HasIncomingEdges(node)
    requires SortedRespectsEdges(sorted, lookup, done)
    requires unordered == Names(stuck)
    requires Mirrors(lookup, sorted, ordered)
    ensures IsLoadOrder(groups, ordered, unordered)
  {
    assert forall x :: multiset(Names(sorted))[x] <= multiset(Names(Keys(groups)))[x];
    assert forall x :: multiset(Names(stuck))[x] <= multiset(Names(Keys(groups)))[x];
    DistinctCounts(Names(sorted));
    DistinctCounts(Names(stuck));
    ConcludeNames(groups, lookup, sorted, done, ordered);
    ConcludeDistinct(sorted, ordered);
    ConcludeEdges(lookup, sorted, done, ordered);
    ConcludeCovered(groups, lookup, sorted, stuck, done, ordered);
    ConcludeReported(groups, sorted, stuck, done, ordered);
    ConcludeBlocked(groups, lookup, stuck, done, ordered);
    assert |multiset(Names(sorted))| + |multiset(Names(stuck))| == |multiset(Names(Keys(groups)))|;
  }

  // ---------------------------------------------------------------------------
  // When nothing is dropped
  // ---------------------------------------------------------------------------

  /** `rank` witnesses that the edges among `groups` are acyclic and stay inside the
      working set: every edge names a type of the working set with a lower rank. */
  predicate Ranked(groups: seq<Group>, rank: map<string, nat>)
  {
    && (forall g :: g in groups ==> g.key.name in rank)
    && forall g, e :: g in groups && e in g.key.inboundEdges ==>
         e in KeyNames(groups) && e in rank && rank[e] < rank[g.key.name]
  }

  lemma {:induction false} RankedNotDropped(groups: seq<Group>, ordered: seq<Group>, unordered: seq<string>,
                                            rank: map<string, nat>, g: Group)
    requires IsLoadOrder(groups, ordered, unordered) && Ranked(groups, rank)
    requires g in groups
    ensures g.key.name !in unordered
    decreases rank[g.key.name]
  {
    if g.key.name in unordered {
      assert Blocked(g, ordered);
      var e :| e in g.key.inboundEdges && e !in KeyNames(ordered);
      assert e in KeyNames(groups);
      var h :| h in groups && h.key.name == e;
      RankedNotDropped(groups, ordered, unordered, rank, h);
      assert false;
    }
  }

  /** Over an acyclic working set closed under edges, OrderTopologically drops nothing:
      every group is emitted. */
  lemma RankedNothingDropped(groups: seq<Group>, ordered: seq<Group>, unordered: seq<string>, rank: map<string, nat>)
    requires IsLoadOrder(groups, ordered, unordered) && Ranked(groups, rank)
    ensures unordered == []
    ensures forall g :: g in groups ==> g in ordered
  {
    if unordered != [] {
      assert unordered[0] in unordered;
      var g :| g in groups && g.key.name == unordered[0];
      RankedNotDropped(groups, ordered, unordered, rank, g);
    }
    forall g | g in groups ensures g in ordered {
      RankedNotDropped(groups, ordered, unordered, rank, g);
    }
  }

  /** Two types that each wait for the other are never emitted. */
  lemma TwoCycleDropped(groups: seq<Group>, ordered: seq<Group>, unordered: seq<string>, g: Group, h: Group)
    requires DistinctKeys(groups) && IsLoadOrder(groups, ordered, unordered)
    requires g in groups && h in groups
    requires h.key.name in g.key.inboundEdges && g.key.name in h.key.inboundEdges
    ensures g !in ordered && h !in ordered
  {
  }
}
