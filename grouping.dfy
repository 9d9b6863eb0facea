/** `GroupBy(EntityKey.Create, e => e.Entity)` over the state entries: one group per
    entity type, keyed by the EntityKey of the first entry of that type (keys compare
    by name only), holding the entities of that type in entry order. */
module Grouping {
  import opened Results
  import opened StateEntries
  import opened EntityKeys

  datatype Group = Group(key: EntityKey, entities: seq<Entity>)

  predicate DistinctKeys(groups: seq<Group>)
  {
    forall i, j :: 0 <= i < j < |groups| ==> groups[i].key.name != groups[j].key.name
  }

  function KeyNames(groups: seq<Group>): set<string>
  {
    set g | g in groups :: g.key.name
  }

  /** Number of entities over all groups. */
  function TotalSize(groups: seq<Group>): nat
  {
    if groups == [] then 0 else |groups[0].entities| + TotalSize(groups[1..])
  }

  /** The first group whose key has the given name. */
  function Find(groups: seq<Group>, name: string): (found: Option<Group>)
    ensures found.Some? ==> found.value in groups && found.value.key.name == name
    ensures found.None? <==> name !in KeyNames(groups)
  {
    if groups == [] then None
    else if groups[0].key.name == name then Some(groups[0])
    else Find(groups[1..], name)
  }

  function EntitiesOf(groups: seq<Group>, name: string): seq<Entity>
  {
    match Find(groups, name)
    case Some(g) => g.entities
    case None => []
  }

  function KeyOf(groups: seq<Group>, name: string): Option<EntityKey>
  {
    match Find(groups, name)
    case Some(g) => Some(g.key)
    case None => None
  }

  /** The key EntityKey.Create builds for the first entry of type `name`, if any. */
  function FirstKey(entries: seq<Entry>, name: string): Option<EntityKey>
  {
    if entries == [] then None
    else
      var last := entries[|entries| - 1];
      var earlier := FirstKey(entries[..|entries| - 1], name);
      if earlier.Some? then earlier
      else if last.typeName == name then Some(KeyFor(last))
      else None
  }

  /** An entry of a non-empty list is among all but the last, or is the last. */
  lemma SplitLast(entries: seq<Entry>)
    requires entries != []
    ensures forall e :: e in entries <==> e in entries[..|entries| - 1] || e == entries[|entries| - 1]
  {
    assert entries == entries[..|entries| - 1] + [entries[|entries| - 1]];
  }

  /** The first key of a type is the key built for one of its entries. */
  lemma {:induction false} FirstKeyOfEntry(entries: seq<Entry>, name: string)
    ensures FirstKey(entries, name).Some? <==> exists e :: e in entries && e.typeName == name
    ensures FirstKey(entries, name).Some? ==>
      exists e :: e in entries && e.typeName == name && FirstKey(entries, name).value == KeyFor(e)
  {
    if entries != [] {
      var n := |entries| - 1;
      FirstKeyOfEntry(entries[..n], name);
      SplitLast(entries);
    }
  }

  /** Adds one entry to the grouping built so far: to the group of its type if there is
      one, otherwise as a new group at the end. */
  function Insert(groups: seq<Group>, entry: Entry): (grown: seq<Group>)
    ensures KeyNames(grown) == KeyNames(groups) + {entry.typeName}
    ensures forall g :: g in grown ==> g in groups || g.key.name == entry.typeName
  {
    if groups == [] then
      [Group(KeyFor(entry), [entry.entity])]
    else if groups[0].key.name == entry.typeName then
      var grown := [Group(groups[0].key, groups[0].entities + [entry.entity])] + groups[1..];
      assert KeyNames(grown) == KeyNames(groups) by {
        assert forall g :: g in grown ==> g == grown[0] || g in groups[1..];
        assert forall g :: g in groups[1..] ==> g in grown;
      }
      grown
    else
      var rest := Insert(groups[1..], entry);
      var grown := [groups[0]] + rest;
      assert KeyNames(grown) == {groups[0].key.name} + KeyNames(rest);
      assert KeyNames(groups) == {groups[0].key.name} + KeyNames(groups[1..]);
      grown
  }

  /** The tail of groups with distinct keys has distinct keys, none of them the head's. */
  lemma DistinctKeysTail(groups: seq<Group>)
    requires DistinctKeys(groups) && groups != []
    ensures DistinctKeys(groups[1..])
    ensures groups[0].key.name !in KeyNames(groups[1..])
  {
    forall g | g in groups[1..] ensures g.key.name != groups[0].key.name {
      var j :| 0 <= j < |groups[1..]| && groups[1..][j] == g;
      assert groups[j + 1] == g;
    }
  }

  /** A group whose name is new in front of groups with distinct keys keeps them distinct. */
  lemma DistinctCons(g: Group, rest: seq<Group>)
    requires DistinctKeys(rest) && g.key.name !in KeyNames(rest)
    ensures DistinctKeys([g] + rest)
  {
    var grown := [g] + rest;
    forall i, j | 0 <= i < j < |grown| ensures grown[i].key.name != grown[j].key.name {
      assert grown[j] == rest[j - 1] && rest[j - 1] in rest;
      if i > 0 {
        assert grown[i] == rest[i - 1];
      }
    }
  }

  lemma {:induction false} InsertDistinct(groups: seq<Group>, entry: Entry)
    requires DistinctKeys(groups)
    ensures DistinctKeys(Insert(groups, entry))
  {
    if groups != [] {
      DistinctKeysTail(groups);
      if groups[0].key.name == entry.typeName {
        DistinctCons(Group(groups[0].key, groups[0].entities + [entry.entity]), groups[1..]);
      } else {
        InsertDistinct(groups[1..], entry);
        DistinctCons(groups[0], Insert(groups[1..], entry));
      }
    }
  }

  lemma {:induction false} InsertNonEmpty(groups: seq<Group>, entry: Entry)
    requires forall g :: g in groups ==> g.entities != []
    ensures forall g :: g in Insert(groups, entry) ==> g.entities != []
  {
    if groups != [] && groups[0].key.name != entry.typeName {
      InsertNonEmpty(groups[1..], entry);
    }
  }

  lemma {:induction false} InsertSize(groups: seq<Group>, entry: Entry)
    ensures TotalSize(Insert(groups, entry)) == TotalSize(groups) + 1
  {
    if groups != [] && groups[0].key.name != entry.typeName {
      InsertSize(groups[1..], entry);
      assert Insert(groups, entry)[1..] == Insert(groups[1..], entry);
    }
  }

  lemma {:induction false} InsertEntities(groups: seq<Group>, entry: Entry, name: string)
    ensures EntitiesOf(Insert(groups, entry), name)
      == EntitiesOf(groups, name) + (if name == entry.typeName then [entry.entity] else [])
  {
    if groups != [] && groups[0].key.name != entry.typeName {
      InsertEntities(groups[1..], entry, name);
      assert Insert(groups, entry)[1..] == Insert(groups[1..], entry);
    }
  }

  lemma {:induction false} InsertKey(groups: seq<Group>, entry: Entry, name: string)
    ensures KeyOf(Insert(groups, entry), name)
      == (if KeyOf(groups, name).None? && name == entry.typeName then Some(KeyFor(entry)) else KeyOf(groups, name))
  {
    if groups != [] && groups[0].key.name != entry.typeName {
      InsertKey(groups[1..], entry, name);
      assert Insert(groups, entry)[1..] == Insert(groups[1..], entry);
    }
  }

  /** GroupBy over the entries: one group per type name present, none empty. */
  function GroupBy(entries: seq<Entry>): (groups: seq<Group>)
    ensures DistinctKeys(groups)
    ensures KeyNames(groups) == set e | e in entries :: e.typeName
    ensures forall g :: g in groups ==> g.entities != []
  {
    if entries == [] then []
    else
      var n := |entries| - 1;
      var earlier := GroupBy(entries[..n]);
      SplitLast(entries);
      InsertDistinct(earlier, entries[n]);
      InsertNonEmpty(earlier, entries[n]);
      Insert(earlier, entries[n])
  }

  /** Every entry ends up in exactly one group: the sizes add up to the entry count. */
  lemma {:induction false} GroupBySize(entries: seq<Entry>)
    ensures TotalSize(GroupBy(entries)) == |entries|
  {
    if entries != [] {
      var n := |entries| - 1;
      GroupBySize(entries[..n]);
      InsertSize(GroupBy(entries[..n]), entries[n]);
    }
  }

  /** The group of a type holds exactly that type's entities, in entry order, and its key
      is the one built for the first entry of that type. */
  lemma {:induction false} GroupByContents(entries: seq<Entry>, name: string)
    ensures EntitiesOf(GroupBy(entries), name) == EntitiesNamed(entries, name)
    ensures KeyOf(GroupBy(entries), name) == FirstKey(entries, name)
  {
    if entries != [] {
      var n := |entries| - 1;
      GroupByContents(entries[..n], name);
      InsertEntities(GroupBy(entries[..n]), entries[n], name);
      InsertKey(GroupBy(entries[..n]), entries[n], name);
    }
  }

  /** In a grouping with distinct keys, each group is the one found under its name. */
  lemma {:induction false} FindMember(groups: seq<Group>, g: Group)
    requires DistinctKeys(groups)
    requires g in groups
    ensures Find(groups, g.key.name) == Some(g)
  {
    if groups[0] != g {
      assert g in groups[1..];
      FindMember(groups[1..], g);
    }
  }

  /** What GroupBy promises of each group: it holds exactly the entities of its type, in
      entry order, and its key is the key built for the first entry of that type. */
  lemma GroupContents(entries: seq<Entry>, g: Group)
    requires g in GroupBy(entries)
    ensures g.entities == EntitiesNamed(entries, g.key.name)
    ensures Some(g.key) == FirstKey(entries, g.key.name)
  {
    FindMember(GroupBy(entries), g);
    GroupByContents(entries, g.key.name);
  }

  /** Dictionary from key name to group (`ToDictionary(g => g.Key, g => g)`); the C#
      dictionary throws on a repeated key, which GroupBy never produces. */
  function ToLookup(groups: seq<Group>): (lookup: map<string, Group>)
    requires DistinctKeys(groups)
    ensures lookup.Keys == KeyNames(groups)
    ensures forall name :: name in lookup ==> lookup[name] in groups && lookup[name].key.name == name
  {
    if groups == [] then map[]
    else
      var n := |groups| - 1;
      assert forall g :: g in groups <==> g in groups[..n] || g == groups[n];
      ToLookup(groups[..n])[groups[n].key.name := groups[n]]
  }

  /** Total size does not depend on the order of the groups. */
  lemma {:induction false} TotalSizeReordered(a: seq<Group>, b: seq<Group>)
    requires DistinctKeys(a) && DistinctKeys(b) && |a| == |b|
    requires forall g :: g in a <==> g in b
    ensures TotalSize(a) == TotalSize(b)
  {
    if a != [] {
      assert a[0] in a;
      var q :| 0 <= q < |b| && b[q] == a[0];
      var rest := b[..q] + b[q + 1..];
      TotalSizeRemove(b, q);
      RemoveMatching(a, b, q);
      TotalSizeReordered(a[1..], rest);
    }
  }

  /** Taking the same group out of two lists with the same members leaves the same members. */
  lemma RemoveMatching(a: seq<Group>, b: seq<Group>, q: nat)
    requires DistinctKeys(a) && DistinctKeys(b) && a != [] && q < |b| && b[q] == a[0]
    requires forall g :: g in a <==> g in b
    ensures DistinctKeys(a[1..]) && DistinctKeys(b[..q] + b[q + 1..])
    ensures |b[..q] + b[q + 1..]| == |b| - 1
    ensures forall g :: g in a[1..] <==> g in b[..q] + b[q + 1..]
  {
    RemoveAt(b, q);
    DistinctKeysTail(a);
    assert a == [a[0]] + a[1..];
    forall g ensures g in a[1..] <==> g in b[..q] + b[q + 1..] {
      if g in a[1..] {
        assert g.key.name in KeyNames(a[1..]);
        assert g in a && g != a[0];
        assert g in b && g != b[q];
      }
      if g in b[..q] + b[q + 1..] {
        assert g in a && g != a[0];
      }
    }
  }

  lemma RemoveAt(b: seq<Group>, q: nat)
    requires DistinctKeys(b) && q < |b|
    ensures DistinctKeys(b[..q] + b[q + 1..])
    ensures forall g :: g in b[..q] + b[q + 1..] <==> g in b && g != b[q]
  {
    var rest := b[..q] + b[q + 1..];
    forall i, j | 0 <= i < j < |rest| ensures rest[i].key.name != rest[j].key.name {
      var i' := if i < q then i else i + 1;
      var j' := if j < q then j else j + 1;
      assert rest[i] == b[i'] && rest[j] == b[j'];
    }
    forall g ensures g in rest <==> g in b && g != b[q] {
      if g in rest {
        var j :| 0 <= j < |rest| && rest[j] == g;
        var k := if j < q then j else j + 1;
        assert b[k] == g && k != q;
      }
      if g in b && g != b[q] {
        var k :| 0 <= k < |b| && b[k] == g;
        if k < q { assert rest[k] == g; } else { assert rest[k - 1] == g; }
      }
    }
  }

  lemma TotalSizeAppend(groups: seq<Group>, g: Group)
    ensures TotalSize(groups + [g]) == TotalSize(groups) + |g.entities|
  {
    TotalSizeRemove(groups + [g], |groups|);
    assert (groups + [g])[..|groups|] + (groups + [g])[|groups| + 1..] == groups;
  }

  lemma {:induction false} TotalSizeRemove(b: seq<Group>, q: nat)
    requires q < |b|
    ensures TotalSize(b) == |b[q].entities| + TotalSize(b[..q] + b[q + 1..])
  {
    if q > 0 {
      TotalSizeRemove(b[1..], q - 1);
      assert b[1..][..q - 1] + b[1..][q..] == (b[..q] + b[q + 1..])[1..];
    } else {
      assert b[..q] + b[q + 1..] == b[1..];
    }
  }
}
