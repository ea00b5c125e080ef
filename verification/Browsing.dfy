/** Browsing a tree of the address space into a NodeIdMap, and deleting it. */
module Browsing {
  import opened Bytes
  import opened NodeIds
  import opened Graphs
  import opened AddressSpaces
  import Numerals

  /** A map from texts to node ids that files each under its own text. */
  predicate WellFiled(m: map<Text, NodeId>) {
    forall t | t in m :: ToString(m[t]) == t
  }

  /** `b` has all of `a`. */
  predicate Extends(a: map<Text, NodeId>, b: map<Text, NodeId>) {
    forall t | t in a :: t in b && b[t] == a[t]
  }

  /** Every node that `n` leads to, or one with its text, is filed. */
  ghost predicate Explored(g: Graph, m: map<Text, NodeId>, n: NodeId) {
    forall c | Leads(g, n, c) :: ToString(c) in m
  }

  /** The nodes filed since `old` were found from `start` and are explored. */
  ghost predicate Collected(g: Graph, start: NodeId, was: map<Text, NodeId>, m: map<Text, NodeId>) {
    && WellFiled(m) && Extends(was, m)
    && forall t | t in m && t !in was :: Reachable(g, start, m[t]) && Explored(g, m, m[t])
  }

  lemma CollectedTrans(g: Graph, start: NodeId, a: map<Text, NodeId>, b: map<Text, NodeId>, c: map<Text, NodeId>)
    requires Collected(g, start, a, b) && Collected(g, start, b, c)
    ensures Collected(g, start, a, c)
  {
  }

  /** A child filed and then browsed counts as collected. */
  lemma CollectedChild(g: Graph, start: NodeId, child: NodeId, was: map<Text, NodeId>, m: map<Text, NodeId>)
    requires ToString(child) !in was && WellFiled(was) && Reachable(g, start, child)
    requires Collected(g, start, was[ToString(child) := child], m) && Explored(g, m, child)
    ensures Collected(g, start, was, m)
  {
    hide Reachable, Explored, ToString;
  }

  /** The first references of a node are dealt with. */
  predicate ExploredUpTo(g: Graph, m: map<Text, NodeId>, n: NodeId, children: seq<NodeId>, i: nat) {
    forall k | 0 <= k < i && k < |children| ::
      children[k].namespaceIndex == n.namespaceIndex ==> ToString(children[k]) in m
  }

  lemma AllExplored(g: Graph, m: map<Text, NodeId>, n: NodeId, children: seq<NodeId>)
    requires forall c :: Leads(g, n, c) ==> c in children
    requires ExploredUpTo(g, m, n, children, |children|)
    ensures Explored(g, m, n)
  {
  }

  /** What browsing the whole tree gives, in terms of the graph: a node of each text that any reachable node has. */
  ghost predicate TreeOf(g: Graph, start: NodeId, m: map<Text, NodeId>) {
    && WellFiled(m)
    && m.Values <= ReachableSet(g, start)
    && ToString(start) in m && m[ToString(start)] == start
    && forall n | n in m.Values :: Explored(g, m, n)
  }

  /** The nodes collected are exactly the reachable ones if and only if no two reachable nodes have the same text. */
  lemma TreeExactly(g: Graph, start: NodeId, m: map<Text, NodeId>)
    requires TreeOf(g, start, m)
    ensures m.Values == ReachableSet(g, start) <==> ToldApart(ReachableSet(g, start))
  {
    hide ToString, Leads, ReachableSet;
    if m.Values == ReachableSet(g, start) {
      forall a, b | a in m.Values && b in m.Values && ToString(a) == ToString(b) ensures a == b {
        var s :| s in m && m[s] == a;
        var t :| t in m && m[t] == b;
      }
    }
    if ToldApart(ReachableSet(g, start)) {
      forall a, b | a in m.Values && Leads(g, a, b) ensures b in m.Values {
        assert Explored(g, m, a);
        ReachedFrom(g, start, a, b);
        assert m[ToString(b)] in m.Values;
      }
      assert start in m.Values;
      ReachableInClosed(g, start, m.Values);
    }
  }

  lemma ReachedFrom(g: Graph, start: NodeId, a: NodeId, b: NodeId)
    requires a in ReachableSet(g, start) && Leads(g, a, b)
    ensures b in ReachableSet(g, start)
  {
    ReachesOn(g, start, a, b);
    ReachableStays(g, start, b);
  }

  lemma SameNamespace(g: Graph, start: NodeId, m: map<Text, NodeId>, n: NodeId)
    requires TreeOf(g, start, m) && n in m.Values
    ensures n.namespaceIndex == start.namespaceIndex
  {
    hide ToString, Explored, Reachable;
    assert n in ReachableSet(g, start);
    ReachableStays(g, start, n);
  }

  lemma CollectedTree(g: Graph, start: NodeId, m: map<Text, NodeId>)
    requires Collected(g, start, map[ToString(start) := start], m) && Explored(g, m, start)
    ensures TreeOf(g, start, m)
  {
    hide ToString, Explored, Reachable, ReachableSet;
    forall n | n in m.Values ensures n in ReachableSet(g, start) && Explored(g, m, n) {
      var t :| t in m && m[t] == n;
      if t == ToString(start) {
        ReachesItself(g, start);
      }
      ReachableStays(g, start, n);
    }
  }

  /** Two reachable nodes with one text: one of them is not collected. */
  lemma CollisionLosesNode(g: Graph, start: NodeId, m: map<Text, NodeId>, a: NodeId, b: NodeId)
    requires TreeOf(g, start, m) && Reachable(g, start, a) && Reachable(g, start, b)
    requires a != b && ToString(a) == ToString(b)
    ensures a !in m.Values || b !in m.Values
  {
  }

  lemma FewerLeft(g: Graph, was: map<Text, NodeId>, m: map<Text, NodeId>, child: NodeId)
    requires Extends(was, m) && child in Targets(g) && ToString(child) !in m
    ensures TargetTexts(g) - m[ToString(child) := child].Keys < TargetTexts(g) - was.Keys
  {
    hide ToString;
    assert ToString(child) in TargetTexts(g) - was.Keys;
  }

  lemma OneLess(m: map<Text, NodeId>, t: Text)
    requires WellFiled(m) && t in m
    ensures WellFiled(m - {t}) && (m - {t}).Values == m.Values - {m[t]}
  {
    hide ToString;
    var less := m - {t};
    forall n | n in m.Values && n != m[t] ensures n in less.Values {
      var s :| s in m && m[s] == n;
      assert s in less && less[s] == n;
    }
  }

  /** Such trees exist: a node over a numeric id and the string id that has the same text. */
  lemma CollisionReachable(ns: nat, n: nat, start: NodeId)
    requires start.namespaceIndex == ns
    ensures var a, b := NodeId(ns, Numeric(n)), NodeId(ns, Named(Numerals.Decimal(n)));
            var g: Graph := map[start := [Reference(a, true, None), Reference(b, true, None)]];
            Reachable(g, start, a) && Reachable(g, start, b) && !ToldApart(ReachableSet(g, start))
  {
    var a, b := NodeId(ns, Numeric(n)), NodeId(ns, Named(Numerals.Decimal(n)));
    var g: Graph := map[start := [Reference(a, true, None), Reference(b, true, None)]];
    assert ReferencesOf(g, start)[0].target == a && ReferencesOf(g, start)[1].target == b;
    assert Leads(g, start, a) && Leads(g, start, b);
    ReachesItself(g, start);
    ReachesOn(g, start, start, a);
    ReachesOn(g, start, start, b);
    ReachableStays(g, start, a);
    ReachableStays(g, start, b);
    TextsCollide(ns, n, []);
    assert a != b;
  }

  /** The nodes outside the reserved namespace. */
  function Deletable(nodes: set<NodeId>): set<NodeId> {
    set n | n in nodes && n.namespaceIndex > 0
  }

  lemma OneMoreDeleted(all: set<NodeId>, rest: set<NodeId>, n: NodeId)
    requires rest <= all && n in rest
    ensures multiset(Deletable(all - (rest - {n}))) ==
            multiset(Deletable(all - rest)) + if n.namespaceIndex > 0 then multiset{n} else multiset{}
  {
  }

  lemma AllDeletable(g: Graph, start: NodeId, m: map<Text, NodeId>)
    requires TreeOf(g, start, m)
    ensures Deletable(m.Values) == if start.namespaceIndex > 0 then m.Values else {}
  {
    hide ToString, Explored, ReachableSet;
    forall n | n in m.Values ensures n.namespaceIndex == start.namespaceIndex {
      SameNamespace(g, start, m, n);
    }
  }

  /** NodeIdMap: what is there is not overwritten. */
  class NodeIdMap {
    var entries: map<Text, NodeId>

    constructor ()
      ensures entries == map[]
    {
      entries := map[];
    }

    method Put(node: NodeId)
      modifies this
      ensures entries == if ToString(node) in old(entries) then old(entries) else old(entries)[ToString(node) := node]
    {
      if ToString(node) !in entries {
        entries := entries[ToString(node) := node];
      }
    }
  }

  class Browser {
    const space: AddressSpace

    constructor (s: AddressSpace)
      ensures space == s
    {
      space := s;
    }

    /** Depth-first, cycles or not: adds the nodes found below `node` that have no namesake in the map yet. */
    method BrowseChildren(node: NodeId, nodeMap: NodeIdMap, ghost start: NodeId)
      requires WellFiled(nodeMap.entries) && Reachable(space.graph, start, node)
      modifies nodeMap
      ensures Collected(space.graph, start, old(nodeMap.entries), nodeMap.entries)
      ensures Explored(space.graph, nodeMap.entries, node)
      decreases TargetTexts(space.graph) - nodeMap.entries.Keys
    {
      hide ToString, Leads, Reachable, Targets;
      ghost var g, before := space.graph, nodeMap.entries;
      var children := space.ChildrenList(node);
      for i := 0 to |children|
        invariant Collected(g, start, before, nodeMap.entries)
        invariant ExploredUpTo(g, nodeMap.entries, node, children, i)
      {
        var child := children[i];
        if child.namespaceIndex == node.namespaceIndex {
          if ToString(child) !in nodeMap.entries {
            ghost var here := nodeMap.entries;
            assert Leads(g, node, child);
            ReachesOn(g, start, node, child);
            nodeMap.Put(child);
            FewerLeft(g, before, here, child);
            BrowseChildren(child, nodeMap, start);
            CollectedChild(g, start, child, here, nodeMap.entries);
            CollectedTrans(g, start, before, here, nodeMap.entries);
          }
        }
      }
      AllExplored(g, nodeMap.entries, node, children);
    }

    /** browseTree: adds to a map; an empty one gets the whole tree. */
    method BrowseTree(node: NodeId, nodeMap: NodeIdMap)
      requires WellFiled(nodeMap.entries)
      modifies nodeMap
      ensures Collected(space.graph, node, old(nodeMap.entries), nodeMap.entries)
      ensures ToString(node) in nodeMap.entries && Explored(space.graph, nodeMap.entries, node)
      ensures old(nodeMap.entries) == map[] ==>
                && TreeOf(space.graph, node, nodeMap.entries)
                && (nodeMap.entries.Values == ReachableSet(space.graph, node) <==>
                    ToldApart(ReachableSet(space.graph, node)))
    {
      hide ToString, Reachable, ReachableSet, Explored;
      ghost var g, before := space.graph, nodeMap.entries;
      ReachesItself(g, node);
      nodeMap.Put(node);
      BrowseChildren(node, nodeMap, node);
      if ToString(node) !in before {
        CollectedChild(g, node, node, before, nodeMap.entries);
      }
      if before == map[] {
        assert before[ToString(node) := node] == map[ToString(node) := node];
        CollectedTree(g, node, nodeMap.entries);
        TreeExactly(g, node, nodeMap.entries);
      }
    }

    /** The loop of deleteTree: the entries in any order, without those of namespace 0. */
    method DeleteEntries(entries: map<Text, NodeId>) returns (ghost asked: seq<NodeId>)
      requires WellFiled(entries)
      modifies space`deletions
      ensures space.deletions == old(space.deletions) + asked
      ensures multiset(asked) == multiset(Deletable(entries.Values))
    {
      hide ToString;
      var rest := entries;
      asked := [];
      while rest != map[]
        invariant WellFiled(rest) && rest.Values <= entries.Values
        invariant space.deletions == old(space.deletions) + asked
        invariant multiset(asked) == multiset(Deletable(entries.Values - rest.Values))
        decreases |rest|
      {
        var t :| t in rest;
        var n := rest[t];
        OneLess(rest, t);
        OneMoreDeleted(entries.Values, rest.Values, n);
        if n.namespaceIndex > 0 {
          space.Delete(n);
          Associate(old(space.deletions), asked, [n]);
          asked := asked + [n];
        }
        rest := rest - {t};
      }
      assert entries.Values - rest.Values == entries.Values;
    }

    /** Asks for the deletion of every node collected, once each, in some order; of none if the start is in namespace
        0. */
    method DeleteTree(node: NodeId) returns (ghost collected: map<Text, NodeId>, ghost asked: seq<NodeId>)
      modifies space`deletions
      ensures TreeOf(space.graph, node, collected)
      ensures space.deletions == old(space.deletions) + asked
      ensures multiset(asked) == if node.namespaceIndex > 0 then multiset(collected.Values) else multiset{}
      ensures node.namespaceIndex > 0 && ToldApart(ReachableSet(space.graph, node)) ==>
                multiset(asked) == multiset(ReachableSet(space.graph, node))
    {
      hide ToString, ReachableSet, Explored;
      var nodeMap := new NodeIdMap();
      BrowseTree(node, nodeMap);
      collected := nodeMap.entries;
      AllDeletable(space.graph, node, collected);
      asked := DeleteEntries(nodeMap.entries);
    }
  }
}
