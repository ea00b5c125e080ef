/** The address space as a finite graph, and which nodes a browse is meant to collect. */
module Graphs {
  import opened Bytes
  import opened NodeIds

  /** A reference that listing the children of a node reports; the name is None where it cannot be read. */
  datatype Reference = Reference(target: NodeId, forward: bool, name: Option<Text>)

  /** The references of every node; a node that is not there has none. */
  type Graph = map<NodeId, seq<Reference>>

  function ReferencesOf(g: Graph, n: NodeId): seq<Reference> {
    if n in g then g[n] else []
  }

  /** The targets of the forward references, one for each, in their order. */
  function ForwardTargets(refs: seq<Reference>): seq<NodeId> {
    if refs == [] then []
    else
      var n := |refs| - 1;
      ForwardTargets(refs[..n]) + if refs[n].forward then [refs[n].target] else []
  }

  /** Everything a reference leads to. */
  function Targets(g: Graph): set<NodeId> {
    set n, i | n in g && 0 <= i < |g[n]| :: g[n][i].target
  }

  function TargetTexts(g: Graph): set<Text> {
    set n | n in Targets(g) :: ToString(n)
  }

  /** A forward reference that stays in the namespace. */
  predicate Leads(g: Graph, a: NodeId, b: NodeId) {
    && b.namespaceIndex == a.namespaceIndex
    && exists i | 0 <= i < |ReferencesOf(g, a)| :: ReferencesOf(g, a)[i].forward && ReferencesOf(g, a)[i].target == b
  }

  predicate IsPath(g: Graph, p: seq<NodeId>) {
    p != [] && forall i | 0 <= i < |p| - 1 :: Leads(g, p[i], p[i + 1])
  }

  ghost predicate Reachable(g: Graph, a: NodeId, b: NodeId) {
    exists p :: IsPath(g, p) && p[0] == a && p[|p| - 1] == b
  }

  /** The nodes to be collected from `start`. */
  ghost function ReachableSet(g: Graph, start: NodeId): set<NodeId> {
    set n | n in Targets(g) + {start} && Reachable(g, start, n)
  }

  lemma ReachesItself(g: Graph, a: NodeId)
    ensures Reachable(g, a, a)
  {
    assert IsPath(g, [a]);
  }

  lemma LeadsToTarget(g: Graph, a: NodeId, b: NodeId)
    requires Leads(g, a, b)
    ensures b in Targets(g)
  {
  }

  lemma ReachesOn(g: Graph, a: NodeId, b: NodeId, c: NodeId)
    requires Reachable(g, a, b) && Leads(g, b, c)
    ensures Reachable(g, a, c)
  {
    hide Leads;
    var p :| IsPath(g, p) && p[0] == a && p[|p| - 1] == b;
    var q := p + [c];
    forall i | 0 <= i < |q| - 1 ensures Leads(g, q[i], q[i + 1]) {
      if i < |p| - 1 {
        assert Leads(g, p[i], p[i + 1]);
      }
    }
    assert IsPath(g, q) && q[0] == a && q[|q| - 1] == c;
  }

  /** Everything reachable is in the start's namespace and is the start or a target. */
  lemma {:induction false} PathStays(g: Graph, p: seq<NodeId>)
    requires IsPath(g, p)
    ensures forall i | 0 <= i < |p| :: p[i].namespaceIndex == p[0].namespaceIndex
    ensures forall i | 1 <= i < |p| :: p[i] in Targets(g)
    decreases |p|
  {
    hide Targets;
    if |p| > 1 {
      var q := p[..|p| - 1];
      forall i | 0 <= i < |q| - 1 ensures Leads(g, q[i], q[i + 1]) {
        assert Leads(g, p[i], p[i + 1]);
      }
      PathStays(g, q);
      assert Leads(g, p[|p| - 2], p[|p| - 1]) by {
        assert Leads(g, p[|p| - 2], p[|p| - 2 + 1]);
      }
      LeadsToTarget(g, p[|p| - 2], p[|p| - 1]);
      forall i | 0 <= i < |p| - 1
        ensures p[i].namespaceIndex == p[0].namespaceIndex && (1 <= i ==> p[i] in Targets(g))
      {
        assert p[i] == q[i];
      }
    }
  }

  lemma ReachableStays(g: Graph, a: NodeId, b: NodeId)
    requires Reachable(g, a, b)
    ensures b.namespaceIndex == a.namespaceIndex && b in Targets(g) + {a} && b in ReachableSet(g, a)
  {
    hide Targets, Leads;
    var p :| IsPath(g, p) && p[0] == a && p[|p| - 1] == b;
    PathStays(g, p);
    if |p| == 1 {
      assert b == a;
    }
  }

  /** No two of the nodes have the same text. */
  predicate ToldApart(nodes: set<NodeId>) {
    forall a, b | a in nodes && b in nodes && ToString(a) == ToString(b) :: a == b
  }

  /** A set of nodes that has the start and, of every node in it, all the nodes that it leads to. */
  ghost predicate ClosedSet(g: Graph, start: NodeId, nodes: set<NodeId>) {
    start in nodes && forall a, b | a in nodes && Leads(g, a, b) :: b in nodes
  }

  lemma {:induction false} PathInClosed(g: Graph, start: NodeId, nodes: set<NodeId>, p: seq<NodeId>)
    requires ClosedSet(g, start, nodes) && IsPath(g, p) && p[0] == start
    ensures p[|p| - 1] in nodes
    decreases |p|
  {
    if |p| > 1 {
      var q := p[..|p| - 1];
      forall i | 0 <= i < |q| - 1 ensures Leads(g, q[i], q[i + 1]) {
        assert Leads(g, p[i], p[i + 1]);
      }
      PathInClosed(g, start, nodes, q);
      assert Leads(g, p[|p| - 2], p[|p| - 2 + 1]);
    }
  }

  lemma ReachableInClosed(g: Graph, start: NodeId, nodes: set<NodeId>)
    requires ClosedSet(g, start, nodes)
    ensures ReachableSet(g, start) <= nodes
  {
    hide ClosedSet, Targets;
    forall n | n in ReachableSet(g, start) ensures n in nodes {
      var p :| IsPath(g, p) && p[0] == start && p[|p| - 1] == n;
      PathInClosed(g, start, nodes, p);
    }
  }
}
