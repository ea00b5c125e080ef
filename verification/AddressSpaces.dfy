/** The OPC UA library behind a client or a server, as far as browsing and adding folders goes. */
module AddressSpaces {
  import opened Bytes
  import opened NodeIds
  import opened Graphs
  import opened Paths

  /** The library behind a client or a server: the references it reports, and the deletions it was asked for. */
  class AddressSpace {
    var graph: Graph
    var deletions: seq<NodeId>

    constructor (g: Graph)
      ensures graph == g && deletions == []
    {
      graph, deletions := g, [];
    }

    /** getChildrenList with its callback, which keeps the forward references. */
    method ChildrenList(node: NodeId) returns (children: seq<NodeId>)
      ensures children == ForwardTargets(ReferencesOf(graph, node))
      ensures forall c | c in children :: c in Targets(graph)
      ensures forall c :: Leads(graph, node, c) <==> c in children && c.namespaceIndex == node.namespaceIndex
    {
      var refs := ReferencesOf(graph, node);
      children := [];
      for i := 0 to |refs|
        invariant children == ForwardTargets(refs[..i])
        invariant forall c :: c in children <==> exists k | 0 <= k < i :: refs[k].forward && refs[k].target == c
      {
        assert refs[..i + 1][..i] == refs[..i];
        if refs[i].forward {
          children := children + [refs[i].target];
        }
      }
      assert refs[..|refs|] == refs;
      forall c | c in children ensures c in Targets(graph) {
        var k :| 0 <= k < |refs| && refs[k].forward && refs[k].target == c;
        assert graph[node][k].target == c;
      }
    }

    method Delete(node: NodeId)
      modifies this`deletions
      ensures deletions == old(deletions) + [node]
    {
      deletions := deletions + [node];
    }

    /** Refused, or a new node under the parent, somewhere among its children: which of these the library decides. */
    method AddFolder(parent: NodeId, name: Text) returns (ok: bool, folder: NodeId, ghost at: nat)
      modifies this`graph
      ensures !ok ==> graph == old(graph)
      ensures ok ==>
                && parent in old(graph) && Fresh(old(graph), folder) && at <= |old(graph)[parent]|
                && graph == WithFolder(old(graph), parent, name, folder, at)
    {
      var refused: bool := *;
      var place: nat := *;
      folder := *;
      at := place;
      ok := !refused && parent in graph && Fresh(graph, folder) && place <= |graph[parent]|;
      if ok {
        graph := WithFolder(graph, parent, name, folder, place);
      }
    }
  }
}
