/** Looking up and creating paths of folders, one level at a time. */
module FolderPaths {
  import opened Bytes
  import opened NodeIds
  import opened Graphs
  import opened Paths
  import opened AddressSpaces

  datatype BrowseItem = BrowseItem(name: Text, nodeId: NodeId)

  // ---- the browser's list ----

  /** The forward references whose name can be read. */
  function Listed(refs: seq<Reference>): seq<BrowseItem> {
    if refs == [] then []
    else
      var last := refs[|refs| - 1];
      Listed(refs[..|refs| - 1]) +
      if last.forward && last.name.Some? then [BrowseItem(last.name.value, last.target)] else []
  }

  function FindItem(items: seq<BrowseItem>, name: Text): Option<NodeId> {
    if items == [] then None else if items[0].name == name then Some(items[0].nodeId) else FindItem(items[1..], name)
  }

  lemma {:induction false} FindItemConcat(a: seq<BrowseItem>, b: seq<BrowseItem>, name: Text)
    ensures FindItem(a + b, name) == if FindItem(a, name).Some? then FindItem(a, name) else FindItem(b, name)
  {
    if a == [] {
      assert a + b == b;
    } else {
      assert (a + b)[1..] == a[1..] + b;
      FindItemConcat(a[1..], b, name);
    }
  }

  lemma {:induction false} FindInOneMore(refs: seq<Reference>, r: Reference, name: Text)
    ensures FindIn(refs + [r], name) ==
            if FindIn(refs, name).Some? then FindIn(refs, name) else if IsNamed(r, name) then Some(r.target) else None
  {
    if refs == [] {
      assert refs + [r] == [r] && [r][1..] == [];
    } else {
      assert (refs + [r])[1..] == refs[1..] + [r];
      FindInOneMore(refs[1..], r, name);
    }
  }

  lemma {:induction false} ListedFind(refs: seq<Reference>, name: Text)
    ensures FindItem(Listed(refs), name) == FindIn(refs, name)
    decreases |refs|
  {
    if refs != [] {
      var front, last := refs[..|refs| - 1], refs[|refs| - 1];
      var more := if last.forward && last.name.Some? then [BrowseItem(last.name.value, last.target)] else [];
      ListedFind(front, name);
      FindInOneMore(front, last, name);
      assert refs == front + [last];
      FindItemConcat(Listed(front), more, name);
      assert more != [] ==> more[1..] == [];
    }
  }

  /** ClientBrowser and ServerBrowser */
  class NodeBrowser {
    const space: AddressSpace
    var list: seq<BrowseItem>

    constructor (s: AddressSpace)
      ensures space == s && list == []
    {
      space, list := s, [];
    }

    method Browse(start: NodeId)
      modifies this`list
      ensures forall name :: FindItem(list, name) == FindChild(space.graph, start, name)
    {
      var refs := ReferencesOf(space.graph, start);
      list := [];
      for i := 0 to |refs|
        invariant list == Listed(refs[..i])
      {
        TakeOneMore(refs, i);
        if refs[i].forward && refs[i].name.Some? {
          list := list + [BrowseItem(refs[i].name.value, refs[i].target)];
        }
        assert refs[..i + 1][..|refs[..i + 1]| - 1] == refs[..i];
      }
      assert refs[..|refs|] == refs;
      forall name ensures FindItem(list, name) == FindIn(refs, name) {
        ListedFind(refs, name);
      }
    }

    method Find(name: Text) returns (found: Option<NodeId>)
      ensures found == FindItem(list, name)
    {
      for i := 0 to |list|
        invariant FindItem(list[i..], name) == FindItem(list, name)
      {
        if list[i].name == name {
          return Some(list[i].nodeId);
        }
        assert list[i..][1..] == list[i + 1..];
      }
      found := None;
    }
  }

  /** How far a path leads: the last node on it that is there. */
  function Deepest(g: Graph, start: NodeId, path: seq<Text>): NodeId
    decreases |path|
  {
    if path == [] then start
    else
      var next := FindChild(g, start, path[0]);
      if next.None? then start else Deepest(g, next.value, path[1..])
  }

  lemma {:induction false} DeepestFound(g: Graph, start: NodeId, path: seq<Text>, level: nat)
    requires level <= |path| && Lookup(g, start, path[..level]).Some?
    ensures var n := Lookup(g, start, path[..level]).value;
            && Deepest(g, start, path) == Deepest(g, n, path[level..])
            && Lookup(g, start, path) == Lookup(g, n, path[level..])
    decreases level
  {
    hide FindChild;
    if level == 0 {
      assert path[..0] == [] && path[0..] == path;
    } else {
      assert path[..level][0] == path[0] && path[..level][1..] == path[1..][..level - 1];
      assert path[1..][level - 1..] == path[level..];
      DeepestFound(g, FindChild(g, start, path[0]).value, path[1..], level - 1);
    }
  }

  class PathClient {
    const space: AddressSpace

    constructor (s: AddressSpace)
      ensures space == s
    {
      space := s;
    }

    /** The loop that follows a path as far as it is there. */
    method Descend(start: NodeId, path: seq<Text>) returns (level: nat, node: NodeId)
      ensures level <= |path| && Lookup(space.graph, start, path[..level]) == Some(node)
      ensures level < |path| ==> FindChild(space.graph, node, path[level]) == None
      ensures level == |path| <==> Lookup(space.graph, start, path).Some?
      ensures node == Deepest(space.graph, start, path)
    {
      hide FindChild, FindItem;
      level, node := 0, start;
      var browser := new NodeBrowser(space);
      var missing := false;
      while level < |path| && !missing
        invariant level <= |path| && Lookup(space.graph, start, path[..level]) == Some(node)
        invariant missing ==> level < |path| && FindChild(space.graph, node, path[level]) == None
        decreases |path| - level, !missing
      {
        browser.Browse(node);
        var next := browser.Find(path[level]);
        if next.None? {
          missing := true;
        } else {
          LookupOneMore(space.graph, start, path[..level], path[level]);
          TakeOneMore(path, level);
          level, node := level + 1, next.value;
        }
      }
      DeepestFound(space.graph, start, path, level);
      assert path[|path|..] == [];
    }

    /** Client::nodeIdFromPath leaves its result alone if there is no such node. */
    method ClientNodeIdFromPath(start: NodeId, path: seq<Text>, outNodeId: NodeId) returns (ok: bool, result: NodeId)
      ensures ok <==> Lookup(space.graph, start, path).Some?
      ensures result == if ok then Lookup(space.graph, start, path).value else outNodeId
    {
      var level, node := Descend(start, path);
      assert path[..|path|] == path;
      ok := level == |path|;
      result := if ok then node else outNodeId;
    }

    /** Server::nodeIdFromPath writes its result at every level. */
    method ServerNodeIdFromPath(start: NodeId, path: seq<Text>) returns (ok: bool, result: NodeId)
      ensures ok <==> Lookup(space.graph, start, path).Some?
      ensures result == Deepest(space.graph, start, path)
      ensures ok ==> Lookup(space.graph, start, path) == Some(result)
    {
      var level, node := Descend(start, path);
      assert path[..|path|] == path;
      ok, result := level == |path|, node;
    }

    /** The loop that adds the missing folders until one is refused. */
    method AddFolders(base: NodeId, names: seq<Text>) returns (added: nat, node: NodeId, ghost created: seq<NodeId>,
                      ghost at: nat)
      requires names != [] ==> FindChild(space.graph, base, names[0]) == None
      modifies space`graph
      ensures added <= |names| && node == ChainEnd(base, created)
      ensures Chain(old(space.graph), space.graph, base, names[..added], created, at)
    {
      hide FindChild, WithFolder, Fresh;
      ghost var before := space.graph;
      added, node, created, at := 0, base, [], 0;
      var refused := false;
      while added < |names| && !refused
        invariant added <= |names| && node == ChainEnd(base, created)
        invariant Chain(before, space.graph, base, names[..added], created, at)
        decreases |names| - added, !refused
      {
        hide Chain;
        ghost var here, place := space.graph, at;
        var ok, folder, spot := space.AddFolder(node, names[added]);
        if !ok {
          refused := true;
        } else {
          ChainOneMore(before, here, space.graph, base, names, added, created, at, folder, spot);
          at := if added == 0 then spot else at;
          created := created + [folder];
          added, node := added + 1, folder;
        }
      }
    }

    lemma ChainOneMore(before: Graph, here: Graph, after: Graph, base: NodeId, names: seq<Text>, added: nat,
                       created: seq<NodeId>, at: nat, folder: NodeId, spot: nat)
      requires added < |names| && FindChild(before, base, names[0]) == None
      requires Chain(before, here, base, names[..added], created, at)
      requires var last := ChainEnd(base, created);
               && last in here && spot <= |here[last]| && Fresh(here, folder)
               && after == WithFolder(here, last, names[added], folder, spot)
      ensures Chain(before, after, base, names[..added + 1], created + [folder], if added == 0 then spot else at)
      ensures ChainEnd(base, created + [folder]) == folder
    {
      hide FindChild, WithFolder, Fresh;
      ChainLengths(before, here, base, names[..added], created, at);
      if added == 0 {
        ChainStarts(before, base, names[0], folder, spot);
        assert names[..1] == [names[0]] && created + [folder] == [folder];
      } else {
        ChainGrows(before, here, base, names[..added], created, at, names[added], folder);
        TakeOneMore(names, added);
      }
    }

    /** createFolderPath: only the part of the path that is not there is created; the result is where the path leads,
        or the last folder created before one was refused. */
    method CreateFolderPath(start: NodeId, path: seq<Text>, outNodeId: NodeId)
      returns (ok: bool, result: NodeId, ghost found: nat, ghost created: seq<NodeId>, ghost at: nat)
      modifies space`graph
      ensures path == [] ==> ok && result == outNodeId && space.graph == old(space.graph)
      ensures path != [] ==>
                var base := Deepest(old(space.graph), start, path);
                && found + |created| <= |path| && Lookup(old(space.graph), start, path[..found]) == Some(base)
                && Chain(old(space.graph), space.graph, base, path[found..found + |created|], created, at)
                && (ok <==> found + |created| == |path|)
                && result == ChainEnd(base, created)
      ensures path != [] && ok ==> Lookup(space.graph, start, path) == Some(result)
      ensures path != [] && Lookup(old(space.graph), start, path).Some? ==> ok && space.graph == old(space.graph)
    {
      hide Chain, Lookup, Deepest, FindChild;
      created, at, found, result := [], 0, 0, outNodeId;
      if |path| < 1 {
        return true, outNodeId, 0, [], 0;
      }
      var level, node := Descend(start, path);
      found := level;
      if level == |path| {
        result := node;
        NoChain(space.graph, node);
        assert path[..level] == path && path[level..level] == [];
      } else {
        ghost var before := space.graph;
        var added;
        added, result, created, at := AddFolders(node, path[level..]);
        ChainLengths(before, space.graph, node, path[level..][..added], created, at);
        assert path[level..][..added] == path[level..level + added];
        CreatedLookup(before, space.graph, start, path[..level], node, path[level..level + added], created, at);
        level := level + added;
        assert path[..found] + path[found..level] == path[..level];
      }
      ok := level == |path|;
      assert path[..|path|] == path;
    }

    lemma NoChain(g: Graph, base: NodeId)
      ensures Chain(g, g, base, [], [], 0)
    {
    }

    /** Creating a path again succeeds, adds nothing and finds the same node. */
    method CreateTwice(start: NodeId, path: seq<Text>, outNodeId: NodeId)
      returns (once: bool, first: NodeId, twice: bool, second: NodeId, ghost between: Graph)
      requires path != []
      modifies space`graph
      ensures once ==> twice && first == second && space.graph == between && Lookup(between, start, path) == Some(first)
    {
      ghost var f, c, a;
      once, first, f, c, a := CreateFolderPath(start, path, outNodeId);
      between := space.graph;
      twice, second, f, c, a := CreateFolderPath(start, path, outNodeId);
    }
  }
}
