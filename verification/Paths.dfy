/** Paths of browse names: looking one up, and creating the folders it lacks. */
module Paths {
  import opened Bytes
  import opened NodeIds
  import opened Graphs

  // ---- looking up ----

  predicate IsNamed(r: Reference, name: Text) {
    r.forward && r.name == Some(name)
  }

  /** BrowserBase::find: the first forward reference with the name. */
  function FindIn(refs: seq<Reference>, name: Text): Option<NodeId> {
    if refs == [] then None else if IsNamed(refs[0], name) then Some(refs[0].target) else FindIn(refs[1..], name)
  }

  /** Reference `i` is a forward one with that name, and no reference before it is. */
  predicate IsFirstNamed(refs: seq<Reference>, name: Text, i: nat) {
    && i < |refs| && refs[i].forward && refs[i].name == Some(name)
    && forall k | 0 <= k < i :: !(refs[k].forward && refs[k].name == Some(name))
  }

  /** What is found is the target of the first forward reference with the name, and nothing exactly if there is none. */
  lemma {:induction false} FindsFirst(refs: seq<Reference>, name: Text)
    ensures FindIn(refs, name) == None <==>
            forall i | 0 <= i < |refs| :: !(refs[i].forward && refs[i].name == Some(name))
    ensures forall i: nat | IsFirstNamed(refs, name, i) :: FindIn(refs, name) == Some(refs[i].target)
  {
    if refs != [] && !IsNamed(refs[0], name) {
      var rest := refs[1..];
      FindsFirst(rest, name);
      assert forall i | 0 < i < |refs| :: refs[i] == rest[i - 1];
      forall i: nat | IsFirstNamed(refs, name, i) ensures FindIn(refs, name) == Some(refs[i].target) {
        assert i > 0;
        forall k | 0 <= k < i - 1 ensures !(rest[k].forward && rest[k].name == Some(name)) {
          assert rest[k] == refs[k + 1];
        }
        assert IsFirstNamed(rest, name, i - 1);
      }
    }
  }

  function FindChild(g: Graph, n: NodeId, name: Text): Option<NodeId> {
    FindIn(ReferencesOf(g, n), name)
  }

  /** Where a path leads. */
  function Lookup(g: Graph, start: NodeId, path: seq<Text>): Option<NodeId>
    decreases |path|
  {
    if path == [] then Some(start)
    else
      var next := FindChild(g, start, path[0]);
      if next.None? then None else Lookup(g, next.value, path[1..])
  }

  lemma {:induction false} LookupOneMore(g: Graph, start: NodeId, path: seq<Text>, name: Text)
    ensures Lookup(g, start, path + [name]) ==
            var n := Lookup(g, start, path); if n.None? then None else FindChild(g, n.value, name)
    decreases |path|
  {
    hide FindChild;
    if path == [] {
      assert path + [name] == [name] && [name][1..] == [];
    } else {
      assert (path + [name])[1..] == path[1..] + [name];
      var next := FindChild(g, start, path[0]);
      if next.Some? {
        LookupOneMore(g, next.value, path[1..], name);
      }
    }
  }

  /** A path that goes on from where another one leads. */
  lemma {:induction false} LookupConcat(g: Graph, start: NodeId, a: seq<Text>, b: seq<Text>)
    ensures Lookup(g, start, a + b) == var n := Lookup(g, start, a); if n.None? then None else Lookup(g, n.value, b)
    decreases |a|
  {
    hide FindChild;
    if a == [] {
      assert a + b == b;
    } else {
      assert (a + b)[1..] == a[1..] + b;
      var next := FindChild(g, start, a[0]);
      if next.Some? {
        LookupConcat(g, next.value, a[1..], b);
      }
    }
  }

  // ---- a folder more ----

  function Insert<T>(s: seq<T>, at: nat, x: T): seq<T>
    requires at <= |s|
  {
    s[..at] + [x] + s[at..]
  }

  predicate Fresh(g: Graph, n: NodeId) {
    n !in g && n !in Targets(g)
  }

  /** The graph with a new folder under `parent`, at a place among its children that the library chooses. */
  function WithFolder(g: Graph, parent: NodeId, name: Text, folder: NodeId, at: nat): Graph
    requires parent in g && at <= |g[parent]|
  {
    g[parent := Insert(g[parent], at, Reference(folder, true, Some(name)))][folder := []]
  }

  lemma {:induction false} FindInserted(refs: seq<Reference>, at: nat, r: Reference, name: Text, x: Text)
    requires at <= |refs| && FindIn(refs, name) == None && r.forward && r.name == Some(name)
    ensures FindIn(Insert(refs, at, r), x) == if x == name then Some(r.target) else FindIn(refs, x)
  {
    if at == 0 {
      assert Insert(refs, at, r)[1..] == refs;
    } else {
      assert Insert(refs, at, r)[1..] == Insert(refs[1..], at - 1, r);
      FindInserted(refs[1..], at - 1, r, name, x);
    }
  }

  lemma FindWithFolder(g: Graph, parent: NodeId, name: Text, folder: NodeId, at: nat, n: NodeId, x: Text)
    requires parent in g && at <= |g[parent]| && Fresh(g, folder) && FindChild(g, parent, name) == None
    ensures FindChild(WithFolder(g, parent, name, folder, at), n, x) ==
            if n == parent && x == name then Some(folder) else FindChild(g, n, x)
  {
    if n == parent {
      FindInserted(g[parent], at, Reference(folder, true, Some(name)), name, x);
    }
  }

  // ---- what creating a path leaves ----

  /** The references of the `i`th folder created: the next one. */
  function LinkTo(names: seq<Text>, created: seq<NodeId>, i: nat): seq<Reference>
    requires |names| == |created| && i < |created|
  {
    if i + 1 < |created| then [Reference(created[i + 1], true, Some(names[i + 1]))] else []
  }

  predicate AllNew(g: Graph, created: seq<NodeId>) {
    && (forall i | 0 <= i < |created| :: Fresh(g, created[i]))
    && forall i, j | 0 <= i < j < |created| :: created[i] != created[j]
  }

  predicate OthersKept(before: Graph, after: Graph, base: NodeId) {
    forall n | n in before && n != base :: n in after && after[n] == before[n]
  }

  predicate Linked(after: Graph, names: seq<Text>, created: seq<NodeId>)
    requires |names| == |created|
  {
    forall i | 0 <= i < |created| :: created[i] in after && after[created[i]] == LinkTo(names, created, i)
  }

  /** `after` is `before` with a chain of new, distinct folders under `base`, one for each name: nothing else
      changed. */
  predicate Chain(before: Graph, after: Graph, base: NodeId, names: seq<Text>, created: seq<NodeId>, at: nat) {
    && |names| == |created| && AllNew(before, created)
    && if names == [] then after == before
       else
         && base in before && at <= |before[base]| && FindChild(before, base, names[0]) == None
         && after.Keys == before.Keys + (set n | n in created)
         && OthersKept(before, after, base)
         && after[base] == Insert(before[base], at, Reference(created[0], true, Some(names[0])))
         && Linked(after, names, created)
  }

  /** The node that the next folder goes under. */
  function ChainEnd(base: NodeId, created: seq<NodeId>): NodeId {
    if created == [] then base else created[|created| - 1]
  }

  lemma ChainStarts(before: Graph, base: NodeId, name: Text, folder: NodeId, at: nat)
    requires base in before && at <= |before[base]| && Fresh(before, folder) && FindChild(before, base, name) == None
    ensures Chain(before, WithFolder(before, base, name, folder, at), base, [name], [folder], at)
  {
  }

  lemma TargetKept(before: Graph, after: Graph, base: NodeId, names: seq<Text>, created: seq<NodeId>, at: nat,
                   p: NodeId, i: nat)
    requires Chain(before, after, base, names, created, at) && p in before && i < |before[p]|
    ensures before[p][i].target in Targets(after)
  {
    hide FindChild, AllNew, Linked;
    if names == [] || p != base {
      assert after[p][i] == before[p][i];
    } else {
      assert after[p][if i < at then i else i + 1] == before[p][i];
    }
  }

  lemma TargetsKept(before: Graph, after: Graph, base: NodeId, names: seq<Text>, created: seq<NodeId>, at: nat)
    requires Chain(before, after, base, names, created, at)
    ensures Targets(before) <= Targets(after)
  {
    hide Chain;
    forall t | t in Targets(before) ensures t in Targets(after) {
      var p, i :| p in before && 0 <= i < |before[p]| && before[p][i].target == t;
      TargetKept(before, after, base, names, created, at, p, i);
    }
  }

  lemma LinkedGrows(after: Graph, names: seq<Text>, created: seq<NodeId>, name: Text, folder: NodeId)
    requires |names| == |created| > 0 && Linked(after, names, created) && folder !in after
    requires forall i, j | 0 <= i < j < |created| :: created[i] != created[j]
    ensures var last := created[|created| - 1];
            last in after && after[last] == [] &&
            Linked(WithFolder(after, last, name, folder, 0), names + [name], created + [folder])
  {
  }

  lemma ChainGrows(before: Graph, after: Graph, base: NodeId, names: seq<Text>, created: seq<NodeId>, at: nat,
                   name: Text, folder: NodeId)
    requires Chain(before, after, base, names, created, at) && names != [] && Fresh(after, folder)
    ensures var last := ChainEnd(base, created);
            && last in after && after[last] == []
            && Chain(before, WithFolder(after, last, name, folder, 0), base, names + [name], created + [folder], at)
  {
    hide FindChild, Targets, Linked, Insert, LinkTo;
    TargetsKept(before, after, base, names, created, at);
    LinkedGrows(after, names, created, name, folder);
    var last := ChainEnd(base, created);
    assert last in created && Fresh(before, last);
    assert AllNew(before, created + [folder]);
    assert (names + [name])[0] == names[0] && (created + [folder])[0] == created[0];
    assert (set n | n in created + [folder]) == (set n | n in created) + {folder};
  }

  // ---- consequences ----

  /** In the new graph a name is found where it was, and besides along the new chain. */
  lemma ChainFinds(before: Graph, after: Graph, base: NodeId, names: seq<Text>, created: seq<NodeId>, at: nat,
                   n: NodeId, x: Text)
    requires Chain(before, after, base, names, created, at)
    ensures FindChild(before, n, x).Some? ==> FindChild(after, n, x) == FindChild(before, n, x)
    ensures names != [] ==> FindChild(after, base, names[0]) == Some(created[0])
    ensures forall i | 0 <= i < |created| - 1 :: FindChild(after, created[i], names[i + 1]) == Some(created[i + 1])
  {
    hide Targets, Insert;
    if names != [] {
      FindInserted(before[base], at, Reference(created[0], true, Some(names[0])), names[0], names[0]);
      FindInserted(before[base], at, Reference(created[0], true, Some(names[0])), names[0], x);
    }
  }

  /** A path that could be looked up before leads to the same node afterwards. */
  lemma {:induction false} OldPathsKept(before: Graph, after: Graph, base: NodeId, names: seq<Text>,
                                        created: seq<NodeId>, at: nat, start: NodeId, path: seq<Text>)
    requires Chain(before, after, base, names, created, at) && Lookup(before, start, path).Some?
    ensures Lookup(after, start, path) == Lookup(before, start, path)
    decreases |path|
  {
    hide Chain, FindChild;
    if path != [] {
      ChainFinds(before, after, base, names, created, at, start, path[0]);
      OldPathsKept(before, after, base, names, created, at, FindChild(before, start, path[0]).value, path[1..]);
    }
  }

  /** The names of the chain lead from its base to its end. */
  lemma {:induction false} ChainLookup(before: Graph, after: Graph, base: NodeId, names: seq<Text>,
                                       created: seq<NodeId>, at: nat, i: nat)
    requires Chain(before, after, base, names, created, at) && i < |created|
    ensures Lookup(after, created[i], names[i + 1..]) == Some(created[|created| - 1])
    decreases |created| - i
  {
    hide Chain, FindChild;
    assert |names| == |created| by { ChainLengths(before, after, base, names, created, at); }
    if i + 1 < |created| {
      ChainFinds(before, after, base, names, created, at, base, names[0]);
      ChainLookup(before, after, base, names, created, at, i + 1);
      assert names[i + 1..][0] == names[i + 1] && names[i + 1..][1..] == names[i + 2..];
    }
  }

  lemma ChainLengths(before: Graph, after: Graph, base: NodeId, names: seq<Text>, created: seq<NodeId>, at: nat)
    requires Chain(before, after, base, names, created, at)
    ensures |names| == |created|
  {
  }

  /** The whole path, old part and new part, leads to the last folder created. */
  lemma CreatedLookup(before: Graph, after: Graph, start: NodeId, found: seq<Text>, base: NodeId, names: seq<Text>,
                      created: seq<NodeId>, at: nat)
    requires Chain(before, after, base, names, created, at) && Lookup(before, start, found) == Some(base)
    ensures Lookup(after, start, found + names) == Some(ChainEnd(base, created))
  {
    hide Chain, FindChild;
    OldPathsKept(before, after, base, names, created, at, start, found);
    LookupConcat(after, start, found, names);
    ChainLengths(before, after, base, names, created, at);
    if names != [] {
      ChainFinds(before, after, base, names, created, at, base, names[0]);
      ChainLookup(before, after, base, names, created, at, 0);
    }
  }
}
