/**
 * The optional removal of position metadata from the converted tree: when
 * `range` is off every node loses its `range`, when `loc` is off every node
 * loses its `loc`, and nothing else about a node changes. The two settings
 * act independently.
 */
module PositionStrip {
  import opened Estree

  /** The data of one node after the traversal callback has visited it. */
  function StripData(d: NodeData, range: bool, loc: bool): (r: NodeData)
    ensures r.kind == d.kind && r.arity == d.arity
    ensures r.range == (if range then d.range else None)
    ensures r.loc == (if loc then d.loc else None)
  {
    d.(range := if range then d.range else None, loc := if loc then d.loc else None)
  }

  /**
   * The converted tree after the stripping pass, as a value: its root is
   * stripped as the callback strips one node.
   */
  function StripTree(t: Tree, range: bool, loc: bool): (r: Tree)
    ensures DataOf(r) == StripData(DataOf(t), range, loc)
    decreases t
  {
    Tree(t.kind, if range then t.range else None, if loc then t.loc else None, StripAll(t.children, range, loc))
  }

  /** Strips each tree of a forest; the forest keeps its length. */
  function StripAll(ts: seq<Tree>, range: bool, loc: bool): (r: seq<Tree>)
    ensures |r| == |ts|
    decreases ts
  {
    if ts == [] then [] else StripAll(ts[..|ts| - 1], range, loc) + [StripTree(ts[|ts| - 1], range, loc)]
  }

  /** Stripping a forest strips each of its trees in place. */
  lemma {:induction false} StripAllPointwise(ts: seq<Tree>, range: bool, loc: bool)
    ensures forall j :: 0 <= j < |ts| ==> StripAll(ts, range, loc)[j] == StripTree(ts[j], range, loc)
    decreases ts
  {
    if ts != [] {
      StripAllPointwise(ts[..|ts| - 1], range, loc);
    }
  }

  /**
   * Stripping the value tree strips each node of its pre-order listing and
   * nothing more: the listing keeps its length and order.
   */
  lemma {:induction false} FlattenStripTree(t: Tree, range: bool, loc: bool)
    ensures |Flatten(StripTree(t, range, loc))| == |Flatten(t)|
    ensures forall i :: 0 <= i < |Flatten(t)| ==>
      Flatten(StripTree(t, range, loc))[i] == StripData(Flatten(t)[i], range, loc)
    decreases t
  {
    FlattenStripAll(t.children, range, loc);
    var s := StripTree(t, range, loc);
    assert DataOf(s) == StripData(DataOf(t), range, loc);
    forall i | 0 <= i < |Flatten(t)|
      ensures Flatten(s)[i] == StripData(Flatten(t)[i], range, loc)
    {
      if i > 0 {
        assert Flatten(s)[i] == FlattenAll(s.children)[i - 1];
        assert Flatten(t)[i] == FlattenAll(t.children)[i - 1];
      }
    }
  }

  lemma {:induction false} FlattenStripAll(ts: seq<Tree>, range: bool, loc: bool)
    ensures |FlattenAll(StripAll(ts, range, loc))| == |FlattenAll(ts)|
    ensures forall i :: 0 <= i < |FlattenAll(ts)| ==>
      FlattenAll(StripAll(ts, range, loc))[i] == StripData(FlattenAll(ts)[i], range, loc)
    decreases ts
  {
    if ts != [] {
      var init, last := ts[..|ts| - 1], ts[|ts| - 1];
      var stripped := StripAll(ts, range, loc);
      assert stripped[..|stripped| - 1] == StripAll(init, range, loc);
      assert stripped[|stripped| - 1] == StripTree(last, range, loc);
      FlattenStripAll(init, range, loc);
      FlattenStripTree(last, range, loc);
    }
  }

  /** With both settings on, the pass would leave the tree exactly as it is. */
  lemma {:induction false} StripTreeKeepsAll(t: Tree)
    ensures StripTree(t, true, true) == t
    decreases t
  {
    StripAllKeepsAll(t.children);
  }

  lemma {:induction false} StripAllKeepsAll(ts: seq<Tree>)
    ensures StripAll(ts, true, true) == ts
    decreases ts
  {
    if ts != [] {
      StripAllKeepsAll(ts[..|ts| - 1]);
      StripTreeKeepsAll(ts[|ts| - 1]);
    }
  }

  /** Running the pass a second time with the same settings changes nothing. */
  lemma {:induction false} StripTreeIdempotent(t: Tree, range: bool, loc: bool)
    ensures StripTree(StripTree(t, range, loc), range, loc) == StripTree(t, range, loc)
    decreases t
  {
    StripAllIdempotent(t.children, range, loc);
  }

  lemma {:induction false} StripAllIdempotent(ts: seq<Tree>, range: bool, loc: bool)
    ensures StripAll(StripAll(ts, range, loc), range, loc) == StripAll(ts, range, loc)
    decreases ts
  {
    if ts != [] {
      var stripped := StripAll(ts, range, loc);
      assert stripped[..|stripped| - 1] == StripAll(ts[..|ts| - 1], range, loc);
      StripAllIdempotent(ts[..|ts| - 1], range, loc);
      StripTreeIdempotent(ts[|ts| - 1], range, loc);
    }
  }

  /**
   * After stripping, a node reached from the root by following children has
   * no `range` when `range` is off and no `loc` when `loc` is off.
   */
  lemma ReachableNodesStripped(root: Node, nodes: seq<Node>, t: Tree, range: bool, loc: bool, path: seq<Node>)
    requires IsTree(root, nodes) && Denotes(nodes, Flatten(StripTree(t, range, loc)))
    requires |path| > 0 && path[0] == root && IsChildPath(path)
    ensures !range ==> path[|path| - 1].range == None
    ensures !loc ==> path[|path| - 1].loc == None
  {
    ReachableNodesAreListed(root, nodes, path);
    FlattenStripTree(t, range, loc);
    var i :| 0 <= i < |nodes| && nodes[i] == path[|path| - 1];
    assert NodeDataOf(nodes[i]) == Flatten(StripTree(t, range, loc))[i];
  }

  /**
   * Objects that hold the stripped data of mirrored subtrees, with their
   * links untouched, mirror the stripped subtrees.
   */
  lemma StrippedMirrors(nodes: seq<Node>, subtrees: seq<Tree>, range: bool, loc: bool)
    requires |nodes| == |subtrees|
    requires forall i :: 0 <= i < |nodes| ==> NodeDataOf(nodes[i]) == StripData(DataOf(subtrees[i]), range, loc)
    requires forall i, j, k ::
      (0 <= i < |nodes| && 0 <= j < |nodes[i].children| && j < |subtrees[i].children| && 0 <= k < |nodes| &&
       nodes[k] == nodes[i].children[j])
      ==> subtrees[k] == subtrees[i].children[j]
    ensures Mirrors(nodes, StripAll(subtrees, range, loc))
  {
    var stripped := StripAll(subtrees, range, loc);
    StripAllPointwise(subtrees, range, loc);
    forall i | 0 <= i < |nodes|
      ensures NodeDataOf(nodes[i]) == DataOf(stripped[i])
    {
    }
    forall i, j, k |
      0 <= i < |nodes| && 0 <= j < |nodes[i].children| && 0 <= k < |nodes| && nodes[k] == nodes[i].children[j]
      ensures stripped[k] == stripped[i].children[j]
    {
      assert |nodes[i].children| == |subtrees[i].children|;
      StripAllPointwise(subtrees[i].children, range, loc);
    }
  }

  /**
   * The traversal callback: deletes `range` from the visited node when
   * `range` is off and `loc` when `loc` is off.
   */
  method StripNode(node: Node, range: bool, loc: bool)
    modifies node
    ensures NodeDataOf(node) == StripData(old(NodeDataOf(node)), range, loc)
    ensures node.tokens == old(node.tokens) && node.comments == old(node.comments)
  {
    if !range {
      node.range := None;
    }
    if !loc {
      node.loc := None;
    }
  }

  /**
   * The traversal with the callback above: visits every listed node once
   * and strips it; tokens and comments stay as they were.
   */
  method StripPositions(nodes: seq<Node>, range: bool, loc: bool)
    requires Distinct(nodes)
    modifies set n | n in nodes
    ensures forall i :: 0 <= i < |nodes| ==>
      NodeDataOf(nodes[i]) == StripData(old(NodeDataOf(nodes[i])), range, loc)
    ensures forall i :: 0 <= i < |nodes| ==>
      nodes[i].tokens == old(nodes[i].tokens) && nodes[i].comments == old(nodes[i].comments)
  {
    for i := 0 to |nodes|
      invariant forall k :: 0 <= k < i ==>
        NodeDataOf(nodes[k]) == StripData(old(NodeDataOf(nodes[k])), range, loc)
      invariant forall k :: i <= k < |nodes| ==> NodeDataOf(nodes[k]) == old(NodeDataOf(nodes[k]))
      invariant forall k :: 0 <= k < |nodes| ==>
        nodes[k].tokens == old(nodes[k].tokens) && nodes[k].comments == old(nodes[k].comments)
    {
      StripNode(nodes[i], range, loc);
    }
  }

  /**
   * The optional pass over the converted tree: skipped when both `range` and
   * `loc` are on, otherwise every node is visited and stripped. Either way
   * the objects end up holding the stripped tree, node for node and link
   * for link, and their tokens and comments are kept.
   */
  method RemovePositions(root: Node, nodes: seq<Node>, ghost t: Tree, ghost subtrees: seq<Tree>, range: bool, loc: bool)
    requires IsTree(root, nodes) && Denotes(nodes, Flatten(t))
    requires Mirrors(nodes, subtrees)
    modifies set n | n in nodes
    ensures IsTree(root, nodes) && Denotes(nodes, Flatten(StripTree(t, range, loc)))
    ensures Mirrors(nodes, StripAll(subtrees, range, loc))
    ensures forall i :: 0 <= i < |nodes| ==>
      nodes[i].tokens == old(nodes[i].tokens) && nodes[i].comments == old(nodes[i].comments)
  {
    FlattenStripTree(t, range, loc);
    if !range || !loc {
      StripPositions(nodes, range, loc);
    } else {
      StripTreeKeepsAll(t);
      StripAllKeepsAll(subtrees);
    }
    StrippedMirrors(nodes, subtrees, range, loc);
  }
}
