/**
 * The ESTree side of the bridge: position metadata, token and comment
 * records, the converter's tree as a value, and the tree as the mutable
 * objects that `astConverter` receives from `convertProgram` and then
 * edits in place.
 */
module Estree {

  datatype Option<+T> = None | Some(value: T)

  /** A node's `range`: zero-based offsets `[start, end)` into the source text. */
  datatype Range = Range(start: nat, end: nat)

  datatype Position = Position(line: nat, column: nat)

  /** A node's `loc`: human-readable start and end positions. */
  datatype SourceLocation = SourceLocation(start: Position, end: Position)

  /**
   * An entry of `Program.tokens`. Tokens always carry their own range and
   * location; they are plain records, not tree nodes.
   */
  datatype Token = Token(kind: string, value: string, range: Range, loc: SourceLocation)

  datatype CommentStyle = Line | Block

  /** An entry of `Program.comments`. */
  datatype Comment = Comment(style: CommentStyle, value: string, range: Range, loc: SourceLocation)

  /**
   * The tree the converter builds, as a value. `kind` stands for the node
   * type and every kind-specific scalar property; `range` and `loc` are
   * optional because the stripping pass may delete them.
   */
  datatype Tree = Tree(kind: string, range: Option<Range>, loc: Option<SourceLocation>, children: seq<Tree>)

  /** What one node holds besides its links to other nodes. */
  datatype NodeData = NodeData(kind: string, range: Option<Range>, loc: Option<SourceLocation>, arity: nat)

  function DataOf(t: Tree): (d: NodeData) {
    NodeData(t.kind, t.range, t.loc, |t.children|)
  }

  /** The nodes of `t` in pre-order: the node first, then each child's subtree, left to right. */
  function Flatten(t: Tree): (r: seq<NodeData>)
    ensures |r| > 0 && r[0] == DataOf(t)
    decreases t
  {
    [DataOf(t)] + FlattenAll(t.children)
  }

  /** The pre-order nodes of a forest, tree after tree. */
  function FlattenAll(ts: seq<Tree>): (r: seq<NodeData>)
    decreases ts
  {
    if ts == [] then [] else FlattenAll(ts[..|ts| - 1]) + Flatten(ts[|ts| - 1])
  }

  /**
   * An ESTree node object. Only the `Program` root ever has `tokens` or
   * `comments` set. The kind and the child links are fixed when the object is
   * built: the converter later deletes positions and attaches lists, but never
   * relinks a node.
   */
  class Node {
    const kind: string
    var range: Option<Range>
    var loc: Option<SourceLocation>
    const children: seq<Node>
    var tokens: Option<seq<Token>>
    var comments: Option<seq<Comment>>

    constructor (kind: string, range: Option<Range>, loc: Option<SourceLocation>, children: seq<Node>)
      ensures this.kind == kind && this.range == range && this.loc == loc && this.children == children
      ensures tokens == None && comments == None
    {
      this.kind := kind;
      this.range := range;
      this.loc := loc;
      this.children := children;
      tokens := None;
      comments := None;
    }
  }

  function NodeDataOf(n: Node): (d: NodeData)
    reads n
  {
    NodeData(n.kind, n.range, n.loc, |n.children|)
  }

  ghost predicate Distinct(nodes: seq<Node>) {
    forall i, j :: 0 <= i < j < |nodes| ==> nodes[i] != nodes[j]
  }

  /** Every child of a listed node is listed too. */
  ghost predicate Closed(nodes: seq<Node>)
  {
    forall i, j :: 0 <= i < |nodes| && 0 <= j < |nodes[i].children| ==> nodes[i].children[j] in nodes
  }

  /**
   * `nodes` lists the objects of the tree rooted at `root`: root first, each
   * object once, and every child of a listed object listed too.
   */
  ghost predicate IsTree(root: Node, nodes: seq<Node>)
  {
    |nodes| > 0 && nodes[0] == root && Distinct(nodes) && Closed(nodes)
  }

  /** The heap nodes hold, one for one and in order, the data of `ds`. */
  ghost predicate Denotes(nodes: seq<Node>, ds: seq<NodeData>)
    reads set n | n in nodes
  {
    |nodes| == |ds| && forall i :: 0 <= i < |nodes| ==> NodeDataOf(nodes[i]) == ds[i]
  }

  /** No two child links, of one object or of two, lead to the same object. */
  ghost predicate LinksUnshared(nodes: seq<Node>)
  {
    forall i, j, i', j' ::
      (0 <= i < |nodes| && 0 <= j < |nodes[i].children| && 0 <= i' < |nodes| && 0 <= j' < |nodes[i'].children| &&
       nodes[i].children[j] == nodes[i'].children[j'])
      ==> i == i' && j == j'
  }

  /** No child link of a listed object leads to any of `targets`. */
  ghost predicate Unlinked(nodes: seq<Node>, targets: seq<Node>)
  {
    forall i, j, m :: 0 <= i < |nodes| && 0 <= j < |nodes[i].children| && 0 <= m < |targets| ==>
      nodes[i].children[j] != targets[m]
  }

  /**
   * The heap nodes are the tree `subtrees[i]` node for node: each holds its
   * subtree's data, and a node's `j`-th child is the listed node standing
   * for that subtree's `j`-th child.
   */
  ghost predicate Mirrors(nodes: seq<Node>, subtrees: seq<Tree>)
    reads set n | n in nodes
  {
    && |nodes| == |subtrees|
    && (forall i :: 0 <= i < |nodes| ==> NodeDataOf(nodes[i]) == DataOf(subtrees[i]))
    && (forall i, j, k ::
          (0 <= i < |nodes| && 0 <= j < |nodes[i].children| && 0 <= k < |nodes| && nodes[k] == nodes[i].children[j])
          ==> subtrees[k] == subtrees[i].children[j])
  }

  /** In a mirrored list no node is its own child. */
  lemma NoNodeIsItsOwnChild(nodes: seq<Node>, subtrees: seq<Tree>, i: nat, j: nat)
    requires Mirrors(nodes, subtrees)
    requires i < |nodes| && j < |nodes[i].children|
    ensures nodes[i].children[j] != nodes[i]
  {
    assert NodeDataOf(nodes[i]) == DataOf(subtrees[i]);
    assert subtrees[i].children[j] < subtrees[i];
  }

  /** Each step of `path` goes from a node to one of its children. */
  ghost predicate IsChildPath(path: seq<Node>)
  {
    forall k :: 0 <= k < |path| - 1 ==> path[k + 1] in path[k].children
  }

  /** Every node reachable from the root of a listed tree is in the list. */
  lemma {:induction false} ReachableNodesAreListed(root: Node, nodes: seq<Node>, path: seq<Node>)
    requires IsTree(root, nodes)
    requires |path| > 0 && path[0] == root && IsChildPath(path)
    ensures forall k :: 0 <= k < |path| ==> path[k] in nodes
  {
    if |path| > 1 {
      var prefix := path[..|path| - 1];
      assert IsChildPath(prefix) by {
        forall k | 0 <= k < |prefix| - 1
          ensures prefix[k + 1] in prefix[k].children
        {
          assert prefix[k + 1] == path[k + 1] && prefix[k] == path[k];
        }
      }
      ReachableNodesAreListed(root, nodes, prefix);
      var parent := path[|path| - 2];
      assert parent == prefix[|prefix| - 1];
      var i :| 0 <= i < |nodes| && nodes[i] == parent;
      var j :| 0 <= j < |parent.children| && parent.children[j] == path[|path| - 1];
      assert nodes[i].children[j] in nodes;
      forall k | 0 <= k < |path|
        ensures path[k] in nodes
      {
        if k < |path| - 1 {
          assert path[k] == prefix[k];
        }
      }
    }
  }

  lemma ConcatTree(a: seq<Node>, b: seq<Node>, da: seq<NodeData>, db: seq<NodeData>)
    requires Distinct(a) && Distinct(b) && forall n :: n in b ==> n !in a
    requires Closed(a) && Closed(b)
    requires Denotes(a, da) && Denotes(b, db)
    ensures Distinct(a + b) && Closed(a + b) && Denotes(a + b, da + db)
  {
    var ab := a + b;
    forall i, j | 0 <= i < |ab| && 0 <= j < |ab[i].children|
      ensures ab[i].children[j] in ab
    {
      if i < |a| {
        assert ab[i] == a[i];
      } else {
        assert ab[i] == b[i - |a|];
      }
    }
    forall i, j | 0 <= i < j < |ab|
      ensures ab[i] != ab[j]
    {
      if j < |a| {
        assert ab[i] == a[i] && ab[j] == a[j];
      } else if i >= |a| {
        assert ab[i] == b[i - |a|] && ab[j] == b[j - |a|];
      } else {
        assert ab[i] in a && ab[j] in b;
      }
    }
  }

  lemma ConcatMirrors(a: seq<Node>, b: seq<Node>, sa: seq<Tree>, sb: seq<Tree>)
    requires Distinct(a + b) && Closed(a) && Closed(b)
    requires Mirrors(a, sa) && Mirrors(b, sb)
    ensures Mirrors(a + b, sa + sb)
  {
    var ab, sab := a + b, sa + sb;
    forall i | 0 <= i < |ab|
      ensures NodeDataOf(ab[i]) == DataOf(sab[i])
    {
      if i >= |a| {
        assert ab[i] == b[i - |a|] && sab[i] == sb[i - |a|];
      }
    }
    forall i, j, k | 0 <= i < |ab| && 0 <= j < |ab[i].children| && 0 <= k < |ab| && ab[k] == ab[i].children[j]
      ensures sab[k] == sab[i].children[j]
    {
      if i < |a| {
        assert ab[i] == a[i];
        var c := a[i].children[j];
        var m :| 0 <= m < |a| && a[m] == c;
        assert ab[m] == c;
        assert k == m;
      } else {
        assert ab[i] == b[i - |a|] && sab[i] == sb[i - |a|];
        var c := b[i - |a|].children[j];
        var m :| 0 <= m < |b| && b[m] == c;
        assert ab[|a| + m] == c;
        assert k == |a| + m;
        assert ab[k] == b[m] && sab[k] == sb[m];
      }
    }
  }

  /** Putting a new root in front of its children's listed subtrees gives a tree listing `t`. */
  lemma RootTree(root: Node, listed: seq<Node>, t: Tree, at: seq<nat>)
    requires root !in listed && Distinct(listed) && Closed(listed)
    requires NodeDataOf(root) == DataOf(t) && Denotes(listed, FlattenAll(t.children))
    requires |at| == |root.children|
    requires forall j :: 0 <= j < |at| ==> at[j] < |listed| && listed[at[j]] == root.children[j]
    ensures IsTree(root, [root] + listed) && Denotes([root] + listed, Flatten(t))
  {
    var nodes := [root] + listed;
    forall i, j | 0 <= i < |nodes| && 0 <= j < |nodes[i].children|
      ensures nodes[i].children[j] in nodes
    {
      if i == 0 {
        assert nodes[1 + at[j]] == listed[at[j]];
      } else {
        assert nodes[i] == listed[i - 1];
      }
    }
    forall i | 0 <= i < |nodes|
      ensures NodeDataOf(nodes[i]) == Flatten(t)[i]
    {
      if i > 0 {
        assert nodes[i] == listed[i - 1];
      }
    }
  }

  /**
   * The same listing mirrors `t`: the new root stands for `t`, and each of
   * its links leads to the object standing for the matching child of `t`.
   */
  lemma RootMirrors(root: Node, listed: seq<Node>, t: Tree, subtrees: seq<Tree>, at: seq<nat>)
    requires root !in listed && Distinct(listed) && Closed(listed) && Mirrors(listed, subtrees)
    requires NodeDataOf(root) == DataOf(t) && |at| == |root.children|
    requires forall j :: 0 <= j < |at| ==>
      at[j] < |listed| && listed[at[j]] == root.children[j] && subtrees[at[j]] == t.children[j]
    ensures Mirrors([root] + listed, [t] + subtrees)
  {
    var nodes, subs := [root] + listed, [t] + subtrees;
    forall i | 0 <= i < |nodes|
      ensures NodeDataOf(nodes[i]) == DataOf(subs[i])
    {
      if i > 0 {
        assert nodes[i] == listed[i - 1] && subs[i] == subtrees[i - 1];
      }
    }
    RootLinksMirror(root, listed, t, subtrees, at);
    ListedLinksMirror(root, listed, t, subtrees);
    forall i, j, k | 0 <= i < |nodes| && 0 <= j < |nodes[i].children| && 0 <= k < |nodes| && nodes[k] == nodes[i].children[j]
      ensures subs[k] == subs[i].children[j]
    {
      if i > 0 {
        assert nodes[i] == listed[i - 1] && subs[i] == subtrees[i - 1];
      }
    }
  }

  /** The new root's links lead to the objects standing for `t`'s children. */
  lemma RootLinksMirror(root: Node, listed: seq<Node>, t: Tree, subtrees: seq<Tree>, at: seq<nat>)
    requires root !in listed && Distinct(listed) && |listed| == |subtrees|
    requires NodeDataOf(root) == DataOf(t) && |at| == |root.children|
    requires forall j :: 0 <= j < |at| ==>
      at[j] < |listed| && listed[at[j]] == root.children[j] && subtrees[at[j]] == t.children[j]
    ensures forall j, k :: 0 <= j < |root.children| && 0 <= k < 1 + |listed| && ([root] + listed)[k] == root.children[j] ==>
      ([t] + subtrees)[k] == t.children[j]
  {
    var nodes, subs := [root] + listed, [t] + subtrees;
    forall j, k | 0 <= j < |root.children| && 0 <= k < |nodes| && nodes[k] == root.children[j]
      ensures subs[k] == t.children[j]
    {
      assert k > 0;
      assert nodes[k] == listed[k - 1] && subs[k] == subtrees[k - 1];
      assert listed[k - 1] == listed[at[j]];
    }
  }

  /** Links between listed objects keep mirroring once the new root is put in front. */
  lemma ListedLinksMirror(root: Node, listed: seq<Node>, t: Tree, subtrees: seq<Tree>)
    requires root !in listed && Closed(listed) && Mirrors(listed, subtrees)
    ensures forall i, j, k ::
      (0 <= i < |listed| && 0 <= j < |listed[i].children| && 0 <= k < 1 + |listed| && ([root] + listed)[k] == listed[i].children[j])
      ==> ([t] + subtrees)[k] == subtrees[i].children[j]
  {
    var nodes, subs := [root] + listed, [t] + subtrees;
    forall i, j, k | 0 <= i < |listed| && 0 <= j < |listed[i].children| && 0 <= k < |nodes| && nodes[k] == listed[i].children[j]
      ensures subs[k] == subtrees[i].children[j]
    {
      assert k > 0;
      assert nodes[k] == listed[k - 1] && subs[k] == subtrees[k - 1];
    }
  }

  /** Appending the listing of the next sibling subtree keeps the loop's facts. */
  lemma AppendListing(listed: seq<Node>, subs: seq<Tree>, roots: seq<Node>, at: seq<nat>,
                      r: Node, rs: seq<Node>, rsubs: seq<Tree>, ts: seq<Tree>, i: nat)
    requires i < |ts| && |roots| == i && |at| == i && |subs| == |listed|
    requires Distinct(listed) && Closed(listed) && Mirrors(listed, subs)
    requires Denotes(listed, FlattenAll(ts[..i]))
    requires forall j :: 0 <= j < i ==>
      at[j] < |listed| && listed[at[j]] == roots[j] && subs[at[j]] == ts[j]
    requires forall n :: n in rs ==> n !in listed
    requires IsTree(r, rs) && Denotes(rs, Flatten(ts[i])) && Mirrors(rs, rsubs) && rsubs[0] == ts[i]
    ensures Distinct(listed + rs) && Closed(listed + rs) && Mirrors(listed + rs, subs + rsubs)
    ensures Denotes(listed + rs, FlattenAll(ts[..i + 1]))
    ensures forall j :: 0 <= j < i + 1 ==>
      (at + [|listed|])[j] < |listed + rs| && (listed + rs)[(at + [|listed|])[j]] == (roots + [r])[j] &&
      (subs + rsubs)[(at + [|listed|])[j]] == ts[j]
  {
    ConcatTree(listed, rs, FlattenAll(ts[..i]), Flatten(ts[i]));
    ConcatMirrors(listed, rs, subs, rsubs);
    assert ts[..i + 1][..i] == ts[..i];
    assert FlattenAll(ts[..i + 1]) == FlattenAll(ts[..i]) + Flatten(ts[i]);
    var at', listed', subs', roots' := at + [|listed|], listed + rs, subs + rsubs, roots + [r];
    forall j | 0 <= j < i + 1
      ensures at'[j] < |listed'| && listed'[at'[j]] == roots'[j] && subs'[at'[j]] == ts[j]
    {
      if j < i {
        assert listed'[at[j]] == listed[at[j]] && subs'[at[j]] == subs[at[j]];
      } else {
        assert listed'[at'[j]] == rs[0] && subs'[at'[j]] == rsubs[0];
      }
    }
  }

  /**
   * Appending the listing of the next sibling subtree keeps every link
   * unshared and away from the siblings' roots.
   */
  lemma AppendUnshared(listed: seq<Node>, roots: seq<Node>, r: Node, rs: seq<Node>)
    requires Closed(listed) && Closed(rs) && forall n :: n in rs ==> n !in listed
    requires LinksUnshared(listed) && LinksUnshared(rs)
    requires Unlinked(listed, roots) && Distinct(roots) && forall m :: 0 <= m < |roots| ==> roots[m] in listed
    requires |rs| > 0 && rs[0] == r && Unlinked(rs, [r])
    ensures LinksUnshared(listed + rs) && Unlinked(listed + rs, roots + [r]) && Distinct(roots + [r])
  {
    var all := listed + rs;
    forall i, j, i', j' |
      0 <= i < |all| && 0 <= j < |all[i].children| && 0 <= i' < |all| && 0 <= j' < |all[i'].children| &&
      all[i].children[j] == all[i'].children[j']
      ensures i == i' && j == j'
    {
      if (i < |listed|) != (i' < |listed|) {
        assert false;
      } else if i >= |listed| {
        assert all[i] == rs[i - |listed|] && all[i'] == rs[i' - |listed|];
      } else {
        assert all[i] == listed[i] && all[i'] == listed[i'];
      }
    }
    forall i, j, m | 0 <= i < |all| && 0 <= j < |all[i].children| && 0 <= m < |roots| + 1
      ensures all[i].children[j] != (roots + [r])[m]
    {
      if i < |listed| {
        assert all[i] == listed[i];
        if m == |roots| {
          assert listed[i].children[j] in listed;
        }
      } else {
        assert all[i] == rs[i - |listed|];
        assert rs[i - |listed|].children[j] in rs;
        if m < |roots| {
          assert roots[m] in listed;
        } else {
          assert (roots + [r])[m] == [r][0];
        }
      }
    }
  }

  /**
   * The new root's links lead to distinct objects that no listed link
   * leads to, and no link leads to the new root.
   */
  lemma RootUnshared(root: Node, listed: seq<Node>)
    requires root !in listed && Closed(listed) && LinksUnshared(listed)
    requires Unlinked(listed, root.children) && Distinct(root.children)
    requires forall m :: 0 <= m < |root.children| ==> root.children[m] in listed
    ensures LinksUnshared([root] + listed) && Unlinked([root] + listed, [root])
  {
    var nodes := [root] + listed;
    forall i, j, i', j' |
      0 <= i < |nodes| && 0 <= j < |nodes[i].children| && 0 <= i' < |nodes| && 0 <= j' < |nodes[i'].children| &&
      nodes[i].children[j] == nodes[i'].children[j']
      ensures i == i' && j == j'
    {
      if i > 0 {
        assert nodes[i] == listed[i - 1];
      }
      if i' > 0 {
        assert nodes[i'] == listed[i' - 1];
      }
    }
    forall i, j | 0 <= i < |nodes| && 0 <= j < |nodes[i].children|
      ensures nodes[i].children[j] != root
    {
      if i > 0 {
        assert nodes[i] == listed[i - 1];
        assert listed[i - 1].children[j] in listed;
      }
    }
  }

  /**
   * `nodes` are the objects for the converter's tree `t`, rooted at `root`:
   * they list the tree (`IsTree`), hold its pre-order listing node by node
   * (`Denotes`), mirror it link by link with `subtrees[0] == t`
   * (`Mirrors`), no two links lead to the same object, and no link leads
   * to the root.
   */
  ghost predicate Materialised(root: Node, nodes: seq<Node>, t: Tree, subtrees: seq<Tree>)
    reads set n | n in nodes
  {
    && IsTree(root, nodes) && Denotes(nodes, Flatten(t))
    && Mirrors(nodes, subtrees) && subtrees[0] == t
    && LinksUnshared(nodes) && Unlinked(nodes, [root])
  }

  /**
   * `listed` are the objects for the sibling subtrees `ts`, one subtree after
   * the other: `roots[j]`, found at `listed[at[j]]`, stands for `ts[j]`.
   */
  ghost predicate ChildListing(ts: seq<Tree>, roots: seq<Node>, listed: seq<Node>, subs: seq<Tree>, at: seq<nat>)
    reads set n | n in listed
  {
    && |roots| == |ts| && |at| == |ts| && |subs| == |listed|
    && Distinct(listed) && Closed(listed)
    && (forall j :: 0 <= j < |ts| ==> at[j] < |listed| && listed[at[j]] == roots[j] && subs[at[j]] == ts[j])
    && Denotes(listed, FlattenAll(ts)) && Mirrors(listed, subs)
    && LinksUnshared(listed) && Unlinked(listed, roots) && Distinct(roots)
  }

  /** Appending the objects for the next sibling subtree extends the listing. */
  lemma AppendChild(ts: seq<Tree>, i: nat, roots: seq<Node>, listed: seq<Node>, subs: seq<Tree>, at: seq<nat>,
                    r: Node, rs: seq<Node>, rsubs: seq<Tree>)
    requires i < |ts| && ChildListing(ts[..i], roots, listed, subs, at)
    requires forall n :: n in rs ==> n !in listed
    requires Materialised(r, rs, ts[i], rsubs)
    ensures ChildListing(ts[..i + 1], roots + [r], listed + rs, subs + rsubs, at + [|listed|])
  {
    AppendListing(listed, subs, roots, at, r, rs, rsubs, ts, i);
    assert forall m :: 0 <= m < |roots| ==> roots[m] in listed by {
      forall m | 0 <= m < |roots|
        ensures roots[m] in listed
      {
        assert ts[..i][m] == ts[m];
      }
    }
    AppendUnshared(listed, roots, r, rs);
  }

  /** A new root in front of its children's objects gives the objects for `t`. */
  lemma AddRoot(root: Node, roots: seq<Node>, listed: seq<Node>, t: Tree, subs: seq<Tree>, at: seq<nat>)
    requires ChildListing(t.children, roots, listed, subs, at)
    requires root !in listed && root.children == roots && NodeDataOf(root) == DataOf(t)
    ensures Materialised(root, [root] + listed, t, [t] + subs)
  {
    RootTree(root, listed, t, at);
    RootMirrors(root, listed, t, subs, at);
    RootUnshared(root, listed);
  }

  /**
   * Allocates the ESTree objects for the converter's tree `t`: one fresh
   * node per tree node, listed in pre-order, each with `t`'s data and with
   * child links that follow `t`'s children. No two links lead to one object
   * and none leads back to the root.
   */
  method Materialise(t: Tree) returns (root: Node, nodes: seq<Node>, ghost subtrees: seq<Tree>)
    ensures fresh(set n | n in nodes)
    ensures Materialised(root, nodes, t, subtrees)
    ensures forall n :: n in nodes ==> n.tokens == None && n.comments == None
    decreases t, 1
  {
    var roots, listed;
    ghost var subs, at;
    roots, listed, subs, at := MaterialiseChildren(t.children);
    root := new Node(t.kind, t.range, t.loc, roots);
    nodes := [root] + listed;
    subtrees := [t] + subs;
    AddRoot(root, roots, listed, t, subs, at);
    assert forall n :: n in nodes ==> n == root || n in listed;
  }

  /**
   * Allocates the objects for a sequence of sibling subtrees, one after the
   * other: `roots[j]` is the object for `ts[j]`, found at `listed[at[j]]`.
   */
  method MaterialiseChildren(ts: seq<Tree>)
    returns (roots: seq<Node>, listed: seq<Node>, ghost subs: seq<Tree>, ghost at: seq<nat>)
    ensures fresh(set n | n in listed)
    ensures ChildListing(ts, roots, listed, subs, at)
    ensures forall n :: n in listed ==> n.tokens == None && n.comments == None
    decreases ts, 0
  {
    listed, roots, subs, at := [], [], [], [];
    for i := 0 to |ts|
      invariant fresh(set n | n in listed)
      invariant ChildListing(ts[..i], roots, listed, subs, at)
      invariant forall n :: n in listed ==> n.tokens == None && n.comments == None
    {
      var r, rs;
      ghost var rsubs;
      r, rs, rsubs := Materialise(ts[i]);
      AppendChild(ts, i, roots, listed, subs, at, r, rs, rsubs);
      at := at + [|listed|];
      listed := listed + rs;
      subs := subs + rsubs;
      roots := roots + [r];
    }
    assert ts[..|ts|] == ts;
  }
}
