/**
 * The view hierarchy a device reports (`TreeNode`) and the first step of
 * `treeToElements`: flattening the tree, children before parents.
 */
module Hierarchy {
  import opened Wrappers

  /**
   * A `TreeNode`: its attribute map and its children, in order. `ident`
   * stands for the node's object identity, so that two distinct objects with
   * the same attributes and children are distinct values here too.
   */
  datatype Node = Node(ident: nat, attributes: map<string, string>, children: seq<Node>)

  /** `TreeNode.attribute(key)`: the attribute's value, where a missing or empty value reads as null. */
  function Attribute(n: Node, key: string): (r: Option<string>)
    ensures r.None? <==> key !in n.attributes || n.attributes[key] == ""
    ensures r.Some? ==> r.value == n.attributes[key] && |r.value| > 0
  {
    if key in n.attributes && n.attributes[key] != "" then Some(n.attributes[key]) else None
  }

  /** The nodes of a tree in post-order: the subtrees of the children, first to last, then the root. */
  function PostOrder(t: Node): seq<Node>
    decreases t, 1
  {
    PostOrderAll(t.children) + [t]
  }

  /** The post-orders of a list of sibling subtrees, one after the other. */
  function PostOrderAll(cs: seq<Node>): seq<Node>
    decreases cs, 0
  {
    if cs == [] then [] else PostOrderAll(cs[..|cs| - 1]) + PostOrder(cs[|cs| - 1])
  }

  /**
   * `gatherElements(tree, list)`: appends every node of `tree` to `list`,
   * each child's subtree (recursively) before the node itself, and returns
   * the list.
   */
  method GatherElements(tree: Node, list: seq<Node>) returns (r: seq<Node>)
    ensures r == list + PostOrder(tree)
    decreases tree
  {
    r := list;
    for i := 0 to |tree.children|
      invariant r == list + PostOrderAll(tree.children[..i])
    {
      r := GatherElements(tree.children[i], r);
      assert tree.children[..i + 1][..i] == tree.children[..i];
    }
    assert tree.children[..|tree.children|] == tree.children;
    r := r + [tree];
  }

  /** The nodes of a tree, counted once per position they occupy in it. */
  function Nodes(t: Node): multiset<Node>
    decreases t, 1
  {
    multiset{t} + NodesAll(t.children)
  }

  function NodesAll(cs: seq<Node>): multiset<Node>
    decreases cs, 0
  {
    if cs == [] then multiset{} else NodesAll(cs[..|cs| - 1]) + Nodes(cs[|cs| - 1])
  }

  /** Flattening lists every node of the tree exactly as many times as it occurs in the tree, and nothing else. */
  lemma {:induction false} PostOrderIsNodes(t: Node)
    ensures multiset(PostOrder(t)) == Nodes(t)
    decreases t, 1
  {
    PostOrderAllIsNodes(t.children);
  }

  lemma {:induction false} PostOrderAllIsNodes(cs: seq<Node>)
    ensures multiset(PostOrderAll(cs)) == NodesAll(cs)
    decreases cs, 0
  {
    if cs != [] {
      PostOrderAllIsNodes(cs[..|cs| - 1]);
      PostOrderIsNodes(cs[|cs| - 1]);
    }
  }

  /**
   * In the post-order of `t`, the node at position `i` is immediately
   * preceded by all of its descendants: positions `i + 1 - |PostOrder(n)|`
   * up to `i` hold exactly the post-order of that node's subtree.
   */
  lemma {:induction false} SubtreeBlock(t: Node, i: nat)
    requires i < |PostOrder(t)|
    ensures |PostOrder(PostOrder(t)[i])| <= i + 1
    ensures PostOrder(t)[i + 1 - |PostOrder(PostOrder(t)[i])|..i + 1] == PostOrder(PostOrder(t)[i])
    decreases t, 1
  {
    var q := PostOrderAll(t.children);
    if i < |q| {
      SubtreeBlockAll(t.children, i);
      assert PostOrder(t)[..|q|] == q;
    }
  }

  lemma {:induction false} SubtreeBlockAll(cs: seq<Node>, i: nat)
    requires i < |PostOrderAll(cs)|
    ensures |PostOrder(PostOrderAll(cs)[i])| <= i + 1
    ensures PostOrderAll(cs)[i + 1 - |PostOrder(PostOrderAll(cs)[i])|..i + 1] == PostOrder(PostOrderAll(cs)[i])
    decreases cs, 0
  {
    var front := PostOrderAll(cs[..|cs| - 1]);
    var last := PostOrder(cs[|cs| - 1]);
    var q := PostOrderAll(cs);
    assert q == front + last;
    if i < |front| {
      SubtreeBlockAll(cs[..|cs| - 1], i);
      assert q[..|front|] == front;
    } else {
      var j := i - |front|;
      SubtreeBlock(cs[|cs| - 1], j);
      assert q[|front|..] == last;
    }
  }

  /** Every node is emitted after all of its descendants. */
  lemma DescendantsFirst(t: Node, i: nat, d: Node)
    requires i < |PostOrder(t)|
    requires d in PostOrderAll(PostOrder(t)[i].children)
    ensures d in PostOrder(t)[..i]
  {
    var p := PostOrder(t);
    var n := p[i];
    SubtreeBlock(t, i);
    var a := i + 1 - |PostOrder(n)|;
    assert p[a..i] == PostOrderAll(n.children) by {
      assert p[a..i + 1] == PostOrder(n) == PostOrderAll(n.children) + [n];
      assert p[a..i] == p[a..i + 1][..i - a];
    }
    assert p[a..i] == p[..i][a..];
  }

  /** The root comes last, after every other node. */
  lemma RootLast(t: Node)
    ensures |PostOrder(t)| == |Nodes(t)|
    ensures PostOrder(t)[|PostOrder(t)| - 1] == t
  {
    PostOrderIsNodes(t);
  }
}
