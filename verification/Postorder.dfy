/** The postorder walk that frees a whole red-black tree (OsCompat.c, Common.h). The walk has no stack:
    it finds the next node from the links of the current one. Every link is read through a method that
    demands a node that has not been freed yet. */
module Postorder {

  class RbNode {
    var left: RbNode?
    var right: RbNode?
    var parent: RbNode?

    method Left(ghost live: set<RbNode>) returns (r: RbNode?)
      requires this in live
      ensures r == left
    {
      r := left;
    }

    method Right(ghost live: set<RbNode>) returns (r: RbNode?)
      requires this in live
      ensures r == right
    {
      r := right;
    }

    method Parent(ghost live: set<RbNode>) returns (r: RbNode?)
      requires this in live
      ensures r == parent
    {
      r := parent;
    }
  }

  class RbRoot {
    var node: RbNode?
  }

  /** The shape of a tree, with the objects that make it up. */
  datatype Tree = Leaf | Node(left: Tree, me: RbNode, right: Tree)

  ghost function Root(t: Tree): RbNode? {
    if t.Leaf? then null else t.me
  }

  /** The nodes of a tree, children before their parent and left before right. */
  ghost function Post(t: Tree): seq<RbNode> {
    if t.Leaf? then [] else Post(t.left) + Post(t.right) + [t.me]
  }

  ghost function Nodes(t: Tree): set<RbNode> {
    if t.Leaf? then {} else Nodes(t.left) + Nodes(t.right) + {t.me}
  }

  ghost predicate Linked(t: Tree, parent: RbNode?)
    reads Nodes(t)
  {
    t.Node? ==>
      && t.me.left == Root(t.left) && t.me.right == Root(t.right) && t.me.parent == parent
      && Linked(t.left, t.me) && Linked(t.right, t.me)
  }

  ghost predicate Distinct(s: seq<RbNode>) {
    forall i, j :: 0 <= i < j < |s| ==> s[i] != s[j]
  }

  ghost predicate Later(s: seq<RbNode>, i: int, x: RbNode) {
    exists k :: i < k < |s| && 0 <= k && s[k] == x
  }

  lemma {:induction false} PostHasNodes(t: Tree)
    ensures forall x :: x in Nodes(t) ==> x in Post(t)
    ensures forall x :: x in Post(t) ==> x in Nodes(t)
  {
    if t.Node? {
      PostHasNodes(t.left);
      PostHasNodes(t.right);
    }
  }

  /** The node after position i: below the right sibling if there is one and the node is a left child,
      else the parent. What the step reads comes later in the order. */
  ghost predicate Follows(s: seq<RbNode>, i: nat, sub: Tree)
    requires i + 1 < |s|
    reads s, Nodes(sub)
  {
    var n := s[i];
    && n.parent != null && Later(s, i, n.parent)
    && if n == n.parent.left && n.parent.right != null
       then && sub.Node? && sub.me == n.parent.right && Linked(sub, n.parent)
            && Post(sub)[0] == s[i + 1]
            && (forall x :: x in Nodes(sub) ==> Later(s, i, x))
       else n.parent == s[i + 1]
  }

  lemma LaterInside(s: seq<RbNode>, off: nat, part: seq<RbNode>, i: nat, x: RbNode)
    requires off + |part| <= |s| && s[off..off + |part|] == part
    requires Later(part, i, x)
    ensures Later(s, off + i, x)
  {
    var k :| i < k < |part| && 0 <= k && part[k] == x;
    assert s[off + k] == x;
  }

  lemma FollowsInside(s: seq<RbNode>, off: nat, part: seq<RbNode>, i: nat, sub: Tree)
    requires off + |part| <= |s| && s[off..off + |part|] == part
    requires i + 1 < |part| && Follows(part, i, sub)
    ensures Follows(s, off + i, sub)
  {
    assert s[off + i] == part[i] && s[off + i + 1] == part[i + 1];
    LaterInside(s, off, part, i, part[i].parent);
    forall x | x in Nodes(sub) && Later(part, i, x) ensures Later(s, off + i, x) {
      LaterInside(s, off, part, i, x);
    }
  }

  lemma {:induction false} DistinctParts(t: Tree)
    requires t.Node? && Distinct(Post(t))
    ensures Distinct(Post(t.left)) && Distinct(Post(t.right))
  {
    var l, r := Post(t.left), Post(t.right);
    forall i, j | 0 <= i < j < |l| ensures l[i] != l[j] {
      assert Post(t)[i] == l[i] && Post(t)[j] == l[j];
    }
    forall i, j | 0 <= i < j < |r| ensures r[i] != r[j] {
      assert Post(t)[|l| + i] == r[i] && Post(t)[|l| + j] == r[j];
    }
  }

  /** From every node but the last, the links lead to the next one. */
  lemma {:induction false} LinksFollow(t: Tree, parent: RbNode?, i: nat) returns (sub: Tree)
    requires Linked(t, parent) && Distinct(Post(t)) && i < |Post(t)|
    ensures i + 1 == |Post(t)| ==> Post(t)[i].parent == parent
    ensures i + 1 < |Post(t)| ==> Follows(Post(t), i, sub)
  {
    sub := Leaf;
    var l, r := |Post(t.left)|, |Post(t.right)|;
    PostLength(t);
    DistinctParts(t);
    if i + 1 < l {
      sub := LinksFollow(t.left, t.me, i);
      InLeft(t, i, sub);
    } else if i + 1 == l {
      sub := AtLeftChild(t, parent);
    } else if i + 1 < l + r {
      sub := LinksFollow(t.right, t.me, i - l);
      InRight(t, i - l, sub);
    } else if i + 1 == l + r {
      AtRightChild(t, parent);
    }
  }

  lemma PostLength(t: Tree)
    requires t.Node?
    ensures |Post(t)| == |Post(t.left)| + |Post(t.right)| + 1 && Post(t)[|Post(t)| - 1] == t.me
  {
  }

  lemma InLeft(t: Tree, i: nat, sub: Tree)
    requires t.Node? && i + 1 < |Post(t.left)| && Follows(Post(t.left), i, sub)
    ensures Follows(Post(t), i, sub)
  {
    var l := Post(t.left);
    assert Post(t)[0..|l|] == l;
    FollowsInside(Post(t), 0, l, i, sub);
  }

  lemma InRight(t: Tree, i: nat, sub: Tree)
    requires t.Node? && i + 1 < |Post(t.right)| && Follows(Post(t.right), i, sub)
    ensures Follows(Post(t), |Post(t.left)| + i, sub)
  {
    var l, r := Post(t.left), Post(t.right);
    assert Post(t)[|l|..|l| + |r|] == r;
    FollowsInside(Post(t), |l|, r, i, sub);
  }

  lemma AtLeftChild(t: Tree, parent: RbNode?) returns (sub: Tree)
    requires Linked(t, parent) && t.Node? && t.left.Node?
    ensures |Post(t.left)| > 0 && Follows(Post(t), |Post(t.left)| - 1, sub)
  {
    sub := t.right;
    PostHasNodes(t.right);
    var i := |Post(t.left)| - 1;
    assert Post(t)[i] == t.left.me;
    assert Post(t)[|Post(t)| - 1] == t.me;
    forall x | x in Nodes(t.right) ensures Later(Post(t), i, x) {
      var k :| 0 <= k < |Post(t.right)| && Post(t.right)[k] == x;
      assert Post(t)[i + 1 + k] == x;
    }
  }

  lemma AtRightChild(t: Tree, parent: RbNode?)
    requires Linked(t, parent) && t.Node? && t.right.Node? && Distinct(Post(t))
    ensures |Post(t)| >= 2 && Follows(Post(t), |Post(t)| - 2, Leaf)
  {
    var i := |Post(t)| - 2;
    assert Post(t)[i] == t.right.me;
    assert Post(t)[i + 1] == t.me;
    if t.left.Node? {
      assert Post(t)[|Post(t.left)| - 1] == t.left.me;
    }
  }

  /** rb_left_deepest_node */
  method LeftDeepest(node: RbNode, ghost t: Tree, ghost parent: RbNode?, ghost live: set<RbNode>)
    returns (r: RbNode)
    requires t.Node? && t.me == node && Linked(t, parent)
    requires Nodes(t) <= live
    ensures r == Post(t)[0]
  {
    r := node;
    ghost var sub, above := t, parent;
    while true
      invariant sub.Node? && sub.me == r && Linked(sub, above)
      invariant Nodes(sub) <= live
      invariant Post(sub)[0] == Post(t)[0]
      decreases sub
    {
      var left := r.Left(live);
      if left != null {
        above := r;
        r := left;
        sub := sub.left;
      } else {
        var right := r.Right(live);
        if right == null {
          return;
        }
        above := r;
        r := right;
        sub := sub.right;
      }
    }
  }

  /** rb_next_postorder: the successor in postorder, read from nodes that come later in the order. */
  method NextPostorder(node: RbNode?, ghost t: Tree, ghost i: nat, ghost live: set<RbNode>)
    returns (r: RbNode?)
    requires Linked(t, null) && Distinct(Post(t))
    requires node != null ==> i < |Post(t)| && Post(t)[i] == node
    requires forall k :: i <= k < |Post(t)| ==> Post(t)[k] in live
    ensures r == if node != null && i + 1 < |Post(t)| then Post(t)[i + 1] else null
  {
    if node == null {
      return null;
    }
    ghost var sub := LinksFollow(t, null, i);
    var parent := node.Parent(live);
    if parent == null {
      return null;
    }
    var left := parent.Left(live);
    var right := parent.Right(live);
    if node == left && right != null {
      r := LeftDeepest(right, sub, parent, live);
    } else {
      r := parent;
    }
  }

  /** rb_first_postorder */
  method FirstPostorder(root: RbRoot, ghost t: Tree, ghost live: set<RbNode>) returns (r: RbNode?)
    requires root.node == Root(t) && Linked(t, null)
    requires Nodes(t) <= live
    ensures r == if t.Leaf? then null else Post(t)[0]
  {
    if root.node == null {
      return null;
    }
    r := LeftDeepest(root.node, t, null, live);
  }

  /** The freeing loop: it frees every node of the tree exactly once, children first, reads no freed
      node, and leaves an empty tree. */
  method FreeTree(root: RbRoot, ghost t: Tree) returns (freed: seq<RbNode>)
    requires root.node == Root(t) && Linked(t, null) && Distinct(Post(t))
    requires forall n :: n in Nodes(t) ==> allocated(n)
    modifies root
    ensures freed == Post(t) && root.node == null
  {
    freed := [];
    ghost var live: set<RbNode> := Nodes(t);
    PostHasNodes(t);
    var pos := FirstPostorder(root, t, live);
    while pos != null
      invariant Linked(t, null)
      invariant |freed| <= |Post(t)| && freed == Post(t)[..|freed|]
      invariant pos == if |freed| < |Post(t)| then Post(t)[|freed|] else null
      invariant forall k :: |freed| <= k < |Post(t)| ==> Post(t)[k] in live
      decreases |Post(t)| - |freed|
    {
      var n := NextPostorder(pos, t, |freed|, live);
      live := live - {pos};
      freed := freed + [pos];
      pos := n;
    }
    root.node := null;
  }

  ghost predicate Earlier(s: seq<RbNode>, i: nat, x: RbNode?) {
    exists j :: 0 <= j < i && j < |s| && s[j] == x
  }

  lemma EarlierInside(s: seq<RbNode>, off: nat, part: seq<RbNode>, i: nat, x: RbNode?)
    requires off + |part| <= |s| && s[off..off + |part|] == part
    requires Earlier(part, i, x)
    ensures Earlier(s, off + i, x)
  {
    var j :| 0 <= j < i && j < |part| && part[j] == x;
    assert s[off + j] == x;
  }

  /** In the order of freeing, both children of a node come before the node. */
  lemma {:induction false} ChildrenFirst(t: Tree, parent: RbNode?, i: nat, child: RbNode)
    requires Linked(t, parent) && i < |Post(t)|
    requires child == Post(t)[i].left || child == Post(t)[i].right
    ensures Earlier(Post(t), i, child)
  {
    var l, r := Post(t.left), Post(t.right);
    if i < |l| {
      assert Post(t)[i] == l[i];
      ChildrenFirst(t.left, t.me, i, child);
      EarlierInside(Post(t), 0, l, i, child);
    } else if i < |l| + |r| {
      assert Post(t)[i] == r[i - |l|];
      ChildrenFirst(t.right, t.me, i - |l|, child);
      EarlierInside(Post(t), |l|, r, i - |l|, child);
    } else {
      assert Post(t)[i] == t.me;
      if t.left.Node? { PostLength(t.left); }
      if t.right.Node? { PostLength(t.right); }
      assert child == Root(t.left) ==> Post(t)[|l| - 1] == child;
      assert child == Root(t.right) ==> Post(t)[|l| + |r| - 1] == child;
    }
  }
}
