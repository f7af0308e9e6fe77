/** The linked red-black tree of src/rbtree.c: rotation, insertion with its upward loop, and
    the three searches, each proved against the shapes of RbShape. */
module RbTree {
  import opened RbAddShape
  import opened RbShape

  // ---------- shapes and links ----------

  ghost predicate Distinct(t: Tree) {
    match t
    case Leaf => true
    case Bin(_, l, n, r) =>
      && n !in Nodes(l) && n !in Nodes(r) && Nodes(l) !! Nodes(r)
      && Distinct(l) && Distinct(r)
  }

  ghost predicate PathDistinct(p: Path) {
    match p
    case Top => true
    case Step(_, _, n, sib, up) =>
      && n !in Nodes(sib) && n !in PathNodes(up) && Nodes(sib) !! PathNodes(up)
      && Distinct(sib) && PathDistinct(up)
  }

  /** Every link and colour below `parent` is as the shape says, parent links included. */
  ghost predicate Links(t: Tree, parent: Node?)
    reads Nodes(t)
  {
    match t
    case Leaf => true
    case Bin(c, l, n, r) =>
      && n.parent == parent && n.red == c && n.left == RootOf(l) && n.right == RootOf(r)
      && Links(l, n) && Links(r, n)
  }

  ghost predicate PathLinks(p: Path, below: Node?, root: Node?)
    reads PathNodes(p)
  {
    match p
    case Top => root == below
    case Step(d, c, n, sib, up) =>
      && n.Kid(d) == below && n.Kid(!d) == RootOf(sib)
      && n.parent == Above(up) && n.red == c
      && Links(sib, n) && PathLinks(up, n, root)
  }

  /** The heap holds the tree Plug(p, t), with root pointer `root`. */
  ghost predicate At(p: Path, t: Tree, root: Node?)
    reads Nodes(t), PathNodes(p)
  {
    && Distinct(t) && PathDistinct(p) && Nodes(t) !! PathNodes(p)
    && Links(t, Above(p)) && PathLinks(p, RootOf(t), root)
  }

  /** One step down, and one step up. */
  lemma Descend(p: Path, t: Tree, root: Node?, d: bool)
    requires t.Bin? && At(p, t, root)
    ensures At(Step(d, t.red, t.n, t.Sub(!d), p), t.Sub(d), root)
  {
  }

  lemma Ascend(p: Path, t: Tree, root: Node?)
    requires p.Step? && At(p, t, root)
    ensures At(p.up, Make(p.red, p.d, t, p.n, p.sib), root)
  {
  }

  lemma {:induction false} AscendAll(p: Path, t: Tree, root: Node?)
    requires At(p, t, root)
    ensures At(Top, Plug(p, t), root)
    decreases p
  {
    if p.Step? {
      Ascend(p, t, root);
      AscendAll(p.up, Make(p.red, p.d, t, p.n, p.sib), root);
    }
  }

  lemma MakeDistinct(c: bool, d: bool, a: Tree, n: Node, b: Tree)
    requires Distinct(a) && Distinct(b) && Nodes(a) !! Nodes(b) && n !in Nodes(a) && n !in Nodes(b)
    ensures Distinct(Make(c, d, a, n, b)) && Nodes(Make(c, d, a, n, b)) == {n} + Nodes(a) + Nodes(b)
  {
  }

  /** The three subtrees of a rotation lie apart from each other and from the two nodes. */
  lemma RotatedDistinct(t: Tree, dir: bool)
    requires t.Bin? && Distinct(t)
    ensures Distinct(Rotated(t, dir)) && Nodes(Rotated(t, dir)) == Nodes(t)
    ensures t.Sub(!dir).Bin? ==>
      var u := t.Sub(!dir);
      var a, b, c := Nodes(t.Sub(dir)), Nodes(u.Sub(dir)), Nodes(u.Sub(!dir));
      && t.n != u.n && a !! b && a !! c && b !! c
      && t.n !in a && t.n !in b && t.n !in c && u.n !in a && u.n !in b && u.n !in c
  {
    RotatedInorder(t, dir);
    if t.Sub(!dir).Bin? {
      var u := t.Sub(!dir);
      var v := Make(t.red, dir, t.Sub(dir), t.n, u.Sub(dir));
      assert Distinct(u) && Nodes(u) == {u.n} + Nodes(u.Sub(dir)) + Nodes(u.Sub(!dir));
      assert Distinct(v) && Nodes(v) == {t.n} + Nodes(t.Sub(dir)) + Nodes(u.Sub(dir));
    }
  }

  /** What the nodes above a red parent say: the grandparent, and the colour of the uncle. */
  lemma OpenPair(p: Path, t: Tree, root: Node?)
    requires p.Step? && p.up.Step? && At(p, t, root)
    ensures p.n.parent == p.up.n && p.up.n.Kid(p.up.d) == p.n
    ensures p.n != p.up.n.Kid(!p.up.d) == RootOf(p.up.sib)
    ensures RootOf(p.up.sib) != null ==> RootOf(p.up.sib).red == p.up.sib.red
    ensures p.up.n.parent == Above(p.up.up)
    ensures {p.n, p.up.n} <= PathNodes(p) && Nodes(p.up.sib) <= PathNodes(p)
  {
    assert PathLinks(p.up, p.n, root);
  }

  class RbRoot {
    var root: Node?
    ghost var shape: Tree

    ghost predicate Valid()
      reads this, Nodes(shape)
    {
      At(Top, shape, root)
    }

    /** Hang the subtree `t` under another parent. */
    method Reparent(child: Node?, parent: Node?, ghost t: Tree, ghost was: Node?)
      requires child == RootOf(t) && Distinct(t) && Links(t, was)
      modifies if child == null then {} else {child}
      ensures Links(t, parent)
      ensures child != null ==> child.red == old(child.red)
    {
      if child != null { child.parent := parent; }
    }

    /** Let the node above, or the root pointer, point to `to` instead of `from`. */
    method Replace(parent: Node?, from: Node, to: Node?, ghost p: Path)
      requires parent == Above(p) && PathDistinct(p) && from !in PathNodes(p) && PathLinks(p, from, root)
      modifies `root, if parent == null then {} else {parent}
      ensures PathLinks(p, to, root)
    {
      if parent != null {
        assert allocated(Nodes(p.sib)) && allocated(PathNodes(p.up));
        parent.SetKid(from == parent.right, to);
      } else {
        root := to;
      }
    }

    /** Make `a`, with root `child`, the subtree of `node` in direction `d`; `b` stays on the other side. */
    method Hang(node: Node, d: bool, child: Node?, ghost a: Tree, ghost was: Node?, ghost b: Tree, ghost p: Node?)
      requires node.parent == p && node !in Nodes(a) && child == RootOf(a) && Distinct(a) && Links(a, was)
      requires node !in Nodes(b) && Nodes(a) !! Nodes(b) && Links(b, node) && node.Kid(!d) == RootOf(b)
      modifies node, if a.Bin? then {a.n} else {}
      ensures Links(Make(old(node.red), d, a, node, b), p)
    {
      assert allocated(Nodes(a)) && allocated(Nodes(b));
      node.SetKid(d, child);
      Reparent(child, node, a, was);
    }

    /** The middle of a rotation: `node` becomes the child of `top` and takes over its subtree `b`. */
    method Twist(node: Node, top: Node, dir: bool, parent: Node?, ghost a: Tree, ghost b: Tree, ghost c: Tree)
      requires node != top && Nodes(a) !! Nodes(b) && Nodes(b) !! Nodes(c) && Nodes(a) !! Nodes(c)
      requires node !in Nodes(a) && node !in Nodes(b) && node !in Nodes(c)
      requires top !in Nodes(a) && top !in Nodes(b) && top !in Nodes(c)
      requires Distinct(a) && Distinct(b) && Distinct(c) && Links(a, node) && Links(b, top) && Links(c, top)
      requires node.Kid(dir) == RootOf(a) && top.Kid(dir) == RootOf(b) && top.Kid(!dir) == RootOf(c)
      modifies node, top, if b.Bin? then {b.n} else {}
      ensures Links(old(Make(top.red, dir, Make(node.red, dir, a, node, b), top, c)), parent)
    {
      ghost var v := Make(node.red, dir, a, node, b);
      ghost var w := Make(top.red, dir, v, top, c);
      MakeDistinct(node.red, dir, a, node, b);
      MakeDistinct(top.red, dir, v, top, c);
      ghost var p, q := node.parent, top.parent;
      assert allocated(Nodes(c)) && v == Make(node.red, !dir, b, node, a);
      Hang(node, !dir, top.Kid(dir), b, top, a, p);
      Hang(top, dir, node, v, p, c, q);
      Reparent(top, parent, w, q);
    }

    method RotateBelow(node: Node, top: Node, dir: bool, ghost t: Tree, ghost parent: Node?)
      requires t.Bin? && t.n == node && Distinct(t) && Links(t, parent) && node.Kid(!dir) == top
      modifies Nodes(t)
      ensures Links(Rotated(t, dir), parent)
    {
      ghost var u := t.Sub(!dir);
      RotatedDistinct(t, dir);
      assert Links(u, node) && Distinct(u);
      Twist(node, top, dir, node.parent, t.Sub(dir), u.Sub(dir), u.Sub(!dir));
    }

    method Rotate(node: Node, dir: bool, ghost p: Path, ghost t: Tree)
      requires t.Bin? && t.n == node && At(p, t, root)
      modifies `root, Nodes(t), PathNodes(p)
      ensures At(p, Rotated(t, dir), root)
    {
      var parent := node.parent;
      var top := node.Kid(!dir);
      if top == null { return; }
      RotatedDistinct(t, dir);
      assert allocated(PathNodes(p)) && allocated(Nodes(t));
      RotateBelow(node, top, dir, t, parent);
      Replace(parent, node, top, p);
    }

    /** Set the colour bit of the node at the root of `t`. */
    method Paint(n: Node, c: bool, ghost p: Path, ghost t: Tree)
      requires t.Bin? && t.n == n && At(p, t, root)
      modifies n`red
      ensures At(p, t.(red := c), root)
    {
      n.red := c;
    }

    /** Lines 124-127: make the new red node and its red parent lie in the same direction. */
    method Straighten(node: Node, prev: Node, gp: Node, idx: bool, ghost p: Path, ghost t: Tree) returns (top: Node)
      requires p.Step? && p.n == prev && p.up.Step? && p.up.n == gp && p.up.d == idx && At(p, t, root)
      requires t.Bin? && t.n == node
      modifies `root, Nodes(t), PathNodes(p)
      ensures var b := Straight(idx, p, t);
        b.n == top && At(p.up, b, root) && Nodes(b) == {prev} + Nodes(t) + Nodes(p.sib)
    {
      Ascend(p, t, root);
      StraightInorder(idx, p, t);
      ghost var b := Make(p.red, p.d, t, prev, p.sib);
      top := prev;
      if node == prev.Kid(!idx) {
        Rotate(prev, idx, p.up, b);
        top := gp.Kid(idx);
      }
    }

    /** Lines 129-131: rotate the grandparent down and exchange the two colours. */
    method LiftParent(prev: Node, gp: Node, idx: bool, ghost q: Path, ghost b: Tree)
      requires q.Step? && q.n == gp && q.d == idx && b.Bin? && b.n == prev && At(q, b, root)
      modifies `root, Nodes(b), PathNodes(q)
      ensures At(q.up, Lifted(q, b), root)
    {
      Ascend(q, b, root);
      ghost var g := Make(q.red, idx, b, gp, q.sib);
      ghost var x, y, u := b.Sub(idx), b.Sub(!idx), q.sib;
      Rotate(gp, !idx, q.up, g);
      assert Rotated(g, !idx) == Make(b.red, idx, x, prev, Make(q.red, idx, y, gp, u));
      Paint(prev, false, q.up, Rotated(g, !idx));
      PaintKid(gp, true, !idx, q.up, Make(false, idx, x, prev, Make(q.red, idx, y, gp, u)));
    }

    /** The same for the child of the root of `t` in direction `d`. */
    method PaintKid(n: Node, c: bool, d: bool, ghost p: Path, ghost t: Tree)
      requires t.Bin? && t.Sub(d).Bin? && t.Sub(d).n == n && At(p, t, root)
      modifies n`red
      ensures At(p, Make(t.red, d, t.Sub(d).(red := c), t.n, t.Sub(!d)), root)
    {
      ghost var q := Step(d, t.red, t.n, t.Sub(!d), p);
      Descend(p, t, root, d);
      Paint(n, c, q, t.Sub(d));
      Ascend(q, t.Sub(d).(red := c), root);
    }

    /** Lines 135-137: a red uncle; push the black of the grandparent down. */
    method PushBlack(prev: Node, unc: Node, gp: Node, idx: bool, ghost p: Path, ghost c: bool, ghost b: Tree,
      ghost u: Tree)
      requires b.Bin? && b.n == prev && u.Bin? && u.n == unc && At(p, Make(c, idx, b, gp, u), root)
      modifies prev`red, unc`red, gp`red
      ensures At(p, Make(true, idx, b.(red := false), gp, u.(red := false)), root)
    {
      PaintKid(prev, false, idx, p, Make(c, idx, b, gp, u));
      PaintKid(unc, false, !idx, p, Make(c, idx, b.(red := false), gp, u));
      Paint(gp, true, p, Make(c, idx, b.(red := false), gp, u.(red := false)));
    }

    /** Lines 123-132: a black uncle; two rotations at most, and the tree is done. */
    method RotateUp(node: Node, prev: Node, gp: Node, idx: bool, ghost p: Path, ghost t: Tree)
      requires p.Step? && p.n == prev && p.up.Step? && p.up.n == gp && p.up.d == idx && At(p, t, root)
      requires t.Bin? && t.n == node
      modifies `root, Nodes(t), PathNodes(p)
      ensures At(p.up.up, Lifted(p.up, Straight(idx, p, t)), root)
    {
      var top := Straighten(node, prev, gp, idx, p, t);
      LiftParent(top, gp, idx, p.up, Straight(idx, p, t));
    }

    /** Lines 135-139: a red uncle; the violation moves up to the grandparent. */
    method PassUp(prev: Node, unc: Node, gp: Node, idx: bool, ghost p: Path, ghost t: Tree)
      requires p.Step? && p.n == prev && p.up.Step? && p.up.n == gp && p.up.d == idx && At(p, t, root)
      requires p.up.sib.Bin? && p.up.sib.n == unc
      modifies prev`red, unc`red, gp`red
      ensures At(p.up.up, PassedUp(p, t), root)
    {
      ghost var b := Make(p.red, p.d, t, prev, p.sib);
      Ascend(p, t, root);
      Ascend(p.up, b, root);
      PushBlack(prev, unc, gp, idx, p.up.up, p.up.red, b, p.up.sib);
    }

    /** Lines 115-118: a red parent that is the root. */
    method BlackenTop(prev: Node, ghost p: Path, ghost t: Tree)
      requires p.Step? && p.n == prev && p.up.Top? && At(p, t, root)
      modifies prev`red
      ensures At(Top, Make(false, p.d, t, prev, p.sib), root)
    {
      Ascend(p, t, root);
      Paint(prev, false, Top, Make(p.red, p.d, t, prev, p.sib));
    }

    /** Lines 114-139: one turn of the upward loop at a red parent. */
    method Climb(node: Node, prev: Node, ghost p: Path, ghost t: Tree, ghost all: set<Node>)
      returns (done: bool, up: Node)
      requires Nodes(t) <= all && PathNodes(p) <= all
      requires p.Step? && p.n == prev && p.red && At(p, t, root) && t.IsRed() && t.n == node
      modifies `root, all
      ensures done ==> At(Top, AddUp(p, t), root)
      ensures !done ==> p.up.Step? && p.up.sib.IsRed() && up == p.up.n && At(p.up.up, PassedUp(p, t), root)
    {
      up := node;
      done := true;
      var gp := prev.parent;
      assert PathLinks(p, node, root);
      if gp == null {
        BlackenTop(prev, p, t);
        return;
      }
      OpenPair(p, t, root);
      var idx := prev != gp.left;
      var unc := gp.Kid(!idx);
      if unc == null || !unc.red {
        RotateUp(node, prev, gp, idx, p, t);
        AscendAll(p.up.up, Lifted(p.up, Straight(idx, p, t)), root);
      } else {
        PassUp(prev, unc, gp, idx, p, t);
        done, up := false, gp;
      }
    }

    /** Lines 109-141: the upward loop.  The red node at the root of `t0` may have a red parent. */
    method Rebalance(node0: Node, prev0: Node, ghost p0: Path, ghost t0: Tree)
      requires p0.Step? && p0.n == prev0 && At(p0, t0, root) && t0.IsRed() && t0.n == node0
      modifies `root, Nodes(t0), PathNodes(p0)
      ensures At(Top, AddUp(p0, t0), root)
    {
      var node: Node, prev: Node? := node0, prev0;
      ghost var p, t := p0, t0;
      ghost var all := Nodes(t0) + PathNodes(p0);
      while prev != null
        invariant prev == Above(p) && At(p, t, root) && t.IsRed() && t.n == node
        invariant AddUp(p, t) == AddUp(p0, t0) && Nodes(t) <= all && PathNodes(p) <= all
        decreases p
      {
        assert PathLinks(p, node, root);
        if !prev.red {
          AscendAll(p, t, root);
          return;
        }
        var done;
        done, node := Climb(node, prev, p, t, all);
        if done { return; }
        PassedUpInorder(p, t);
        prev := node.parent;
        p, t := p.up.up, PassedUp(p, t);
      }
      Paint(root, false, Top, t);
    }

    /** Lines 98-105: walk down to the free place for the key of `node`. */
    method FindPlace(node: Node) returns (prev: Node, idx: bool)
      requires Valid() && root != null
      ensures var p := PlaceOf(Top, shape, node.val);
        p.Step? && p.n == prev && p.d == idx && At(p, Leaf, root) && PathNodes(p) == Nodes(shape)
    {
      var cur := root;
      prev, idx := root, false;
      ghost var p, t := Top, shape;
      while cur != null
        invariant cur == RootOf(t) && At(p, t, root) && PlaceOf(p, t, node.val) == PlaceOf(Top, shape, node.val)
        invariant p.Top? || (p.n == prev && p.d == idx)
        invariant p.Top? ==> cur != null
        decreases t
      {
        prev := cur;
        idx := cur.val < node.val;
        cur := cur.Kid(idx);
        Descend(p, t, root, idx);
        p, t := Step(idx, t.red, t.n, t.Sub(!idx), p), t.Sub(idx);
      }
      PlacePlug(Top, shape, node.val);
      PlugNodes(p, Leaf);
    }

    /** Lines 106-107: link the node in, red. */
    method Attach(node: Node, prev: Node, idx: bool, ghost p: Path)
      requires p.Step? && p.n == prev && p.d == idx && At(p, Leaf, root)
      requires node !in PathNodes(p) && node.left == null && node.right == null
      modifies node, prev
      ensures At(p, Bin(true, Leaf, node, Leaf), root)
    {
      assert allocated(PathNodes(p));
      prev.SetKid(idx, node);
      node.parent, node.red := prev, true;
    }

    /** rbtree_add, on the nodes of a tree of any colours. */
    method Insert(node: Node)
      requires Valid() && node !in Nodes(shape)
      modifies this, Nodes(shape), node
      ensures Valid() && shape == Added(old(shape), node)
    {
      node.parent, node.red := null, false;
      node.left, node.right := null, null;
      if root == null {
        root := node;
        shape := Bin(false, Leaf, node, Leaf);
        return;
      }
      var prev, idx := FindPlace(node);
      ghost var p, t := PlaceOf(Top, shape, node.val), Bin(true, Leaf, node, Leaf);
      Attach(node, prev, idx, p);
      Rebalance(node, prev, p, t);
      shape := AddUp(p, t);
    }

    /** rbtree_add keeps the order, gains the node, and keeps the red-black rules where they hold. */
    method Add(node: Node)
      requires Valid() && Sorted(Inorder(shape)) && node !in Nodes(shape)
      modifies this, Nodes(shape), node
      ensures Valid() && shape == Added(old(shape), node)
      ensures InsertedInto(old(Inorder(shape)), node, Inorder(shape)) && Sorted(Inorder(shape))
      ensures old(RedBlack(shape)) ==> RedBlack(shape)
    {
      AddedInorder(shape, node);
      if RedBlack(shape) { AddedRedBlack(shape, node); }
      Insert(node);
    }

    method SearchExact(v: nat) returns (r: Node?)
      requires Valid() && Sorted(Inorder(shape))
      ensures r == null ==> forall n :: n in Nodes(shape) ==> n.val != v
      ensures r != null ==> r in Nodes(shape) && r.val == v
    {
      r := root;
      ghost var p, t := Top, shape;
      while r != null && r.val != v
        invariant r == RootOf(t) && Plug(p, t) == shape && At(p, t, root)
        invariant AllBelow(Before(p), v) && AllFrom(After(p), v + 1)
        decreases t
      {
        var idx := r.val < v;
        r := r.Kid(idx);
        Descend(p, t, root, idx);
        DescendOrder(p, t, v, v + 1, idx);
        p, t := Step(idx, t.red, t.n, t.Sub(!idx), p), t.Sub(idx);
      }
      PlugNodes(p, t);
      if r == null { SplitAtLeaf(p, v); }
    }

    method SearchLte(v: nat) returns (best: Node?)
      requires Valid() && Sorted(Inorder(shape))
      ensures IsFloor(best, Nodes(shape), v)
    {
      best := null;
      var cur := root;
      ghost var p, t := Top, shape;
      while cur != null
        invariant cur == RootOf(t) && Plug(p, t) == shape && At(p, t, root)
        invariant AllBelow(Before(p), v) && AllFrom(After(p), v + 1) && best == LastOf(Before(p))
        decreases t
      {
        if cur.val == v {
          PlugNodes(p, t);
          return cur;
        }
        var idx := cur.val < v;
        if idx { best := cur; }
        cur := cur.Kid(idx);
        Descend(p, t, root, idx);
        DescendOrder(p, t, v, v + 1, idx);
        p, t := Step(idx, t.red, t.n, t.Sub(!idx), p), t.Sub(idx);
      }
      SplitAtLeaf(p, v);
    }

    method SearchGte(v: nat) returns (best: Node?)
      requires Valid() && Sorted(Inorder(shape))
      ensures IsCeiling(best, Nodes(shape), v)
    {
      best := null;
      var cur := root;
      ghost var p, t := Top, shape;
      while cur != null
        invariant cur == RootOf(t) && Plug(p, t) == shape && At(p, t, root)
        invariant AllBelow(Before(p), v) && AllFrom(After(p), v + 1) && best == FirstOf(After(p))
        decreases t
      {
        var idx := cur.val < v;
        if !idx {
          best := cur;
          if cur.val == v {
            PlugNodes(p, t);
            return;
          }
        }
        cur := cur.Kid(idx);
        Descend(p, t, root, idx);
        DescendOrder(p, t, v, v + 1, idx);
        p, t := Step(idx, t.red, t.n, t.Sub(!idx), p), t.Sub(idx);
      }
      SplitAtLeaf(p, v);
    }
  }
}
