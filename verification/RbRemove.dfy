/** rbtree_remove (src/rbtree.c:144-241) on the linked nodes: unlinking, the exchange with the
    in-order successor, and the fix-up walk. */
module RbRemove {
  import opened RbShape
  import opened RbTree
  import opened RbRemoveShape

  /** The converse of AscendAll: the focus may be set anywhere. */
  lemma {:induction false} DescendAll(p: Path, t: Tree, root: Node?)
    requires At(Top, Plug(p, t), root)
    ensures At(p, t, root)
  {
    if p.Step? {
      var w := Make(p.red, p.d, t, p.n, p.sib);
      DescendAll(p.up, w, root);
      Descend(p.up, w, root, p.d);
    }
  }

  /** Lines 204-215 at a red sibling.  It is rotated up, and line 207 puts the parent itself in its place, which
      ends up black whatever it was. */
  method RaiseSibling(tree: RbRoot, parent: Node, sib: Node, idx: bool, ghost p: Path, ghost t: Tree)
    requires p.Step? && p.n == parent && p.d == idx && p.sib.IsRed() && p.sib.n == sib && At(p, t, tree.root)
    modifies tree`root, Nodes(t), PathNodes(p)
    ensures At(Step(idx, false, sib, p.sib.Sub(!idx), p.up), Make(false, idx, t, parent, p.sib.Sub(idx)), tree.root)
  {
    ghost var s, u := p.sib, p.up;
    ghost var w := Make(p.red, idx, t, parent, s);
    Ascend(p, t, tree.root);
    tree.Rotate(parent, idx, u, w);
    ghost var low := Make(p.red, idx, t, parent, s.Sub(idx));
    assert Rotated(w, idx) == Make(true, idx, low, sib, s.Sub(!idx));
    tree.PaintKid(parent, true, idx, u, Make(true, idx, low, sib, s.Sub(!idx)));
    tree.Paint(sib, false, u, Make(true, idx, low.(red := true), sib, s.Sub(!idx)));
    ghost var w' := Make(false, idx, low.(red := true), sib, s.Sub(!idx));
    assert Links(w', Above(u));
    var sibling := sib.Kid(idx);
    tree.PaintKid(sibling, false, idx, u, w');
    Descend(u, Make(false, idx, low.(red := false), sib, s.Sub(!idx)), tree.root, idx);
  }

  /** Lines 217-222 with the parent in the place of the sibling: its child on the far side is red. */
  method RotateAgain(tree: RbRoot, parent: Node, dnephew: Node, idx: bool, ghost q: Path, ghost t: Tree, ghost x: Tree)
    requires x.Bin? && x.n == dnephew && At(q, Make(false, idx, t, parent, x), tree.root)
    modifies tree`root, {parent}, Nodes(t), Nodes(x), PathNodes(q)
    ensures At(q, Make(false, idx, Make(false, idx, t, parent, x.Sub(idx)), dnephew, x.Sub(!idx)), tree.root)
  {
    ghost var w := Make(false, idx, t, parent, x);
    assert Nodes(w) == {parent} + Nodes(t) + Nodes(x);
    tree.Rotate(parent, idx, q, w);
    assert Rotated(w, idx) == Make(x.red, idx, Make(false, idx, t, parent, x.Sub(idx)), dnephew, x.Sub(!idx));
    tree.Paint(dnephew, false, q, Rotated(w, idx));
  }

  /** Lines 223-229 likewise: the subtree the walk is at has a red root. */
  method RotateBack(tree: RbRoot, parent: Node, cnephew: Node, idx: bool, ghost q: Path, ghost t: Tree, ghost x: Tree)
    requires t.Bin? && t.n == cnephew && At(q, Make(false, idx, t, parent, x), tree.root)
    modifies tree`root, {parent}, Nodes(t), Nodes(x), PathNodes(q)
    ensures At(q, Make(false, idx, t.Sub(idx), cnephew, Rotated(Make(false, idx, t.Sub(!idx), parent, x), idx)),
               tree.root)
  {
    ghost var w, mid := Make(false, idx, t, parent, x), Make(false, idx, t.Sub(!idx), parent, x);
    ghost var v := Make(t.red, idx, t.Sub(idx), cnephew, mid);
    assert Nodes(w) == {parent} + Nodes(t) + Nodes(x);
    tree.Rotate(parent, !idx, q, w);
    assert Rotated(w, !idx) == v;
    RotatedInorder(w, !idx);
    ghost var r := Step(!idx, t.red, cnephew, t.Sub(idx), q);
    Descend(q, v, tree.root, !idx);
    assert Nodes(mid) <= Nodes(v) && PathNodes(r) <= Nodes(v) + PathNodes(q);
    tree.Rotate(parent, idx, r, mid);
    Ascend(r, Rotated(mid, idx), tree.root);
    tree.Paint(cnephew, false, q, Make(t.red, idx, t.Sub(idx), cnephew, Rotated(mid, idx)));
  }

  /** What the links and colours of the parent's children are, once it is in the place of the sibling. */
  lemma LowKids(q: Path, idx: bool, t: Tree, parent: Node, x: Tree, root: Node?)
    requires At(q, Make(false, idx, t, parent, x), root)
    ensures parent.Kid(idx) == RootOf(t) && (t.Bin? ==> t.n.red == t.red)
    ensures parent.Kid(!idx) == RootOf(x) && (x.Bin? ==> x.n.red == x.red)
  {
    assert Links(t, parent) && Links(x, parent);
  }

  /** Lines 204-235 at a red sibling. */
  method RedSibling(tree: RbRoot, parent: Node, sib: Node, idx: bool, ghost p: Path, ghost t: Tree,
    ghost all: set<Node>)
    returns (done: bool)
    requires p.Step? && p.n == parent && p.d == idx && p.sib.IsRed() && p.sib.n == sib && At(p, t, tree.root)
    requires Nodes(t) <= all && PathNodes(p) <= all
    modifies tree`root, all
    ensures done <==> p.sib.Sub(idx).IsRed() || t.IsRed()
    ensures done ==> At(Top, FixUp(p, t), tree.root)
    ensures !done ==>
      At(Step(idx, false, sib, p.sib.Sub(!idx), p.up), Make(true, idx, t, parent, p.sib.Sub(idx)), tree.root)
  {
    ghost var q, x := Step(idx, false, sib, p.sib.Sub(!idx), p.up), p.sib.Sub(idx);
    assert PathNodes(q) <= PathNodes(p) && Nodes(x) <= PathNodes(p);
    RaiseSibling(tree, parent, sib, idx, p, t);
    LowKids(q, idx, t, parent, x, tree.root);
    var dnephew, cnephew := parent.Kid(!idx), parent.Kid(idx);
    done := true;
    if dnephew != null && dnephew.red {
      RotateAgain(tree, parent, dnephew, idx, q, t, x);
      AscendAll(q, Make(false, idx, Make(false, idx, t, parent, x.Sub(idx)), dnephew, x.Sub(!idx)), tree.root);
    } else if cnephew != null && cnephew.red {
      RotateBack(tree, parent, cnephew, idx, q, t, x);
      AscendAll(q, Make(false, idx, t.Sub(idx), cnephew, Rotated(Make(false, idx, t.Sub(!idx), parent, x), idx)),
                tree.root);
    } else {
      tree.Paint(parent, true, q, Make(false, idx, t, parent, x));
      done := false;
    }
  }

  /** Lines 217-222: the far nephew is red. */
  method FarNephew(tree: RbRoot, parent: Node, sibling: Node, dnephew: Node, idx: bool, oc: bool,
                   ghost u: Path, ghost t: Tree, ghost s: Tree)
    requires s.Bin? && s.n == sibling && !s.red && s.Sub(!idx).Bin? && s.Sub(!idx).n == dnephew
    requires At(u, Make(false, idx, t, parent, s), tree.root)
    modifies tree`root, {parent}, Nodes(t), Nodes(s), PathNodes(u)
    ensures At(
      u, Make(oc, idx, Make(false, idx, t, parent, s.Sub(idx)), sibling, s.Sub(!idx).(red := false)), tree.root)
  {
    ghost var w, low := Make(false, idx, t, parent, s), Make(false, idx, t, parent, s.Sub(idx));
    assert Nodes(w) == {parent} + Nodes(t) + Nodes(s);
    tree.Rotate(parent, idx, u, w);
    assert Rotated(w, idx) == Make(false, idx, low, sibling, s.Sub(!idx));
    tree.Paint(sibling, oc, u, Make(false, idx, low, sibling, s.Sub(!idx)));
    tree.PaintKid(dnephew, false, !idx, u, Make(oc, idx, low, sibling, s.Sub(!idx)));
  }

  /** Lines 223-229: only the close nephew is red. */
  method CloseNephew(tree: RbRoot, parent: Node, sibling: Node, cnephew: Node, idx: bool, oc: bool,
                     ghost u: Path, ghost t: Tree, ghost s: Tree)
    requires s.Bin? && s.n == sibling && !s.red && s.Sub(idx).IsRed() && s.Sub(idx).n == cnephew
    requires At(u, Make(false, idx, t, parent, s), tree.root)
    modifies tree`root, {parent}, Nodes(t), Nodes(s), PathNodes(u)
    ensures var c := s.Sub(idx);
      At(u, Make(oc, idx, Make(false, idx, t, parent, c.Sub(idx)), c.n,
                 Make(false, idx, c.Sub(!idx), sibling, s.Sub(!idx))), tree.root)
  {
    ghost var c := s.Sub(idx);
    ghost var w, q := Make(false, idx, t, parent, s), Step(!idx, false, parent, t, u);
    Descend(u, w, tree.root, !idx);
    assert PathNodes(q) == {parent} + Nodes(t) + PathNodes(u);
    tree.Rotate(sibling, !idx, q, s);
    ghost var s' := Make(true, idx, c.Sub(idx), cnephew, Make(false, idx, c.Sub(!idx), sibling, s.Sub(!idx)));
    assert Rotated(s, !idx) == s';
    RotatedInorder(s, !idx);
    Ascend(q, s', tree.root);
    ghost var w' := Make(false, idx, t, parent, s');
    assert Nodes(w') == {parent} + Nodes(t) + Nodes(s);
    tree.Rotate(parent, idx, u, w');
    ghost var low := Make(false, idx, t, parent, c.Sub(idx));
    assert Rotated(w', idx) == Make(true, idx, low, cnephew, s'.Sub(!idx));
    tree.Paint(cnephew, oc, u, Make(true, idx, low, cnephew, s'.Sub(!idx)));
  }

  /** The cases of a red nephew, lines 217-229. */
  method Nephews(tree: RbRoot, parent: Node, sibling: Node, dnephew: Node?, cnephew: Node?, idx: bool, oc: bool,
                 ghost p: Path, ghost t: Tree, ghost all: set<Node>)
    returns (done: bool)
    requires p.Step? && p.n == parent && p.d == idx && p.red == oc && p.sib.Bin? && !p.sib.red && p.sib.n == sibling
    requires dnephew == RootOf(p.sib.Sub(!idx)) && (dnephew != null ==> dnephew.red == p.sib.Sub(!idx).red)
    requires cnephew == RootOf(p.sib.Sub(idx)) && (cnephew != null ==> cnephew.red == p.sib.Sub(idx).red)
    requires At(p.up, Make(false, idx, t, parent, p.sib), tree.root)
    requires Nodes(t) <= all && PathNodes(p) <= all
    modifies tree`root, all
    ensures done <==> p.sib.l.IsRed() || p.sib.r.IsRed()
    ensures done ==> At(Top, FixUp(p, t), tree.root)
    ensures !done ==> At(p.up, Make(false, idx, t, parent, p.sib), tree.root)
  {
    ghost var s, u := p.sib, p.up;
    done := true;
    if dnephew != null && dnephew.red {
      FarNephew(tree, parent, sibling, dnephew, idx, oc, u, t, s);
      AscendAll(
        u, Make(oc, idx, Make(false, idx, t, parent, s.Sub(idx)), sibling, s.Sub(!idx).(red := false)), tree.root);
      return;
    }
    if cnephew != null && cnephew.red {
      ghost var c := s.Sub(idx);
      CloseNephew(tree, parent, sibling, cnephew, idx, oc, u, t, s);
      AscendAll(u, Make(oc, idx, Make(false, idx, t, parent, c.Sub(idx)), c.n,
                        Make(false, idx, c.Sub(!idx), sibling, s.Sub(!idx))), tree.root);
      return;
    }
    done := false;
  }

  /** Lines 217-239: sibling and parent are painted black; `oc` is the colour the parent had. */
  method Resolve(tree: RbRoot, parent: Node, sibling: Node, dnephew: Node?, cnephew: Node?, idx: bool, oc: bool,
                 ghost p: Path, ghost t: Tree, ghost all: set<Node>)
    returns (done: bool)
    requires p.Step? && p.n == parent && p.d == idx && p.red == oc && p.sib.Bin? && !p.sib.red && p.sib.n == sibling
    requires dnephew == RootOf(p.sib.Sub(!idx)) && (dnephew != null ==> dnephew.red == p.sib.Sub(!idx).red)
    requires cnephew == RootOf(p.sib.Sub(idx)) && (cnephew != null ==> cnephew.red == p.sib.Sub(idx).red)
    requires At(p.up, Make(false, idx, t, parent, p.sib), tree.root)
    requires Nodes(t) <= all && PathNodes(p) <= all
    modifies tree`root, all
    ensures done ==> At(Top, FixUp(p, t), tree.root)
    ensures done <==> p.red || p.sib.l.IsRed() || p.sib.r.IsRed()
    ensures !done ==> FixUp(p, t) == FixUp(p.up, Make(false, idx, t, parent, p.sib.(red := true)))
    ensures !done ==> At(p.up, Make(false, idx, t, parent, p.sib.(red := true)), tree.root)
  {
    done := Nephews(tree, parent, sibling, dnephew, cnephew, idx, oc, p, t, all);
    if done { return; }
    ghost var s, u := p.sib, p.up;
    tree.PaintKid(sibling, true, !idx, u, Make(false, idx, t, parent, s));
    if oc {
      AscendAll(u, Make(false, idx, t, parent, s.(red := true)), tree.root);
      done := true;
    }
  }

  /** Lines 210-215 with a black sibling, and what follows. */
  method BlackSibling(tree: RbRoot, parent: Node, sibling: Node, idx: bool, ghost p: Path, ghost t: Tree,
    ghost all: set<Node>)
    returns (done: bool)
    requires p.Step? && p.n == parent && p.d == idx && p.sib.Bin? && !p.sib.red && p.sib.n == sibling
    requires At(p, t, tree.root)
    requires Nodes(t) <= all && PathNodes(p) <= all
    modifies tree`root, all
    ensures done ==> At(Top, FixUp(p, t), tree.root)
    ensures done <==> p.red || p.sib.l.IsRed() || p.sib.r.IsRed()
    ensures !done ==> FixUp(p, t) == FixUp(p.up, Make(false, idx, t, parent, p.sib.(red := true)))
    ensures !done ==> At(p.up, Make(false, idx, t, parent, p.sib.(red := true)), tree.root)
  {
    ghost var s := p.sib;
    assert Links(s, parent) && Links(s.l, sibling) && Links(s.r, sibling);
    var dnephew, cnephew := sibling.Kid(!idx), sibling.Kid(idx);
    Ascend(p, t, tree.root);
    tree.PaintKid(sibling, false, !idx, p.up, Make(p.red, idx, t, parent, s));
    var oc := parent.red;
    tree.Paint(parent, false, p.up, Make(p.red, idx, t, parent, s));
    done := Resolve(tree, parent, sibling, dnephew, cnephew, idx, oc, p, t, all);
  }

  /** One turn of the walk.  Line 203 reads the colour of the sibling, which may not be there. */
  method FixTurn(tree: RbRoot, parent: Node, idx: bool, ghost p: Path, ghost t: Tree, ghost all: set<Node>)
    returns (fault: bool, done: bool, ghost p': Path, ghost t': Tree)
    requires p.Step? && p.n == parent && p.d == idx && At(p, t, tree.root)
    requires Nodes(t) <= all && PathNodes(p) <= all
    modifies tree`root, all
    ensures fault <==> p.sib.Leaf?
    ensures !fault && done ==> At(Top, FixUp(p, t), tree.root) && !NullSibling(p, t.IsRed())
    ensures !fault && !done ==> t'.Bin? && t'.n == parent && At(p', t', tree.root)
    ensures !fault && !done ==> FixUp(p', t') == FixUp(p, t) && Nodes(t') <= all && PathNodes(p') <= all
    ensures !fault && !done ==> NullSibling(p', t'.IsRed()) == NullSibling(p, t.IsRed())
    ensures !fault && !done ==> PathLen(p') < PathLen(p) || (PathLen(p') == PathLen(p) && p'.sib < p.sib)
  {
    done, p', t' := false, p, t;
    ghost var s := p.sib;
    assert Links(s, parent);
    var sibling := parent.Kid(!idx);
    fault := sibling == null;
    if fault { return; }
    if sibling.red {
      done := RedSibling(tree, parent, sibling, idx, p, t, all);
      p', t' := Step(idx, false, sibling, s.Sub(!idx), p.up), Make(true, idx, t, parent, s.Sub(idx));
    } else {
      done := BlackSibling(tree, parent, sibling, idx, p, t, all);
      p', t' := p.up, Make(false, idx, t, parent, s.(red := true));
    }
  }

  /** Lines 199-240: the fix-up walk computes FixUp, unless it comes to a node without a sibling. */
  method WalkUp(tree: RbRoot, parent0: Node, idx0: bool, ghost p0: Path, ghost all: set<Node>) returns (fault: bool)
    requires p0.Step? && p0.n == parent0 && p0.d == idx0 && At(p0, Leaf, tree.root) && PathNodes(p0) <= all
    modifies tree`root, all
    ensures fault <==> NullSibling(p0, false)
    ensures !fault ==> At(Top, FixUp(p0, Leaf), tree.root)
  {
    var parent: Node?, idx := parent0, idx0;
    ghost var p, t := p0, Leaf;
    fault := false;
    while parent != null
      invariant parent == Above(p) && (p.Step? ==> p.d == idx) && At(p, t, tree.root) && !fault
      invariant FixUp(p, t) == FixUp(p0, Leaf) && NullSibling(p, t.IsRed()) == NullSibling(p0, false)
      invariant Nodes(t) <= all && PathNodes(p) <= all
      decreases PathLen(p), if p.Top? then Leaf else p.sib
    {
      var done;
      var node := parent;
      fault, done, p, t := FixTurn(tree, parent, idx, p, t, all);
      if fault || done { return; }
      parent := parent.parent;
      assert p.Step? ==> PathLinks(p, node, tree.root);
      idx := parent != null && parent.right == node;
    }
  }

  /** Replace the node at the end of the path by its only subtree `c`. */
  method Splice(tree: RbRoot, node: Node, child: Node?, ghost p: Path, ghost t: Tree, ghost c: Tree)
    requires t.Bin? && t.n == node && At(p, t, tree.root) && child == RootOf(c)
    requires (t.l == c && t.r == Leaf) || (t.r == c && t.l == Leaf)
    modifies tree`root, if child == null then {} else {child}, if p.Top? then {} else {p.n}
    ensures At(p, c, tree.root)
  {
    var parent := node.parent;
    assert allocated(PathNodes(p)) && allocated(Nodes(c)) && Nodes(c) <= Nodes(t);
    tree.Reparent(child, parent, c, node);
    tree.Replace(parent, node, child, p);
  }

  /** Lines 155 and 15-19: down the left links of the right subtree. */
  method FindSuccessor(tree: RbRoot, node: Node, ghost p: Path, ghost t: Tree)
    returns (succ: Node, ghost q: Path, ghost u: Tree)
    requires t.Bin? && t.n == node && t.r.Bin? && At(p, t, tree.root)
    ensures succ == MinOf(t.r) && u.Bin? && u.n == succ && u.l == Leaf && u.red == MinRed(t.r)
    ensures q.Step? && At(q, u, tree.root) && Plug(q, Reddened(u.r)) == Plug(p, t.(r := DropMin(t.r)))
    ensures Plug(q, u) == Plug(p, t)
  {
    succ := node.right;
    q, u := Step(true, t.red, node, t.l, p), t.r;
    Descend(p, t, tree.root, true);
    while succ.left != null
      invariant u.Bin? && u.n == succ && q.Step? && At(q, u, tree.root)
      invariant MinOf(u) == MinOf(t.r) && MinRed(u) == MinRed(t.r)
      invariant Plug(q, DropMin(u)) == Plug(p, t.(r := DropMin(t.r))) && Plug(q, u) == Plug(p, t)
      decreases u
    {
      Descend(q, u, tree.root, false);
      succ := succ.left;
      q, u := Step(false, u.red, u.n, u.r, q), u.l;
    }
  }

  /** Lines 170-174 and 178: `succ` adopts both subtrees of `node`. */
  method Adopt(tree: RbRoot, succ: Node, left: Node, right: Node, parent: Node?, ghost node: Node, ghost l: Tree,
    ghost r: Tree)
    requires RootOf(l) == left && RootOf(r) == right && Distinct(l) && Distinct(r) && Nodes(l) !! Nodes(r)
    requires succ !in Nodes(l) && succ !in Nodes(r) && Links(l, node) && Links(r, node)
    modifies succ, left, right
    ensures Links(Bin(old(succ.red), l, succ, r), parent)
  {
    assert allocated(Nodes(l)) && allocated(Nodes(r));
    succ.left, succ.right := left, right;
    tree.Reparent(left, succ, l, node);
    tree.Reparent(right, succ, r, node);
    succ.parent := parent;
  }

  /** Lines 170-190: `succ`, already unlinked, takes the place of `node`.  Line 174 stores through
      nodes[1], which is NULL when the successor was the right child and a leaf. */
  method TakePlace(tree: RbRoot, node: Node, succ: Node, ghost p: Path, ghost t: Tree) returns (fault: bool)
    requires t.Bin? && t.n == node && t.l.Bin? && At(p, t, tree.root)
    requires succ !in Nodes(t) && succ !in PathNodes(p)
    modifies tree`root, succ, Nodes(t), PathNodes(p)
    ensures fault <==> t.r.Leaf?
    ensures !fault ==> At(p, Bin(old(succ.red), t.l, succ, t.r), tree.root)
  {
    var parent, left, right := node.parent, node.left, node.right;
    fault := right == null;
    if fault { return; }
    ghost var t' := Bin(succ.red, t.l, succ, t.r);
    assert allocated(PathNodes(p)) && allocated(Nodes(t'));
    assert Distinct(t') && Nodes(t') !! PathNodes(p);
    Adopt(tree, succ, left, right, parent, node, t.l, t.r);
    tree.Replace(parent, node, succ, p);
  }

  /** The unlinked successor occurs nowhere else. */
  lemma SuccessorGone(q: Path, u: Tree, p: Path, t: Tree, root: Node?)
    requires u.Bin? && u.l == Leaf && At(q, u, root) && t.Bin? && t.r.Bin? && Plug(q, u) == Plug(p, t)
    requires u.n == MinOf(t.r) && Plug(q, Reddened(u.r)) == Plug(p, t.(r := DropMin(t.r)))
    ensures var t1 := t.(r := DropMin(t.r));
      u.n !in Nodes(t1) && u.n !in PathNodes(p) && u.n in Nodes(t) && Nodes(t1) <= Nodes(t)
    ensures Nodes(u) + PathNodes(q) == Nodes(t) + PathNodes(p)
  {
    var t1 := t.(r := DropMin(t.r));
    PlugNodes(q, Reddened(u.r));
    PlugNodes(p, t1);
    PlugNodes(q, u);
    PlugNodes(p, t);
    DropMinNodes(t.r);
    assert Nodes(Reddened(u.r)) == Nodes(u.r);
  }

  /** Lines 160-169: the right child of `succ`, painted red, takes its place. */
  method Extract(tree: RbRoot, succ: Node, ghost q: Path, ghost u: Tree)
    requires u.Bin? && u.n == succ && u.l == Leaf && At(q, u, tree.root)
    modifies tree`root, Nodes(u.r), if q.Top? then {} else {q.n}
    ensures At(q, Reddened(u.r), tree.root)
  {
    assert Links(u, Above(q));
    var right := succ.right;
    Splice(tree, succ, right, q, u, u.r);
    if right != null { tree.Paint(right, true, q, u.r); }
  }

  /** Lines 155-169: unlink the successor. */
  method UnlinkSuccessor(tree: RbRoot, node: Node, ghost p: Path, ghost t: Tree) returns (succ: Node)
    requires t.Bin? && t.n == node && t.r.Bin? && At(p, t, tree.root)
    modifies tree`root, Nodes(t), PathNodes(p)
    ensures succ == MinOf(t.r) && succ.red == MinRed(t.r) && At(p, t.(r := DropMin(t.r)), tree.root)
    ensures succ !in Nodes(t.(r := DropMin(t.r))) && succ !in PathNodes(p) && succ in Nodes(t)
    ensures Nodes(t.(r := DropMin(t.r))) <= Nodes(t)
  {
    ghost var q, u;
    succ, q, u := FindSuccessor(tree, node, p, t);
    SuccessorGone(q, u, p, t, tree.root);
    Extract(tree, succ, q, u);
    AscendAll(q, Reddened(u.r), tree.root);
    DescendAll(p, t.(r := DropMin(t.r)), tree.root);
  }

  lemma FaultAt(p: Path, t: Tree, root: Node?)
    requires t.Bin? && t.l.Bin? && t.r.Bin? && At(p, t, root)
    ensures t.n.right != null && (Faults(p, t) <==> t.n.right.left == null && t.n.right.right == null)
  {
    assert Links(t, Above(p));
    assert Links(t.r, t.n);
  }

  /** The case of two children.  The store at line 174 faults exactly when the right child is a leaf. */
  method RemoveInner(tree: RbRoot, node: Node, ghost p: Path, ghost t: Tree) returns (fault: bool)
    requires t.Bin? && t.n == node && t.l.Bin? && t.r.Bin? && At(p, t, tree.root)
    modifies tree`root, Nodes(t), PathNodes(p)
    ensures fault <==> Faults(p, t)
    ensures old(node.right) != null && (fault <==> old(node.right.left == null && node.right.right == null))
    ensures !fault ==> At(Top, Removed(p, t), tree.root)
  {
    FaultAt(p, t, tree.root);
    var succ := UnlinkSuccessor(tree, node, p, t);
    ghost var t1 := t.(r := DropMin(t.r));
    fault := TakePlace(tree, node, succ, p, t1);
    if fault { return; }
    ghost var t2 := Bin(MinRed(t.r), t.l, succ, t1.r);
    if succ != tree.root {
      tree.Paint(succ, false, p, t2);
      t2 := t2.(red := false);
    }
    AscendAll(p, t2, tree.root);
  }

  /** Lines 148-153 and 176-240: at most one child. */
  method RemoveOuter(tree: RbRoot, node: Node, ghost p: Path, ghost t: Tree, ghost all: set<Node>)
    returns (fault: bool)
    requires t.Bin? && t.n == node && (t.l.Leaf? || t.r.Leaf?) && At(p, t, tree.root)
    requires Nodes(t) <= all && PathNodes(p) <= all
    modifies tree`root, all
    ensures fault <==> Faults(p, t)
    ensures !fault ==> At(Top, Removed(p, t), tree.root)
  {
    fault := false;
    var parent, isRoot, red := node.parent, node == tree.root, node.red;
    assert isRoot <==> p.Top? by {
      if p.Step? { PathRootIn(p, node, tree.root); }
    }
    var child := if node.left != null then node.left else node.right;
    var idx := if parent == null then false else parent.left != node;
    ghost var c := if t.l.Bin? then t.l else t.r;
    assert p.Step? ==> idx == p.d;
    Splice(tree, node, child, p, t, c);
    if isRoot { return; }
    if child != null {
      tree.Paint(child, false, p, c);
      AscendAll(p, c.(red := false), tree.root);
    } else if red {
      AscendAll(p, Leaf, tree.root);
    } else {
      fault := WalkUp(tree, parent, idx, p, all);
    }
  }

  lemma {:induction false} PathRootIn(p: Path, below: Node?, root: Node?)
    requires p.Step? && PathLinks(p, below, root)
    ensures root in PathNodes(p)
  {
    if p.up.Step? { PathRootIn(p.up, p.n, root); }
  }

  /** The path to a node of the tree, and the subtree below it. */
  ghost function PathTo(p: Path, t: Tree, n: Node): (r: (Path, Tree))
    requires n in Nodes(t)
    ensures Plug(r.0, r.1) == Plug(p, t) && r.1.Bin? && r.1.n == n
    decreases t
  {
    if n == t.n then (p, t)
    else var d := n in Nodes(t.r); PathTo(Step(d, t.red, t.n, t.Sub(!d), p), t.Sub(d), n)
  }

  lemma {:induction false} PathToRB(p: Path, t: Tree, h: nat, n: Node) returns (k: nat)
    requires n in Nodes(t) && RB(t, h) && PathRB(p, h) && (t.IsRed() ==> p.Step? && !p.red)
    ensures var (q, u) := PathTo(p, t, n); RB(u, k) && PathRB(q, k) && (u.IsRed() ==> q.Step? && !q.red)
    decreases t
  {
    if n == t.n {
      k := h;
    } else {
      var d := n in Nodes(t.r);
      k := DescendRB(p, t, h, d);
      k := PathToRB(Step(d, t.red, t.n, t.Sub(!d), p), t.Sub(d), k, n);
    }
  }

  /** Whether removing a node faults, and the tree after it. */
  ghost predicate RemoveFaults(s: Tree, n: Node)
    requires n in Nodes(s)
  {
    var (p, t) := PathTo(Top, s, n); Faults(p, t)
  }

  ghost function Without(s: Tree, n: Node): Tree
    requires n in Nodes(s)
  {
    var (p, t) := PathTo(Top, s, n); Removed(p, t)
  }

  ghost predicate RemoveKeepsRules(s: Tree, n: Node)
    requires n in Nodes(s)
  {
    var (p, t) := PathTo(Top, s, n); KeepsRules(p, t)
  }

  /** Without a fault exactly the node leaves the in-order sequence. */
  lemma WithoutInorder(s: Tree, n: Node)
    requires n in Nodes(s)
    ensures RemovedFrom(Inorder(s), n, Inorder(Without(s, n)))
  {
    var (p, t) := PathTo(Top, s, n);
    RemovedInorder(p, t);
  }

  /** From a tree that obeys the rules only line 174 faults, and the rules are kept exactly when KeepsRules holds. */
  lemma WithoutRedBlack(s: Tree, n: Node)
    requires RedBlack(s) && n in Nodes(s)
    ensures RedBlack(Without(s, n)) <==> RemoveKeepsRules(s, n)
    ensures RemoveFaults(s, n) ==> PathTo(Top, s, n).1.l.Bin?
  {
    var h: nat :| RB(s, h);
    var k := PathToRB(Top, s, h, n);
    var (p, t) := PathTo(Top, s, n);
    RemovedRedBlack(p, t, k);
    if t.l.Leaf? && t.r.Leaf? && !t.red { NoNullSibling(p, false, k); }
  }

  /** When a removal faults, on the fields of the nodes: with two children exactly when the right one has none, with
      one child never, and without children only where a black node below another one is removed, and certainly
      when it has no sibling. */
  lemma FaultFields(s: Tree, n: Node, root: Node?)
    requires At(Top, s, root) && n in Nodes(s)
    ensures n.left != null && n.right != null ==>
      (RemoveFaults(s, n) <==> n.right.left == null && n.right.right == null)
    ensures n.left == null || n.right == null ==>
      (RemoveFaults(s, n) ==> n.left == null && n.right == null && !n.red && n.parent != null)
    ensures n.left == null && n.right == null && !n.red && n.parent != null ==>
      (n.parent.left == null || n.parent.right == null ==> RemoveFaults(s, n))
  {
    var (p, t) := PathTo(Top, s, n);
    DescendAll(p, t, root);
    assert Links(t, Above(p)) && PathLinks(p, n, root);
    if t.r.Bin? { assert Links(t.r, n); }
  }

  /** In a red-black tree a removal faults exactly when the node has two children and the right one has none. */
  lemma FaultFieldsRB(s: Tree, n: Node, root: Node?)
    requires At(Top, s, root) && n in Nodes(s) && RedBlack(s)
    ensures RemoveFaults(s, n) <==>
      n.left != null && n.right != null && n.right.left == null && n.right.right == null
  {
    FaultFields(s, n, root);
    WithoutRedBlack(s, n);
    var (p, t) := PathTo(Top, s, n);
    DescendAll(p, t, root);
    assert Links(t, Above(p));
  }

  /** rbtree_remove on the nodes of a tree of any colours.  A fault at line 174 or 203, exactly when RemoveFaults says
      so, or the tree Without the node with all links consistent: the node and nothing else leaves the in-order
      sequence.  From a tree that obeys the red-black rules the result does so exactly when KeepsRules holds. */
  method Remove(tree: RbRoot, node: Node) returns (fault: bool)
    requires tree.Valid() && node in Nodes(tree.shape)
    modifies tree, Nodes(tree.shape)
    ensures fault <==> RemoveFaults(old(tree.shape), node)
    ensures old(node.left != null && node.right != null) ==>
      (fault <==> old(node.right.left == null && node.right.right == null))
    ensures old(node.left == null || node.right == null) && fault ==>
      old(node.left == null && node.right == null && !node.red && node.parent != null)
    ensures old(RedBlack(tree.shape)) ==>
      (fault <==> old(node.left != null && node.right != null && node.right.left == null && node.right.right == null))
    ensures !fault ==> tree.Valid() && tree.shape == Without(old(tree.shape), node)
    ensures !fault ==> RemovedFrom(old(Inorder(tree.shape)), node, Inorder(tree.shape))
    ensures !fault && old(RedBlack(tree.shape)) ==> (RedBlack(tree.shape) <==> RemoveKeepsRules(old(tree.shape), node))
  {
    WithoutInorder(tree.shape, node);
    FaultFields(tree.shape, node, tree.root);
    if RedBlack(tree.shape) {
      WithoutRedBlack(tree.shape, node);
      FaultFieldsRB(tree.shape, node, tree.root);
    }
    fault := Delete(tree, node);
  }

  method Delete(tree: RbRoot, node: Node) returns (fault: bool)
    requires tree.Valid() && node in Nodes(tree.shape)
    modifies tree, Nodes(tree.shape)
    ensures fault <==> RemoveFaults(old(tree.shape), node)
    ensures !fault ==> tree.Valid() && tree.shape == Without(old(tree.shape), node)
  {
    ghost var (p, t) := PathTo(Top, tree.shape, node);
    PlugNodes(p, t);
    DescendAll(p, t, tree.root);
    if node.left == null || node.right == null {
      fault := RemoveOuter(tree, node, p, t, Nodes(tree.shape));
    } else {
      fault := RemoveInner(tree, node, p, t);
    }
    if !fault { tree.shape := Removed(p, t); }
  }
}
