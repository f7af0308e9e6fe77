/** What rbtree_add does to the shape of a tree of any colours, and that it keeps the red-black rules. */
module RbAddShape {
  import opened RbShape

  /** Lines 98-105: the way down to the free place for the key `v`. */
  function PlaceOf(p: Path, t: Tree, v: nat): Path
    decreases t
  {
    if t.Leaf? then p else var d := t.n.val < v; PlaceOf(Step(d, t.red, t.n, t.Sub(!d), p), t.Sub(d), v)
  }

  /** Lines 124-127: the subtree of the red parent, turned so that its child `t` lies in direction `d`. */
  function Straight(d: bool, p: Path, t: Tree): (b: Tree)
    requires p.Step? && t.Bin?
    ensures b.Bin?
  {
    var b := Make(p.red, p.d, t, p.n, p.sib);
    if p.d == d then b else Rotated(b, d)
  }

  /** Lines 129-131: `b` takes the place of its parent, black, and the parent goes down, red. */
  function Lifted(q: Path, b: Tree): Tree
    requires q.Step? && b.Bin?
  {
    Make(false, q.d, b.Sub(q.d), b.n, Make(true, q.d, b.Sub(!q.d), q.n, q.sib))
  }

  /** Lines 135-137: the subtree of the grandparent, recoloured, when the uncle is red. */
  function PassedUp(p: Path, t: Tree): (b: Tree)
    requires p.Step? && p.up.Step? && p.up.sib.Bin?
    ensures b.IsRed()
  {
    Make(true, p.up.d, Make(false, p.d, t, p.n, p.sib), p.up.n, p.up.sib.(red := false))
  }

  /** Lines 109-141: the upward loop, with the red node at the root of `t`. */
  function AddUp(p: Path, t: Tree): Tree
    requires t.IsRed()
    decreases p
  {
    if p.Top? then t.(red := false)
    else if !p.red then Plug(p, t)
    else if p.up.Top? then Make(false, p.d, t, p.n, p.sib)
    else if p.up.sib.IsRed() then AddUp(p.up.up, PassedUp(p, t))
    else Plug(p.up.up, Lifted(p.up, Straight(p.up.d, p, t)))
  }

  /** The tree after rbtree_add. */
  function Added(s: Tree, n: Node): Tree {
    if s.Leaf? then Bin(false, Leaf, n, Leaf) else AddUp(PlaceOf(Top, s, n.val), Bin(true, Leaf, n, Leaf))
  }

  // ---------- the place ----------

  lemma {:induction false} PlacePlug(p: Path, t: Tree, v: nat)
    ensures Plug(PlaceOf(p, t, v), Leaf) == Plug(p, t)
    decreases t
  {
    if t.Bin? {
      var d := t.n.val < v;
      PlacePlug(Step(d, t.red, t.n, t.Sub(!d), p), t.Sub(d), v);
    }
  }

  lemma {:induction false} PlaceOrder(p: Path, t: Tree, v: nat)
    requires Sorted(Inorder(Plug(p, t))) && AllBelow(Before(p), v) && AllFrom(After(p), v)
    ensures AllBelow(Before(PlaceOf(p, t, v)), v) && AllFrom(After(PlaceOf(p, t, v)), v)
    decreases t
  {
    if t.Bin? {
      var d := t.n.val < v;
      DescendOrder(p, t, v, v, d);
      PlaceOrder(Step(d, t.red, t.n, t.Sub(!d), p), t.Sub(d), v);
    }
  }

  lemma {:induction false} PlaceRB(p: Path, t: Tree, v: nat, h: nat)
    requires RB(t, h) && PathRB(p, h) && (t.IsRed() ==> p.Step? && !p.red)
    ensures PathRB(PlaceOf(p, t, v), 0)
    decreases t
  {
    if t.Bin? {
      var d := t.n.val < v;
      var k := DescendRB(p, t, h, d);
      PlaceRB(Step(d, t.red, t.n, t.Sub(!d), p), t.Sub(d), v, k);
    }
  }

  // ---------- order ----------

  lemma StraightInorder(d: bool, p: Path, t: Tree)
    requires p.Step? && t.Bin?
    ensures Inorder(Straight(d, p, t)) == Inorder(Make(p.red, p.d, t, p.n, p.sib))
    ensures Nodes(Straight(d, p, t)) == {p.n} + Nodes(t) + Nodes(p.sib)
  {
    RotatedInorder(Make(p.red, p.d, t, p.n, p.sib), d);
  }

  lemma LiftedInorder(q: Path, b: Tree)
    requires q.Step? && b.Bin?
    ensures Inorder(Lifted(q, b)) == Inorder(Make(q.red, q.d, b, q.n, q.sib))
  {
    var x, y, u := Inorder(b.Sub(q.d)), Inorder(b.Sub(!q.d)), Inorder(q.sib);
    if q.d { Assoc(u, q.n, y, b.n, x); } else { Assoc(x, b.n, y, q.n, u); }
  }

  lemma PassedUpInorder(p: Path, t: Tree)
    requires p.Step? && p.up.Step? && p.up.sib.Bin?
    ensures Inorder(Plug(p.up.up, PassedUp(p, t))) == Inorder(Plug(p, t))
    ensures Nodes(PassedUp(p, t)) + PathNodes(p.up.up) == Nodes(t) + PathNodes(p)
  {
    var q := p.up;
    var b := Make(p.red, p.d, t, p.n, p.sib);
    Repainted(b, false);
    Repainted(q.sib, false);
    PlugInorder(q.up, Make(q.red, q.d, b, q.n, q.sib), PassedUp(p, t));
  }

  lemma {:induction false} AddUpInorder(p: Path, t: Tree)
    requires t.IsRed()
    ensures Inorder(AddUp(p, t)) == Inorder(Plug(p, t))
    decreases p
  {
    if p.Top? {
      Repainted(t, false);
    } else if p.red && p.up.Top? {
      Repainted(Make(p.red, p.d, t, p.n, p.sib), false);
    } else if p.red {
      var q := p.up;
      if q.sib.IsRed() {
        PassedUpInorder(p, t);
        AddUpInorder(q.up, PassedUp(p, t));
      } else {
        var b := Straight(q.d, p, t);
        StraightInorder(q.d, p, t);
        LiftedInorder(q, b);
        PlugInorder(q, Make(p.red, p.d, t, p.n, p.sib), b);
        PlugInorder(q.up, Make(q.red, q.d, b, q.n, q.sib), Lifted(q, b));
      }
    }
  }

  /** The new node is put in front of the first that is not smaller, and the sequence stays sorted. */
  lemma AddedInorder(s: Tree, n: Node)
    requires Sorted(Inorder(s))
    ensures InsertedInto(Inorder(s), n, Inorder(Added(s, n))) && Sorted(Inorder(Added(s, n)))
  {
    if s.Leaf? {
      assert InsertedInto([], n, [n]) by { assert [n] == [][..0] + [n] + [][0..]; }
    } else {
      var p, t := PlaceOf(Top, s, n.val), Bin(true, Leaf, n, Leaf);
      PlacePlug(Top, s, n.val);
      PlaceOrder(Top, s, n.val);
      InsertedAtLeaf(p, n);
      AddUpInorder(p, t);
      InsertedSorted(Inorder(s), n, Inorder(Added(s, n)));
    }
  }

  // ---------- colours ----------

  lemma StraightRB(d: bool, p: Path, t: Tree, h: nat)
    requires p.Step? && p.red && t.IsRed() && RB(t, h) && RB(p.sib, h) && !p.sib.IsRed()
    ensures var b := Straight(d, p, t);
      b.Sub(d).IsRed() && !b.Sub(!d).IsRed() && RB(b.Sub(d), h) && RB(b.Sub(!d), h)
  {
  }

  lemma LiftedRB(q: Path, b: Tree, h: nat)
    requires q.Step? && RB(q.sib, h) && !q.sib.IsRed() && b.Bin?
    requires b.Sub(q.d).IsRed() && !b.Sub(!q.d).IsRed() && RB(b.Sub(q.d), h) && RB(b.Sub(!q.d), h)
    ensures RB(Lifted(q, b), h + 1)
  {
    var low := Make(true, q.d, b.Sub(!q.d), q.n, q.sib);
    assert RB(low, h);
  }

  lemma PassedUpRB(p: Path, t: Tree, h: nat)
    requires RB(t, h) && p.Step? && RB(p.sib, h) && p.up.Step? && p.up.sib.IsRed() && RB(p.up.sib, h)
    ensures RB(PassedUp(p, t), h + 1)
  {
    assert RB(Make(false, p.d, t, p.n, p.sib), h + 1) && RB(p.up.sib.(red := false), h + 1);
  }

  /** From one red node, perhaps under a red one, the rules are restored. */
  lemma {:induction false} AddUpRedBlack(p: Path, t: Tree, h: nat)
    requires t.IsRed() && RB(t, h) && PathRB(p, h)
    ensures RedBlack(AddUp(p, t))
    decreases p
  {
    if p.Top? {
      assert RB(t.(red := false), h + 1);
    } else if !p.red {
      PlugRB(p, t, h);
    } else {
      var q := p.up;
      assert q.Step? && !q.red && PathRB(q, h);
      if q.sib.IsRed() {
        PassedUpRB(p, t, h);
        AddUpRedBlack(q.up, PassedUp(p, t), h + 1);
      } else {
        StraightRB(q.d, p, t, h);
        LiftedRB(q, Straight(q.d, p, t), h);
        PlugRB(q.up, Lifted(q, Straight(q.d, p, t)), h + 1);
      }
    }
  }

  lemma AddedRedBlack(s: Tree, n: Node)
    requires RedBlack(s)
    ensures RedBlack(Added(s, n))
  {
    if s.Leaf? {
      assert RB(Added(s, n), 1);
    } else {
      var h: nat :| RB(s, h);
      PlaceRB(Top, s, n.val, h);
      AddUpRedBlack(PlaceOf(Top, s, n.val), Bin(true, Leaf, n, Leaf), 0);
    }
  }
}
