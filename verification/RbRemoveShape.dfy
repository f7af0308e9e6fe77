/** What rbtree_remove does to the shape of the tree, and exactly when its result still obeys
    the red-black rules. */
module RbRemoveShape {
  import opened RbShape

  function PathLen(p: Path): nat { if p.Top? then 0 else 1 + PathLen(p.up) }

  /** The leftmost node of a subtree, its colour, and the subtree without it.  The code paints the
      right child that moves up red (line 162). */
  function MinOf(t: Tree): Node
    requires t.Bin?
  {
    if t.l.Leaf? then t.n else MinOf(t.l)
  }

  function MinRed(t: Tree): bool
    requires t.Bin?
  {
    if t.l.Leaf? then t.red else MinRed(t.l)
  }

  function Reddened(t: Tree): Tree { if t.Leaf? then t else t.(red := true) }

  function DropMin(t: Tree): Tree
    requires t.Bin?
  {
    if t.l.Leaf? then Reddened(t.r) else Bin(t.red, DropMin(t.l), t.n, t.r)
  }

  /** The turn of the walk at a red sibling, when it ends there.  Line 207 continues with the parent in the place
      of the sibling, so that the nephews are the close nephew and the subtree `t` itself.  A red close nephew is
      rotated up (lines 217-222); a red `t` is rotated over the parent, which then goes below the close nephew if
      there is one (lines 223-229). */
  function RedTurn(p: Path, t: Tree): Tree
    requires p.Step? && p.sib.Bin? && (p.sib.Sub(p.d).IsRed() || t.Bin?)
  {
    var d, s, x := p.d, p.sib, p.sib.Sub(p.d);
    var low :=
      if x.IsRed() then Make(false, d, Make(false, d, t, p.n, x.Sub(d)), x.n, x.Sub(!d))
      else Make(false, d, t.Sub(d), t.n, Rotated(Make(false, d, t.Sub(!d), p.n, x), d));
    Make(false, d, low, s.n, s.Sub(!d))
  }

  /** The turn at a black sibling with a red nephew, lines 217-229. */
  function BlackTurn(p: Path, t: Tree): Tree
    requires p.Step? && p.sib.Bin? && (p.sib.Sub(!p.d).IsRed() || p.sib.Sub(p.d).IsRed())
  {
    var d, s, x := p.d, p.sib, p.sib.Sub(p.d);
    if s.Sub(!d).IsRed() then Make(p.red, d, Make(false, d, t, p.n, x), s.n, s.Sub(!d).(red := false))
    else Make(p.red, d, Make(false, d, t, p.n, x.Sub(d)), x.n, Make(false, d, x.Sub(!d), s.n, s.Sub(!d)))
  }

  /** Lines 199-240 on shapes: the subtree `t` at the end of `p` has lost a black node.  Where line 203 would read
      through NULL, see NullSibling, nothing is meant. */
  function FixUp(p: Path, t: Tree): Tree
    decreases PathLen(p), if p.Top? then Leaf else p.sib
  {
    if p.Top? then t
    else if p.sib.Leaf? then Plug(p, t)
    else
      var d, s := p.d, p.sib;
      if s.red then
        if s.Sub(d).IsRed() || t.IsRed() then Plug(p.up, RedTurn(p, t))
        else FixUp(Step(d, false, s.n, s.Sub(!d), p.up), Make(true, d, t, p.n, s.Sub(d)))
      else if s.Sub(!d).IsRed() || s.Sub(d).IsRed() then Plug(p.up, BlackTurn(p, t))
      else if p.red then Plug(p.up, Make(false, d, t, p.n, s.(red := true)))
      else FixUp(p.up, Make(false, d, t, p.n, s.(red := true)))
  }

  /** The walk comes to a node without a sibling, whose colour line 203 reads; `red` is the colour of the subtree
      the walk is at. */
  predicate NullSibling(p: Path, red: bool)
    decreases PathLen(p), if p.Top? then Leaf else p.sib
  {
    p.Step? &&
    var d, s := p.d, p.sib;
    if s.Leaf? then true
    else if s.red then !s.Sub(d).IsRed() && !red && NullSibling(Step(d, false, s.n, s.Sub(!d), p.up), true)
    else !s.l.IsRed() && !s.r.IsRed() && !p.red && NullSibling(p.up, false)
  }

  /** The tree after removing the root of `t`, which sits at the end of `p`. */
  function Removed(p: Path, t: Tree): Tree
    requires t.Bin?
  {
    if t.l.Bin? && t.r.Bin? then
      Plug(p, Bin(p.Top? && MinRed(t.r), t.l, MinOf(t.r), DropMin(t.r)))
    else
      var c := if t.l.Bin? then t.l else t.r;
      if p.Top? then c
      else if c.Bin? then Plug(p, c.(red := false))
      else if t.red then Plug(p, Leaf)
      else FixUp(p, Leaf)
  }

  /** rbtree_remove faults at line 174, where the successor is the right child and has no child, so that the NULL
      that line 169 has just stored is read back, or at line 203. */
  predicate Faults(p: Path, t: Tree)
    requires t.Bin?
  {
    if t.l.Bin? && t.r.Bin? then t.r.l.Leaf? && t.r.r.Leaf?
    else t.l.Leaf? && t.r.Leaf? && !t.red && NullSibling(p, false)
  }

  /** The walk only comes to a node without a sibling where the tree has one: above the walk a child is missing, or
      a red sibling has no child on the far side. */
  lemma {:induction false} NullSiblingAbove(p: Path, red: bool) returns (q: Path)
    requires NullSibling(p, red)
    ensures q.Step? && PathLen(q) <= PathLen(p) && (q.sib.Leaf? || (q.sib.red && q.sib.Sub(!q.d).Leaf?))
    ensures PathNodes(q) <= PathNodes(p)
    decreases PathLen(p), if p.Top? then Leaf else p.sib
  {
    var d, s := p.d, p.sib;
    q := p;
    if s.Bin? && s.red {
      if s.Sub(!d).Bin? && s.Sub(!d).red {
        assert false;
      } else if s.Sub(!d).Bin? {
        q := NullSiblingAbove(p.up, false);
      }
    } else if s.Bin? {
      q := NullSiblingAbove(p.up, false);
    }
  }

  lemma SiblingExists(p: Path, h: nat)
    requires p.Step? && PathRB(p, h) && h > 0
    ensures p.sib.Bin?
  {
  }

  /** In a tree that obeys the rules every sibling the walk comes to is there. */
  lemma {:induction false} NoNullSibling(p: Path, red: bool, h: nat)
    requires PathRB(p, h) && h > 0 && (red ==> p.Step? && !p.sib.IsRed())
    ensures !NullSibling(p, red)
    decreases PathLen(p), if p.Top? then Leaf else p.sib
  {
    if p.Step? {
      SiblingExists(p, h);
      var d, s := p.d, p.sib;
      if s.red {
        NoNullSibling(Step(d, false, s.n, s.Sub(!d), p.up), true, h);
      } else if !p.red {
        NoNullSibling(p.up, false, h + 1);
      }
    }
  }

  // ---------- order ----------

  lemma {:induction false} DropMinInorder(t: Tree)
    requires t.Bin?
    ensures Inorder(t) == [MinOf(t)] + Inorder(DropMin(t))
  {
    if t.l.Leaf? {
      assert Inorder(Reddened(t.r)) == Inorder(t.r);
    } else {
      DropMinInorder(t.l);
    }
  }

  lemma {:induction false} DropMinNodes(t: Tree)
    requires t.Bin?
    ensures Nodes(t) == {MinOf(t)} + Nodes(DropMin(t))
  {
    if t.l.Bin? { DropMinNodes(t.l); }
  }

  /** One turn of the walk keeps the in-order sequence of the part it touches. */
  lemma RaisedInorder(p: Path, t: Tree)
    requires p.Step? && p.sib.Bin?
    ensures var d, s := p.d, p.sib; var whole := Inorder(Make(p.red, d, t, p.n, s));
      && Inorder(Make(false, d, Make(true, d, t, p.n, s.Sub(d)), s.n, s.Sub(!d))) == whole
      && Inorder(Make(false, d, t, p.n, s.(red := true))) == whole
  {
    var d, s := p.d, p.sib;
    Repainted(s, true);
    var ti, li, ri := Inorder(t), Inorder(s.l), Inorder(s.r);
    if d { Assoc(li, s.n, ri, p.n, ti); } else { Assoc(ti, p.n, li, s.n, ri); }
  }

  lemma BlackTurnInorder(p: Path, t: Tree)
    requires p.Step? && p.sib.Bin? && (p.sib.Sub(!p.d).IsRed() || p.sib.Sub(p.d).IsRed())
    ensures Inorder(BlackTurn(p, t)) == Inorder(Make(p.red, p.d, t, p.n, p.sib))
  {
    var d, s, x := p.d, p.sib, p.sib.Sub(p.d);
    var ti, li, ri := Inorder(t), Inorder(s.l), Inorder(s.r);
    if s.Sub(!d).IsRed() {
      Repainted(s.Sub(!d), false);
      if d { Assoc(li, s.n, ri, p.n, ti); } else { Assoc(ti, p.n, li, s.n, ri); }
    } else {
      var s' := Make(true, d, x.Sub(d), x.n, Make(false, d, x.Sub(!d), s.n, s.Sub(!d)));
      if d {
        Assoc(li, s.n, Inorder(x.l), x.n, Inorder(x.r));
        Assoc(Inorder(s'.l), x.n, Inorder(x.r), p.n, ti);
      } else {
        Assoc(Inorder(x.l), x.n, Inorder(x.r), s.n, ri);
        Assoc(ti, p.n, Inorder(x.l), x.n, Inorder(s'.r));
      }
      assert Inorder(s') == Inorder(s);
    }
  }

  lemma RedTurnInorder(p: Path, t: Tree)
    requires p.Step? && p.sib.Bin? && (p.sib.Sub(p.d).IsRed() || t.Bin?)
    ensures Inorder(RedTurn(p, t)) == Inorder(Make(p.red, p.d, t, p.n, p.sib))
  {
    var d, s, x := p.d, p.sib, p.sib.Sub(p.d);
    RaisedInorder(p, t);
    LowInorder(d, t, p.n, x);
    var low := RedTurn(p, t).Sub(d);
    assert Inorder(low) == Inorder(Make(true, d, t, p.n, x));
    assert Inorder(RedTurn(p, t)) == Inorder(Make(false, d, Make(true, d, t, p.n, x), s.n, s.Sub(!d)));
  }

  lemma LowInorder(d: bool, t: Tree, n: Node, x: Tree)
    ensures x.Bin? ==>
      Inorder(Make(false, d, Make(false, d, t, n, x.Sub(d)), x.n, x.Sub(!d))) == Inorder(Make(true, d, t, n, x))
    ensures t.Bin? ==>
      Inorder(Make(false, d, t.Sub(d), t.n, Rotated(Make(false, d, t.Sub(!d), n, x), d)))
        == Inorder(Make(true, d, t, n, x))
  {
    if x.Bin? {
      if d { Assoc(Inorder(x.l), x.n, Inorder(x.r), n, Inorder(t)); }
      else { Assoc(Inorder(t), n, Inorder(x.l), x.n, Inorder(x.r)); }
    }
    if t.Bin? {
      RotatedInorder(Make(false, d, t.Sub(!d), n, x), d);
      if d { Assoc(Inorder(x), n, Inorder(t.l), t.n, Inorder(t.r)); }
      else { Assoc(Inorder(t.l), t.n, Inorder(t.r), n, Inorder(x)); }
    }
  }

  lemma {:induction false} FixUpInorder(p: Path, t: Tree)
    ensures Inorder(FixUp(p, t)) == Inorder(Plug(p, t))
    decreases PathLen(p), if p.Top? then Leaf else p.sib
  {
    if p.Step? && p.sib.Bin? {
      var d, s, w := p.d, p.sib, Make(p.red, p.d, t, p.n, p.sib);
      RaisedInorder(p, t);
      if s.red {
        if s.Sub(d).IsRed() || t.IsRed() {
          RedTurnInorder(p, t);
          PlugInorder(p.up, w, RedTurn(p, t));
        } else {
          PlugInorder(p.up, w, Make(false, d, Make(true, d, t, p.n, s.Sub(d)), s.n, s.Sub(!d)));
          FixUpInorder(Step(d, false, s.n, s.Sub(!d), p.up), Make(true, d, t, p.n, s.Sub(d)));
        }
      } else if s.Sub(!d).IsRed() || s.Sub(d).IsRed() {
        BlackTurnInorder(p, t);
        PlugInorder(p.up, w, BlackTurn(p, t));
      } else {
        PlugInorder(p.up, w, Make(false, d, t, p.n, s.(red := true)));
        if !p.red { FixUpInorder(p.up, Make(false, d, t, p.n, s.(red := true))); }
      }
    }
  }

  /** `t` is `s` without one occurrence of `n`. */
  ghost predicate RemovedFrom(s: seq<Node>, n: Node, t: seq<Node>) {
    exists i :: 0 <= i < |s| && s[i] == n && t == s[..i] + s[i + 1..]
  }

  lemma CutOut(b: seq<Node>, l: seq<Node>, n: Node, r: seq<Node>, a: seq<Node>)
    ensures RemovedFrom(b + (l + [n] + r) + a, n, b + (l + r) + a)
  {
    var s, i := b + (l + [n] + r) + a, |b| + |l|;
    assert s[i] == n && s[..i] == b + l && s[i + 1..] == r + a;
    assert (b + l) + (r + a) == b + (l + r) + a;
  }

  lemma RemovedSeq(p: Path, t: Tree)
    requires t.Bin?
    ensures Inorder(Removed(p, t)) == Before(p) + (Inorder(t.l) + Inorder(t.r)) + After(p)
  {
    if t.l.Bin? && t.r.Bin? {
      var t' := Bin(p.Top? && MinRed(t.r), t.l, MinOf(t.r), DropMin(t.r));
      DropMinInorder(t.r);
      assert Inorder(t') == Inorder(t.l) + Inorder(t.r);
      InorderPlug(p, t');
    } else {
      var c := if t.l.Bin? then t.l else t.r;
      assert Inorder(c) == Inorder(t.l) + Inorder(t.r);
      if p.Step? && c.Bin? {
        Repainted(c, false);
        InorderPlug(p, c.(red := false));
      } else if p.Step? {
        FixUpInorder(p, Leaf);
        InorderPlug(p, Leaf);
      }
    }
  }

  /** Removal deletes exactly the given node from the in-order sequence. */
  lemma RemovedInorder(p: Path, t: Tree)
    requires t.Bin?
    ensures RemovedFrom(Inorder(Plug(p, t)), t.n, Inorder(Removed(p, t)))
  {
    InorderPlug(p, t);
    RemovedSeq(p, t);
    CutOut(Before(p), Inorder(t.l), t.n, Inorder(t.r), After(p));
  }

  // ---------- when the result obeys the rules ----------

  lemma {:induction false} HeightUnique(t: Tree, h: nat, k: nat)
    requires RB(t, h) && RB(t, k)
    ensures h == k
  {
    if t.Bin? { HeightUnique(t.l, if t.red then h else h - 1, if t.red then k else k - 1); }
  }

  ghost predicate Broken(t: Tree) {
    forall h: nat :: !RB(t, h)
  }

  lemma BrokenBelow(c: bool, d: bool, a: Tree, n: Node, b: Tree)
    requires Broken(a)
    ensures Broken(Make(c, d, a, n, b))
  {
  }

  /** Two subtrees whose heights differ. */
  lemma Unequal(c: bool, d: bool, a: Tree, n: Node, b: Tree, k: nat)
    requires RB(b, k) && !RB(a, k)
    ensures Broken(Make(c, d, a, n, b))
  {
    forall h: nat ensures !RB(Make(c, d, a, n, b), h) {
      if RB(Make(c, d, a, n, b), h) { HeightUnique(b, k, if c then h else h - 1); }
    }
  }

  lemma {:induction false} BrokenPlug(p: Path, t: Tree)
    requires Broken(t)
    ensures Broken(Plug(p, t))
  {
    if p.Step? {
      BrokenBelow(p.red, p.d, t, p.n, p.sib);
      BrokenPlug(p.up, Make(p.red, p.d, t, p.n, p.sib));
    }
  }

  lemma BrokenTurn(p: Path, t: Tree)
    requires Broken(t) && p.Step? && p.sib.Bin? && (p.sib.Sub(!p.d).IsRed() || p.sib.Sub(p.d).IsRed())
    ensures Broken(BlackTurn(p, t))
  {
    var d, s, x := p.d, p.sib, p.sib.Sub(p.d);
    if s.Sub(!d).IsRed() {
      BrokenBelow(false, d, t, p.n, x);
      BrokenBelow(p.red, d, Make(false, d, t, p.n, x), s.n, s.Sub(!d).(red := false));
    } else {
      BrokenBelow(false, d, t, p.n, x.Sub(d));
      BrokenBelow(p.red, d, Make(false, d, t, p.n, x.Sub(d)), x.n, Make(false, d, x.Sub(!d), s.n, s.Sub(!d)));
    }
  }

  /** Among siblings that obey the rules the walk moves a subtree around but never repairs it. */
  lemma {:induction false} BrokenFixUp(p: Path, t: Tree, h: nat)
    requires Broken(t) && PathRB(p, h) && (t.IsRed() ==> p.Step? && !p.sib.IsRed())
    ensures Broken(FixUp(p, t))
    decreases PathLen(p), if p.Top? then Leaf else p.sib
  {
    if p.Step? && p.sib.Leaf? {
      BrokenPlug(p, t);
    } else if p.Step? {
      var d, s := p.d, p.sib;
      if s.red {
        BrokenBelow(true, d, t, p.n, s.Sub(d));
        BrokenFixUp(Step(d, false, s.n, s.Sub(!d), p.up), Make(true, d, t, p.n, s.Sub(d)), h);
      } else if s.Sub(!d).IsRed() || s.Sub(d).IsRed() {
        BrokenTurn(p, t);
        BrokenPlug(p.up, BlackTurn(p, t));
      } else {
        BrokenBelow(false, d, t, p.n, s.(red := true));
        if p.red {
          BrokenPlug(p.up, Make(false, d, t, p.n, s.(red := true)));
        } else {
          BrokenFixUp(p.up, Make(false, d, t, p.n, s.(red := true)), h + 1);
        }
      }
    }
  }

  /** The walk ends before it meets a red sibling. */
  predicate MeetsNoRedSibling(p: Path) {
    p.Step? ==>
      && !p.sib.IsRed()
      && (p.red || (p.sib.Bin? && (p.sib.l.IsRed() || p.sib.r.IsRed())) || MeetsNoRedSibling(p.up))
  }

  lemma BlackTurnRB(p: Path, t: Tree, h: nat)
    requires p.Step? && p.sib.Bin? && !p.sib.red && RB(p.sib, h + 1) && RB(t, h) && !t.IsRed()
    requires p.sib.Sub(!p.d).IsRed() || p.sib.Sub(p.d).IsRed()
    ensures BlackTurn(p, t).red == p.red && RB(BlackTurn(p, t), if p.red then h + 1 else h + 2)
  {
    var d, s, x := p.d, p.sib, p.sib.Sub(p.d);
    assert RB(x, h) && RB(s.Sub(!d), h);
    if s.Sub(!d).IsRed() {
      assert RB(s.Sub(!d).(red := false), h + 1) && RB(Make(false, d, t, p.n, x), h + 1);
    } else {
      assert RB(x.Sub(d), h) && RB(x.Sub(!d), h);
      assert RB(Make(false, d, t, p.n, x.Sub(d)), h + 1) && RB(Make(false, d, x.Sub(!d), s.n, s.Sub(!d)), h + 1);
    }
  }

  lemma {:induction false} FixUpRedBlack(p: Path, t: Tree, h: nat)
    requires PathRB(p, h + 1) && RB(t, h) && !t.IsRed() && MeetsNoRedSibling(p)
    ensures RedBlack(FixUp(p, t))
  {
    if p.Step? {
      SiblingExists(p, h + 1);
      var d, s, k := p.d, p.sib, if p.red then h + 1 else h + 2;
      assert RB(s, h + 1) && RB(s.Sub(d), h) && RB(s.Sub(!d), h);
      if s.Sub(!d).IsRed() || s.Sub(d).IsRed() {
        BlackTurnRB(p, t, h);
        PlugRB(p.up, BlackTurn(p, t), k);
      } else {
        assert RB(s.(red := true), h) && RB(Make(false, d, t, p.n, s.(red := true)), h + 1);
        if p.red {
          PlugRB(p.up, Make(false, d, t, p.n, s.(red := true)), h + 1);
        } else {
          FixUpRedBlack(p.up, Make(false, d, t, p.n, s.(red := true)), h + 1);
        }
      }
    }
  }

  lemma {:induction false} FixUpBroken(p: Path, t: Tree, h: nat)
    requires PathRB(p, h + 1) && RB(t, h) && !t.IsRed() && !MeetsNoRedSibling(p)
    ensures Broken(FixUp(p, t))
  {
    SiblingExists(p, h + 1);
    var d, s := p.d, p.sib;
    if s.red {
      if RB(t, h + 1) { HeightUnique(t, h, h + 1); }
      Unequal(true, d, t, p.n, s.Sub(d), h + 1);
      BrokenFixUp(Step(d, false, s.n, s.Sub(!d), p.up), Make(true, d, t, p.n, s.Sub(d)), h + 1);
    } else {
      assert RB(s.(red := true), h) && RB(Make(false, d, t, p.n, s.(red := true)), h + 1);
      FixUpBroken(p.up, Make(false, d, t, p.n, s.(red := true)), h + 1);
    }
  }

  lemma {:induction false} DropRedMin(t: Tree, h: nat)
    requires t.Bin? && RB(t, h) && MinRed(t)
    ensures RB(DropMin(t), h) && (!t.IsRed() ==> !DropMin(t).IsRed())
  {
    if t.l.Bin? { DropRedMin(t.l, if t.red then h else h - 1); }
  }

  lemma {:induction false} DropBlackMin(t: Tree, h: nat)
    requires t.Bin? && RB(t, h) && !MinRed(t)
    ensures !RB(DropMin(t), h)
  {
    if t.l.Bin? {
      DropBlackMin(t.l, if t.red then h else h - 1);
    } else if RB(Reddened(t.r), h) {
      assert h == 1 && RB(t.r, 0) && Reddened(t.r) == t.r;
      HeightUnique(t.r, 0, 1);
    }
  }

  /** What a caller can check before the call: with two children, the node is a black non-root with a
      red successor; with one child, it is not the root; without children, it is red, or the root, or
      the walk meets no red sibling. */
  predicate KeepsRules(p: Path, t: Tree)
    requires t.Bin?
  {
    if t.l.Bin? && t.r.Bin? then !t.red && p.Step? && MinRed(t.r)
    else if t.l.Bin? || t.r.Bin? then p.Step?
    else t.red || p.Top? || MeetsNoRedSibling(p)
  }

  lemma RemovedWithTwo(p: Path, t: Tree, h: nat)
    requires PathRB(p, h) && RB(t, h) && (t.IsRed() ==> p.Step? && !p.red) && t.Bin? && t.l.Bin? && t.r.Bin?
    ensures RedBlack(Removed(p, t)) <==> KeepsRules(p, t)
  {
    var k := if t.red then h else h - 1;
    var t' := Bin(p.Top? && MinRed(t.r), t.l, MinOf(t.r), DropMin(t.r));
    if !MinRed(t.r) {
      DropBlackMin(t.r, k);
      Unequal(t'.red, true, DropMin(t.r), t'.n, t.l, k);
      BrokenPlug(p, t');
    } else if p.Step? {
      DropRedMin(t.r, k);
      assert RB(t', k + 1);
      if t.red {
        if RB(t', h) { HeightUnique(t', h, k + 1); }
        Unequal(p.red, p.d, t', p.n, p.sib, h);
        BrokenPlug(p.up, Make(p.red, p.d, t', p.n, p.sib));
      } else {
        PlugRB(p, t', h);
      }
    }
  }

  /** rbtree_remove on a valid tree yields a valid tree exactly when KeepsRules says so. */
  lemma RemovedRedBlack(p: Path, t: Tree, h: nat)
    requires PathRB(p, h) && RB(t, h) && (t.IsRed() ==> p.Step? && !p.red) && t.Bin?
    ensures RedBlack(Removed(p, t)) <==> KeepsRules(p, t)
  {
    if t.l.Bin? && t.r.Bin? {
      RemovedWithTwo(p, t, h);
    } else {
      var c := if t.l.Bin? then t.l else t.r;
      if c.Bin? {
        OnlyChildRed(t, h);
        if p.Step? { PlugRB(p, c.(red := false), h); }
      } else if p.Top? {
        assert RB(Leaf, 0);
      } else if t.red {
        PlugRB(p, Leaf, h);
      } else if MeetsNoRedSibling(p) {
        FixUpRedBlack(p, Leaf, 0);
      } else {
        FixUpBroken(p, Leaf, 0);
      }
    }
  }

  /** A node with exactly one child is black and the child is a red leaf. */
  lemma OnlyChildRed(t: Tree, h: nat)
    requires t.Bin? && RB(t, h) && t.l.Bin? != t.r.Bin?
    ensures var c := if t.l.Bin? then t.l else t.r; !t.red && h == 1 && c.red && RB(c.(red := false), h)
  {
    var c := if t.l.Bin? then t.l else t.r;
    assert RB(c, 0);
  }

  /** Three trees that obey the rules and lose them: removing a root with one child leaves a red root,
      removing a red node whose successor is a red leaf leaves unequal black heights, and so does removing
      a black leaf whose sibling is red, where line 207 takes the parent for the new sibling. */
  lemma RemoveCanBreakRules(a: Node, b: Node, c: Node, d: Node, e: Node)
    ensures var t := Bin(false, Leaf, a, Bin(true, Leaf, b, Leaf));
      RedBlack(t) && !RedBlack(Removed(Top, t))
    ensures
      var black := Bin(false, Leaf, c, Leaf);
      var t := Bin(true, black, b, Bin(false, Bin(true, Leaf, d, Leaf), e, Leaf));
      var p := Step(true, false, a, black, Top);
      RedBlack(Plug(p, t)) && !RedBlack(Removed(p, t))
    ensures
      var p := Step(true, false, a, Bin(true, Bin(false, Leaf, c, Leaf), d, Bin(false, Leaf, e, Leaf)), Top);
      RedBlack(Plug(p, Bin(false, Leaf, b, Leaf))) && !RedBlack(Removed(p, Bin(false, Leaf, b, Leaf)))
  {
    RootBreaks(a, b);
    RedNodeBreaks(a, b, c, d, e);
    RedSiblingBreaks(a, b, c, d, e);
  }

  lemma SingleRB(n: Node)
    ensures RB(Bin(true, Leaf, n, Leaf), 0) && RB(Bin(false, Leaf, n, Leaf), 1)
  {
    assert RB(Leaf, 0);
  }

  lemma RootBreaks(a: Node, b: Node)
    ensures var t := Bin(false, Leaf, a, Bin(true, Leaf, b, Leaf)); RedBlack(t) && !RedBlack(Removed(Top, t))
  {
    var t := Bin(false, Leaf, a, Bin(true, Leaf, b, Leaf));
    SingleRB(b);
    assert RB(Leaf, 0) && RB(t, 1);
  }

  lemma RedNodeBreaks(a: Node, b: Node, c: Node, d: Node, e: Node)
    ensures
      var black := Bin(false, Leaf, c, Leaf);
      var t := Bin(true, black, b, Bin(false, Bin(true, Leaf, d, Leaf), e, Leaf));
      var p := Step(true, false, a, black, Top);
      RedBlack(Plug(p, t)) && !RedBlack(Removed(p, t))
  {
    var black, right := Bin(false, Leaf, c, Leaf), Bin(false, Bin(true, Leaf, d, Leaf), e, Leaf);
    var t, p := Bin(true, black, b, right), Step(true, false, a, black, Top);
    SingleRB(c);
    SingleRB(d);
    assert RB(Leaf, 0);
    assert RB(right, 1);
    assert RB(t, 1);
    assert PathRB(Top, 2);
    assert PathRB(p, 1);
    PlugRB(p, t, 1);
    RemovedRedBlack(p, t, 1);
    assert MinOf(t.r) == d && MinRed(t.r);
  }

  lemma RedSiblingBreaks(a: Node, b: Node, c: Node, d: Node, e: Node)
    ensures
      var p := Step(true, false, a, Bin(true, Bin(false, Leaf, c, Leaf), d, Bin(false, Leaf, e, Leaf)), Top);
      RedBlack(Plug(p, Bin(false, Leaf, b, Leaf))) && !RedBlack(Removed(p, Bin(false, Leaf, b, Leaf)))
  {
    var x, y, t := Bin(false, Leaf, c, Leaf), Bin(false, Leaf, e, Leaf), Bin(false, Leaf, b, Leaf);
    var s := Bin(true, x, d, y);
    var p := Step(true, false, a, s, Top);
    SingleRB(b);
    SingleRB(c);
    SingleRB(e);
    assert !x.IsRed() && !y.IsRed() && RB(s, 1);
    assert PathRB(Top, 2);
    assert PathRB(p, 1);
    PlugRB(p, t, 1);
    RemovedRedBlack(p, t, 1);
    assert !MeetsNoRedSibling(p);
  }

  /** A tree that obeys the rules and on whose root the code faults. */
  lemma RemoveCanFault(a: Node, b: Node, c: Node)
    ensures var t := Bin(false, Bin(true, Leaf, a, Leaf), b, Bin(true, Leaf, c, Leaf)); RedBlack(t) && Faults(Top, t)
  {
    var t := Bin(false, Bin(true, Leaf, a, Leaf), b, Bin(true, Leaf, c, Leaf));
    SingleRB(a);
    SingleRB(c);
    assert RB(t, 1);
  }
}
