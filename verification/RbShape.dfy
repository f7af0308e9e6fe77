/** The shape of the red-black tree of src/rbtree.c as a value: the tree below a node, the
    path above it, and what rotations and recolourings do to order and to black heights.
    Nothing here reads the heap; RbTree ties these values to the linked nodes. */
module RbShape {

  /** A node of the tree.  The C structure keeps the colour in bit 0 of the parent word; the
      two halves of that word are the fields `parent` and `red`.  `left` and `right` are
      nodes[0] and nodes[1]. */
  class Node {
    const val: nat
    var left: Node?
    var right: Node?
    var parent: Node?
    var red: bool

    constructor (v: nat)
      ensures val == v
    {
      val := v;
    }

    /** nodes[d], with `false` for index 0. */
    function Kid(d: bool): Node?
      reads this
    {
      if d then right else left
    }

    method SetKid(d: bool, x: Node?)
      modifies this
      ensures Kid(d) == x && Kid(!d) == old(Kid(!d)) && parent == old(parent) && red == old(red)
    {
      if d { right := x; } else { left := x; }
    }
  }

  datatype Tree = Leaf | Bin(red: bool, l: Tree, n: Node, r: Tree) {
    function Sub(d: bool): Tree
      requires Bin?
    {
      if d then r else l
    }

    predicate IsRed() { Bin? && red }
  }

  /** The way from the root down to a subtree: the nearest step first, each with the subtree on
      the other side. */
  datatype Path = Top | Step(d: bool, red: bool, n: Node, sib: Tree, up: Path)

  /** The tree whose child in direction `d` is `a` and whose other child is `b`. */
  function Make(red: bool, d: bool, a: Tree, n: Node, b: Tree): Tree {
    if d then Bin(red, b, n, a) else Bin(red, a, n, b)
  }

  function Plug(p: Path, t: Tree): Tree {
    match p
    case Top => t
    case Step(d, c, n, sib, up) => Plug(up, Make(c, d, t, n, sib))
  }

  function RootOf(t: Tree): Node? { if t.Leaf? then null else t.n }

  function Above(p: Path): Node? { if p.Top? then null else p.n }

  ghost function Nodes(t: Tree): set<Node> {
    match t
    case Leaf => {}
    case Bin(_, l, n, r) => {n} + Nodes(l) + Nodes(r)
  }

  ghost function PathNodes(p: Path): set<Node> {
    match p
    case Top => {}
    case Step(_, _, n, sib, up) => {n} + Nodes(sib) + PathNodes(up)
  }

  function Inorder(t: Tree): seq<Node> {
    match t
    case Leaf => []
    case Bin(_, l, n, r) => Inorder(l) + [n] + Inorder(r)
  }

  /** The nodes that precede, respectively follow, the subtree at the end of the path. */
  function Before(p: Path): seq<Node> {
    match p
    case Top => []
    case Step(d, _, n, sib, up) => if d then Before(up) + (Inorder(sib) + [n]) else Before(up)
  }

  function After(p: Path): seq<Node> {
    match p
    case Top => []
    case Step(d, _, n, sib, up) => if d then After(up) else ([n] + Inorder(sib)) + After(up)
  }

  lemma {:induction false} InorderPlug(p: Path, t: Tree)
    ensures Inorder(Plug(p, t)) == Before(p) + Inorder(t) + After(p)
  {
    match p
    case Top =>
    case Step(d, c, n, sib, up) =>
      InorderPlug(up, Make(c, d, t, n, sib));
      var b, a, s, x := Before(up), After(up), Inorder(sib), Inorder(t);
      if d { RegroupLeft(b, s, n, x, a); } else { RegroupRight(b, x, n, s, a); }
  }

  lemma RegroupLeft(b: seq<Node>, s: seq<Node>, n: Node, x: seq<Node>, a: seq<Node>)
    ensures b + (s + [n] + x) + a == (b + (s + [n])) + x + a
  {
  }

  lemma RegroupRight(b: seq<Node>, x: seq<Node>, n: Node, s: seq<Node>, a: seq<Node>)
    ensures b + (x + [n] + s) + a == b + x + (([n] + s) + a)
  {
  }

  /** Replacing a subtree by one with the same in-order sequence keeps the sequence of the whole. */
  lemma PlugInorder(p: Path, t: Tree, t': Tree)
    requires Inorder(t) == Inorder(t')
    ensures Inorder(Plug(p, t)) == Inorder(Plug(p, t'))
  {
    InorderPlug(p, t);
    InorderPlug(p, t');
  }

  lemma {:induction false} PlugNodes(p: Path, t: Tree)
    ensures Nodes(Plug(p, t)) == Nodes(t) + PathNodes(p)
  {
    match p
    case Top =>
    case Step(d, c, n, sib, up) => PlugNodes(up, Make(c, d, t, n, sib));
  }

  lemma {:induction false} InorderNodes(t: Tree)
    ensures forall x :: x in Inorder(t) <==> x in Nodes(t)
  {
    match t
    case Leaf =>
    case Bin(_, l, n, r) => InorderNodes(l); InorderNodes(r);
  }

  lemma Repainted(t: Tree, c: bool)
    requires t.Bin?
    ensures Inorder(t.(red := c)) == Inorder(t) && Nodes(t.(red := c)) == Nodes(t)
  {
  }

  lemma Assoc(a: seq<Node>, x: Node, b: seq<Node>, y: Node, c: seq<Node>)
    ensures (a + [x] + b) + [y] + c == a + [x] + (b + [y] + c)
  {
  }

  // ---------- order ----------

  ghost predicate Sorted(s: seq<Node>) {
    forall i, j :: 0 <= i < j < |s| ==> s[i].val <= s[j].val
  }

  ghost predicate AllBelow(s: seq<Node>, v: nat) {
    forall i :: 0 <= i < |s| ==> s[i].val < v
  }

  ghost predicate AllFrom(s: seq<Node>, v: nat) {
    forall i :: 0 <= i < |s| ==> v <= s[i].val
  }

  /** The in-order sequence `t` is `s` with `n` put in front of the first node that is not
      smaller. */
  ghost predicate InsertedInto(s: seq<Node>, n: Node, t: seq<Node>) {
    exists i :: 0 <= i <= |s| && t == s[..i] + [n] + s[i..] && AllBelow(s[..i], n.val) && AllFrom(s[i..], n.val)
  }

  lemma InsertedIndex(s: seq<Node>, n: Node, t: seq<Node>, i: nat, k: nat)
    requires i <= |s| && t == s[..i] + [n] + s[i..] && AllBelow(s[..i], n.val) && AllFrom(s[i..], n.val) && k < |t|
    ensures k < i ==> t[k] == s[k] && s[k].val < n.val
    ensures k == i ==> t[k] == n
    ensures k > i ==> t[k] == s[k - 1] && n.val <= s[k - 1].val
  {
    if k < i { assert s[..i][k] == s[k]; }
    if k > i { assert s[i..][k - 1 - i] == s[k - 1]; }
  }

  lemma InsertedSorted(s: seq<Node>, n: Node, t: seq<Node>)
    requires Sorted(s) && InsertedInto(s, n, t)
    ensures Sorted(t)
  {
    var i :| 0 <= i <= |s| && t == s[..i] + [n] + s[i..] && AllBelow(s[..i], n.val) && AllFrom(s[i..], n.val);
    forall j, k | 0 <= j < k < |t|
      ensures t[j].val <= t[k].val
    {
      InsertedIndex(s, n, t, i, j);
      InsertedIndex(s, n, t, i, k);
    }
  }

  lemma SortedMiddle(b: seq<Node>, l: seq<Node>, n: Node, r: seq<Node>, a: seq<Node>)
    requires Sorted(b + (l + [n] + r) + a)
    ensures forall i :: 0 <= i < |l| ==> l[i].val <= n.val
    ensures forall i :: 0 <= i < |r| ==> n.val <= r[i].val
  {
    var s := b + (l + [n] + r) + a;
    assert s[|b| + |l|] == n;
    forall i | 0 <= i < |l| ensures l[i].val <= n.val {
      assert s[|b| + i] == l[i];
    }
    forall i | 0 <= i < |r| ensures n.val <= r[i].val {
      assert s[|b| + |l| + 1 + i] == r[i];
    }
  }

  /** Comparing with the root of a subtree decides the side for everything the search leaves behind:
      what precedes the rest is below `v`, what follows it is `w` or more. */
  lemma DescendOrder(p: Path, t: Tree, v: nat, w: nat, d: bool)
    requires t.Bin? && Sorted(Inorder(Plug(p, t))) && AllBelow(Before(p), v) && AllFrom(After(p), w)
    requires if d then t.n.val < v else w <= t.n.val
    ensures var q := Step(d, t.red, t.n, t.Sub(!d), p); AllBelow(Before(q), v) && AllFrom(After(q), w)
  {
    InorderPlug(p, t);
    SortedMiddle(Before(p), Inorder(t.l), t.n, Inorder(t.r), After(p));
  }

  function LastOf(s: seq<Node>): Node? { if s == [] then null else s[|s| - 1] }

  function FirstOf(s: seq<Node>): Node? { if s == [] then null else s[0] }

  /** `r` is the node with the greatest key not above `v`, respectively the least key not below
      it, or null when there is none. */
  ghost predicate IsFloor(r: Node?, s: set<Node>, v: nat) {
    if r == null then forall n :: n in s ==> v < n.val
    else r in s && r.val <= v && forall n :: n in s && n.val <= v ==> n.val <= r.val
  }

  ghost predicate IsCeiling(r: Node?, s: set<Node>, v: nat) {
    if r == null then forall n :: n in s ==> n.val < v
    else r in s && v <= r.val && forall n :: n in s && v <= n.val ==> r.val <= n.val
  }

  lemma SplitKeys(b: seq<Node>, a: seq<Node>, v: nat, n: Node)
    requires Sorted(b + a) && AllBelow(b, v) && AllFrom(a, v + 1) && n in b + a
    ensures n.val != v
    ensures n.val < v ==> b != [] && n.val <= LastOf(b).val
    ensures n.val > v ==> a != [] && FirstOf(a).val <= n.val
  {
    var s := b + a;
    var i :| 0 <= i < |s| && s[i] == n;
    if i < |b| {
      assert n == b[i] && s[|b| - 1] == b[|b| - 1];
    } else {
      assert n == a[i - |b|] && s[|b|] == a[0];
    }
  }

  lemma SplitSet(b: seq<Node>, a: seq<Node>, v: nat, s: set<Node>)
    requires Sorted(b + a) && AllBelow(b, v) && AllFrom(a, v + 1) && forall n :: n in b + a <==> n in s
    ensures IsFloor(LastOf(b), s, v) && IsCeiling(FirstOf(a), s, v) && forall n :: n in s ==> n.val != v
  {
    forall n | n in s
      ensures n.val != v && (n.val < v ==> b != [] && n.val <= LastOf(b).val)
      ensures n.val > v ==> a != [] && FirstOf(a).val <= n.val
    {
      SplitKeys(b, a, v, n);
    }
    assert b != [] ==> (b + a)[|b| - 1] in s;
    assert a != [] ==> (b + a)[|b|] in s;
  }

  /** When the search has walked off the tree, its path splits the keys at `v`. */
  lemma SplitAtLeaf(p: Path, v: nat)
    requires Sorted(Inorder(Plug(p, Leaf))) && AllBelow(Before(p), v) && AllFrom(After(p), v + 1)
    ensures IsFloor(LastOf(Before(p)), Nodes(Plug(p, Leaf)), v)
    ensures IsCeiling(FirstOf(After(p)), Nodes(Plug(p, Leaf)), v)
    ensures forall n :: n in Nodes(Plug(p, Leaf)) ==> n.val != v
  {
    InorderPlug(p, Leaf);
    InorderNodes(Plug(p, Leaf));
    assert Before(p) + After(p) == Inorder(Plug(p, Leaf));
    SplitSet(Before(p), After(p), v, Nodes(Plug(p, Leaf)));
  }

  lemma InsertedAtLeaf(p: Path, n: Node)
    requires AllBelow(Before(p), n.val) && AllFrom(After(p), n.val)
    ensures InsertedInto(Inorder(Plug(p, Leaf)), n, Inorder(Plug(p, Bin(true, Leaf, n, Leaf))))
  {
    InorderPlug(p, Leaf);
    InorderPlug(p, Bin(true, Leaf, n, Leaf));
    var s, i := Inorder(Plug(p, Leaf)), |Before(p)|;
    assert s[..i] == Before(p) && s[i..] == After(p);
  }

  // ---------- colours and black heights ----------

  /** `t` has black height `h` on every way down and no red node with a red child. */
  ghost predicate RB(t: Tree, h: nat) {
    match t
    case Leaf => h == 0
    case Bin(c, l, _, r) =>
      && (c ==> !l.IsRed() && !r.IsRed())
      && (c || h > 0)
      && RB(l, if c then h else h - 1) && RB(r, if c then h else h - 1)
  }

  ghost predicate RedBlack(t: Tree) {
    !t.IsRed() && exists h: nat :: RB(t, h)
  }

  /** Everything around the subtree obeys the rules, provided the subtree has black height `h`. */
  ghost predicate PathRB(p: Path, h: nat) {
    match p
    case Top => true
    case Step(_, c, _, sib, up) =>
      && RB(sib, h)
      && (c ==> !sib.IsRed() && up.Step? && !up.red)
      && PathRB(up, if c then h else h + 1)
  }

  /** A subtree of the right height fits, unless a red root would sit under a red node or at
      the top. */
  lemma {:induction false} PlugRB(p: Path, t: Tree, h: nat)
    requires PathRB(p, h) && RB(t, h)
    requires t.IsRed() ==> p.Step? && !p.red
    ensures RedBlack(Plug(p, t))
  {
    match p
    case Top =>
    case Step(d, c, n, sib, up) => PlugRB(up, Make(c, d, t, n, sib), if c then h else h + 1);
  }

  lemma DescendRB(p: Path, t: Tree, h: nat, d: bool) returns (k: nat)
    requires t.Bin? && PathRB(p, h) && RB(t, h) && (t.IsRed() ==> p.Step? && !p.red)
    ensures PathRB(Step(d, t.red, t.n, t.Sub(!d), p), k) && RB(t.Sub(d), k)
    ensures t.Sub(d).IsRed() ==> !t.red
  {
    k := if t.red then h else h - 1;
  }

  function Rotated(t: Tree, dir: bool): Tree
    requires t.Bin?
  {
    if t.Sub(!dir).Leaf? then t else
      var u := t.Sub(!dir);
      Make(u.red, dir, Make(t.red, dir, t.Sub(dir), t.n, u.Sub(dir)), u.n, u.Sub(!dir))
  }

  lemma RotatedInorder(t: Tree, dir: bool)
    requires t.Bin?
    ensures Inorder(Rotated(t, dir)) == Inorder(t)
    ensures Nodes(Rotated(t, dir)) == Nodes(t)
  {
    if t.Sub(!dir).Bin? {
      var u := t.Sub(!dir);
      if dir {
        assert Inorder(t) == (Inorder(u.l) + [u.n] + Inorder(u.r)) + [t.n] + Inorder(t.r);
        assert Inorder(Rotated(t, dir)) == Inorder(u.l) + [u.n] + (Inorder(u.r) + [t.n] + Inorder(t.r));
      } else {
        assert Inorder(t) == Inorder(t.l) + [t.n] + (Inorder(u.l) + [u.n] + Inorder(u.r));
        assert Inorder(Rotated(t, dir)) == (Inorder(t.l) + [t.n] + Inorder(u.l)) + [u.n] + Inorder(u.r);
      }
    }
  }
}
