/** Every run of rbtree_add and rbtree_remove on one tree. */
module RbRun {
  import opened RbAddShape
  import opened RbRemove
  import opened RbRemoveShape
  import opened RbShape
  import opened RbTree

  datatype Op = Add(n: Node) | Remove(n: Node)

  /** The nodes that are in the tree after some calls. */
  ghost function Members(s: set<Node>, ops: seq<Op>): set<Node>
    decreases |ops|
  {
    if ops == [] then s
    else
      var n, m := |ops| - 1, Members(s, ops[..|ops| - 1]);
      if ops[n].Add? then m + {ops[n].n} else m - {ops[n].n}
  }

  /** What the calls demand: a node is added when it is not in the tree and removed when it is. */
  ghost predicate Sensible(s: set<Node>, ops: seq<Op>) {
    forall k :: 0 <= k < |ops| ==> SensibleAt(s, ops, k)
  }

  ghost predicate SensibleAt(s: set<Node>, ops: seq<Op>, k: nat)
    requires k < |ops|
  {
    ops[k].Add? <==> ops[k].n !in Members(s, ops[..k])
  }

  ghost function Next(t: Tree, op: Op): Tree {
    if op.Add? then Added(t, op.n) else if op.n in Nodes(t) then Without(t, op.n) else t
  }

  ghost function Run(t: Tree, ops: seq<Op>): Tree
    decreases |ops|
  {
    if ops == [] then t else Next(Run(t, ops[..|ops| - 1]), ops[|ops| - 1])
  }

  /** The call faults. */
  ghost predicate Fatal(t: Tree, op: Op) { op.Remove? && op.n in Nodes(t) && RemoveFaults(t, op.n) }

  // ---------- order and membership ----------

  /** No node is in the sequence twice. */
  ghost predicate Once(s: seq<Node>) { forall n :: n in s ==> multiset(s)[n] == 1 }

  lemma {:induction false} DistinctInorder(t: Tree)
    requires Distinct(t)
    ensures Once(Inorder(t))
  {
    if t.Bin? {
      DistinctInorder(t.l);
      DistinctInorder(t.r);
      InorderLists(t.l);
      InorderLists(t.r);
      JoinedOnce(Inorder(t.l), Nodes(t.l), t.n, Inorder(t.r), Nodes(t.r));
    }
  }

  lemma JoinedOnce(a: seq<Node>, s: set<Node>, m: Node, b: seq<Node>, r: set<Node>)
    requires Once(a) && Once(b) && Lists(a, s) && Lists(b, r) && s !! r && m !in s && m !in r
    ensures Once(a + [m] + b)
  {
    forall n | n in a + [m] + b ensures multiset(a + [m] + b)[n] == 1 {
      assert multiset(a + [m] + b) == multiset(a) + multiset{m} + multiset(b);
      CountMember(a, n);
      CountMember(b, n);
    }
  }

  lemma CountMember(s: seq<Node>, n: Node)
    ensures multiset(s)[n] > 0 <==> n in s
  {
    assert n in multiset(s) <==> n in s;
  }

  lemma InsertedCount(s: seq<Node>, n: Node, i: nat)
    requires i <= |s|
    ensures multiset(s[..i] + [n] + s[i..]) == multiset(s) + multiset{n}
  {
    assert s == s[..i] + s[i..];
  }

  lemma GainOne(s: seq<Node>, n: Node, t: seq<Node>, x: Node)
    requires InsertedInto(s, n, t) && Once(s) && n !in s
    ensures (x in t <==> x == n || x in s) && (x in t ==> multiset(t)[x] == 1)
  {
    var i :| 0 <= i <= |s| && t == s[..i] + [n] + s[i..] && AllBelow(s[..i], n.val) && AllFrom(s[i..], n.val);
    InsertedCount(s, n, i);
    CountsGain(s, n, t, x);
  }

  lemma CountsGain(s: seq<Node>, n: Node, t: seq<Node>, x: Node)
    requires multiset(t) == multiset(s) + multiset{n} && Once(s) && n !in s
    ensures (x in t <==> x == n || x in s) && (x in t ==> multiset(t)[x] == 1)
  {
    CountMember(s, x);
    CountMember(t, x);
  }

  lemma LoseOne(s: seq<Node>, n: Node, t: seq<Node>, x: Node)
    requires RemovedFrom(s, n, t) && Once(s)
    ensures (x in t <==> x != n && x in s) && (x in t ==> multiset(t)[x] == 1)
  {
    var i :| 0 <= i < |s| && s[i] == n && t == s[..i] + s[i + 1..];
    assert s == s[..i] + [n] + s[i + 1..];
    assert multiset(s) == multiset(t) + multiset{n};
    CountMember(s, x);
    CountMember(t, x);
  }

  lemma RemovedIndex(s: seq<Node>, i: nat, k: nat)
    requires i < |s| && k + 1 < |s|
    ensures (s[..i] + s[i + 1..])[k] == s[if k < i then k else k + 1]
  {
  }

  lemma RemovedSorted(s: seq<Node>, n: Node, t: seq<Node>)
    requires Sorted(s) && RemovedFrom(s, n, t)
    ensures Sorted(t)
  {
    var i :| 0 <= i < |s| && s[i] == n && t == s[..i] + s[i + 1..];
    forall j, k | 0 <= j < k < |t| ensures t[j].val <= t[k].val {
      RemovedIndex(s, i, j);
      RemovedIndex(s, i, k);
    }
  }

  ghost predicate Ordered(t: Tree) { Sorted(Inorder(t)) && Once(Inorder(t)) }

  /** The sequence lists the set. */
  ghost predicate Lists(a: seq<Node>, s: set<Node>) {
    (forall x :: x in a ==> x in s) && (forall x :: x in s ==> x in a)
  }

  lemma GainSet(a: seq<Node>, s: set<Node>, n: Node, b: seq<Node>, r: set<Node>)
    requires Once(a) && Lists(a, s) && n !in s && InsertedInto(a, n, b) && Lists(b, r)
    ensures Once(b) && r == s + {n}
  {
    forall x | x in b ensures multiset(b)[x] == 1 && x in s + {n} { GainOne(a, n, b, x); }
    forall x | x in s + {n} ensures x in r { GainOne(a, n, b, x); }
  }

  lemma LoseSet(a: seq<Node>, s: set<Node>, n: Node, b: seq<Node>, r: set<Node>)
    requires Once(a) && Lists(a, s) && RemovedFrom(a, n, b) && Lists(b, r)
    ensures Once(b) && r == s - {n}
  {
    forall x | x in b ensures multiset(b)[x] == 1 && x in s - {n} { LoseOne(a, n, b, x); }
    forall x | x in s - {n} ensures x in r { LoseOne(a, n, b, x); }
  }

  lemma InorderLists(t: Tree)
    ensures Lists(Inorder(t), Nodes(t))
  {
    InorderNodes(t);
  }

  lemma AddKeeps(t: Tree, n: Node)
    requires Ordered(t) && n !in Nodes(t)
    ensures Ordered(Added(t, n)) && Nodes(Added(t, n)) == Nodes(t) + {n}
  {
    var r := Added(t, n);
    AddedInorder(t, n);
    InorderLists(t);
    InorderLists(r);
    GainSet(Inorder(t), Nodes(t), n, Inorder(r), Nodes(r));
  }

  lemma RemoveKeeps(t: Tree, n: Node)
    requires Ordered(t) && n in Nodes(t)
    ensures Ordered(Without(t, n)) && Nodes(Without(t, n)) == Nodes(t) - {n}
  {
    var r := Without(t, n);
    WithoutInorder(t, n);
    RemovedSorted(Inorder(t), n, Inorder(r));
    InorderLists(t);
    InorderLists(r);
    LoseSet(Inorder(t), Nodes(t), n, Inorder(r), Nodes(r));
  }

  lemma NextKeeps(t: Tree, op: Op)
    requires Ordered(t) && (op.Add? <==> op.n !in Nodes(t))
    ensures Ordered(Next(t, op)) && Nodes(Next(t, op)) == if op.Add? then Nodes(t) + {op.n} else Nodes(t) - {op.n}
  {
    if op.Add? { AddKeeps(t, op.n); } else { RemoveKeeps(t, op.n); }
  }

  /** Over every run the in-order sequence stays sorted and holds the members. */
  lemma {:induction false} RunKeeps(t: Tree, ops: seq<Op>)
    requires Ordered(t) && Sensible(Nodes(t), ops)
    ensures Ordered(Run(t, ops)) && Nodes(Run(t, ops)) == Members(Nodes(t), ops)
    decreases |ops|
  {
    if ops != [] {
      var n := |ops| - 1;
      forall k | 0 <= k < n ensures SensibleAt(Nodes(t), ops[..n], k) {
        assert SensibleAt(Nodes(t), ops, k) && ops[..n][..k] == ops[..k];
      }
      RunKeeps(t, ops[..n]);
      assert SensibleAt(Nodes(t), ops, n);
      NextKeeps(Run(t, ops[..n]), ops[n]);
    }
  }

  // ---------- the code ----------

  lemma RunNext(t: Tree, ops: seq<Op>, k: nat)
    requires k < |ops|
    ensures Run(t, ops[..k + 1]) == Next(Run(t, ops[..k]), ops[k])
  {
    assert ops[..k + 1][..k] == ops[..k];
  }

  /** What is known of the tree before call `k`. */
  lemma BeforeCall(t: Tree, ops: seq<Op>, k: nat)
    requires Ordered(t) && Sensible(Nodes(t), ops) && k < |ops|
    ensures var r := Run(t, ops[..k]);
      && Ordered(r) && Nodes(r) == Members(Nodes(t), ops[..k])
      && (ops[k].Add? <==> ops[k].n !in Nodes(r)) && ops[k].n in NodesOf(ops)
  {
    forall i | 0 <= i < k ensures SensibleAt(Nodes(t), ops[..k], i) {
      assert SensibleAt(Nodes(t), ops, i) && ops[..k][..i] == ops[..i];
    }
    RunKeeps(t, ops[..k]);
    assert SensibleAt(Nodes(t), ops, k);
  }

  ghost predicate Smooth(t: Tree, ops: seq<Op>, k: nat) {
    k <= |ops| && forall i :: 0 <= i < k ==> !Fatal(Run(t, ops[..i]), ops[i])
  }

  ghost function NodesOf(ops: seq<Op>): set<Node> { set i | 0 <= i < |ops| :: ops[i].n }

  lemma {:induction false} MembersWithin(s: set<Node>, ops: seq<Op>, k: nat)
    requires k <= |ops|
    ensures Members(s, ops[..k]) <= s + NodesOf(ops)
  {
    if k > 0 {
      MembersWithin(s, ops, k - 1);
      assert ops[..k][..k - 1] == ops[..k - 1] && ops[..k][k - 1] == ops[k - 1] && ops[k - 1].n in NodesOf(ops);
    }
  }

  /** One call. */
  method Call(tree: RbRoot, op: Op) returns (fault: bool)
    requires tree.Valid() && Ordered(tree.shape) && (op.Add? <==> op.n !in Nodes(tree.shape))
    modifies tree, Nodes(tree.shape), op.n
    ensures fault <==> Fatal(old(tree.shape), op)
    ensures !fault ==> tree.Valid() && tree.shape == Next(old(tree.shape), op)
  {
    match op
    case Add(n) =>
      tree.Insert(n);
      fault := false;
    case Remove(n) => fault := Delete(tree, n);
  }

  /** One call of a run. */
  method Turn(tree: RbRoot, ops: seq<Op>, k: nat, ghost t: Tree) returns (fault: bool)
    requires k < |ops| && Ordered(t) && Sensible(Nodes(t), ops) && Smooth(t, ops, k)
    requires tree.Valid() && tree.shape == Run(t, ops[..k])
    modifies tree, Nodes(tree.shape), ops[k].n
    ensures fault ==> Fatal(Run(t, ops[..k]), ops[k])
    ensures !fault ==> tree.Valid() && tree.shape == Run(t, ops[..k + 1]) && Smooth(t, ops, k + 1)
    ensures !fault ==> Nodes(tree.shape) <= Nodes(t) + NodesOf(ops)
  {
    ghost var b := tree.shape;
    BeforeCall(t, ops, k);
    fault := Call(tree, ops[k]);
    if !fault { AfterCall(t, ops, k, b); }
  }

  /** The calls of a run, each within the nodes `all`. */
  method Calls(tree: RbRoot, ops: seq<Op>, ghost t: Tree, ghost all: set<Node>) returns (done: nat)
    requires tree.Valid() && tree.shape == t && Ordered(t) && Sensible(Nodes(t), ops)
    requires all == Nodes(t) + NodesOf(ops)
    modifies tree, all
    ensures Smooth(t, ops, done)
    ensures done < |ops| ==> Fatal(Run(t, ops[..done]), ops[done])
    ensures done == |ops| ==> tree.Valid() && tree.shape == Run(t, ops)
  {
    done := 0;
    while done < |ops|
      invariant Smooth(t, ops, done) && tree.Valid() && tree.shape == Run(t, ops[..done]) && Nodes(tree.shape) <= all
    {
      assert ops[done].n in NodesOf(ops);
      var fault := Turn(tree, ops, done, t);
      if fault { return; }
      done := done + 1;
    }
    assert ops[..done] == ops;
  }

  /** A run from any tree that is sorted, whatever its colours, up to the first call that faults: until then the
      links are those of the tree that the calls compute, its in-order sequence is sorted, and it holds the nodes
      added and not removed. */
  method Execute(tree: RbRoot, ops: seq<Op>) returns (done: nat)
    requires tree.Valid() && Sorted(Inorder(tree.shape)) && Sensible(Nodes(tree.shape), ops)
    modifies tree, Nodes(tree.shape), NodesOf(ops)
    ensures Smooth(old(tree.shape), ops, done)
    ensures done < |ops| ==> Fatal(Run(old(tree.shape), ops[..done]), ops[done])
    ensures done == |ops| ==> tree.Valid() && tree.shape == Run(old(tree.shape), ops)
    ensures done == |ops| ==>
      Sorted(Inorder(tree.shape)) && Nodes(tree.shape) == Members(old(Nodes(tree.shape)), ops)
  {
    ghost var t := tree.shape;
    DistinctInorder(t);
    RunKeeps(t, ops);
    done := Calls(tree, ops, t, Nodes(t) + NodesOf(ops));
  }

  /** And after it. */
  lemma AfterCall(t: Tree, ops: seq<Op>, k: nat, b: Tree)
    requires Ordered(t) && Sensible(Nodes(t), ops) && k < |ops| && b == Run(t, ops[..k])
    requires Smooth(t, ops, k) && !Fatal(b, ops[k])
    ensures Smooth(t, ops, k + 1) && Next(b, ops[k]) == Run(t, ops[..k + 1])
    ensures Nodes(Next(b, ops[k])) <= Nodes(t) + NodesOf(ops)
  {
    BeforeCall(t, ops, k);
    RunNext(t, ops, k);
    NextKeeps(b, ops[k]);
    MembersWithin(Nodes(t), ops, k);
    assert ops[k].n in NodesOf(ops);
  }

  // ---------- runs from the empty tree ----------

  function Single(c: bool, n: Node): Tree { Bin(c, Leaf, n, Leaf) }

  lemma AddTwo(a: Node, b: Node)
    requires a.val < b.val
    ensures Added(Added(Leaf, a), b) == Bin(false, Leaf, a, Single(true, b))
  {
    assert PlaceOf(Step(true, false, a, Leaf, Top), Leaf, b.val) == Step(true, false, a, Leaf, Top);
    assert PlaceOf(Top, Single(false, a), b.val) == Step(true, false, a, Leaf, Top);
    assert Plug(Step(true, false, a, Leaf, Top), Single(true, b)) == Plug(Top, Bin(false, Leaf, a, Single(true, b)));
  }

  lemma AddThird(a: Node, b: Node, c: Node)
    requires a.val < b.val < c.val
    ensures Added(Bin(false, Leaf, a, Single(true, b)), c) == Bin(false, Single(true, a), b, Single(true, c))
  {
    var p := Step(true, false, a, Leaf, Top);
    var q := Step(true, true, b, Leaf, p);
    assert PlaceOf(q, Leaf, c.val) == q;
    assert PlaceOf(p, Single(true, b), c.val) == q;
    assert PlaceOf(Top, Bin(false, Leaf, a, Single(true, b)), c.val) == q;
    assert Straight(true, q, Single(true, c)) == Bin(true, Leaf, b, Single(true, c));
    assert Lifted(p, Bin(true, Leaf, b, Single(true, c))) == Bin(false, Single(true, a), b, Single(true, c));
  }

  lemma AddFourth(a: Node, b: Node, c: Node, d: Node)
    requires a.val < b.val < c.val < d.val
    ensures Added(Bin(false, Single(true, a), b, Single(true, c)), d)
         == Bin(false, Single(false, a), b, Bin(false, Leaf, c, Single(true, d)))
  {
    var p := Step(true, false, b, Single(true, a), Top);
    var q := Step(true, true, c, Leaf, p);
    assert PlaceOf(q, Leaf, d.val) == q;
    assert PlaceOf(p, Single(true, c), d.val) == q;
    assert PlaceOf(Top, Bin(false, Single(true, a), b, Single(true, c)), d.val) == q;
    var r := PassedUp(q, Single(true, d));
    assert r == Bin(true, Single(false, a), b, Bin(false, Leaf, c, Single(true, d)));
    assert AddUp(q, Single(true, d)) == AddUp(Top, r) == r.(red := false);
  }

  lemma RemoveRoot(a: Node, b: Node, c: Node, d: Node)
    ensures Without(Bin(false, Single(false, a), b, Bin(false, Leaf, c, Single(true, d))), b)
         == Bin(false, Single(false, a), c, Single(true, d))
  {
  }

  /** A removal that comes to a node without a sibling. */
  lemma NullSiblingReached(a: Node, c: Node, d: Node)
    requires a != c && a != d
    ensures Fatal(Bin(false, Single(false, a), c, Single(true, d)), Remove(a))
  {
    var t, p := Bin(false, Single(false, a), c, Single(true, d)), Step(false, false, c, Single(true, d), Top);
    assert PathTo(p, Single(false, a), a) == (p, Single(false, a));
    assert a in Nodes(Single(false, a)) && a !in Nodes(Single(true, d));
    assert a in Nodes(t);
    assert PathTo(Top, t, a) == (p, Single(false, a));
    assert NullSibling(Step(false, false, d, Leaf, Top), true);
  }

  lemma RunAdds(a: Node, b: Node, c: Node, d: Node)
    requires a.val < b.val < c.val < d.val
    ensures Run(Leaf, [Add(a), Add(b), Add(c), Add(d)])
         == Bin(false, Single(false, a), b, Bin(false, Leaf, c, Single(true, d)))
  {
    var ops := [Add(a), Add(b), Add(c), Add(d)];
    assert ops[..0] == [];
    RunNext(Leaf, ops, 0);
    RunNext(Leaf, ops, 1);
    RunNext(Leaf, ops, 2);
    RunNext(Leaf, ops, 3);
    assert ops[..4] == ops;
    AddTwo(a, b);
    AddThird(a, b, c);
    AddFourth(a, b, c, d);
  }

  /** Four nodes added in order, then the second removed: removing the first reads through NULL at line 203. */
  lemma NullSiblingRun(a: Node, b: Node, c: Node, d: Node)
    requires a.val < b.val < c.val < d.val
    ensures Fatal(Run(Leaf, [Add(a), Add(b), Add(c), Add(d), Remove(b)]), Remove(a))
  {
    var ops := [Add(a), Add(b), Add(c), Add(d), Remove(b)];
    RunNext(Leaf, ops, 4);
    assert ops[..4] == [Add(a), Add(b), Add(c), Add(d)] && ops[..5] == ops;
    RunAdds(a, b, c, d);
    RemoveRoot(a, b, c, d);
    NullSiblingReached(a, c, d);
  }

  /** Two nodes added, and the root removed: the other is a red root, under which line 115 finds no grandparent
      for the next node added. */
  lemma RedRootRun(a: Node, b: Node)
    requires a.val < b.val
    ensures Run(Leaf, [Add(a), Add(b), Remove(a)]) == Single(true, b) && !RedBlack(Single(true, b))
    ensures Added(Single(true, b), a) == Bin(false, Single(true, a), b, Leaf)
  {
    var ops := [Add(a), Add(b), Remove(a)];
    assert ops[..0] == [];
    RunNext(Leaf, ops, 0);
    RunNext(Leaf, ops, 1);
    RunNext(Leaf, ops, 2);
    assert ops[..3] == ops;
    AddTwo(a, b);
    var p := Step(false, true, b, Leaf, Top);
    assert PlaceOf(p, Leaf, a.val) == p;
    assert PlaceOf(Top, Single(true, b), a.val) == p;
  }
}
