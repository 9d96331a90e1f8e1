/** Search order on trees of nodes, and the balancing after an insert. */
module AvlOrder {
  import opened AvlTree
  import opened AvlNodes

  ghost predicate Sorted(s: seq<AvlNode>) {
    forall i, j :: 0 <= i < j < |s| ==> s[i].id < s[j].id
  }

  ghost predicate Ordered(t: Shape) {
    Sorted(InOrder(t))
  }

  ghost predicate AllBelow(a: seq<AvlNode>, b: seq<AvlNode>) {
    forall i, j :: 0 <= i < |a| && 0 <= j < |b| ==> a[i].id < b[j].id
  }

  ghost predicate Under(a: seq<AvlNode>, key: nat) {
    forall i :: 0 <= i < |a| ==> a[i].id < key
  }

  ghost predicate Over(a: seq<AvlNode>, key: nat) {
    forall i :: 0 <= i < |a| ==> key < a[i].id
  }

  lemma SortedSplit(a: seq<AvlNode>, b: seq<AvlNode>)
    ensures Sorted(a + b) <==> Sorted(a) && Sorted(b) && AllBelow(a, b)
  {
    var s := a + b;
    if Sorted(s) {
      assert forall i :: 0 <= i < |a| ==> s[i] == a[i];
      assert forall i :: 0 <= i < |b| ==> s[|a| + i] == b[i];
    }
  }

  lemma SortedAround(a: seq<AvlNode>, n: AvlNode, b: seq<AvlNode>)
    ensures Sorted(a + [n] + b) <==> Sorted(a) && Sorted(b) && Under(a, n.id) && Over(b, n.id)
  {
    SortedSplit(a + [n], b);
    SortedSplit(a, [n]);
    if Sorted(a + [n] + b) {
      assert (a + [n])[|a|] == n;
    }
    if Sorted(a) && Sorted(b) && Under(a, n.id) && Over(b, n.id) {
      forall i, j | 0 <= i < |a + [n]| && 0 <= j < |b| ensures (a + [n])[i].id < b[j].id {
      }
    }
  }

  /** In an ordered tree smaller ids are on the left and larger ones on the right. */
  lemma OrderedParts(t: Shape)
    requires t.Bin?
    ensures Ordered(t) <==> Ordered(t.left) && Ordered(t.right)
                            && Under(InOrder(t.left), t.node.id) && Over(InOrder(t.right), t.node.id)
  {
    SortedAround(InOrder(t.left), t.node, InOrder(t.right));
  }

  lemma BoundSplit(a: seq<AvlNode>, b: seq<AvlNode>, key: nat)
    ensures Under(a + b, key) <==> Under(a, key) && Under(b, key)
    ensures Over(a + b, key) <==> Over(a, key) && Over(b, key)
  {
    assert forall i :: 0 <= i < |a| ==> (a + b)[i] == a[i];
    assert forall i :: 0 <= i < |b| ==> (a + b)[|a| + i] == b[i];
  }

  lemma {:induction false} BoundNodes(t: Shape, key: nat)
    ensures Under(InOrder(t), key) <==> forall v :: v in Nodes(t) ==> v.id < key
    ensures Over(InOrder(t), key) <==> forall v :: v in Nodes(t) ==> key < v.id
  {
    if t.Bin? {
      BoundNodes(t.left, key);
      BoundNodes(t.right, key);
      BoundSplit(InOrder(t.left) + [t.node], InOrder(t.right), key);
      BoundSplit(InOrder(t.left), [t.node], key);
      assert [t.node][0] == t.node;
    }
  }

  lemma {:induction false} OrderedIsDistinct(t: Shape)
    requires Ordered(t)
    ensures Distinct(t)
  {
    if t.Bin? {
      OrderedParts(t);
      OrderedIsDistinct(t.left);
      OrderedIsDistinct(t.right);
      BoundNodes(t.left, t.node.id);
      BoundNodes(t.right, t.node.id);
    }
  }

  lemma PlugOrdered(c: Hole, t: Shape)
    requires Ordered(Plug(c, t))
    ensures Ordered(t)
  {
    PlugInOrder(c, t);
    SortedSplit(Before(c) + InOrder(t), After(c));
    SortedSplit(Before(c), InOrder(t));
  }

  /** The search for `key` goes into the hole. */
  ghost predicate LeadsTo(c: Hole, key: nat) {
    match c
    case Top => true
    case InLeft(n, _, up) => key < n.id && LeadsTo(up, key)
    case InRight(_, n, up) => key > n.id && LeadsTo(up, key)
  }

  lemma UnderMore(a: seq<AvlNode>, k: nat, key: nat)
    requires Under(a, k) && k <= key
    ensures Under(a, key)
  {
  }

  lemma OverLess(a: seq<AvlNode>, k: nat, key: nat)
    requires Over(a, k) && key <= k
    ensures Over(a, key)
  {
  }

  /** Everything before the hole is below the key it leads to, and everything
      after it above. */
  lemma {:induction false} PathSplits(c: Hole, t: Shape, key: nat)
    requires Ordered(Plug(c, t)) && LeadsTo(c, key)
    ensures Under(Before(c), key) && Over(After(c), key)
    decreases c
  {
    match c
    case Top =>
    case InLeft(n, r, up) =>
      var u := Bin(t, n, r);
      PathSplits(up, u, key);
      PlugOrdered(up, u);
      OrderedParts(u);
      OverLess(InOrder(r), n.id, key);
      BoundSplit([n], InOrder(r), key);
      BoundSplit([n] + InOrder(r), After(up), key);
    case InRight(l, n, up) =>
      var u := Bin(l, n, t);
      PathSplits(up, u, key);
      PlugOrdered(up, u);
      OrderedParts(u);
      UnderMore(InOrder(l), n.id, key);
      BoundSplit(Before(up), InOrder(l), key);
      BoundSplit(Before(up) + InOrder(l), [n], key);
  }

  lemma EmptyHole(c: Hole)
    ensures InOrder(Plug(c, Nil)) == Before(c) + After(c)
  {
    PlugInOrder(c, Nil);
    assert Before(c) + [] + After(c) == Before(c) + After(c);
  }

  lemma LeafInHole(c: Hole, n: AvlNode)
    ensures InOrder(Plug(c, Leaf(n))) == Before(c) + [n] + After(c)
  {
    PlugInOrder(c, Leaf(n));
    assert InOrder(Leaf(n)) == [n];
  }

  /** A new node in the empty hole its id leads to keeps the order. */
  lemma LeafOrdered(c: Hole, n: AvlNode)
    requires Ordered(Plug(c, Nil)) && LeadsTo(c, n.id)
    ensures Ordered(Plug(c, Leaf(n)))
  {
    PathSplits(c, Nil, n.id);
    EmptyHole(c);
    LeafInHole(c, n);
    SortedSplit(Before(c), After(c));
    SortedAround(Before(c), n, After(c));
  }

  /** An id is nowhere but in the hole its search leads to. */
  lemma {:induction false} NotElsewhere(c: Hole, t: Shape, key: nat)
    requires Ordered(Plug(c, t)) && LeadsTo(c, key)
    ensures forall v :: v in Around(c) ==> v.id != key
    decreases c
  {
    match c
    case Top =>
    case InLeft(n, r, up) =>
      NotElsewhere(up, Bin(t, n, r), key);
      PlugOrdered(up, Bin(t, n, r));
      OrderedParts(Bin(t, n, r));
      BoundNodes(r, n.id);
    case InRight(l, n, up) =>
      NotElsewhere(up, Bin(l, n, t), key);
      PlugOrdered(up, Bin(l, n, t));
      OrderedParts(Bin(l, n, t));
      BoundNodes(l, n.id);
  }

  lemma LeafAdds(c: Hole, n: AvlNode)
    ensures |InOrder(Plug(c, Leaf(n)))| == |InOrder(Plug(c, Nil))| + 1
  {
    EmptyHole(c);
    LeafInHole(c, n);
  }

  // --------------------------------------------------- balancing an insert

  /** The rotation an insert of `key` makes at one level. */
  function InsertFix(t: Shape, key: nat): Shape {
    if t.Nil? then t
    else if Diff(t) > 1 && t.left.Bin? && key < t.left.node.id then RotRight(t)
    else if Diff(t) < -1 && t.right.Bin? && key > t.right.node.id then RotLeft(t)
    else if Diff(t) > 1 && t.left.Bin? && key > t.left.node.id && CanLeft(t.left) then RotLeftRight(t)
    else if Diff(t) < -1 && t.right.Bin? && key < t.right.node.id && CanRight(t.right) then RotRightLeft(t)
    else t
  }

  /** The tree leans to the side that `key` is on. */
  ghost predicate Leans(t: Shape, key: nat) {
    t.Bin? && ((key < t.node.id && Diff(t) == 1) || (key > t.node.id && Diff(t) == -1))
  }

  /** `t1` stands where `t0` stood, balanced and at most one higher; when it is
      higher and not a lone new leaf, it leans to the side of the new key. */
  ghost predicate Grown(t0: Shape, t1: Shape, key: nat) {
    && Balanced(t0) && Balanced(t1) && t1.Bin?
    && Height(t0) <= Height(t1) <= Height(t0) + 1
    && (Height(t1) > Height(t0) && t0.Bin? ==> Leans(t1, key))
  }

  /** `t` is `t0` with a grown child, before the rotation. */
  ghost predicate Raised(t0: Shape, t: Shape, key: nat) {
    && t.Bin? && NearlyBalanced(t)
    && (Diff(t) > 1 ==> Leans(t.left, key)) && (Diff(t) < -1 ==> Leans(t.right, key))
    && Grown(t0, InsertFix(t, key), key)
  }

  lemma RaiseLeft(t0: Shape, u: Shape, n: AvlNode, r: Shape, key: nat)
    requires Grown(t0, u, key) && Balanced(Bin(t0, n, r)) && key < n.id
    ensures Raised(Bin(t0, n, r), Bin(u, n, r), key)
  {
    Whole(t0, n, r);
    Whole(u, n, r);
    if Diff(Bin(u, n, r)) > 1 {
      TurnRaisedLeft(t0, u, n, r, key);
    }
  }

  lemma TurnRaisedLeft(t0: Shape, u: Shape, n: AvlNode, r: Shape, key: nat)
    requires Grown(t0, u, key) && Balanced(Bin(t0, n, r)) && key < n.id && Diff(Bin(u, n, r)) > 1
    ensures Raised(Bin(t0, n, r), Bin(u, n, r), key)
  {
    Parts(u);
    if key < u.node.id {
      TurnOuterLeft(t0, u, n, r, key);
    } else {
      TurnInnerLeft(t0, u, n, r, key);
    }
  }

  /** The new key is on the outer side of the grown child. */
  lemma TurnOuterLeft(t0: Shape, u: Shape, n: AvlNode, r: Shape, key: nat)
    requires Grown(t0, u, key) && Balanced(Bin(t0, n, r)) && key < n.id && Diff(Bin(u, n, r)) > 1
    requires key < u.node.id
    ensures Raised(Bin(t0, n, r), Bin(u, n, r), key)
  {
    Whole(t0, n, r);
    Whole(u, n, r);
    Parts(u);
    RotRightIs(Bin(u, n, r));
  }

  /** It is on the inner side. */
  lemma TurnInnerLeft(t0: Shape, u: Shape, n: AvlNode, r: Shape, key: nat)
    requires Grown(t0, u, key) && Balanced(Bin(t0, n, r)) && key < n.id && Diff(Bin(u, n, r)) > 1
    requires !(key < u.node.id)
    ensures Raised(Bin(t0, n, r), Bin(u, n, r), key)
  {
    Whole(t0, n, r);
    Whole(u, n, r);
    Parts(u);
    Parts(u.right);
    RotLeftRightIs(Bin(u, n, r));
  }

  lemma RaiseRight(t0: Shape, u: Shape, n: AvlNode, l: Shape, key: nat)
    requires Grown(t0, u, key) && Balanced(Bin(l, n, t0)) && key > n.id
    ensures Raised(Bin(l, n, t0), Bin(l, n, u), key)
  {
    Whole(l, n, t0);
    Whole(l, n, u);
    if Diff(Bin(l, n, u)) < -1 {
      TurnRaisedRight(t0, u, n, l, key);
    }
  }

  lemma TurnRaisedRight(t0: Shape, u: Shape, n: AvlNode, l: Shape, key: nat)
    requires Grown(t0, u, key) && Balanced(Bin(l, n, t0)) && key > n.id && Diff(Bin(l, n, u)) < -1
    ensures Raised(Bin(l, n, t0), Bin(l, n, u), key)
  {
    Parts(u);
    if key > u.node.id {
      TurnOuterRight(t0, u, n, l, key);
    } else {
      TurnInnerRight(t0, u, n, l, key);
    }
  }

  /** The new key is on the outer side of the grown child. */
  lemma TurnOuterRight(t0: Shape, u: Shape, n: AvlNode, l: Shape, key: nat)
    requires Grown(t0, u, key) && Balanced(Bin(l, n, t0)) && key > n.id && Diff(Bin(l, n, u)) < -1
    requires key > u.node.id
    ensures Raised(Bin(l, n, t0), Bin(l, n, u), key)
  {
    Whole(l, n, t0);
    Whole(l, n, u);
    Parts(u);
    RotLeftIs(Bin(l, n, u));
  }

  /** It is on the inner side. */
  lemma TurnInnerRight(t0: Shape, u: Shape, n: AvlNode, l: Shape, key: nat)
    requires Grown(t0, u, key) && Balanced(Bin(l, n, t0)) && key > n.id && Diff(Bin(l, n, u)) < -1
    requires !(key > u.node.id)
    ensures Raised(Bin(l, n, t0), Bin(l, n, u), key)
  {
    Whole(l, n, t0);
    Whole(l, n, u);
    Parts(u);
    Parts(u.left);
    RotRightLeftIs(Bin(l, n, u));
  }

  lemma RaisedIs(t0: Shape, t: Shape, key: nat)
    requires Raised(t0, t, key)
    ensures Grown(t0, InsertFix(t, key), key) && Balanced(InsertFix(t, key)) && InsertFix(t, key).Bin?
  {
  }

  lemma SameOnRight(t: Shape, u: Shape)
    requires t.Bin? && InOrder(u) == InOrder(t.right)
    ensures InOrder(t.(right := u)) == InOrder(t)
  {
  }

  lemma SameOnLeft(t: Shape, u: Shape)
    requires t.Bin? && InOrder(u) == InOrder(t.left)
    ensures InOrder(t.(left := u)) == InOrder(t)
  {
  }

  lemma SameInOrder(c: Hole, t: Shape, u: Shape)
    requires InOrder(u) == InOrder(t)
    ensures InOrder(Plug(c, u)) == InOrder(Plug(c, t))
  {
    PlugInOrder(c, t);
    PlugInOrder(c, u);
  }

  /** A level that has been fixed needs no further fix. */
  lemma FixedStays(t0: Shape, t: Shape, key: nat)
    requires Grown(t0, t, key)
    ensures InsertFix(t, key) == t && Raised(t0, t, key)
  {
    Parts(t);
  }

  /** The inner grandchildren lie between their parent and the top. */
  lemma InnerOf(t: Shape)
    requires Ordered(t) && t.Bin?
    ensures CanRight(t) && t.left.right.Bin? ==> t.left.node.id < t.left.right.node.id
    ensures CanLeft(t) && t.right.left.Bin? ==> t.right.left.node.id < t.right.node.id
  {
    OrderedParts(t);
    if t.left.Bin? {
      OrderedParts(t.left);
      BoundNodes(t.left.right, t.left.node.id);
    }
    if t.right.Bin? {
      OrderedParts(t.right);
      BoundNodes(t.right.left, t.right.node.id);
    }
  }

  /** Hanging a new leaf under a node raises that node's subtree. */
  lemma LeafRaises(n: AvlNode, pivot: AvlNode, other: Shape)
    ensures Balanced(Bin(Nil, pivot, other)) && n.id < pivot.id ==>
              Raised(Bin(Nil, pivot, other), Bin(Leaf(n), pivot, other), n.id)
    ensures Balanced(Bin(other, pivot, Nil)) && n.id > pivot.id ==>
              Raised(Bin(other, pivot, Nil), Bin(other, pivot, Leaf(n)), n.id)
  {
    Whole(Nil, n, Nil);
    assert Grown(Nil, Leaf(n), n.id);
    if Balanced(Bin(Nil, pivot, other)) && n.id < pivot.id {
      RaiseLeft(Nil, Leaf(n), pivot, other, n.id);
    }
    if Balanced(Bin(other, pivot, Nil)) && n.id > pivot.id {
      RaiseRight(Nil, Leaf(n), pivot, other, n.id);
    }
  }
}
