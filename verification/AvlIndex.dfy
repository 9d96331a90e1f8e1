/** The AVL index as the program keeps it: linked nodes with parent pointers and
    stored heights, changed in place.  Whatever an earlier removal has left, its
    operations as written keep the nodes in order and the pointers in agreement;
    what they make of the heights is said in `AvlStored` and `AvlHeights`. */
module AvlIndex {
  import opened AvlTree
  import opened AvlNodes
  import opened AvlOrder
  import opened AvlSwitch
  import opened AvlOutcome
  import opened AvlHeights
  import opened AvlStored

  function StoredHeight(n: AvlNode?): nat
    reads n
  {
    if n != null then n.height else 0
  }

  /** Every node of `t` stores its height. */
  ghost predicate Exact(t: Shape)
    reads Nodes(t)`height
  {
    && Heights(t).Keys == Nodes(t)
    && forall v :: v in Nodes(t) ==> v.height == Heights(t)[v]
  }

  lemma ExactParts(t: Shape)
    requires t.Bin? && Distinct(t)
    ensures Exact(t) <==> Exact(t.left) && Exact(t.right) && t.node.height == Height(t)
  {
    HeightsKeys(t);
    HeightsKeys(t.left);
    HeightsKeys(t.right);
  }

  /** The ids and stored heights of a tree of nodes, and of what is around a hole. */
  ghost function View(t: Shape): (s: Stored)
    reads Nodes(t)`height
    ensures (s.Bin? <==> t.Bin?) && (CanRight(s) <==> CanRight(t)) && (CanLeft(s) <==> CanLeft(t))
    ensures t.Bin? ==> (CanLeft(s.left) <==> CanLeft(t.left)) && (CanRight(s.right) <==> CanRight(t.right))
  {
    match t
    case Nil => Nil
    case Bin(l, n, r) => Bin(View(l), Cell(n.id, n.height), View(r))
  }

  ghost function ViewAround(c: Hole): Path
    reads Around(c)`height
  {
    match c
    case Top => Top
    case InLeft(n, r, up) => InLeft(Cell(n.id, n.height), View(r), ViewAround(up))
    case InRight(l, n, up) => InRight(View(l), Cell(n.id, n.height), ViewAround(up))
  }

  lemma {:induction false} ViewPlug(c: Hole, t: Shape)
    ensures View(Plug(c, t)) == Plug(ViewAround(c), View(t))
    decreases c
  {
    match c
    case Top =>
    case InLeft(n, r, up) => ViewPlug(up, Bin(t, n, r));
    case InRight(l, n, up) => ViewPlug(up, Bin(l, n, t));
  }

  lemma {:induction false} ViewFollow(d: Hole, c: Hole)
    ensures ViewAround(Follow(d, c)) == Follow(ViewAround(d), ViewAround(c))
    ensures AllLeft(ViewAround(d)) <==> AllLeft(d)
  {
    if !d.Top? {
      ViewFollow(d.up, c);
    }
  }

  /** Heights are exact when none is stale. */
  lemma {:induction false} ExactIsFresh(t: Shape)
    requires Distinct(t)
    ensures Exact(t) <==> Stale(View(t)) == 0
    ensures Height(View(t)) == Height(t)
  {
    if t.Bin? {
      ExactIsFresh(t.left);
      ExactIsFresh(t.right);
      ExactParts(t);
      if Exact(t.left) && Exact(t.right) {
        HeightIsStored(t.left);
        HeightIsStored(t.right);
      }
    }
  }

  lemma {:induction false} BalancedInIds(t: Shape)
    ensures Height(Ids(View(t))) == Height(t) && Balanced(Ids(View(t))) == Balanced(t)
  {
    if t.Bin? {
      BalancedInIds(t.left);
      BalancedInIds(t.right);
    }
  }

  lemma {:induction false} OrderedWithin(t: Shape, lo: int, hi: int)
    requires Ordered(t) && forall v :: v in Nodes(t) ==> lo < v.id < hi
    ensures Between(View(t), lo, hi)
  {
    if t.Bin? {
      OrderedParts(t);
      BoundNodes(t.left, t.node.id);
      BoundNodes(t.right, t.node.id);
      OrderedWithin(t.left, lo, t.node.id);
      OrderedWithin(t.right, t.node.id, hi);
    }
  }

  lemma {:induction false} Bounded(t: Shape) returns (hi: nat)
    ensures forall v :: v in Nodes(t) ==> v.id < hi
  {
    hi := 0;
    if t.Bin? {
      var a := Bounded(t.left);
      var b := Bounded(t.right);
      hi := Max(Max(a, b), t.node.id + 1);
    }
  }

  /** Ordered nodes make a search tree of ids. */
  lemma OrderedBetween(t: Shape) returns (lo: int, hi: int)
    requires Ordered(t)
    ensures Between(View(t), lo, hi)
  {
    lo := -1;
    hi := Bounded(t);
    OrderedWithin(t, lo, hi);
  }

  lemma HeightIsStored(t: Shape)
    requires Exact(t)
    ensures StoredHeight(TopOf(t)) == Height(t)
  {
    if t.Bin? {
      assert t.node in Nodes(t);
    }
  }

  /** The subtrees hanging off the way up store their heights; the nodes on the
      way itself may not. */
  ghost predicate ExactAround(c: Hole)
    reads Sides(c)`height
  {
    && SideHeights(c).Keys == Sides(c)
    && forall v :: v in Sides(c) ==> v.height == SideHeights(c)[v]
  }

  lemma SidesParts(c: Hole)
    requires Apart(c)
    ensures Sides(c) <= Around(c)
    ensures c.InLeft? ==> (ExactAround(c) <==> Exact(c.right) && ExactAround(c.up))
    ensures c.InRight? ==> (ExactAround(c) <==> Exact(c.left) && ExactAround(c.up))
  {
    SidesAround(c);
    SideKeys(c);
    if !c.Top? {
      SidesAround(c.up);
      SideKeys(c.up);
      HeightsKeys(if c.InLeft? then c.right else c.left);
    }
  }

  lemma {:induction false} ExactSplit(c: Hole, t: Shape)
    requires Distinct(Plug(c, t)) && Exact(Plug(c, t))
    ensures Exact(t) && ExactAround(c)
    decreases c
  {
    PlugSplits(c, t);
    if !c.Top? {
      var u := if c.InLeft? then Bin(t, c.node, c.right) else Bin(c.left, c.node, t);
      PlugSplits(c.up, u);
      ExactSplit(c.up, u);
      ExactParts(u);
      SidesParts(c);
    }
  }

  class AvlIndex {
    var root: AvlNode?
    var node_count: nat
    ghost var repr: set<AvlNode>
    ghost var tree: Shape

    /** The nodes form a search tree with distinct ids, and parent and child
        pointers agree.  This is what every operation as written keeps. */
    ghost predicate Intact()
      reads this, repr
    {
      Linked(tree) && Ordered(tree) && node_count == Size(tree)
    }

    /** Besides, stored heights are exact and no node leans by two. */
    ghost predicate Valid()
      reads this, repr
    {
      Intact() && Exact(tree) && Balanced(tree)
    }

    constructor ()
      ensures Valid() && repr == {} && node_count == 0
    {
      root, node_count, repr, tree := null, 0, {}, Nil;
    }

    /** The pointer fields are exactly those of the tree `w`. */
    ghost predicate Linked(w: Shape)
      reads this`root, this`repr, repr`left, repr`right, repr`prev
    {
      && Distinct(w) && root == TopOf(w) && Nodes(w) == repr == Links(w, null).Keys
      && forall v :: v in repr ==> Link(v.left, v.right, v.prev) == Links(w, null)[v]
    }

    /** The links of the node in focus. */
    lemma Focus(c: Hole, t: Shape)
      requires Linked(Plug(c, t)) && t.Bin?
      ensures t.node in repr && (c.Top? <==> root == t.node)
      ensures Link(t.node.left, t.node.right, t.node.prev) == Link(TopOf(t.left), TopOf(t.right), ParOf(c))
      ensures Distinct(t) && Nodes(t) <= repr
    {
      PlugNodes(c, t);
      PlugSplits(c, t);
      TopOfPlug(c, t);
      if !c.Top? {
        TopAround(c);
      }
      assert Links(t, ParOf(c))[t.node] == Link(TopOf(t.left), TopOf(t.right), ParOf(c));
      assert Link(t.node.left, t.node.right, t.node.prev) == Links(Plug(c, t), null)[t.node];
    }

    lemma PlugApart(c: Hole, t: Shape)
      requires Linked(Plug(c, t))
      ensures Apart(c) && Sides(c) <= repr && Sides(c) !! Nodes(t) && Nodes(t) <= repr && Distinct(t)
    {
      PlugNodes(c, t);
      SidesAround(c);
    }

    /** Recompute a height from those stored in the children. */
    static method SetHeight(pivot: AvlNode, ghost t: Shape)
      requires t.Bin? && t.node == pivot && Distinct(t)
      requires pivot.left == TopOf(t.left) && pivot.right == TopOf(t.right)
      modifies pivot`height
      ensures View(t) == Redo(old(View(t)))
    {
      pivot.height := Max(StoredHeight(pivot.left), StoredHeight(pivot.right)) + 1;
    }

    /** The pointer changes of a rotation to the right. */
    method TurnRightPointers(pivot: AvlNode)
      requires pivot in repr && pivot.left != null && pivot.left in repr && pivot.left != pivot
      requires pivot.prev != null ==> pivot.prev in repr && pivot.prev != pivot && pivot.prev != pivot.left
      requires var b := pivot.left.right;
               b != null ==> b in repr && b != pivot && b != pivot.left && b != pivot.prev
      modifies this`root, repr`left, repr`right, repr`prev
      ensures var x := old(pivot.left); var b := old(x.right); var par := old(pivot.prev);
              && Link(pivot.left, pivot.right, pivot.prev) == Link(b, old(pivot.right), x)
              && Link(x.left, x.right, x.prev) == Link(old(x.left), pivot, par)
              && (b != null ==> Link(b.left, b.right, b.prev) == Link(old(b.left), old(b.right), pivot))
              && (par != null && old(par.left) == pivot ==>
                    Link(par.left, par.right, par.prev) == Link(x, old(par.right), old(par.prev)))
              && (par != null && old(par.left) != pivot ==>
                    Link(par.left, par.right, par.prev) == Link(old(par.left), x, old(par.prev)))
              && (forall v :: v in repr && v != pivot && v != x && v != b && v != par ==>
                    Link(v.left, v.right, v.prev) == Link(old(v.left), old(v.right), old(v.prev)))
              && root == if par == null then x else old(root)
      ensures forall v :: v in repr ==> v.height == old(v.height)
    {
      var x := pivot.left;
      var inner := x.right;
      var ppar := pivot.prev;

      x.right := pivot;
      pivot.prev := x;
      pivot.left := inner;
      if inner != null {
        inner.prev := pivot;
      }
      if ppar == null {
        root := x;
        x.prev := null;
      } else {
        if ppar.left == pivot {
          ppar.left := x;
        } else {
          ppar.right := x;
        }
        x.prev := ppar;
      }
    }

    method LinkRight(pivot: AvlNode, ghost c: Hole, ghost t: Shape)
      requires CanRight(t) && t.node == pivot && Linked(Plug(c, t))
      modifies this`root, repr`left, repr`right, repr`prev
      ensures Linked(Plug(c, RotRight(t)))
      ensures forall v :: v in repr ==> v.height == old(v.height)
    {
      TurnRightLinks(c, t);
      ghost var m, m' := Links(Plug(c, t), null), Links(Plug(c, RotRight(t)), null);
      hide Plug, Distinct, Nodes, Links, RotRight, TopOf, ParOf;
      assert Link(pivot.left, pivot.right, pivot.prev) == m[pivot];
      assert Link(pivot.left.left, pivot.left.right, pivot.left.prev) == m[pivot.left];
      TurnRightPointers(pivot);
      forall v | v in repr ensures Link(v.left, v.right, v.prev) == m'[v] {
        assert old(Link(v.left, v.right, v.prev)) == m[v];
      }
    }

    /** Rotate the subtree at `pivot` to the right and recompute two heights. */
    method DoRight(pivot: AvlNode, ghost c: Hole, ghost t: Shape)
      requires CanRight(t) && t.node == pivot && Linked(Plug(c, t))
      modifies this`root, repr`left, repr`right, repr`prev, repr`height
      ensures Linked(Plug(c, RotRight(t))) && Nodes(RotRight(t)) == Nodes(t)
      ensures View(RotRight(t)) == TurnRight(old(View(t)))
      ensures forall v :: v in repr && v != pivot && v != t.left.node ==> v.height == old(v.height)
      ensures pivot.prev == t.left.node && pivot.left == TopOf(t.left.right)
    {
      hide Linked, Links;
      ghost var u := RotRight(t);
      Focus(c, t);
      var x := pivot.left;
      LinkRight(pivot, c, t);
      Focus(c, u);
      Focus(InRight(u.left, u.node, c), u.right);
      SetHeight(pivot, u.right);
      SetHeight(x, u);
    }

    /** The pointer changes of a rotation to the left. */
    method TurnLeftPointers(pivot: AvlNode)
      requires pivot in repr && pivot.right != null && pivot.right in repr && pivot.right != pivot
      requires pivot.prev != null ==> pivot.prev in repr && pivot.prev != pivot && pivot.prev != pivot.right
      requires var b := pivot.right.left;
               b != null ==> b in repr && b != pivot && b != pivot.right && b != pivot.prev
      modifies this`root, repr`left, repr`right, repr`prev
      ensures var x := old(pivot.right); var b := old(x.left); var par := old(pivot.prev);
              && Link(pivot.left, pivot.right, pivot.prev) == Link(old(pivot.left), b, x)
              && Link(x.left, x.right, x.prev) == Link(pivot, old(x.right), par)
              && (b != null ==> Link(b.left, b.right, b.prev) == Link(old(b.left), old(b.right), pivot))
              && (par != null && old(par.left) == pivot ==>
                    Link(par.left, par.right, par.prev) == Link(x, old(par.right), old(par.prev)))
              && (par != null && old(par.left) != pivot ==>
                    Link(par.left, par.right, par.prev) == Link(old(par.left), x, old(par.prev)))
              && (forall v :: v in repr && v != pivot && v != x && v != b && v != par ==>
                    Link(v.left, v.right, v.prev) == Link(old(v.left), old(v.right), old(v.prev)))
              && root == if par == null then x else old(root)
      ensures forall v :: v in repr ==> v.height == old(v.height)
    {
      var x := pivot.right;
      var inner := x.left;
      var ppar := pivot.prev;

      x.left := pivot;
      pivot.prev := x;
      pivot.right := inner;
      if inner != null {
        inner.prev := pivot;
      }
      if ppar == null {
        root := x;
        x.prev := null;
      } else {
        if ppar.left == pivot {
          ppar.left := x;
        } else {
          ppar.right := x;
        }
        x.prev := ppar;
      }
    }

    method LinkLeft(pivot: AvlNode, ghost c: Hole, ghost t: Shape)
      requires CanLeft(t) && t.node == pivot && Linked(Plug(c, t))
      modifies this`root, repr`left, repr`right, repr`prev
      ensures Linked(Plug(c, RotLeft(t)))
      ensures forall v :: v in repr ==> v.height == old(v.height)
    {
      TurnLeftLinks(c, t);
      ghost var m, m' := Links(Plug(c, t), null), Links(Plug(c, RotLeft(t)), null);
      hide Plug, Distinct, Nodes, Links, RotLeft, TopOf, ParOf;
      assert Link(pivot.left, pivot.right, pivot.prev) == m[pivot];
      assert Link(pivot.right.left, pivot.right.right, pivot.right.prev) == m[pivot.right];
      TurnLeftPointers(pivot);
      forall v | v in repr ensures Link(v.left, v.right, v.prev) == m'[v] {
        assert old(Link(v.left, v.right, v.prev)) == m[v];
      }
    }

    /** Rotate the subtree at `pivot` to the left and recompute two heights. */
    method DoLeft(pivot: AvlNode, ghost c: Hole, ghost t: Shape)
      requires CanLeft(t) && t.node == pivot && Linked(Plug(c, t))
      modifies this`root, repr`left, repr`right, repr`prev, repr`height
      ensures Linked(Plug(c, RotLeft(t))) && Nodes(RotLeft(t)) == Nodes(t)
      ensures View(RotLeft(t)) == TurnLeft(old(View(t)))
      ensures forall v :: v in repr && v != pivot && v != t.right.node ==> v.height == old(v.height)
      ensures pivot.prev == t.right.node && pivot.right == TopOf(t.right.left)
    {
      hide Linked, Links;
      ghost var u := RotLeft(t);
      Focus(c, t);
      var x := pivot.right;
      LinkLeft(pivot, c, t);
      Focus(c, u);
      Focus(InLeft(u.node, u.right, c), u.left);
      SetHeight(pivot, u.left);
      SetHeight(x, u);
    }

    // ------------------------------------------------ rotations in focus

    method RightAt(pivot: AvlNode, ghost c: Hole, ghost t: Shape)
      requires CanRight(t) && t.node == pivot && Linked(Plug(c, t))
      modifies this`root, repr`left, repr`right, repr`prev, repr`height
      ensures Linked(Plug(c, RotRight(t))) && Nodes(RotRight(t)) == Nodes(t)
      ensures View(RotRight(t)) == TurnRight(old(View(t)))
      ensures pivot.prev == t.left.node && pivot.left == TopOf(t.left.right)
      ensures forall v :: v in repr && v !in Nodes(t) ==> v.height == old(v.height)
    {
      Focus(c, t);
      DoRight(pivot, c, t);
    }

    method LeftAt(pivot: AvlNode, ghost c: Hole, ghost t: Shape)
      requires CanLeft(t) && t.node == pivot && Linked(Plug(c, t))
      modifies this`root, repr`left, repr`right, repr`prev, repr`height
      ensures Linked(Plug(c, RotLeft(t))) && Nodes(RotLeft(t)) == Nodes(t)
      ensures View(RotLeft(t)) == TurnLeft(old(View(t)))
      ensures pivot.prev == t.right.node && pivot.right == TopOf(t.right.left)
      ensures forall v :: v in repr && v !in Nodes(t) ==> v.height == old(v.height)
    {
      Focus(c, t);
      DoLeft(pivot, c, t);
    }

    /** Rotate the left child left and then `pivot` right. */
    method LeftRightAt(pivot: AvlNode, ghost c: Hole, ghost t: Shape)
      requires t.Bin? && CanLeft(t.left) && t.node == pivot && Linked(Plug(c, t))
      modifies this`root, repr`left, repr`right, repr`prev, repr`height
      ensures Linked(Plug(c, RotLeftRight(t))) && Nodes(RotLeftRight(t)) == Nodes(t)
      ensures View(RotLeftRight(t)) == TurnLeftRight(old(View(t)))
      ensures pivot.prev == t.left.right.node
      ensures forall v :: v in repr && v !in Nodes(t) ==> v.height == old(v.height)
    {
      hide Linked, Links;
      ghost var u := Bin(RotLeft(t.left), t.node, t.right);
      Focus(c, t);
      LeftAt(pivot.left, InLeft(pivot, t.right, c), t.left);
      Focus(c, u);
      DoRight(pivot, c, u);
    }

    /** Rotate the right child right and then `pivot` left. */
    method RightLeftAt(pivot: AvlNode, ghost c: Hole, ghost t: Shape)
      requires t.Bin? && CanRight(t.right) && t.node == pivot && Linked(Plug(c, t))
      modifies this`root, repr`left, repr`right, repr`prev, repr`height
      ensures Linked(Plug(c, RotRightLeft(t))) && Nodes(RotRightLeft(t)) == Nodes(t)
      ensures View(RotRightLeft(t)) == TurnRightLeft(old(View(t)))
      ensures pivot.prev == t.right.left.node
      ensures forall v :: v in repr && v !in Nodes(t) ==> v.height == old(v.height)
    {
      hide Linked, Links;
      ghost var u := Bin(t.left, t.node, RotRight(t.right));
      Focus(c, t);
      RightAt(pivot.right, InRight(t.left, pivot, c), t.right);
      Focus(c, u);
      DoLeft(pivot, c, u);
    }

    // --------------------------------------------------------------- insert

    static function GetDiff(n: AvlNode?): int
      reads n, if n == null then {} else {n.left, n.right}
    {
      if n == null then 0 else StoredHeight(n.left) - StoredHeight(n.right)
    }

    lemma Grandchildren(c: Hole, t: Shape)
      requires t.Bin? && Linked(Plug(c, t))
      ensures t.left.Bin? ==> t.left.node.left == TopOf(t.left.left) && t.left.node.right == TopOf(t.left.right)
      ensures t.right.Bin? ==> t.right.node.left == TopOf(t.right.left) && t.right.node.right == TopOf(t.right.right)
    {
      if t.left.Bin? {
        Focus(InLeft(t.node, t.right, c), t.left);
      }
      if t.right.Bin? {
        Focus(InRight(t.left, t.node, c), t.right);
      }
    }

    /** The rotation that the stored heights `v` of `t` call for. */
    static ghost function InsertTurn(t: Shape, v: Stored, key: nat): Shape
      requires v.Bin? && t.Bin?
    {
      if Lean(v) > 1 && CanRight(t) && key < t.left.node.id then RotRight(t)
      else if Lean(v) < -1 && CanLeft(t) && key > t.right.node.id then RotLeft(t)
      else if Lean(v) > 1 && CanLeft(t.left) && key > t.left.node.id then RotLeftRight(t)
      else if Lean(v) < -1 && CanRight(t.right) && key < t.right.node.id then RotRightLeft(t)
      else t
    }

    /** One level of the climb after an insert: all four tests are made in turn
        with the difference computed first; ids being in order, at most one of
        them fires.  When the heavy child has no inner child to turn up, the
        program follows a null pointer. */
    method InsertStep(pivot: AvlNode, key: nat, ghost c: Hole, ghost t: Shape) returns (ok: bool, ghost u: Shape)
      requires t.Bin? && t.node == pivot && Linked(Plug(c, t)) && Ordered(Plug(c, t))
      modifies this`root, repr`left, repr`right, repr`prev, repr`height
      ensures u == InsertTurn(t, old(View(t)), key) && Linked(Plug(c, u)) && Nodes(u) == Nodes(t)
      ensures var r := InsertTests(old(View(t)), key);
              && (ok <==> !r.Stuck?) && (ok ==> View(u) == r.t)
              && (ok ==> if r.Kept? then u == t && pivot.prev == ParOf(c) else pivot.prev == TopOf(u) != null)
      ensures forall v :: v in repr && v !in Nodes(t) ==> v.height == old(v.height)
    {
      hide Linked, Links, InOrder, Sorted, Distinct, Heights, Balanced, TurnRight, TurnLeft, TurnLeftRight;
      hide TurnRightLeft;
      hide Nodes, Plug;
      Focus(c, t);
      PlugOrdered(c, t);
      InnerOf(t);
      Grandchildren(c, t);
      ok, u := true, t;
      var diff := GetDiff(pivot);
      SetHeight(pivot, t);
      if diff > 1 && pivot.left != null && key < pivot.left.id {
        RightAt(pivot, c, t);
        u := RotRight(t);
      }
      if diff < -1 && pivot.right != null && key > pivot.right.id {
        LeftAt(pivot, c, t);
        u := RotLeft(t);
      }
      if diff > 1 && pivot.left != null && key > pivot.left.id {
        if pivot.left.right == null {
          ok := false;
          return;
        }
        LeftRightAt(pivot, c, t);
        u := RotLeftRight(t);
      }
      if diff < -1 && pivot.right != null && key < pivot.right.id {
        if pivot.right.left == null {
          ok := false;
          return;
        }
        RightLeftAt(pivot, c, t);
        u := RotRightLeft(t);
      }
    }

    static lemma TurnKeepsOrder(t: Shape, v: Stored, key: nat)
      requires v.Bin? && t.Bin?
      ensures InOrder(InsertTurn(t, v, key)) == InOrder(t)
    {
      RotationsKeepOrder(t);
      DoubleRotationsKeepOrder(t);
    }

    /** On a raised subtree the stored heights call for the rotation it needs. */
    static lemma RaisedTests(t0: Shape, t: Shape, key: nat)
      requires t.Bin? && Distinct(t) && Exact(t.left) && Exact(t.right) && Raised(t0, t, key)
      ensures InsertTurn(t, View(t), key) == InsertFix(t, key)
      ensures !InsertTests(View(t), key).Stuck? && Stale(InsertTests(View(t), key).t) == 0
    {
      var v := View(t);
      ExactIsFresh(t.left);
      ExactIsFresh(t.right);
      HeightIsStored(t.left);
      HeightIsStored(t.right);
      hide Stale, Exact, Balanced, Distinct, TurnRight, TurnLeft, TurnLeftRight, TurnRightLeft;
      StaleParts(v);
      var s := Redo(v);
      if CanRight(v) {
        TurnRightIs(s);
        if CanLeft(v.left) {
          TurnLeftRightIs(s);
        }
      }
      if CanLeft(v) {
        TurnLeftIs(s);
        if CanRight(v.right) {
          TurnRightLeftIs(s);
        }
      }
    }

    /** One level up: the fixed subtree stands in its parent's tree. */
    lemma ClimbOn(c: Hole, t0: Shape, u: Shape, key: nat) returns (t1: Shape, t: Shape)
      requires !c.Top? && Apart(c) && Exact(u) && ExactAround(c)
      requires Grown(t0, u, key) && Balanced(Plug(c, t0)) && LeadsTo(c, key)
      ensures Plug(c.up, t) == Plug(c, u) && Plug(c.up, t1) == Plug(c, t0) && t == Hang(c, u)
      ensures Exact(t.left) && Exact(t.right) && ExactAround(c.up)
      ensures Raised(t1, t, key) && LeadsTo(c.up, key)
    {
      SidesParts(c);
      if c.InLeft? {
        t1, t := Bin(t0, c.node, c.right), Bin(u, c.node, c.right);
        PlugParts(c.up, t1);
        RaiseLeft(t0, u, c.node, c.right, key);
      } else {
        t1, t := Bin(c.left, c.node, t0), Bin(c.left, c.node, u);
        PlugParts(c.up, t1);
        RaiseRight(t0, u, c.node, c.left, key);
      }
    }

    /** An insert of `key` has raised the subtree `t` in `c`, where `t0` stood
        before; the heights are exact everywhere but on the way up from `t`. */
    ghost predicate Rising(c: Hole, t0: Shape, t: Shape, key: nat)
      reads this`root, this`repr, repr`left, repr`right, repr`prev, repr`height
    {
      && Linked(Plug(c, t)) && Sides(c) + Nodes(t) <= repr && ExactAround(c)
      && t.Bin? && Exact(t.left) && Exact(t.right)
      && Raised(t0, t, key) && Balanced(Plug(c, t0)) && LeadsTo(c, key)
    }

    static lemma InsertRunOn(s: Climb, key: nat, n: nat)
      requires Going(s) && (InsertRun(s, key, n).Over? || InsertRun(s, key, n).Null?)
      ensures n > 0 && InsertRun(s, key, n) == InsertRun(Onward(s.c, InsertTests(s.t, key)), key, n - 1)
    {
    }

    /** Where the climb goes on after a pass with at most one rotation. */
    lemma MoveOn(c: Hole, u: Shape, r: Turned) returns (c': Hole, t: Shape)
      requires (r.Kept? || r.Once?) && r.t.Bin? && View(u) == r.t
      ensures Plug(c', t) == Plug(c, u) && t.Bin?
      ensures if c.Top? then c' == Top && t == u else Onward(ViewAround(c), r) == At(ViewAround(c'), View(t))
      ensures !c.Top? ==> t.node == if r.Kept? then c.node else u.node
      ensures !c.Top? ==> if r.Kept? then c' == c.up && t == Hang(c, u) else c' == c && t == u
    {
      if c.Top? || r.Once? {
        c', t := c, u;
      } else {
        c', t := c.up, Hang(c, u);
      }
    }

    /** The same for the heights and the balance of a climb from a valid index. */
    lemma RisenOn(c: Hole, t0: Shape, t: Shape, u: Shape, key: nat, r: Turned) returns (t1: Shape)
      requires (r.Kept? || r.Once?) && (r.Kept? ==> u == t) && u == InsertFix(t, key) && View(u) == r.t
      requires Stale(r.t) == 0
      requires Linked(Plug(c, u)) && ExactAround(c)
      requires Raised(t0, t, key) && Balanced(Plug(c, t0)) && LeadsTo(c, key)
      ensures c.Top? ==> Exact(u) && Balanced(u)
      ensures !c.Top? && r.Kept? ==> Rising(c.up, t1, Hang(c, u), key)
      ensures !c.Top? && r.Once? ==> Rising(c, t1, u, key)
    {
      hide Linked, InOrder, Balanced, Raised, Grown;
      RaisedIs(t0, t, key);
      PlugApart(c, u);
      ExactIsFresh(u);
      t1 := t0;
      if !c.Top? {
        if r.Once? {
          FixedStays(t0, u, key);
          ExactParts(u);
        } else {
          var v;
          t1, v := ClimbOn(c, t0, u, key);
          PlugApart(c.up, v);
        }
      }
    }

    /** A level of the climb, and where it goes on. */
    method InsertPass(pivot: AvlNode, key: nat, ghost c: Hole, ghost t0: Shape, ghost t: Shape, ghost rising: bool)
      returns (ok: bool, ghost c': Hole, ghost t1: Shape, ghost t': Shape)
      requires t.Bin? && t.node == pivot && Linked(Plug(c, t)) && Ordered(Plug(c, t))
      requires rising ==> Rising(c, t0, t, key)
      modifies this`root, repr`left, repr`right, repr`prev, repr`height
      ensures Linked(Plug(c', t')) && InOrder(Plug(c', t')) == InOrder(Plug(c, t))
      ensures var e := Onward(old(ViewAround(c)), InsertTests(old(View(t)), key));
              && (ok <==> !e.Null?)
              && (ok ==> e == if c.Top? then Over(View(Plug(c', t'))) else At(ViewAround(c'), View(t')))
      ensures ok && !c.Top? ==> t'.Bin? && pivot.prev == t'.node
      ensures rising ==> ok && if c.Top? then Exact(Plug(c', t')) && Balanced(Plug(c', t')) else Rising(c', t1, t', key)
    {
      hide Linked, InOrder, Balanced, Raised, Grown, InsertTests, InsertTurn, InsertFix, Exact, Plug, Links, Nodes;
      hide Heights, ExactAround;
      Focus(c, t);
      PlugApart(c, t);
      AroundIn(c, t);
      ghost var r := InsertTests(View(t), key);
      TurnKeepsOrder(t, View(t), key);
      if rising {
        RaisedTests(t0, t, key);
      }
      ghost var u;
      ok, u := InsertStep(pivot, key, c, t);
      SameInOrder(c, t, u);
      t1, c', t' := t0, c, u;
      if ok {
        if rising {
          t1 := RisenOn(c, t0, t, u, key, r);
        }
        c', t' := MoveOn(c, u, r);
        PlugTop(t');
      }
    }

    lemma AroundIn(c: Hole, t: Shape)
      requires Linked(Plug(c, t))
      ensures Around(c) <= repr && Around(c) !! Nodes(t)
    {
      PlugNodes(c, t);
    }

    static lemma PlugTop(t: Shape)
      ensures Plug(Top, t) == t
    {
    }

    /** The climb after an insert below `par`: the pointers, heights and the null
        pointer it may follow are those of `InsertRun`; from a valid index it
        ends with all heights exact and balance restored. */
    method InsertBalance(par: AvlNode, key: nat, ghost c0: Hole, ghost old0: Shape, ghost new0: Shape)
      returns (ok: bool, ghost w: Shape, ghost k: nat)
      requires new0.Bin? && new0.node == par && Linked(Plug(c0, new0)) && Ordered(Plug(c0, new0))
      modifies this`root, repr`left, repr`right, repr`prev, repr`height
      ensures Linked(w) && InOrder(w) == InOrder(Plug(c0, new0))
      ensures InsertRun(At(old(ViewAround(c0)), old(View(new0))), key, k) == if ok then Over(View(w)) else Null
      ensures old(Rising(c0, old0, new0, key)) ==> ok && Exact(w) && Balanced(w)
    {
      hide Linked, InOrder, Balanced, InsertTests, Exact, Plug, Links, Nodes, Rising, Between, View, ViewAround;
      hide InsertRun;
      var pivot: AvlNode? := par;
      var brk := true;
      ok := true;
      ghost var c, t0, t := c0, old0, new0;
      ghost var rising := Rising(c, t0, t, key);
      k := InsertBound(c, t, key);
      ghost var n, end := k, InsertRun(At(ViewAround(c), View(t)), key, k);
      while brk
        invariant Linked(Plug(c, t)) && InOrder(Plug(c, t)) == InOrder(Plug(c0, new0))
        invariant brk ==> t.Bin? && pivot == t.node && InsertRun(At(ViewAround(c), View(t)), key, n) == end
        invariant !brk ==> end == Over(View(Plug(c, t)))
        invariant rising ==> if brk then Rising(c, t0, t, key) else Exact(Plug(c, t)) && Balanced(Plug(c, t))
        modifies this`root, repr`left, repr`right, repr`prev, repr`height
        decreases brk, n
      {
        Focus(c, t);
        if pivot == root {
          brk := false;
        }
        InsertRunOn(At(ViewAround(c), View(t)), key, n);
        ok, c, t0, t := InsertPass(pivot, key, c, t0, t, rising);
        n := n - 1;
        if !ok || !brk {
          InsertRunStays(if ok then Over(View(Plug(c, t))) else Null, key, n);
        }
        if !ok {
          w := Plug(c, t);
          return;
        }
        pivot := pivot.prev;
      }
      w := Plug(c, t);
    }

    lemma InsertBound(c: Hole, t: Shape, key: nat) returns (k: nat)
      requires t.Bin? && Ordered(Plug(c, t))
      ensures InsertRun(At(ViewAround(c), View(t)), key, k).Over? || InsertRun(At(ViewAround(c), View(t)), key, k).Null?
    {
      var lo, hi := OrderedBetween(Plug(c, t));
      ViewPlug(c, t);
      k := InsertEnds(ViewAround(c), View(t), key, lo, hi);
    }

    static lemma InsertRunStays(s: Climb, key: nat, n: nat)
      requires s.Over? || s.Null?
      ensures InsertRun(s, key, n) == s
    {
    }

    /** The descent of an insert: the first node on the way down that has no
        child on the side the new id belongs to. */
    method FindParent(n: AvlNode) returns (pivot: AvlNode, ghost c: Hole, ghost t: Shape)
      requires Intact() && root != null
      requires forall v :: v in repr ==> v.id != n.id
      ensures pivot in repr && t.Bin? && t.node == pivot && Plug(c, t) == tree && LeadsTo(c, n.id)
      ensures if n.id < pivot.id then t.left.Nil? else t.right.Nil?
      ensures InsertStart(Top, View(tree), n.id) == InsertStart(ViewAround(c), View(t), n.id)
    {
      pivot := root;
      c, t := Top, tree;
      while true
        invariant t.Bin? && t.node == pivot && Plug(c, t) == tree && LeadsTo(c, n.id)
        invariant InsertStart(Top, View(tree), n.id) == InsertStart(ViewAround(c), View(t), n.id)
        decreases t
      {
        Focus(c, t);
        if pivot.id > n.id {
          if pivot.left == null {
            return;
          }
          pivot := pivot.left;
          c, t := InLeft(t.node, t.right, c), t.left;
        } else {
          if pivot.right == null {
            return;
          }
          pivot := pivot.right;
          c, t := InRight(t.left, t.node, c), t.right;
        }
      }
    }

    /** `n` as the program allocates it. */
    ghost predicate Unlinked(n: AvlNode)
      reads n
    {
      n.height == 1 && n.left == null && n.right == null && n.prev == null
    }

    lemma IsUnlinked(n: AvlNode)
      requires Unlinked(n)
      ensures n.height == 1
    {
    }

    /** What hanging `n` under `pivot` makes of the subtree there. */
    static ghost function Hung(t: Shape, n: AvlNode): Shape
      requires t.Bin?
    {
      if n.id < t.node.id then Bin(Leaf(n), t.node, t.right) else Bin(t.left, t.node, Leaf(n))
    }

    static lemma LeafExact(n: AvlNode)
      requires n.height == 1
      ensures Nodes(Leaf(n)) == {n} && Exact(Leaf(n))
    {
      assert Nodes(Leaf(n)) == {} + {n} + {};
      assert Height<AvlNode>(Nil) == 0;
      assert Heights(Leaf(n)) == (map[] + map[])[n := 1];
    }

    method HangLeft(pivot: AvlNode, n: AvlNode, ghost c: Hole)
      requires c.InLeft? && c.node == pivot && Linked(Plug(c, Nil)) && pivot in repr && n !in repr && Unlinked(n)
      modifies this`repr, pivot`left, n`prev
      ensures Linked(Plug(c, Leaf(n))) && repr == old(repr) + {n}
    {
      AttachLinks(c, n);
      pivot.left := n;
      n.prev := pivot;
      repr := repr + {n};
    }

    method HangRight(pivot: AvlNode, n: AvlNode, ghost c: Hole)
      requires c.InRight? && c.node == pivot && Linked(Plug(c, Nil)) && pivot in repr && n !in repr && Unlinked(n)
      modifies this`repr, pivot`right, n`prev
      ensures Linked(Plug(c, Leaf(n))) && repr == old(repr) + {n}
    {
      AttachLinks(c, n);
      pivot.right := n;
      n.prev := pivot;
      repr := repr + {n};
    }

    /** Hang `n` under a node that has no child on that side. */
    method HangLeaf(pivot: AvlNode, n: AvlNode, ghost c: Hole, ghost t: Shape)
      requires Intact() && Plug(c, t) == tree && LeadsTo(c, n.id) && n !in repr && Unlinked(n)
      requires t.Bin? && t.node == pivot && pivot.id != n.id && pivot in repr
      requires if n.id < pivot.id then t.left.Nil? else t.right.Nil?
      modifies this`repr, pivot`left, pivot`right, n`prev
      ensures Linked(Plug(c, Hung(t, n))) && repr == old(repr) + {n}
      ensures Ordered(Plug(c, Hung(t, n))) && |InOrder(Plug(c, Hung(t, n)))| == node_count + 1
      ensures Hung(t, n).Bin? && Hung(t, n).node == pivot
      ensures At(ViewAround(c), View(Hung(t, n))) == InsertStart(ViewAround(c), old(View(t)), n.id)
      ensures old(Valid()) ==> Rising(c, t, Hung(t, n), n.id)
    {
      hide *;
      ghost var valid := Valid();
      HungView(c, t, n);
      ghost var hole := Landing(c, t, n);
      IsUnlinked(n);
      if valid {
        LandingRises(c, t, n);
      }
      if pivot.id > n.id {
        HangLeft(pivot, n, hole);
      } else {
        HangRight(pivot, n, hole);
      }
      if valid {
        IsRising(c, t, Hung(t, n), n.id);
      }
    }

    lemma HungView(c: Hole, t: Shape, n: AvlNode)
      requires t.Bin? && Unlinked(n) && t.node.id != n.id && if n.id < t.node.id then t.left.Nil? else t.right.Nil?
      ensures At(ViewAround(c), View(Hung(t, n))) == InsertStart(ViewAround(c), View(t), n.id)
    {
      assert View(Leaf(n)) == Bin(Nil, Cell(n.id, 1), Nil);
    }

    lemma IsRising(c: Hole, t0: Shape, t: Shape, key: nat)
      requires Linked(Plug(c, t)) && Sides(c) + Nodes(t) <= repr && ExactAround(c)
      requires t.Bin? && Exact(t.left) && Exact(t.right)
      requires Raised(t0, t, key) && Balanced(Plug(c, t0)) && LeadsTo(c, key)
      ensures Rising(c, t0, t, key)
    {
    }

    lemma Landing(c: Hole, t: Shape, n: AvlNode) returns (hole: Hole)
      requires Intact() && Plug(c, t) == tree && LeadsTo(c, n.id) && n !in repr && Unlinked(n)
      requires t.Bin? && t.node.id != n.id && if n.id < t.node.id then t.left.Nil? else t.right.Nil?
      ensures if n.id < t.node.id then hole.InLeft? && hole.node == t.node else hole.InRight? && hole.node == t.node
      ensures Linked(Plug(hole, Nil)) && Plug(hole, Leaf(n)) == Plug(c, Hung(t, n))
      ensures Hung(t, n).Bin? && Hung(t, n).node == t.node
      ensures Sides(c) + Nodes(Hung(t, n)) <= repr + {n}
      ensures Nodes(Hung(t, n).left) + Nodes(Hung(t, n).right) <= repr + {n}
      ensures Around(c) <= repr && t.node in repr
      ensures Ordered(Plug(c, Hung(t, n)))
      ensures |InOrder(Plug(c, Hung(t, n)))| == node_count + 1
    {
      PlugApart(c, t);
      PlugNodes(c, t);
      SizeIsLength(tree);
      hole := if n.id < t.node.id then InLeft(t.node, t.right, c) else InRight(t.left, t.node, c);
      LeafOrdered(hole, n);
      LeafAdds(hole, n);
    }

    lemma LandingRises(c: Hole, t: Shape, n: AvlNode)
      requires Valid() && Plug(c, t) == tree && n.height == 1
      requires t.Bin? && t.node.id != n.id && if n.id < t.node.id then t.left.Nil? else t.right.Nil?
      ensures ExactAround(c) && Exact(Hung(t, n).left) && Exact(Hung(t, n).right)
      ensures Raised(t, Hung(t, n), n.id) && Balanced(Plug(c, t))
    {
      PlugApart(c, t);
      ExactSplit(c, t);
      ExactParts(t);
      LeafExact(n);
      PlugParts(c, t);
      LeafRaises(n, t.node, if n.id < t.node.id then t.right else t.left);
    }

    lemma Keeps(w: Shape)
      requires Linked(tree) && InOrder(tree) == InOrder(w) && Ordered(w) && |InOrder(w)| == node_count
      ensures Intact()
      ensures Exact(tree) && Balanced(tree) ==> Valid()
    {
      SizeIsLength(tree);
    }

    /** What validity is in ids and stored heights. */
    lemma ValidInHeights()
      requires Intact()
      ensures Valid() <==> Stale(View(tree)) == 0 && Balanced(Ids(View(tree)))
    {
      ExactIsFresh(tree);
      BalancedInIds(tree);
    }

    lemma WasIntact()
      requires Valid()
      ensures Intact()
    {
    }

    lemma AllInside()
      requires Intact()
      ensures Nodes(tree) <= repr
    {
    }

    lemma AroundInside(c: Hole, t: Shape)
      requires Intact() && Plug(c, t) == tree
      ensures Around(c) <= repr && Nodes(t) <= repr
    {
      PlugNodes(c, t);
    }

    lemma NothingYet()
      requires Intact() && root == null
      ensures tree == Nil && View(tree) == Nil && repr == {} && node_count == 0
    {
    }

    lemma FirstIsValid(n: AvlNode)
      requires root == n && node_count == 1 && repr == {n} && tree == Leaf(n) && Unlinked(n)
      ensures Valid() && Over(View(tree)) == InsertStart(Top, Nil, n.id)
    {
      assert Nodes(Nil) == {} && Heights(Nil) == map[] && Links(Nil, n) == map[];
      assert InOrder(tree) == [] + [n] + [];
      LeafExact(n);
      assert Links(tree, null) == (map[] + map[])[n := Link(null, null, null)];
    }

    lemma NoSteps(s: Climb, key: nat)
      ensures InsertRun(s, key, 0) == s
    {
    }

    /** Insert a node whose id is not in the index, in any state: the node is in,
        order and pointers are kept, and the climb is that of `InsertRun`, which
        may end at a null pointer.  From a valid index it does not, and the index
        is valid afterwards. */
    method Insert(n: AvlNode) returns (ok: bool, ghost k: nat)
      requires Intact() && n !in repr && Unlinked(n)
      requires forall v :: v in repr ==> v.id != n.id
      modifies this, repr, n
      ensures Intact() && repr == old(repr) + {n} && node_count == old(node_count) + 1
      ensures InsertRun(InsertStart(Top, old(View(tree)), n.id), n.id, k) == if ok then Over(View(tree)) else Null
      ensures old(Valid()) ==> ok && Valid()
    {
      hide *;
      if root == null {
        NothingYet();
        ghost var start := InsertStart(Top, Nil, n.id);
        root := n;
        node_count := node_count + 1;
        repr, tree := {n}, Leaf(n);
        FirstIsValid(n);
        ok, k := true, 0;
        NoSteps(start, n.id);
        return;
      }
      ghost var c, t;
      var pivot;
      AllInside();
      pivot, c, t := FindParent(n);
      AroundInside(c, t);
      HangLeaf(pivot, n, c, t);
      node_count := node_count + 1;
      ok, tree, k := InsertBalance(pivot, n.id, c, t, Hung(t, n));
      Keeps(Plug(c, Hung(t, n)));
    }

    // --------------------------------------------------------------- search

    /** Finds the node with id `pid` if there is one, in any state, looking at no
        more nodes than the tree is high; in a valid index that is logarithmic. */
    method Search(pid: nat) returns (n: AvlNode?, ghost steps: nat)
      requires Intact()
      ensures n != null ==> n in repr && n.id == pid
      ensures n == null ==> forall v :: v in repr ==> v.id != pid
      ensures steps <= Height(tree)
      ensures Valid() ==> Fib(steps + 2) <= node_count + 1
    {
      hide Fib, Balanced, Links, Distinct, InOrder, Exact, Size;
      n, steps := root, 0;
      ghost var c, t := Top, tree;
      while n != null && n.id != pid
        invariant n == TopOf(t) && Plug(c, t) == tree && LeadsTo(c, pid)
        invariant steps + Height(t) <= Height(tree)
        decreases t
      {
        Focus(c, t);
        if n.id > pid {
          n := n.left;
          c, t := InLeft(t.node, t.right, c), t.left;
        } else {
          n := n.right;
          c, t := InRight(t.left, t.node, c), t.right;
        }
        steps := steps + 1;
      }
      PlugNodes(c, t);
      if Valid() {
        BalancedIsFull(tree);
        FibRises(steps + 2, Height(tree) + 2);
      }
      if n == null {
        NotElsewhere(c, t, pid);
      }
    }

    // ----------------------------------------------------------- the switch

    /** What the links around one node say. */
    ghost predicate Known(a: AvlNode)
      reads this`root, this`repr, repr`left, repr`right, repr`prev
    {
      && a in repr && (a.prev == null <==> root == a)
      && (a.left != null ==> a.left in repr) && (a.right != null ==> a.right in repr)
      && (a.prev != null ==> a.prev in repr)
      && (forall v :: v in repr ==> (v.left == a || v.right == a <==> a.prev == v) && (v.left == a ==> v.right != a))
      && (forall v :: v in repr ==> (v.prev == a <==> a.left == v || a.right == v))
    }

    lemma Neighbours(w: Shape, a: AvlNode)
      requires Linked(w) && a in repr
      ensures Known(a)
    {
      LinksAgree(w, null);
      LinksWithin(w, null);
      var m := Links(w, null);
      assert Within(m, a, TopOf(w), null);
      forall v | v in repr
        ensures (v.left == a || v.right == a <==> a.prev == v) && (v.left == a ==> v.right != a)
        ensures v.prev == a <==> a.left == v || a.right == v
      {
        assert Agree(m, v, a) && Agree(m, a, v);
        assert Link(v.left, v.right, v.prev) == m[v];
      }
    }

    /** `x` is hung where `y` hung: below `tl` on the left, below `tr` on the
        right, or at the root; when that place is below `x` itself, `y` is what
        takes `x` as its child. */
    method TakePlace(x: AvlNode, y: AvlNode, tl: AvlNode?, tr: AvlNode?)
      requires (tl == null || tr == null) && x != y && tl != y && tr != y
      modifies this`root, x`prev, y`left, y`right, {tl}`left, {tr}`right
      ensures root == if tl == tr then x else old(root)
      ensures x.prev == if tl == tr then null else if tl == x || tr == x then y else if tl != null then tl else tr
      ensures y.left == if tl == x then x else old(y.left)
      ensures y.right == if tr == x then x else old(y.right)
      ensures tl != null ==> tl.left == if tl == x then old(x.left) else x
      ensures tr != null ==> tr.right == if tr == x then old(x.right) else x
    {
      if tl == tr {
        root := x;
        x.prev := null;
      } else if tl != null {
        if tl == x {
          x.prev := y;
          y.left := x;
        } else {
          tl.left := x;
          x.prev := tl;
        }
      } else {
        if tr == x {
          x.prev := y;
          y.right := x;
        } else {
          tr.right := x;
          x.prev := tr;
        }
      }
    }

    /** `v` takes the children `l` and `r`, unless one of them is `v` itself. */
    method Adopt(v: AvlNode, l: AvlNode?, r: AvlNode?)
      modifies v`left, v`right, {l}`prev, {r}`prev
      ensures v.left == if l != v then l else old(v.left)
      ensures v.right == if r != v then r else old(v.right)
      ensures l != null ==> l.prev == if l == v then old(v.prev) else v
      ensures r != null ==> r.prev == if r == v then old(v.prev) else v
    {
      if l != null && l != v {
        l.prev := v;
      }
      if l != v {
        v.left := l;
      }
      if r != null && r != v {
        r.prev := v;
      }
      if r != v {
        v.right := r;
      }
    }

    /** Exchange the places of `a` and its successor `b`, adjacent or not.  For a
        `b` that is the right child of another node than `a` the program would
        store the wrong parent; a successor never is. */
    method SwitchPointers(a: AvlNode, b: AvlNode)
      requires Known(a) && Known(b) && a != b && a.left != null && a.right != null && a.left != b && a.prev != a
      requires a.prev != b
      requires b.left == null && (a.right != b ==> b.prev != null && b.prev != a && b.prev.left == b)
      modifies this`root, repr`left, repr`right, repr`prev, repr`height
      ensures Link(a.left, a.right, a.prev) == SwapLink(a, b, Link(old(b.left), old(b.right), old(b.prev)))
      ensures Link(b.left, b.right, b.prev) == SwapLink(a, b, Link(old(a.left), old(a.right), old(a.prev)))
      ensures forall v :: v in repr && v != a && v != b ==> v.left == SwapRef(a, b, old(v.left))
      ensures forall v :: v in repr && v != a && v != b ==> v.right == SwapRef(a, b, old(v.right))
      ensures forall v :: v in repr && v != a && v != b ==> v.prev == SwapRef(a, b, old(v.prev))
      ensures root == SwapRef(a, b, old(root))
      ensures a.height == old(b.height) && b.height == old(a.height)
      ensures forall v :: v in repr && v != a && v != b ==> v.height == old(v.height)
    {
      var aDL, aDR, bDL, bDR := a.left, a.right, b.left, b.right;
      a.height, b.height := b.height, a.height;
      var aTL := if a.prev != null && a.prev.left == a then a.prev else null;
      var aTR := if a.prev != null && a.prev.left != a then a.prev else null;
      var bTL := if b.prev != null && b.prev.left == b then b.prev else null;
      var bTR := if b.prev != null && b.prev.left != b then b.prev else null;
      TakePlace(b, a, aTL, aTR);
      if bTR == a {
        a.prev := b;
        b.right := a;
      } else {
        TakePlace(a, b, bTL, bTR);
      }
      Adopt(b, aDL, aDR);
      Adopt(a, bDL, bDR);
    }

    /** What the tree says about a node with two children and its successor. */
    lemma Successor(c: Hole, l: Shape, a: AvlNode, d: Hole, b: AvlNode, r: Shape)
      requires l.Bin? && AllLeft(d) && Linked(WithSuccessor(c, l, a, d, b, r))
      ensures Known(a) && Known(b) && a != b && a.left != null && a.right != null && a.left != b && a.prev != a
      ensures a.prev != b
      ensures b.left == null && (a.right != b ==> b.prev != null && b.prev != a && b.prev.left == b)
    {
      var w, t, e := WithSuccessor(c, l, a, d, b, r), Bin(Nil, b, r), InRight(l, a, c);
      SwitchIsRelabel(c, l, a, d, b, r);
      FollowPlug(d, e, t);
      Focus(c, Bin(l, a, Plug(d, t)));
      Focus(Follow(d, e), t);
      Neighbours(w, a);
      Neighbours(w, b);
      TopOfPlug(d, t);
      PlugNodes(c, Bin(l, a, Plug(d, t)));
      PlugNodes(d, t);
      if d.InLeft? {
        Focus(Follow(d.up, e), Bin(t, d.node, d.right));
      }
    }

    /** Exchange a node that has two children with its successor. */
    method Switch(a: AvlNode, b: AvlNode, ghost c: Hole, ghost l: Shape, ghost d: Hole, ghost r: Shape)
      requires l.Bin? && AllLeft(d) && Linked(WithSuccessor(c, l, a, d, b, r))
      modifies this`root, repr`left, repr`right, repr`prev, repr`height
      ensures Linked(WithSuccessor(c, l, b, d, a, r))
      ensures a.height == old(b.height) && b.height == old(a.height)
      ensures forall v :: v in repr && v != a && v != b ==> v.height == old(v.height)
    {
      hide Links, Nodes, Distinct, Plug, WithSuccessor, Known, AllLeft;
      Successor(c, l, a, d, b, r);
      SwitchLinks(c, l, a, d, b, r);
      SwitchPointers(a, b);
    }

    /** The leftmost node of a subtree. */
    method FindMin(n: AvlNode, ghost c: Hole, ghost t: Shape) returns (m: AvlNode, ghost d: Hole, ghost r: Shape)
      requires t.Bin? && t.node == n && Linked(Plug(c, t))
      ensures AllLeft(d) && t == Plug(d, Bin(Nil, m, r))
    {
      m, d := n, Top;
      ghost var u := t;
      FollowPlug(d, c, u);
      Focus(c, u);
      while m.left != null
        invariant u.Bin? && u.node == m && t == Plug(d, u) && AllLeft(d)
        invariant m.left == TopOf(u.left)
        decreases u
      {
        m := m.left;
        d, u := InLeft(u.node, u.right, d), u.left;
        FollowPlug(d, c, u);
        Focus(Follow(d, c), u);
      }
      r := u.right;
    }

    /** Cut out a node with at most one child. */
    method CutOut(n: AvlNode, ghost c: Hole, ghost t: Shape) returns (rep: AvlNode?, par: AvlNode?)
      requires t.Bin? && t.node == n && (t.left.Nil? || t.right.Nil?) && Linked(Plug(c, t))
      modifies this`root, this`repr, repr`left, repr`right, repr`prev
      ensures Linked(Plug(c, OnlyChild(t))) && repr == old(repr) - {n}
      ensures rep == TopOf(OnlyChild(t)) && par == ParOf(c)
    {
      hide Links, Nodes, Distinct, Plug;
      Focus(c, t);
      CutLinks(c, t);
      rep := if n.left != null then n.left else n.right;
      par := n.prev;
      if rep == null {
        if par == null {
          root := null;
        } else if par.left == n {
          par.left := null;
        } else {
          par.right := null;
        }
      } else {
        if par == null {
          root := rep;
          rep.prev := null;
        } else {
          if par.left == n {
            par.left := rep;
          } else {
            par.right := rep;
          }
          rep.prev := par;
        }
      }
      repr := repr - {n};
    }

    // --------------------------------------------------------------- remove

    lemma {:induction false} Locate(c0: Hole, t: Shape, n: AvlNode) returns (c: Hole, u: Shape)
      requires n in Nodes(t)
      ensures Plug(c, u) == Plug(c0, t) && u.Bin? && u.node == n
      decreases t
    {
      if t.node == n {
        c, u := c0, t;
      } else if n in Nodes(t.left) {
        c, u := Locate(InLeft(t.node, t.right, c0), t.left, n);
      } else {
        c, u := Locate(InRight(t.left, t.node, c0), t.right, n);
      }
    }

    /** The subtree `u` in `h` is what a removal has left where `t0` stood; the
        heights are exact everywhere but on the way up. */
    ghost predicate Cut(h: Hole, t0: Shape, u: Shape)
      reads this`root, this`repr, repr`left, repr`right, repr`prev, repr`height
    {
      && Linked(Plug(h, u)) && Sides(h) + Nodes(u) <= repr && ExactAround(h) && Exact(u)
      && Balanced(Plug(h, t0)) && Shrunk(t0, u)
    }

    /** Cut out a node that has at most one child. */
    method UnlinkHere(n: AvlNode, ghost h: Hole, ghost t: Shape) returns (rep: AvlNode?, par: AvlNode?)
      requires t.Bin? && t.node == n && (t.left.Nil? || t.right.Nil?) && Linked(Plug(h, t))
      modifies this`root, this`repr, repr`left, repr`right, repr`prev
      ensures Linked(Plug(h, OnlyChild(t))) && repr == old(repr) - {n}
      ensures rep == TopOf(OnlyChild(t)) && par == ParOf(h)
      ensures View(OnlyChild(t)) == old(View(OnlyChild(t))) && ViewAround(h) == old(ViewAround(h))
      ensures old(ReadyToCut(h, t)) ==> Cut(h, t, OnlyChild(t))
    {
      hide Linked, Balanced, Shrunk, Plug;
      PlugApart(h, t);
      AroundIn(h, t);
      ghost var ready := ReadyToCut(h, t);
      rep, par := CutOut(n, h, t);
      PlugApart(h, OnlyChild(t));
    }

    /** The subtree of `t` without its top is balanced and exact. */
    ghost predicate ReadyToCut(h: Hole, t: Shape)
      requires t.Bin? && (t.left.Nil? || t.right.Nil?)
      reads Sides(h)`height, Nodes(OnlyChild(t))`height
    {
      ExactAround(h) && Exact(OnlyChild(t)) && Balanced(Plug(h, t)) && Shrunk(t, OnlyChild(t))
    }

    /** A node with at most one child is ready to be cut out. */
    lemma OneChild(c: Hole, t: Shape)
      requires Intact() && Plug(c, t) == tree && t.Bin? && (t.left.Nil? || t.right.Nil?)
      ensures t.node in repr && Around(c) + Nodes(t) <= repr
      ensures Ordered(Plug(c, OnlyChild(t))) && |InOrder(Plug(c, OnlyChild(t)))| == node_count - 1
      ensures TakenOut(ViewAround(c), View(t)) == (ViewAround(c), View(OnlyChild(t)))
      ensures Valid() ==> ReadyToCut(c, t)
    {
      PlugApart(c, t);
      PlugNodes(c, t);
      CutOrder(c, t);
      SizeIsLength(tree);
      if Valid() {
        ExactSplit(c, t);
        ExactParts(t);
        PlugParts(c, t);
      }
    }

    /** So is a node with two children once it has changed places with its
        successor. */
    lemma TwoChildren(c: Hole, l: Shape, a: AvlNode, d: Hole, b: AvlNode, r: Shape)
      requires Intact() && AllLeft(d) && WithSuccessor(c, l, a, d, b, r) == tree
      ensures Linked(WithSuccessor(c, l, a, d, b, r))
      ensures var h := Follow(d, InRight(l, b, c));
              && Plug(h, Bin(Nil, a, r)) == WithSuccessor(c, l, b, d, a, r)
              && Ordered(Plug(h, r)) && |InOrder(Plug(h, r))| == node_count - 1
              && a !in Sides(h) && b !in Sides(h) && a !in Nodes(r) && b !in Nodes(r) && Sides(h) + Nodes(r) <= repr
      ensures Valid() ==>
                var h := Follow(d, InRight(l, b, c));
                && ExactAround(h) && Exact(r) && Shrunk(Bin(Nil, a, r), r) && Balanced(Plug(h, Bin(Nil, a, r)))
    {
      hide Links, InOrder, Ordered, Balanced, Heights;
      var e, e' := InRight(l, a, c), InRight(l, b, c);
      FollowPlug(d, e, Bin(Nil, b, r));
      FollowPlug(d, e', Bin(Nil, a, r));
      FollowSides(d, e, e');
      SidesApart(c, l, a, d, b, r);
      SwitchedCutOrder(c, l, a, d, b, r);
      SizeIsLength(tree);
      if Valid() {
        PlugApart(Follow(d, e), Bin(Nil, b, r));
        ExactSplit(Follow(d, e), Bin(Nil, b, r));
        ExactParts(Bin(Nil, b, r));
        SwitchedCutBalance(c, l, a, d, b, r);
      }
    }

    /** In stored heights: what `TakenOut` makes of a node with two children. */
    lemma TakenTwo(c: Hole, l: Shape, a: AvlNode, d: Hole, b: AvlNode, r: Shape)
      requires Linked(WithSuccessor(c, l, a, d, b, r)) && AllLeft(d) && l.Bin?
      ensures var t := Bin(l, a, Plug(d, Bin(Nil, b, r)));
              TakenOut(ViewAround(c), View(t))
              == (Follow(ViewAround(d), InRight(View(l), Cell(b.id, a.height), ViewAround(c))), View(r))
      ensures a != b && {a, b} !! Around(d) && {a, b} !! Nodes(l) && {a, b} !! Around(c) && {a, b} !! Nodes(r)
      ensures {a, b} + Around(d) + Nodes(l) + Around(c) + Nodes(r) <= repr
    {
      var x := Bin(Nil, b, r);
      ViewPlug(d, x);
      ViewFollow(d, Top);
      LeftmostIs(Top, ViewAround(d), View(x));
      LeftmostIs(InRight(View(l), Cell(b.id, a.height), ViewAround(c)), ViewAround(d), View(x));
      PlugNodes(c, Bin(l, a, Plug(d, x)));
      PlugNodes(d, x);
    }

    lemma SwitchedView(c: Hole, l: Shape, b: AvlNode, d: Hole, r: Shape, height: nat)
      requires b.height == height
      ensures ViewAround(Follow(d, InRight(l, b, c)))
              == Follow(ViewAround(d), InRight(View(l), Cell(b.id, height), ViewAround(c)))
    {
      ViewFollow(d, InRight(l, b, c));
    }

    /** Take `n` out of the pointers, in any state: cut it out where it stands if
        it has at most one child, otherwise after changing places with its
        successor. */
    method Unlink(n: AvlNode)
      returns (rep: AvlNode?, par: AvlNode?, ghost p: Path, ghost v: Stored,
               ghost h: Hole, ghost t0: Shape, ghost u: Shape)
      requires Intact() && n in repr
      modifies this`root, this`repr, repr`left, repr`right, repr`prev, repr`height
      ensures Linked(Plug(h, u)) && repr == old(repr) - {n}
      ensures rep == TopOf(u) && par == ParOf(h)
      ensures Ordered(Plug(h, u)) && |InOrder(Plug(h, u))| == node_count - 1
      ensures Plug(p, v) == old(View(tree)) && v.Bin? && v.node.id == n.id
      ensures (ViewAround(h), View(u)) == TakenOut(p, v)
      ensures old(Valid()) ==> Cut(h, t0, u)
    {
      hide Intact, Valid, Linked, Known, Plug, Nodes, Exact, ExactAround, Balanced, Shrunk, InOrder, Ordered;
      hide AllLeft, Cut, Sides, TakenOut;
      ghost var c, t := Place(n);
      p, v := ViewAround(c), View(t);
      ViewPlug(c, t);
      if n.left == null || n.right == null {
        h, t0, u := c, t, OnlyChild(t);
        OneChild(c, t);
        rep, par := UnlinkHere(n, h, t0);
      } else {
        rep, par, h, t0, u := UnlinkTwo(n, c, t);
      }
    }

    method UnlinkTwo(n: AvlNode, ghost c: Hole, ghost t: Shape)
      returns (rep: AvlNode?, par: AvlNode?, ghost h: Hole, ghost t0: Shape, ghost u: Shape)
      requires Intact() && Plug(c, t) == tree && t.Bin? && t.node == n && CanRight(t) && CanLeft(t)
      requires n.right == TopOf(t.right) && Linked(Plug(InRight(t.left, n, c), t.right))
      modifies this`root, this`repr, repr`left, repr`right, repr`prev, repr`height
      ensures Linked(Plug(h, u)) && repr == old(repr) - {n}
      ensures rep == TopOf(u) && par == ParOf(h)
      ensures Ordered(Plug(h, u)) && |InOrder(Plug(h, u))| == node_count - 1
      ensures (ViewAround(h), View(u)) == TakenOut(old(ViewAround(c)), old(View(t)))
      ensures old(Valid()) ==> Cut(h, t0, u)
    {
      hide Intact, Valid, Linked, Known, Plug, Nodes, Exact, ExactAround, Balanced, Shrunk, InOrder, Ordered;
      hide AllLeft, Cut, Sides, TakenOut, View, ViewAround, Follow;
      ghost var d, r;
      var b;
      AroundInside(c, t);
      b, d, r := FindMin(n.right, InRight(t.left, n, c), t.right);
      ghost var l, height := t.left, n.height;
      TwoChildren(c, l, n, d, b, r);
      TakenTwo(c, l, n, d, b, r);
      h, t0, u := Follow(d, InRight(l, b, c)), Bin(Nil, n, r), r;
      Switch(n, b, c, l, d, r);
      SwitchedView(c, l, b, d, r, height);
      rep, par := UnlinkHere(n, h, t0);
    }

    lemma Place(n: AvlNode) returns (c: Hole, t: Shape)
      requires Intact() && n in repr
      ensures Plug(c, t) == tree && t.Bin? && t.node == n && Linked(Plug(c, t))
      ensures (t.left.Nil? || t.right.Nil?) == (n.left == null || n.right == null)
      ensures n.left == TopOf(t.left) && n.right == TopOf(t.right)
      ensures Linked(Plug(InRight(t.left, n, c), t.right))
    {
      c, t := Locate(Top, tree, n);
      Focus(c, t);
    }

    /** Where the climb starts: at the node that came up, or else at the parent. */
    lemma StartFall(h: Hole, t0: Shape, u: Shape) returns (c: Hole, t1: Shape, t: Shape)
      requires Cut(h, t0, u) && (TopOf(u) != null || ParOf(h) != null)
      ensures Falling(c, t1, t) && Plug(c, t) == Plug(h, u)
      ensures t.node == if TopOf(u) != null then TopOf(u) else ParOf(h)
    {
      PlugApart(h, u);
      if u.Bin? {
        c, t1, t := h, t0, u;
        ExactParts(u);
        ShrunkStays(t0, u);
      } else {
        t1, t := FallOnAt(h, t0, u);
        c := h.up;
      }
    }

    /** A removal has lowered the subtree `t` in `c`, where `t0` stood before;
        the heights are exact everywhere but on the way up from `t`. */
    ghost predicate Falling(c: Hole, t0: Shape, t: Shape)
      reads this`root, this`repr, repr`left, repr`right, repr`prev, repr`height
    {
      && Linked(Plug(c, t)) && Sides(c) + Nodes(t) <= repr && ExactAround(c)
      && t.Bin? && Exact(t.left) && Exact(t.right)
      && NearlyBalanced(t) && Balanced(Plug(c, t0)) && Shrunk(t0, RemoveFix(t))
    }

    /** One level of the climb after a removal, with one rotation case. */
    method RemoveStepIntended(pivot: AvlNode, ghost c: Hole, ghost t: Shape)
      requires t.Bin? && t.node == pivot && Linked(Plug(c, t)) && Exact(t.left) && Exact(t.right)
      modifies this`root, repr`left, repr`right, repr`prev, repr`height
      ensures Linked(Plug(c, RemoveFix(t))) && Nodes(RemoveFix(t)) == Nodes(t)
      ensures View(RemoveFix(t)) == OneCase(t, Redo(old(View(t))))
      ensures forall v :: v in repr && v !in Nodes(t) ==> v.height == old(v.height)
      ensures pivot.prev == if RemoveFix(t) == t then ParOf(c) else TopOf(RemoveFix(t))
    {
      hide Linked, Links, Heights, Exact, Distinct, Balanced, TurnRight, TurnLeft, TurnLeftRight, TurnRightLeft, Redo;
      Focus(c, t);
      HeightIsStored(t.left);
      HeightIsStored(t.right);
      var diff := GetDiff(pivot);
      SetHeight(pivot, t);
      if diff > 1 {
        LeftIsHeavy(pivot, c, t);
      } else if diff < -1 {
        RightIsHeavy(pivot, c, t);
      }
    }

    method LeftIsHeavy(pivot: AvlNode, ghost c: Hole, ghost t: Shape)
      requires t.Bin? && t.node == pivot && Linked(Plug(c, t)) && Exact(t.left) && Exact(t.right) && Diff(t) > 1
      modifies this`root, repr`left, repr`right, repr`prev, repr`height
      ensures Linked(Plug(c, RemoveFix(t))) && Nodes(RemoveFix(t)) == Nodes(t)
      ensures View(RemoveFix(t)) == OneCase(t, old(View(t)))
      ensures forall v :: v in repr && v !in Nodes(t) ==> v.height == old(v.height)
      ensures pivot.prev == TopOf(RemoveFix(t)) != null && RemoveFix(t) != t
    {
      hide Linked, Links, Heights, Exact, Distinct, Balanced, TurnRight, TurnLeft, TurnLeftRight, TurnRightLeft, Redo;
      Focus(c, t);
      SideDiffs(c, t);
      if GetDiff(pivot.left) >= 0 {
        RightAt(pivot, c, t);
      } else {
        LeftRightAt(pivot, c, t);
      }
    }

    method RightIsHeavy(pivot: AvlNode, ghost c: Hole, ghost t: Shape)
      requires t.Bin? && t.node == pivot && Linked(Plug(c, t)) && Exact(t.left) && Exact(t.right) && Diff(t) < -1
      modifies this`root, repr`left, repr`right, repr`prev, repr`height
      ensures Linked(Plug(c, RemoveFix(t))) && Nodes(RemoveFix(t)) == Nodes(t)
      ensures View(RemoveFix(t)) == OneCase(t, old(View(t)))
      ensures forall v :: v in repr && v !in Nodes(t) ==> v.height == old(v.height)
      ensures pivot.prev == TopOf(RemoveFix(t)) != null && RemoveFix(t) != t
    {
      hide Linked, Links, Heights, Exact, Distinct, Balanced, TurnRight, TurnLeft, TurnLeftRight, TurnRightLeft, Redo;
      Focus(c, t);
      SideDiffs(c, t);
      if GetDiff(pivot.right) <= 0 {
        LeftAt(pivot, c, t);
      } else {
        RightLeftAt(pivot, c, t);
      }
    }

    /** The stored heights `s` of `t` after the rotation of `RemoveFix`. */
    static ghost function OneCase(t: Shape, s: Stored): Stored
      requires t.Bin? && s.Bin? && (CanRight(t) ==> CanRight(s)) && (CanLeft(t) ==> CanLeft(s))
      requires (CanLeft(t.left) ==> CanLeft(s.left)) && (CanRight(t.right) ==> CanRight(s.right))
    {
      if Diff(t) > 1 then if Diff(t.left) >= 0 then TurnRight(s) else TurnLeftRight(s)
      else if Diff(t) < -1 then if Diff(t.right) <= 0 then TurnLeft(s) else TurnRightLeft(s)
      else s
    }

    /** That rotation keeps exact heights exact. */
    static lemma CaseIsExact(t: Shape, s: Stored)
      requires t.Bin? && Distinct(t) && Exact(t.left) && Exact(t.right) && s == View(t)
      ensures Stale(OneCase(t, Redo(s))) == 0
    {
      ExactIsFresh(t.left);
      ExactIsFresh(t.right);
      StaleParts(s);
      TurnsFresh(Redo(s));
    }

    /** The differences stored in a node's children. */
    lemma SideDiffs(c: Hole, t: Shape)
      requires t.Bin? && Linked(Plug(c, t))
      ensures Exact(t.left) ==> GetDiff(t.node.left) == Diff(t.left)
      ensures Exact(t.right) ==> GetDiff(t.node.right) == Diff(t.right)
    {
      Focus(c, t);
      if t.left.Bin? {
        Focus(InLeft(t.node, t.right, c), t.left);
        DiffIsStored(t.left);
      }
      if t.right.Bin? {
        Focus(InRight(t.left, t.node, c), t.right);
        DiffIsStored(t.right);
      }
    }

    static lemma DiffIsStored(t: Shape)
      requires t.Bin? && Distinct(t) && t.node.left == TopOf(t.left) && t.node.right == TopOf(t.right)
      ensures Exact(t) ==> GetDiff(t.node) == Diff(t)
    {
      if Exact(t) {
        ExactParts(t);
        HeightIsStored(t.left);
        HeightIsStored(t.right);
      }
    }

    /** One level up: the lowered subtree stands in its parent's tree. */
    lemma FallOnAt(c: Hole, t0: Shape, u: Shape) returns (t1: Shape, t: Shape)
      requires !c.Top? && Linked(Plug(c, u)) && Exact(u) && ExactAround(c)
      requires Shrunk(t0, u) && Balanced(Plug(c, t0))
      ensures Plug(c.up, t) == Plug(c, u) && t.Bin? && t.node == c.node
      ensures Falling(c.up, t1, t)
    {
      PlugApart(c, u);
      SidesParts(c);
      if c.InLeft? {
        t1, t := Bin(t0, c.node, c.right), Bin(u, c.node, c.right);
        FallOn(t0, u, c.node, c.right);
      } else {
        t1, t := Bin(c.left, c.node, t0), Bin(c.left, c.node, u);
        FallOn(t0, u, c.node, c.left);
      }
      PlugParts(c.up, t1);
      PlugApart(c.up, t);
    }

    /** The climb after a removal. */
    method RemoveBalance(start: AvlNode, ghost c0: Hole, ghost old0: Shape, ghost new0: Shape) returns (ghost w: Shape)
      requires Falling(c0, old0, new0) && new0.node == start
      modifies this`root, repr`left, repr`right, repr`prev, repr`height
      ensures Linked(w) && Exact(w) && Balanced(w) && InOrder(w) == InOrder(Plug(c0, new0))
    {
      hide Linked, InOrder, Balanced, Shrunk;
      var pivot: AvlNode? := start;
      var brk := true;
      ghost var c, t0, t := c0, old0, new0;
      while brk
        invariant InOrder(Plug(c, t)) == InOrder(Plug(c0, new0))
        invariant brk ==> Falling(c, t0, t) && pivot == t.node
        invariant !brk ==> c.Top? && Linked(t) && Exact(t) && Balanced(t)
        modifies this`root, repr`left, repr`right, repr`prev, repr`height
        decreases brk, Depth(c), RemoveFix(t) != t
      {
        Focus(c, t);
        PlugApart(c, t);
        if pivot == root {
          brk := false;
        }
        ghost var u := RemoveFix(t);
        CaseIsExact(t, View(t));
        RemoveStepIntended(pivot, c, t);
        Focus(c, u);
        ExactIsFresh(u);
        pivot := pivot.prev;
        RemoveFixKeepsOrder(t);
        SameInOrder(c, t, u);
        ShrunkStays(t0, u);
        PlugApart(c, u);
        if c.Top? {
          t := u;
        } else if u != t {
          ExactParts(u);
          t := u;
        } else {
          t0, t := FallOnAt(c, t0, u);
          c := c.up;
        }
      }
      w := t;
    }

    /** Remove a node with one rotation case per level; of the only node the
        climb would start at a null pointer. */
    method Remove(n: AvlNode) returns (ok: bool)
      requires Valid() && n in repr
      modifies this, repr
      ensures repr == old(repr) - {n} && node_count == old(node_count) - 1
      ensures ok <==> old(node_count) > 1
      ensures ok ==> Valid()
    {
      hide *;
      ghost var p, v, h, s, u;
      var rep, par;
      WasIntact();
      rep, par, p, v, h, s, u := Unlink(n);
      CountLeft(h, u);
      node_count := node_count - 1;
      tree := Plug(h, u);
      ok := rep != null || par != null;
      if ok {
        ghost var c, t1, t := StartFall(h, s, u);
        tree := RemoveBalance(if rep != null then rep else par, c, t1, t);
        Keeps(Plug(h, u));
      }
    }

    /** Nothing came up and there is no parent exactly when no node is left. */
    lemma CountLeft(h: Hole, u: Shape)
      requires Linked(Plug(h, u)) && |InOrder(Plug(h, u))| == node_count - 1
      ensures TopOf(u) == null && ParOf(h) == null <==> node_count == 1
    {
      SizeIsLength(Plug(h, u));
      PlugSize(h, u);
    }

    // ------------------------------------------- the climb as it is written

    /** The children of the pivot and the differences stored in them. */
    lemma SideLeans(c: Hole, t: Shape)
      requires t.Bin? && Linked(Plug(c, t))
      ensures t.node.left == TopOf(t.left) && t.node.right == TopOf(t.right)
      ensures GetDiff(t.node) == Lean(View(t))
      ensures GetDiff(t.node.left) == Lean(View(t.left)) && GetDiff(t.node.right) == Lean(View(t.right))
      ensures GetDiff(t.node.left) < 0 ==> CanLeft(t.left)
      ensures GetDiff(t.node.right) > 0 ==> CanRight(t.right)
    {
      Focus(c, t);
      Grandchildren(c, t);
      hide Linked, Links;
      LeanIsStored(t);
      if t.left.Bin? {
        LeanIsStored(t.left);
      }
      if t.right.Bin? {
        LeanIsStored(t.right);
      }
    }

    static lemma LeanIsStored(t: Shape)
      requires t.Bin? && t.node.left == TopOf(t.left) && t.node.right == TopOf(t.right)
      ensures GetDiff(t.node) == Lean(View(t))
      ensures GetDiff(t.node) < 0 ==> CanLeft(t)
      ensures GetDiff(t.node) > 0 ==> CanRight(t)
    {
    }

    /** Where the pivot's parent is after a pass. */
    static ghost function Above(c: Hole, r: Turned, u: Shape): AvlNode? {
      if r.Kept? then ParOf(c)
      else if r.TwiceRight? && u.Bin? then TopOf(u.right)
      else if r.TwiceLeft? && u.Bin? then TopOf(u.left)
      else TopOf(u)
    }

    /** One test: a right rotation if the left child does not lean right. */
    method RightTest(pivot: AvlNode, ghost c: Hole, ghost t: Shape) returns (ghost u: Shape)
      requires t.Bin? && t.node == pivot && Linked(Plug(c, t)) && t.left.Bin?
      modifies this`root, repr`left, repr`right, repr`prev, repr`height
      ensures Linked(Plug(c, u)) && InOrder(u) == InOrder(t) && Nodes(u) == Nodes(t)
      ensures u == if Lean(old(View(t)).left) >= 0 then RotRight(t) else t
      ensures View(u) == if Lean(old(View(t)).left) >= 0 then TurnRight(old(View(t))) else old(View(t))
      ensures pivot.prev == if Lean(old(View(t)).left) >= 0 then TopOf(u) else old(pivot.prev)
      ensures forall v :: v in repr && v !in Nodes(t) ==> v.height == old(v.height)
    {
      hide Linked, Links, Heights, InOrder, Exact, TurnRight;
      SideLeans(c, t);
      RotationsKeepOrder(t);
      u := t;
      if GetDiff(pivot.left) >= 0 {
        RightAt(pivot, c, t);
        u := RotRight(t);
      }
    }

    /** The next test: a double rotation if the left child leans right. */
    method LeftRightTest(pivot: AvlNode, ghost c: Hole, ghost t: Shape) returns (ghost u: Shape)
      requires t.Bin? && t.node == pivot && Linked(Plug(c, t))
      modifies this`root, repr`left, repr`right, repr`prev, repr`height
      ensures Linked(Plug(c, u)) && InOrder(u) == InOrder(t) && Nodes(u) == Nodes(t)
      ensures Lean(old(View(t)).left) < 0 ==> CanLeft(t.left)
      ensures u == if Lean(old(View(t)).left) < 0 then RotLeftRight(t) else t
      ensures View(u) == if Lean(old(View(t)).left) < 0 then TurnLeftRight(old(View(t))) else old(View(t))
      ensures pivot.prev == if Lean(old(View(t)).left) < 0 then TopOf(u) else old(pivot.prev)
      ensures forall v :: v in repr && v !in Nodes(t) ==> v.height == old(v.height)
    {
      hide Linked, Links, Heights, InOrder, Exact, TurnLeftRight;
      SideLeans(c, t);
      DoubleRotationsKeepOrder(t);
      u := t;
      if GetDiff(pivot.left) < 0 {
        LeftRightAt(pivot, c, t);
        u := RotLeftRight(t);
      }
    }

    method LeftTest(pivot: AvlNode, ghost c: Hole, ghost t: Shape) returns (ghost u: Shape)
      requires t.Bin? && t.node == pivot && Linked(Plug(c, t)) && t.right.Bin?
      modifies this`root, repr`left, repr`right, repr`prev, repr`height
      ensures Linked(Plug(c, u)) && InOrder(u) == InOrder(t) && Nodes(u) == Nodes(t)
      ensures u == if Lean(old(View(t)).right) <= 0 then RotLeft(t) else t
      ensures View(u) == if Lean(old(View(t)).right) <= 0 then TurnLeft(old(View(t))) else old(View(t))
      ensures pivot.prev == if Lean(old(View(t)).right) <= 0 then TopOf(u) else old(pivot.prev)
      ensures forall v :: v in repr && v !in Nodes(t) ==> v.height == old(v.height)
    {
      hide Linked, Links, Heights, InOrder, Exact, TurnLeft;
      SideLeans(c, t);
      RotationsKeepOrder(t);
      u := t;
      if GetDiff(pivot.right) <= 0 {
        LeftAt(pivot, c, t);
        u := RotLeft(t);
      }
    }

    method RightLeftTest(pivot: AvlNode, ghost c: Hole, ghost t: Shape) returns (ghost u: Shape)
      requires t.Bin? && t.node == pivot && Linked(Plug(c, t))
      modifies this`root, repr`left, repr`right, repr`prev, repr`height
      ensures Linked(Plug(c, u)) && InOrder(u) == InOrder(t) && Nodes(u) == Nodes(t)
      ensures Lean(old(View(t)).right) > 0 ==> CanRight(t.right)
      ensures u == if Lean(old(View(t)).right) > 0 then RotRightLeft(t) else t
      ensures View(u) == if Lean(old(View(t)).right) > 0 then TurnRightLeft(old(View(t))) else old(View(t))
      ensures pivot.prev == if Lean(old(View(t)).right) > 0 then TopOf(u) else old(pivot.prev)
      ensures forall v :: v in repr && v !in Nodes(t) ==> v.height == old(v.height)
    {
      hide Linked, Links, Heights, InOrder, Exact, TurnRightLeft;
      SideLeans(c, t);
      DoubleRotationsKeepOrder(t);
      u := t;
      if GetDiff(pivot.right) > 0 {
        RightLeftAt(pivot, c, t);
        u := RotRightLeft(t);
      }
    }

    static lemma LeftHeavyOutcome(s: Stored)
      requires s.Bin? && s == Redo(s) && Lean(s) > 1
      ensures CanRight(s)
      ensures Lean(s.left) < 0 ==> CanLeft(s.left) && RemoveTests(s) == Once(TurnLeftRight(s))
      ensures Lean(s.left) >= 0 ==>
                var u := TurnRight(s);
                && u.Bin? && u.right.Bin?
                && (Lean(u.right.left) >= 0 ==> RemoveTests(s) == Once(u))
                && (Lean(u.right.left) < 0 ==>
                      CanLeft(u.right.left) && RemoveTests(s) == TwiceRight(u.(right := TurnLeftRight(u.right))))
    {
    }

    static lemma RightHeavyOutcome(s: Stored)
      requires s.Bin? && s == Redo(s) && Lean(s) < -1
      ensures CanLeft(s)
      ensures Lean(s.right) > 0 ==> CanRight(s.right) && RemoveTests(s) == Once(TurnRightLeft(s))
      ensures Lean(s.right) <= 0 ==>
                var u := TurnLeft(s);
                && u.Bin? && u.left.Bin?
                && (Lean(u.left.right) <= 0 ==> RemoveTests(s) == Once(u))
                && (Lean(u.left.right) > 0 ==>
                      CanRight(u.left.right) && RemoveTests(s) == TwiceLeft(u.(left := TurnRightLeft(u.left))))
    {
    }

    /** The subtree after the second test has changed its right part, if the
        first one fired, or else itself. */
    lemma AssembledRight(c: Hole, u: Shape, w: Shape, turned: bool) returns (x: Shape)
      requires u.Bin?
      requires !turned ==> Linked(Plug(c, w)) && Nodes(w) == Nodes(u) && InOrder(w) == InOrder(u)
      requires turned ==>
                 && Linked(Plug(InRight(u.left, u.node, c), w))
                 && InOrder(w) == InOrder(u.right) && Nodes(w) == Nodes(u.right)
      ensures x == if turned then Bin(u.left, u.node, w) else w
      ensures Linked(Plug(c, x)) && Nodes(x) == Nodes(u) && InOrder(x) == InOrder(u)
      ensures View(x) == if turned then Bin(View(u.left), Cell(u.node.id, u.node.height), View(w)) else View(w)
      ensures x.Bin?
      ensures turned ==> TopOf(x.right) == TopOf(w) && TopOf(x) == u.node
    {
      assert u.node in Nodes(u);
      x := if turned then u.(right := w) else w;
      if turned {
        SameOnRight(u, w);
      }
    }

    lemma AssembledLeft(c: Hole, u: Shape, w: Shape, turned: bool) returns (x: Shape)
      requires u.Bin?
      requires !turned ==> Linked(Plug(c, w)) && Nodes(w) == Nodes(u) && InOrder(w) == InOrder(u)
      requires turned ==>
                 && Linked(Plug(InLeft(u.node, u.right, c), w))
                 && InOrder(w) == InOrder(u.left) && Nodes(w) == Nodes(u.left)
      ensures x == if turned then Bin(w, u.node, u.right) else w
      ensures Linked(Plug(c, x)) && Nodes(x) == Nodes(u) && InOrder(x) == InOrder(u)
      ensures View(x) == if turned then Bin(View(w), Cell(u.node.id, u.node.height), View(u.right)) else View(w)
      ensures x.Bin?
      ensures turned ==> TopOf(x.left) == TopOf(w) && TopOf(x) == u.node
    {
      assert u.node in Nodes(u);
      x := if turned then u.(left := w) else w;
      if turned {
        SameOnLeft(u, w);
      }
    }

    /** Where the second test looks. */
    lemma NextRight(c: Hole, u: Shape, turned: bool) returns (d: Hole, v: Shape)
      requires u.Bin? && Linked(Plug(c, u)) && (turned ==> u.right.Bin?)
      ensures if turned then d == InRight(u.left, u.node, c) && v == u.right else d == c && v == u
      ensures Linked(Plug(d, v)) && v.Bin? && Nodes(v) <= Nodes(u) <= repr
      ensures turned ==> u.node !in Nodes(v) && Nodes(u.left) !! Nodes(v) && Nodes(u.left) <= repr && u.node in repr
      ensures View(v) == if turned then View(u).right else View(u)
      ensures View(u) == Bin(View(u.left), Cell(u.node.id, u.node.height), View(u.right))
    {
      Focus(c, u);
      d, v := if turned then InRight(u.left, u.node, c) else c, if turned then u.right else u;
    }

    lemma NextLeft(c: Hole, u: Shape, turned: bool) returns (d: Hole, v: Shape)
      requires u.Bin? && Linked(Plug(c, u)) && (turned ==> u.left.Bin?)
      ensures if turned then d == InLeft(u.node, u.right, c) && v == u.left else d == c && v == u
      ensures Linked(Plug(d, v)) && v.Bin? && Nodes(v) <= Nodes(u) <= repr
      ensures turned ==> u.node !in Nodes(v) && Nodes(u.right) !! Nodes(v) && Nodes(u.right) <= repr && u.node in repr
      ensures View(v) == if turned then View(u).left else View(u)
      ensures View(u) == Bin(View(u.left), Cell(u.node.id, u.node.height), View(u.right))
    {
      Focus(c, u);
      d, v := if turned then InLeft(u.node, u.right, c) else c, if turned then u.left else u;
    }

    /** The second test of a left-heavy level, where the first one has left the pivot. */
    method SecondRight(pivot: AvlNode, ghost c: Hole, ghost u: Shape, ghost turned: bool) returns (ghost x: Shape)
      requires u.Bin? && Linked(Plug(c, u)) && (turned ==> u.right.Bin?)
      requires pivot == if turned then u.right.node else u.node
      modifies this`root, repr`left, repr`right, repr`prev, repr`height
      ensures Linked(Plug(c, x)) && InOrder(x) == InOrder(u) && Nodes(x) == Nodes(u) && x.Bin?
      ensures var s := if turned then old(View(u)).right else old(View(u));
              if Lean(s.left) < 0 then
                && CanLeft(s.left) && pivot.prev == (if turned then TopOf(x.right) else TopOf(x))
                && View(x) == if turned then old(View(u)).(right := TurnLeftRight(s)) else TurnLeftRight(s)
              else View(x) == old(View(u)) && TopOf(x) == TopOf(u) && pivot.prev == old(pivot.prev)
      ensures forall v :: v in repr && v !in Nodes(u) ==> v.height == old(v.height)
    {
      hide Linked, Links, InOrder, Nodes, Plug, View, TurnLeftRight, Lean, RotLeftRight;
      ghost var d, v := NextRight(c, u, turned);
      ghost var w := LeftRightTest(pivot, d, v);
      x := AssembledRight(c, u, w, turned);
    }

    /** The second test of a right-heavy level, where the first one has left the pivot. */
    method SecondLeft(pivot: AvlNode, ghost c: Hole, ghost u: Shape, ghost turned: bool) returns (ghost x: Shape)
      requires u.Bin? && Linked(Plug(c, u)) && (turned ==> u.left.Bin?)
      requires pivot == if turned then u.left.node else u.node
      modifies this`root, repr`left, repr`right, repr`prev, repr`height
      ensures Linked(Plug(c, x)) && InOrder(x) == InOrder(u) && Nodes(x) == Nodes(u) && x.Bin?
      ensures var s := if turned then old(View(u)).left else old(View(u));
              if Lean(s.right) > 0 then
                && CanRight(s.right) && pivot.prev == (if turned then TopOf(x.left) else TopOf(x))
                && View(x) == if turned then old(View(u)).(left := TurnRightLeft(s)) else TurnRightLeft(s)
              else View(x) == old(View(u)) && TopOf(x) == TopOf(u) && pivot.prev == old(pivot.prev)
      ensures forall v :: v in repr && v !in Nodes(u) ==> v.height == old(v.height)
    {
      hide Linked, Links, InOrder, Nodes, Plug, View, TurnRightLeft, Lean, RotRightLeft;
      ghost var d, v := NextLeft(c, u, turned);
      ghost var w := RightLeftTest(pivot, d, v);
      x := AssembledLeft(c, u, w, turned);
    }

    /** The two tests of a left-heavy level, made one after the other. */
    method LeftHeavyTests(pivot: AvlNode, ghost c: Hole, ghost t: Shape) returns (ghost x: Shape)
      requires t.Bin? && t.node == pivot && Linked(Plug(c, t)) && Lean(View(t)) > 1 && View(t) == Redo(View(t))
      modifies this`root, repr`left, repr`right, repr`prev, repr`height
      ensures Linked(Plug(c, x)) && InOrder(x) == InOrder(t) && Nodes(x) == Nodes(t) && x.Bin?
      ensures var r := RemoveTests(old(View(t)));
              && View(x) == r.t && (r.Once? || r.TwiceRight?)
              && pivot.prev == if r.Once? then TopOf(x) else TopOf(x.right)
      ensures forall v :: v in repr && v !in Nodes(t) ==> v.height == old(v.height)
    {
      LeftHeavyOutcome(View(t));
      hide *;
      ghost var turned := Lean(View(t).left) >= 0;
      ghost var u := RightTest(pivot, c, t);
      x := SecondRight(pivot, c, u, turned);
    }

    /** The two tests of a right-heavy level. */
    method RightHeavyTests(pivot: AvlNode, ghost c: Hole, ghost t: Shape) returns (ghost x: Shape)
      requires t.Bin? && t.node == pivot && Linked(Plug(c, t)) && Lean(View(t)) < -1 && View(t) == Redo(View(t))
      modifies this`root, repr`left, repr`right, repr`prev, repr`height
      ensures Linked(Plug(c, x)) && InOrder(x) == InOrder(t) && Nodes(x) == Nodes(t) && x.Bin?
      ensures var r := RemoveTests(old(View(t)));
              && View(x) == r.t && (r.Once? || r.TwiceLeft?)
              && pivot.prev == if r.Once? then TopOf(x) else TopOf(x.left)
      ensures forall v :: v in repr && v !in Nodes(t) ==> v.height == old(v.height)
    {
      RightHeavyOutcome(View(t));
      hide *;
      ghost var turned := Lean(View(t).right) <= 0;
      ghost var u := LeftTest(pivot, c, t);
      x := SecondLeft(pivot, c, u, turned);
    }

    static lemma TestsOfRedo(v: Stored)
      requires v.Bin?
      ensures var s := Redo(v);
              && s.Bin? && Redo(s) == s && RemoveTests(s) == RemoveTests(v) && Lean(s) == Lean(v)
              && (-1 <= Lean(v) <= 1 ==> RemoveTests(v) == Kept(s))
    {
    }

    /** One level of the climb after a removal with all four tests made in turn,
        whatever the stored heights are. */
    method RemoveStepAsWritten(pivot: AvlNode, ghost c: Hole, ghost t: Shape) returns (ghost u: Shape)
      requires t.Bin? && t.node == pivot && Linked(Plug(c, t))
      modifies this`root, repr`left, repr`right, repr`prev, repr`height
      ensures Linked(Plug(c, u)) && InOrder(u) == InOrder(t) && Nodes(u) == Nodes(t)
      ensures var r := RemoveTests(old(View(t))); View(u) == r.t && (r.Kept? ==> u == t) && pivot.prev == Above(c, r, u)
      ensures forall v :: v in repr && v !in Nodes(t) ==> v.height == old(v.height)
    {
      hide Linked, Links, InOrder, RemoveTests, Redo;
      Focus(c, t);
      SideLeans(c, t);
      TestsOfRedo(View(t));
      var diff := GetDiff(pivot);
      SetHeight(pivot, t);
      u := t;
      if diff > 1 {
        u := LeftHeavyTests(pivot, c, t);
      }
      if diff < -1 {
        u := RightHeavyTests(pivot, c, t);
      }
    }

    /** A level of the climb, and where it goes on. */
    method RemovePass(pivot: AvlNode, ghost c: Hole, ghost t: Shape) returns (ghost c': Hole, ghost t': Shape)
      requires t.Bin? && t.node == pivot && Linked(Plug(c, t))
      modifies this`root, repr`left, repr`right, repr`prev, repr`height
      ensures Linked(Plug(c', t')) && InOrder(Plug(c', t')) == InOrder(Plug(c, t))
      ensures Onward(old(ViewAround(c)), RemoveTests(old(View(t))))
              == if c.Top? then Over(View(Plug(c', t'))) else At(ViewAround(c'), View(t'))
      ensures !c.Top? ==> t'.Bin? && pivot.prev == t'.node
    {
      hide Linked, InOrder, RemoveTests, Plug, Links, Nodes;
      AroundIn(c, t);
      ghost var r := RemoveTests(View(t));
      ghost var u := RemoveStepAsWritten(pivot, c, t);
      SameInOrder(c, t, u);
      c', t' := GoOn(c, u, r);
      PlugTop(t');
    }

    lemma GoOn(c: Hole, u: Shape, r: Turned) returns (c': Hole, t: Shape)
      requires !r.Stuck? && r.t.Bin? && (r.TwiceRight? ==> r.t.right.Bin?) && (r.TwiceLeft? ==> r.t.left.Bin?)
      requires View(u) == r.t
      ensures Plug(c', t) == Plug(c, u) && t.Bin?
      ensures if c.Top? then c' == Top && t == u else Onward(ViewAround(c), r) == At(ViewAround(c'), View(t))
      ensures !c.Top? ==> t.node == Above(c, r, u)
    {
      if c.Top? || r.Once? {
        c', t := c, u;
      } else if r.Kept? {
        c', t := c.up, Hang(c, u);
      } else if r.TwiceRight? {
        c', t := InRight(u.left, u.node, c), u.right;
      } else {
        c', t := InLeft(u.node, u.right, c), u.left;
      }
    }

    /** The climb as it is written, from any node in any state.  It ends, never
        follows a null pointer, and keeps the nodes, their order and the agreement
        of parent and child pointers; it is that of `RemoveRun`. */
    method RemoveBalanceAsWritten(start: AvlNode, ghost c0: Hole, ghost t0: Shape)
      returns (ghost w: Shape, ghost k: nat)
      requires t0.Bin? && t0.node == start && Linked(Plug(c0, t0))
      modifies this`root, repr`left, repr`right, repr`prev, repr`height
      ensures Linked(w) && InOrder(w) == InOrder(Plug(c0, t0))
      ensures RemoveRun(At(old(ViewAround(c0)), old(View(t0))), k) == Over(View(w))
    {
      hide Linked, InOrder, RemoveTests, Plug, Links, Nodes, View, ViewAround, RemoveRun;
      var pivot: AvlNode? := start;
      var brk := true;
      ghost var c, t, r := c0, t0, View(t0);
      k, r := RemoveEnds(ViewAround(c), View(t));
      k := k + 1;
      ghost var n, end := k, RemoveRun(At(ViewAround(c), View(t)), k);
      while brk
        invariant Linked(Plug(c, t)) && InOrder(Plug(c, t)) == InOrder(Plug(c0, t0)) && end.Over?
        invariant brk ==> t.Bin? && pivot == t.node && RemoveRun(At(ViewAround(c), View(t)), n) == end
        invariant !brk ==> end == Over(View(Plug(c, t)))
        modifies this`root, repr`left, repr`right, repr`prev, repr`height
        decreases brk, n
      {
        Focus(c, t);
        if pivot == root {
          brk := false;
        }
        RemoveRunOn(At(ViewAround(c), View(t)), n);
        c, t := RemovePass(pivot, c, t);
        n := n - 1;
        if !brk {
          RemoveRunStays(Over(View(Plug(c, t))), n);
        }
        pivot := pivot.prev;
      }
      w := Plug(c, t);
    }

    static lemma RemoveRunOn(s: Climb, n: nat)
      requires Going(s) && RemoveRun(s, n).Over?
      ensures n > 0 && RemoveRun(s, n) == RemoveRun(Onward(s.c, RemoveTests(s.t)), n - 1)
    {
    }

    static lemma RemoveRunStays(s: Climb, n: nat)
      requires s.Over?
      ensures RemoveRun(s, n) == s
    {
    }

    /** Remove a node as it is written, in any state: the node is gone, order and
        pointers are kept, and the climb is that of `RemoveRun` from where
        `TakenOut` says.  Only for the only node does it start at a null pointer.
        A valid index is valid again exactly if what stands beside the way up says so. */
    method RemoveAsWritten(n: AvlNode) returns (ok: bool, ghost p: Path, ghost v: Stored, ghost k: nat)
      requires Intact() && n in repr
      modifies this, repr
      ensures Intact() && repr == old(repr) - {n} && node_count == old(node_count) - 1
      ensures Plug(p, v) == old(View(tree)) && v.Bin? && v.node.id == n.id
      ensures ok <==> old(node_count) > 1
      ensures var (h, u) := TakenOut(p, v);
              RemoveRun(RemoveStart(h, u), k) == if ok then Over(View(tree)) else Null
      ensures var (h, u) := TakenOut(p, v);
              old(Valid()) ==> (Valid() <==> StaysExact(h, Mark(u)) && StaysBalanced(h, Mark(u)))
    {
      hide *;
      ghost var h, s, u;
      ghost var w0, was := View(tree), Valid();
      ValidInHeights();
      var rep, par;
      rep, par, p, v, h, s, u := Unlink(n);
      CountLeft(h, u);
      node_count := node_count - 1;
      tree := Plug(h, u);
      ok := rep != null || par != null;
      k := 0;
      ghost var c1, t1 := StartClimb(h, u, ok);
      if ok {
        tree, k := RemoveBalanceAsWritten(if rep != null then rep else par, c1, t1);
      }
      Keeps(Plug(h, u));
      ValidInHeights();
      if was {
        Rejoins(w0, p, v, ok, k);
      }
    }

    /** Whether a valid index is valid again, read off before the removal. */
    lemma Rejoins(w0: Stored, p: Path, v: Stored, ok: bool, k: nat)
      requires Intact() && Stale(w0) == 0 && Balanced(Ids(w0)) && Plug(p, v) == w0 && v.Bin?
      requires var (h, u) := TakenOut(p, v);
               RemoveRun(RemoveStart(h, u), k) == if ok then Over(View(tree)) else Null
      requires !ok ==> k == 0 && node_count == 0
      ensures var (h, u) := TakenOut(p, v);
              Stale(View(tree)) == 0 && Balanced(Ids(View(tree)))
              <==> StaysExact(h, Mark(u)) && StaysBalanced(h, Mark(u))
    {
      var (h, u) := TakenOut(p, v);
      if ok {
        RemovalStaysExactly(p, v, k, View(tree));
      } else {
        SizeIsLength(tree);
      }
    }

    lemma StartClimb(h: Hole, u: Shape, ok: bool) returns (c: Hole, t: Shape)
      requires Linked(Plug(h, u)) && (ok <==> TopOf(u) != null || ParOf(h) != null)
      ensures ok ==> Plug(c, t) == Plug(h, u) && t.Bin? && t.node == if TopOf(u) != null then TopOf(u) else ParOf(h)
      ensures Around(h) + Nodes(u) <= repr && Around(c) + Nodes(t) <= repr
      ensures RemoveStart(ViewAround(h), View(u)) == if ok then At(ViewAround(c), View(t)) else Null
      ensures RemoveRun(Null, 0) == Null
    {
      PlugNodes(h, u);
      if u.Nil? && !h.Top? {
        c, t := h.up, Hang(h, u);
        PlugNodes(c, t);
      } else {
        c, t := h, u;
      }
    }
  }
}
