/** Binary trees, positions inside them, and balance. */
module AvlTree {

  // Apart from the heap; `AvlIndex` carries the balancing out on linked nodes.

  datatype Tree<T> = Nil | Bin(left: Tree<T>, node: T, right: Tree<T>)

  function Max(a: int, b: int): int { if a > b then a else b }

  function Height<T>(t: Tree<T>): nat {
    match t
    case Nil => 0
    case Bin(l, _, r) => Max(Height(l), Height(r)) + 1
  }

  /** Left height minus right height. */
  function Diff<T>(t: Tree<T>): int {
    match t
    case Nil => 0
    case Bin(l, _, r) => Height(l) - Height(r)
  }

  ghost predicate Balanced<T>(t: Tree<T>) {
    match t
    case Nil => true
    case Bin(l, _, r) => -1 <= Diff(t) <= 1 && Balanced(l) && Balanced(r)
  }

  ghost function InOrder<T>(t: Tree<T>): seq<T> {
    match t
    case Nil => []
    case Bin(l, n, r) => InOrder(l) + [n] + InOrder(r)
  }

  ghost function Size<T>(t: Tree<T>): nat {
    match t
    case Nil => 0
    case Bin(l, _, r) => Size(l) + 1 + Size(r)
  }

  lemma SizeIsLength<T>(t: Tree<T>)
    ensures Size(t) == |InOrder(t)|
  {
  }

  // ------------------------------------------------------------- positions

  /** The way from a subtree up to the root: what is left when it is cut out. */
  datatype Ctx<T> = Top | InLeft(node: T, right: Tree<T>, up: Ctx<T>) | InRight(left: Tree<T>, node: T, up: Ctx<T>)

  ghost function Plug<T>(c: Ctx<T>, t: Tree<T>): Tree<T> {
    match c
    case Top => t
    case InLeft(n, r, up) => Plug(up, Bin(t, n, r))
    case InRight(l, n, up) => Plug(up, Bin(l, n, t))
  }

  ghost function Depth<T>(c: Ctx<T>): nat {
    match c
    case Top => 0
    case InLeft(_, _, up) => Depth(up) + 1
    case InRight(_, _, up) => Depth(up) + 1
  }

  /** The nodes before and after the hole, in order. */
  ghost function Before<T>(c: Ctx<T>): seq<T> {
    match c
    case Top => []
    case InLeft(_, _, up) => Before(up)
    case InRight(l, n, up) => Before(up) + InOrder(l) + [n]
  }

  ghost function After<T>(c: Ctx<T>): seq<T> {
    match c
    case Top => []
    case InLeft(n, r, up) => [n] + InOrder(r) + After(up)
    case InRight(_, _, up) => After(up)
  }

  lemma Regroup3<T>(p: seq<T>, x: seq<T>, y: seq<T>, z: seq<T>, q: seq<T>)
    ensures p + (x + y + z) + q == p + x + (y + z + q)
    ensures p + (x + y + z) + q == (p + x + y) + z + q
  {
  }

  lemma {:induction false} PlugInOrder<T>(c: Ctx<T>, t: Tree<T>)
    ensures InOrder(Plug(c, t)) == Before(c) + InOrder(t) + After(c)
  {
    match c
    case Top =>
      assert Before(c) + InOrder(t) + After(c) == InOrder(t);
    case InLeft(n, r, up) =>
      PlugInOrder(up, Bin(t, n, r));
      Regroup3(Before(up), InOrder(t), [n], InOrder(r), After(up));
    case InRight(l, n, up) =>
      PlugInOrder(up, Bin(l, n, t));
      Regroup3(Before(up), InOrder(l), [n], InOrder(t), After(up));
  }

  /** `d` followed by `c`. */
  ghost function Follow<T>(d: Ctx<T>, c: Ctx<T>): Ctx<T> {
    match d
    case Top => c
    case InLeft(n, r, up) => InLeft(n, r, Follow(up, c))
    case InRight(l, n, up) => InRight(l, n, Follow(up, c))
  }

  /** The way to the leftmost node. */
  ghost predicate AllLeft<T>(d: Ctx<T>) {
    match d
    case Top => true
    case InLeft(_, _, up) => AllLeft(up)
    case InRight(_, _, _) => false
  }

  /** The subtree in `c` with its parent. */
  function Hang<T>(c: Ctx<T>, u: Tree<T>): (t: Tree<T>)
    requires !c.Top?
    ensures t.Bin? && t.node == c.node
  {
    if c.InLeft? then Bin(u, c.node, c.right) else Bin(c.left, c.node, u)
  }

  // ------------------------------------------------------------- rotations

  predicate CanRight<T>(t: Tree<T>) { t.Bin? && t.left.Bin? }
  predicate CanLeft<T>(t: Tree<T>) { t.Bin? && t.right.Bin? }

  function RotRight<T>(t: Tree<T>): Tree<T>
    requires CanRight(t)
  {
    Bin(t.left.left, t.left.node, Bin(t.left.right, t.node, t.right))
  }

  function RotLeft<T>(t: Tree<T>): Tree<T>
    requires CanLeft(t)
  {
    Bin(Bin(t.left, t.node, t.right.left), t.right.node, t.right.right)
  }

  lemma RotationsKeepOrder<T>(t: Tree<T>)
    ensures CanRight(t) ==> InOrder(RotRight(t)) == InOrder(t)
    ensures CanLeft(t) ==> InOrder(RotLeft(t)) == InOrder(t)
  {
    if CanRight(t) {
      var a, x, b, p, r := t.left.left, t.left.node, t.left.right, t.node, t.right;
      assert (InOrder(a) + [x] + InOrder(b)) + [p] + InOrder(r) == InOrder(a) + [x] + (InOrder(b) + [p] + InOrder(r));
    }
    if CanLeft(t) {
      var a, p, x, b, r := t.left, t.node, t.right.node, t.right.left, t.right.right;
      assert InOrder(a) + [p] + (InOrder(b) + [x] + InOrder(r)) == (InOrder(a) + [p] + InOrder(b)) + [x] + InOrder(r);
    }
  }

  /** Rotate the left child left, then the tree right. */
  function RotLeftRight<T>(t: Tree<T>): Tree<T>
    requires t.Bin? && CanLeft(t.left)
  {
    RotRight(Bin(RotLeft(t.left), t.node, t.right))
  }

  function RotRightLeft<T>(t: Tree<T>): Tree<T>
    requires t.Bin? && CanRight(t.right)
  {
    RotLeft(Bin(t.left, t.node, RotRight(t.right)))
  }

  lemma DoubleRotationsKeepOrder<T>(t: Tree<T>)
    requires t.Bin?
    ensures CanLeft(t.left) ==> InOrder(RotLeftRight(t)) == InOrder(t)
    ensures CanRight(t.right) ==> InOrder(RotRightLeft(t)) == InOrder(t)
  {
    RotationsKeepOrder(t.left);
    RotationsKeepOrder(t.right);
    if CanLeft(t.left) {
      RotationsKeepOrder(Bin(RotLeft(t.left), t.node, t.right));
    }
    if CanRight(t.right) {
      RotationsKeepOrder(Bin(t.left, t.node, RotRight(t.right)));
    }
  }

  // ------------------------------------------------- balancing after removal

  /** One rotation case per level, as the removal needs it. */
  function RemoveFix<T>(t: Tree<T>): Tree<T> {
    if t.Nil? then t
    else if Diff(t) > 1 then if Diff(t.left) >= 0 then RotRight(t) else RotLeftRight(t)
    else if Diff(t) < -1 then if Diff(t.right) <= 0 then RotLeft(t) else RotRightLeft(t)
    else t
  }

  lemma RemoveFixKeepsOrder<T>(t: Tree<T>)
    ensures InOrder(RemoveFix(t)) == InOrder(t)
  {
    if t.Bin? {
      RotationsKeepOrder(t);
      DoubleRotationsKeepOrder(t);
    }
  }

  /** The program tests all four cases in turn with the difference computed
      before the first rotation.  After a single rotation to the right the
      pivot's new left child is the old inner grandchild, so when that one leans
      right the second case fires as well; mirrored on the other side. */
  predicate SecondFires<T>(t: Tree<T>) {
    && t.Bin?
    && (|| (Diff(t) > 1 && Diff(t.left) >= 0 && Diff(t.left.right) < 0)
        || (Diff(t) < -1 && Diff(t.right) <= 0 && Diff(t.right.left) > 0))
  }

  /** What the four tests leave of the subtree they look at. */
  function RemoveStep<T>(t: Tree<T>): Tree<T> {
    if !SecondFires(t) then RemoveFix(t)
    else if Diff(t) > 1 then
      var u := RotRight(t);
      u.(right := RotLeftRight(u.right))
    else
      var u := RotLeft(t);
      u.(left := RotRightLeft(u.left))
  }

  lemma RemoveStepKeepsOrder<T>(t: Tree<T>)
    ensures InOrder(RemoveStep(t)) == InOrder(t)
  {
    RemoveFixKeepsOrder(t);
    if SecondFires(t) {
      RotationsKeepOrder(t);
      if Diff(t) > 1 {
        DoubleRotationsKeepOrder(RotRight(t).right);
      } else {
        DoubleRotationsKeepOrder(RotLeft(t).left);
      }
    }
  }

  /** The subtree a removal leaves: its children are balanced and it leans by at
      most two. */
  ghost predicate NearlyBalanced<T>(t: Tree<T>) {
    t.Bin? && Balanced(t.left) && Balanced(t.right) && -2 <= Diff(t) <= 2
  }

  /** Height and balance of a tree from those of its parts. */
  lemma Whole<T>(l: Tree<T>, n: T, r: Tree<T>)
    ensures Height(Bin(l, n, r)) == Max(Height(l), Height(r)) + 1
    ensures Diff(Bin(l, n, r)) == Height(l) - Height(r)
    ensures Balanced(Bin(l, n, r)) <==> Balanced(l) && Balanced(r) && -1 <= Height(l) - Height(r) <= 1
  {
  }

  lemma Parts<T>(t: Tree<T>)
    requires t.Bin?
    ensures Height(t) == Max(Height(t.left), Height(t.right)) + 1
    ensures Diff(t) == Height(t.left) - Height(t.right)
    ensures Balanced(t) <==> Balanced(t.left) && Balanced(t.right) && -1 <= Height(t.left) - Height(t.right) <= 1
  {
  }

  /** Heights and balance after a rotation to the right. */
  lemma RotRightIs<T>(t: Tree<T>)
    requires CanRight(t)
    ensures var a, b, c := t.left.left, t.left.right, t.right; var d := Max(Height(b), Height(c)) + 1;
            var u := RotRight(t);
            && Height(u) == Max(Height(a), d) + 1
            && (Balanced(u) <==> (
                  && Balanced(a) && Balanced(b) && Balanced(c)
                  && -1 <= Height(b) - Height(c) <= 1 && -1 <= Height(a) - d <= 1))
  {
    Whole(t.left.right, t.node, t.right);
    Whole(t.left.left, t.left.node, Bin(t.left.right, t.node, t.right));
  }

  lemma RotLeftIs<T>(t: Tree<T>)
    requires CanLeft(t)
    ensures var a, b, c := t.right.right, t.right.left, t.left; var d := Max(Height(c), Height(b)) + 1;
            var u := RotLeft(t);
            && Height(u) == Max(d, Height(a)) + 1
            && (Balanced(u) <==> (
                  && Balanced(a) && Balanced(b) && Balanced(c)
                  && -1 <= Height(c) - Height(b) <= 1 && -1 <= d - Height(a) <= 1))
  {
    Whole(t.left, t.node, t.right.left);
    Whole(Bin(t.left, t.node, t.right.left), t.right.node, t.right.right);
  }

  lemma RotLeftRightIs<T>(t: Tree<T>)
    requires t.Bin? && CanLeft(t.left)
    ensures var b := t.left.right;
            var c, d := Max(Height(t.left.left), Height(b.left)) + 1, Max(Height(b.right), Height(t.right)) + 1;
            var u := RotLeftRight(t);
            && u == Bin(Bin(t.left.left, t.left.node, b.left), b.node, Bin(b.right, t.node, t.right))
            && Height(u) == Max(c, d) + 1
            && (Balanced(u) <==> (
                  && Balanced(t.left.left) && Balanced(b.left) && Balanced(b.right) && Balanced(t.right)
                  && -1 <= Height(t.left.left) - Height(b.left) <= 1 && -1 <= Height(b.right) - Height(t.right) <= 1
                  && -1 <= c - d <= 1))
  {
    var b := t.left.right;
    Whole(t.left.left, t.left.node, b.left);
    Whole(b.right, t.node, t.right);
    Whole(Bin(t.left.left, t.left.node, b.left), b.node, Bin(b.right, t.node, t.right));
  }

  lemma RotRightLeftIs<T>(t: Tree<T>)
    requires t.Bin? && CanRight(t.right)
    ensures var b := t.right.left;
            var c, d := Max(Height(t.left), Height(b.left)) + 1, Max(Height(b.right), Height(t.right.right)) + 1;
            var u := RotRightLeft(t);
            && u == Bin(Bin(t.left, t.node, b.left), b.node, Bin(b.right, t.right.node, t.right.right))
            && Height(u) == Max(c, d) + 1
            && (Balanced(u) <==> (
                  && Balanced(t.left) && Balanced(b.left) && Balanced(b.right) && Balanced(t.right.right)
                  && -1 <= Height(t.left) - Height(b.left) <= 1 && -1 <= Height(b.right) - Height(t.right.right) <= 1
                  && -1 <= c - d <= 1))
  {
    var b := t.right.left;
    Whole(t.left, t.node, b.left);
    Whole(b.right, t.right.node, t.right.right);
    Whole(Bin(t.left, t.node, b.left), b.node, Bin(b.right, t.right.node, t.right.right));
  }

  lemma FixLeftHeavy<T>(t: Tree<T>)
    requires NearlyBalanced(t) && Diff(t) > 1
    ensures Balanced(RemoveFix(t)) && Height(t) - 1 <= Height(RemoveFix(t)) <= Height(t)
  {
    Parts(t);
    Parts(t.left);
    if Diff(t.left) >= 0 {
      RotRightIs(t);
    } else {
      Parts(t.left.right);
      RotLeftRightIs(t);
    }
  }

  lemma FixRightHeavy<T>(t: Tree<T>)
    requires NearlyBalanced(t) && Diff(t) < -1
    ensures Balanced(RemoveFix(t)) && Height(t) - 1 <= Height(RemoveFix(t)) <= Height(t)
  {
    Parts(t);
    Parts(t.right);
    if Diff(t.right) <= 0 {
      RotLeftIs(t);
    } else {
      Parts(t.right.left);
      RotRightLeftIs(t);
    }
  }

  lemma RemoveFixBalances<T>(t: Tree<T>)
    requires NearlyBalanced(t)
    ensures Balanced(RemoveFix(t)) && Height(t) - 1 <= Height(RemoveFix(t)) <= Height(t)
    ensures Balanced(t) ==> RemoveFix(t) == t
  {
    if Diff(t) > 1 {
      FixLeftHeavy(t);
    } else if Diff(t) < -1 {
      FixRightHeavy(t);
    }
  }

  /** The one shape in which the extra rotation does no harm: the inner
      grandchild is as high as the outer one, and its own inner child does not
      lean back. */
  predicate SecondHarmless<T>(t: Tree<T>)
    requires SecondFires(t)
  {
    if Diff(t) > 1 then Diff(t.left) == 0 && Diff(t.left.right.right) <= 0
    else Diff(t.right) == 0 && Diff(t.right.left.left) >= 0
  }

  /** For every subtree a removal leaves, the program's four tests balance it
      exactly when the second rotation does not fire or is harmless. */
  lemma RemoveStepBalancesExactly<T>(t: Tree<T>)
    requires NearlyBalanced(t)
    ensures Balanced(RemoveStep(t)) <==> !SecondFires(t) || SecondHarmless(t)
  {
    RemoveFixBalances(t);
    if SecondFires(t) {
      if Diff(t) > 1 {
        StepRightExactly(t);
      } else {
        StepLeftExactly(t);
      }
    }
  }

  lemma StepRightExactly<T>(t: Tree<T>)
    requires NearlyBalanced(t) && SecondFires(t) && Diff(t) > 1
    ensures Balanced(RemoveStep(t)) <==> SecondHarmless(t)
  {
    var b := t.left.right;
    Parts(t);
    Parts(t.left);
    Parts(b);
    Parts(b.right);
    var mid := Bin(b, t.node, t.right);
    RotLeftRightIs(mid);
    Whole(t.left.left, t.left.node, RotLeftRight(mid));
  }

  lemma StepLeftExactly<T>(t: Tree<T>)
    requires NearlyBalanced(t) && SecondFires(t) && Diff(t) < -1
    ensures Balanced(RemoveStep(t)) <==> SecondHarmless(t)
  {
    var b := t.right.left;
    Parts(t);
    Parts(t.right);
    Parts(b);
    Parts(b.left);
    var mid := Bin(t.left, t.node, b);
    RotRightLeftIs(mid);
    Whole(RotRightLeft(mid), t.right.node, t.right.right);
  }

  /** Going up from a removed node, with one rotation case per level. */
  ghost function RemoveClimb<T>(c: Ctx<T>, t: Tree<T>): Tree<T>
    decreases Depth(c)
  {
    var u := RemoveFix(t);
    match c
    case Top => u
    case InLeft(n, r, up) => RemoveClimb(up, Bin(u, n, r))
    case InRight(l, n, up) => RemoveClimb(up, Bin(l, n, u))
  }

  lemma {:induction false} RemoveClimbKeepsOrder<T>(c: Ctx<T>, t: Tree<T>)
    ensures InOrder(RemoveClimb(c, t)) == Before(c) + InOrder(t) + After(c)
    decreases Depth(c)
  {
    var u := RemoveFix(t);
    RemoveFixKeepsOrder(t);
    match c
    case Top =>
      assert Before(c) + InOrder(t) + After(c) == InOrder(t);
    case InLeft(n, r, up) =>
      RemoveClimbKeepsOrder(up, Bin(u, n, r));
      PlugInOrder(c, u);
      PlugInOrder(up, Bin(u, n, r));
    case InRight(l, n, up) =>
      RemoveClimbKeepsOrder(up, Bin(l, n, u));
      PlugInOrder(c, u);
      PlugInOrder(up, Bin(l, n, u));
  }

  /** `t1` stands where `t0` stood and is at most one lower. */
  ghost predicate Shrunk<T>(t0: Tree<T>, t1: Tree<T>) {
    Balanced(t1) && Height(t0) - 1 <= Height(t1) <= Height(t0)
  }

  /** Climbing from a subtree whose fix is at most one lower than the subtree
      that stood there gives a balanced tree. */
  lemma {:induction false} RemoveClimbBalances<T>(c: Ctx<T>, t0: Tree<T>, t: Tree<T>)
    requires Balanced(Plug(c, t0)) && Shrunk(t0, RemoveFix(t))
    ensures Balanced(RemoveClimb(c, t))
    decreases Depth(c)
  {
    var u := RemoveFix(t);
    match c
    case Top =>
    case InLeft(n, r, up) =>
      PlugParts(up, Bin(t0, n, r));
      RemoveFixBalances(Bin(u, n, r));
      RemoveClimbBalances(up, Bin(t0, n, r), Bin(u, n, r));
    case InRight(l, n, up) =>
      PlugParts(up, Bin(l, n, t0));
      RemoveFixBalances(Bin(l, n, u));
      RemoveClimbBalances(up, Bin(l, n, t0), Bin(l, n, u));
  }

  lemma ShrunkStays<T>(t0: Tree<T>, u: Tree<T>)
    requires Shrunk(t0, u)
    ensures Balanced(u) && RemoveFix(u) == u && (u.Bin? ==> NearlyBalanced(u))
  {
  }

  /** One level of the climb: the tree above a shrunken subtree is nearly
      balanced and its fix is shrunken in turn. */
  lemma FallOn<T>(t0: Tree<T>, u: Tree<T>, n: T, other: Tree<T>)
    requires Shrunk(t0, u)
    ensures Balanced(Bin(t0, n, other)) ==>
              NearlyBalanced(Bin(u, n, other)) && Shrunk(Bin(t0, n, other), RemoveFix(Bin(u, n, other)))
    ensures Balanced(Bin(other, n, t0)) ==>
              NearlyBalanced(Bin(other, n, u)) && Shrunk(Bin(other, n, t0), RemoveFix(Bin(other, n, u)))
  {
    Whole(t0, n, other);
    Whole(u, n, other);
    Whole(other, n, t0);
    Whole(other, n, u);
    if Balanced(Bin(t0, n, other)) {
      RemoveFixBalances(Bin(u, n, other));
    }
    if Balanced(Bin(other, n, t0)) {
      RemoveFixBalances(Bin(other, n, u));
    }
  }

  lemma {:induction false} PlugParts<T>(c: Ctx<T>, t: Tree<T>)
    requires Balanced(Plug(c, t))
    ensures Balanced(t)
    decreases c
  {
    match c
    case Top =>
    case InLeft(n, r, up) => PlugParts(up, Bin(t, n, r));
    case InRight(l, n, up) => PlugParts(up, Bin(l, n, t));
  }

  // -------------------------------------------------------- height and size

  function Fib(n: nat): nat {
    if n < 2 then n else Fib(n - 2) + Fib(n - 1)
  }

  lemma {:induction false} FibRises(m: nat, n: nat)
    requires m <= n
    ensures Fib(m) <= Fib(n)
    decreases n - m
  {
    if m < n {
      FibRises(m, n - 1);
      if n >= 2 { } else { assert Fib(0) == 0 && Fib(1) == 1; }
    }
  }

  /** A balanced tree of height `h` has at least `Fib(h + 2) - 1` nodes, so its
      height is logarithmic in its size. */
  lemma {:induction false} BalancedIsFull<T>(t: Tree<T>)
    requires Balanced(t)
    ensures Size(t) + 1 >= Fib(Height(t) + 2)
  {
    match t
    case Nil =>
      assert Fib(2) == 1;
    case Bin(l, _, r) =>
      BalancedIsFull(l);
      BalancedIsFull(r);
      var h := Height(t);
      assert Fib(h + 2) == Fib(h) + Fib(h + 1);
      if Height(l) >= Height(r) {
        FibRises(h, Height(r) + 2);
      } else {
        FibRises(h, Height(l) + 2);
      }
  }
}
