/** The climbs as written, on ids and stored heights. */
module AvlStored {
  import opened AvlTree

  datatype Cell = Cell(id: nat, height: nat)

  type Stored = Tree<Cell>
  type Path = Ctx<Cell>

  /** The height stored at the top, and the difference the program computes. */
  function Mark(t: Stored): nat { if t.Nil? then 0 else t.node.height }

  function Lean(t: Stored): int { if t.Nil? then 0 else Mark(t.left) - Mark(t.right) }

  function Sum(t: Stored): nat
    requires t.Bin?
  {
    Max(Mark(t.left), Mark(t.right)) + 1
  }

  /** The height at the top recomputed from those stored below it. */
  function Redo(t: Stored): Stored
    requires t.Bin?
  {
    t.(node := t.node.(height := Sum(t)))
  }

  function TurnRight(t: Stored): Stored
    requires CanRight(t)
  {
    var u := RotRight(t);
    Redo(u.(right := Redo(u.right)))
  }

  function TurnLeft(t: Stored): Stored
    requires CanLeft(t)
  {
    var u := RotLeft(t);
    Redo(u.(left := Redo(u.left)))
  }

  function TurnLeftRight(t: Stored): Stored
    requires t.Bin? && CanLeft(t.left)
  {
    TurnRight(t.(left := TurnLeft(t.left)))
  }

  function TurnRightLeft(t: Stored): Stored
    requires t.Bin? && CanRight(t.right)
  {
    TurnLeft(t.(right := TurnRight(t.right)))
  }

  // ------------------------------------------------------ one pass of a loop

  /** What one pass of a loop makes of the subtree at the pivot, by where the
      pivot's parent is afterwards: above the subtree, at its top, or, when two
      tests fired, at the top of its right or left part.  `Stuck`: the pass
      follows a null pointer. */
  datatype Turned = Kept(t: Stored) | Once(t: Stored) | TwiceRight(t: Stored) | TwiceLeft(t: Stored) | Stuck

  /** The removal's four tests, with the difference computed before the first. */
  function RemoveTests(t: Stored): (r: Turned)
    requires t.Bin?
    ensures !r.Stuck? && r.t.Bin?
    ensures r.TwiceRight? ==> r.t.right.Bin?
    ensures r.TwiceLeft? ==> r.t.left.Bin?
  {
    var s := Redo(t);
    if Lean(s) > 1 then
      if Lean(s.left) >= 0 then
        var u := TurnRight(s);
        if Lean(u.right.left) < 0 then TwiceRight(u.(right := TurnLeftRight(u.right))) else Once(u)
      else Once(TurnLeftRight(s))
    else if Lean(s) < -1 then
      if Lean(s.right) <= 0 then
        var u := TurnLeft(s);
        if Lean(u.left.right) > 0 then TwiceLeft(u.(left := TurnRightLeft(u.left))) else Once(u)
      else Once(TurnRightLeft(s))
    else Kept(s)
  }

  /** The insert's four tests.  Ids being in order, at most one of them fires. */
  function InsertTests(t: Stored, key: nat): (r: Turned)
    requires t.Bin?
    ensures (r.Kept? || r.Once? || r.Stuck?) && (r.Stuck? || r.t.Bin?)
  {
    var s := Redo(t);
    if Lean(s) > 1 && key < s.left.node.id then Once(TurnRight(s))
    else if Lean(s) > 1 && key > s.left.node.id then
      if CanLeft(s.left) then Once(TurnLeftRight(s)) else Stuck
    else if Lean(s) < -1 && key > s.right.node.id then Once(TurnLeft(s))
    else if Lean(s) < -1 && key < s.right.node.id then
      if CanRight(s.right) then Once(TurnRightLeft(s)) else Stuck
    else Kept(s)
  }

  // -------------------------------------------------------------- the climbs

  /** A climb at the top of `t` in `c`, at its end, or after a null pointer. */
  datatype Climb = At(c: Path, t: Stored) | Over(w: Stored) | Null

  /** The climb ends with the pass that starts at the root; otherwise it goes on
      at the pivot's parent. */
  function Onward(c: Path, r: Turned): (s: Climb)
    requires !r.Stuck? ==> r.t.Bin?
  {
    if r.Stuck? then Null
    else if c.Top? then Over(r.t)
    else match r
      case Kept(u) => At(c.up, Hang(c, u))
      case Once(u) => At(c, u)
      case TwiceRight(u) => At(InRight(u.left, u.node, c), u.right)
      case TwiceLeft(u) => At(InLeft(u.node, u.right, c), u.left)
  }

  ghost predicate Going(s: Climb) { s.At? && s.t.Bin? }

  ghost function RemoveRun(s: Climb, k: nat): Climb
    decreases k
  {
    if k == 0 || !Going(s) then s else RemoveRun(Onward(s.c, RemoveTests(s.t)), k - 1)
  }

  ghost function InsertRun(s: Climb, key: nat, k: nat): Climb
    decreases k
  {
    if k == 0 || !Going(s) then s else InsertRun(Onward(s.c, InsertTests(s.t, key)), key, k - 1)
  }

  lemma {:induction false} RemoveRunAdds(s: Climb, j: nat, k: nat)
    ensures RemoveRun(s, j + k) == RemoveRun(RemoveRun(s, j), k)
    decreases j
  {
    hide RemoveTests;
    if j > 0 && Going(s) {
      RemoveRunAdds(Onward(s.c, RemoveTests(s.t)), j - 1, k);
    }
  }

  lemma {:induction false} InsertRunAdds(s: Climb, key: nat, j: nat, k: nat)
    ensures InsertRun(s, key, j + k) == InsertRun(InsertRun(s, key, j), key, k)
    decreases j
  {
    hide InsertTests;
    if j > 0 && Going(s) {
      InsertRunAdds(Onward(s.c, InsertTests(s.t, key)), key, j - 1, k);
    }
  }

  // ------------------------------------------------- every removal climb ends

  /** How many stored heights are not what the heights below them say. */
  ghost function Stale(t: Stored): nat {
    match t
    case Nil => 0
    case Bin(l, n, r) => Stale(l) + Stale(r) + if n.height == Sum(t) then 0 else 1
  }

  ghost function Inner(t: Stored): nat
    requires t.Bin?
  {
    Stale(t.left) + Stale(t.right)
  }

  ghost function SideStale(c: Path): nat {
    match c
    case Top => 0
    case InLeft(_, r, up) => Stale(r) + SideStale(up)
    case InRight(l, _, up) => Stale(l) + SideStale(up)
  }

  /** `(a, x)` is before `(b, y)`. */
  ghost predicate Less(a: nat, x: nat, b: nat, y: nat) { a < b || (a == b && x < y) }

  ghost function Off(t: Stored): nat {
    if t.Nil? || t.node.height == Sum(t) then 0 else 1
  }

  lemma StaleParts(t: Stored)
    requires t.Bin?
    ensures Stale(t) == Inner(t) + Off(t) && Inner(t) == Stale(t.left) + Stale(t.right)
    ensures Off(t) == 0 ==> Mark(t) == Sum(t)
    ensures Stale(Redo(t)) == Inner(t) == Inner(Redo(t)) && Mark(Redo(t)) == Sum(t) && Off(Redo(t)) == 0
  {
  }

  /** A rotation leaves the two nodes it turns with the heights of their parts. */
  lemma TurnRightIs(t: Stored)
    requires CanRight(t)
    ensures var u, b := TurnRight(t), t.left.right; var d := Max(Mark(b), Mark(t.right)) + 1;
            && u.right.left == b && u.right.right == t.right && u.left == t.left.left
            && Mark(u) == Sum(u) == Max(Mark(u.left), d) + 1 && Mark(u.right) == Sum(u.right) == d
            && Stale(u) == Inner(u) && Stale(u.right) == Inner(u.right) && Inner(u) + Off(t.left) == Inner(t)
            && u.node.id == t.left.node.id && u.right.node.id == t.node.id
    ensures Off(t.left) == 0 ==> Mark(t.left) == Max(Mark(t.left.left), Mark(t.left.right)) + 1
  {
    StaleParts(t.left);
  }

  lemma TurnLeftIs(t: Stored)
    requires CanLeft(t)
    ensures var u, b := TurnLeft(t), t.right.left; var d := Max(Mark(t.left), Mark(b)) + 1;
            && u.left.right == b && u.left.left == t.left && u.right == t.right.right
            && Mark(u) == Sum(u) == Max(d, Mark(u.right)) + 1 && Mark(u.left) == Sum(u.left) == d
            && Stale(u) == Inner(u) && Stale(u.left) == Inner(u.left) && Inner(u) + Off(t.right) == Inner(t)
            && u.node.id == t.right.node.id && u.left.node.id == t.node.id
    ensures Off(t.right) == 0 ==> Mark(t.right) == Max(Mark(t.right.left), Mark(t.right.right)) + 1
  {
    StaleParts(t.right);
  }

  lemma TurnLeftRightIs(t: Stored)
    requires t.Bin? && CanLeft(t.left)
    ensures var u, l, b := TurnLeftRight(t), t.left, t.left.right;
            var c, d := Max(Mark(l.left), Mark(b.left)) + 1, Max(Mark(b.right), Mark(t.right)) + 1;
            && u.left.Bin? && u.right.Bin?
            && u.left.left == l.left && u.left.right == b.left && u.right.left == b.right && u.right.right == t.right
            && u.left == Redo(Bin(l.left, l.node, b.left))
            && Mark(u) == Sum(u) == Max(c, d) + 1 && Mark(u.left) == Sum(u.left) == c
            && Mark(u.right) == Sum(u.right) == d
            && Stale(u) == Inner(u) && Inner(u) + Off(l) + Off(b) == Inner(t)
            && u.node.id == b.node.id && u.left.node.id == l.node.id && u.right.node.id == t.node.id
    ensures Off(t.left) == 0 ==> Mark(t.left) == Max(Mark(t.left.left), Mark(t.left.right)) + 1
    ensures Off(t.left.right) == 0 ==> Mark(t.left.right) == Max(Mark(t.left.right.left), Mark(t.left.right.right)) + 1
  {
    hide Stale;
    StaleParts(t.left);
    StaleParts(t.left.right);
    TurnLeftIs(t.left);
    TurnRightIs(t.(left := TurnLeft(t.left)));
  }

  lemma TurnRightLeftIs(t: Stored)
    requires t.Bin? && CanRight(t.right)
    ensures var u, r, b := TurnRightLeft(t), t.right, t.right.left;
            var c, d := Max(Mark(t.left), Mark(b.left)) + 1, Max(Mark(b.right), Mark(r.right)) + 1;
            && u.left.Bin? && u.right.Bin?
            && u.left.left == t.left && u.left.right == b.left && u.right.left == b.right && u.right.right == r.right
            && u.right == Redo(Bin(b.right, r.node, r.right))
            && Mark(u) == Sum(u) == Max(c, d) + 1 && Mark(u.left) == Sum(u.left) == c
            && Mark(u.right) == Sum(u.right) == d
            && Stale(u) == Inner(u) && Inner(u) + Off(r) + Off(b) == Inner(t)
            && u.node.id == b.node.id && u.left.node.id == t.node.id && u.right.node.id == r.node.id
    ensures Off(t.right) == 0 ==> Mark(t.right) == Max(Mark(t.right.left), Mark(t.right.right)) + 1
    ensures Off(t.right.left) == 0 ==> Mark(t.right.left) == Max(Mark(t.right.left.left), Mark(t.right.left.right)) + 1
  {
    hide Stale;
    StaleParts(t.right);
    StaleParts(t.right.left);
    TurnRightIs(t.right);
    TurnLeftIs(t.(right := TurnRight(t.right)));
  }

  /** Rotations keep exact heights exact. */
  lemma TurnsFresh(t: Stored)
    requires t.Bin? && Inner(t) == 0
    ensures CanRight(t) ==> Stale(TurnRight(t)) == 0
    ensures CanLeft(t) ==> Stale(TurnLeft(t)) == 0
    ensures CanLeft(t.left) ==> Stale(TurnLeftRight(t)) == 0
    ensures CanRight(t.right) ==> Stale(TurnRightLeft(t)) == 0
  {
    if CanRight(t) {
      TurnRightIs(t);
    }
    if CanLeft(t) {
      TurnLeftIs(t);
    }
    hide TurnRight, TurnLeft, TurnLeftRight, TurnRightLeft;
    if CanLeft(t.left) {
      TurnLeftRightIs(t);
    }
    if CanRight(t.right) {
      TurnRightLeftIs(t);
    }
  }

  /** A pass with one rotation repairs a stale height or lowers the subtree, or
      else leaves it level. */
  ghost predicate Shrinks(v: Stored, t: Stored)
    requires v.Bin? && t.Bin?
  {
    && Stale(v) == Inner(v) <= Inner(t) && Mark(v) == Sum(v)
    && (Less(Inner(v), Sum(v), Inner(t), Sum(t)) || (Sum(v) <= Sum(t) && -1 <= Lean(v) <= 1))
  }

  lemma OnceShrinks(t: Stored)
    requires t.Bin? && RemoveTests(t).Once?
    ensures Shrinks(RemoveTests(t).t, t)
  {
    var s := Redo(t);
    StaleParts(t);
    hide Stale, TurnRight, TurnLeft, TurnLeftRight, TurnRightLeft;
    if Lean(s) > 1 {
      if Lean(s.left) >= 0 {
        TurnRightIs(s);
      } else {
        TurnLeftRightIs(s);
      }
    } else {
      if Lean(s.right) <= 0 {
        TurnLeftIs(s);
      } else {
        TurnRightLeftIs(s);
      }
    }
  }

  /** After a pass with two rotations the climb goes on in `v`, a part smaller in
      the same sense, beside `other`; when nothing was stale, the whole ends
      lower or level if that part grows no higher. */
  ghost predicate Descends(v: Stored, other: Stored, t: Stored)
    requires v.Bin? && t.Bin?
  {
    && Stale(v) == Inner(v) && Mark(v) == Sum(v) && Stale(other) + Inner(v) <= Inner(t)
    && Less(Inner(v), Sum(v), Inner(t), Sum(t))
    && (Stale(other) + Inner(v) == Inner(t) ==> Sum(v) + 1 <= Sum(t) && Mark(other) + 2 == Sum(t))
  }

  lemma TwiceDescends(t: Stored)
    requires t.Bin?
    ensures RemoveTests(t).TwiceRight? ==> Descends(RemoveTests(t).t.right, RemoveTests(t).t.left, t)
    ensures RemoveTests(t).TwiceLeft? ==> Descends(RemoveTests(t).t.left, RemoveTests(t).t.right, t)
  {
    var s, r := Redo(t), RemoveTests(t);
    StaleParts(t);
    hide Stale, TurnRight, TurnLeft, TurnLeftRight, TurnRightLeft;
    if r.TwiceRight? {
      TurnRightIs(s);
      TurnLeftRightIs(TurnRight(s).right);
    }
    if r.TwiceLeft? {
      TurnLeftIs(s);
      TurnRightLeftIs(TurnLeft(s).left);
    }
  }

  /** From the top of `t` the climb reaches the parent of that place in `k`
      passes, with `u` there. */
  ghost predicate Leaves(c: Path, t: Stored, k: nat, u: Stored) {
    !c.Top? && RemoveRun(At(c, t), k) == At(c.up, Hang(c, u))
  }

  lemma LeavesLevel(c: Path, t: Stored)
    requires !c.Top? && t.Bin?
    ensures -1 <= Lean(t) <= 1 <==> RemoveTests(t).Kept?
    ensures -1 <= Lean(t) <= 1 ==> RemoveTests(t).t == Redo(t) && Leaves(c, t, 1, Redo(t))
  {
    if -1 <= Lean(t) <= 1 {
      assert RemoveRun(At(c, t), 1) == RemoveRun(Onward(c, RemoveTests(t)), 0);
    }
  }

  /** A climb that leaves after `k` passes from where one pass leads. */
  lemma LeavesNext(c: Path, t: Stored, v: Stored, k: nat, u: Stored)
    requires t.Bin? && RemoveTests(t) == Once(v) && Leaves(c, v, k, u)
    ensures Leaves(c, t, k + 1, u)
  {
  }

  /** The same when the pass leads into a part that is left in turn. */
  lemma LeavesVia(c: Path, t: Stored, c': Path, v: Stored, j: nat, w: Stored, k: nat, u: Stored)
    requires t.Bin? && !c.Top? && Onward(c, RemoveTests(t)) == At(c', v)
    requires Leaves(c', v, j, w) && c'.up == c && Leaves(c, Hang(c', w), k, u)
    ensures Leaves(c, t, j + k + 1, u)
  {
    RemoveRunAdds(At(c', v), j, k);
  }

  /** In every state, whatever the heights stored in it, a removal's climb leaves
      each subtree it is in; heights it leaves there are stale only where they
      were before. */
  lemma {:induction false} RemoveLeaves(c: Path, t: Stored) returns (k: nat, u: Stored)
    requires !c.Top? && t.Bin?
    ensures Leaves(c, t, k, u) && u.Bin? && Stale(u) <= Inner(t)
    ensures Stale(u) < Inner(t) || Mark(u) <= Sum(t)
    decreases Inner(t), Sum(t), 1
  {
    var r := RemoveTests(t);
    StaleParts(t);
    LeavesLevel(c, t);
    hide Leaves, Stale, RemoveTests;
    if r.Kept? {
      k, u := 1, Redo(t);
    } else if r.Once? {
      OnceShrinks(t);
      LeavesLevel(c, r.t);
      StaleParts(r.t);
      if Less(Inner(r.t), Sum(r.t), Inner(t), Sum(t)) {
        k, u := RemoveLeaves(c, r.t);
      } else {
        k, u := 1, Redo(r.t);
      }
      LeavesNext(c, t, r.t, k, u);
      k := k + 1;
    } else {
      k, u := LeavesTwice(c, t);
    }
  }

  lemma {:induction false} LeavesTwice(c: Path, t: Stored) returns (k: nat, u: Stored)
    requires !c.Top? && t.Bin? && (RemoveTests(t).TwiceRight? || RemoveTests(t).TwiceLeft?)
    ensures Leaves(c, t, k, u) && u.Bin? && Stale(u) <= Inner(t)
    ensures Stale(u) < Inner(t) || Mark(u) <= Sum(t)
    decreases Inner(t), Sum(t), 0
  {
    var r := RemoveTests(t);
    TwiceDescends(t);
    hide Leaves, Stale, RemoveTests;
    var right := r.TwiceRight?;
    var v := if right then r.t.right else r.t.left;
    var c' := if right then InRight(r.t.left, r.t.node, c) else InLeft(r.t.node, r.t.right, c);
    var j, w := RemoveLeaves(c', v);
    var t2 := Hang(c', w);
    StaleParts(t2);
    LeavesLevel(c, t2);
    if Less(Inner(t2), Sum(t2), Inner(t), Sum(t)) {
      k, u := RemoveLeaves(c, t2);
    } else {
      k, u := 1, Redo(t2);
    }
    LeavesVia(c, t, c', v, j, w, k, u);
    k := j + k + 1;
  }

  /** Every removal climb ends, in every state; if no height beside the way up is
      stale, none below the root is when it comes there. */
  lemma {:induction false} RemoveEnds(c: Path, t: Stored) returns (k: nat, r: Stored)
    requires t.Bin?
    ensures RemoveRun(At(c, t), k) == At(Top, r) && r.Bin? && RemoveRun(At(c, t), k + 1) == Over(RemoveTests(r).t)
    ensures Inner(r) <= Inner(t) + SideStale(c)
    decreases c
  {
    hide Stale, RemoveTests;
    if c.Top? {
      k, r := 0, t;
    } else {
      var j, u := RemoveLeaves(c, t);
      var i;
      i, r := RemoveEnds(c.up, Hang(c, u));
      RemoveRunAdds(At(c, t), j, i);
      k := j + i;
      RemoveRunAdds(At(c, t), k, 1);
    }
  }

  // ------------------------------------------------- every insert climb ends

  /** A search tree with its ids strictly between `lo` and `hi`. */
  ghost predicate Between(t: Stored, lo: int, hi: int) {
    t.Bin? ==> lo < t.node.id < hi && Between(t.left, lo, t.node.id) && Between(t.right, t.node.id, hi)
  }

  ghost predicate BetweenAround(c: Path, lo: int, hi: int) {
    match c
    case Top => true
    case InLeft(n, r, up) =>
      Between(r, n.id, High(up, hi)) && Low(up, lo) < n.id < High(up, hi) && BetweenAround(up, lo, hi)
    case InRight(l, n, up) =>
      Between(l, Low(up, lo), n.id) && Low(up, lo) < n.id < High(up, hi) && BetweenAround(up, lo, hi)
  }

  /** The ids that belong into a hole. */
  ghost function Low(c: Path, lo: int): int {
    match c
    case Top => lo
    case InLeft(_, _, up) => Low(up, lo)
    case InRight(_, n, _) => n.id
  }

  ghost function High(c: Path, hi: int): int {
    match c
    case Top => hi
    case InLeft(n, _, _) => n.id
    case InRight(_, _, up) => High(up, hi)
  }

  lemma {:induction false} PlugBetween(c: Path, t: Stored, lo: int, hi: int)
    ensures Between(Plug(c, t), lo, hi) <==> (
              && (t.Bin? || !c.Top? ==> Between(t, Low(c, lo), High(c, hi)))
              && BetweenAround(c, lo, hi))
    decreases c
  {
    if !c.Top? {
      PlugBetween(c.up, Hang(c, t), lo, hi);
    }
  }

  /** How often a pass can turn without lowering the subtree: the inner part of
      its heavy child gets smaller each time. */
  ghost function Turns(t: Stored, key: nat): nat {
    if t.Nil? then 0
    else if Lean(t) > 1 then Size(t.left.right) + (if key < t.left.node.id then 1 else 0)
    else if Lean(t) < -1 then Size(t.right.left) + (if key > t.right.node.id then 1 else 0)
    else 0
  }

  ghost predicate Progress(v: Stored, t: Stored, key: nat)
    requires v.Bin? && t.Bin?
  {
    && Inner(v) <= Inner(t)
    && (|| Less(Inner(v), Sum(v), Inner(t), Sum(t))
        || (Inner(v) == Inner(t) && Sum(v) == Sum(t) && Turns(v, key) < Turns(t, key))
        || InsertTests(v, key).Kept?)
  }

  lemma InsertShrinks(t: Stored, key: nat, lo: int, hi: int)
    requires t.Bin? && InsertTests(t, key).Once? && Between(t, lo, hi)
    ensures Progress(InsertTests(t, key).t, t, key) && Between(InsertTests(t, key).t, lo, hi)
  {
    if Lean(t) > 1 {
      LeftShrinks(t, key, lo, hi);
    } else {
      RightShrinks(t, key, lo, hi);
    }
  }

  lemma LeftShrinks(t: Stored, key: nat, lo: int, hi: int)
    requires t.Bin? && InsertTests(t, key).Once? && Between(t, lo, hi) && Lean(t) > 1
    ensures Progress(InsertTests(t, key).t, t, key) && Between(InsertTests(t, key).t, lo, hi)
  {
    var s := Redo(t);
    StaleParts(t);
    hide Stale, TurnRight, TurnLeft, TurnLeftRight, TurnRightLeft;
    if key < s.left.node.id {
      TurnRightIs(s);
    } else {
      assert Between(s.left, lo, s.node.id) && Between(s.left.right, s.left.node.id, s.node.id);
      TurnLeftRightIs(s);
    }
  }

  lemma RightShrinks(t: Stored, key: nat, lo: int, hi: int)
    requires t.Bin? && InsertTests(t, key).Once? && Between(t, lo, hi) && Lean(t) <= 1
    ensures Progress(InsertTests(t, key).t, t, key) && Between(InsertTests(t, key).t, lo, hi)
  {
    var s := Redo(t);
    StaleParts(t);
    hide Stale, TurnRight, TurnLeft, TurnLeftRight, TurnRightLeft;
    if key > s.right.node.id {
      TurnLeftIs(s);
    } else {
      assert Between(s.right, s.node.id, hi) && Between(s.right.left, s.node.id, s.right.node.id);
      TurnRightLeftIs(s);
    }
  }

  /** From the top of `t` an insert's climb follows a null pointer or reaches the
      parent of that place, with `u` there. */
  ghost predicate GoesUp(c: Path, t: Stored, key: nat, k: nat, u: Stored) {
    !c.Top? && (InsertRun(At(c, t), key, k) == Null || InsertRun(At(c, t), key, k) == At(c.up, Hang(c, u)))
  }

  lemma {:induction false} InsertLeaves(c: Path, t: Stored, key: nat, lo: int, hi: int) returns (k: nat, u: Stored)
    requires !c.Top? && t.Bin? && Between(t, lo, hi)
    ensures GoesUp(c, t, key, k, u) && Between(u, lo, hi)
    decreases Inner(t), Sum(t), Turns(t, key)
  {
    var r := InsertTests(t, key);
    if !r.Once? {
      k, u := 1, Redo(t);
      assert InsertRun(At(c, t), key, 1) == InsertRun(Onward(c, r), key, 0);
    } else {
      InsertShrinks(t, key, lo, hi);
      var v := r.t;
      if InsertTests(v, key).Kept? {
        u := Redo(v);
        assert InsertRun(At(c, v), key, 1) == InsertRun(At(c.up, Hang(c, u)), key, 0);
        k := 2;
      } else {
        k, u := InsertLeaves(c, v, key, lo, hi);
        k := k + 1;
      }
    }
  }

  /** Every insert climb comes to its end or follows a null pointer, in every
      state in which the ids are in order. */
  lemma {:induction false} InsertEnds(c: Path, t: Stored, key: nat, lo: int, hi: int) returns (k: nat)
    requires t.Bin? && Between(Plug(c, t), lo, hi)
    ensures InsertRun(At(c, t), key, k).Over? || InsertRun(At(c, t), key, k).Null?
    decreases c
  {
    if c.Top? {
      k := 1;
      assert InsertRun(At(c, t), key, 1) == InsertRun(Onward(c, InsertTests(t, key)), key, 0);
    } else {
      PlugBetween(c, t, lo, hi);
      var u;
      k, u := InsertLeaves(c, t, key, Low(c, lo), High(c, hi));
      PlugBetween(c, u, lo, hi);
      if !InsertRun(At(c, t), key, k).Null? {
        var i := InsertEnds(c.up, Hang(c, u), key, lo, hi);
        InsertRunAdds(At(c, t), key, k, i);
        k := k + i;
      }
    }
  }
}
