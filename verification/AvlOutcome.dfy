/** Where the climbs as written begin and what they leave. */
module AvlOutcome {
  import opened AvlTree
  import opened AvlStored

  // ----------------------------------------------------------- where they begin

  /** The place of the leftmost node of `t`, and the subtree there. */
  function Leftmost(c: Path, t: Stored): (r: (Path, Stored))
    requires t.Bin?
    ensures r.1.Bin? && r.1.left.Nil?
    decreases t
  {
    if t.left.Nil? then (c, t) else Leftmost(InLeft(t.node, t.right, c), t.left)
  }

  lemma {:induction false} LeftmostIs(c: Path, d: Path, t: Stored)
    requires AllLeft(d) && t.Bin?
    ensures Plug(d, t).Bin? && Leftmost(c, Plug(d, t)) == Leftmost(Follow(d, c), t)
    decreases d
  {
    if !d.Top? {
      LeftmostIs(c, d.up, Bin(t, d.node, d.right));
    }
  }

  /** Taking out the top of `t` in `c`: where something came up, and what.  A node
      with two children changes places, and stored heights, with its successor. */
  function TakenOut(c: Path, t: Stored): (Path, Stored)
    requires t.Bin?
  {
    if t.left.Nil? then (c, t.right)
    else if t.right.Nil? then (c, t.left)
    else
      var b := Leftmost(Top, t.right).1.node;
      var (h, m) := Leftmost(InRight(t.left, Cell(b.id, t.node.height), c), t.right);
      (h, m.right)
  }

  /** A removal's climb begins at the node that came up or else at its parent,
      which may not exist. */
  function RemoveStart(h: Path, u: Stored): (s: Climb)
    ensures s.At? ==> s.t.Bin?
  {
    if u.Bin? then At(h, u) else if h.Top? then Null else At(h.up, Hang(h, u))
  }

  /** An insert hangs a new leaf where its id leads to and climbs from its parent. */
  function InsertStart(c: Path, t: Stored, key: nat): (s: Climb)
    ensures s.At? ==> s.t.Bin?
    decreases t
  {
    var leaf := Bin(Nil, Cell(key, 1), Nil);
    if t.Nil? then Over(leaf)
    else if t.node.id > key then
      if t.left.Nil? then At(c, t.(left := leaf)) else InsertStart(InLeft(t.node, t.right, c), t.left, key)
    else
      if t.right.Nil? then At(c, t.(right := leaf)) else InsertStart(InRight(t.left, t.node, c), t.right, key)
  }

  lemma {:induction false} PlugSize<T>(c: Ctx<T>, t: Tree<T>)
    ensures Size(Plug(c, t)) >= Size(t) + Depth(c)
    decreases c
  {
    match c
    case Top =>
    case InLeft(n, r, up) => PlugSize(up, Bin(t, n, r));
    case InRight(l, n, up) => PlugSize(up, Bin(l, n, t));
  }

  lemma {:induction false} LeftmostIsBelow(c: Path, t: Stored)
    requires t.Bin? && !c.Top?
    ensures !Leftmost(c, t).0.Top?
    decreases t
  {
    if t.left.Bin? {
      LeftmostIsBelow(InLeft(t.node, t.right, c), t.left);
    }
  }

  /** A removal begins its climb at a null pointer exactly when it takes out the
      only node. */
  lemma StartsAtNullExactly(c: Path, t: Stored)
    requires t.Bin?
    ensures var (h, u) := TakenOut(c, t); RemoveStart(h, u).Null? <==> Size(Plug(c, t)) == 1
  {
    PlugSize(c, t);
    if t.left.Bin? && t.right.Bin? {
      LeftmostIsBelow(InRight(t.left, Cell(Leftmost(Top, t.right).1.node.id, t.node.height), c), t.right);
    }
    if c.Top? && t.left.Nil? && t.right.Nil? {
      assert Size(t) == 1;
    }
  }

  // ---------------------------------------------- removals that do no harm

  ghost function Ids(t: Stored): Tree<nat> {
    match t
    case Nil => Nil
    case Bin(l, n, r) => Bin(Ids(l), n.id, Ids(r))
  }

  ghost function IdsAround(c: Path): Ctx<nat> {
    match c
    case Top => Top
    case InLeft(n, r, up) => InLeft(n.id, Ids(r), IdsAround(up))
    case InRight(l, n, up) => InRight(Ids(l), n.id, IdsAround(up))
  }

  lemma {:induction false} FreshMarks(t: Stored)
    requires Stale(t) == 0
    ensures Mark(t) == Height(t) == Height(Ids(t)) && Lean(t) == Diff(t) == Diff(Ids(t))
  {
    if t.Bin? {
      FreshMarks(t.left);
      FreshMarks(t.right);
      StaleParts(t);
    }
  }

  lemma TurnsAreRotations(t: Stored)
    requires t.Bin?
    ensures CanRight(t) ==> CanRight(Ids(t)) && Ids(TurnRight(t)) == RotRight(Ids(t))
    ensures CanLeft(t) ==> CanLeft(Ids(t)) && Ids(TurnLeft(t)) == RotLeft(Ids(t))
  {
  }

  lemma DoubleTurnsAreRotations(t: Stored)
    requires t.Bin?
    ensures CanLeft(t.left) ==> CanLeft(Ids(t).left) && Ids(TurnLeftRight(t)) == RotLeftRight(Ids(t))
    ensures CanRight(t.right) ==> CanRight(Ids(t).right) && Ids(TurnRightLeft(t)) == RotRightLeft(Ids(t))
  {
    if CanLeft(t.left) {
      TurnsAreRotations(t.left);
      TurnsAreRotations(t.(left := TurnLeft(t.left)));
    }
    if CanRight(t.right) {
      TurnsAreRotations(t.right);
      TurnsAreRotations(t.(right := TurnRight(t.right)));
    }
  }

  /** Stored differences are real ones where the heights below are exact. */
  lemma FreshLeans(t: Stored)
    requires t.Bin? && Inner(t) == 0
    ensures Lean(t) == Diff(t) == Diff(Ids(t)) && Sum(t) == Height(t) == Height(Ids(t))
    ensures Stale(t.left) == 0 == Stale(t.right)
    ensures Lean(t.left) == Diff(Ids(t).left) && Lean(t.right) == Diff(Ids(t).right)
    ensures t.left.Bin? ==>
              Ids(t).left == Bin(Ids(t.left.left), t.left.node.id, Ids(t.left.right)) && Inner(t.left) == 0
    ensures t.right.Bin? ==>
              Ids(t).right == Bin(Ids(t.right.left), t.right.node.id, Ids(t.right.right)) && Inner(t.right) == 0
    ensures Ids(t) == Bin(Ids(t.left), t.node.id, Ids(t.right))
  {
    FreshMarks(t.left);
    FreshMarks(t.right);
  }

  /** With exact heights below the pivot a pass of the removal's loop makes the
      rotations of `RemoveStep`. */
  lemma TestsAreStep(t: Stored)
    requires t.Bin? && Inner(t) == 0
    ensures Ids(RemoveTests(t).t) == RemoveStep(Ids(t))
    ensures SecondFires(Ids(t)) <==> RemoveTests(t).TwiceRight? || RemoveTests(t).TwiceLeft?
    ensures RemoveTests(t).Kept? <==> -1 <= Diff(Ids(t)) <= 1
    ensures RemoveTests(t).TwiceRight? ==> Diff(Ids(t)) > 1
    ensures RemoveTests(t).TwiceLeft? ==> Diff(Ids(t)) < -1
  {
    FreshLeans(t);
    if t.left.Bin? {
      FreshLeans(t.left);
    }
    if t.right.Bin? {
      FreshLeans(t.right);
    }
    hide Diff, Height, Stale, TurnLeftRight, TurnRightLeft, TurnRight, TurnLeft;
    var s := Redo(t);
    assert Ids(s) == Ids(t);
    TurnsAreRotations(s);
    DoubleTurnsAreRotations(s);
    if CanRight(s) {
      TurnRightIs(s);
      DoubleTurnsAreRotations(TurnRight(s).right);
    }
    if CanLeft(s) {
      TurnLeftIs(s);
      DoubleTurnsAreRotations(TurnLeft(s).left);
    }
  }

  /** A subtree that the removal has not touched. */
  ghost predicate Good(t: Stored) { Stale(t) == 0 && Balanced(Ids(t)) }

  /** The subtree after two tests have fired, part by part. */
  lemma TwiceRightParts(t: Stored)
    requires t.Bin? && Inner(t) == 0 && RemoveTests(t).TwiceRight?
    ensures CanRight(t) && CanLeft(t.left.right)
    ensures var u, l, b, r := RemoveTests(t).t, t.left, t.left.right, t.right; var v := u.right;
            && u.left == l.left && v.Bin? && v.left.Bin? && v.right.Bin?
            && v.left == Redo(Bin(b.left, b.node, b.right.left)) && v.right.left == b.right.right && v.right.right == r
            && v.left.left == b.left && v.left.right == b.right.left
            && Stale(u.left) == 0 == Stale(v)
            && u.node.height == Max(Mark(l.left), Max(Mark(b), Mark(r)) + 1) + 1
            && Mark(v) == Max(Mark(v.left), Mark(v.right)) + 1
            && Mark(v.left) == Max(Mark(b.left), Mark(b.right.left)) + 1
            && Mark(v.right) == Max(Mark(b.right.right), Mark(r)) + 1
    ensures var l, b, r := t.left, t.left.right, t.right;
            && Mark(l) == Max(Mark(l.left), Mark(b)) + 1 && Mark(b) == Max(Mark(b.left), Mark(b.right)) + 1
            && Mark(b.right) == Max(Mark(b.right.left), Mark(b.right.right)) + 1
            && Mark(l) > Mark(r) + 1 && Mark(l.left) >= Mark(b) && Mark(b.right) > Mark(b.left)
  {
    var s := Redo(t);
    StaleParts(t);
    StaleParts(t.left);
    StaleParts(t.left.right);
    StaleParts(t.left.right.right);
    hide Stale, TurnRight, TurnLeftRight;
    TurnRightIs(s);
    TurnLeftRightIs(TurnRight(s).right);
  }

  lemma TwiceLeftParts(t: Stored)
    requires t.Bin? && Inner(t) == 0 && RemoveTests(t).TwiceLeft?
    ensures CanLeft(t) && CanRight(t.right.left)
    ensures var u, l, b, r := RemoveTests(t).t, t.right, t.right.left, t.left; var v := u.left;
            && u.right == l.right && v.Bin? && v.left.Bin? && v.right.Bin?
            && v.right == Redo(Bin(b.left.right, b.node, b.right)) && v.left.right == b.left.left && v.left.left == r
            && v.right.right == b.right && v.right.left == b.left.right
            && Stale(u.right) == 0 == Stale(v)
            && u.node.height == Max(Max(Mark(r), Mark(b)) + 1, Mark(l.right)) + 1
            && Mark(v) == Max(Mark(v.left), Mark(v.right)) + 1
            && Mark(v.right) == Max(Mark(b.left.right), Mark(b.right)) + 1
            && Mark(v.left) == Max(Mark(r), Mark(b.left.left)) + 1
    ensures var l, b, r := t.right, t.right.left, t.left;
            && Mark(l) == Max(Mark(b), Mark(l.right)) + 1 && Mark(b) == Max(Mark(b.left), Mark(b.right)) + 1
            && Mark(b.left) == Max(Mark(b.left.left), Mark(b.left.right)) + 1
            && Mark(l) > Mark(r) + 1 && Mark(l.right) >= Mark(b) && Mark(b.left) > Mark(b.right)
  {
    var s := Redo(t);
    StaleParts(t);
    StaleParts(t.right);
    StaleParts(t.right.left);
    StaleParts(t.right.left.left);
    hide Stale, TurnLeft, TurnRightLeft;
    TurnLeftIs(s);
    TurnRightLeftIs(TurnLeft(s).left);
  }

  ghost predicate Level(t: Stored) { t.Bin? ==> -1 <= Lean(t) <= 1 }

  /** Balance of the parts, seen in the stored heights. */
  lemma {:induction false} BalancedLevels(t: Stored)
    requires Stale(t) == 0 && Balanced(Ids(t))
    ensures Level(t) && (t.Bin? ==>
              Stale(t.left) == 0 == Stale(t.right) && Balanced(Ids(t.left)) && Balanced(Ids(t.right)))
    ensures t.Bin? ==> Mark(t) == Max(Mark(t.left), Mark(t.right)) + 1
  {
    FreshMarks(t);
    if t.Bin? {
      StaleParts(t);
    }
  }

  lemma GoodParts(t: Stored)
    requires Good(t) && t.Bin?
    ensures Good(t.left) && Good(t.right) && Level(t) && Inner(t) == 0
    ensures Mark(t) == Sum(t) == Max(Mark(t.left), Mark(t.right)) + 1
  {
    BalancedLevels(t);
    StaleParts(t);
  }

  // ------------------------------------------------- inserts that get stuck

  ghost predicate Has(t: Stored, key: nat) {
    t.Bin? && (t.node.id == key || Has(t.left, key) || Has(t.right, key))
  }

  lemma {:induction false} HasBetween(t: Stored, key: nat, lo: int, hi: int)
    requires Has(t, key) && Between(t, lo, hi)
    ensures lo < key < hi
    decreases t
  {
    if Has(t.left, key) {
      HasBetween(t.left, key, lo, t.node.id);
    } else if Has(t.right, key) {
      HasBetween(t.right, key, t.node.id, hi);
    }
  }

  lemma HasSide(t: Stored, key: nat, lo: int, hi: int)
    requires t.Bin? && Between(t, lo, hi)
    ensures Has(t, key) && key < t.node.id ==> Has(t.left, key)
    ensures Has(t, key) && key > t.node.id ==> Has(t.right, key)
    ensures Has(t, key) ==> lo < key < hi
  {
    if Has(t.left, key) {
      HasBetween(t.left, key, lo, t.node.id);
    }
    if Has(t.right, key) {
      HasBetween(t.right, key, t.node.id, hi);
    }
  }

  /** The node leans by two or more away from `key`, and its heavy child has no
      inner child to turn up. */
  ghost predicate LeansAway(t: Stored, key: nat) {
    && t.Bin?
    && (|| (key >= t.node.id && Lean(t) > 1 && t.left.Bin? && t.left.right.Nil?)
        || (key <= t.node.id && Lean(t) < -1 && t.right.Bin? && t.right.left.Nil?))
  }

  /** A pass over a subtree that holds the new id follows a null pointer exactly
      when the node leans away from it like this, and it leaves the node as it is
      exactly when that leans by one at most or the new id is its heavy child. */
  lemma StuckExactly(t: Stored, key: nat, lo: int, hi: int)
    requires t.Bin? && Between(t, lo, hi) && Has(t, key)
    ensures InsertTests(t, key).Stuck? <==> LeansAway(t, key)
    ensures InsertTests(t, key).Kept? <==>
              || -1 <= Lean(t) <= 1
              || (Lean(t) > 1 && t.left.Bin? && key == t.left.node.id)
              || (Lean(t) < -1 && t.right.Bin? && key == t.right.node.id)
  {
    HasSide(t, key, lo, hi);
    if t.left.Bin? {
      HasSide(t.left, key, lo, t.node.id);
    }
    if t.right.Bin? {
      HasSide(t.right, key, t.node.id, hi);
    }
    hide Has, Between;
  }

  /** The level that an insert's climb comes to after `j` passes is stuck. */
  ghost predicate StuckAfter(s: Climb, key: nat, j: nat) {
    var e := InsertRun(s, key, j);
    Going(e) && InsertTests(e.t, key).Stuck?
  }

  lemma {:induction false} FailsAt(s: Climb, key: nat, k: nat) returns (j: nat)
    requires !s.Null? && InsertRun(s, key, k).Null?
    ensures j < k && StuckAfter(s, key, j)
    decreases k
  {
    var s' := Onward(s.c, InsertTests(s.t, key));
    if s'.Null? {
      j := 0;
    } else {
      j := FailsAt(s', key, k - 1);
      j := j + 1;
    }
  }

  lemma StuckFails(s: Climb, key: nat, j: nat, k: nat)
    requires j < k && StuckAfter(s, key, j)
    ensures InsertRun(s, key, k).Null?
  {
    var s' := InsertRun(s, key, j);
    InsertRunAdds(s, key, j, k - j);
    assert InsertRun(s', key, k - j) == InsertRun(Null, key, k - j - 1);
  }

  /** An insert's climb follows a null pointer exactly when one of the levels it
      comes to is stuck. */
  lemma FailsExactly(s: Climb, key: nat, k: nat)
    requires !s.Null?
    ensures InsertRun(s, key, k).Null? <==>
            exists j: nat :: j < k && StuckAfter(s, key, j)
  {
    if InsertRun(s, key, k).Null? {
      var j := FailsAt(s, key, k);
    }
    if j: nat :| j < k && StuckAfter(s, key, j) {
      StuckFails(s, key, j, k);
    }
  }

  // -------------------------------------------- which inserts fail, in all

  /** The new id is in the subtree that the climb is at, and ids are in order. */
  ghost predicate Holds(s: Climb, key: nat, lo: int, hi: int) {
    Going(s) ==> Has(s.t, key) && Between(Plug(s.c, s.t), lo, hi)
  }

  lemma TestsKeepKey(t: Stored, key: nat)
    requires t.Bin? && !InsertTests(t, key).Stuck?
    ensures Has(InsertTests(t, key).t, key) == Has(t, key)
  {
    var s := Redo(t);
    assert Has(s, key) == Has(t, key);
    if CanRight(s) {
      assert Has(TurnRight(s), key) == Has(s, key);
    }
    if CanLeft(s) {
      assert Has(TurnLeft(s), key) == Has(s, key);
    }
    if CanLeft(s.left) {
      assert Has(TurnLeft(s.left), key) == Has(s.left, key);
    }
    if CanRight(s.right) {
      assert Has(TurnRight(s.right), key) == Has(s.right, key);
    }
  }

  lemma PassHolds(s: Climb, key: nat, lo: int, hi: int)
    requires Going(s) && Holds(s, key, lo, hi)
    ensures Holds(Onward(s.c, InsertTests(s.t, key)), key, lo, hi)
  {
    var c, r := s.c, InsertTests(s.t, key);
    PlugBetween(c, s.t, lo, hi);
    if !r.Stuck? {
      TestsKeepKey(s.t, key);
      if r.Once? {
        InsertShrinks(s.t, key, Low(c, lo), High(c, hi));
      }
      PlugBetween(c, r.t, lo, hi);
    }
  }

  lemma {:induction false} RunHolds(s: Climb, key: nat, lo: int, hi: int, j: nat)
    requires Holds(s, key, lo, hi)
    ensures Holds(InsertRun(s, key, j), key, lo, hi)
    decreases j
  {
    if j > 0 && Going(s) {
      PassHolds(s, key, lo, hi);
      RunHolds(Onward(s.c, InsertTests(s.t, key)), key, lo, hi, j - 1);
    }
  }

  lemma {:induction false} StartHolds(c: Path, t: Stored, key: nat, lo: int, hi: int)
    requires Between(Plug(c, t), lo, hi) && !Has(t, key) && Low(c, lo) < key < High(c, hi)
    ensures Holds(InsertStart(c, t, key), key, lo, hi)
    decreases t
  {
    PlugBetween(c, t, lo, hi);
    if t.Bin? {
      var s := InsertStart(c, t, key);
      if t.node.id > key {
        if t.left.Nil? {
          assert Between(s.t, Low(c, lo), High(c, hi)) && Has(s.t.left, key);
          PlugBetween(c, s.t, lo, hi);
        } else {
          StartHolds(InLeft(t.node, t.right, c), t.left, key, lo, hi);
        }
      } else {
        if t.right.Nil? {
          assert Between(s.t, Low(c, lo), High(c, hi)) && Has(s.t.right, key);
          PlugBetween(c, s.t, lo, hi);
        } else {
          StartHolds(InRight(t.left, t.node, c), t.right, key, lo, hi);
        }
      }
    }
  }

  ghost predicate AwayAfter(s: Climb, key: nat, j: nat) {
    var e := InsertRun(s, key, j);
    Going(e) && LeansAway(e.t, key)
  }

  /** An insert of a new id, in any state in which ids are in order, follows a
      null pointer exactly when its climb comes to a node that leans by two or
      more away from the id and whose heavy child has no inner child. */
  lemma InsertFailsExactly(w: Stored, key: nat, lo: int, hi: int, k: nat)
    requires Between(w, lo, hi) && !Has(w, key) && lo < key < hi
    ensures var s := InsertStart(Top, w, key);
            InsertRun(s, key, k).Null? <==> exists j: nat :: j < k && AwayAfter(s, key, j)
  {
    var s := InsertStart(Top, w, key);
    StartHolds(Top, w, key, lo, hi);
    forall j: nat ensures StuckAfter(s, key, j) <==> AwayAfter(s, key, j) {
      RunHolds(s, key, lo, hi, j);
      var e := InsertRun(s, key, j);
      if Going(e) {
        PlugBetween(e.c, e.t, lo, hi);
        StuckExactly(e.t, key, Low(e.c, lo), High(e.c, hi));
      }
    }
    StartIsNotNull(Top, w, key);
    FailsExactly(s, key, k);
    if j: nat :| j < k && StuckAfter(s, key, j) {
      assert AwayAfter(s, key, j);
    }
    if j: nat :| j < k && AwayAfter(s, key, j) {
      assert StuckAfter(s, key, j);
    }
  }

  lemma {:induction false} StartIsNotNull(c: Path, t: Stored, key: nat)
    ensures !InsertStart(c, t, key).Null?
    decreases t
  {
    if t.Bin? {
      StartIsNotNull(InLeft(t.node, t.right, c), t.left, key);
      StartIsNotNull(InRight(t.left, t.node, c), t.right, key);
    }
  }
}
