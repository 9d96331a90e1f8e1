/** The heights a removal as written leaves. */
module AvlHeights {
  import opened AvlTree
  import opened AvlStored
  import opened AvlOutcome

  // A second rotation can set off a cascade of further ones on the way back up.
  // The heights come right again everywhere below the root; what the cascade does
  // to balance is read off the subtrees that the removal has not touched.

  // ------------------------------------------------------- left and right alike

  function Mirror(t: Stored): Stored {
    match t
    case Nil => Nil
    case Bin(l, n, r) => Bin(Mirror(r), n, Mirror(l))
  }

  function MirrorPath(c: Path): Path {
    match c
    case Top => Top
    case InLeft(n, r, up) => InRight(Mirror(r), n, MirrorPath(up))
    case InRight(l, n, up) => InLeft(n, Mirror(l), MirrorPath(up))
  }

  function MirrorTurned(r: Turned): Turned {
    match r
    case Kept(t) => Kept(Mirror(t))
    case Once(t) => Once(Mirror(t))
    case TwiceRight(t) => TwiceLeft(Mirror(t))
    case TwiceLeft(t) => TwiceRight(Mirror(t))
    case Stuck => Stuck
  }

  function MirrorClimb(s: Climb): Climb {
    match s
    case At(c, t) => At(MirrorPath(c), Mirror(t))
    case Over(w) => Over(Mirror(w))
    case Null => Null
  }

  lemma {:induction false} MirrorTwice(t: Stored)
    ensures Mirror(Mirror(t)) == t && Mark(Mirror(t)) == Mark(t) && Lean(Mirror(t)) == -Lean(t)
    ensures Stale(Mirror(t)) == Stale(t)
    ensures Mirror(t).Bin? <==> t.Bin?
  {
    if t.Bin? {
      MirrorTwice(t.left);
      MirrorTwice(t.right);
    }
  }

  lemma {:induction false} MirrorPathTwice(c: Path)
    ensures MirrorPath(MirrorPath(c)) == c
  {
    if !c.Top? {
      MirrorPathTwice(c.up);
      MirrorTwice(if c.InLeft? then c.right else c.left);
    }
  }

  lemma {:induction false} MirrorBalanced(t: Stored)
    ensures Height(Ids(Mirror(t))) == Height(Ids(t))
    ensures Balanced(Ids(Mirror(t))) == Balanced(Ids(t))
  {
    if t.Bin? {
      MirrorBalanced(t.left);
      MirrorBalanced(t.right);
    }
  }

  lemma MirrorRedo(t: Stored)
    requires t.Bin?
    ensures Redo(Mirror(t)) == Mirror(Redo(t))
  {
    MirrorTwice(t.left);
    MirrorTwice(t.right);
  }

  lemma MirrorTurns(t: Stored)
    requires t.Bin?
    ensures CanRight(t) ==> CanLeft(Mirror(t)) && TurnLeft(Mirror(t)) == Mirror(TurnRight(t))
    ensures CanLeft(t) ==> CanRight(Mirror(t)) && TurnRight(Mirror(t)) == Mirror(TurnLeft(t))
  {
    if CanRight(t) {
      var u := RotRight(t);
      assert Mirror(t).right == Mirror(t.left);
      assert RotLeft(Mirror(t)) == Mirror(u);
      MirrorRedo(u.right);
      MirrorRedo(u.(right := Redo(u.right)));
    }
    if CanLeft(t) {
      var u := RotLeft(t);
      assert Mirror(t).left == Mirror(t.right);
      assert RotRight(Mirror(t)) == Mirror(u);
      MirrorRedo(u.left);
      MirrorRedo(u.(left := Redo(u.left)));
    }
  }

  lemma MirrorDoubleTurns(t: Stored)
    requires t.Bin?
    ensures CanLeft(t.left) ==> CanRight(Mirror(t).right) && TurnRightLeft(Mirror(t)) == Mirror(TurnLeftRight(t))
    ensures CanRight(t.right) ==> CanLeft(Mirror(t).left) && TurnLeftRight(Mirror(t)) == Mirror(TurnRightLeft(t))
  {
    hide TurnLeft, TurnRight;
    if CanLeft(t.left) {
      MirrorTurns(t.left);
      TurnLeftIs(t.left);
      MirrorTurns(t.(left := TurnLeft(t.left)));
    }
    if CanRight(t.right) {
      MirrorTurns(t.right);
      TurnRightIs(t.right);
      MirrorTurns(t.(right := TurnRight(t.right)));
    }
  }

  /** The removal's tests treat left and right alike. */
  lemma MirrorTests(t: Stored)
    requires t.Bin?
    ensures RemoveTests(Mirror(t)) == MirrorTurned(RemoveTests(t))
  {
    var s := Redo(t);
    MirrorTwice(s);
    MirrorTwice(s.left);
    MirrorTwice(s.right);
    MirrorRedo(t);
    MirrorTurns(s);
    MirrorDoubleTurns(s);
    if CanRight(s) {
      TurnRightIs(s);
      MirrorTwice(s.left.right);
      MirrorDoubleTurns(TurnRight(s).right);
    }
    if CanLeft(s) {
      TurnLeftIs(s);
      MirrorTwice(s.right.left);
      MirrorDoubleTurns(TurnLeft(s).left);
    }
    hide TurnLeft, TurnRight, TurnLeftRight, TurnRightLeft, Redo, Stale;
  }

  lemma {:induction false} MirrorRun(s: Climb, k: nat)
    ensures RemoveRun(MirrorClimb(s), k) == MirrorClimb(RemoveRun(s, k))
    decreases k
  {
    hide RemoveTests;
    if k > 0 && Going(s) {
      MirrorTests(s.t);
      MirrorRun(Onward(s.c, RemoveTests(s.t)), k - 1);
    }
  }

  lemma MirrorLeaves(c: Path, t: Stored, k: nat, u: Stored)
    requires Leaves(MirrorPath(c), Mirror(t), k, u)
    ensures Leaves(c, t, k, Mirror(u))
  {
    MirrorRun(At(MirrorPath(c), Mirror(t)), k);
    MirrorTwice(t);
    MirrorPathTwice(c);
    MirrorPathTwice(c.up);
    MirrorTwice(u);
    MirrorTwice(if c.InLeft? then c.right else c.left);
  }

  // -------------------------------------------- what a level comes to, beforehand

  /** What the climb leaves of a level: how high, and whether it is balanced when
      the side that the climb came from was. */
  datatype Outcome = Outcome(mark: nat, mends: bool)

  /** Two tests fire in the same pass on a heavy left child. */
  ghost predicate FiresTwice(o: Stored)
    requires o.Bin?
  {
    Lean(o) >= 0 && Lean(o.right) < 0
  }

  /** The tree with these parts, its height recomputed. */
  function Joined(l: Stored, n: Cell, r: Stored): (t: Stored)
    ensures t.Bin? && t == Redo(Bin(l, n, r)) && Size(t) == Size(l) + Size(r) + 1
  {
    Redo(Bin(l, n, r))
  }

  lemma {:induction false} MirrorSize(t: Stored)
    ensures Size(Mirror(t)) == Size(t)
  {
    if t.Bin? {
      MirrorSize(t.left);
      MirrorSize(t.right);
    }
  }

  lemma SizeOf(t: Stored)
    ensures t.Bin? ==> Size(t) == Size(t.left) + Size(t.right) + 1
  {
  }

  /** What a level below the root comes to, by its untouched left child `o`, which
      is the higher one, and the height `m` of its right child. */
  ghost function HeavyOutcome(o: Stored, m: nat): Outcome
    requires o.Bin?
    decreases Size(o), 0
  {
    var a, even := Mark(o), Lean(o) == 0;
    if a == m + 1 then Outcome(a + 1, true)
    else if Lean(o) < 0 then Outcome(a, true)
    else if !FiresTwice(o) then Outcome(if even then a + 1 else a, a == m + 2 || !even)
    else
      var b := o.right;
      var flat := Lean(b.right) <= 0;
      if a != m + 2 then Outcome(a, even || flat)
      else if even then Outcome(a + 1, flat)
      else
        var d := b.right.right;
        if Lean(d) <= 0 then Outcome(a, flat)
        else
          SizeOf(o);
          SizeOf(b);
          SizeOf(b.right);
          SizeOf(d);
          SizeOf(d.left);
          var w := ZigOutcome(Joined(b.left, b.node, b.right.left), d.left.left, Joined(d.left.right, d.node, d.right));
          Outcome(a, w.mends)
  }

  /** The same where the cascade turns: `l` and `x` are the parts of the left child,
      and `r` is the right child, now lower than `l`. */
  ghost function ZigOutcome(l: Stored, x: Stored, r: Stored): Outcome
    requires l.Bin? && r.Bin?
    decreases Size(l) + Size(x) + Size(r), 1
  {
    if Lean(x) >= 0 then
      var e := HeavyOutcome(l, Mark(r) + 1);
      Outcome(e.mark, Mark(r) == Mark(x) + 1 && e.mends)
    else
      SizeOf(x);
      SizeOf(x.right);
      MirrorSize(r);
      MirrorSize(x.right.right);
      MirrorSize(Joined(x.left, x.node, x.right.left));
      var w := ZigOutcome(Mirror(r), Mirror(x.right.right), Mirror(Joined(x.left, x.node, x.right.left)));
      var e := HeavyOutcome(l, w.mark);
      Outcome(e.mark, w.mends && e.mends)
  }

  // ----------------------------------------------------------- the cascade

  /** The climb leaves `t` as `u`, with exact heights, at height `m`, and balanced
      exactly if `good`. */
  ghost predicate Ends(c: Path, t: Stored, k: nat, u: Stored, m: nat, good: bool) {
    Leaves(c, t, k, u) && u.Bin? && Stale(u) == 0 && Mark(u) == m && (Good(u) <==> good)
  }

  lemma GoodIff(t: Stored)
    requires t.Bin? && Stale(t) == 0
    ensures Good(t) <==> Good(t.left) && Good(t.right) && Level(t)
  {
    FreshMarks(t);
  }

  /** A level place is left as it is, its height made exact. */
  lemma EndsLevel(c: Path, t: Stored, good: bool)
    requires !c.Top? && t.Bin? && Inner(t) == 0 && Level(t) && (good <==> Good(t.left) && Good(t.right))
    ensures Ends(c, t, 1, Redo(t), Sum(t), good)
  {
    LeavesLevel(c, t);
    StaleParts(t);
    GoodIff(Redo(t));
  }

  /** One rotation, then level. */
  lemma EndsOnce(c: Path, t: Stored, v: Stored, good: bool)
    requires !c.Top? && t.Bin? && Inner(t) == 0 && RemoveTests(t) == Once(v) && Level(v)
    requires good <==> Good(v.left) && Good(v.right)
    ensures Ends(c, t, 2, Redo(v), Mark(v), good)
  {
    OnceShrinks(t);
    EndsLevel(c, v, good);
    LeavesNext(c, t, v, 1, Redo(v));
  }

  /** Two rotations, the part left with `w`, then the whole with `u`. */
  lemma EndsVia(c: Path, t: Stored, c': Path, v: Stored, j: nat, w: Stored, k: nat, u: Stored, m: nat, good: bool)
    requires t.Bin? && !c.Top? && Onward(c, RemoveTests(t)) == At(c', v) && !c'.Top? && c'.up == c
    requires Leaves(c', v, j, w) && Ends(c, Hang(c', w), k, u, m, good)
    ensures Ends(c, t, j + k + 1, u, m, good)
  {
    LeavesVia(c, t, c', v, j, w, k, u);
  }

  /** An untouched left child `o` two or three higher than `f`. */
  ghost predicate Heavy(o: Stored, f: Stored) {
    o.Bin? && Good(o) && Stale(f) == 0 && Mark(f) + 2 <= Mark(o) <= Mark(f) + 3
  }

  lemma HeavyOnce(c: Path, o: Stored, n: Cell, f: Stored) returns (u: Stored)
    requires !c.Top? && Heavy(o, f) && !FiresTwice(o)
    ensures var e := HeavyOutcome(o, Mark(f)); Ends(c, Bin(o, n, f), 2, u, e.mark, Good(f) && e.mends)
  {
    var t := Bin(o, n, f);
    GoodParts(o);
    var s, v := Redo(t), RemoveTests(t).t;
    u := Redo(v);
    if Lean(o) < 0 {
      GoodParts(o.right);
      TurnLeftRightIs(s);
      GoodIff(v.left);
    } else {
      TurnRightIs(s);
    }
    GoodIff(v.right);
    EndsOnce(c, t, v, Good(f) && HeavyOutcome(o, Mark(f)).mends);
  }

  lemma HeavyOnceTests(t: Stored)
    requires t.Bin? && Heavy(t.left, t.right)
    ensures RemoveTests(t).TwiceRight? <==> FiresTwice(t.left)
    ensures !FiresTwice(t.left) ==> RemoveTests(t).Once?
  {
    GoodParts(t.left);
    TurnRightIs(Redo(t));
  }

  /** What two rotations make of such a place. */
  lemma HeavyTwiceParts(o: Stored, n: Cell, f: Stored)
    requires Heavy(o, f) && FiresTwice(o)
    ensures var r, b := RemoveTests(Bin(o, n, f)), o.right; var v := r.t.right;
            && r.TwiceRight? && r.t.left == o.left && Good(o.left) && Mark(o.left) + 1 == Mark(o)
            && CanLeft(v) && v.right.right == f && v.right.left == b.right.right && Stale(v) == 0 == Inner(v)
            && v.left == Redo(Bin(b.left, b.node, b.right.left)) && Good(v.left) && Good(v.right.left)
            && r.t.node.height == Max(Mark(o.left), Max(Mark(b), Mark(f)) + 1) + 1
            && Mark(v) == Sum(v) && Mark(v.right) == Sum(v.right)
    ensures var b := o.right; var v := RemoveTests(Bin(o, n, f)).t.right;
            && Mark(b) == (if Lean(o) == 0 then Mark(o) - 1 else Mark(o) - 2)
            && Mark(v.left) + 1 == Mark(b)
            && Mark(b.right.right) == (if Lean(b.right) <= 0 then Mark(b) - 2 else Mark(b) - 3)
  {
    var t := Bin(o, n, f);
    HeavyOnceTests(t);
    GoodParts(o);
    GoodParts(o.right);
    GoodParts(o.right.right);
    TwiceRightParts(t);
    var v := RemoveTests(t).t.right;
    hide RemoveTests;
    StaleParts(v);
    StaleParts(v.right);
    GoodIff(v.left);
  }

  lemma HeavyTwice(c: Path, o: Stored, n: Cell, f: Stored) returns (k: nat, u: Stored)
    requires !c.Top? && Heavy(o, f) && FiresTwice(o)
    ensures var e := HeavyOutcome(o, Mark(f)); Ends(c, Bin(o, n, f), k, u, e.mark, Good(f) && e.mends)
    decreases Mark(o), 2
  {
    var t, e := Bin(o, n, f), HeavyOutcome(o, Mark(f));
    var r := RemoveTests(t);
    HeavyTwiceParts(o, n, f);
    var c', v := InRight(r.t.left, r.t.node, c), r.t.right;
    hide RemoveTests, Good, Leaves, ZigOutcome, Stale, Redo;
    GoodIff(v.right);
    var j, w := 1, Redo(v);
    if Lean(o) > 0 && Mark(o) == Mark(f) + 2 {
      j, w := Back(c', v, e.mends);
    } else {
      EndsLevel(c', v, Good(f) && e.mends);
    }
    var t2 := Hang(c', w);
    u, k := Redo(t2), j + 2;
    EndsLevel(c, t2, Good(f) && e.mends);
    EndsVia(c, t, c', v, j, w, 1, u, e.mark, Good(f) && e.mends);
  }

  /** What the second of two rotations can leave where the climb goes on: a tree
      leaning left, whose left child leans left in turn. */
  ghost predicate Zig(t: Stored) {
    && CanRight(t) && t.right.Bin? && Inner(t) == 0
    && Good(t.left.left) && Good(t.left.right) && Good(t.right)
    && Mark(t.left.right) + 1 <= Mark(t.right) <= Mark(t.left.right) + 2
    && Mark(t.right) + 2 <= Mark(t.left.left) <= Mark(t.right) + 3
  }

  ghost function OutcomeOf(t: Stored): Outcome
    requires Zig(t)
  {
    ZigOutcome(t.left.left, t.left.right, t.right)
  }

  /** Leaning right by two towards `f`, whose sibling is lower. */
  ghost predicate LeansBack(v: Stored) {
    && CanLeft(v) && v.left.Bin? && Inner(v) == 0 && Good(v.left) && Good(v.right.left)
    && Mark(v.right.right) == Mark(v.left) + 1
    && Mark(v.right.left) + 1 <= Mark(v.left) <= Mark(v.right.left) + 2
  }

  /** Whether such a place is balanced in the end if `f` is. */
  ghost predicate BackMends(v: Stored)
    requires LeansBack(v)
  {
    var d := v.right.left;
    if Lean(d) <= 0 then Mark(d) + 1 == Mark(v.left)
    else ZigOutcome(v.left, d.left.left, Redo(Bin(d.left.right, d.node, d.right))).mends
  }

  /** The part where the climb goes on, when the second rotation has left it
      leaning right: one rotation back, or a cascade. */
  lemma {:induction false} Back(c: Path, v: Stored, mends: bool) returns (k: nat, w: Stored)
    requires !c.Top? && LeansBack(v) && (mends <==> BackMends(v))
    ensures Ends(c, v, k, w, Mark(v.right.right) + 1, Good(v.right.right) && mends)
    decreases Mark(v.right.right) + 2, 1
  {
    var f, d, r := v.right.right, v.right.left, RemoveTests(v);
    BackTests(v);
    if Lean(d) <= 0 {
      k, w := 2, Redo(r.t);
      EndsOnce(c, v, r.t, Good(f) && mends);
    } else {
      BackZig(v);
      hide RemoveTests, Good, Leaves, Stale;
      var c', z := InLeft(r.t.node, f, c), r.t.left;
      var j, x := ZigEnds(c', z);
      var t2 := Hang(c', x);
      w := Redo(t2);
      EndsLevel(c, t2, Good(f) && mends);
      EndsVia(c, v, c', z, j, x, 1, w, Mark(f) + 1, Good(f) && mends);
      k := j + 2;
    }
  }

  lemma BackTests(v: Stored)
    requires LeansBack(v)
    ensures var f, d, r := v.right.right, v.right.left, RemoveTests(v);
            if Lean(d) <= 0
            then && r.Once? && Level(r.t) && Mark(r.t) == Mark(f) + 1
                 && (Good(r.t.left) && Good(r.t.right) <==> Good(f) && BackMends(v))
            else r.TwiceLeft? && r.t.right == f && Stale(f) == 0
  {
    var d, r := v.right.left, RemoveTests(v);
    StaleParts(v.right);
    TurnLeftIs(Redo(v));
    if Lean(d) <= 0 {
      GoodIff(r.t.left);
    } else {
      TwiceLeftParts(v);
    }
  }

  lemma BackZig(v: Stored)
    requires LeansBack(v) && RemoveTests(v).TwiceLeft?
    ensures var z, d := RemoveTests(v).t.left, v.right.left;
            && Zig(z) && z.left.left == v.left && d.Bin? && d.left.Bin? && z.left.right == d.left.left
            && z.right == Redo(Bin(d.left.right, d.node, d.right))
  {
    var d, z := v.right.left, RemoveTests(v).t.left;
    TwiceLeftParts(v);
    hide RemoveTests;
    GoodParts(d);
    GoodParts(d.left);
    StaleParts(z);
    StaleParts(z.right);
    GoodIff(z.right);
  }

  /** An untouched left child up to three higher than the other. */
  lemma {:induction false} HeavyEnds(c: Path, o: Stored, n: Cell, f: Stored) returns (k: nat, u: Stored)
    requires !c.Top? && o.Bin? && Good(o) && Stale(f) == 0 && Mark(f) + 1 <= Mark(o) <= Mark(f) + 3
    ensures var e := HeavyOutcome(o, Mark(f)); Ends(c, Bin(o, n, f), k, u, e.mark, Good(f) && e.mends)
    decreases Mark(o), 4
  {
    if Mark(o) == Mark(f) + 1 {
      k, u := 1, Redo(Bin(o, n, f));
      EndsLevel(c, Bin(o, n, f), Good(f));
    } else if FiresTwice(o) {
      k, u := HeavyTwice(c, o, n, f);
    } else {
      k := 2;
      u := HeavyOnce(c, o, n, f);
    }
  }

  lemma HeavyMark(o: Stored, m: nat)
    requires o.Bin? && m + 1 <= Mark(o) <= m + 3
    ensures Mark(o) <= HeavyOutcome(o, m).mark <= Mark(o) + 1
  {
  }

  lemma {:induction false} ZigEnds(c: Path, t: Stored) returns (k: nat, u: Stored)
    requires !c.Top? && Zig(t)
    ensures Ends(c, t, k, u, OutcomeOf(t).mark, OutcomeOf(t).mends)
    ensures Mark(t.left.left) <= Mark(u) <= Mark(t.left.left) + 1
    decreases Mark(t.left.left), 6
  {
    if Lean(t.left.right) >= 0 {
      k, u := ZigOnce(c, t);
    } else {
      k, u := ZigTwice(c, t);
    }
  }

  lemma ZigOnce(c: Path, t: Stored) returns (k: nat, u: Stored)
    requires !c.Top? && Zig(t) && Lean(t.left.right) >= 0
    ensures Ends(c, t, k, u, OutcomeOf(t).mark, OutcomeOf(t).mends)
    ensures Mark(t.left.left) <= Mark(u) <= Mark(t.left.left) + 1
    decreases Mark(t.left.left), 5
  {
    var l, r := t.left.left, RemoveTests(t);
    StaleParts(t.left);
    TurnRightIs(Redo(t));
    OnceShrinks(t);
    GoodIff(r.t.right);
    hide RemoveTests, HeavyOutcome, Good, Leaves, Stale;
    HeavyMark(l, Mark(r.t.right));
    k, u := HeavyEnds(c, l, r.t.node, r.t.right);
    LeavesNext(c, t, r.t, k, u);
    k := k + 1;
  }

  lemma ZigTwice(c: Path, t: Stored) returns (k: nat, u: Stored)
    requires !c.Top? && Zig(t) && Lean(t.left.right) < 0
    ensures Ends(c, t, k, u, OutcomeOf(t).mark, OutcomeOf(t).mends)
    ensures Mark(t.left.left) <= Mark(u) <= Mark(t.left.left) + 1
    decreases Mark(t.left.left), 5
  {
    var l, r := t.left.left, RemoveTests(t);
    ZigFiresTwice(t);
    TwiceRightParts(t);
    var c', v := InRight(l, r.t.node, c), r.t.right;
    ZigZag(t);
    hide RemoveTests, HeavyOutcome, Good, Leaves, Stale;
    var j, w := ZagEnds(c', v);
    HeavyMark(l, Mark(w));
    k, u := HeavyEnds(c, l, r.t.node, w);
    EndsVia(c, t, c', v, j, w, k, u, OutcomeOf(t).mark, OutcomeOf(t).mends);
    k := j + k + 1;
  }

  lemma ZigFiresTwice(t: Stored)
    requires Zig(t) && Lean(t.left.right) < 0
    ensures RemoveTests(t).TwiceRight?
  {
    StaleParts(t.left);
    TurnRightIs(Redo(t));
  }

  lemma ZigZag(t: Stored)
    requires Zig(t) && RemoveTests(t).TwiceRight?
    ensures var v, x := RemoveTests(t).t.right, t.left.right;
            && Zig(Mirror(v)) && v.right.right == t.right && x.Bin? && x.right.Bin?
            && OutcomeOf(Mirror(v)) == ZigOutcome(Mirror(t.right), Mirror(x.right.right),
                                                  Mirror(Redo(Bin(x.left, x.node, x.right.left))))
  {
    var x, v := t.left.right, RemoveTests(t).t.right;
    TwiceRightParts(t);
    hide RemoveTests;
    GoodParts(x);
    GoodParts(x.right);
    StaleParts(v);
    StaleParts(v.left);
    GoodIff(v.left);
    MirrorGood(v.left);
    MirrorGood(v.right.left);
    MirrorGood(v.right.right);
    MirrorTwice(v.right);
  }

  lemma MirrorGood(t: Stored)
    ensures Good(Mirror(t)) == Good(t) && Mark(Mirror(t)) == Mark(t)
  {
    MirrorTwice(t);
    MirrorBalanced(t);
  }

  lemma {:induction false} ZagEnds(c: Path, t: Stored) returns (k: nat, u: Stored)
    requires !c.Top? && Zig(Mirror(t)) && CanLeft(t)
    ensures Ends(c, t, k, u, OutcomeOf(Mirror(t)).mark, OutcomeOf(Mirror(t)).mends)
    ensures Mark(t.right.right) <= Mark(u) <= Mark(t.right.right) + 1
    decreases Mark(t.right.right), 7
  {
    MirrorTwice(t.right.right);
    assert Mirror(t).left == Mirror(t.right) && Mirror(t).left.left == Mirror(t.right.right);
    var w;
    k, w := ZigEnds(MirrorPath(c), Mirror(t));
    MirrorLeaves(c, t, k, w);
    MirrorTwice(w);
    MirrorGood(w);
    u := Mirror(w);
  }

  // ---------------------------------------------------------- whole removals

  /** A tree of height `h` stands in a tree that is balanced, with exact heights
      beside the way up. */
  ghost predicate Stands(c: Path, h: nat) {
    match c
    case Top => true
    case InLeft(_, r, up) => Good(r) && -1 <= h - Mark(r) <= 1 && Stands(up, Max(h, Mark(r)) + 1)
    case InRight(l, _, up) => Good(l) && -1 <= h - Mark(l) <= 1 && Stands(up, Max(h, Mark(l)) + 1)
  }

  /** What stands beside the way up, turned so that it is the left child. */
  ghost function Beside(c: Path): Stored
    requires !c.Top?
  {
    if c.InLeft? then Mirror(c.right) else c.left
  }

  /** The tree that a removal leaves is balanced, read off what stands beside the
      way up from a subtree of height `m`: each level that leans by two mends, and
      the root, if it fires twice, is even. */
  ghost predicate StaysBalanced(c: Path, m: nat)
    decreases c
  {
    c.Top?
    || var o := Beside(c);
       if Mark(o) <= m + 1 then StaysBalanced(c.up, Max(m, Mark(o)) + 1)
       else if c.up.Top? then FiresTwice(o) ==> Lean(o) == 0 && Lean(o.right.right) <= 0
       else var e := HeavyOutcome(o, m); e.mends && StaysBalanced(c.up, e.mark)
  }

  /** All its heights are exact: the root, if it fires twice, is even. */
  ghost predicate StaysExact(c: Path, m: nat)
    decreases c
  {
    c.Top?
    || var o := Beside(c);
       if Mark(o) <= m + 1 then StaysExact(c.up, Max(m, Mark(o)) + 1)
       else if c.up.Top? then FiresTwice(o) ==> Lean(o) == 0
       else StaysExact(c.up, HeavyOutcome(o, m).mark)
  }

  /** One level up a subtree `u` is as high as the one before or one lower. */
  ghost predicate Lowered(c: Path, u: Stored, h: nat) { Stands(c, h) && Stale(u) == 0 && h - 1 <= Mark(u) <= h }

  /** What a level below the root, over `u`, is left as. */
  lemma LevelOutcome(c: Path, u: Stored, h: nat) returns (k: nat, v: Stored, h1: nat)
    requires !c.Top? && !c.up.Top? && Lowered(c, u, h)
    ensures Leaves(c.up, Hang(c, u), k, v) && v.Bin? && Lowered(c.up, v, h1)
    ensures var o, m := Beside(c), Mark(u);
            if Mark(o) <= m + 1 then Mark(v) == Max(m, Mark(o)) + 1 && (Good(v) <==> Good(u))
            else var e := HeavyOutcome(o, m); Mark(v) == e.mark && (Good(v) <==> Good(u) && e.mends)
  {
    var t, o := Hang(c, u), Beside(c);
    var side := if c.InLeft? then c.right else c.left;
    h1 := Max(h, Mark(side)) + 1;
    MirrorGood(side);
    if Mark(o) <= Mark(u) + 1 {
      k, v := 1, Redo(t);
      EndsLevel(c.up, t, Good(u));
    } else {
      HeavyMark(o, Mark(u));
      if c.InRight? {
        k, v := HeavyEnds(c.up, o, c.node, u);
      } else {
        MirrorGood(u);
        MirrorTwice(u);
        MirrorPathTwice(c.up);
        var w;
        k, w := HeavyEnds(MirrorPath(c.up), o, c.node, Mirror(u));
        MirrorLeaves(c.up, t, k, w);
        MirrorTwice(w);
        MirrorGood(w);
        v := Mirror(w);
      }
    }
  }

  /** The pass at the root, over a heavy left child. */
  lemma RootHeavy(o: Stored, n: Cell, f: Stored)
    requires Heavy(o, f) && Mark(o) == Mark(f) + 2
    ensures var w := RemoveTests(Bin(o, n, f)).t;
            && (Stale(w) == 0 <==> (FiresTwice(o) ==> Lean(o) == 0))
            && (Balanced(Ids(w)) <==> Good(f) && (FiresTwice(o) ==> Lean(o) == 0 && Lean(o.right.right) <= 0))
  {
    var t := Bin(o, n, f);
    var w := RemoveTests(t).t;
    HeavyOnceTests(t);
    if FiresTwice(o) {
      HeavyTwiceParts(o, n, f);
      hide RemoveTests;
      StaleParts(w);
      GoodIff(w.right);
      GoodIff(w.right.right);
      if Lean(o) == 0 {
        GoodIff(w);
      }
    } else {
      OnceShrinks(t);
      var u := HeavyOnce(InLeft(n, Nil, Top), o, n, f);
    }
  }

  /** The same with the condition for the levels above. */
  lemma LevelStays(c: Path, u: Stored, h: nat) returns (k: nat, v: Stored, h1: nat, mends: bool)
    requires !c.Top? && !c.up.Top? && Lowered(c, u, h)
    ensures Leaves(c.up, Hang(c, u), k, v) && Lowered(c.up, v, h1) && (Good(v) <==> Good(u) && mends)
    ensures StaysBalanced(c, Mark(u)) <==> mends && StaysBalanced(c.up, Mark(v))
    ensures StaysExact(c, Mark(u)) <==> StaysExact(c.up, Mark(v))
  {
    k, v, h1 := LevelOutcome(c, u, h);
    mends := Mark(Beside(c)) <= Mark(u) + 1 || HeavyOutcome(Beside(c), Mark(u)).mends;
    hide HeavyOutcome, Good, Leaves, Lowered;
  }

  lemma RootMirror(o: Stored, t: Stored)
    requires t.Bin? && o == Mirror(t.right)
    requires Heavy(o, Mirror(t.left)) && Mark(o) == Mark(t.left) + 2
    ensures var w := RemoveTests(t).t;
            && (Stale(w) == 0 <==> (FiresTwice(o) ==> Lean(o) == 0))
            && (Balanced(Ids(w)) <==> Good(t.left) && (FiresTwice(o) ==> Lean(o) == 0 && Lean(o.right.right) <= 0))
  {
    var w := RemoveTests(t).t;
    MirrorGood(t.left);
    RootHeavy(o, t.node, Mirror(t.left));
    MirrorTests(t);
    MirrorTwice(w);
    MirrorBalanced(w);
  }

  /** The pass at the root, over `u`. */
  lemma RootOutcome(c: Path, u: Stored, h: nat)
    requires !c.Top? && c.up.Top? && Lowered(c, u, h)
    ensures var r, o := Hang(c, u), Beside(c); var w := RemoveTests(r).t;
            && Inner(r) == 0 && -2 <= Lean(r) <= 2
            && (Stale(w) == 0 <==> StaysExact(c, Mark(u)))
            && (Balanced(Ids(w)) <==> Good(u) && StaysBalanced(c, Mark(u)))
  {
    var r, o, side := Hang(c, u), Beside(c), if c.InLeft? then c.right else c.left;
    MirrorGood(side);
    MirrorGood(u);
    MirrorTwice(side);
    MirrorTwice(u);
    hide Good, Ids, Balanced, TurnRight, TurnLeft, TurnRightLeft, TurnLeftRight, Stale;
    if Mark(o) <= Mark(u) + 1 {
      LeavesLevel(InLeft(c.node, Nil, Top), r);
      StaleParts(r);
      GoodIff(Redo(r));
    } else if c.InRight? {
      RootHeavy(o, c.node, u);
    } else {
      RootMirror(o, r);
    }
  }

  /** The climb of a removal as written from a place it has lowered.  The pass at
      the root comes over `r`, and leaves `w`: below `r` all heights are exact, and
      no lean is above two.  Harm that a level leaves is never mended above it. */
  lemma {:induction false} ClimbOutcome(c: Path, u: Stored, h: nat) returns (k: nat, r: Stored, w: Stored)
    requires !c.Top? && Lowered(c, u, h)
    ensures var s := At(c.up, Hang(c, u)); RemoveRun(s, k) == At(Top, r) && RemoveRun(s, k + 1) == Over(w)
    ensures r.Bin? && Inner(r) == 0 && -2 <= Lean(r) <= 2 && w == RemoveTests(r).t
    ensures Stale(w) == 0 <==> StaysExact(c, Mark(u))
    ensures Balanced(Ids(w)) <==> Good(u) && StaysBalanced(c, Mark(u))
    decreases c
  {
    hide *;
    var t := Hang(c, u);
    if c.up.Top? {
      RootOutcome(c, u, h);
      RootEnds(t);
      k, r, w := 0, t, RemoveTests(t).t;
    } else {
      var j, v, h1, mends := LevelStays(c, u, h);
      var i;
      i, r, w := ClimbOutcome(c.up, v, h1);
      Joins(c.up, t, j, v, i, At(Top, r), Over(w));
      k := j + i;
    }
  }

  lemma RootEnds(r: Stored)
    requires r.Bin?
    ensures RemoveRun(At(Top, r), 0) == At(Top, r) && RemoveRun(At(Top, r), 1) == Over(RemoveTests(r).t)
  {
    assert RemoveRun(At(Top, r), 1) == RemoveRun(Onward(Top, RemoveTests(r)), 0);
  }

  lemma Joins(c: Path, t: Stored, j: nat, v: Stored, i: nat, e: Climb, e': Climb)
    requires Leaves(c, t, j, v)
    requires var s := At(c.up, Hang(c, v)); RemoveRun(s, i) == e && RemoveRun(s, i + 1) == e'
    ensures RemoveRun(At(c, t), j + i) == e && RemoveRun(At(c, t), j + i + 1) == e'
  {
    RemoveRunAdds(At(c, t), j, i);
    RemoveRunAdds(At(c, t), j, i + 1);
  }

  // ------------------------------------------------- from the whole tree

  lemma {:induction false} StandsInBalanced(c: Path, t: Stored)
    requires Good(Plug(c, t))
    ensures Good(t) && Stands(c, Mark(t))
    decreases c
  {
    if !c.Top? {
      StandsInBalanced(c.up, Hang(c, t));
      GoodParts(Hang(c, t));
    }
  }

  lemma {:induction false} LeftmostStands(c: Path, t: Stored)
    requires Good(t) && t.Bin? && Stands(c, Mark(t))
    ensures var (h, m) := Leftmost(c, t); Good(m) && Stands(h, Mark(m))
    decreases t
  {
    GoodParts(t);
    if t.left.Bin? {
      LeftmostStands(InLeft(t.node, t.right, c), t.left);
    }
  }

  lemma TakenStands(c: Path, t: Stored)
    requires t.Bin? && Good(t) && Stands(c, Mark(t))
    ensures var (h, u) := TakenOut(c, t); Good(u) && Stands(h, Mark(u) + 1)
  {
    GoodParts(t);
    if t.left.Bin? && t.right.Bin? {
      var b := Leftmost(Top, t.right).1.node;
      LeftmostStands(InRight(t.left, Cell(b.id, t.node.height), c), t.right);
      GoodParts(Leftmost(InRight(t.left, Cell(b.id, t.node.height), c), t.right).1);
    }
  }

  /** A removal as written, from any balanced tree with exact heights, of any node
      but the only one.  Something of height `Mark(u)` came up in the place `h`:
      the tree that the climb leaves is balanced, and all its heights are exact,
      exactly as `StaysBalanced` and `StaysExact` say of the two. */
  lemma RemovalOutcome(c: Path, t: Stored) returns (k: nat, r: Stored, w: Stored)
    requires t.Bin? && Stale(Plug(c, t)) == 0 && Balanced(Ids(Plug(c, t))) && Size(Plug(c, t)) > 1
    ensures var (h, u) := TakenOut(c, t); var s := RemoveStart(h, u);
            && RemoveRun(s, k) == At(Top, r) && RemoveRun(s, k + 1) == Over(w)
            && r.Bin? && Inner(r) == 0 && -2 <= Lean(r) <= 2 && Ids(w) == RemoveStep(Ids(r))
            && (Stale(w) == 0 <==> StaysExact(h, Mark(u)))
            && (Balanced(Ids(w)) <==> StaysBalanced(h, Mark(u)))
  {
    StandsInBalanced(c, t);
    TakenStands(c, t);
    StartsAtNullExactly(c, t);
    var (h, u) := TakenOut(c, t);
    hide TakenOut, Plug, Size, Stands;
    k, r, w := StartOutcome(h, u);
    TestsAreStep(r);
  }

  lemma StartOutcome(h: Path, u: Stored) returns (k: nat, r: Stored, w: Stored)
    requires Good(u) && Stands(h, Mark(u) + 1) && (h.Top? ==> u.Bin?)
    ensures var s := RemoveStart(h, u); RemoveRun(s, k) == At(Top, r) && RemoveRun(s, k + 1) == Over(w)
    ensures r.Bin? && Inner(r) == 0 && -2 <= Lean(r) <= 2 && w == RemoveTests(r).t
    ensures Stale(w) == 0 <==> StaysExact(h, Mark(u))
    ensures Balanced(Ids(w)) <==> StaysBalanced(h, Mark(u))
  {
    if u.Bin? {
      GoodParts(u);
      StaleParts(u);
      assert RemoveTests(u) == Kept(u);
    }
    hide RemoveTests, StaysExact, StaysBalanced, Stands, RemoveRun, Balanced, Ids;
    if h.Top? {
      hide Stale;
      k, r, w := 0, u, u;
      RootEnds(u);
    } else {
      k, r, w := ClimbOutcome(h, u, Mark(u) + 1);
      if u.Bin? {
        hide Stale;
        LeavesLevel(h, u);
        Joins(h, u, 1, u, k, At(Top, r), Over(w));
        k := k + 1;
      }
    }
  }

  lemma {:induction false} RunsAgree(s: Climb, j: nat, k: nat)
    requires RemoveRun(s, j).Over? && RemoveRun(s, k).Over?
    ensures RemoveRun(s, j) == RemoveRun(s, k)
    decreases j
  {
    hide RemoveTests;
    if j > 0 && k > 0 && Going(s) {
      RunsAgree(Onward(s.c, RemoveTests(s.t)), j - 1, k - 1);
    }
  }

  /** So much for the climb itself, however many passes it has made when it ends. */
  lemma RemovalStaysExactly(c: Path, t: Stored, k: nat, w: Stored)
    requires t.Bin? && Stale(Plug(c, t)) == 0 && Balanced(Ids(Plug(c, t)))
    requires var (h, u) := TakenOut(c, t); RemoveRun(RemoveStart(h, u), k) == Over(w)
    ensures var (h, u) := TakenOut(c, t);
            Stale(w) == 0 && Balanced(Ids(w)) <==> StaysExact(h, Mark(u)) && StaysBalanced(h, Mark(u))
  {
    var (h, u) := TakenOut(c, t);
    var s := RemoveStart(h, u);
    StartsAtNullExactly(c, t);
    PlugSize(c, t);
    assert s.Null? ==> RemoveRun(s, k) == Null;
    hide TakenOut, RemoveRun, Plug;
    var j, r, e := RemovalOutcome(c, t);
    RunsAgree(s, j + 1, k);
  }

  /** A level below the root that leans left by two, its left child `o` untouched,
      where two tests fire: if `o` is even, or the inmost part that could turn the
      cascade on does not lean left, it is left balanced exactly when the part
      above that does not lean left. */
  lemma TwiceMendsExactly(c: Path, o: Stored, n: Cell, f: Stored) returns (k: nat, u: Stored)
    requires !c.Top? && o.Bin? && Good(o) && Good(f) && Mark(o) == Mark(f) + 2 && FiresTwice(o)
    requires Lean(o) == 0 || Lean(o.right.right.right) <= 0
    ensures Leaves(c, Bin(o, n, f), k, u) && Stale(u) == 0
    ensures Mark(u) == if Lean(o) == 0 then Mark(o) + 1 else Mark(o)
    ensures Good(u) <==> Lean(o.right.right) <= 0
  {
    k, u := HeavyEnds(c, o, n, f);
  }
}
