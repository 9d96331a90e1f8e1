/** Removals and an insert as written on concrete indexes: one removal that does
    harm, the next one, an insert after it that follows a null pointer, and a
    removal whose harm below the root is mended before the climb comes to its end. */
module AvlExamples {
  import opened AvlTree
  import opened AvlStored
  import opened AvlOutcome
  import opened AvlHeights

  function Nd(l: Stored, id: nat, height: nat, r: Stored): Stored { Bin(l, Cell(id, height), r) }

  function Lf(id: nat): Stored { Nd(Nil, id, 1, Nil) }

  function Four(): Stored { Nd(Nd(Nil, 0, 2, Lf(2)), 4, 3, Lf(6)) }

  function Fourteen(): Stored {
    Nd(Nd(Four(), 8, 4, Nd(Nil, 10, 2, Lf(12))), 14, 5, Nd(Lf(16), 18, 3, Nd(Nil, 20, 2, Lf(22))))
  }

  function ThirtySix(): Stored { Nd(Nil, 36, 2, Lf(38)) }

  /** A balanced index of twenty nodes with exact heights. */
  function Index0(): Stored { Nd(Fourteen(), 24, 6, Nd(Nd(Nd(Lf(26), 28, 2, Nil), 30, 3, Lf(32)), 34, 4, ThirtySix())) }

  /** After the removal of 28. */
  function Index1(): Stored {
    Nd(Nd(Four(), 8, 4, Nd(Nil, 10, 2, Lf(12))), 14, 5,
       Nd(Nd(Lf(16), 18, 2, Nil), 20, 5, Nd(Lf(22), 24, 4, Nd(Nd(Lf(26), 30, 2, Lf(32)), 34, 3, ThirtySix()))))
  }

  /** After the removal of 8 as well. */
  function Index2(): Stored {
    Nd(Nd(Nd(Nd(Nd(Nil, 0, 2, Lf(2)), 4, 3, Nd(Lf(6), 10, 2, Lf(12))), 14, 4, Nil), 16, 5, Lf(18)), 20, 5,
       Nd(Lf(22), 24, 4, Nd(Nd(Lf(26), 30, 2, Lf(32)), 34, 3, ThirtySix())))
  }

  lemma Pass(s: Climb, s': Climb, k: nat, e: Climb)
    requires Going(s) && Onward(s.c, RemoveTests(s.t)) == s' && RemoveRun(s', k) == e
    ensures RemoveRun(s, k + 1) == e
  {
  }

  lemma GoodPieces()
    ensures Good(Fourteen()) && Good(Index0().right)
  {
    var a, b, c := Nd(Nil, 10, 2, Lf(12)), Nd(Lf(16), 18, 3, Nd(Nil, 20, 2, Lf(22))), Nd(Lf(26), 28, 2, Nil);
    GoodSmall();
    assert Good(b);
    hide Good, Stale;
    GoodNd(Four(), 8, 4, a);
    GoodNd(Nd(Four(), 8, 4, a), 14, 5, b);
    GoodNd(c, 30, 3, Lf(32));
    GoodNd(Nd(c, 30, 3, Lf(32)), 34, 4, ThirtySix());
  }

  lemma GoodSmall()
    ensures Good(Four()) && Good(Nd(Nil, 10, 2, Lf(12))) && Good(Nd(Lf(26), 28, 2, Nil)) && Good(Lf(32))
    ensures Good(ThirtySix())
  {
  }

  lemma GoodNd(l: Stored, id: nat, height: nat, r: Stored)
    requires Good(l) && Good(r) && height == Max(Mark(l), Mark(r)) + 1 && -1 <= Mark(l) - Mark(r) <= 1
    ensures Good(Nd(l, id, height, r))
  {
    StaleParts(Nd(l, id, height, r));
    GoodIff(Nd(l, id, height, r));
  }

  /** Balanced and with exact heights before, neither after. */
  lemma Harmed()
    ensures Stale(Index0()) == 0 && Balanced(Ids(Index0()))
    ensures Stale(Index1()) != 0 && !Balanced(Ids(Index1()))
  {
    GoodPieces();
    GoodNd(Fourteen(), 24, 6, Index0().right);
    var z := Index1().right.right;
    FreshMarks(z);
    assert Ids(z) == Ids(Index1()).right.right;
    if Balanced(Ids(Index1())) {
      Parts(Ids(Index1()));
      Parts(Ids(Index1()).right);
    }
  }

  /** Taking 28 out of the one makes the other. */
  lemma Removes28()
    ensures var c := InLeft(Cell(30, 3), Lf(32),
                            InLeft(Cell(34, 4), ThirtySix(), InRight(Fourteen(), Cell(24, 6), Top)));
            var t := Nd(Lf(26), 28, 2, Nil); var (h, u) := TakenOut(c, t);
            && Plug(c, t) == Index0() && RemoveRun(RemoveStart(h, u), 4) == Over(Index1())
  {
    var c2 := InRight(Fourteen(), Cell(24, 6), Top);
    var c1 := InLeft(Cell(34, 4), ThirtySix(), c2);
    var c0 := InLeft(Cell(30, 3), Lf(32), c1);
    var u1 := Nd(Lf(26), 30, 2, Lf(32));
    var u2 := Nd(u1, 34, 3, ThirtySix());
    var r := Nd(Fourteen(), 24, 6, u2);
    assert RemoveTests(r).t == Index1();
    Pass(At(Top, r), Over(Index1()), 0, Over(Index1()));
    Pass(At(c2, Nd(u1, 34, 4, ThirtySix())), At(Top, r), 1, Over(Index1()));
    Pass(At(c1, Nd(Lf(26), 30, 3, Lf(32))), At(c2, Nd(u1, 34, 4, ThirtySix())), 2, Over(Index1()));
    Pass(At(c0, Lf(26)), At(c1, Nd(Lf(26), 30, 3, Lf(32))), 3, Over(Index1()));
  }

  /** A whole removal that does harm: it leaves a balanced index with exact
      heights unbalanced, with a height at the root that is wrong. */
  lemma WrittenClimbUnbalances()
    ensures exists c: Path, t: Stored, k: nat :: Removal(c, t, k, Index0(), Index1())
    ensures Stale(Index0()) == 0 && Balanced(Ids(Index0()))
    ensures Stale(Index1()) != 0 && !Balanced(Ids(Index1()))
  {
    Removes28();
    Harmed();
    var c := InLeft(Cell(30, 3), Lf(32), InLeft(Cell(34, 4), ThirtySix(), InRight(Fourteen(), Cell(24, 6), Top)));
    assert Removal(c, Nd(Lf(26), 28, 2, Nil), 4, Index0(), Index1());
  }

  /** Taking the node at `t` in `c` out of `w`, as written, leaves `w'`. */
  ghost predicate Removal(c: Path, t: Stored, k: nat, w: Stored, w': Stored) {
    && t.Bin? && Plug(c, t) == w
    && var (h, u) := TakenOut(c, t); RemoveRun(RemoveStart(h, u), k) == Over(w')
  }

  /** The next removal, of 8, begins in that state; its climb turns three times. */
  lemma NextRemoval()
    ensures var right := Index1().right;
            var c := InLeft(Cell(14, 5), right, Top);
            var t := Nd(Four(), 8, 4, Nd(Nil, 10, 2, Lf(12))); var (h, u) := TakenOut(c, t);
            && Plug(c, t) == Index1() && RemoveRun(RemoveStart(h, u), 4) == Over(Index2())
  {
    var right := Index1().right;
    var c2 := InLeft(Cell(14, 5), right, Top);
    var ten := Nd(Lf(6), 10, 2, Lf(12));
    var v := Nd(Nd(Nil, 0, 2, Lf(2)), 4, 3, ten);
    Pass(At(Top, Nd(v, 14, 5, right)), Over(Index2()), 0, Over(Index2()));
    Pass(At(c2, v), At(Top, Nd(v, 14, 5, right)), 1, Over(Index2()));
    Pass(At(c2, Nd(Four(), 10, 4, Lf(12))), At(c2, v), 2, Over(Index2()));
    Pass(At(InRight(Four(), Cell(10, 4), c2), Lf(12)), At(c2, Nd(Four(), 10, 4, Lf(12))), 3, Over(Index2()));
  }

  /** Inserting 17 then follows a null pointer: 16 leans by two away from it, and
      14 has no right child to turn up. */
  lemma InsertFollowsNull()
    ensures InsertStart(Top, Index2(), 17).At?
    ensures InsertRun(InsertStart(Top, Index2(), 17), 17, 2) == Null
  {
    var c1 := InLeft(Cell(20, 5), Index2().right, Top);
    var c0 := InRight(Index2().left.left, Cell(16, 5), c1);
    var t0 := Nd(Lf(17), 18, 1, Nil);
    assert InsertStart(Top, Index2(), 17) == InsertStart(c0, Lf(18), 17) == At(c0, t0);
    var t1 := Nd(Index2().left.left, 16, 5, Redo(t0));
    assert Onward(c0, InsertTests(t0, 17)) == At(c1, t1);
    assert InsertTests(t1, 17) == Stuck;
    assert InsertRun(At(c1, t1), 17, 1) == InsertRun(Null, 17, 0) == Null;
    assert InsertRun(At(c0, t0), 17, 2) == InsertRun(At(c1, t1), 17, 1);
  }

  function Thirty(): Stored { Nd(Nd(Lf(26), 28, 2, Nil), 30, 4, Nd(Lf(32), 34, 3, Nd(Lf(36), 38, 2, Nil))) }

  function Eight(): Stored { Nd(Four(), 8, 4, Nd(Nil, 10, 2, Lf(12))) }

  /** The path and subtree of 20 in another index, and that of its parent 14. */
  function Way(): Path { InLeft(Cell(24, 6), Thirty(), Top) }

  function Twenty(): (Path, Stored) {
    (InRight(Lf(16), Cell(18, 3), InRight(Eight(), Cell(14, 5), Way())), Nd(Nil, 20, 2, Lf(22)))
  }

  function Eighteen(): Stored { Nd(Lf(16), 18, 2, Lf(22)) }

  function Mended(): Stored {
    Nd(Nd(Four(), 8, 4, Nd(Nd(Lf(10), 12, 2, Nil), 14, 3, Eighteen())), 24, 5, Thirty())
  }

  /** The first two passes, up to the one that does harm. */
  lemma ComesToHarm()
    ensures var (h, u) := TakenOut(Twenty().0, Twenty().1);
            RemoveRun(RemoveStart(h, u), 2) == At(Way(), Nd(Eight(), 14, 5, Eighteen()))
    ensures !Balanced(RemoveStep(Ids(Nd(Eight(), 14, 5, Eighteen()))))
  {
    var e := At(Way(), Nd(Eight(), 14, 5, Eighteen()));
    var c1 := InRight(Eight(), Cell(14, 5), Way());
    Pass(At(c1, Nd(Lf(16), 18, 3, Lf(22))), e, 0, e);
    Pass(At(InRight(Lf(16), Cell(18, 3), c1), Lf(22)), At(c1, Nd(Lf(16), 18, 3, Lf(22))), 1, e);
  }

  lemma Mends()
    ensures RemoveRun(At(Way(), Nd(Eight(), 14, 5, Eighteen())), 5) == Over(Mended())
  {
    var f := Nd(Nd(Lf(10), 12, 2, Nil), 14, 3, Eighteen());
    var g := Nd(Four(), 8, 4, f);
    var w := Mended();
    var c3 := InRight(Four(), Cell(8, 4), Way());
    var d := Nd(Lf(10), 12, 4, Nd(Nil, 14, 3, Eighteen()));
    Pass(At(Top, Nd(g, 24, 6, Thirty())), Over(w), 0, Over(w));
    Pass(At(Way(), g), At(Top, Nd(g, 24, 6, Thirty())), 1, Over(w));
    Pass(At(c3, f), At(Way(), g), 2, Over(w));
    Pass(At(c3, d), At(c3, f), 3, Over(w));
    Pass(At(Way(), Nd(Eight(), 14, 5, Eighteen())), At(c3, d), 4, Over(w));
  }

  /** Harm below the root can be mended when the climb comes back: taking out 20
      turns 14 twice, in a pass that leaves its subtree unbalanced, and the index ends balanced and
      exact all the same (`ValidAgain`). */
  lemma MendedRemoval()
    ensures var (h, u) := TakenOut(Twenty().0, Twenty().1); var s := RemoveStart(h, u);
            var m := RemoveRun(s, 2);
            m.At? && m.t.Bin? && !Balanced(RemoveStep(Ids(m.t))) && RemoveRun(s, 7) == Over(Mended())
  {
    var (h, u) := TakenOut(Twenty().0, Twenty().1);
    ComesToHarm();
    Mends();
    RemoveRunAdds(RemoveStart(h, u), 2, 5);
  }

  lemma ValidAgain()
    ensures var w := Plug(Twenty().0, Twenty().1); Stale(w) == 0 && Balanced(Ids(w))
    ensures Stale(Mended()) == 0 && Balanced(Ids(Mended()))
  {
    assert Plug(Twenty().0, Twenty().1) == Nd(Fourteen(), 24, 6, Thirty());
    GoodPieces();
    GoodThirty();
    GoodNd(Fourteen(), 24, 6, Thirty());
    GoodNd(Four(), 8, 4, Mended().left.right);
    GoodNd(Mended().left, 24, 5, Thirty());
  }

  lemma GoodThirty()
    ensures Good(Thirty()) && Good(Four()) && Good(Mended().left.right)
  {
    GoodSmall();
    assert Good(Nd(Lf(32), 34, 3, Nd(Lf(36), 38, 2, Nil))) && Good(Nd(Lf(10), 12, 2, Nil)) && Good(Eighteen());
    hide Good, Stale;
    GoodNd(Nd(Lf(26), 28, 2, Nil), 30, 4, Nd(Lf(32), 34, 3, Nd(Lf(36), 38, 2, Nil)));
    GoodNd(Nd(Lf(10), 12, 2, Nil), 14, 3, Eighteen());
  }
}
