/** Where the pivot insert as it is written breaks the invariant. */
module BlinkAsWritten {
  import opened BlinkPage
  import opened BlinkTree
  import opened BlinkSteps
  import opened BlinkSplit

  // ------------------------------------------- where the code as written fails

  lemma MisplacedUnfits(m: map<Word, Page>, level: nat, low: int, p: Pivot, k: Word, pid: Word, sep: bool)
    requires PivotShape(p) && KidsPlaced(m, level, low, p) && low < k && k !in p.keys && pid !in p.kids
    requires !Lands(p, k, sep)
    ensures var got := InsertAsWritten(p, k, pid, sep);
            |got.kids| == |got.keys| + 1 && !KidsPlaced(m, level, low, got)
  {
    InsertMisplaces(p, k, pid, sep);
    var got := InsertAsWritten(p, k, pid, sep);
    var r := Rank(p.keys, k);
    assert m[p.kids[r]].low == LowAt(low, p.keys, r) < k;
    NotPlaced(m, level, low, got, r + 1);
  }

  lemma NotPlaced(m: map<Word, Page>, level: nat, low: int, p: Pivot, i: nat)
    requires |p.kids| == |p.keys| + 1 && i < |p.kids|
    requires p.kids[i] in m ==> m[p.kids[i]].low != LowAt(low, p.keys, i)
    ensures !KidsPlaced(m, level, low, p)
  {
  }

  lemma KidsSame(m: map<Word, Page>, m': map<Word, Page>, level: nat, low: int, q: Pivot)
    requires |q.kids| == |q.keys| + 1
    requires KidsPlaced(m', level, low, q) && Persist(m, m') && (forall c :: c in q.kids ==> c in m)
    ensures KidsPlaced(m, level, low, q)
  {
    forall i | 0 <= i < |q.kids|
      ensures q.kids[i] in m && m[q.kids[i]].level + 1 == level && m[q.kids[i]].low == LowAt(low, q.keys, i)
    {
      assert q.kids[i] in q.kids;
      assert m'[q.kids[i]].low == LowAt(low, q.keys, i);
    }
  }

  lemma InsertedKids(p: Pivot, k: Word, pid: Word, sep: bool)
    requires PivotShape(p)
    ensures var got := InsertAsWritten(p, k, pid, sep);
            |got.kids| == |got.keys| + 1 && forall c :: c in got.kids ==> c in p.kids || c == pid
  {
    var r := Rank(p.keys, k);
    if r < |p.keys| && p.keys[r] != k {
      InsertAtMembers(p.kids, r, pid);
      var kids := InsertAt(p.kids, r, pid);
      assert kids == [kids[0], kids[1]] + kids[2..];
    }
  }

  lemma KidsKnown(m: map<Word, Page>, level: nat, low: int, p: Pivot)
    requires |p.kids| == |p.keys| + 1 && KidsPlaced(m, level, low, p)
    ensures forall c :: c in p.kids ==> c in m
  {
    forall c | c in p.kids ensures c in m {
      var i :| 0 <= i < |p.kids| && p.kids[i] == c;
      assert p.kids[i] in m;
    }
  }

  lemma PutBreaksInv(s: State, o: nat)
    requires Inv(s) && Enabled(s, Put(o)) && !StepLands(AsWritten, s, Put(o))
    ensures !Inv(Apply(AsWritten, s, Put(o)))
  {
    var op := s.ops[o];
    var g := s.pages[op.cur];
    var p := g.body.pivot;
    CarriedFresh(s, o);
    assert Filled(s.pages, op.cur);
    var k, sib := op.post.key, op.post.sib;
    var got := InsertAsWritten(p, k, sib, true);
    var s' := Apply(AsWritten, s, Put(o));
    MisplacedUnfits(s.pages, g.level, g.low, p, k, sib, true);
    KidsKnown(s.pages, g.level, g.low, p);
    InsertedKids(p, k, sib, true);
    if Inv(s') {
      assert Filled(s'.pages, op.cur);
      KidsSame(s.pages, s'.pages, g.level, g.low, got);
    }
  }

  /** The half of the split page that the separator goes to. */
  lemma HalfMisplaced(s: State, o: nat, sib: Word, top: Word)
    requires Inv(s) && Enabled(s, Split(o, sib, top)) && !StepLands(AsWritten, s, Split(o, sib, top))
    ensures var op := s.ops[o]; var g := s.pages[op.cur]; var h := Cut(AsWritten, g, op);
            && h.left.PivotBody? && h.right.PivotBody?
            && |h.left.pivot.kids| == |h.left.pivot.keys| + 1 && |h.right.pivot.kids| == |h.right.pivot.keys| + 1
            && (forall c :: c in h.left.pivot.kids || c in h.right.pivot.kids ==> c in s.pages)
            && !(&& KidsPlaced(s.pages, g.level, g.low, h.left.pivot)
                 && KidsPlaced(s.pages, g.level, h.fence, h.right.pivot))
  {
    var op := s.ops[o];
    var g := s.pages[op.cur];
    var p := g.body.pivot;
    CarriedFresh(s, o);
    assert Filled(s.pages, op.cur);
    var k, x := op.post.key, op.post.sib;
    var c := CutPivot(p);
    CutPivotJoins(p);
    JoinedKids(s.pages, g.level, g.low, c);
    KidsKnown(s.pages, g.level, g.low, c.left);
    KidsKnown(s.pages, g.level, c.fence, c.right);
    assert forall y :: y in c.left.kids ==> y in Join(c).kids;
    assert forall y :: y in c.right.kids ==> y in Join(c).kids;
    assert forall y :: y in c.left.keys ==> y in Join(c).keys;
    assert forall y :: y in c.right.keys ==> y in Join(c).keys;
    if k > c.fence {
      MisplacedUnfits(s.pages, g.level, c.fence, c.right, k, x, false);
      InsertedKids(c.right, k, x, false);
    } else {
      MisplacedUnfits(s.pages, g.level, g.low, c.left, k, x, false);
      InsertedKids(c.left, k, x, false);
    }
  }

  /** Page `p` is divided into itself and `sib`; `top` may be a new root; all
      other pages keep level, fences and body. */
  ghost predicate Divided(m: map<Word, Page>, m': map<Word, Page>, p: Word, sib: Word, top: Word, h: Halves) {
    && p in m && sib !in m && top !in m && p in m' && sib in m'
    && (forall q :: q in m' ==> q in m || q == sib || q == top)
    && m'[p].level == m[p].level && m'[p].low == m[p].low && m'[p].high == h.fence && m'[p].body == h.left
    && m'[sib].level == m[p].level && m'[sib].low == h.fence && m'[sib].high == m[p].high && m'[sib].body == h.right
    && (forall q :: q in m && q != p ==>
          && q in m' && m'[q].level == m[q].level && m'[q].low == m[q].low && m'[q].high == m[q].high
          && m'[q].body == m[q].body)
    && (top in m' ==> m'[top].body.PivotBody?)
  }

  lemma RelinkDivides(m: map<Word, Page>, p: Word, sib: Word, top: Word, h: Halves, up: Word)
    requires AllLinked(m) && p in m && sib !in m && top !in m && sib != top
    requires m[p].next != PAGE_ID_NULL ==> m[p].next in m
    ensures Divided(m, SetPar(Relink(m, p, sib, h), p, up), p, sib, top, h)
    ensures var m1 := SetPar(SetPar(Relink(m, p, sib, h), p, up), sib, up);
            Divided(m, m1[top := NewRoot(m[p].level + 1, h, p, sib)], p, sib, top, h)
  {
    RelinkShape(m, p, sib, h);
  }

  /** The pages after a split. */
  lemma SplitPagesAre(rd: Reading, s: State, o: nat, sib: Word, top: Word)
    requires AllLinked(s.pages) && Enabled(s, Split(o, sib, top))
    ensures var op := s.ops[o]; var p := op.cur; var g := s.pages[p]; var h := Cut(rd, g, op);
            var m := Relink(s.pages, p, sib, h);
            Apply(rd, s, Split(o, sib, top)).pages ==
            if g.par == PAGE_ID_NULL then SetPar(SetPar(m, p, top), sib, top)[top := NewRoot(g.level + 1, h, p, sib)]
            else SetPar(m, p, ParentOf(op, g))
  {
    hide AllLinked, Cut, NewRoot, ParentOf;
  }

  lemma SplitDivides(rd: Reading, s: State, o: nat, sib: Word, top: Word)
    requires AllLinked(s.pages) && Enabled(s, Split(o, sib, top))
    ensures var op := s.ops[o];
            Divided(s.pages, Apply(rd, s, Split(o, sib, top)).pages, op.cur, sib, top, Cut(rd, s.pages[op.cur], op))
  {
    hide Apply, ApplySplit, Relink, Divided, SetPar, NewRoot, ParentOf, AllLinked, Cut;
    SplitPagesAre(rd, s, o, sib, top);
    var op := s.ops[o];
    var g := s.pages[op.cur];
    var h, up := Cut(rd, g, op), if g.par == PAGE_ID_NULL then top else ParentOf(op, g);
    assert g.next != PAGE_ID_NULL ==> g.next in s.pages;
    assert op.cur in s.pages && sib !in s.pages && top !in s.pages && sib != top;
    hide *;
    RelinkDivides(s.pages, op.cur, sib, top, h, up);
  }

  lemma SplitBreaksInv(s: State, o: nat, sib: Word, top: Word)
    requires Inv(s) && Enabled(s, Split(o, sib, top)) && !StepLands(AsWritten, s, Split(o, sib, top))
    ensures !Inv(Apply(AsWritten, s, Split(o, sib, top)))
  {
    var op := s.ops[o];
    var g := s.pages[op.cur];
    var h := Cut(AsWritten, g, op);
    var m' := Apply(AsWritten, s, Split(o, sib, top)).pages;
    HalfMisplaced(s, o, sib, top);
    SplitDivides(AsWritten, s, o, sib, top);
    assert Persist(s.pages, m');
    if AllFilled(m') {
      assert Filled(m', op.cur) && Filled(m', sib);
      KidsSame(s.pages, m', g.level, g.low, h.left.pivot);
      KidsSame(s.pages, m', g.level, h.fence, h.right.pivot);
    }
  }

  /** The code as written keeps the invariant in exactly the steps whose
      separator goes behind all keys of its page, or in front of them all when
      no split is needed. */
  lemma StepKeepsInvExactly(s: State, st: Step)
    requires Inv(s) && Enabled(s, st)
    ensures Inv(Apply(AsWritten, s, st)) <==> StepLands(AsWritten, s, st)
  {
    if StepLands(AsWritten, s, st) {
      StepKeepsInv(AsWritten, s, st);
    } else if st.Put? {
      PutBreaksInv(s, st.o);
    } else {
      SplitBreaksInv(s, st.o, st.sib, st.top);
    }
  }
}
