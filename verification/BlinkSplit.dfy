/** A split keeps the invariant, and so does every step.  The new sibling stays
    out of every other operation's reach until its parent is latched. */
module BlinkSplit {
  import opened BlinkPage
  import opened BlinkTree
  import opened BlinkSteps

  // ------------------------------------------------------------- splitting

  /** The two halves of page `p` fit between the old fences and the new one. */
  ghost predicate HalvesFit(m: map<Word, Page>, g: Page, h: Halves, fanout: nat, cap: nat) {
    && g.low < h.fence < g.high
    && BodyFits(m, g.level, g.low, h.fence, h.left) && BodyFits(m, g.level, h.fence, g.high, h.right)
    && InSize(fanout, cap, h.left) && InSize(fanout, cap, h.right)
  }

  lemma LeafHalvesFit(m: map<Word, Page>, g: Page, e: Rec, fanout: nat, cap: nat)
    requires g.body.LeafBody? && BodyFits(m, g.level, g.low, g.high, g.body)
    requires |g.body.recs| == cap >= 3 && g.low < e.key <= g.high
    ensures var c := SplitLeaf(g.body.recs, e);
            HalvesFit(m, g, Halves(LeafBody(c.left), c.fence, LeafBody(c.right)), fanout, cap)
  {
    hide SplitLeaf, LeafInsert, HasKey;
    var recs := g.body.recs;
    var c := SplitLeaf(recs, e);
    SplitLeafJoins(recs, e, cap);
    StaysInBounds(recs, e, g.low, g.high);
    FenceInside(recs, cap, g.low, g.high);
    hide Sorted;
    EachInBounds(c.left, c.right, g.low, g.high);
  }

  lemma StaysInBounds(recs: seq<Rec>, e: Rec, low: int, high: int)
    requires Sorted(recs) && low < e.key <= high && forall r :: r in recs ==> low < r.key <= high
    ensures forall r :: r in LeafInsert(recs, e) ==> low < r.key <= high
  {
    LeafInsertSorted(recs, e);
  }

  lemma FenceInside(recs: seq<Rec>, cap: nat, low: int, high: int)
    requires Sorted(recs) && |recs| == cap >= 3 && forall r :: r in recs ==> low < r.key <= high
    ensures low < recs[cap / 2].key < high
  {
    assert recs[cap / 2] in recs && recs[cap - 1] in recs && recs[cap / 2].key < recs[cap - 1].key;
  }

  lemma EachInBounds(a: seq<Rec>, b: seq<Rec>, low: int, high: int)
    requires forall r :: r in a + b ==> low < r.key <= high
    ensures forall r :: r in a || r in b ==> low < r.key <= high
  {
    forall r | r in a || r in b ensures low < r.key <= high {
      assert r in a + b;
    }
  }

  lemma JoinedKids(m: map<Word, Page>, level: nat, low: int, c: PivotCut)
    requires |c.left.kids| == |c.left.keys| + 1 && |c.right.kids| == |c.right.keys| + 1
    requires KidsPlaced(m, level, low, Join(c))
    ensures KidsPlaced(m, level, low, c.left) && KidsPlaced(m, level, c.fence, c.right)
  {
    var j := Join(c);
    var n := |c.left.kids|;
    forall i | 0 <= i < n
      ensures c.left.kids[i] in m && m[c.left.kids[i]].level + 1 == level
      ensures m[c.left.kids[i]].low == LowAt(low, c.left.keys, i)
    {
      assert j.kids[i] == c.left.kids[i] && LowAt(low, j.keys, i) == LowAt(low, c.left.keys, i);
    }
    forall i | 0 <= i < |c.right.kids|
      ensures c.right.kids[i] in m && m[c.right.kids[i]].level + 1 == level
      ensures m[c.right.kids[i]].low == LowAt(c.fence, c.right.keys, i)
    {
      assert j.kids[n + i] == c.right.kids[i] && LowAt(low, j.keys, n + i) == LowAt(c.fence, c.right.keys, i);
    }
  }

  lemma PivotHalvesFit(m: map<Word, Page>, g: Page, k: Word, sib: Word, fanout: nat, cap: nat)
    requires g.body.PivotBody? && BodyFits(m, g.level, g.low, g.high, g.body)
    requires |g.body.pivot.keys| + 1 == fanout >= 4
    requires k !in g.body.pivot.keys && g.low < k < g.high && sib in m && m[sib].low == k && m[sib].level + 1 == g.level
    ensures var c := SplitPivot(Intended, g.body.pivot, k, sib);
            && HalvesFit(m, g, Halves(PivotBody(c.left), c.fence, PivotBody(c.right)), fanout, cap)
            && (forall x :: x in c.left.kids || x in c.right.kids ==> x in g.body.pivot.kids || x == sib)
  {
    hide SplitPivot, PlaceRight;
    var p := g.body.pivot;
    var c := SplitPivot(Intended, p, k, sib);
    SplitPivotJoins(p, k, sib, |p.keys|);
    PlacedFits(m, g.level, g.low, g.high, p, k, sib);
    JoinedKids(m, g.level, g.low, c);
    var j := Join(c);
    assert c.left.keys[0] == j.keys[0] && c.right.keys[|c.right.keys| - 1] == j.keys[|j.keys| - 1];
    forall x | x in c.left.kids || x in c.right.kids ensures x in p.kids || x == sib {
      assert x in j.kids;
    }
  }

  /** A page's neighbour is a different page. */
  lemma NextElse(m: map<Word, Page>, p: Word)
    requires AllLinked(m) && p in m && m[p].next != PAGE_ID_NULL
    ensures m[p].next in m && m[p].next != p
  {
    assert Linked(m, p);
  }

  lemma RelinkShape(m: map<Word, Page>, p: Word, sib: Word, h: Halves)
    requires AllLinked(m) && p in m && sib !in m && (m[p].next != PAGE_ID_NULL ==> m[p].next in m)
    ensures var m' := Relink(m, p, sib, h); var g := m[p];
      && m'.Keys == m.Keys + {sib}
      && m'[p] == g.(high := h.fence, next := sib, body := h.left)
      && m'[sib] == Page(g.level, h.fence, g.high, g.next, p, PAGE_ID_NULL, h.right)
      && (forall q :: q in m && q != p ==> m'[q] == m[q].(back := if q == g.next then sib else m[q].back))
      && Persist(m, m')
  {
    if m[p].next != PAGE_ID_NULL {
      NextElse(m, p);
    }
    assert PAGE_ID_NULL in m ==> Linked(m, PAGE_ID_NULL);
  }

  lemma RelinkLinked(m: map<Word, Page>, p: Word, sib: Word, h: Halves)
    requires AllLinked(m) && p in m && sib !in m && sib != PAGE_ID_NULL
    requires m[p].low < h.fence < m[p].high && (m[p].next != PAGE_ID_NULL ==> m[p].next in m)
    ensures AllLinked(Relink(m, p, sib, h))
  {
    var m' := Relink(m, p, sib, h);
    RelinkShape(m, p, sib, h);
    forall q | q in m' ensures Linked(m', q) {
      assert Linked(m, p);
      if q in m {
        assert Linked(m, q);
      }
    }
  }

  lemma RelinkApart(m: map<Word, Page>, p: Word, sib: Word, h: Halves)
    requires AllLinked(m) && Apart(m) && p in m && sib !in m
    requires m[p].low < h.fence < m[p].high && (m[p].next != PAGE_ID_NULL ==> m[p].next in m)
    ensures Apart(Relink(m, p, sib, h))
  {
    var m' := Relink(m, p, sib, h);
    RelinkShape(m, p, sib, h);
    forall q, r | q in m' && r in m' ensures Disjoint(m', q, r) {
      var q0, r0 := if q == sib then p else q, if r == sib then p else r;
      assert Disjoint(m, q0, r0);
    }
  }

  lemma RelinkFilled(m: map<Word, Page>, p: Word, sib: Word, h: Halves, fanout: nat, cap: nat)
    requires AllLinked(m) && AllFilled(m) && Roomy(m, fanout, cap) && p in m && sib !in m
    requires HalvesFit(m, m[p], h, fanout, cap) && (m[p].next != PAGE_ID_NULL ==> m[p].next in m)
    ensures AllFilled(Relink(m, p, sib, h)) && Roomy(Relink(m, p, sib, h), fanout, cap)
  {
    var m' := Relink(m, p, sib, h);
    RelinkShape(m, p, sib, h);
    var g := m[p];
    BodyStable(m, m', g.level, g.low, h.fence, h.left);
    BodyStable(m, m', g.level, h.fence, g.high, h.right);
    forall q | q in m' ensures Filled(m', q) {
      if q in m && q != p {
        assert Filled(m, q);
        BodyStable(m, m', m[q].level, m[q].low, m[q].high, m[q].body);
      }
    }
  }

  /** The cut of a full page, in the intended reading or where the code lands. */
  lemma CutFits(rd: Reading, s: State, o: nat, sib: Word, top: Word)
    requires Inv(s) && Enabled(s, Split(o, sib, top)) && StepLands(rd, s, Split(o, sib, top))
    ensures var op := s.ops[o]; var g := s.pages[op.cur]; var h := Cut(rd, g, op);
      && HalvesFit(s.pages, g, h, s.fanout, s.cap)
      && (g.body.LeafBody? ==> h.left.LeafBody? && h.right.LeafBody?)
      && (g.body.PivotBody? ==>
            && h.left.PivotBody? && h.right.PivotBody?
            && forall x :: x in h.left.pivot.kids || x in h.right.pivot.kids ==>
                 x in g.body.pivot.kids || x == SibOf(op))
  {
    var op := s.ops[o];
    var g := s.pages[op.cur];
    assert OpOk(s, op);
    assert Filled(s.pages, op.cur);
    match g.body
    case LeafBody(recs) =>
      LeafHalvesFit(s.pages, g, op.e, s.fanout, s.cap);
    case PivotBody(p) =>
      CarriedFresh(s, o);
      if rd.AsWritten? {
        SplitLandsExactly(p, op.post.key, op.post.sib);
      }
      PivotHalvesFit(s.pages, g, op.post.key, op.post.sib, s.fanout, s.cap);
  }

  lemma FreshUnposted(m: map<Word, Page>, sib: Word)
    requires AllFilled(m) && sib !in m
    ensures Unposted(m, sib)
  {
    forall p | p in m && m[p].body.PivotBody? ensures sib !in m[p].body.pivot.kids {
      assert Filled(m, p);
      var q := m[p].body.pivot;
      assert forall i :: 0 <= i < |q.kids| ==> q.kids[i] in m;
    }
  }

  predicate HasKid(b: Body, x: Word) {
    b.PivotBody? && x in b.pivot.kids
  }

  lemma RelinkUnposted(m: map<Word, Page>, p: Word, sib: Word, h: Halves, up: Word, x: Word)
    requires AllLinked(m) && p in m && sib !in m && (m[p].next != PAGE_ID_NULL ==> m[p].next in m)
    requires Unposted(m, x) && !HasKid(h.left, x) && !HasKid(h.right, x)
    ensures Unposted(SetPar(Relink(m, p, sib, h), p, up), x)
  {
    RelinkShape(m, p, sib, h);
    var m' := SetPar(Relink(m, p, sib, h), p, up);
    forall q | q in m' && m'[q].body.PivotBody? ensures x !in m'[q].body.pivot.kids {
      if q in m && q != p {
        assert m'[q].body == m[q].body;
      }
    }
  }

  /** The state after a split below the top, before the separator is posted. */
  function AfterSplit(s: State, o: nat, sib: Word, h: Halves, up: Word): State
    requires o in s.ops && s.ops[o].Work? && s.ops[o].cur in s.pages
    requires var g := s.pages[s.ops[o].cur]; g.next != PAGE_ID_NULL ==> g.next in s.pages
  {
    var op := s.ops[o];
    Set(s, o, Seek(op.e, up, Pop(op.stack), Sep(h.fence, sib), op.cur))
      .(pages := SetPar(Relink(s.pages, op.cur, sib, h), op.cur, up))
  }

  /** What a split step provides, whichever page kind it splits. */
  ghost predicate Splitting(s: State, o: nat, sib: Word, h: Halves) {
    && Inv(s) && o in s.ops && s.ops[o].Work? && s.ops[o].cur in s.pages
    && sib !in s.pages && sib != PAGE_ID_NULL
    && (s.pages[s.ops[o].cur].next != PAGE_ID_NULL ==> s.pages[s.ops[o].cur].next in s.pages)
    && HalvesFit(s.pages, s.pages[s.ops[o].cur], h, s.fanout, s.cap)
    && (forall x :: HasKid(h.left, x) || HasKid(h.right, x) ==>
          HasKid(s.pages[s.ops[o].cur].body, x) || x == SibOf(s.ops[o]))
  }

  lemma SplitPages(s: State, o: nat, sib: Word, h: Halves, up: Word)
    requires Splitting(s, o, sib, h)
    ensures var m' := AfterSplit(s, o, sib, h, up).pages;
            PagesOk(m') && Persist(s.pages, m') && Roomy(m', s.fanout, s.cap)
  {
    var p := s.ops[o].cur;
    RelinkShape(s.pages, p, sib, h);
    RelinkLinked(s.pages, p, sib, h);
    RelinkApart(s.pages, p, sib, h);
    RelinkFilled(s.pages, p, sib, h, s.fanout, s.cap);
    SetParPages(Relink(s.pages, p, sib, h), p, up);
  }

  lemma SplitPending(s: State, o: nat, sib: Word, h: Halves, up: Word)
    requires Splitting(s, o, sib, h)
    ensures var s' := AfterSplit(s, o, sib, h, up);
            NoNewPending(s, s') && (forall q :: Pending(s, q) ==> Pending(s', q)) && Pending(s', sib)
  {
    var s' := AfterSplit(s, o, sib, h, up);
    forall q | q in s.pages && Pending(s', q) ensures Pending(s, q) {
      var i :| i in s'.ops && PendingOf(s'.ops[i]) == q;
      assert PendingOf(s.ops[i]) == q;
    }
    forall q | Pending(s, q) ensures Pending(s', q) {
      var i :| i in s.ops && PendingOf(s.ops[i]) == q;
      assert PendingOf(s'.ops[i]) == q;
    }
    assert PendingOf(s'.ops[o]) == sib;
  }

  /** A sibling that some operation carries is not among the children that the
      split page gets from its own operation. */
  lemma SplitRespects(s: State, o: nat, sib: Word, h: Halves, up: Word, i: nat)
    requires Splitting(s, o, sib, h) && i in s.ops && i != o
    ensures Respects(s, AfterSplit(s, o, sib, h, up), s.ops[i])
  {
    var p := s.ops[o].cur;
    var op := s.ops[i];
    assert OpOk(s, op);
    RelinkShape(s.pages, p, sib, h);
    assert Linked(s.pages, p) && HeldBy(op) != p;
    assert PendingOf(op) in s.pages ==> Linked(s.pages, PendingOf(op));
    if SibOf(op) >= 0 {
      assert Unposted(s.pages, SibOf(op));
      RelinkUnposted(s.pages, p, sib, h, up, SibOf(op));
    }
  }

  lemma NewSibUnposted(s: State, o: nat, sib: Word, h: Halves, up: Word)
    requires Splitting(s, o, sib, h)
    ensures Unposted(AfterSplit(s, o, sib, h, up).pages, sib)
  {
    assert OpOk(s, s.ops[o]);
    FreshUnposted(s.pages, sib);
    RelinkUnposted(s.pages, s.ops[o].cur, sib, h, up, sib);
  }

  /** The page to post to: the last one passed, or the hint. */
  ghost predicate ParentKnown(s: State, o: nat, up: Word)
    requires o in s.ops && s.ops[o].Work? && s.ops[o].cur in s.pages
  {
    var op := s.ops[o];
    var g := s.pages[op.cur];
    && up != PAGE_ID_NULL
    && Known(s, up) && s.pages[up].level == g.level + 1 && s.pages[up].low <= g.low
    && StackOk(s, s.pages[up].level, s.pages[up].low, Pop(op.stack))
  }

  lemma ParentIsKnown(s: State, o: nat)
    requires Inv(s) && o in s.ops && s.ops[o].Work? && s.ops[o].cur in s.pages
    requires s.pages[s.ops[o].cur].par != PAGE_ID_NULL
    ensures ParentKnown(s, o, ParentOf(s.ops[o], s.pages[s.ops[o].cur]))
  {
    var op := s.ops[o];
    assert OpOk(s, op) && ParOk(s, op.cur);
    var n := |op.stack|;
    if n > 0 {
      var up := op.stack[n - 1];
      assert Known(s, up);
      assert Linked(s.pages, up);
      forall j | 0 <= j < n - 1
        ensures Known(s, op.stack[j]) && s.pages[op.stack[j]].low <= s.pages[up].low
      {
        StackRises(s, s.pages[op.cur].level, s.pages[op.cur].low, op.stack, j);
      }
    }
  }

  lemma {:induction false} StackRises(s: State, level: nat, low: int, stack: seq<Word>, j: nat)
    requires StackOk(s, level, low, stack) && j < |stack|
    ensures Known(s, stack[j]) && Known(s, stack[|stack| - 1])
    ensures s.pages[stack[j]].low <= s.pages[stack[|stack| - 1]].low
    decreases |stack| - j
  {
    if j + 1 < |stack| {
      StackRises(s, level, low, stack, j + 1);
      assert Known(s, stack[j + 1 - 1]) && s.pages[stack[j + 1 - 1]].low <= s.pages[stack[j + 1]].low;
    }
  }

  lemma SplitOps(s: State, o: nat, sib: Word, h: Halves, up: Word)
    requires Splitting(s, o, sib, h) && ParentKnown(s, o, up)
    ensures OpsOk(AfterSplit(s, o, sib, h, up))
  {
    var op := s.ops[o];
    var s' := AfterSplit(s, o, sib, h, up);
    SplitPages(s, o, sib, h, up);
    SplitPending(s, o, sib, h, up);
    NewSibUnposted(s, o, sib, h, up);
    RelinkShape(s.pages, op.cur, sib, h);
    StackStable(s, s', s.pages[up].level, s.pages[up].low, Pop(op.stack));
    assert OpOk(s', s'.ops[o]);
    forall i | i in s.ops && i != o ensures Respects(s, s', s.ops[i]) {
      SplitRespects(s, o, sib, h, up, i);
    }
    OthersOk(s, s', o);
  }

  lemma SplitPar(s: State, o: nat, sib: Word, h: Halves, up: Word, q: Word)
    requires Splitting(s, o, sib, h) && ParentKnown(s, o, up)
    requires var s' := AfterSplit(s, o, sib, h, up);
             Persist(s.pages, s'.pages) && NoNewPending(s, s') && q in s'.pages
             && Pending(s', sib) && forall x :: Pending(s, x) ==> Pending(s', x)
    ensures ParOk(AfterSplit(s, o, sib, h, up), q)
  {
    var s' := AfterSplit(s, o, sib, h, up);
    var p := s.ops[o].cur;
    RelinkShape(s.pages, p, sib, h);
    if q != sib && q != p {
      assert ParOk(s, q);
      assert s'.pages[q].par == s.pages[q].par;
    }
  }

  lemma SplitPars(s: State, o: nat, sib: Word, h: Halves, up: Word)
    requires Splitting(s, o, sib, h) && ParentKnown(s, o, up)
    ensures ParsOk(AfterSplit(s, o, sib, h, up))
  {
    var s' := AfterSplit(s, o, sib, h, up);
    SplitPages(s, o, sib, h, up);
    SplitPending(s, o, sib, h, up);
    forall q | q in s'.pages ensures ParOk(s', q) {
      SplitPar(s, o, sib, h, up, q);
    }
  }

  lemma SplitTops(s: State, o: nat, sib: Word, h: Halves, up: Word)
    requires Splitting(s, o, sib, h) && ParentKnown(s, o, up)
    ensures TopsOk(AfterSplit(s, o, sib, h, up))
  {
    SplitPages(s, o, sib, h, up);
    SplitPending(s, o, sib, h, up);
    SplitIsBelow(s, o, sib, h, up);
    hide TopsOk, Persist, NoNewPending, AllLinked, Apart, AllFilled, Roomy, ParsOk, OpsOk, Exclusive;
    hide HalvesFit, ParentKnown, Relink;
    TopsStable(s, AfterSplit(s, o, sib, h, up));
  }

  /** A page with a parent is not at the top, and neither is its new sibling. */
  lemma SplitIsBelow(s: State, o: nat, sib: Word, h: Halves, up: Word)
    requires Splitting(s, o, sib, h) && ParentKnown(s, o, up)
    ensures |s.tops| >= 1
    ensures var s', a := AfterSplit(s, o, sib, h, up), s.tops[|s.tops| - 1];
            && a in s.pages && a in s'.pages && s'.pages[a].high == s.pages[a].high
            && forall q :: q in s'.pages && q !in s.pages ==> s'.pages[q].level < |s.tops|
  {
    RelinkShape(s.pages, s.ops[o].cur, sib, h);
    hide Relink, BodyFits, ParsOk, OpsOk, Roomy, AllFilled, HalvesFit, Linked, Apart, AllLinked, Exclusive;
  }

  lemma SplitExclusive(s: State, o: nat, sib: Word, h: Halves, up: Word)
    requires Splitting(s, o, sib, h)
    ensures Exclusive(AfterSplit(s, o, sib, h, up).ops)
  {
    forall i | i in s.ops && i != o ensures SibOf(s.ops[i]) != sib {
      assert OpOk(s, s.ops[i]);
    }
  }

  lemma SplitBelowTop(s: State, o: nat, sib: Word, h: Halves)
    requires Splitting(s, o, sib, h) && s.pages[s.ops[o].cur].par != PAGE_ID_NULL
    ensures Inv(AfterSplit(s, o, sib, h, ParentOf(s.ops[o], s.pages[s.ops[o].cur])))
  {
    var up := ParentOf(s.ops[o], s.pages[s.ops[o].cur]);
    ParentIsKnown(s, o);
    SplitPages(s, o, sib, h, up);
    SplitOps(s, o, sib, h, up);
    SplitPars(s, o, sib, h, up);
    SplitTops(s, o, sib, h, up);
    SplitExclusive(s, o, sib, h, up);
  }

  /** The state after the root has split and a new root stands above it. */
  function AfterGrow(s: State, o: nat, sib: Word, h: Halves, top: Word): State
    requires o in s.ops && s.ops[o].Work? && s.ops[o].cur in s.pages
    requires var g := s.pages[s.ops[o].cur]; g.next != PAGE_ID_NULL ==> g.next in s.pages
  {
    var p := s.ops[o].cur;
    var m := SetPar(SetPar(Relink(s.pages, p, sib, h), p, top), sib, top);
    Set(s, o, Publish(top)).(pages := m[top := NewRoot(s.pages[p].level + 1, h, p, sib)], tops := s.tops + [top])
  }

  /** A page without a parent that nobody is about to hang in is the root. */
  lemma TopIsWhole(s: State, p: Word)
    requires Inv(s) && Known(s, p) && s.pages[p].par == PAGE_ID_NULL
    ensures p == s.tops[|s.tops| - 1] && s.pages[p].level + 1 == |s.tops|
    ensures s.pages[p].low == -1 && s.pages[p].high == PAGE_ID_NULL && s.pages[p].next == PAGE_ID_NULL
  {
    var a := s.tops[|s.tops| - 1];
    assert ParOk(s, p) && Known(s, a);
    assert Disjoint(s.pages, p, a) && Linked(s.pages, p) && Linked(s.pages, a);
  }

  lemma AddTop(m: map<Word, Page>, top: Word, level: nat, h: Halves, p: Word, sib: Word)
    requires PagesOk(m) && top !in m && top != PAGE_ID_NULL
    requires forall q :: q in m ==> m[q].level < level
    requires p in m && sib in m && m[p].level + 1 == level && m[p].low == -1
    requires m[sib].level + 1 == level && m[sib].low == h.fence && -1 < h.fence < PAGE_ID_NULL
    ensures var m' := m[top := NewRoot(level, h, p, sib)]; PagesOk(m') && Persist(m, m')
  {
    var m' := m[top := NewRoot(level, h, p, sib)];
    forall q | q in m' ensures Linked(m', q) {
      if q != top {
        assert Linked(m, q);
      }
    }
    forall q, r | q in m' && r in m' ensures Disjoint(m', q, r) {
      if q != top && r != top {
        assert Disjoint(m, q, r);
      }
    }
    forall q | q in m' ensures Filled(m', q) {
      if q != top {
        assert Filled(m, q);
        BodyStable(m, m', m[q].level, m[q].low, m[q].high, m[q].body);
      }
    }
  }

  ghost predicate Growing(s: State, o: nat, sib: Word, h: Halves, top: Word) {
    && Splitting(s, o, sib, h) && top !in s.pages && top != sib && top != PAGE_ID_NULL
    && s.pages[s.ops[o].cur].par == PAGE_ID_NULL
  }

  lemma GrowPages(s: State, o: nat, sib: Word, h: Halves, top: Word)
    requires Growing(s, o, sib, h, top)
    ensures var s' := AfterGrow(s, o, sib, h, top);
            PagesOk(s'.pages) && Persist(s.pages, s'.pages) && Roomy(s'.pages, s.fanout, s.cap)
  {
    hide Relink, BodyFits, Apart, ParsOk, Linked, AllLinked, Exclusive, Cut, Safe, StackOk;
    var p := s.ops[o].cur;
    assert OpOk(s, s.ops[o]);
    TopIsWhole(s, p);
    RelinkShape(s.pages, p, sib, h);
    SplitPages(s, o, sib, h, top);
    var m := SetPar(Relink(s.pages, p, sib, h), p, top);
    SetParPages(m, sib, top);
    TopIsRoomy(m, sib, top, s.fanout, s.cap, s.pages[p].level + 1, h, p);
    hide Roomy, NewRoot, OpsOk, HalvesFit;
    AddTop(SetPar(m, sib, top), top, s.pages[p].level + 1, h, p, sib);
  }

  lemma TopIsRoomy(m: map<Word, Page>, sib: Word, top: Word, fanout: nat, cap: nat, level: nat, h: Halves, p: Word)
    requires Roomy(m, fanout, cap) && sib in m && fanout >= 2
    ensures Roomy(SetPar(m, sib, top)[top := NewRoot(level, h, p, sib)], fanout, cap)
  {
  }

  lemma GrowPending(s: State, o: nat, sib: Word, h: Halves, top: Word)
    requires Growing(s, o, sib, h, top)
    ensures SamePending(s, AfterGrow(s, o, sib, h, top))
  {
    SetPending(s, o, Publish(top));
    var s1, s' := Set(s, o, Publish(top)), AfterGrow(s, o, sib, h, top);
    assert forall q :: Pending(s', q) <==> Pending(s1, q);
  }

  lemma GrowRespects(s: State, o: nat, sib: Word, h: Halves, top: Word, i: nat)
    requires Growing(s, o, sib, h, top) && i in s.ops && i != o
    ensures Respects(s, AfterGrow(s, o, sib, h, top), s.ops[i])
  {
    hide AllFilled, Filled, Apart, ParsOk, AllLinked, Exclusive, Cut, Safe;
    var s' := AfterGrow(s, o, sib, h, top);
    var p := s.ops[o].cur;
    var op := s.ops[i];
    assert OpOk(s, op) && OpOk(s, s.ops[o]);
    TopIsWhole(s, p);
    RelinkShape(s.pages, p, sib, h);
    SplitRespects(s, o, sib, h, top, i);
    if SibOf(op) >= 0 {
      GrowUnposted(s, o, sib, h, top, i);
    }
  }

  lemma GrowUnposted(s: State, o: nat, sib: Word, h: Halves, top: Word, i: nat)
    requires Growing(s, o, sib, h, top) && i in s.ops && i != o && SibOf(s.ops[i]) >= 0
    requires Unposted(SetPar(Relink(s.pages, s.ops[o].cur, sib, h), s.ops[o].cur, top), SibOf(s.ops[i]))
    ensures Unposted(AfterGrow(s, o, sib, h, top).pages, SibOf(s.ops[i]))
  {
    var p, s' := s.ops[o].cur, AfterGrow(s, o, sib, h, top);
    var x, m := SibOf(s.ops[i]), SetPar(Relink(s.pages, p, sib, h), p, top);
    assert OpOk(s, s.ops[i]) && OpOk(s, s.ops[o]);
    TopIsWhole(s, p);
    RelinkShape(s.pages, p, sib, h);
    assert s.pages[x].level < s.pages[p].level by { assert s.pages[x].level + 1 < |s.tops|; }
    hide Relink, Inv;
    forall q | q in s'.pages && s'.pages[q].body.PivotBody? ensures x !in s'.pages[q].body.pivot.kids {
      if q != top {
        assert s'.pages[q].body == m[q].body;
      }
    }
  }

  lemma GrowOps(s: State, o: nat, sib: Word, h: Halves, top: Word)
    requires Growing(s, o, sib, h, top)
    ensures OpsOk(AfterGrow(s, o, sib, h, top))
  {
    var s' := AfterGrow(s, o, sib, h, top);
    GrowPages(s, o, sib, h, top);
    GrowPending(s, o, sib, h, top);
    assert s'.tops[|s.tops|] == top;
    forall i | i in s.ops && i != o ensures Respects(s, s', s.ops[i]) {
      GrowRespects(s, o, sib, h, top, i);
    }
    OthersOk(s, s', o);
  }

  lemma GrowPars(s: State, o: nat, sib: Word, h: Halves, top: Word)
    requires Growing(s, o, sib, h, top)
    ensures ParsOk(AfterGrow(s, o, sib, h, top))
  {
    var s' := AfterGrow(s, o, sib, h, top);
    var p := s.ops[o].cur;
    assert OpOk(s, s.ops[o]);
    TopIsWhole(s, p);
    RelinkShape(s.pages, p, sib, h);
    GrowPages(s, o, sib, h, top);
    GrowPending(s, o, sib, h, top);
    assert !Pending(s, top) by {
      if Pending(s, top) {
        PendingUnposted(s, top);
      }
    }
    forall q | q in s'.pages ensures ParOk(s', q) {
      if q in s.pages && q != p {
        assert ParOk(s, q);
        assert s'.pages[q].par == s.pages[q].par;
        if s.pages[q].par == PAGE_ID_NULL && !Pending(s, q) {
          TopIsWhole(s, q);
        }
      }
    }
  }

  lemma GrowTops(s: State, o: nat, sib: Word, h: Halves, top: Word)
    requires Growing(s, o, sib, h, top)
    ensures TopsOk(AfterGrow(s, o, sib, h, top))
  {
    var s' := AfterGrow(s, o, sib, h, top);
    var p := s.ops[o].cur;
    assert OpOk(s, s.ops[o]);
    TopIsWhole(s, p);
    RelinkShape(s.pages, p, sib, h);
    GrowPages(s, o, sib, h, top);
    GrowPending(s, o, sib, h, top);
    assert !Pending(s, top) by {
      if Pending(s, top) {
        PendingUnposted(s, top);
      }
    }
    forall l | 0 <= l < |s'.tops|
      ensures Known(s', s'.tops[l]) && s'.pages[s'.tops[l]].level == l && s'.pages[s'.tops[l]].low == -1
    {
      if l < |s.tops| {
        assert s'.tops[l] == s.tops[l];
      }
    }
  }

  lemma SplitTop(s: State, o: nat, sib: Word, h: Halves, top: Word)
    requires Growing(s, o, sib, h, top)
    ensures Inv(AfterGrow(s, o, sib, h, top))
  {
    GrowPages(s, o, sib, h, top);
    GrowOps(s, o, sib, h, top);
    GrowPars(s, o, sib, h, top);
    GrowTops(s, o, sib, h, top);
    SetExclusive(s, o, Publish(top));
  }

  lemma SplitKeepsInv(rd: Reading, s: State, o: nat, sib: Word, top: Word)
    requires Inv(s) && Enabled(s, Split(o, sib, top)) && StepLands(rd, s, Split(o, sib, top))
    ensures Inv(Apply(rd, s, Split(o, sib, top)))
  {
    var op := s.ops[o];
    var g := s.pages[op.cur];
    var h := Cut(rd, g, op);
    CutFits(rd, s, o, sib, top);
    if g.par == PAGE_ID_NULL {
      SplitTop(s, o, sib, h, top);
    } else {
      SplitBelowTop(s, o, sib, h);
    }
  }

  /** Every step keeps the invariant; as written, every step whose separator
      lands where it belongs. */
  lemma StepKeepsInv(rd: Reading, s: State, st: Step)
    requires Inv(s) && Enabled(s, st) && StepLands(rd, s, st)
    ensures Inv(Apply(rd, s, st))
  {
    match st
    case BeginInsert(_, _, _) => BeginKeepsInv(rd, s, st);
    case BeginSearch(_, _, _) => BeginKeepsInv(rd, s, st);
    case Descend(o) => DescendKeepsInv(rd, s, o);
    case Hop(o) => HopKeepsInv(rd, s, o);
    case Latch(o) => LatchKeepsInv(rd, s, o);
    case Put(o) =>
      if s.pages[s.ops[o].cur].body.LeafBody? {
        PutLeafKeepsInv(rd, s, o);
      } else {
        PutPivotKeepsInv(rd, s, o);
      }
    case Split(o, sib, top) => SplitKeepsInv(rd, s, o, sib, top);
    case PublishRoot(o) => PublishKeepsInv(rd, s, o);
    case LookDown(o) => LookDownKeepsInv(rd, s, o);
    case LookHop(o) => LookHopKeepsInv(rd, s, o);
    case LookEnd(o) => LookEndKeepsInv(rd, s, o);
  }
}
