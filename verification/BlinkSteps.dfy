/** Every B-link step but a split keeps the invariant. */
module BlinkSteps {
  import opened BlinkPage
  import opened BlinkTree

  // ------------------------------------- steps that move only an operation

  ghost predicate SamePending(s: State, s': State) {
    forall p :: Pending(s', p) <==> Pending(s, p)
  }

  lemma OpSame(s: State, s': State, op: Op)
    requires OpOk(s, op) && s'.pages == s.pages && s'.tops == s.tops && SamePending(s, s')
    ensures OpOk(s', op)
  {
  }

  lemma SetPending(s: State, o: nat, op: Op)
    requires PendingOf(op) == if o in s.ops then PendingOf(s.ops[o]) else -1
    ensures SamePending(s, Set(s, o, op))
  {
    var s' := Set(s, o, op);
    forall p ensures Pending(s', p) <==> Pending(s, p) {
      if Pending(s, p) {
        var i :| i in s.ops && PendingOf(s.ops[i]) == p;
        assert PendingOf(s'.ops[i]) == p;
      }
      if Pending(s', p) {
        var i :| i in s'.ops && PendingOf(s'.ops[i]) == p;
        assert i in s.ops && PendingOf(s.ops[i]) == p;
      }
    }
  }

  /** An operation may take a new latch only if no other one holds it. */
  ghost predicate MayBecome(s: State, o: nat, op: Op) {
    && (HeldBy(op) >= 0 ==>
          (o in s.ops && HeldBy(s.ops[o]) == HeldBy(op)) || !LatchedByOther(s, o, HeldBy(op)))
    && (SibOf(op) >= 0 ==> o in s.ops && SibOf(s.ops[o]) == SibOf(op))
  }

  lemma SetExclusive(s: State, o: nat, op: Op)
    requires Exclusive(s.ops) && MayBecome(s, o, op)
    ensures Exclusive(Set(s, o, op).ops)
  {
  }

  lemma OpsOnly(s: State, o: nat, op: Op)
    requires Inv(s) && OpOk(s, op) && MayBecome(s, o, op)
    requires PendingOf(op) == if o in s.ops then PendingOf(s.ops[o]) else -1
    ensures Inv(Set(s, o, op))
  {
    var s' := Set(s, o, op);
    SetPending(s, o, op);
    SetExclusive(s, o, op);
    forall i | i in s'.ops ensures OpOk(s', s'.ops[i]) {
      OpSame(s, s', s'.ops[i]);
    }
    forall p | p in s'.pages ensures ParOk(s', p) {
      assert ParOk(s, p);
    }
  }

  lemma KidCovers(m: map<Word, Page>, level: nat, low: int, p: Pivot, key: Word)
    requires PivotShape(p) && KidsPlaced(m, level, low, p) && low < p.keys[0] && low < key
    ensures var c := Route(p.keys, p.kids, key);
            c in p.kids && c in m && m[c].level + 1 == level && low <= m[c].low < key
  {
    var i := Rank(p.keys, key);
    assert p.kids[i] in m && m[p.kids[i]].low == LowAt(low, p.keys, i);
    if i > 0 {
      assert p.keys[0] <= p.keys[i - 1] < key;
    }
  }

  lemma PendingUnposted(s: State, c: Word)
    requires OpsOk(s)
    requires Pending(s, c)
    ensures c in s.pages && Unposted(s.pages, c)
  {
    var o :| o in s.ops && PendingOf(s.ops[o]) == c;
    assert OpOk(s, s.ops[o]);
  }

  /** The child a pivot routes a key to starts below the key, and no insert has
      it in hand as an unposted sibling. */
  lemma RouteDown(s: State, cur: Word, key: Word)
    requires Inv(s) && cur in s.pages && s.pages[cur].body.PivotBody? && s.pages[cur].low < key
    ensures PivotShape(s.pages[cur].body.pivot)
    ensures var p := s.pages[cur].body.pivot;
            var c := Route(p.keys, p.kids, key);
            && Known(s, c) && s.pages[c].level + 1 == s.pages[cur].level
            && s.pages[cur].low <= s.pages[c].low < key
  {
    var g := s.pages[cur];
    assert Filled(s.pages, cur);
    var p := g.body.pivot;
    KidCovers(s.pages, g.level, g.low, p, key);
    var c := Route(p.keys, p.kids, key);
    if Pending(s, c) {
      PendingUnposted(s, c);
    }
  }

  /** Only the page that was split points right to a pending sibling. */
  lemma PendingHeld(s: State, n: Word)
    requires OpsOk(s)
    requires Pending(s, n)
    ensures n in s.pages
    ensures exists o :: o in s.ops && PendingOf(s.ops[o]) == n && HeldBy(s.ops[o]) == s.pages[n].back
  {
    var o :| o in s.ops && PendingOf(s.ops[o]) == n;
    assert OpOk(s, s.ops[o]);
  }

  /** A right neighbour reached past an unlatched fence starts below the key. */
  lemma HopRight(s: State, o: nat, cur: Word, key: Word)
    requires Inv(s) && Known(s, cur) && Beyond(s.pages[cur], key) && !LatchedByOther(s, o, cur)
    requires o in s.ops && HeldBy(s.ops[o]) != cur
    ensures var n := s.pages[cur].next;
            Known(s, n) && s.pages[n].level == s.pages[cur].level && s.pages[cur].low < s.pages[n].low < key
  {
    assert Linked(s.pages, cur);
    var n := s.pages[cur].next;
    if Pending(s, n) {
      PendingHeld(s, n);
    }
  }

  lemma StackUp(s: State, cur: Word, stack: seq<Word>, c: Word)
    requires Known(s, cur) && c in s.pages && StackOk(s, s.pages[cur].level, s.pages[cur].low, stack)
    requires s.pages[c].level + 1 == s.pages[cur].level && s.pages[cur].low <= s.pages[c].low
    ensures StackOk(s, s.pages[c].level, s.pages[c].low, stack + [cur])
  {
    var t := stack + [cur];
    forall j | 0 <= j < |t|
      ensures Known(s, t[j]) && s.pages[t[j]].level == s.pages[c].level + |t| - j && s.pages[t[j]].low <= s.pages[c].low
           && (j > 0 ==> Known(s, t[j - 1]) && s.pages[t[j - 1]].low <= s.pages[t[j]].low)
    {
    }
  }

  lemma BeginKeepsInv(rd: Reading, s: State, st: Step)
    requires Inv(s) && Enabled(s, st) && (st.BeginInsert? || st.BeginSearch?)
    ensures Inv(Apply(rd, s, st))
  {
    var p := s.tops[st.from];
    match st
    case BeginInsert(o, e, from) =>
      OpsOnly(s, o, Down(e, p, []));
    case BeginSearch(o, key, from) =>
      OpsOnly(s, o, Look(key, p));
  }

  lemma DescendKeepsInv(rd: Reading, s: State, o: nat)
    requires Inv(s) && Enabled(s, Descend(o))
    ensures Inv(Apply(rd, s, Descend(o)))
  {
    var op := s.ops[o];
    assert OpOk(s, op);
    var g := s.pages[op.cur];
    assert Filled(s.pages, op.cur);
    match g.body
    case LeafBody(_) =>
      OpsOnly(s, o, Seek(op.e, op.cur, op.stack, NoPost, PAGE_ID_NULL));
    case PivotBody(p) =>
      var c := Route(p.keys, p.kids, op.e.key);
      RouteDown(s, op.cur, op.e.key);
      StackUp(s, op.cur, op.stack, c);
      OpsOnly(s, o, Down(op.e, c, op.stack + [op.cur]));
  }

  lemma StackLift(s: State, level: nat, low: int, low': int, stack: seq<Word>)
    requires StackOk(s, level, low, stack) && low <= low'
    ensures StackOk(s, level, low', stack)
  {
  }

  lemma BelowIsLower(m: map<Word, Page>, sib: Word)
    requires AllLinked(m) && sib in m && m[sib].back in m
    ensures m[m[sib].back].level == m[sib].level
  {
    assert Linked(m, sib) && Linked(m, m[sib].back);
  }

  lemma HopOk(s: State, o: nat)
    requires Inv(s) && Enabled(s, Hop(o))
    ensures var op := s.ops[o]; OpOk(s, Seek(op.e, s.pages[op.cur].next, op.stack, op.post, op.below))
  {
    var op := s.ops[o];
    assert OpOk(s, op);
    if op.post.Sep? && op.below in s.pages {
      BelowIsLower(s.pages, op.post.sib);
    }
    HopRight(s, o, op.cur, Sought(op));
    var g, n := s.pages[op.cur], s.pages[op.cur].next;
    StackLift(s, g.level, g.low, s.pages[n].low, op.stack);
  }

  lemma HopKeepsInv(rd: Reading, s: State, o: nat)
    requires Inv(s) && Enabled(s, Hop(o))
    ensures Inv(Apply(rd, s, Hop(o)))
  {
    var op := s.ops[o];
    HopOk(s, o);
    OpsOnly(s, o, Seek(op.e, s.pages[op.cur].next, op.stack, op.post, op.below));
  }

  lemma LookDownKeepsInv(rd: Reading, s: State, o: nat)
    requires Inv(s) && Enabled(s, LookDown(o))
    ensures Inv(Apply(rd, s, LookDown(o)))
  {
    var op := s.ops[o];
    assert OpOk(s, op);
    var g := s.pages[op.cur];
    match g.body
    case LeafBody(_) =>
      assert Filled(s.pages, op.cur);
      OpsOnly(s, o, LookRight(op.key, op.cur));
    case PivotBody(p) =>
      RouteDown(s, op.cur, op.key);
      OpsOnly(s, o, Look(op.key, Route(p.keys, p.kids, op.key)));
  }

  lemma LookHopKeepsInv(rd: Reading, s: State, o: nat)
    requires Inv(s) && Enabled(s, LookHop(o))
    ensures Inv(Apply(rd, s, LookHop(o)))
  {
    var op := s.ops[o];
    assert OpOk(s, op);
    assert Linked(s.pages, op.cur);
    OpsOnly(s, o, LookRight(op.key, s.pages[op.cur].next));
  }

  lemma LookEndKeepsInv(rd: Reading, s: State, o: nat)
    requires Inv(s) && Enabled(s, LookEnd(o))
    ensures Inv(Apply(rd, s, LookEnd(o)))
  {
    var op := s.ops[o];
    OpsOnly(s, o, Answer(op.key, FindRec(s.pages[op.cur].body.recs, op.key)));
  }

  lemma RootOnly(s: State, root: Word)
    requires Inv(s) && root in s.tops
    ensures Inv(s.(root := root))
  {
    var s' := s.(root := root);
    assert SamePending(s, s');
    forall i | i in s'.ops ensures OpOk(s', s'.ops[i]) {
      OpSame(s, s', s'.ops[i]);
    }
    forall p | p in s'.pages ensures ParOk(s', p) {
      assert ParOk(s, p);
    }
  }

  lemma PublishKeepsInv(rd: Reading, s: State, o: nat)
    requires Inv(s) && Enabled(s, PublishRoot(o))
    ensures Inv(Apply(rd, s, PublishRoot(o)))
  {
    assert OpOk(s, s.ops[o]);
    OpsOnly(s, o, Done);
    RootOnly(Set(s, o, Done), s.ops[o].top);
  }

  // ------------------------------------------------ steps that change pages

  /** No page goes away, and none changes its level or its lower fence. */
  ghost predicate Persist(m: map<Word, Page>, m': map<Word, Page>) {
    forall p :: p in m ==> p in m' && m'[p].level == m[p].level && m'[p].low == m[p].low
  }

  ghost predicate NoNewPending(s: State, s': State) {
    forall p :: p in s.pages && Pending(s', p) ==> Pending(s, p)
  }

  lemma StackStable(s: State, s': State, level: nat, low: int, stack: seq<Word>)
    requires StackOk(s, level, low, stack) && Persist(s.pages, s'.pages) && NoNewPending(s, s')
    ensures StackOk(s', level, low, stack)
  {
  }

  /** What an operation relies on survives a step of another one. */
  lemma OpStable(s: State, s': State, op: Op)
    requires OpOk(s, op) && Persist(s.pages, s'.pages) && NoNewPending(s, s')
    requires SibOf(op) >= 0 ==> Unposted(s'.pages, SibOf(op))
    requires op.Work? ==> s'.pages[op.cur].high == s.pages[op.cur].high
    requires PendingOf(op) >= 0 ==> s'.pages[PendingOf(op)].back == s.pages[PendingOf(op)].back
    requires op.Publish? ==> op.top in s'.tops
    ensures OpOk(s', op)
  {
    if op.Down? || op.Seek? || op.Work? {
      StackStable(s, s', s.pages[op.cur].level, s.pages[op.cur].low, op.stack);
    }
  }

  lemma BodyStable(m: map<Word, Page>, m': map<Word, Page>, level: nat, low: int, high: Word, body: Body)
    requires BodyFits(m, level, low, high, body) && Persist(m, m')
    ensures BodyFits(m', level, low, high, body)
  {
  }

  /** Only the page's body changes. */
  function SetBody(m: map<Word, Page>, p: Word, body: Body): map<Word, Page>
    requires p in m
  {
    m[p := m[p].(body := body)]
  }

  lemma SetBodyPages(m: map<Word, Page>, p: Word, body: Body)
    requires AllLinked(m) && Apart(m) && AllFilled(m) && p in m
    requires BodyFits(m, m[p].level, m[p].low, m[p].high, body)
    ensures var m' := SetBody(m, p, body); AllLinked(m') && Apart(m') && AllFilled(m') && Persist(m, m')
  {
    var m' := SetBody(m, p, body);
    forall q | q in m' ensures Linked(m', q) {
      assert Linked(m, q);
    }
    forall q, r | q in m' && r in m' ensures Disjoint(m', q, r) {
      assert Disjoint(m, q, r);
    }
    forall q | q in m' ensures Filled(m', q) {
      assert Filled(m, q);
      BodyStable(m, m', m[q].level, m[q].low, m[q].high, m'[q].body);
    }
  }

  /** What the other operations need of a step that changes pages. */
  ghost predicate Respects(s: State, s': State, op: Op) {
    && (SibOf(op) >= 0 ==> Unposted(s'.pages, SibOf(op)))
    && (op.Work? && op.cur in s.pages && op.cur in s'.pages ==> s'.pages[op.cur].high == s.pages[op.cur].high)
    && (PendingOf(op) in s.pages && PendingOf(op) in s'.pages ==>
          s'.pages[PendingOf(op)].back == s.pages[PendingOf(op)].back)
    && (op.Publish? && op.top in s.tops ==> op.top in s'.tops)
  }

  lemma OthersOk(s: State, s': State, o: nat)
    requires OpsOk(s) && Persist(s.pages, s'.pages) && NoNewPending(s, s')
    requires o in s'.ops && OpOk(s', s'.ops[o])
    requires forall i :: i in s'.ops && i != o ==> i in s.ops && s'.ops[i] == s.ops[i] && Respects(s, s', s.ops[i])
    ensures OpsOk(s')
  {
    forall i | i in s'.ops ensures OpOk(s', s'.ops[i]) {
      if i != o {
        assert OpOk(s, s.ops[i]) && Respects(s, s', s.ops[i]);
        OpStable(s, s', s.ops[i]);
      }
    }
  }

  /** Parent hints survive when pages persist and none but `p` changes its hint. */
  lemma ParsStable(s: State, s': State, p: Word)
    requires ParsOk(s) && Persist(s.pages, s'.pages) && NoNewPending(s, s') && s'.tops == s.tops
    requires forall q :: q in s'.pages && q != p ==>
               q in s.pages && s'.pages[q].par == s.pages[q].par && (Pending(s, q) ==> Pending(s', q))
    requires p in s'.pages ==> ParOk(s', p)
    ensures ParsOk(s')
  {
    forall q | q in s'.pages ensures ParOk(s', q) {
      if q != p {
        assert ParOk(s, q);
      }
    }
  }

  lemma TopsStable(s: State, s': State)
    requires TopsOk(s) && Persist(s.pages, s'.pages) && NoNewPending(s, s')
    requires s'.tops == s.tops && s'.root == s.root
    requires var a := s.tops[|s.tops| - 1]; s'.pages[a].high == s.pages[a].high
    requires forall q :: q in s'.pages && q !in s.pages ==> s'.pages[q].level < |s.tops|
    ensures TopsOk(s')
  {
    forall q | q in s'.pages ensures s'.pages[q].level < |s.tops| {
      if q in s.pages {
        assert s'.pages[q].level == s.pages[q].level;
      }
    }
  }

  function AfterPut(s: State, o: nat, body: Body): State
    requires o in s.ops && s.ops[o].Work? && s.ops[o].cur in s.pages
  {
    Set(s, o, Done).(pages := SetBody(s.pages, s.ops[o].cur, body))
  }

  lemma PutSamePending(s: State, o: nat, body: Body)
    requires o in s.ops && s.ops[o].Work? && s.ops[o].cur in s.pages
    ensures SamePending(s, AfterPut(s, o, body))
  {
    SetPending(s, o, Done);
    var s1, s' := Set(s, o, Done), AfterPut(s, o, body);
    assert forall p :: Pending(s', p) <==> Pending(s1, p);
  }

  lemma PutOps(s: State, o: nat, body: Body)
    requires Inv(s) && o in s.ops && s.ops[o].Work? && s.ops[o].cur in s.pages
    requires forall i :: i in s.ops && i != o && SibOf(s.ops[i]) >= 0 ==>
               Unposted(SetBody(s.pages, s.ops[o].cur, body), SibOf(s.ops[i]))
    ensures OpsOk(AfterPut(s, o, body))
  {
    PutSamePending(s, o, body);
    OthersOk(s, AfterPut(s, o, body), o);
  }

  /** Finishing an insert by changing the body of the latched page. */
  lemma BodyKeepsInv(s: State, o: nat, body: Body)
    requires Inv(s) && o in s.ops && s.ops[o].Work? && s.ops[o].cur in s.pages
    requires var g := s.pages[s.ops[o].cur]; BodyFits(s.pages, g.level, g.low, g.high, body)
    requires InSize(s.fanout, s.cap, body)
    requires forall i :: i in s.ops && i != o && SibOf(s.ops[i]) >= 0 ==>
               Unposted(SetBody(s.pages, s.ops[o].cur, body), SibOf(s.ops[i]))
    ensures Inv(AfterPut(s, o, body))
  {
    var p := s.ops[o].cur;
    var s' := AfterPut(s, o, body);
    SetBodyPages(s.pages, p, body);
    PutSamePending(s, o, body);
    PutOps(s, o, body);
    assert ParOk(s, p);
    ParsStable(s, s', p);
    TopsStable(s, s');
    SetExclusive(s, o, Done);
  }

  lemma LatchKeepsInv(rd: Reading, s: State, o: nat)
    requires Inv(s) && Enabled(s, Latch(o))
    ensures Inv(Apply(rd, s, Latch(o)))
  {
    var op := s.ops[o];
    assert OpOk(s, op);
    var op' := Work(op.e, op.cur, op.stack, op.post);
    if op.post.NoPost? {
      OpsOnly(s, o, op');
    } else {
      LatchSep(s, o);
    }
  }

  lemma SetParPages(m: map<Word, Page>, p: Word, par: Word)
    requires AllLinked(m) && Apart(m) && AllFilled(m) && p in m
    ensures var m' := SetPar(m, p, par); AllLinked(m') && Apart(m') && AllFilled(m') && Persist(m, m')
  {
    var m' := SetPar(m, p, par);
    forall q | q in m' ensures Linked(m', q) {
      assert Linked(m, q);
    }
    forall q, r | q in m' && r in m' ensures Disjoint(m', q, r) {
      assert Disjoint(m, q, r);
    }
    forall q | q in m' ensures Filled(m', q) {
      assert Filled(m, q);
      BodyStable(m, m', m[q].level, m[q].low, m[q].high, m[q].body);
    }
  }

  function AfterLatch(s: State, o: nat): State
    requires o in s.ops && s.ops[o].Seek? && s.ops[o].post.Sep? && s.ops[o].post.sib in s.pages
  {
    var op := s.ops[o];
    Set(s, o, Work(op.e, op.cur, op.stack, op.post)).(pages := SetPar(s.pages, op.post.sib, op.cur))
  }

  lemma LatchSepOps(s: State, o: nat)
    requires Inv(s) && Enabled(s, Latch(o)) && s.ops[o].post.Sep?
    ensures var s' := AfterLatch(s, o); OpsOk(s') && Persist(s.pages, s'.pages) && NoNewPending(s, s')
  {
    var op := s.ops[o];
    assert OpOk(s, op);
    var s' := AfterLatch(s, o);
    hide AllFilled, Filled, Roomy, Apart, ParsOk, TopsOk, Exclusive, AllLinked, LatchedByOther;
    LatchPending(s, s', o);
    StackStable(s, s', s.pages[op.cur].level, s.pages[op.cur].low, op.stack);
    forall i | i in s.ops && i != o ensures Respects(s, s', s.ops[i]) {
      LatchRespects(s, o, i);
    }
    hide Respects, OpsOk;
    OthersOk(s, s', o);
  }

  lemma LatchRespects(s: State, o: nat, i: nat)
    requires Inv(s) && Enabled(s, Latch(o)) && s.ops[o].post.Sep? && i in s.ops && i != o
    ensures Respects(s, AfterLatch(s, o), s.ops[i])
  {
    assert OpOk(s, s.ops[i]);
    hide AllFilled, Filled, Roomy, Apart, ParsOk, TopsOk, Exclusive, AllLinked, LatchedByOther;
  }

  lemma LatchSepPars(s: State, o: nat)
    requires Inv(s) && Enabled(s, Latch(o)) && s.ops[o].post.Sep?
    requires NoNewPending(s, AfterLatch(s, o))
    ensures ParsOk(AfterLatch(s, o))
  {
    var op := s.ops[o];
    assert OpOk(s, op);
    var s' := AfterLatch(s, o);
    LatchPending(s, s', o);
    assert Linked(s.pages, op.cur);
    ParsStable(s, s', op.post.sib);
  }

  lemma LatchSep(s: State, o: nat)
    requires Inv(s) && Enabled(s, Latch(o)) && s.ops[o].post.Sep?
    ensures Inv(AfterLatch(s, o))
  {
    var op := s.ops[o];
    LatchSepOps(s, o);
    LatchSepPars(s, o);
    SetParPages(s.pages, op.post.sib, op.cur);
    TopsStable(s, AfterLatch(s, o));
    SetExclusive(s, o, AfterLatch(s, o).ops[o]);
  }

  lemma LatchPending(s: State, s': State, o: nat)
    requires o in s.ops && s.ops[o].Seek? && o in s'.ops && s'.ops[o].Work? && s'.ops == s.ops[o := s'.ops[o]]
    ensures NoNewPending(s, s')
    ensures forall q :: q != PendingOf(s.ops[o]) && Pending(s, q) ==> Pending(s', q)
  {
    forall p | Pending(s', p) ensures Pending(s, p) {
      var i :| i in s'.ops && PendingOf(s'.ops[i]) == p;
      assert PendingOf(s.ops[i]) == p;
    }
    forall p | p != PendingOf(s.ops[o]) && Pending(s, p) ensures Pending(s', p) {
      var i :| i in s.ops && PendingOf(s.ops[i]) == p;
      assert PendingOf(s'.ops[i]) == p;
    }
  }

  // ----------------------------------------------------- inserting in place

  lemma PutLeafKeepsInv(rd: Reading, s: State, o: nat)
    requires Inv(s) && Enabled(s, Put(o)) && s.pages[s.ops[o].cur].body.LeafBody?
    ensures Inv(Apply(rd, s, Put(o)))
  {
    var op := s.ops[o];
    assert OpOk(s, op);
    var g := s.pages[op.cur];
    assert Filled(s.pages, op.cur);
    LeafInsertSorted(g.body.recs, op.e);
    var body := LeafBody(LeafInsert(g.body.recs, op.e));
    hide AllLinked, Linked, Apart, TopsOk, ParsOk, AllFilled, Exclusive, Roomy, Sorted, LeafInsert;
    forall i | i in s.ops && i != o && SibOf(s.ops[i]) >= 0
      ensures Unposted(SetBody(s.pages, op.cur, body), SibOf(s.ops[i]))
    {
      assert OpOk(s, s.ops[i]);
    }
    BodyKeepsInv(s, o, body);
  }

  /** Two different pages of a level never start at the same key. */
  lemma LowsDiffer(m: map<Word, Page>, p: Word, q: Word)
    requires AllLinked(m) && Apart(m) && p in m && q in m && p != q && m[p].level == m[q].level
    ensures m[p].low != m[q].low
  {
    assert Disjoint(m, p, q) && Linked(m, p) && Linked(m, q);
  }

  ghost predicate PagesOk(m: map<Word, Page>) {
    AllLinked(m) && Apart(m) && AllFilled(m)
  }

  /** The separator of an unposted sibling is new to the covering pivot and lies
      strictly inside its fences. */
  lemma SepFresh(m: map<Word, Page>, cur: Word, k: Word, sib: Word)
    requires PagesOk(m) && cur in m && sib in m && Unposted(m, sib)
    requires m[sib].low == k && m[sib].level + 1 == m[cur].level && m[cur].low < k <= m[cur].high
    ensures m[cur].body.PivotBody? && PivotShape(m[cur].body.pivot)
    ensures k !in m[cur].body.pivot.keys && k < m[cur].high
  {
    var g := m[cur];
    assert Filled(m, cur) && Linked(m, cur) && Linked(m, sib);
    var p := g.body.pivot;
    if k in p.keys {
      var i :| 0 <= i < |p.keys| && p.keys[i] == k;
      assert m[p.kids[i + 1]].low == LowAt(g.low, p.keys, i + 1);
      LowsDiffer(m, p.kids[i + 1], sib);
    }
    if k == g.high {
      assert Filled(m, g.next);
      var q := m[g.next].body.pivot;
      assert m[q.kids[0]].low == LowAt(m[g.next].low, q.keys, 0);
      LowsDiffer(m, q.kids[0], sib);
    }
  }

  /** A pivot with the separator placed still matches its children. */
  lemma PlacedFits(m: map<Word, Page>, level: nat, low: int, high: Word, p: Pivot, k: Word, sib: Word)
    requires BodyFits(m, level, low, high, PivotBody(p)) && k !in p.keys && low < k < high
    requires sib in m && m[sib].low == k && m[sib].level + 1 == level
    ensures BodyFits(m, level, low, high, PivotBody(PlaceRight(p, k, sib)))
    ensures forall c :: c in PlaceRight(p, k, sib).kids <==> c in p.kids || c == sib
  {
    var r := Rank(p.keys, k);
    AscendingInsert(p.keys, k);
    InsertAtMembers(p.kids, r + 1, sib);
    InsertAtIndex(p.keys, r, k, 0);
    InsertAtIndex(p.keys, r, k, |p.keys|);
    hide KidsPlaced;
    PlacedKids(m, level, low, p, k, sib);
  }

  lemma PlacedKids(m: map<Word, Page>, level: nat, low: int, p: Pivot, k: Word, sib: Word)
    requires |p.kids| == |p.keys| + 1 && Ascending(p.keys) && k !in p.keys && KidsPlaced(m, level, low, p)
    requires sib in m && m[sib].low == k && m[sib].level + 1 == level
    ensures var p' := PlaceRight(p, k, sib); |p'.kids| == |p'.keys| + 1 && KidsPlaced(m, level, low, p')
  {
    var p', r := PlaceRight(p, k, sib), Rank(p.keys, k);
    forall i | 0 <= i < |p'.kids|
      ensures p'.kids[i] in m && m[p'.kids[i]].level + 1 == level && m[p'.kids[i]].low == LowAt(low, p'.keys, i)
    {
      InsertAtIndex(p.kids, r + 1, sib, i);
      if i > 0 {
        InsertAtIndex(p.keys, r, k, i - 1);
      }
      if i != r + 1 {
        var j := if i <= r then i else i - 1;
        assert m[p.kids[j]].low == LowAt(low, p.keys, j);
      }
    }
  }

  /** Whether the step inserts its separator where it belongs. */
  predicate StepLands(rd: Reading, s: State, st: Step)
    requires Enabled(s, st)
  {
    rd.AsWritten? && (st.Put? || st.Split?) ==>
      var op := s.ops[st.o];
      var g := s.pages[op.cur];
      g.body.PivotBody? ==>
        if st.Put? then Lands(g.body.pivot, op.post.key, true) else SplitLands(g.body.pivot, op.post.key)
  }

  lemma CarriedFresh(s: State, o: nat)
    requires Inv(s) && o in s.ops && s.ops[o].Work? && s.ops[o].cur in s.pages
    requires s.pages[s.ops[o].cur].body.PivotBody?
    ensures var op := s.ops[o]; var g := s.pages[op.cur];
      && op.post.Sep? && PivotShape(g.body.pivot) && op.post.key !in g.body.pivot.keys
      && g.low < op.post.key < g.high && op.post.sib in s.pages && op.post.sib !in g.body.pivot.kids
      && s.pages[op.post.sib].low == op.post.key && s.pages[op.post.sib].level + 1 == g.level
  {
    var op := s.ops[o];
    assert OpOk(s, op);
    assert Filled(s.pages, op.cur);
    SepFresh(s.pages, op.cur, op.post.key, op.post.sib);
  }

  lemma OthersUnposted(s: State, o: nat, cur: Word, body: Body)
    requires Inv(s) && o in s.ops && cur in s.pages && s.pages[cur].body.PivotBody? && body.PivotBody?
    requires forall c :: c in body.pivot.kids ==> c in s.pages[cur].body.pivot.kids || c == SibOf(s.ops[o])
    ensures forall i :: i in s.ops && i != o && SibOf(s.ops[i]) >= 0 ==>
              Unposted(SetBody(s.pages, cur, body), SibOf(s.ops[i]))
  {
    forall i | i in s.ops && i != o && SibOf(s.ops[i]) >= 0
      ensures Unposted(SetBody(s.pages, cur, body), SibOf(s.ops[i]))
    {
      assert OpOk(s, s.ops[i]);
      assert Unposted(s.pages, SibOf(s.ops[i]));
    }
  }

  lemma PutPivotKeepsInv(rd: Reading, s: State, o: nat)
    requires Inv(s) && Enabled(s, Put(o)) && s.pages[s.ops[o].cur].body.PivotBody? && StepLands(rd, s, Put(o))
    ensures Inv(Apply(rd, s, Put(o)))
  {
    var op := s.ops[o];
    var g := s.pages[op.cur];
    var p := g.body.pivot;
    CarriedFresh(s, o);
    assert Filled(s.pages, op.cur);
    var k, sib := op.post.key, op.post.sib;
    if rd.AsWritten? {
      InsertPlaces(p, k, sib, true);
    }
    var body := PivotBody(PlaceRight(p, k, sib));
    PlacedFits(s.pages, g.level, g.low, g.high, p, k, sib);
    OthersUnposted(s, o, op.cur, body);
    BodyKeepsInv(s, o, body);
  }
}
