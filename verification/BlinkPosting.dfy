/** What inserts leave above the leaves: every page gets its parent, and every new
    root is stored. */
module BlinkPosting {
  import opened BlinkPage
  import opened BlinkTree
  import opened BlinkSteps
  import opened BlinkSplit
  import opened BlinkAsWritten
  import opened BlinkRuns

  // -------------------------------------------- separators reach a parent

  ghost predicate HasParent(m: map<Word, Page>, p: Word) {
    exists q :: q in m && HasKid(m[q].body, p)
  }

  ghost predicate Carried(s: State, p: Word) {
    exists o :: o in s.ops && SibOf(s.ops[o]) == p
  }

  /** A page below the top is the child of a pivot, or an insert is on its way to
      make it one. */
  ghost predicate Hung(s: State, p: Word)
    requires p in s.pages
  {
    s.pages[p].level + 1 < |s.tops| ==> HasParent(s.pages, p) || Carried(s, p)
  }

  ghost predicate AllHung(s: State) {
    forall p {:trigger Hung(s, p)} :: p in s.pages ==> Hung(s, p)
  }

  /** The pivots are as before, and so is what is carried. */
  ghost predicate SamePosts(s: State, s': State) {
    && |s'.tops| == |s.tops|
    && (forall p :: p in s'.pages ==> p in s.pages && s'.pages[p].level == s.pages[p].level)
    && (forall q :: q in s.pages && s.pages[q].body.PivotBody? ==> q in s'.pages && s'.pages[q].body == s.pages[q].body)
    && (forall o :: o in s.ops && SibOf(s.ops[o]) >= 0 ==> o in s'.ops && SibOf(s'.ops[o]) == SibOf(s.ops[o]))
  }

  lemma SamePostsHung(s: State, s': State)
    requires AllHung(s) && SamePosts(s, s')
    ensures AllHung(s')
  {
    forall p | p in s'.pages ensures Hung(s', p) {
      assert Hung(s, p);
      if q :| q in s.pages && HasKid(s.pages[q].body, p) {
        assert HasKid(s'.pages[q].body, p);
      }
      if o :| o in s.ops && SibOf(s.ops[o]) == p {
        assert SibOf(s'.ops[o]) == p;
      }
    }
  }

  lemma OtherStepPosts(rd: Reading, s: State, st: Step)
    requires Inv(s) && Enabled(s, st) && !st.Split?
    requires st.Put? ==> s.pages[s.ops[st.o].cur].body.LeafBody?
    ensures SamePosts(s, Apply(rd, s, st))
  {
    if st.Put? {
      PutLeafPosts(rd, s, st.o);
    } else if !st.Latch? {
      OpOnlyPosts(rd, s, st);
    }
    hide Inv;
  }

  lemma PutLeafPosts(rd: Reading, s: State, o: nat)
    requires Inv(s) && Enabled(s, Put(o)) && s.pages[s.ops[o].cur].body.LeafBody?
    ensures SamePosts(s, Apply(rd, s, Put(o)))
  {
    LeafWorkCarriesNothing(s, o);
    hide Inv, LeafInsert, Safe;
  }

  lemma LeafWorkCarriesNothing(s: State, o: nat)
    requires Inv(s) && Enabled(s, Put(o)) && s.pages[s.ops[o].cur].body.LeafBody?
    ensures SibOf(s.ops[o]) < 0
  {
    assert OpOk(s, s.ops[o]) && Filled(s.pages, s.ops[o].cur);
  }

  lemma OpOnlyPosts(rd: Reading, s: State, st: Step)
    requires Enabled(s, st) && !st.Split? && !st.Put? && !st.Latch?
    ensures SamePosts(s, Apply(rd, s, st))
  {
  }

  /** A separator that is put into a pivot makes its sibling a child. */
  lemma PutHung(rd: Reading, s: State, o: nat)
    requires Inv(s) && AllHung(s) && Enabled(s, Put(o)) && s.pages[s.ops[o].cur].body.PivotBody?
    requires StepLands(rd, s, Put(o))
    ensures AllHung(Apply(rd, s, Put(o)))
  {
    var s', op := Apply(rd, s, Put(o)), s.ops[o];
    PutAddsKid(rd, s, o);
    hide Inv, Apply, Enabled;
    forall p | p in s'.pages ensures Hung(s', p) {
      assert Hung(s, p);
      if q :| q in s.pages && HasKid(s.pages[q].body, p) {
        assert HasKid(s'.pages[q].body, p);
      }
      if i :| i in s.ops && SibOf(s.ops[i]) == p {
        if i == o {
          assert HasKid(s'.pages[op.cur].body, p);
        } else {
          assert SibOf(s'.ops[i]) == p;
        }
      }
    }
  }

  lemma PutAddsKid(rd: Reading, s: State, o: nat)
    requires Inv(s) && Enabled(s, Put(o)) && s.pages[s.ops[o].cur].body.PivotBody? && StepLands(rd, s, Put(o))
    ensures var s', op := Apply(rd, s, Put(o)), s.ops[o];
            && s'.tops == s.tops && s'.ops == s.ops[o := Done] && s'.pages.Keys == s.pages.Keys
            && (forall p :: p in s.pages ==> s'.pages[p].level == s.pages[p].level)
            && (forall p :: p in s.pages && p != op.cur ==> s'.pages[p].body == s.pages[p].body)
            && forall x :: HasKid(s'.pages[op.cur].body, x) <==> HasKid(s.pages[op.cur].body, x) || x == SibOf(op)
  {
    var op := s.ops[o];
    var p, k, sib := s.pages[op.cur].body.pivot, op.post.key, op.post.sib;
    CarriedFresh(s, o);
    PutPlaces(rd, s, o);
    hide Inv, InsertAsWritten, Rank, Lands, Safe, PivotPut, InsertAt;
    InsertAtMembers(p.kids, Rank(p.keys, k) + 1, sib);
  }

  lemma PutPlaces(rd: Reading, s: State, o: nat)
    requires Enabled(s, Put(o)) && s.pages[s.ops[o].cur].body.PivotBody? && StepLands(rd, s, Put(o))
    requires PivotShape(s.pages[s.ops[o].cur].body.pivot)
    ensures var op := s.ops[o]; var p := s.pages[op.cur].body.pivot;
            Apply(rd, s, Put(o)).pages[op.cur].body == PivotBody(PlaceRight(p, op.post.key, op.post.sib))
  {
    var op := s.ops[o];
    if rd.AsWritten? {
      InsertPlaces(s.pages[op.cur].body.pivot, op.post.key, op.post.sib, true);
    }
    hide PlaceRight, InsertAsWritten;
  }

  /** A split shares the children of the page, and the one that came with the
      separator, between the halves. */
  lemma CutKeepsKids(rd: Reading, s: State, o: nat, sib: Word, top: Word)
    requires Inv(s) && Enabled(s, Split(o, sib, top)) && StepLands(rd, s, Split(o, sib, top))
    ensures var op := s.ops[o]; var g := s.pages[op.cur]; var h := Cut(rd, g, op);
            forall x: Word :: HasKid(h.left, x) || HasKid(h.right, x) <==> HasKid(g.body, x) || x == SibOf(op)
  {
    var op := s.ops[o];
    var g := s.pages[op.cur];
    assert OpOk(s, op) && Filled(s.pages, op.cur);
    if g.body.PivotBody? {
      CarriedFresh(s, o);
      if rd.AsWritten? {
        SplitLandsExactly(g.body.pivot, op.post.key, op.post.sib);
      }
      hide Inv;
      PivotKids(g.body.pivot, op.post.key, op.post.sib);
    }
  }

  lemma PivotKids(p: Pivot, k: Word, sib: Word)
    requires PivotShape(p) && |p.keys| >= 3 && k !in p.keys
    ensures var c := SplitPivot(Intended, p, k, sib);
            forall x :: x in c.left.kids || x in c.right.kids <==> x in p.kids || x == sib
  {
    var c := SplitPivot(Intended, p, k, sib);
    SplitPivotJoins(p, k, sib, |p.keys|);
    InsertAtMembers(p.kids, Rank(p.keys, k) + 1, sib);
    hide SplitPivot, InsertAt, Rank;
    forall x ensures x in Join(c).kids <==> x in c.left.kids || x in c.right.kids {
    }
  }

  lemma SplitHung(rd: Reading, s: State, o: nat, sib: Word, top: Word)
    requires Inv(s) && AllHung(s) && Enabled(s, Split(o, sib, top)) && StepLands(rd, s, Split(o, sib, top))
    ensures AllHung(Apply(rd, s, Split(o, sib, top)))
  {
    var s' := Apply(rd, s, Split(o, sib, top));
    var h := Cut(rd, s.pages[s.ops[o].cur], s.ops[o]);
    SplitDivides(rd, s, o, sib, top);
    CutKeepsKids(rd, s, o, sib, top);
    SplitPosts(rd, s, o, sib, top);
    hide Inv, Apply, Enabled, Cut;
    forall p | p in s'.pages ensures Hung(s', p) {
      if p in s.pages && s.pages[p].level + 1 < |s.tops| {
        StaysHung(s, s', o, sib, top, h, p);
      }
    }
  }

  /** Where the new sibling is announced, and what is on the top level. */
  lemma SplitPosts(rd: Reading, s: State, o: nat, sib: Word, top: Word)
    requires Inv(s) && Enabled(s, Split(o, sib, top))
    ensures var s', p := Apply(rd, s, Split(o, sib, top)), s.ops[o].cur;
            && s'.ops.Keys == s.ops.Keys && (forall i :: i in s.ops && i != o ==> s'.ops[i] == s.ops[i])
            && (if s.pages[p].par == PAGE_ID_NULL then
                  && |s'.tops| == |s.tops| + 1 && top in s'.pages && s'.pages[top].level + 1 == |s'.tops|
                  && HasKid(s'.pages[top].body, p) && HasKid(s'.pages[top].body, sib)
                  && (forall q :: q in s.pages && s.pages[q].level + 1 >= |s.tops| ==> q == p)
                else |s'.tops| == |s.tops| && top !in s'.pages && SibOf(s'.ops[o]) == sib)
  {
    hide Inv, Apply, Cut, Safe;
    if s.pages[s.ops[o].cur].par == PAGE_ID_NULL {
      OnlyTop(s, o);
      SplitMakesTop(rd, s, o, sib, top);
    } else {
      SplitCarries(rd, s, o, sib, top);
    }
  }

  lemma SplitMakesTop(rd: Reading, s: State, o: nat, sib: Word, top: Word)
    requires Enabled(s, Split(o, sib, top)) && s.pages[s.ops[o].cur].par == PAGE_ID_NULL
    requires s.pages[s.ops[o].cur].level + 1 == |s.tops|
    ensures var s', p := Apply(rd, s, Split(o, sib, top)), s.ops[o].cur;
            && s'.ops == s.ops[o := Publish(top)]
            && |s'.tops| == |s.tops| + 1 && top in s'.pages && s'.pages[top].level + 1 == |s'.tops|
            && HasKid(s'.pages[top].body, p) && HasKid(s'.pages[top].body, sib)
  {
    hide Cut, Safe, Relink, WellShaped;
  }

  lemma SplitCarries(rd: Reading, s: State, o: nat, sib: Word, top: Word)
    requires Inv(s) && Enabled(s, Split(o, sib, top)) && s.pages[s.ops[o].cur].par != PAGE_ID_NULL
    ensures var s' := Apply(rd, s, Split(o, sib, top));
            && s'.tops == s.tops && top !in s'.pages && s'.ops == s.ops[o := s'.ops[o]] && SibOf(s'.ops[o]) == sib
  {
    var op := s.ops[o];
    RelinkShape(s.pages, op.cur, sib, Cut(rd, s.pages[op.cur], op));
    hide Inv, Cut, Safe, Relink, WellShaped, AllLinked, ParentOf;
  }

  lemma OnlyTop(s: State, o: nat)
    requires Inv(s) && o in s.ops && s.ops[o].Work? && s.ops[o].cur in s.pages
    requires s.pages[s.ops[o].cur].par == PAGE_ID_NULL
    ensures var p := s.ops[o].cur;
            s.pages[p].level + 1 == |s.tops| && forall q :: q in s.pages && s.pages[q].level + 1 >= |s.tops| ==> q == p
  {
    var p := s.ops[o].cur;
    assert OpOk(s, s.ops[o]);
    TopIsWhole(s, p);
    forall q | q in s.pages && s.pages[q].level + 1 >= |s.tops| ensures q == p {
      assert Disjoint(s.pages, p, q) && Linked(s.pages, q);
    }
  }

  lemma StaysHung(s: State, s': State, o: nat, sib: Word, top: Word, h: Halves, p: Word)
    requires o in s.ops && s.ops[o].Work? && s.ops[o].cur in s.pages && p in s.pages && Hung(s, p)
    requires s.pages[p].level + 1 < |s.tops|
    requires Divided(s.pages, s'.pages, s.ops[o].cur, sib, top, h)
    requires forall x: Word :: HasKid(h.left, x) || HasKid(h.right, x) <==>
                               HasKid(s.pages[s.ops[o].cur].body, x) || x == SibOf(s.ops[o])
    requires s'.ops.Keys == s.ops.Keys && forall i :: i in s.ops && i != o ==> s'.ops[i] == s.ops[i]
    ensures HasParent(s'.pages, p) || Carried(s', p)
  {
    var cur := s.ops[o].cur;
    if HasKid(h.left, p) {
      assert HasKid(s'.pages[cur].body, p);
    } else if HasKid(h.right, p) {
      assert HasKid(s'.pages[sib].body, p);
    } else if q :| q in s.pages && HasKid(s.pages[q].body, p) {
      assert q != cur && HasKid(s'.pages[q].body, p);
    } else {
      var i :| i in s.ops && SibOf(s.ops[i]) == p;
      assert i != o && SibOf(s'.ops[i]) == p;
    }
  }

  lemma StepKeepsHung(rd: Reading, s: State, st: Step)
    requires Inv(s) && AllHung(s) && Enabled(s, st) && StepLands(rd, s, st)
    ensures AllHung(Apply(rd, s, st))
  {
    hide Inv, AllHung, Apply;
    if st.Split? {
      SplitHung(rd, s, st.o, st.sib, st.top);
    } else if st.Put? && s.pages[s.ops[st.o].cur].body.PivotBody? {
      PutHung(rd, s, st.o);
    } else {
      OtherStepPosts(rd, s, st);
      SamePostsHung(s, Apply(rd, s, st));
    }
  }

  /** In every state of every run each page below the top is the child of a pivot
      or carried by an unfinished insert: no separator is lost. */
  lemma {:induction false} SeparatorsArrive(rd: Reading, ss: seq<State>, ts: seq<Step>, i: nat)
    requires Run(rd, ss, ts) && i < |ss|
    ensures AllHung(ss[i])
  {
    if i > 0 {
      SeparatorsArrive(rd, ss, ts, i - 1);
      RunKeepsInv(rd, ss, ts, i - 1);
      StepKeepsHung(rd, ss[i - 1], ts[i - 1]);
    }
  }

  // ------------------------------------- the way down when all have arrived

  /** No insert carries a sibling. */
  ghost predicate NoneCarried(s: State) {
    forall o :: o in s.ops ==> SibOf(s.ops[o]) < 0
  }

  lemma LowRises(low: int, keys: seq<Word>, i: nat, j: nat)
    requires Ascending(keys) && i <= j <= |keys| && (keys != [] ==> low < keys[0])
    ensures i < j ==> LowAt(low, keys, i) < LowAt(low, keys, j)
  {
  }

  /** Then the child that a pivot routes a key to covers the key, if the pivot does. */
  lemma ChildCovers(s: State, p: Word, key: Word)
    requires Inv(s) && AllHung(s) && NoneCarried(s) && p in s.pages && s.pages[p].body.PivotBody?
    requires Covers(s.pages[p], key)
    ensures PivotShape(s.pages[p].body.pivot)
    ensures var v := s.pages[p].body.pivot; var c := Route(v.keys, v.kids, key);
            c in s.pages && s.pages[c].level + 1 == s.pages[p].level && Covers(s.pages[c], key)
  {
    var m, g := s.pages, s.pages[p];
    assert Filled(m, p);
    var v := g.body.pivot;
    KidCovers(m, g.level, g.low, v, key);
    var c := Route(v.keys, v.kids, key);
    assert Linked(m, c);
    if key > m[c].high {
      RightKid(s, p, c, m[c].next);
      var i, j := Rank(v.keys, key), KidAt(v.kids, m[c].next);
      assert m[v.kids[i]].low == LowAt(g.low, v.keys, i) && m[v.kids[j]].low == LowAt(g.low, v.keys, j);
      LowRises(g.low, v.keys, j, i);
    }
  }

  function KidAt(kids: seq<Word>, x: Word): (i: nat)
    requires x in kids
    ensures i < |kids| && kids[i] == x
  {
    if kids[0] == x then 0 else KidAt(kids[1..], x) + 1
  }

  /** The right neighbour of a child that ends inside its pivot is a child too. */
  lemma RightKid(s: State, p: Word, c: Word, n: Word)
    requires Inv(s) && AllHung(s) && NoneCarried(s) && p in s.pages && c in s.pages && n in s.pages
    requires s.pages[p].body.PivotBody? && s.pages[c].level + 1 == s.pages[p].level
    requires s.pages[n].level == s.pages[c].level
    requires s.pages[p].low < s.pages[n].low < s.pages[p].high
    ensures HasKid(s.pages[p].body, n)
  {
    var m := s.pages;
    assert Hung(s, n) && m[p].level < |s.tops|;
    var q :| q in m && HasKid(m[q].body, n);
    assert Filled(m, q) && Linked(m, q);
    var v := m[q].body.pivot;
    var j := KidAt(v.kids, n);
    assert m[v.kids[j]].low == LowAt(m[q].low, v.keys, j);
    assert Disjoint(m, p, q);
  }

  /** Nothing is carried, and the search stands on a page that covers its key. */
  ghost predicate Straight(s: State, o: nat, key: Word) {
    && Inv(s) && AllHung(s) && NoneCarried(s) && o in s.ops && SearchesFor(s, o, key)
    && (Searching(s.ops[o]) ==> s.ops[o].cur in s.pages && Covers(s.pages[s.ops[o].cur], key))
  }

  /** The steps that such a search has left: a page on each level, the scan of the
      leaf and the answer. */
  ghost function Way(m: map<Word, Page>, op: Op): nat
    requires Searching(op) ==> op.cur in m
  {
    match op
    case Look(_, cur) => m[cur].level + 2
    case LookRight(_, _) => 1
    case _ => 0
  }

  ghost function WayLeft(s: State, o: nat, key: Word): nat
    requires Straight(s, o, key)
  {
    Way(s.pages, s.ops[o])
  }

  lemma StaysStraight(rd: Reading, s: State, st: Step, o: nat, key: Word)
    requires Straight(s, o, key) && Enabled(s, st) && StepLands(rd, s, st) && !st.Split?
    ensures st != LookHop(o) && Straight(Apply(rd, s, st), o, key)
    ensures WayLeft(Apply(rd, s, st), o, key) == WayLeft(s, o, key) - if st.o == o then 1 else 0
  {
    StepKeepsInv(rd, s, st);
    StepKeepsHung(rd, s, st);
    StepSearchesFor(rd, s, st, o, key);
    if st.o == o {
      OwnStaysStraight(rd, s, st, key);
    } else {
      OtherStaysStraight(rd, s, st, o, key);
    }
    hide Inv, AllHung, Apply;
  }

  lemma OwnStaysStraight(rd: Reading, s: State, st: Step, key: Word)
    requires Straight(s, st.o, key) && Enabled(s, st) && SearchesFor(Apply(rd, s, st), st.o, key)
    ensures !st.LookHop? && NoneCarried(Apply(rd, s, st)) && Apply(rd, s, st).pages == s.pages
    ensures var op := Apply(rd, s, st).ops[st.o];
            && (Searching(op) ==> op.cur in s.pages && Covers(s.pages[op.cur], key))
            && Way(s.pages, op) == Way(s.pages, s.ops[st.o]) - 1
  {
    var op := s.ops[st.o];
    assert OpOk(s, op) && Filled(s.pages, op.cur) && Linked(s.pages, op.cur);
    if st.LookDown? && s.pages[op.cur].body.PivotBody? {
      ChildCovers(s, op.cur, key);
    }
    hide Inv, AllHung;
  }

  lemma OtherStaysStraight(rd: Reading, s: State, st: Step, o: nat, key: Word)
    requires Straight(s, o, key) && Enabled(s, st) && st.o != o && !st.Split?
    ensures var s' := Apply(rd, s, st);
            && NoneCarried(s') && o in s'.ops && s'.ops[o] == s.ops[o] && s'.pages.Keys == s.pages.Keys
            && forall p :: p in s.pages ==>
                 s'.pages[p].level == s.pages[p].level && s'.pages[p].low == s.pages[p].low &&
                     s'.pages[p].high == s.pages[p].high
  {
    hide Inv, AllHung, LeafInsert;
  }

  lemma BeginsStraight(rd: Reading, s: State, st: Step)
    requires Inv(s) && Enabled(s, st) && st.BeginSearch? && st.from + 1 == |s.tops| && NoneCarried(s)
    requires Inv(Apply(rd, s, st)) && AllHung(Apply(rd, s, st))
    ensures Straight(Apply(rd, s, st), st.o, st.key) && WayLeft(Apply(rd, s, st), st.o, st.key) == st.from + 2
  {
    assert Known(s, s.tops[st.from]);
    hide AllHung;
  }

  ghost predicate NoSplits(ts: seq<Step>, b: nat, j: nat)
    requires j <= |ts|
  {
    forall i :: b < i < j ==> !ts[i].Split?
  }

  /** In every run, a search that begins at the top when nothing is carried goes
      straight down to its leaf, one page a level, as long as no page is split: the
      levels above really lead to every leaf. */
  lemma {:induction false} StraightDown(rd: Reading, ss: seq<State>, ts: seq<Step>, b: nat, j: nat)
    requires Run(rd, ss, ts) && b < j < |ss| && ts[b].BeginSearch? && ts[b].from + 1 == |ss[b].tops|
    requires NoneCarried(ss[b]) && NoSplits(ts, b, j)
    ensures Straight(ss[j], ts[b].o, ts[b].key)
    ensures OwnSteps(ts, ts[b].o, j) - OwnSteps(ts, ts[b].o, b + 1) + WayLeft(ss[j], ts[b].o, ts[b].key)
            == ts[b].from + 2
    decreases j
  {
    hide *;
    RunLength(rd, ss, ts);
    OwnNext(ts, ts[b].o, j - 1);
    if j == b + 1 {
      StraightBegins(rd, ss, ts, b);
    } else {
      NoSplitsLess(ts, b, j);
      StraightDown(rd, ss, ts, b, j - 1);
      StraightGoesOn(rd, ss, ts, j - 1, ts[b].o, ts[b].key);
    }
  }

  lemma OwnNext(ts: seq<Step>, o: nat, i: nat)
    requires i < |ts|
    ensures OwnSteps(ts, o, i + 1) == OwnSteps(ts, o, i) + if ts[i].o == o then 1 else 0
  {
  }

  lemma NoSplitsLess(ts: seq<Step>, b: nat, j: nat)
    requires b + 1 < j <= |ts| && NoSplits(ts, b, j)
    ensures NoSplits(ts, b, j - 1) && !ts[j - 1].Split?
  {
  }

  lemma StraightBegins(rd: Reading, ss: seq<State>, ts: seq<Step>, b: nat)
    requires Run(rd, ss, ts) && b < |ts| && ts[b].BeginSearch? && ts[b].from + 1 == |ss[b].tops| && NoneCarried(ss[b])
    ensures Straight(ss[b + 1], ts[b].o, ts[b].key) && WayLeft(ss[b + 1], ts[b].o, ts[b].key) == ts[b].from + 2
  {
    RunStep(rd, ss, ts, b);
    RunKeepsInv(rd, ss, ts, b);
    RunKeepsInv(rd, ss, ts, b + 1);
    SeparatorsArrive(rd, ss, ts, b + 1);
    hide *;
    BeginsStraight(rd, ss[b], ts[b]);
  }

  lemma StraightGoesOn(rd: Reading, ss: seq<State>, ts: seq<Step>, i: nat, o: nat, key: Word)
    requires Run(rd, ss, ts) && i < |ts| && Straight(ss[i], o, key) && !ts[i].Split?
    ensures ts[i] != LookHop(o) && Straight(ss[i + 1], o, key)
    ensures WayLeft(ss[i + 1], o, key) == WayLeft(ss[i], o, key) - if ts[i].o == o then 1 else 0
  {
    RunStep(rd, ss, ts, i);
    hide *;
    StaysStraight(rd, ss[i], ts[i], o, key);
  }

  /** So it never has to move right. */
  lemma NeverHops(rd: Reading, ss: seq<State>, ts: seq<Step>, b: nat, i: nat)
    requires Run(rd, ss, ts) && b < i < |ts| && ts[b].BeginSearch? && ts[b].from + 1 == |ss[b].tops|
    requires NoneCarried(ss[b]) && NoSplits(ts, b, i + 1)
    ensures ts[i] != LookHop(ts[b].o)
  {
    NoSplitsLess(ts, b, i + 1);
    StraightDown(rd, ss, ts, b, i);
    StraightGoesOn(rd, ss, ts, i, ts[b].o, ts[b].key);
    hide Run, Straight;
  }

  // ------------------------------------------------- inserts go straight too

  /** Nothing is carried, and the insert of `key` stands on a page that covers it. */
  ghost predicate StraightInsert(s: State, o: nat, key: Word) {
    && Inv(s) && AllHung(s) && NoneCarried(s) && o in s.ops && Inserting(s.ops[o])
    && (s.ops[o].Down? || s.ops[o].Seek? || s.ops[o].Work? ==>
          s.ops[o].e.key == key && s.ops[o].cur in s.pages && Covers(s.pages[s.ops[o].cur], key))
  }

  lemma OwnInsertStraight(rd: Reading, s: State, st: Step, key: Word)
    requires StraightInsert(s, st.o, key) && Enabled(s, st) && !st.Split?
    requires Inv(Apply(rd, s, st)) && AllHung(Apply(rd, s, st))
    ensures !st.Hop? && StraightInsert(Apply(rd, s, st), st.o, key)
  {
    var op := s.ops[st.o];
    assert OpOk(s, op);
    if st.Descend? {
      assert Filled(s.pages, op.cur);
      if s.pages[op.cur].body.PivotBody? {
        ChildCovers(s, op.cur, key);
      }
    }
    hide Inv, AllHung, LeafInsert;
  }

  lemma OtherInsertStraight(rd: Reading, s: State, st: Step, o: nat, key: Word)
    requires StraightInsert(s, o, key) && Enabled(s, st) && !st.Split? && st.o != o
    requires Inv(Apply(rd, s, st)) && AllHung(Apply(rd, s, st))
    ensures StraightInsert(Apply(rd, s, st), o, key)
  {
    hide Inv, AllHung, LeafInsert;
  }

  /** In every run, an insert that begins at the top when nothing is carried goes
      straight down too, as long as no page is split. */
  lemma {:induction false} InsertGoesStraight(rd: Reading, ss: seq<State>, ts: seq<Step>, b: nat, j: nat)
    requires Run(rd, ss, ts) && b < j < |ss| && ts[b].BeginInsert? && ts[b].from + 1 == |ss[b].tops|
    requires NoneCarried(ss[b]) && NoSplits(ts, b, j)
    ensures StraightInsert(ss[j], ts[b].o, ts[b].e.key)
    ensures b + 1 < j ==> ts[j - 1] != Hop(ts[b].o)
    decreases j
  {
    RunStep(rd, ss, ts, j - 1);
    RunKeepsInv(rd, ss, ts, j - 1);
    RunKeepsInv(rd, ss, ts, j);
    SeparatorsArrive(rd, ss, ts, j);
    hide Run, AllHung, Apply;
    if j == b + 1 {
      InsertBeginsStraight(rd, ss[b], ts[b]);
    } else {
      NoSplitsLess(ts, b, j);
      hide Inv, StraightInsert, NoneCarried;
      InsertGoesStraight(rd, ss, ts, b, j - 1);
      if ts[j - 1].o == ts[b].o {
        OwnInsertStraight(rd, ss[j - 1], ts[j - 1], ts[b].e.key);
      } else {
        OtherInsertStraight(rd, ss[j - 1], ts[j - 1], ts[b].o, ts[b].e.key);
      }
    }
  }

  lemma InsertBeginsStraight(rd: Reading, s: State, st: Step)
    requires Inv(s) && Enabled(s, st) && st.BeginInsert? && st.from + 1 == |s.tops| && NoneCarried(s)
    requires Inv(Apply(rd, s, st)) && AllHung(Apply(rd, s, st))
    ensures StraightInsert(Apply(rd, s, st), st.o, st.e.key)
  {
    assert Known(s, s.tops[st.from]);
    hide AllHung;
  }

  // ------------------------------------------------------ the way back up

  /** The insert stood on the page on its way down. */
  ghost predicate Passed(ss: seq<State>, o: nat, j: nat, p: Word)
    requires j <= |ss|
  {
    exists i :: 0 <= i < j && o in ss[i].ops && ss[i].ops[o].Down? && ss[i].ops[o].cur == p
  }

  /** An insert begun at level `from` still remembers a page for each level from
      there down to the one above its page. */
  ghost predicate Remembers(s: State, o: nat, from: nat) {
    && o in s.ops && Inserting(s.ops[o])
    && (s.ops[o].Down? || s.ops[o].Seek? || s.ops[o].Work? ==>
          && s.ops[o].cur in s.pages
          && var level := s.pages[s.ops[o].cur].level;
             && (s.ops[o].Down? ==> level <= from)
             && |s.ops[o].stack| == if level <= from then from - level else 0)
  }

  lemma OwnStepRemembers(rd: Reading, s: State, st: Step, from: nat)
    requires Inv(s) && Enabled(s, st) && Inv(Apply(rd, s, st)) && Remembers(s, st.o, from)
    ensures Remembers(Apply(rd, s, st), st.o, from)
  {
    if st.Descend? {
      DescendRemembers(rd, s, st, from);
    } else if st.Split? {
      SplitRemembers(rd, s, st, from);
    } else {
      StayRemembers(rd, s, st, from);
    }
  }

  lemma DescendRemembers(rd: Reading, s: State, st: Step, from: nat)
    requires Inv(s) && Enabled(s, st) && st.Descend? && Remembers(s, st.o, from)
    ensures Remembers(Apply(rd, s, st), st.o, from)
  {
    var op := s.ops[st.o];
    assert OpOk(s, op) && Filled(s.pages, op.cur);
    if s.pages[op.cur].body.PivotBody? {
      RouteDown(s, op.cur, op.e.key);
    }
    hide Inv;
  }

  lemma StayRemembers(rd: Reading, s: State, st: Step, from: nat)
    requires Inv(s) && Enabled(s, st) && !st.Descend? && !st.Split? && Remembers(s, st.o, from)
    ensures Remembers(Apply(rd, s, st), st.o, from)
  {
    var op := s.ops[st.o];
    if st.Hop? {
      assert OpOk(s, op) && Linked(s.pages, op.cur);
    }
    hide Inv, LeafInsert, PivotPut, Safe, LatchedByOther;
  }

  lemma SplitRemembers(rd: Reading, s: State, st: Step, from: nat)
    requires Inv(s) && Enabled(s, st) && st.Split? && Inv(Apply(rd, s, st)) && Remembers(s, st.o, from)
    ensures Remembers(Apply(rd, s, st), st.o, from)
  {
    SplitGoesUp(rd, s, st);
    SplitPops(rd, s, st);
    SplitOpIs(rd, s, st);
    hide Inv, Apply;
  }

  lemma SplitPops(rd: Reading, s: State, st: Step)
    requires Enabled(s, st) && st.Split?
    ensures var op, op' := s.ops[st.o], Apply(rd, s, st).ops[st.o];
            op'.Seek? ==> op'.stack == Pop(op.stack) && (op.stack != [] ==> op'.cur == op.stack[|op.stack| - 1])
  {
  }

  lemma OtherStepRemembers(rd: Reading, s: State, st: Step, o: nat, from: nat)
    requires Inv(s) && Enabled(s, st) && st.o != o && Remembers(s, o, from)
    ensures Remembers(Apply(rd, s, st), o, from)
  {
    StepPersists(rd, s, st);
    OthersStay(rd, s, st, o);
    hide Inv, Apply;
  }

  lemma {:induction false} InsertRemembers(rd: Reading, ss: seq<State>, ts: seq<Step>, b: nat, j: nat)
    requires Run(rd, ss, ts) && b < j < |ss| && ts[b].BeginInsert?
    ensures Remembers(ss[j], ts[b].o, ts[b].from)
    decreases j
  {
    hide *;
    RunLength(rd, ss, ts);
    RunStep(rd, ss, ts, j - 1);
    RunKeepsInv(rd, ss, ts, j - 1);
    RunKeepsInv(rd, ss, ts, j);
    if j == b + 1 {
      BeginRemembers(rd, ss[b], ts[b]);
    } else {
      InsertRemembers(rd, ss, ts, b, j - 1);
      if ts[j - 1].o == ts[b].o {
        OwnStepRemembers(rd, ss[j - 1], ts[j - 1], ts[b].from);
      } else {
        OtherStepRemembers(rd, ss[j - 1], ts[j - 1], ts[b].o, ts[b].from);
      }
    }
  }

  lemma BeginRemembers(rd: Reading, s: State, st: Step)
    requires Inv(s) && Enabled(s, st) && st.BeginInsert?
    ensures Remembers(Apply(rd, s, st), st.o, st.from)
  {
    assert Known(s, s.tops[st.from]);
  }

  ghost predicate AllPassed(ss: seq<State>, o: nat, j: nat, stack: seq<Word>)
    requires j <= |ss|
  {
    forall k :: 0 <= k < |stack| ==> Passed(ss, o, j, stack[k])
  }

  /** Everything an insert remembers it has passed. */
  lemma {:induction false} StackIsPassed(rd: Reading, ss: seq<State>, ts: seq<Step>, j: nat, o: nat)
    requires Run(rd, ss, ts) && j < |ss| && o in ss[j].ops
    ensures ss[j].ops[o].Down? || ss[j].ops[o].Seek? || ss[j].ops[o].Work? ==> AllPassed(ss, o, j, ss[j].ops[o].stack)
    decreases j
  {
    if j > 0 {
      RunStep(rd, ss, ts, j - 1);
      if o in ss[j - 1].ops {
        hide Run, Enabled, StepLands, Apply;
        StackIsPassed(rd, ss, ts, j - 1, o);
        var op := ss[j - 1].ops[o];
        StackStep(rd, ss[j - 1], ts[j - 1], o);
        if op.Down? || op.Seek? || op.Work? {
          PassedGrows(ss, o, j - 1, op.stack);
          assert op.Down? ==> Passed(ss, o, j, op.cur);
        }
        hide Passed;
      }
    }
  }

  lemma PassedGrows(ss: seq<State>, o: nat, j: nat, stack: seq<Word>)
    requires j < |ss| && AllPassed(ss, o, j, stack)
    ensures AllPassed(ss, o, j + 1, stack)
  {
    forall k | 0 <= k < |stack| ensures Passed(ss, o, j + 1, stack[k]) {
      assert Passed(ss, o, j, stack[k]);
    }
  }

  lemma StackStep(rd: Reading, s: State, st: Step, o: nat)
    requires Enabled(s, st) && o in s.ops
    ensures var op' := Apply(rd, s, st).ops;
            && o in op' && (op'[o].Down? || op'[o].Seek? || op'[o].Work? ==>
                 && (s.ops[o].Down? || s.ops[o].Seek? || s.ops[o].Work?)
                 && (op'[o].stack <= s.ops[o].stack
                     || (s.ops[o].Down? && op'[o].stack == s.ops[o].stack + [s.ops[o].cur])))
  {
    hide Cut, Relink, LeafInsert, PivotPut, FindRec, Safe, Beyond, NewRoot, SetPar, LatchedByOther;
  }

  /** In every run an insert that splits a page below the level where it began posts
      the separator to the page that it passed one level up. */
  lemma PostsWhereItPassed(rd: Reading, ss: seq<State>, ts: seq<Step>, b: nat, j: nat)
    requires Run(rd, ss, ts) && b < j < |ts| && ts[b].BeginInsert? && ts[j].Split? && ts[j].o == ts[b].o
    requires ts[j].o in ss[j + 1].ops && ss[j + 1].ops[ts[j].o].Seek?
    ensures ss[j].ops[ts[j].o].cur in ss[j].pages && ss[j + 1].ops[ts[j].o].cur in ss[j + 1].pages
    ensures var level, up := ss[j].pages[ss[j].ops[ts[j].o].cur].level, ss[j + 1].ops[ts[j].o].cur;
            && ss[j + 1].pages[up].level == level + 1
            && (level < ts[b].from ==> Passed(ss, ts[j].o, j, up))
  {
    RunStep(rd, ss, ts, j);
    RunKeepsInv(rd, ss, ts, j);
    RunKeepsInv(rd, ss, ts, j + 1);
    SplitGoesUp(rd, ss[j], ts[j]);
    SplitPops(rd, ss[j], ts[j]);
    InsertRemembers(rd, ss, ts, b, j);
    StackIsPassed(rd, ss, ts, j, ts[j].o);
    hide Run, Inv, Apply, Passed;
  }

  /** Which parent hints a step moves: a page that is split names the page that gets
      its separator, and a new sibling names it from when that page is latched on. */
  lemma HintsMove(rd: Reading, s: State, st: Step, p: Word)
    requires Inv(s) && Enabled(s, st) && p in s.pages
    ensures var s' := Apply(rd, s, st);
            && p in s'.pages
            && (st.Latch? && SibOf(s.ops[st.o]) == p ==> s'.pages[p].par == s'.ops[st.o].cur)
            && (st.Split? && s.ops[st.o].cur == p ==> s'.pages[p].par == PostsTo(s'.ops[st.o]))
            && (!(st.Latch? && SibOf(s.ops[st.o]) == p) && !(st.Split? && s.ops[st.o].cur == p) ==>
                  s'.pages[p].par == s.pages[p].par)
    ensures st.Split? ==>
              var s' := Apply(rd, s, st); var op := s'.ops[st.o];
              st.sib in s'.pages && s'.pages[st.sib].par == if op.Publish? then op.top else PAGE_ID_NULL
  {
    if st.Split? {
      HintsAfterSplit(rd, s, st, p);
    }
    hide Inv, ApplySplit, LeafInsert, PivotPut, Cut, Safe;
  }

  /** The page that gets the separator of a split. */
  function PostsTo(op: Op): int { if op.Publish? then op.top else if op.Seek? then op.cur else -1 }

  lemma HintsAfterSplit(rd: Reading, s: State, st: Step, p: Word)
    requires Inv(s) && Enabled(s, st) && st.Split? && p in s.pages
    ensures var s', op := Apply(rd, s, st), Apply(rd, s, st).ops[st.o];
            && p in s'.pages && st.sib in s'.pages
            && s'.pages[p].par == (if s.ops[st.o].cur == p then PostsTo(op) else s.pages[p].par)
            && s'.pages[st.sib].par == if op.Publish? then op.top else PAGE_ID_NULL
  {
    var op := s.ops[st.o];
    var h := Cut(rd, s.pages[op.cur], op);
    RelinkShape(s.pages, op.cur, st.sib, h);
    SplitPagesAre(rd, s, st.o, st.sib, st.top);
    SplitOpIs(rd, s, st);
    hide Inv, Cut, Safe, Relink, WellShaped, AllLinked, ParentOf, Apply;
  }

  lemma SplitOpIs(rd: Reading, s: State, st: Step)
    requires Enabled(s, st) && st.Split?
    ensures var op, op' := s.ops[st.o], Apply(rd, s, st).ops[st.o];
            if s.pages[op.cur].par == PAGE_ID_NULL then op' == Publish(st.top)
            else op'.Seek? && op'.cur == ParentOf(op, s.pages[op.cur])
  {
  }

  // --------------------------------------------------- new roots are stored

  function TopOf(s: State): Word
    requires |s.tops| > 0
  {
    s.tops[|s.tops| - 1]
  }

  ghost predicate Publishes(s: State, o: nat, top: Word) { o in s.ops && s.ops[o] == Publish(top) }

  /** The table page names the topmost page, or an insert is about to store it. */
  ghost predicate RootKnown(s: State)
    requires |s.tops| > 0
  {
    s.root == TopOf(s) || exists o :: Publishes(s, o, TopOf(s))
  }

  /** A step keeps this exactly unless it stores an older root while nobody is left
      to store the topmost one. */
  lemma RootKnownExactly(rd: Reading, s: State, st: Step)
    requires |s.tops| > 0 && RootKnown(s) && Enabled(s, st)
    ensures |Apply(rd, s, st).tops| > 0
    ensures RootKnown(Apply(rd, s, st)) <==>
              (st.PublishRoot? ==> s.ops[st.o].top == TopOf(s) || exists i :: i != st.o && Publishes(s, i, TopOf(s)))
  {
    var s' := Apply(rd, s, st);
    if i :| Publishes(s, i, TopOf(s)) && i != st.o {
      assert Publishes(s', i, TopOf(s));
    }
    if st.Split? && |s'.tops| > |s.tops| {
      assert Publishes(s', st.o, TopOf(s'));
    }
    if i :| Publishes(s', i, TopOf(s')) {
      assert st.PublishRoot? ==> i != st.o && Publishes(s, i, TopOf(s));
    }
  }

  ghost predicate OnePublishes(s: State) {
    forall o, i :: o in s.ops && i in s.ops && s.ops[o].Publish? && s.ops[i].Publish? ==> o == i
  }

  /** In every run in which no two inserts have a new root to store at once, the
      table page names the topmost page, or the one insert is about to store it. */
  lemma {:induction false} RootIsTop(rd: Reading, ss: seq<State>, ts: seq<Step>, i: nat)
    requires Run(rd, ss, ts) && i < |ss| && forall j :: 0 <= j <= i ==> OnePublishes(ss[j])
    ensures |ss[i].tops| > 0 && RootKnown(ss[i])
    ensures forall o :: o in ss[i].ops && ss[i].ops[o].Publish? ==> Publishes(ss[i], o, TopOf(ss[i]))
    decreases i
  {
    if i > 0 {
      RootIsTop(rd, ss, ts, i - 1);
      assert OnePublishes(ss[i]) && OnePublishes(ss[i - 1]);
      OnePublishesStep(rd, ss[i - 1], ts[i - 1]);
    }
  }

  lemma OnePublishesStep(rd: Reading, s: State, st: Step)
    requires |s.tops| > 0 && RootKnown(s) && Enabled(s, st) && OnePublishes(s) && OnePublishes(Apply(rd, s, st))
    requires forall o :: o in s.ops && s.ops[o].Publish? ==> Publishes(s, o, TopOf(s))
    ensures var s' := Apply(rd, s, st);
            && |s'.tops| > 0 && RootKnown(s')
            && forall o :: o in s'.ops && s'.ops[o].Publish? ==> Publishes(s', o, TopOf(s'))
  {
    var s' := Apply(rd, s, st);
    RootKnownExactly(rd, s, st);
    if st.PublishRoot? {
      assert Publishes(s, st.o, TopOf(s));
    }
    assert |s'.tops| > |s.tops| ==> st.o in s'.ops && s'.ops[st.o].Publish?;
    forall o | o in s'.ops && s'.ops[o].Publish? ensures Publishes(s', o, TopOf(s')) {
      if o == st.o {
        assert st.Split?;
      } else {
        assert Publishes(s, o, TopOf(s));
      }
    }
  }

  /** Two inserts with a root to store, the newer one first: the table page then
      names the older root, and nobody is about to store the other. */
  lemma OlderRootStays(rd: Reading, s: State, o: nat, i: nat)
    requires |s.tops| > 1 && o != i && Publishes(s, o, TopOf(s)) && i in s.ops && s.ops[i].Publish?
    requires s.ops[i].top != TopOf(s) && forall j :: j in s.ops && j != o && j != i ==> !s.ops[j].Publish?
    ensures Enabled(s, PublishRoot(o)) && Enabled(Apply(rd, s, PublishRoot(o)), PublishRoot(i))
    ensures var s' := Apply(rd, Apply(rd, s, PublishRoot(o)), PublishRoot(i));
            RootKnown(s) && s'.tops == s.tops && s'.root == s.ops[i].top && !RootKnown(s')
  {
  }
}
