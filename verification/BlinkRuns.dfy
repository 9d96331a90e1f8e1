/** What the B-link protocol promises in every state of every run. */
module BlinkRuns {
  import opened BlinkPage
  import opened BlinkTree
  import opened BlinkSteps
  import opened BlinkSplit
  import opened BlinkAsWritten

  // ------------------------------------------------- the index is a map

  /** All records in the leaves. */
  ghost function Contents(m: map<Word, Page>): set<Rec> {
    set p, r | p in m && m[p].body.LeafBody? && r in m[p].body.recs :: r
  }

  ghost predicate Stored(c: set<Rec>, k: Word) {
    exists r :: r in c && r.key == k
  }

  /** Insertion into a map: an absent key is added, a present one left alone. */
  ghost function Added(c: set<Rec>, e: Rec): set<Rec> {
    if Stored(c, e.key) then c else c + {e}
  }

  ghost predicate Covers(g: Page, k: Word) {
    g.low < k <= g.high
  }

  /** At most one leaf covers a key, and it holds the key's record if any does. */
  lemma OneLeaf(m: map<Word, Page>, p: Word, k: Word)
    requires PagesOk(m) && p in m && m[p].level == 0 && Covers(m[p], k)
    ensures m[p].body.LeafBody?
    ensures forall q :: q in m && m[q].level == 0 && Covers(m[q], k) ==> q == p
    ensures forall r :: r in Contents(m) && r.key == k <==> r in m[p].body.recs && r.key == k
  {
    assert Filled(m, p);
    forall q | q in m && m[q].level == 0 && Covers(m[q], k) ensures q == p {
      assert Disjoint(m, p, q);
    }
    forall r | r in Contents(m) && r.key == k ensures r in m[p].body.recs {
      var q :| q in m && m[q].body.LeafBody? && r in m[q].body.recs;
      assert Filled(m, q);
    }
  }

  lemma HasKeyIs(recs: seq<Rec>, k: Word)
    ensures HasKey(recs, k) <==> exists r :: r in recs && r.key == k
  {
    if HasKey(recs, k) {
      var i :| 0 <= i < |recs| && recs[i].key == k;
      assert recs[i] in recs;
    }
    if r :| r in recs && r.key == k {
      var i :| 0 <= i < |recs| && recs[i] == r;
      assert recs[i].key == k;
    }
  }

  /** The steps at which an insert takes effect. */
  predicate Commits(s: State, st: Step)
    requires Enabled(s, st)
  {
    (st.Put? || st.Split?) && s.pages[s.ops[st.o].cur].body.LeafBody?
  }

  lemma CommitAdds(m: map<Word, Page>, m': map<Word, Page>, p: Word, e: Rec)
    requires PagesOk(m) && p in m && m[p].level == 0 && Covers(m[p], e.key)
    requires m[p].body.LeafBody?
    requires forall r :: r in Contents(m') <==>
               (exists q :: q in m && q != p && m[q].body.LeafBody? && r in m[q].body.recs)
               || r in LeafInsert(m[p].body.recs, e)
    ensures Contents(m') == Added(Contents(m), e)
  {
    var recs := m[p].body.recs;
    OneLeaf(m, p, e.key);
    HasKeyIs(recs, e.key);
    assert Filled(m, p);
    LeafInsertSorted(recs, e);
    assert Stored(Contents(m), e.key) <==> HasKey(recs, e.key);
    forall r ensures r in Contents(m') <==> r in Added(Contents(m), e) {
    }
  }

  lemma PutCommits(rd: Reading, s: State, o: nat)
    requires Inv(s) && Enabled(s, Put(o)) && Commits(s, Put(o))
    ensures Contents(Apply(rd, s, Put(o)).pages) == Added(Contents(s.pages), s.ops[o].e)
  {
    var op := s.ops[o];
    assert OpOk(s, op);
    assert Filled(s.pages, op.cur);
    var m, m' := s.pages, Apply(rd, s, Put(o)).pages;
    assert m'[op.cur].body == LeafBody(LeafInsert(m[op.cur].body.recs, op.e));
    assert forall q :: q in m && q != op.cur ==> m'[q] == m[q];
    CommitAdds(m, m', op.cur, op.e);
  }

  lemma SplitCommits(rd: Reading, s: State, o: nat, sib: Word, top: Word)
    requires Inv(s) && Enabled(s, Split(o, sib, top)) && Commits(s, Split(o, sib, top))
    ensures Contents(Apply(rd, s, Split(o, sib, top)).pages) == Added(Contents(s.pages), s.ops[o].e)
  {
    var op := s.ops[o];
    var p := op.cur;
    var m, m' := s.pages, Apply(rd, s, Split(o, sib, top)).pages;
    assert OpOk(s, op);
    assert Filled(m, p);
    var recs := m[p].body.recs;
    var c := SplitLeaf(recs, op.e);
    SplitLeafJoins(recs, op.e, s.cap);
    SplitDivides(rd, s, o, sib, top);
    DividedAdds(m, m', p, sib, top, c, op.e);
  }

  lemma DividedAdds(m: map<Word, Page>, m': map<Word, Page>, p: Word, sib: Word, top: Word, c: LeafCut, e: Rec)
    requires Divided(m, m', p, sib, top, Halves(LeafBody(c.left), c.fence, LeafBody(c.right)))
    requires PagesOk(m) && m[p].level == 0 && Covers(m[p], e.key) && m[p].body.LeafBody?
    requires c.left + c.right == LeafInsert(m[p].body.recs, e)
    ensures Contents(m') == Added(Contents(m), e)
  {
    forall r
      ensures r in Contents(m') <==>
              (exists q :: q in m && q != p && m[q].body.LeafBody? && r in m[q].body.recs)
              || r in LeafInsert(m[p].body.recs, e)
    {
      DividedRecords(m, m', p, sib, top, Halves(LeafBody(c.left), c.fence, LeafBody(c.right)), r);
      InConcat(c.left, c.right, r);
    }
    CommitAdds(m, m', p, e);
  }

  lemma InConcat<T>(a: seq<T>, b: seq<T>, x: T)
    ensures x in a + b <==> x in a || x in b
  {
  }

  lemma DividedRecords(m: map<Word, Page>, m': map<Word, Page>, p: Word, sib: Word, top: Word, h: Halves, r: Rec)
    requires Divided(m, m', p, sib, top, h) && h.left.LeafBody? && h.right.LeafBody?
    ensures r in Contents(m') <==>
            (exists q :: q in m && q != p && m[q].body.LeafBody? && r in m[q].body.recs)
            || r in h.left.recs || r in h.right.recs
  {
    if r in Contents(m') {
      var q :| q in m' && m'[q].body.LeafBody? && r in m'[q].body.recs;
      assert q != p && q != sib ==> q in m && m[q].body == m'[q].body;
    }
    if q :| q in m && q != p && m[q].body.LeafBody? && r in m[q].body.recs {
      assert q in m' && m'[q].body == m[q].body;
    }
    assert m'[p].body.LeafBody? && m'[sib].body.LeafBody?;
  }

  ghost predicate SameLeaves(m: map<Word, Page>, m': map<Word, Page>) {
    && (forall q :: q in m && m[q].body.LeafBody? ==> q in m' && m'[q].body == m[q].body)
    && (forall q :: q in m' && m'[q].body.LeafBody? ==> q in m && m[q].body == m'[q].body)
  }

  lemma SameLeavesSameContents(m: map<Word, Page>, m': map<Word, Page>)
    requires SameLeaves(m, m')
    ensures Contents(m') == Contents(m)
  {
    forall r ensures r in Contents(m') <==> r in Contents(m) {
      if r in Contents(m') {
        var q :| q in m' && m'[q].body.LeafBody? && r in m'[q].body.recs;
        assert q in m && m[q].body == m'[q].body;
      }
      if r in Contents(m) {
        var q :| q in m && m[q].body.LeafBody? && r in m[q].body.recs;
        assert q in m' && m[q].body == m'[q].body;
      }
    }
  }

  /** One insert adds its record at one step; no other step changes what the
      leaves hold. */
  lemma StepContents(rd: Reading, s: State, st: Step)
    requires Inv(s) && Enabled(s, st)
    ensures Contents(Apply(rd, s, st).pages) ==
            if Commits(s, st) then Added(Contents(s.pages), s.ops[st.o].e) else Contents(s.pages)
  {
    if Commits(s, st) {
      if st.Put? {
        PutCommits(rd, s, st.o);
      } else {
        SplitCommits(rd, s, st.o, st.sib, st.top);
      }
    } else {
      OtherStepLeaves(rd, s, st);
      SameLeavesSameContents(s.pages, Apply(rd, s, st).pages);
    }
  }

  lemma OtherStepLeaves(rd: Reading, s: State, st: Step)
    requires Inv(s) && Enabled(s, st) && !Commits(s, st)
    ensures SameLeaves(s.pages, Apply(rd, s, st).pages)
  {
    if st.Split? {
      SplitDivides(rd, s, st.o, st.sib, st.top);
      var op := s.ops[st.o];
      var h := Cut(rd, s.pages[op.cur], op);
      DividedLeaves(s.pages, Apply(rd, s, st).pages, op.cur, st.sib, st.top, h);
    }
  }

  lemma DividedLeaves(m: map<Word, Page>, m': map<Word, Page>, p: Word, sib: Word, top: Word, h: Halves)
    requires Divided(m, m', p, sib, top, h) && m[p].body.PivotBody? && h.left.PivotBody? && h.right.PivotBody?
    ensures SameLeaves(m, m')
  {
  }

  /** A search that ends answers for the whole index: it returns the record with
      its key if there is one and reports the key missing if there is none. */
  lemma SearchAnswers(rd: Reading, s: State, o: nat)
    requires Inv(s) && Enabled(s, LookEnd(o))
    ensures var op := Apply(rd, s, LookEnd(o)).ops[o]; var c := Contents(s.pages);
            && op.Answer? && op.key == s.ops[o].key
            && (op.found == Missing <==> !Stored(c, op.key))
            && (op.found.Hit? ==> op.found.rec in c && op.found.rec.key == op.key)
            && (op.found.Hit? ==> forall r :: r in c && r.key == op.key ==> r == op.found.rec)
  {
    var op := s.ops[o];
    var recs := s.pages[op.cur].body.recs;
    assert OpOk(s, op) && Filled(s.pages, op.cur) && Linked(s.pages, op.cur);
    OneLeaf(s.pages, op.cur, op.key);
    HasKeyIs(recs, op.key);
    FindRecIs(recs, op.key);
  }

  lemma FindRecIs(recs: seq<Rec>, k: Word)
    requires Sorted(recs)
    ensures FindRec(recs, k) == Missing <==> !HasKey(recs, k)
    ensures FindRec(recs, k).Hit? ==>
              var x := FindRec(recs, k).rec; x in recs && x.key == k && forall r :: r in recs && r.key == k ==> r == x
  {
    if HasKey(recs, k) {
      var j :| 0 <= j < |recs| && recs[j].key == k;
      var ks := KeysOf(recs);
      assert Ascending(ks) && ks[j] == k && (j > 0 ==> ks[j - 1] < k);
      RankIs(ks, k, j);
      hide Rank, Ascending;
      forall r | r in recs && r.key == k ensures r == recs[j] {
        var i :| 0 <= i < |recs| && recs[i] == r;
      }
    }
  }

  // ------------------------------------------------------------------ runs

  /** A run: any interleaving of steps from an empty index.  As written, only
      steps whose separator lands; intended, all steps. */
  ghost predicate Run(rd: Reading, ss: seq<State>, ts: seq<Step>) {
    && |ss| == |ts| + 1 && Init(ss[0])
    && forall i :: 0 <= i < |ts| ==>
         Enabled(ss[i], ts[i]) && StepLands(rd, ss[i], ts[i]) && ss[i + 1] == Apply(rd, ss[i], ts[i])
  }

  lemma RunLength(rd: Reading, ss: seq<State>, ts: seq<Step>)
    requires Run(rd, ss, ts)
    ensures |ss| == |ts| + 1
  {
  }

  lemma RunStep(rd: Reading, ss: seq<State>, ts: seq<Step>, i: nat)
    requires Run(rd, ss, ts) && i < |ts|
    ensures Enabled(ss[i], ts[i]) && StepLands(rd, ss[i], ts[i]) && ss[i + 1] == Apply(rd, ss[i], ts[i])
  {
  }

  lemma {:induction false} RunKeepsInv(rd: Reading, ss: seq<State>, ts: seq<Step>, i: nat)
    requires Run(rd, ss, ts) && i < |ss|
    ensures Inv(ss[i])
  {
    if i == 0 {
      InitInv(ss[0]);
    } else {
      RunKeepsInv(rd, ss, ts, i - 1);
      StepKeepsInv(rd, ss[i - 1], ts[i - 1]);
    }
  }

  /** A record once in the index stays there. */
  lemma {:induction false} RunGrows(rd: Reading, ss: seq<State>, ts: seq<Step>, i: nat, j: nat)
    requires Run(rd, ss, ts) && i <= j < |ss|
    ensures Contents(ss[i].pages) <= Contents(ss[j].pages)
    decreases j
  {
    if i < j {
      RunGrows(rd, ss, ts, i, j - 1);
      RunKeepsInv(rd, ss, ts, j - 1);
      StepContents(rd, ss[j - 1], ts[j - 1]);
    }
  }

  ghost predicate Searching(op: Op) { op.Look? || op.LookRight? }

  /** The operation is a search for `key`, on its way or answered. */
  ghost predicate SearchesFor(s: State, o: nat, key: Word) {
    o in s.ops && (Searching(s.ops[o]) || s.ops[o].Answer?) && s.ops[o].key == key
  }

  lemma StepSearchesFor(rd: Reading, s: State, st: Step, o: nat, key: Word)
    requires Enabled(s, st) && SearchesFor(s, o, key)
    ensures SearchesFor(Apply(rd, s, st), o, key)
    ensures s.ops[o].Answer? ==> Apply(rd, s, st).ops[o] == s.ops[o]
  {
  }

  /** In every run a search is for the key it was begun with. */
  lemma {:induction false} SearchKeepsKey(rd: Reading, ss: seq<State>, ts: seq<Step>, b: nat, j: nat)
    requires Run(rd, ss, ts) && b < j < |ss| && ts[b].BeginSearch?
    ensures SearchesFor(ss[j], ts[b].o, ts[b].key)
    decreases j
  {
    if j == b + 1 {
      assert ss[j] == Apply(rd, ss[b], ts[b]);
    } else {
      SearchKeepsKey(rd, ss, ts, b, j - 1);
      StepSearchesFor(rd, ss[j - 1], ts[j - 1], ts[b].o, ts[b].key);
    }
  }

  lemma {:induction false} AnswerStays(rd: Reading, ss: seq<State>, ts: seq<Step>, i: nat, j: nat, o: nat)
    requires Run(rd, ss, ts) && i <= j < |ss| && o in ss[i].ops && ss[i].ops[o].Answer?
    ensures o in ss[j].ops && ss[j].ops[o] == ss[i].ops[o]
    decreases j
  {
    hide *;
    if i < j {
      RunLength(rd, ss, ts);
      AnswerStays(rd, ss, ts, i, j - 1, o);
      StepAnswerStays(rd, ss, ts, j - 1, o);
    }
  }

  lemma StepAnswerStays(rd: Reading, ss: seq<State>, ts: seq<Step>, i: nat, o: nat)
    requires Run(rd, ss, ts) && i < |ts| && o in ss[i].ops && ss[i].ops[o].Answer?
    ensures o in ss[i + 1].ops && ss[i + 1].ops[o] == ss[i].ops[o]
  {
    RunStep(rd, ss, ts, i);
    hide Run, Enabled, Apply, StepLands;
    StepSearchesFor(rd, ss[i], ts[i], o, ss[i].ops[o].key);
  }

  /** In every run a search that was begun for a key and ends at step `n` answers
      for that key and the whole index as it is then, once and for all: missing if
      no record has the key, and otherwise the one record that has it. */
  lemma AnswersWhatWasAsked(rd: Reading, ss: seq<State>, ts: seq<Step>, b: nat, n: nat, j: nat)
    requires Run(rd, ss, ts) && b < n < j < |ss| && ts[b].BeginSearch? && ts[n] == LookEnd(ts[b].o)
    ensures ts[b].o in ss[j].ops && ss[j].ops[ts[b].o].Answer?
    ensures var k, found, c := ts[b].key, ss[j].ops[ts[b].o].found, Contents(ss[n].pages);
            && (found == Missing <==> !Stored(c, k))
            && (found.Hit? ==>
                  found.rec in c && found.rec.key == k && forall r :: r in c && r.key == k ==> r == found.rec)
  {
    assert Enabled(ss[n], ts[n]) && ss[n + 1] == Apply(rd, ss[n], ts[n]);
    RunKeepsInv(rd, ss, ts, n);
    SearchKeepsKey(rd, ss, ts, b, n);
    SearchAnswers(rd, ss[n], ts[b].o);
    AnswerStays(rd, ss, ts, n + 1, j, ts[b].o);
    hide Inv, Contents, Stored, Run;
  }

  /** No inserted key is ever missed: once an insert has taken effect, every
      search that was begun for its key and ends later, whenever and wherever it
      began, finds the one record with that key. */
  lemma InsertedIsFound(rd: Reading, ss: seq<State>, ts: seq<Step>, i: nat, b: nat, n: nat)
    requires Run(rd, ss, ts) && i < n < |ts| && Enabled(ss[i], ts[i]) && Commits(ss[i], ts[i])
    requires b < n && ts[b].BeginSearch? && ts[n] == LookEnd(ts[b].o) && ts[b].key == ss[i].ops[ts[i].o].e.key
    ensures ts[b].o in ss[n + 1].ops && ss[n + 1].ops[ts[b].o].Answer?
    ensures var found := ss[n + 1].ops[ts[b].o].found;
            found.Hit? && found.rec.key == ts[b].key && found.rec in Contents(ss[i + 1].pages)
  {
    var e := ss[i].ops[ts[i].o].e;
    RunKeepsInv(rd, ss, ts, i);
    StepContents(rd, ss[i], ts[i]);
    var c := Contents(ss[i + 1].pages);
    assert Stored(c, e.key) by {
      if !Stored(Contents(ss[i].pages), e.key) {
        assert e in c;
      }
    }
    var r :| r in c && r.key == e.key;
    RunGrows(rd, ss, ts, i + 1, n);
    AnswersWhatWasAsked(rd, ss, ts, b, n, n + 1);
  }

  // ------------------------------------------------------ levels are chains

  /** The pages from `p` on, following right links. */
  function Chain(m: map<Word, Page>, p: Word): (c: seq<Word>)
    requires AllLinked(m) && p in m
    decreases PAGE_ID_NULL - m[p].low
  {
    assert Linked(m, p);
    if m[p].next == PAGE_ID_NULL then [p] else [p] + Chain(m, m[p].next)
  }

  lemma {:induction false} ChainLinks(m: map<Word, Page>, p: Word)
    requires AllLinked(m) && p in m
    ensures var c := Chain(m, p);
      && |c| >= 1 && c[0] == p && (forall i :: 0 <= i < |c| ==> c[i] in m && m[c[i]].level == m[p].level)
      && (forall i :: 0 <= i < |c| - 1 ==>
          m[c[i]].next == c[i + 1] && m[c[i + 1]].back == c[i] && m[c[i]].high == m[c[i + 1]].low)
      && m[c[|c| - 1]].next == PAGE_ID_NULL && m[c[|c| - 1]].high == PAGE_ID_NULL
    decreases PAGE_ID_NULL - m[p].low
  {
    assert Linked(m, p);
    if m[p].next != PAGE_ID_NULL {
      ChainLinks(m, m[p].next);
      assert Chain(m, p) == [p] + Chain(m, m[p].next);
      hide Linked, AllLinked;
    }
  }

  lemma {:induction false} ChainRises(m: map<Word, Page>, p: Word, i: nat, j: nat)
    requires AllLinked(m) && p in m && i < j < |Chain(m, p)|
    ensures var c := Chain(m, p); c[i] in m && c[j] in m && m[c[i]].low < m[c[j]].low && c[i] != c[j]
    decreases j
  {
    var c := Chain(m, p);
    ChainLinks(m, p);
    assert Linked(m, c[j - 1]);
    if i < j - 1 {
      ChainRises(m, p, i, j - 1);
    }
  }

  lemma {:induction false} ChainCovers(m: map<Word, Page>, p: Word, q: Word)
    requires AllLinked(m) && Apart(m) && p in m && q in m && m[q].level == m[p].level && m[p].low <= m[q].low
    ensures q in Chain(m, p)
    decreases PAGE_ID_NULL - m[p].low
  {
    assert Linked(m, p) && Linked(m, q) && Disjoint(m, p, q);
    if p != q {
      ChainCovers(m, m[p].next, q);
    }
  }

  /** In every state of every run the pages of each level form one chain from
      the page that was once root to the open end: right links never cycle, back
      links invert them, fences meet, and no page of the level is off the chain. */
  lemma LevelIsChain(rd: Reading, ss: seq<State>, ts: seq<Step>, i: nat, l: nat)
    requires Run(rd, ss, ts) && i < |ss| && l < |ss[i].tops|
    ensures AllLinked(ss[i].pages) && ss[i].tops[l] in ss[i].pages
    ensures var m := ss[i].pages; var c := Chain(m, ss[i].tops[l]);
      && (forall p :: p in c <==> p in m && m[p].level == l)
      && (forall a, b :: 0 <= a < b < |c| ==> c[a] != c[b])
      && m[c[0]].low == -1 && m[c[|c| - 1]].high == PAGE_ID_NULL
      && (forall a :: 0 <= a < |c| - 1 ==>
            m[c[a]].next == c[a + 1] && m[c[a + 1]].back == c[a] && m[c[a]].high == m[c[a + 1]].low)
  {
    var s := ss[i];
    RunKeepsInv(rd, ss, ts, i);
    var m, t := s.pages, s.tops[l];
    assert Known(s, t);
    ChainLinks(m, t);
    var c := Chain(m, t);
    forall a, b | 0 <= a < b < |c| ensures c[a] != c[b] {
      ChainRises(m, t, a, b);
    }
    forall p | p in m && m[p].level == l ensures p in c {
      assert Linked(m, p);
      ChainCovers(m, t, p);
    }
  }

  // -------------------------------------------------------------- progress

  predicate Finished(op: Op) {
    op.Done? || op.Answer?
  }

  /** The step an unfinished operation takes next, given two unused page ids. */
  function NextStep(s: State, o: nat, sib: Word, top: Word): Step
    requires o in s.ops && !Finished(s.ops[o])
  {
    match s.ops[o]
    case Down(_, _, _) => Descend(o)
    case Seek(_, cur, _, _, _) =>
      if cur in s.pages && Beyond(s.pages[cur], Sought(s.ops[o])) then Hop(o) else Latch(o)
    case Work(_, cur, _, _) => if cur in s.pages && Safe(s, s.pages[cur]) then Put(o) else Split(o, sib, top)
    case Publish(_) => PublishRoot(o)
    case Look(_, _) => LookDown(o)
    case LookRight(key, cur) => if cur in s.pages && Beyond(s.pages[cur], key) then LookHop(o) else LookEnd(o)
  }

  /** An operation can take its next step unless it waits for a latch. */
  lemma OnlyLatchesBlock(s: State, o: nat, sib: Word, top: Word)
    requires Inv(s) && o in s.ops && !Finished(s.ops[o])
    requires sib !in s.pages && top !in s.pages && sib != top && sib != PAGE_ID_NULL && top != PAGE_ID_NULL
    ensures Enabled(s, NextStep(s, o, sib, top)) <==>
            !(s.ops[o].Seek? && LatchedByOther(s, o, s.ops[o].cur))
  {
    var op := s.ops[o];
    assert OpOk(s, op);
    if !op.Publish? {
      assert Filled(s.pages, op.cur) && Linked(s.pages, op.cur);
    }
  }

  // ------------------------------------------------------- searches end

  /** What a search has left to do at most: a step for each level down, for each
      key between the lower fence of its page and its own, and to answer. */
  ghost function SearchLeft(s: State, o: nat): nat
    requires Inv(s) && o in s.ops
  {
    assert OpOk(s, s.ops[o]);
    match s.ops[o]
    case Look(key, cur) => s.pages[cur].level + 1 + key - s.pages[cur].low
    case LookRight(key, cur) => key - s.pages[cur].low
    case _ => 0
  }

  /** A search's own step lowers the level or comes to the leaves, or moves the
      lower fence up, or answers; another operation's step changes none of that. */
  lemma SearchAdvances(rd: Reading, s: State, st: Step, o: nat)
    requires Inv(s) && Enabled(s, st) && Inv(Apply(rd, s, st)) && o in s.ops && Searching(s.ops[o])
    ensures var s' := Apply(rd, s, st);
            && o in s'.ops && (Searching(s'.ops[o]) || s'.ops[o].Answer?)
            && (st.o == o ==> SearchLeft(s', o) < SearchLeft(s, o))
            && (st.o != o ==> s'.ops[o] == s.ops[o] && SearchLeft(s', o) == SearchLeft(s, o))
    ensures SearchLeft(s, o) > 0
  {
    var s', op := Apply(rd, s, st), s.ops[o];
    assert OpOk(s, op) && Filled(s.pages, op.cur) && Linked(s.pages, op.cur);
    if st.o == o {
      if st.LookDown? && s.pages[op.cur].body.PivotBody? {
        RouteDown(s, op.cur, op.key);
      }
      assert OpOk(s', s'.ops[o]);
    } else {
      hide Inv;
      StepPersists(rd, s, st);
      OthersStay(rd, s, st, o);
      assert s'.pages[op.cur].level == s.pages[op.cur].level && s'.pages[op.cur].low == s.pages[op.cur].low;
    }
  }

  /** An operation that has ended takes no step. */
  lemma OthersStay(rd: Reading, s: State, st: Step, o: nat)
    requires Enabled(s, st) && o in s.ops && (st.o != o || s.ops[o].Answer?)
    ensures st.o != o && o in Apply(rd, s, st).ops && Apply(rd, s, st).ops[o] == s.ops[o]
  {
  }

  /** No step moves a page to another level or moves its lower fence. */
  lemma StepPersists(rd: Reading, s: State, st: Step)
    requires Inv(s) && Enabled(s, st)
    ensures Persist(s.pages, Apply(rd, s, st).pages)
  {
    if st.Split? {
      SplitDivides(rd, s, st.o, st.sib, st.top);
    }
  }

  /** The steps of operation `o` among the first `n`. */
  function OwnSteps(ts: seq<Step>, o: nat, n: nat): nat
    requires n <= |ts|
  {
    if n == 0 then 0 else OwnSteps(ts, o, n - 1) + if ts[n - 1].o == o then 1 else 0
  }

  ghost predicate SearchAt(s: State, o: nat) {
    && Inv(s) && o in s.ops && (Searching(s.ops[o]) || s.ops[o].Answer?)
    && (s.ops[o].Answer? <==> SearchLeft(s, o) == 0)
  }

  lemma IsSearchAt(s: State, o: nat)
    requires Inv(s) && o in s.ops && (Searching(s.ops[o]) || s.ops[o].Answer?)
    ensures SearchAt(s, o)
  {
    assert OpOk(s, s.ops[o]);
  }

  lemma SearchStep(rd: Reading, s: State, st: Step, o: nat)
    requires SearchAt(s, o) && Enabled(s, st) && Inv(Apply(rd, s, st))
    ensures var s' := Apply(rd, s, st);
            SearchAt(s', o) && SearchLeft(s', o) + (if st.o == o then 1 else 0) <= SearchLeft(s, o)
  {
    if Searching(s.ops[o]) {
      SearchAdvances(rd, s, st, o);
    } else {
      OthersStay(rd, s, st, o);
    }
    IsSearchAt(Apply(rd, s, st), o);
  }

  /** In every run, whatever the other operations do in between, a search ends:
      it takes at most as many steps of its own as were left when it began, and
      has answered when none is left. */
  lemma {:induction false} SearchEnds(rd: Reading, ss: seq<State>, ts: seq<Step>, i: nat, j: nat, o: nat)
    requires Run(rd, ss, ts) && i <= j < |ss| && SearchAt(ss[i], o)
    ensures SearchAt(ss[j], o)
    ensures OwnSteps(ts, o, j) - OwnSteps(ts, o, i) + SearchLeft(ss[j], o) <= SearchLeft(ss[i], o)
    decreases j
  {
    hide Inv, SearchAt, SearchLeft, Enabled, Apply;
    if i < j {
      RunKeepsInv(rd, ss, ts, j);
      SearchEnds(rd, ss, ts, i, j - 1, o);
      SearchStep(rd, ss[j - 1], ts[j - 1], o);
    }
  }

  /** A search begun at the root of level `l` takes at most `l` and its key and
      two steps more. */
  lemma SearchBound(rd: Reading, ss: seq<State>, ts: seq<Step>, i: nat, j: nat)
    requires Run(rd, ss, ts) && i < j < |ss| && i < |ts| && ts[i].BeginSearch?
    ensures OwnSteps(ts, ts[i].o, j) - OwnSteps(ts, ts[i].o, i + 1) <= ts[i].from + ts[i].key + 2
  {
    RunKeepsInv(rd, ss, ts, i);
    RunKeepsInv(rd, ss, ts, i + 1);
    assert Known(ss[i], ss[i].tops[ts[i].from]);
    IsSearchAt(ss[i + 1], ts[i].o);
    SearchEnds(rd, ss, ts, i + 1, j, ts[i].o);
  }

  // -------------------------------------------------------- inserts end

  ghost predicate Inserting(op: Op) { op.Down? || op.Seek? || op.Work? || op.Publish? || op.Done? }

  /** An insert of `e` has its record with it, and from its first split on, or when
      it is done, the key is in the index. */
  ghost predicate Underway(s: State, o: nat, e: Rec) {
    && o in s.ops && Inserting(s.ops[o])
    && (s.ops[o].Down? || s.ops[o].Seek? || s.ops[o].Work? ==> s.ops[o].e == e)
    && (Posting(s.ops[o]) || s.ops[o].Publish? || s.ops[o].Done? ==> Stored(Contents(s.pages), e.key))
  }

  ghost predicate Posting(op: Op) { (op.Seek? || op.Work?) && op.post.Sep? }

  lemma AddedIsStored(c: set<Rec>, e: Rec)
    ensures Stored(Added(c, e), e.key) && c <= Added(c, e)
  {
    if !Stored(c, e.key) {
      assert e in Added(c, e);
    }
  }

  lemma StepStores(rd: Reading, s: State, st: Step, k: Word)
    requires Inv(s) && Enabled(s, st)
    ensures Stored(Contents(s.pages), k) ==> Stored(Contents(Apply(rd, s, st).pages), k)
    ensures Commits(s, st) ==> Stored(Contents(Apply(rd, s, st).pages), s.ops[st.o].e.key)
  {
    StepContents(rd, s, st);
    hide Inv, Contents, Apply;
    if Commits(s, st) {
      AddedIsStored(Contents(s.pages), s.ops[st.o].e);
    }
  }

  lemma StepUnderway(rd: Reading, s: State, st: Step, o: nat, e: Rec)
    requires Inv(s) && Enabled(s, st) && Underway(s, o, e)
    ensures Underway(Apply(rd, s, st), o, e)
  {
    StepStores(rd, s, st, e.key);
    if st.Put? || st.Split? {
      WorkCommits(s, st);
    }
    hide Contents, Stored, Inv, Commits;
    if st.o != o {
      OthersStay(rd, s, st, o);
      hide Apply;
    }
  }

  /** An insert's first split and the end of one that never splits are where it
      takes effect. */
  lemma WorkCommits(s: State, st: Step)
    requires Inv(s) && Enabled(s, st) && (st.Put? || st.Split?)
    ensures Commits(s, st) || s.ops[st.o].post.Sep?
  {
    assert OpOk(s, s.ops[st.o]) && Filled(s.pages, s.ops[st.o].cur);
  }

  /** In every run an insert that is posting a separator, publishing a root or done
      has taken effect: its key is in the index. */
  lemma {:induction false} InsertTakesEffect(rd: Reading, ss: seq<State>, ts: seq<Step>, i: nat, j: nat)
    requires Run(rd, ss, ts) && i < j < |ss| && ts[i].BeginInsert?
    ensures Underway(ss[j], ts[i].o, ts[i].e)
    decreases j
  {
    if j == i + 1 {
      assert ss[j] == Apply(rd, ss[i], ts[i]);
    } else {
      InsertTakesEffect(rd, ss, ts, i, j - 1);
      RunKeepsInv(rd, ss, ts, j - 1);
      StepUnderway(rd, ss[j - 1], ts[j - 1], ts[i].o, ts[i].e);
    }
  }

  /** What callers see: a search for the key of an insert that ends after the insert
      is done finds a record with that key. */
  lemma DoneIsFound(rd: Reading, ss: seq<State>, ts: seq<Step>, i: nat, j: nat, b: nat, n: nat)
    requires Run(rd, ss, ts) && i < j <= n < |ts| && ts[i].BeginInsert?
    requires ts[i].o in ss[j].ops && ss[j].ops[ts[i].o].Done?
    requires b < n && ts[b].BeginSearch? && ts[n] == LookEnd(ts[b].o) && ts[b].key == ts[i].e.key
    ensures ts[b].o in ss[n + 1].ops && ss[n + 1].ops[ts[b].o].Answer?
    ensures var found := ss[n + 1].ops[ts[b].o].found; found.Hit? && found.rec.key == ts[b].key
  {
    InsertTakesEffect(rd, ss, ts, i, j);
    RunGrows(rd, ss, ts, j, n);
    AnswersWhatWasAsked(rd, ss, ts, b, n, n + 1);
    hide Inv, Contents, Run;
  }

  /** Each operation was begun. */
  lemma {:induction false} WasBegun(rd: Reading, ss: seq<State>, ts: seq<Step>, j: nat, o: nat) returns (i: nat)
    requires Run(rd, ss, ts) && j < |ss| && o in ss[j].ops
    ensures i < j && ts[i].o == o && (ts[i].BeginInsert? || ts[i].BeginSearch?)
    decreases j
  {
    if o in ss[j - 1].ops {
      i := WasBegun(rd, ss, ts, j - 1, o);
    } else {
      i := j - 1;
    }
  }

  /** What an insert adds when it takes effect is the record it was begun with. */
  lemma CommitsItsOwn(rd: Reading, ss: seq<State>, ts: seq<Step>, j: nat) returns (i: nat)
    requires Run(rd, ss, ts) && j < |ts| && Enabled(ss[j], ts[j]) && Commits(ss[j], ts[j])
    ensures i < j && ts[i].BeginInsert? && ts[i].o == ts[j].o
    ensures Contents(ss[j + 1].pages) == Added(Contents(ss[j].pages), ts[i].e)
  {
    i := WasBegun(rd, ss, ts, j, ts[j].o);
    RunKeepsInv(rd, ss, ts, j);
    StepContents(rd, ss[j], ts[j]);
    if ts[i].BeginSearch? {
      SearchKeepsKey(rd, ss, ts, i, j);
    } else {
      InsertTakesEffect(rd, ss, ts, i, j);
    }
    hide Inv, Contents, Added;
  }

  /** Every record in the index came from an insert. */
  lemma {:induction false} OnlyInserted(rd: Reading, ss: seq<State>, ts: seq<Step>, j: nat, r: Rec) returns (i: nat)
    requires Run(rd, ss, ts) && j < |ss| && r in Contents(ss[j].pages)
    ensures i < j && ts[i].BeginInsert? && ts[i].e == r
    decreases j
  {
    hide *;
    StartsEmpty(rd, ss, ts);
    if j > 0 && r in Contents(ss[j - 1].pages) {
      i := OnlyInserted(rd, ss, ts, j - 1, r);
    } else if j > 0 {
      i := NewRecord(rd, ss, ts, j - 1, r);
    }
  }

  lemma StartsEmpty(rd: Reading, ss: seq<State>, ts: seq<Step>)
    requires Run(rd, ss, ts)
    ensures |ss| == |ts| + 1 && Contents(ss[0].pages) == {}
  {
  }

  lemma NewRecord(rd: Reading, ss: seq<State>, ts: seq<Step>, j: nat, r: Rec) returns (i: nat)
    requires Run(rd, ss, ts) && j < |ts| && r in Contents(ss[j + 1].pages) && r !in Contents(ss[j].pages)
    ensures i < j && ts[i].BeginInsert? && ts[i].e == r
  {
    RunStep(rd, ss, ts, j);
    RunKeepsInv(rd, ss, ts, j);
    StepContents(rd, ss[j], ts[j]);
    hide Run, Inv, Contents, Apply;
    i := CommitsItsOwn(rd, ss, ts, j);
  }

  /** More than there are keys, and the steps at one level beside the hops. */
  const PER_LEVEL: nat := 0x1_0000_0003

  /** What an insert has left to do at most in an index of `height` levels: a step
      for each level down, and then at each level up one for each key between the
      lower fence of its page and the key it seeks, and two more. */
  ghost function InsertLeft(s: State, o: nat, height: nat): nat
    requires Inv(s) && o in s.ops && |s.tops| <= height
  {
    assert OpOk(s, s.ops[o]);
    match s.ops[o]
    case Down(e, cur, _) => (height - 1) * PER_LEVEL + e.key - s.pages[cur].low + s.pages[cur].level + 3
    case Seek(_, cur, _, _, _) =>
      (height - 1 - s.pages[cur].level) * PER_LEVEL + Sought(s.ops[o]) - s.pages[cur].low + 2
    case Work(_, cur, _, _) => (height - 1 - s.pages[cur].level) * PER_LEVEL + 2
    case Publish(_) => 1
    case _ => 0
  }

  ghost predicate InsertingAt(s: State, o: nat, height: nat) {
    && Inv(s) && o in s.ops && |s.tops| <= height && Inserting(s.ops[o])
    && (s.ops[o].Done? <==> InsertLeft(s, o, height) == 0)
  }

  lemma IsInsertingAt(s: State, o: nat, height: nat)
    requires Inv(s) && o in s.ops && |s.tops| <= height && Inserting(s.ops[o])
    ensures InsertingAt(s, o, height)
  {
    assert OpOk(s, s.ops[o]);
  }

  /** An insert's own step brings its end nearer; those of others do not matter. */
  lemma InsertStep(rd: Reading, s: State, st: Step, o: nat, height: nat)
    requires InsertingAt(s, o, height) && Enabled(s, st) && Inv(Apply(rd, s, st)) && |Apply(rd, s, st).tops| <= height
    ensures var s' := Apply(rd, s, st);
            && InsertingAt(s', o, height)
            && InsertLeft(s', o, height) + (if st.o == o then 1 else 0) <= InsertLeft(s, o, height)
  {
    IsInsertingAt(Apply(rd, s, st), o, height);
    if st.o == o {
      OwnInsertStep(rd, s, st, height);
    } else {
      OtherInsertStep(rd, s, st, o, height);
    }
  }

  lemma OtherInsertStep(rd: Reading, s: State, st: Step, o: nat, height: nat)
    requires InsertingAt(s, o, height) && Enabled(s, st) && Inv(Apply(rd, s, st)) && |Apply(rd, s, st).tops| <= height
    requires st.o != o
    ensures InsertingAt(Apply(rd, s, st), o, height)
    ensures InsertLeft(Apply(rd, s, st), o, height) == InsertLeft(s, o, height)
  {
    var op := s.ops[o];
    assert OpOk(s, op);
    StepPersists(rd, s, st);
    OthersStay(rd, s, st, o);
    IsInsertingAt(Apply(rd, s, st), o, height);
  }

  lemma OwnInsertStep(rd: Reading, s: State, st: Step, height: nat)
    requires InsertingAt(s, st.o, height) && Enabled(s, st) && Inv(Apply(rd, s, st))
    requires |Apply(rd, s, st).tops| <= height
    ensures InsertingAt(Apply(rd, s, st), st.o, height)
    ensures InsertLeft(Apply(rd, s, st), st.o, height) < InsertLeft(s, st.o, height)
  {
    IsInsertingAt(Apply(rd, s, st), st.o, height);
    match s.ops[st.o]
    case Down(_, _, _) => DownStep(rd, s, st, height);
    case Seek(_, _, _, _, _) => SeekStep(rd, s, st, height);
    case Work(_, _, _, _) => WorkStep(rd, s, st, height);
    case _ =>
  }

  lemma DownStep(rd: Reading, s: State, st: Step, height: nat)
    requires InsertingAt(s, st.o, height) && Enabled(s, st) && Inv(Apply(rd, s, st))
    requires |Apply(rd, s, st).tops| <= height
    requires s.ops[st.o].Down?
    ensures InsertLeft(Apply(rd, s, st), st.o, height) < InsertLeft(s, st.o, height)
  {
    var op := s.ops[st.o];
    assert OpOk(s, op) && Filled(s.pages, op.cur);
    if s.pages[op.cur].body.PivotBody? {
      RouteDown(s, op.cur, op.e.key);
    }
    hide Inv;
  }

  lemma SeekStep(rd: Reading, s: State, st: Step, height: nat)
    requires InsertingAt(s, st.o, height) && Enabled(s, st) && Inv(Apply(rd, s, st))
    requires |Apply(rd, s, st).tops| <= height
    requires s.ops[st.o].Seek?
    ensures InsertLeft(Apply(rd, s, st), st.o, height) < InsertLeft(s, st.o, height)
  {
    var op := s.ops[st.o];
    assert OpOk(s, op) && Linked(s.pages, op.cur);
    hide Inv;
  }

  lemma WorkStep(rd: Reading, s: State, st: Step, height: nat)
    requires InsertingAt(s, st.o, height) && Enabled(s, st) && Inv(Apply(rd, s, st))
    requires |Apply(rd, s, st).tops| <= height
    requires s.ops[st.o].Work?
    ensures InsertLeft(Apply(rd, s, st), st.o, height) < InsertLeft(s, st.o, height)
  {
    var op := s.ops[st.o];
    assert OpOk(s, op);
    assert s.pages[op.cur].level < height;
    if st.Split? {
      SplitGoesUp(rd, s, st);
      hide Apply, Enabled;
    }
    hide Inv;
  }

  /** After a split the insert goes on one level up, or has made a root. */
  lemma SplitGoesUp(rd: Reading, s: State, st: Step)
    requires Inv(s) && Enabled(s, st) && st.Split? && Inv(Apply(rd, s, st))
    ensures s.ops[st.o].cur in s.pages
    ensures var s', op := Apply(rd, s, st), Apply(rd, s, st).ops[st.o];
            || op.Publish?
            || (op.Seek? && op.cur in s'.pages && s'.pages[op.cur].level == s.pages[s.ops[st.o].cur].level + 1
                && s'.pages[op.cur].level < |s'.tops| && s'.pages[op.cur].low >= -1)
  {
    var s', op := Apply(rd, s, st), Apply(rd, s, st).ops[st.o];
    assert OpOk(s', op);
    SplitDivides(rd, s, st.o, st.sib, st.top);
    if op.Seek? {
      assert Linked(s'.pages, op.cur);
    }
  }

  lemma {:induction false} TopsGrow(rd: Reading, ss: seq<State>, ts: seq<Step>, i: nat, j: nat)
    requires Run(rd, ss, ts) && i <= j < |ss|
    ensures |ss[i].tops| <= |ss[j].tops|
    decreases j
  {
    if i < j {
      TopsGrow(rd, ss, ts, i, j - 1);
    }
  }

  /** In every run, whatever the other operations do in between, an insert takes at
      most as many steps of its own as it had left for the height that the index
      has in the end, and is done when none is left. */
  lemma {:induction false} InsertEnds(rd: Reading, ss: seq<State>, ts: seq<Step>, i: nat, j: nat, o: nat, height: nat)
    requires Run(rd, ss, ts) && i <= j < |ss| && |ss[j].tops| <= height && InsertingAt(ss[i], o, height)
    ensures InsertingAt(ss[j], o, height)
    ensures OwnSteps(ts, o, j) - OwnSteps(ts, o, i) + InsertLeft(ss[j], o, height) <= InsertLeft(ss[i], o, height)
    decreases j
  {
    hide Inv, InsertingAt, InsertLeft, Enabled, Apply, Inserting;
    if i < j {
      RunKeepsInv(rd, ss, ts, j);
      RunKeepsInv(rd, ss, ts, j - 1);
      TopsGrow(rd, ss, ts, j - 1, j);
      InsertEnds(rd, ss, ts, i, j - 1, o, height);
      InsertStep(rd, ss[j - 1], ts[j - 1], o, height);
    }
  }

  /** An insert begun at the root of level `l` takes at most its key, `l` and four
      steps more, and a bounded number for each level there is above the leaves in
      the end. */
  lemma InsertBound(rd: Reading, ss: seq<State>, ts: seq<Step>, i: nat, j: nat)
    requires Run(rd, ss, ts) && i < j < |ss| && i < |ts| && ts[i].BeginInsert?
    ensures OwnSteps(ts, ts[i].o, j) - OwnSteps(ts, ts[i].o, i + 1)
            <= (|ss[j].tops| - 1) * PER_LEVEL + ts[i].e.key + ts[i].from + 4
  {
    RunKeepsInv(rd, ss, ts, i);
    RunKeepsInv(rd, ss, ts, i + 1);
    TopsGrow(rd, ss, ts, i + 1, j);
    assert Known(ss[i], ss[i].tops[ts[i].from]);
    IsInsertingAt(ss[i + 1], ts[i].o, |ss[j].tops|);
    InsertEnds(rd, ss, ts, i + 1, j, ts[i].o, |ss[j].tops|);
  }

  /** Whoever holds the latch an insert waits for is not itself waiting for a
      page at or below that one. */
  lemma HolderIsHigher(s: State, o: nat) returns (o2: nat)
    requires Inv(s) && o in s.ops && s.ops[o].Seek? && LatchedByOther(s, o, s.ops[o].cur)
    ensures o2 in s.ops && !Finished(s.ops[o2]) && (s.ops[o2].Work? || s.ops[o2].Seek?)
    ensures s.ops[o].cur in s.pages
    ensures s.ops[o2].Seek? ==> s.ops[o2].cur in s.pages
    ensures s.ops[o2].Seek? ==> s.pages[s.ops[o2].cur].level > s.pages[s.ops[o].cur].level
  {
    o2 :| o2 in s.ops && o2 != o && HeldBy(s.ops[o2]) == s.ops[o].cur;
    assert OpOk(s, s.ops[o]) && OpOk(s, s.ops[o2]);
    if s.ops[o2].Seek? {
      BelowIsLower(s.pages, s.ops[o2].post.sib);
    }
  }

  /** The latches never deadlock: while some operation is unfinished and two
      page ids are left, some unfinished operation can take its next step. */
  lemma {:induction false} NeverDeadlocks(s: State, o: nat, sib: Word, top: Word) returns (w: nat)
    requires Inv(s) && o in s.ops && !Finished(s.ops[o])
    requires sib !in s.pages && top !in s.pages && sib != top && sib != PAGE_ID_NULL && top != PAGE_ID_NULL
    ensures w in s.ops && !Finished(s.ops[w]) && Enabled(s, NextStep(s, w, sib, top))
    decreases if s.ops[o].Seek? && s.ops[o].cur in s.pages then |s.tops| - s.pages[s.ops[o].cur].level else 0
  {
    assert OpOk(s, s.ops[o]);
    OnlyLatchesBlock(s, o, sib, top);
    if s.ops[o].Seek? && LatchedByOther(s, o, s.ops[o].cur) {
      var o2 := HolderIsHigher(s, o);
      w := NeverDeadlocks(s, o2, sib, top);
    } else {
      w := o;
    }
  }
}
