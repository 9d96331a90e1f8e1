/** The B-link protocol: inserts and searches, one latched section at a time. */
module BlinkTree {
  import opened BlinkPage

  // Any number of operations advance in any order.  A page's lower fence never
  // moves and its upper fence only shrinks, by a split to the right; from that
  // every search ends at the one leaf that covers its key.

  datatype Body = LeafBody(recs: seq<Rec>) | PivotBody(pivot: Pivot)

  /** A page.  `level` and `low`, the exclusive lower fence (-1 for a leftmost
      page), are bookkeeping of the model and not stored by the program. */
  datatype Page = Page(level: nat, low: int, high: Word, next: Word, back: Word, par: Word, body: Body)

  /** What an insert carries up: a separator and its right sibling. */
  datatype Post = NoPost | Sep(key: Word, sib: Word)

  datatype Found = Missing | Hit(rec: Rec)

  /** How far one operation has come. */
  datatype Op =
    | Down(e: Rec, cur: Word, stack: seq<Word>)                        // insert, descending
    | Seek(e: Rec, cur: Word, stack: seq<Word>, post: Post, below: Word)
                                                                       // about to latch `cur`, holding `below`
    | Work(e: Rec, cur: Word, stack: seq<Word>, post: Post)            // holds the latch of `cur`
    | Publish(top: Word)                                               // new root made, table not yet updated
    | Done
    | Look(key: Word, cur: Word)                                       // search, descending
    | LookRight(key: Word, cur: Word)                                  // search, on the leaf level
    | Answer(key: Word, found: Found)

  /** `tops[l]` is the page that is or was the root at level `l`; `root` is the
      id stored in the table page; `cap` is `LeafCapacity` of the record width. */
  datatype State = State(fanout: nat, cap: nat, pages: map<Word, Page>, tops: seq<Word>, root: Word, ops: map<nat, Op>)

  // ------------------------------------------------------------ the steps

  datatype Step =
    | BeginInsert(o: nat, e: Rec, from: nat)
    | BeginSearch(o: nat, key: Word, from: nat)
    | Descend(o: nat)
    | Hop(o: nat)
    | Latch(o: nat)
    | Put(o: nat)
    | Split(o: nat, sib: Word, top: Word)
    | PublishRoot(o: nat)
    | LookDown(o: nat)
    | LookHop(o: nat)
    | LookEnd(o: nat)

  function HeldBy(op: Op): int {
    match op
    case Work(_, cur, _, _) => cur
    case Seek(_, _, _, Sep(_, _), below) => below
    case _ => -1
  }

  function SibOf(op: Op): int {
    match op
    case Work(_, _, _, Sep(_, sib)) => sib
    case Seek(_, _, _, Sep(_, sib), _) => sib
    case _ => -1
  }

  /** The sibling whose parent pointer the operation has yet to set. */
  function PendingOf(op: Op): int {
    match op
    case Seek(_, _, _, Sep(_, sib), _) => sib
    case _ => -1
  }

  predicate LatchedByOther(s: State, o: nat, p: Word) {
    exists o2 :: o2 in s.ops && o2 != o && HeldBy(s.ops[o2]) == p
  }

  function Sought(op: Op): Word
    requires op.Seek? || op.Work?
  {
    if op.post.Sep? then op.post.key else op.e.key
  }

  predicate Beyond(g: Page, k: Word) {
    g.high != PAGE_ID_NULL && k > g.high
  }

  predicate Safe(s: State, g: Page) {
    match g.body
    case LeafBody(recs) => |recs| < s.cap
    case PivotBody(p) => |p.keys| + 1 < s.fanout
  }

  predicate WellShaped(p: Pivot) {
    |p.kids| == |p.keys| + 1 && |p.keys| >= 1
  }

  predicate Enabled(s: State, st: Step) {
    match st
    case BeginInsert(o, e, from) => o !in s.ops && from < |s.tops|
    case BeginSearch(o, key, from) => o !in s.ops && from < |s.tops|
    case Descend(o) =>
      && o in s.ops && s.ops[o].Down? && s.ops[o].cur in s.pages
      && var g := s.pages[s.ops[o].cur];
      g.body.PivotBody? ==> WellShaped(g.body.pivot)
    case Hop(o) =>
      && o in s.ops && s.ops[o].Seek? && s.ops[o].cur in s.pages
      && !LatchedByOther(s, o, s.ops[o].cur)
      && Beyond(s.pages[s.ops[o].cur], Sought(s.ops[o]))
    case Latch(o) =>
      && o in s.ops && s.ops[o].Seek? && s.ops[o].cur in s.pages
      && !LatchedByOther(s, o, s.ops[o].cur)
      && !Beyond(s.pages[s.ops[o].cur], Sought(s.ops[o]))
      && (s.ops[o].post.Sep? ==> s.ops[o].post.sib in s.pages)
    case Put(o) =>
      && o in s.ops && s.ops[o].Work? && s.ops[o].cur in s.pages
      && var g := s.pages[s.ops[o].cur];
      && Safe(s, g)
      && (g.body.PivotBody? ==> WellShaped(g.body.pivot) && s.ops[o].post.Sep?)
    case Split(o, sib, top) =>
      && o in s.ops && s.ops[o].Work? && s.ops[o].cur in s.pages
      && sib !in s.pages && top !in s.pages && sib != top && sib != PAGE_ID_NULL && top != PAGE_ID_NULL
      && var g := s.pages[s.ops[o].cur];
      && !Safe(s, g)
      && (g.next != PAGE_ID_NULL ==> g.next in s.pages)
      && (g.body.PivotBody? ==> WellShaped(g.body.pivot) && |g.body.pivot.keys| >= 3 && s.ops[o].post.Sep?)
      && (g.body.LeafBody? ==> |g.body.recs| >= 3)
    case PublishRoot(o) => o in s.ops && s.ops[o].Publish?
    case LookDown(o) =>
      && o in s.ops && s.ops[o].Look? && s.ops[o].cur in s.pages
      && var g := s.pages[s.ops[o].cur];
      g.body.PivotBody? ==> WellShaped(g.body.pivot)
    case LookHop(o) =>
      && o in s.ops && s.ops[o].LookRight? && s.ops[o].cur in s.pages
      && Beyond(s.pages[s.ops[o].cur], s.ops[o].key)
    case LookEnd(o) =>
      && o in s.ops && s.ops[o].LookRight? && s.ops[o].cur in s.pages
      && !Beyond(s.pages[s.ops[o].cur], s.ops[o].key)
      && s.pages[s.ops[o].cur].body.LeafBody?
  }

  /** The bodies of the two halves and the fence between them. */
  datatype Halves = Halves(left: Body, fence: Word, right: Body)

  function Cut(rd: Reading, g: Page, op: Op): Halves
    requires op.Work?
    requires g.body.PivotBody? ==> WellShaped(g.body.pivot) && |g.body.pivot.keys| >= 3 && op.post.Sep?
    requires g.body.LeafBody? ==> |g.body.recs| >= 3
  {
    match g.body
    case LeafBody(recs) =>
      var c := SplitLeaf(recs, op.e);
      Halves(LeafBody(c.left), c.fence, LeafBody(c.right))
    case PivotBody(p) =>
      var c := SplitPivot(rd, p, op.post.key, op.post.sib);
      Halves(PivotBody(c.left), c.fence, PivotBody(c.right))
  }

  /** Put `sib` to the right of `p`: fences, sibling links and bodies. */
  function Relink(pages: map<Word, Page>, p: Word, sib: Word, h: Halves): map<Word, Page>
    requires p in pages && (pages[p].next != PAGE_ID_NULL ==> pages[p].next in pages)
  {
    var g := pages[p];
    var right := Page(g.level, h.fence, g.high, g.next, p, PAGE_ID_NULL, h.right);
    var m := pages[p := g.(high := h.fence, next := sib, body := h.left)][sib := right];
    if g.next != PAGE_ID_NULL then m[g.next := pages[g.next].(back := sib)] else m
  }

  function SetPar(pages: map<Word, Page>, p: Word, par: Word): map<Word, Page>
    requires p in pages
  {
    pages[p := pages[p].(par := par)]
  }

  function FindRec(recs: seq<Rec>, key: Word): Found {
    var r := Rank(KeysOf(recs), key);
    if r < |recs| && recs[r].key == key then Hit(recs[r]) else Missing
  }

  function Set(s: State, o: nat, op: Op): State {
    s.(ops := s.ops[o := op])
  }

  function Apply(rd: Reading, s: State, st: Step): State
    requires Enabled(s, st)
  {
    match st
    case BeginInsert(o, e, from) => Set(s, o, Down(e, s.tops[from], []))
    case BeginSearch(o, key, from) => Set(s, o, Look(key, s.tops[from]))
    case Descend(o) =>
      var op := s.ops[o];
      (match s.pages[op.cur].body
       case LeafBody(_) => Set(s, o, Seek(op.e, op.cur, op.stack, NoPost, PAGE_ID_NULL))
       case PivotBody(p) => Set(s, o, Down(op.e, Route(p.keys, p.kids, op.e.key), op.stack + [op.cur])))
    case Hop(o) =>
      var op := s.ops[o];
      Set(s, o, Seek(op.e, s.pages[op.cur].next, op.stack, op.post, op.below))
    case Latch(o) =>
      var op := s.ops[o];
      var s' := Set(s, o, Work(op.e, op.cur, op.stack, op.post));
      if op.post.Sep? then s'.(pages := SetPar(s.pages, op.post.sib, op.cur)) else s'
    case Put(o) =>
      var op := s.ops[o];
      var g := s.pages[op.cur];
      var body := match g.body
                  case LeafBody(recs) => LeafBody(LeafInsert(recs, op.e))
                  case PivotBody(p) => PivotBody(PivotPut(rd, p, op.post.key, op.post.sib, true));
      Set(s, o, Done).(pages := s.pages[op.cur := g.(body := body)])
    case Split(o, sib, top) => ApplySplit(rd, s, o, sib, top)
    case PublishRoot(o) => Set(s, o, Done).(root := s.ops[o].top)
    case LookDown(o) =>
      var op := s.ops[o];
      (match s.pages[op.cur].body
       case LeafBody(_) => Set(s, o, LookRight(op.key, op.cur))
       case PivotBody(p) => Set(s, o, Look(op.key, Route(p.keys, p.kids, op.key))))
    case LookHop(o) => Set(s, o, LookRight(s.ops[o].key, s.pages[s.ops[o].cur].next))
    case LookEnd(o) =>
      var op := s.ops[o];
      Set(s, o, Answer(op.key, FindRec(s.pages[op.cur].body.recs, op.key)))
  }

  function NewRoot(level: nat, h: Halves, p: Word, sib: Word): Page {
    Page(level, -1, PAGE_ID_NULL, PAGE_ID_NULL, PAGE_ID_NULL, PAGE_ID_NULL, PivotBody(Pivot([h.fence], [p, sib])))
  }

  /** The pid of the page that gets the separator: the last one passed on the
      way down, or the page's own hint when the tree has grown since. */
  function ParentOf(op: Op, g: Page): Word
    requires op.Work?
  {
    if |op.stack| == 0 then g.par else op.stack[|op.stack| - 1]
  }

  function Pop(stack: seq<Word>): seq<Word> {
    if |stack| == 0 then [] else stack[..|stack| - 1]
  }

  function ApplySplit(rd: Reading, s: State, o: nat, sib: Word, top: Word): State
    requires Enabled(s, Split(o, sib, top))
  {
    var op := s.ops[o];
    var p := op.cur;
    var g := s.pages[p];
    var h := Cut(rd, g, op);
    var m := Relink(s.pages, p, sib, h);
    if g.par == PAGE_ID_NULL then
      var m1 := SetPar(SetPar(m, p, top), sib, top);
      Set(s, o, Publish(top)).(pages := m1[top := NewRoot(g.level + 1, h, p, sib)], tops := s.tops + [top])
    else
      var up := ParentOf(op, g);
      Set(s, o, Seek(op.e, up, Pop(op.stack), Sep(h.fence, sib), p)).(pages := SetPar(m, p, up))
  }

  // -------------------------------------------------------- the invariant

  /** Sibling links and fences: `next` and `back` are inverse, a page's right
      neighbour starts where it ends, and the end pages reach the ends. */
  ghost predicate Linked(m: map<Word, Page>, p: Word)
    requires p in m
  {
    var g := m[p];
    && p != PAGE_ID_NULL && -1 <= g.low < g.high
    && (g.next == PAGE_ID_NULL <==> g.high == PAGE_ID_NULL)
    && (g.next != PAGE_ID_NULL ==>
          g.next in m && m[g.next].level == g.level && m[g.next].low == g.high && m[g.next].back == p)
    && (g.back == PAGE_ID_NULL <==> g.low == -1)
    && (g.back != PAGE_ID_NULL ==> g.back in m && m[g.back].next == p)
  }

  ghost predicate AllLinked(m: map<Word, Page>) {
    forall p {:trigger Linked(m, p)} :: p in m ==> Linked(m, p)
  }

  /** Two pages of one level cover disjoint key ranges. */
  ghost predicate Disjoint(m: map<Word, Page>, p: Word, q: Word)
    requires p in m && q in m
  {
    p != q && m[p].level == m[q].level ==> m[p].high <= m[q].low || m[q].high <= m[p].low
  }

  ghost predicate Apart(m: map<Word, Page>) {
    forall p, q {:trigger Disjoint(m, p, q)} :: p in m && q in m ==> Disjoint(m, p, q)
  }

  function LowAt(low: int, keys: seq<Word>, i: nat): int
    requires i <= |keys|
  {
    if i == 0 then low else keys[i - 1]
  }

  /** Each child of a pivot is one level down and starts where the pivot says. */
  ghost predicate KidsPlaced(m: map<Word, Page>, level: nat, low: int, p: Pivot)
    requires |p.kids| == |p.keys| + 1
  {
    forall i :: 0 <= i < |p.kids| ==>
      p.kids[i] in m && m[p.kids[i]].level + 1 == level && m[p.kids[i]].low == LowAt(low, p.keys, i)
  }

  ghost predicate BodyFits(m: map<Word, Page>, level: nat, low: int, high: Word, body: Body) {
    match body
    case LeafBody(recs) =>
      level == 0 && Sorted(recs) && forall r :: r in recs ==> low < r.key <= high
    case PivotBody(p) =>
      && level > 0 && PivotShape(p)
      && low < p.keys[0] && p.keys[|p.keys| - 1] < high
      && KidsPlaced(m, level, low, p)
  }

  ghost predicate InSize(fanout: nat, cap: nat, body: Body) {
    match body
    case LeafBody(recs) => |recs| <= cap
    case PivotBody(p) => |p.keys| < fanout
  }

  ghost predicate Pending(s: State, p: Word) {
    exists o :: o in s.ops && PendingOf(s.ops[o]) == p
  }

  /** No pivot points to the sibling yet. */
  ghost predicate Unposted(m: map<Word, Page>, sib: Word) {
    forall p :: p in m && m[p].body.PivotBody? ==> sib !in m[p].body.pivot.kids
  }

  ghost predicate ParOk(s: State, p: Word)
    requires p in s.pages
  {
    var g := s.pages[p];
    && (g.par == PAGE_ID_NULL ==> (g.level + 1 == |s.tops| || Pending(s, p)))
    && (g.par != PAGE_ID_NULL ==>
          g.par in s.pages && s.pages[g.par].level == g.level + 1 && s.pages[g.par].low <= g.low && !Pending(s, g.par))
  }

  /** A page an insert may stand on or come back to. */
  ghost predicate Known(s: State, p: Word) {
    p in s.pages && !Pending(s, p)
  }

  /** The pages passed on the way down: one level apart, lower fences rising. */
  ghost predicate StackOk(s: State, level: nat, low: int, stack: seq<Word>) {
    forall j :: 0 <= j < |stack| ==>
      && Known(s, stack[j])
      && s.pages[stack[j]].level == level + |stack| - j
      && s.pages[stack[j]].low <= low
      && (j > 0 ==> Known(s, stack[j - 1]) && s.pages[stack[j - 1]].low <= s.pages[stack[j]].low)
  }

  ghost predicate Standing(s: State, cur: Word, stack: seq<Word>, key: Word) {
    && Known(s, cur) && s.pages[cur].low < key
    && StackOk(s, s.pages[cur].level, s.pages[cur].low, stack)
  }

  ghost predicate Carries(s: State, cur: Word, key: Word, sib: Word)
    requires cur in s.pages
  {
    && sib in s.pages && s.pages[sib].low == key && s.pages[sib].level + 1 == s.pages[cur].level
    && Unposted(s.pages, sib)
  }

  ghost predicate OpOk(s: State, op: Op) {
    match op
    case Down(e, cur, stack) => Standing(s, cur, stack, e.key)
    case Seek(e, cur, stack, NoPost, _) => Standing(s, cur, stack, e.key) && s.pages[cur].level == 0
    case Seek(e, cur, stack, Sep(k, sib), below) =>
      Standing(s, cur, stack, k) && Carries(s, cur, k, sib) && s.pages[sib].back == below
    case Work(e, cur, stack, NoPost) =>
      Standing(s, cur, stack, e.key) && s.pages[cur].level == 0 && e.key <= s.pages[cur].high
    case Work(e, cur, stack, Sep(k, sib)) =>
      Standing(s, cur, stack, k) && Carries(s, cur, k, sib) && k <= s.pages[cur].high
    case Publish(top) => top in s.tops
    case Done => true
    case Look(key, cur) => cur in s.pages && s.pages[cur].low < key
    case LookRight(key, cur) => cur in s.pages && s.pages[cur].low < key && s.pages[cur].level == 0
    case Answer(_, _) => true
  }

  /** No page is latched twice and no sibling is carried twice. */
  ghost predicate Exclusive(ops: map<nat, Op>) {
    forall o, o2 :: o in ops && o2 in ops && o != o2 ==>
      && (HeldBy(ops[o]) >= 0 ==> HeldBy(ops[o]) != HeldBy(ops[o2]))
      && (SibOf(ops[o]) >= 0 ==> SibOf(ops[o]) != SibOf(ops[o2]))
  }

  ghost predicate TopsOk(s: State) {
    && |s.tops| >= 1 && s.root in s.tops
    && (forall l :: 0 <= l < |s.tops| ==>
          Known(s, s.tops[l]) && s.pages[s.tops[l]].level == l && s.pages[s.tops[l]].low == -1)
    && s.pages[s.tops[|s.tops| - 1]].high == PAGE_ID_NULL
    && (forall p :: p in s.pages ==> s.pages[p].level < |s.tops|)
  }

  ghost predicate OpsOk(s: State) {
    forall o {:trigger OpOk(s, s.ops[o])} :: o in s.ops ==> OpOk(s, s.ops[o])
  }

  ghost predicate Filled(m: map<Word, Page>, p: Word)
    requires p in m
  {
    BodyFits(m, m[p].level, m[p].low, m[p].high, m[p].body)
  }

  ghost predicate AllFilled(m: map<Word, Page>) {
    forall p {:trigger Filled(m, p)} :: p in m ==> Filled(m, p)
  }

  ghost predicate Roomy(m: map<Word, Page>, fanout: nat, cap: nat) {
    forall p :: p in m ==> InSize(fanout, cap, m[p].body)
  }

  ghost predicate ParsOk(s: State) {
    forall p {:trigger ParOk(s, p)} :: p in s.pages ==> ParOk(s, p)
  }

  ghost predicate Inv(s: State) {
    && s.fanout >= 4 && s.cap >= 3
    && AllLinked(s.pages) && Apart(s.pages)
    && AllFilled(s.pages) && Roomy(s.pages, s.fanout, s.cap)
    && TopsOk(s)
    && ParsOk(s)
    && OpsOk(s)
    && Exclusive(s.ops)
  }

  /** An index of one empty leaf. */
  ghost predicate Init(s: State) {
    && s.fanout >= 4 && s.cap >= 3 && s.ops == map[]
    && s.root != PAGE_ID_NULL && s.tops == [s.root]
    && s.pages == map[s.root := Page(0, -1, PAGE_ID_NULL, PAGE_ID_NULL, PAGE_ID_NULL, PAGE_ID_NULL, LeafBody([]))]
  }

  /** A page that the room test calls safe has room for one more, and only such a
      page: a leaf of fewer records than its capacity, a pivot that still keeps its
      last cell for the fence. */
  lemma SafeExactly(s: State, g: Page, e: Rec, k: Word, sib: Word)
    requires g.body.PivotBody? ==> PivotShape(g.body.pivot) && k !in g.body.pivot.keys
    requires g.body.LeafBody? ==> Sorted(g.body.recs) && !HasKey(g.body.recs, e.key)
    ensures Safe(s, g) <==>
              InSize(s.fanout, s.cap, if g.body.LeafBody? then LeafBody(LeafInsert(g.body.recs, e))
                                      else PivotBody(PlaceRight(g.body.pivot, k, sib)))
    ensures g.body.LeafBody? ==>
              forall width: nat :: width > 0 && s.cap == LeafCapacity(width) ==>
                  (Safe(s, g) <==> LeafSafe(|g.body.recs|, width))
  {
    if g.body.LeafBody? {
      forall width: nat | width > 0 && s.cap == LeafCapacity(width)
        ensures Safe(s, g) <==> LeafSafe(|g.body.recs|, width)
      {
        FullLeaf(|g.body.recs| + 1, width);
      }
      hide LeafCapacity, LeafSafe;
    }
  }

  lemma InitInv(s: State)
    requires Init(s)
    ensures Inv(s)
  {
  }
}
