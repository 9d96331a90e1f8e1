/** Which page is in which block, on numbers alone: the page table, the lists of
    empty blocks, and the user count that each block carries, in use or not. */
module PoolMemory {
  import opened PageLayout

  const PAGE_BLOCKS := 64
  const SUB_POOLS := 4
  const SUB_POOL_BLOCKS := 16

  /** Blocks go by number; each sub pool has a list of its empty ones. */
  datatype Memory = Memory(pages: map<Id, nat>, empties: seq<seq<nat>>, counts: seq<int>)

  ghost predicate ListsKept(empties: seq<seq<nat>>) {
    && |empties| == SUB_POOLS
    && (forall k, i :: 0 <= k < |empties| && 0 <= i < |empties[k]| ==>
          empties[k][i] < PAGE_BLOCKS && empties[k][i] / SUB_POOL_BLOCKS == k)
    && (forall k, i, j :: 0 <= k < |empties| && 0 <= i < j < |empties[k]| ==> empties[k][i] != empties[k][j])
  }

  /** No two pages share a block, and no page is in an empty one. */
  ghost predicate WellKept(m: Memory) {
    && ListsKept(m.empties) && |m.counts| == PAGE_BLOCKS
    && (forall p :: p in m.pages ==> m.pages[p] < PAGE_BLOCKS && !Empty(m, m.pages[p]))
    && (forall p, q :: p in m.pages && q in m.pages && p != q ==> m.pages[p] != m.pages[q])
  }

  ghost predicate Empty(m: Memory, b: nat)
    requires b < PAGE_BLOCKS && |m.empties| == SUB_POOLS
  {
    b in m.empties[b / SUB_POOL_BLOCKS]
  }

  /** The first list that is not empty, if there is one. */
  ghost function FirstList(empties: seq<seq<nat>>): (k: nat)
    ensures k <= |empties| && forall j :: 0 <= j < k ==> empties[j] == []
    ensures k < |empties| ==> empties[k] != []
  {
    if empties == [] || empties[0] != [] then 0 else FirstList(empties[1..]) + 1
  }

  lemma FirstListIs(empties: seq<seq<nat>>, k: nat)
    requires k <= |empties| && forall j :: 0 <= j < k ==> empties[j] == []
    requires k < |empties| ==> empties[k] != []
    ensures FirstList(empties) == k
    ensures Rest(empties) == if k == |empties| then empties else empties[k := empties[k][1..]]
  {
  }

  ghost predicate Full(m: Memory) { FirstList(m.empties) == |m.empties| }

  /** The block that comes next. */
  ghost function Next(m: Memory): nat
    requires !Full(m)
  {
    m.empties[FirstList(m.empties)][0]
  }

  ghost function Rest(empties: seq<seq<nat>>): seq<seq<nat>> {
    var k := FirstList(empties);
    if k == |empties| then empties else empties[k := empties[k][1..]]
  }

  ghost function Back(empties: seq<seq<nat>>, b: nat): seq<seq<nat>>
    requires b / SUB_POOL_BLOCKS < |empties|
  {
    empties[b / SUB_POOL_BLOCKS := [b] + empties[b / SUB_POOL_BLOCKS]]
  }

  /** One user more or less in a block. */
  ghost function Counted(m: Memory, b: nat, d: int): Memory
    requires b < |m.counts|
  {
    m.(counts := m.counts[b := m.counts[b] + d])
  }

  /** A page comes into the next block, whatever count that block has. */
  ghost function Entered(m: Memory, pid: Id): Memory
    requires WellKept(m) && !Full(m)
  {
    Counted(Memory(m.pages[pid := Next(m)], Rest(m.empties), m.counts), Next(m), 1)
  }

  ghost function Opened(m: Memory, pid: Id): Memory
    requires WellKept(m) && (pid in m.pages || !Full(m))
  {
    if pid in m.pages then Counted(m, m.pages[pid], 1) else Entered(m, pid)
  }

  /** A page leaves memory; its block keeps its count. */
  ghost function Gone(m: Memory, pid: Id): Memory
    requires WellKept(m)
  {
    if pid in m.pages then Memory(m.pages - {pid}, Back(m.empties, m.pages[pid]), m.counts) else m
  }

  /** A page in memory loses a user, and leaves if that was the only one or if it
      is enforced. */
  ghost function Closed(m: Memory, pid: Id, enforce: bool): Memory
    requires WellKept(m) && pid in m.pages
  {
    var less := Counted(m, m.pages[pid], -1);
    if Users(m, pid) == 1 || enforce then Gone(less, pid) else less
  }

  ghost function Users(m: Memory, pid: Id): int {
    if pid in m.pages && m.pages[pid] < |m.counts| then m.counts[m.pages[pid]] else 0
  }

  lemma RestIs(m: Memory)
    requires WellKept(m) && !Full(m)
    ensures ListsKept(Rest(m.empties)) && Next(m) < PAGE_BLOCKS && Empty(m, Next(m))
    ensures forall b: nat :: b < PAGE_BLOCKS ==>
              (b in Rest(m.empties)[b / SUB_POOL_BLOCKS] <==> b != Next(m) && Empty(m, b))
  {
    var k := FirstList(m.empties);
    assert m.empties[k] == [Next(m)] + m.empties[k][1..];
    assert m.empties[k][0] == Next(m) && Next(m) / SUB_POOL_BLOCKS == k;
  }

  lemma BackIs(empties: seq<seq<nat>>, b: nat)
    requires ListsKept(empties) && b < PAGE_BLOCKS && b !in empties[b / SUB_POOL_BLOCKS]
    ensures ListsKept(Back(empties, b))
    ensures forall c: nat :: c < PAGE_BLOCKS ==>
              (c in Back(empties, b)[c / SUB_POOL_BLOCKS] <==> c == b || c in empties[c / SUB_POOL_BLOCKS])
  {
  }

  lemma OpenedKept(m: Memory, pid: Id)
    requires WellKept(m) && (pid in m.pages || !Full(m))
    ensures WellKept(Opened(m, pid))
    ensures forall b: nat :: b < PAGE_BLOCKS && Empty(Opened(m, pid), b) ==> Empty(m, b)
  {
    if pid !in m.pages {
      RestIs(m);
      hide ListsKept, Rest, Next;
    }
  }

  lemma GoneKept(m: Memory, pid: Id)
    requires WellKept(m)
    ensures WellKept(Gone(m, pid))
    ensures forall b: nat :: b < PAGE_BLOCKS ==>
              (Empty(Gone(m, pid), b) <==> Empty(m, b) || (pid in m.pages && b == m.pages[pid]))
  {
    if pid in m.pages {
      BackIs(m.empties, m.pages[pid]);
      hide ListsKept, Back;
    }
  }

  lemma ClosedKept(m: Memory, pid: Id, enforce: bool)
    requires WellKept(m) && pid in m.pages
    ensures WellKept(Closed(m, pid, enforce))
  {
    GoneKept(Counted(m, m.pages[pid], -1), pid);
  }

  /** Only the page that comes in gets a user. */
  lemma OpenedUsers(m: Memory, pid: Id)
    requires WellKept(m) && (pid in m.pages || !Full(m))
    ensures var after := Opened(m, pid);
            && WellKept(after) && after.pages.Keys == m.pages.Keys + {pid}
            && (forall q :: q != pid ==> Users(after, q) == Users(m, q))
            && (forall b :: 0 <= b < PAGE_BLOCKS ==> after.counts[b] >= m.counts[b])
            && Users(after, pid) == 1 + if pid in m.pages then Users(m, pid) else m.counts[Next(m)]
  {
    OpenedKept(m, pid);
    if pid !in m.pages {
      RestIs(m);
      hide ListsKept, Rest, Next;
    }
  }

  /** Only the page that is closed loses one. */
  lemma ClosedUsers(m: Memory, pid: Id)
    requires WellKept(m) && pid in m.pages
    ensures var after := Closed(m, pid, false);
            && WellKept(after)
            && after.pages.Keys == (if Users(m, pid) == 1 then m.pages.Keys - {pid} else m.pages.Keys)
            && (forall q :: q != pid ==> Users(after, q) == Users(m, q))
            && (pid in after.pages ==> Users(after, pid) == Users(m, pid) - 1)
            && (forall b :: 0 <= b < PAGE_BLOCKS ==>
                  after.counts[b] == if b == m.pages[pid] then m.counts[b] - 1 else m.counts[b])
  {
    ClosedKept(m, pid, false);
  }

  lemma GoneUsers(m: Memory, pid: Id)
    requires WellKept(m)
    ensures var after := Gone(m, pid);
            && WellKept(after) && after.pages.Keys == m.pages.Keys - {pid} && after.counts == m.counts
            && (forall q :: q != pid ==> Users(after, q) == Users(m, q))
  {
    GoneKept(m, pid);
  }

  // ------------------------------------------------- counts that are left over

  /** No empty block has users. */
  ghost predicate Clean(m: Memory)
    requires WellKept(m)
  {
    forall b: nat :: b < PAGE_BLOCKS && Empty(m, b) ==> m.counts[b] == 0
  }

  /** Opening keeps all empty blocks at zero; what comes in has one user. */
  lemma OpenKeepsClean(m: Memory, pid: Id)
    requires WellKept(m) && Clean(m) && (pid in m.pages || !Full(m))
    ensures WellKept(Opened(m, pid)) && Clean(Opened(m, pid))
    ensures pid !in m.pages ==> Users(Opened(m, pid), pid) == 1
  {
    OpenedKept(m, pid);
  }

  /** Closing keeps them there exactly when the page stays or had one user: an
      enforced close of a page that others use leaves their count behind. */
  lemma CloseKeepsCleanExactly(m: Memory, pid: Id, enforce: bool)
    requires WellKept(m) && Clean(m) && pid in m.pages
    ensures var after := Closed(m, pid, enforce);
            WellKept(after) && (Clean(after) <==> pid in after.pages || Users(m, pid) == 1)
  {
    var b := m.pages[pid];
    GoneKept(Counted(m, b, -1), pid);
    hide ListsKept, Back;
    if pid !in Closed(m, pid, enforce).pages {
      assert Empty(Closed(m, pid, enforce), b);
    }
  }

  /** Deleting keeps them there exactly when the page is not in memory or nobody
      uses it. */
  lemma DeleteKeepsCleanExactly(m: Memory, pid: Id)
    requires WellKept(m) && Clean(m)
    ensures var after := Gone(m, pid);
            WellKept(after) && (Clean(after) <==> pid !in m.pages || Users(m, pid) == 0)
  {
    GoneKept(m, pid);
    hide ListsKept, Back;
  }

  /** A page opened once comes out of memory when it is closed exactly when the
      block it came into had no count left over. */
  lemma CloseFreesExactly(m: Memory, pid: Id)
    requires WellKept(m) && pid !in m.pages && !Full(m)
    ensures var once := Opened(m, pid);
            WellKept(once) && (pid !in Closed(once, pid, false).pages <==> m.counts[Next(m)] == 0)
  {
    OpenedKept(m, pid);
  }

  /** The block that came next comes next again when it is given back. */
  lemma BackUndoesRest(empties: seq<seq<nat>>)
    requires ListsKept(empties) && FirstList(empties) < SUB_POOLS
    ensures var b := empties[FirstList(empties)][0];
            b / SUB_POOL_BLOCKS < SUB_POOLS && Back(Rest(empties), b) == empties
  {
    var k := FirstList(empties);
    var b := empties[k][0];
    assert b / SUB_POOL_BLOCKS == k && empties[k] == [b] + empties[k][1..];
  }

  /** A page with two users is closed by force: the page that comes in next, opened
      once and closed, stays in memory with no user. */
  lemma EnforcedCloseStrands(m: Memory, p: Id, q: Id)
    requires WellKept(m) && Clean(m) && p !in m.pages && q !in m.pages && p != q && !Full(m)
    ensures var one := Opened(m, p);
            WellKept(one) && WellKept(Opened(one, p)) &&
            var two := Closed(Opened(one, p), p, true);
            WellKept(two) && two.pages == m.pages && !Full(two) &&
            var three := Opened(two, q);
            WellKept(three) && q in Closed(three, q, false).pages
  {
    var one := Opened(m, p);
    OpenKeepsClean(m, p);
    OpenKeepsClean(one, p);
    ClosedKept(Opened(one, p), p, true);
    BackUndoesRest(m.empties);
    hide WellKept, ListsKept, Back, Rest;
    var two := Closed(Opened(one, p), p, true);
    assert two.empties == m.empties && two.counts[Next(m)] == 1;
    assert two.pages == m.pages;
    CloseFreesExactly(two, q);
  }

  /** The same after a page is deleted by its only user. */
  lemma DeleteStrands(m: Memory, p: Id, q: Id)
    requires WellKept(m) && Clean(m) && p !in m.pages && q !in m.pages && p != q && !Full(m)
    ensures var one := Opened(m, p);
            WellKept(one) &&
            var two := Gone(one, p);
            WellKept(two) && two.pages == m.pages && !Full(two) &&
            var three := Opened(two, q);
            WellKept(three) && q in Closed(three, q, false).pages
  {
    var one := Opened(m, p);
    OpenKeepsClean(m, p);
    GoneKept(one, p);
    BackUndoesRest(m.empties);
    hide WellKept, ListsKept, Back, Rest;
    var two := Gone(one, p);
    assert two.empties == m.empties && two.counts[Next(m)] == 1;
    assert two.pages == m.pages;
    CloseFreesExactly(two, q);
  }
}
