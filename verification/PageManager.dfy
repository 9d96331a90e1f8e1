/** The buffer pool and the store of free page ids at work together, on one disk:
    ids come from the store, pages live in the pool, and what either writes to
    the disk never touches what the other keeps there.  A client that creates,
    opens, changes, closes and deletes pages sees a plain map from page ids to
    pages, whatever leaves memory in between. */
module PageManager {
  import opened PageLayout
  import opened PageView
  import opened SlottedPage
  import opened Store = IdStore
  import opened PoolMemory
  import opened BufferPool

  /** What a client asks for; the page it means goes by its id. */
  datatype Request = Make(kind: Half, width: nat) | Fetch(pid: Id, short: Option<Image>) | Change(pid: Id, image: Image)
                   | Leave(pid: Id) | Drop(pid: Id)

  /** A new page has a legal width, and a changed one keeps its id. */
  predicate Sound(r: Request) {
    (r.Make? ==> r.width <= ENTRY_LIMIT) && (r.Change? ==> PageId(r.image) == r.pid)
  }

  /** What came of it. */
  datatype Event = Made(pid: Id, image: Image) | Fetched(pid: Id, image: Image) | Changed(pid: Id, image: Image)
                 | Left(pid: Id) | Dropped(pid: Id) | Refused

  /** What an event does to a plain map from page ids to pages. */
  ghost function Step(m: map<Id, Image>, e: Event): map<Id, Image> {
    match e
    case Made(pid, image) => m[pid := image]
    case Changed(pid, image) => m[pid := image]
    case Dropped(pid) => m - {pid}
    case _ => m
  }

  /** When such a map would have it: a new page gets an unused id, and a page that
      is fetched reads as it was last left. */
  ghost predicate Fits(m: map<Id, Image>, e: Event) {
    match e
    case Made(pid, _) => pid !in m && pid >= SYSTEM_IDS
    case Fetched(pid, image) => pid in m && m[pid] == image
    case Changed(pid, _) => pid in m
    case Left(pid) => pid in m
    case Dropped(pid) => pid in m
    case Refused => true
  }

  /** When a request is refused, given the map and what is in memory: the page is
      not there or not open, or it is to come into memory and cannot, since every
      block is taken or the read is incomplete. */
  ghost predicate Denied(m: map<Id, Image>, mem: Memory, r: Request) {
    match r
    case Make(_, _) => |mem.pages.Keys| == PAGE_BLOCKS
    case Fetch(pid, short) =>
      pid !in m || (pid !in mem.pages && (short.Some? || |mem.pages.Keys| == PAGE_BLOCKS))
    case Change(pid, _) => pid !in mem.pages
    case Leave(pid) => pid !in mem.pages
    case Drop(pid) => pid !in m
  }

  /** What an event makes of the pages in memory, their blocks and the user counts. */
  ghost predicate Moves(mem: Memory, e: Event, mem': Memory) {
    && WellKept(mem)
    && match e
       case Made(pid, _) => pid !in mem.pages && !Full(mem) && mem' == Opened(mem, pid)
       case Fetched(pid, _) => (pid in mem.pages || !Full(mem)) && mem' == Opened(mem, pid)
       case Left(pid) => pid in mem.pages && mem' == Closed(mem, pid, false)
       case Dropped(pid) => mem' == Gone(mem, pid)
       case _ => mem' == mem
  }

  /** The event that answers a request, refused or not. */
  ghost predicate Matches(m: map<Id, Image>, mem: Memory, r: Request, e: Event) {
    && (e.Refused? <==> Denied(m, mem, r))
    && (e.Refused? ||
        match r
        case Make(kind, width) => e.Made? && IsNew(e.image, width, e.pid, kind)
        case Fetch(pid, _) => e.Fetched? && e.pid == pid
        case Change(pid, image) => e == Changed(pid, image)
        case Leave(pid) => e == Left(pid)
        case Drop(pid) => e == Dropped(pid))
  }

  ghost function Final(m: map<Id, Image>, log: seq<Event>): map<Id, Image> {
    if log == [] then m else Step(Final(m, log[..|log| - 1]), log[|log| - 1])
  }

  /** One answer, and the memory before and after it. */
  ghost predicate Answered(m: map<Id, Image>, mem: Memory, r: Request, e: Event, mem': Memory) {
    Fits(m, e) && Matches(m, mem, r, e) && Moves(mem, e, mem')
  }

  /** Every answer fits its request, the map and the memory as they were by then. */
  ghost predicate History(m: map<Id, Image>, rs: seq<Request>, log: seq<Event>, memory: seq<Memory>) {
    && |log| <= |rs| && |memory| == |log| + 1
    && forall i :: 0 <= i < |log| ==> Answered(Final(m, log[..i]), memory[i], rs[i], log[i], memory[i + 1])
  }

  lemma HistoryGrows(m: map<Id, Image>, rs: seq<Request>, log: seq<Event>, memory: seq<Memory>, e: Event, now: Memory)
    requires |log| < |rs| && History(m, rs, log, memory)
    requires Answered(Final(m, log), memory[|log|], rs[|log|], e, now)
    ensures History(m, rs, log + [e], memory + [now]) && Final(m, log + [e]) == Step(Final(m, log), e)
  {
    hide Answered;
    var more, mem := log + [e], memory + [now];
    assert more[..|log|] == log;
    forall i | 0 <= i < |more| ensures Answered(Final(m, more[..i]), mem[i], rs[i], more[i], mem[i + 1]) {
      if i < |log| {
        assert more[..i] == log[..i];
      }
    }
  }

  lemma NothingAsked(m: map<Id, Image>, rs: seq<Request>, memory: seq<Memory>)
    requires |memory| == 1
    ensures History(m, rs, [], memory) && Final(m, []) == m
  {
  }

  ghost predicate Writes(e: Event, pid: Id) { (e.Made? || e.Changed?) && e.pid == pid }

  /** What a page reads by then: what the last event that wrote it left, if it was
      not dropped since, and otherwise what it was before all. */
  lemma {:induction false} ReadsLastWrite(m: map<Id, Image>, log: seq<Event>, pid: Id) returns (i: int)
    ensures -1 <= i < |log| && forall j :: i < j < |log| ==> !Writes(log[j], pid) && log[j] != Dropped(pid)
    ensures i >= 0 ==> Writes(log[i], pid) || log[i] == Dropped(pid)
    ensures pid in Final(m, log) <==> (if i >= 0 then Writes(log[i], pid) else pid in m)
    ensures pid in Final(m, log) ==> Final(m, log)[pid] == if i >= 0 then log[i].image else m[pid]
    decreases |log|
  {
    if log == [] {
      i := -1;
    } else {
      var n := |log| - 1;
      i := ReadsLastWrite(m, log[..n], pid);
      if Writes(log[n], pid) || log[n] == Dropped(pid) {
        i := n;
      }
    }
  }

  /** In every run a page that is fetched reads what was last written to it. */
  lemma FetchReadsLastWrite(m: map<Id, Image>, rs: seq<Request>, log: seq<Event>, memory: seq<Memory>, n: nat)
      returns (i: int)
    requires History(m, rs, log, memory) && n < |log| && log[n].Fetched?
    ensures -1 <= i < n && forall j :: i < j < n ==> !Writes(log[j], log[n].pid) && log[j] != Dropped(log[n].pid)
    ensures if i >= 0 then Writes(log[i], log[n].pid) && log[n].image == log[i].image
            else log[n].pid in m && log[n].image == m[log[n].pid]
  {
    FetchFits(m, rs, log, memory, n);
    var past := log[..n];
    assert forall j :: 0 <= j < n ==> past[j] == log[j];
    hide *;
    i := ReadsLastWrite(m, past, log[n].pid);
  }

  lemma FetchFits(m: map<Id, Image>, rs: seq<Request>, log: seq<Event>, memory: seq<Memory>, n: nat)
    requires History(m, rs, log, memory) && n < |log| && log[n].Fetched?
    ensures log[n].pid in Final(m, log[..n]) && Final(m, log[..n])[log[n].pid] == log[n].image
  {
    assert Answered(Final(m, log[..n]), memory[n], rs[n], log[n], memory[n + 1]);
    hide Moves, Matches, Final, Step;
  }

  // ------------------------------------------------------ who has a page open

  /** How often a page is open after these answers. */
  ghost function OpenFor(log: seq<Event>, pid: Id): nat {
    if log == [] then 0
    else
      var n, e := OpenFor(log[..|log| - 1], pid), log[|log| - 1];
      if e.Refused? || e.Changed? || e.pid != pid then n
      else if e.Made? || e.Fetched? then n + 1
      else if e.Left? && n > 0 then n - 1
      else 0
  }

  lemma OpenNext(log: seq<Event>, e: Event, pid: Id)
    ensures var n := OpenFor(log, pid);
            OpenFor(log + [e], pid) ==
              if e.Refused? || e.Changed? || e.pid != pid then n
              else if e.Made? || e.Fetched? then n + 1 else if e.Left? && n > 0 then n - 1 else 0
  {
    assert (log + [e])[..|log|] == log;
  }

  /** No count is negative; each page in memory has a user, and at least those who
      have it open, and no other page is open. */
  ghost predicate Covers(mem: Memory, log: seq<Event>) {
    && WellKept(mem) && (forall b :: 0 <= b < PAGE_BLOCKS ==> mem.counts[b] >= 0)
    && (forall p :: CoversPage(mem, log, p))
  }

  ghost predicate CoversPage(mem: Memory, log: seq<Event>, p: Id) {
    if p in mem.pages then Users(mem, p) >= 1 && Users(mem, p) >= OpenFor(log, p) else OpenFor(log, p) == 0
  }

  /** What an event does to the users of each page. */
  lemma UsersMove(mem: Memory, e: Event, mem': Memory)
    requires Moves(mem, e, mem')
    ensures WellKept(mem')
    ensures e.Made? || e.Fetched? ==>
              && mem'.pages.Keys == mem.pages.Keys + {e.pid} && (e.pid in mem.pages || !Full(mem))
              && Users(mem', e.pid) == 1 + if e.pid in mem.pages then Users(mem, e.pid) else mem.counts[Next(mem)]
    ensures e.Left? ==>
              && e.pid in mem.pages
              && mem'.pages.Keys == (if Users(mem, e.pid) == 1 then mem.pages.Keys - {e.pid} else mem.pages.Keys)
              && (e.pid in mem'.pages ==> Users(mem', e.pid) == Users(mem, e.pid) - 1)
    ensures e.Dropped? ==> mem'.pages.Keys == mem.pages.Keys - {e.pid}
    ensures e.Changed? || e.Refused? ==> mem' == mem
    ensures forall q :: (e.Changed? || e.Refused? || q != e.pid) ==> Users(mem', q) == Users(mem, q)
    ensures forall b :: 0 <= b < PAGE_BLOCKS ==>
              || mem'.counts[b] >= mem.counts[b]
              || (e.Left? && b == mem.pages[e.pid] && mem'.counts[b] == Users(mem, e.pid) - 1)
  {
    match e
    case Made(pid, _) => OpenedUsers(mem, pid);
    case Fetched(pid, _) => OpenedUsers(mem, pid);
    case Left(pid) => ClosedUsers(mem, pid);
    case Dropped(pid) => GoneUsers(mem, pid);
    case _ =>
  }

  lemma CoversNext(mem: Memory, log: seq<Event>, e: Event, mem': Memory)
    requires Covers(mem, log) && Moves(mem, e, mem')
    ensures Covers(mem', log + [e])
  {
    UsersMove(mem, e, mem');
    forall p: Id ensures CoversPage(mem', log + [e], p) {
      CoversPageNext(mem, log, e, mem', p);
    }
    hide WellKept, Moves, Next, Full, Users, OpenFor;
    if e.Left? {
      assert CoversPage(mem, log, e.pid);
    }
  }

  lemma CoversPageNext(mem: Memory, log: seq<Event>, e: Event, mem': Memory, p: Id)
    requires Covers(mem, log) && Moves(mem, e, mem')
    ensures CoversPage(mem', log + [e], p)
  {
    assert CoversPage(mem, log, p);
    UsersMove(mem, e, mem');
    NextInRange(mem);
    OpenNext(log, e, p);
    hide WellKept, Moves, Next, Full, Users, OpenFor;
  }

  lemma NextInRange(mem: Memory)
    requires WellKept(mem)
    ensures !Full(mem) ==> Next(mem) < PAGE_BLOCKS && Empty(mem, Next(mem))
  {
    if !Full(mem) {
      RestIs(mem);
    }
  }

  /** No empty block has a count left over, and each page in memory has just the
      users who have it open. */
  ghost predicate Tallies(mem: Memory, log: seq<Event>) {
    && WellKept(mem) && Clean(mem)
    && (forall p :: TalliesPage(mem, log, p))
  }

  ghost predicate TalliesPage(mem: Memory, log: seq<Event>, p: Id) {
    (p in mem.pages <==> OpenFor(log, p) > 0) && (p in mem.pages ==> Users(mem, p) == OpenFor(log, p))
  }

  lemma TalliesNext(mem: Memory, log: seq<Event>, e: Event, mem': Memory)
    requires Tallies(mem, log) && Moves(mem, e, mem') && (e.Dropped? ==> e.pid !in mem.pages)
    ensures Tallies(mem', log + [e])
  {
    StaysClean(mem, e, mem');
    forall p: Id ensures TalliesPage(mem', log + [e], p) {
      TalliesPageNext(mem, log, e, mem', p);
    }
  }

  lemma TalliesPageNext(mem: Memory, log: seq<Event>, e: Event, mem': Memory, p: Id)
    requires Tallies(mem, log) && Moves(mem, e, mem')
    ensures TalliesPage(mem', log + [e], p)
  {
    assert TalliesPage(mem, log, p);
    UsersMove(mem, e, mem');
    NextInRange(mem);
    OpenNext(log, e, p);
    hide WellKept, Moves, Full, Users, OpenFor;
  }

  lemma StaysClean(mem: Memory, e: Event, mem': Memory)
    requires WellKept(mem) && Clean(mem) && Moves(mem, e, mem') && (e.Dropped? ==> e.pid !in mem.pages)
    ensures WellKept(mem') && Clean(mem')
  {
    match e
    case Made(pid, _) => OpenKeepsClean(mem, pid);
    case Fetched(pid, _) => OpenKeepsClean(mem, pid);
    case Left(pid) =>
      CloseKeepsCleanExactly(mem, pid, false);
      ClosedUsers(mem, pid);
    case Dropped(pid) => DeleteKeepsCleanExactly(mem, pid);
    case _ =>
  }

  /** So it is when nothing is in memory and no block has a count. */
  lemma NobodyYet(mem: Memory)
    requires WellKept(mem) && mem.pages == map[] && forall b :: 0 <= b < PAGE_BLOCKS ==> mem.counts[b] == 0
    ensures Covers(mem, []) && Tallies(mem, [])
  {
  }

  /** In every run a page is in memory while anybody has it open. */
  lemma {:induction false} OpenStays(m: map<Id, Image>, rs: seq<Request>, log: seq<Event>, memory: seq<Memory>, i: nat)
    requires History(m, rs, log, memory) && Covers(memory[0], []) && i <= |log|
    ensures Covers(memory[i], log[..i])
    decreases i
  {
    if i > 0 {
      OpenStays(m, rs, log, memory, i - 1);
      assert Answered(Final(m, log[..i - 1]), memory[i - 1], rs[i - 1], log[i - 1], memory[i]);
      assert log[..i] == log[..i - 1] + [log[i - 1]];
      hide Covers, Moves;
      CoversNext(memory[i - 1], log[..i - 1], log[i - 1], memory[i]);
    }
  }

  /** No page is deleted while it is in memory. */
  ghost predicate DropsOutside(log: seq<Event>, memory: seq<Memory>)
    requires |memory| == |log| + 1
  {
    forall i :: 0 <= i < |log| && log[i].Dropped? ==> log[i].pid !in memory[i].pages
  }

  /** In every run without such a delete a page is in memory exactly while somebody
      has it open. */
  lemma {:induction false} OpenExactly(
    m: map<Id, Image>, rs: seq<Request>, log: seq<Event>, memory: seq<Memory>, i: nat)
    requires History(m, rs, log, memory) && Tallies(memory[0], []) && i <= |log| && DropsOutside(log, memory)
    ensures Tallies(memory[i], log[..i])
    decreases i
  {
    if i > 0 {
      OpenExactly(m, rs, log, memory, i - 1);
      assert Answered(Final(m, log[..i - 1]), memory[i - 1], rs[i - 1], log[i - 1], memory[i]);
      assert log[..i] == log[..i - 1] + [log[i - 1]];
      hide Tallies, Moves;
      TalliesNext(memory[i - 1], log[..i - 1], log[i - 1], memory[i]);
    }
  }

  /** No page of the id store's chain has an id that is in use. */
  lemma ChainIsNotLive(levels: seq<Level>, counter: nat, live: set<Id>, p: Id)
    requires levels != [] && levels[0].pid < SYSTEM_IDS && Partition(Ids(Stack(levels), counter, live)) && p in live
    ensures forall k :: 0 <= k < |levels| ==> levels[k].pid != p
  {
    forall k | 0 <= k < |levels| ensures levels[k].pid != p {
      if k > 0 {
        PagesAreStacked(levels, k);
      }
    }
  }

  /** A store page carries its own id. */
  lemma StorePageId(s: Image, level: Level, prev: Id)
    requires Store.Holds(s, level, prev)
    ensures PageId(s) == level.pid
  {
    var v :| Represents(s, v) && IsStore(v, level, prev);
    assert HeaderStored(s, v);
  }

  /** With an empty stack the counter is handed out. */
  lemma TakenFromCounter(levels: seq<Level>, s: Ids)
    requires levels != [] && s.stack == Stack(levels) == [] && Partition(s) && CanStep(s, Allocate)
    ensures s.counter < PAGEIDNULL && Handed(s) == s.counter
    ensures After(s, Allocate) == Ids(Stack(Popped(levels)), s.counter + 1, s.live + {s.counter})
  {
    PoppedStack(levels);
  }

  lemma TakenFromStack(levels: seq<Level>, s: Ids)
    requires levels != [] && s.stack == Stack(levels) != [] && Partition(s)
    ensures levels[|levels| - 1].ids != [] || |levels| > 1
    ensures s.counter < 0x1_0000_0000 && Handed(s) == Topmost(levels)
    ensures After(s, Allocate) == Ids(Stack(Popped(levels)), s.counter, s.live + {Topmost(levels)})
  {
    hide Stack, Popped, Topmost;
    PoppedStack(levels);
    LastOf(Stack(Popped(levels)), Topmost(levels));
  }

  /** The id that is handed out was not in use, and afterwards it is. */
  lemma TakesUnused(s: Ids)
    requires Partition(s) && CanStep(s, Allocate)
    ensures s.counter < 0x1_0000_0000 && Handed(s) !in s.live && Handed(s) >= SYSTEM_IDS
    ensures Partition(After(s, Allocate)) && After(s, Allocate).live == s.live + {Handed(s)}
  {
    NeverHandedOutTwice(s);
    StepKeepsPartition(s, Allocate);
  }

  lemma LastOf(a: seq<Id>, x: Id)
    ensures (a + [x])[..|a + [x]| - 1] == a && (a + [x])[|a + [x]| - 1] == x
  {
  }

  /** The first page of the chain stays, whatever is pushed and popped. */
  lemma BottomStays(levels: seq<Level>)
    requires levels != []
    ensures Popped(levels) != [] && Popped(levels)[0].pid == levels[0].pid
    ensures forall d: Id :: Pushed(levels, d) != [] && Pushed(levels, d)[0].pid == levels[0].pid
  {
  }

  /** An id in use may go back: it is in no page of the chain. */
  lemma ReturnsUsed(levels: seq<Level>, s: Ids, pid: Id)
    requires levels != [] && levels[0].pid < SYSTEM_IDS && s.stack == Stack(levels) && Partition(s) && pid in s.live
    ensures pid != PAGEIDNULL && (forall p :: p in s.live ==> forall k :: 0 <= k < |levels| ==> levels[k].pid != p)
    ensures s.counter < 0x1_0000_0000 && Partition(After(s, Free(pid)))
    ensures After(s, Free(pid)) == Ids(Stack(Pushed(levels, pid)), s.counter, s.live - {pid})
  {
    forall p | p in s.live ensures forall k :: 0 <= k < |levels| ==> levels[k].pid != p {
      ChainIsNotLive(levels, s.counter, s.live, p);
    }
    StepKeepsPartition(s, Free(pid));
    PushedStack(levels, pid);
  }

  /** The disk is the same for the ids in use, and a page that is new on it
      carries its own id. */
  ghost predicate ElsewhereKept(disk: map<Id, Image>, disk': map<Id, Image>, live: set<Id>) {
    && (forall p :: p in live ==> (p in disk' <==> p in disk) && (p in disk' ==> disk'[p] == disk[p]))
    && (forall p :: p in disk' ==> PageId(disk'[p]) == p || (p in disk && disk'[p] == disk[p]))
  }

  class PageManager {
    const pool: Pool
    const store: Store.IdStore

    /** The page ids in use; the program leaves it to its callers to know them. */
    var live: set<Id>

    /** A new database: nothing in memory, no page id in use. */
    constructor (pool: Pool, store: Store.IdStore)
      requires pool.Valid() && pool.gpt == map[] && pool.disk == map[]
      requires store.Valid() && store.dirty && store.counter == SYSTEM_IDS && store.levels == [Level(2, [])]
      requires store.disk == map[]
      ensures this.pool == pool && this.store == store && live == {} && Faultless() && Contents() == map[]
    {
      this.pool, this.store, live := pool, store, {};
    }

    ghost function Ledger(): Ids
      reads this, store
    {
      Ids(Stack(store.levels), store.counter, live)
    }

    /** Every id is in one place, and the store keeps its pages. */
    ghost predicate IdsKept()
      reads this, store, store.page, store.page.buf
    {
      store.Valid() && store.dirty && store.levels[0].pid < SYSTEM_IDS && Partition(Ledger())
    }

    /** The ids in the page table are in use and both parts see the same disk. */
    ghost predicate Valid()
      reads this, pool, pool.subs, pool.blocks, store, store.page, store.page.buf
    {
      pool.Valid() && IdsKept() && pool.disk == store.disk && pool.gpt.Keys <= live
    }

    /** And no page in use is lost when it leaves memory. */
    ghost predicate Faultless()
      reads this, pool, pool.subs, pool.blocks, store, store.page, store.page.buf
    {
      Valid() && forall p :: p in live ==> pool.Read(p).Some? && pool.Faithful(p)
    }

    /** What the page ids in use read. */
    ghost function Contents(): map<Id, Image>
      reads this, pool, pool.blocks
    {
      map p | p in live && pool.Read(p).Some? :: pool.Read(p).value
    }

    /** There is an id left to hand out. */
    ghost predicate IdsLeft()
      reads this, store
    {
      CanStep(Ledger(), Allocate)
    }

    /** One id from the store, which was not in use. */
    method TakeId() returns (pid: Id)
      requires IdsKept() && IdsLeft()
      modifies this`live, store`counter, store`levels, store.page, store.page.buf
      ensures IdsKept() && pid !in old(live) && pid >= SYSTEM_IDS && live == old(live) + {pid}
      ensures pid == Handed(old(Ledger())) && Ledger() == After(old(Ledger()), Allocate)
    {
      hide Partition, CanStep, After, Handed, Stack, Popped, Topmost, Store.IdStore.TopValid, ChainStored;
      hide Represents, IsStore;
      store.TopIs();
      BottomStays(store.levels);
      ghost var s := Ledger();
      TakesUnused(s);
      if s.stack == [] {
        TakenFromCounter(store.levels, s);
      } else {
        TakenFromStack(store.levels, s);
      }
      store.DiskBelow();
      pid := store.AllocateOne();
      live := live + {pid};
    }

    /** Make a page: a block first, then an id, and the page is not dirty until
        the caller marks it.  Without an empty block no id is taken. */
    method Create(kind: Half, width: nat) returns (block: Block?)
      requires Valid() && width <= ENTRY_LIMIT && IdsLeft()
      modifies this, pool, pool.subs, pool.blocks, store, store.page, store.page.buf
      ensures Valid() && pool.disk == old(pool.disk)
      ensures block == null <==> old(pool.NoneEmpty())
      ensures block == null ==>
                Ledger() == old(Ledger()) && pool.gpt == old(pool.gpt) && pool.InMemory() == old(pool.InMemory())
      ensures block != null ==>
                var pid, was := PageId(block.page), old(pool.InMemory());
                WellKept(was) && pid !in was.pages && !Full(was) && pool.InMemory() == Opened(was, pid)
      ensures block != null ==>
                var pid := PageId(block.page);
                && block in pool.blocks && !pool.Idle(block) && !block.dirty
                && pool.gpt == old(pool.gpt)[pid := Gnode(block, Finish)]
                && pid == Handed(old(Ledger())) && pid !in old(live) && pid >= SYSTEM_IDS && live == old(live) + {pid}
                && Ledger() == After(old(Ledger()), Allocate)
                && pool.Read(pid) == Some(block.page) && IsNew(block.page, width, pid, kind)
      ensures forall p :: p in old(live) ==>
                pool.Read(p) == old(pool.Read(p)) && (pool.Faithful(p) <==> old(pool.Faithful(p)))
    {
      hide PageId, Zeroes, Pool.Table, Pool.Lists, Pool.Read, Pool.Faithful, Pool.Idle, Pool.NoneEmpty, IsNew;
      hide Partition, CanStep, After, Handed, Stack, IdsKept;
      hide Pool.Empties, Pool.CountsIn, Pool.Numbered, Rest, WellKept, FirstList, Opened;
      pool.MemoryKept();
      ghost var was := pool.InMemory();
      block := pool.Take({});
      if block != null {
        NewPage(block, kind, width);
        pool.HasEntered(was, old(pool.gpt), PageId(block.page), block);
      }
    }

    /** An id, and the page under that id in a block that has been taken. */
    method NewPage(block: Block, kind: Half, width: nat)
      requires pool.Lists() && pool.Table({}, block) && block in pool.blocks && !pool.Idle(block)
      requires IdsKept() && IdsLeft() && pool.gpt.Keys <= live && width <= ENTRY_LIMIT
      modifies this`live, pool`gpt, block`references, block`page, block`inPool
      modifies store`counter, store`levels, store.page, store.page.buf
      ensures pool.Valid() && IdsKept() && pool.gpt.Keys <= live
      ensures block.references == old(block.references) + 1 && block.dirty == old(block.dirty)
      ensures Pool.CountsIn(pool.blocks) == old(Pool.CountsIn(pool.blocks))[block.index := block.references]
      ensures var pid := PageId(block.page);
              && pool.gpt == old(pool.gpt)[pid := Gnode(block, Finish)] && pid !in old(pool.gpt)
              && pid == Handed(old(Ledger())) && pid !in old(live) && pid >= SYSTEM_IDS && live == old(live) + {pid}
              && Ledger() == After(old(Ledger()), Allocate)
              && pool.Read(pid) == Some(block.page) && IsNew(block.page, width, pid, kind)
              && forall p :: p != pid ==>
                   pool.Read(p) == old(pool.Read(p)) && (pool.Faithful(p) <==> old(pool.Faithful(p)))
    {
      hide PageId, Zeroes, Pool.Table, Pool.Lists, Pool.Read, Pool.Faithful, Pool.Idle, IsNew, Pool.CountsIn;
      hide Partition, CanStep, After, Handed, Stack, Store.IdStore.Valid;
      var pid := TakeId();
      Fill(block, pid, kind, width);
    }

    /** The page is made in the block and gets its entry. */
    method Fill(block: Block, pid: Id, kind: Half, width: nat)
      requires pool.Lists() && pool.Table({}, block) && block in pool.blocks && !pool.Idle(block)
      requires pid !in pool.gpt && width <= ENTRY_LIMIT
      modifies pool`gpt, block`references, block`page, block`inPool
      ensures pool.Valid() && pool.gpt == old(pool.gpt)[pid := Gnode(block, Finish)]
      ensures block.references == old(block.references) + 1 && block.dirty == old(block.dirty)
      ensures Pool.CountsIn(pool.blocks) == old(Pool.CountsIn(pool.blocks))[block.index := block.references]
      ensures pool.Read(pid) == Some(block.page) && IsNew(block.page, width, pid, kind) && PageId(block.page) == pid
      ensures forall p :: p != pid ==>
                pool.Read(p) == old(pool.Read(p)) && (pool.Faithful(p) <==> old(pool.Faithful(p)))
    {
      hide PageId, Zeroes, Pool.Table, Pool.Lists, Pool.Read, Pool.Faithful, Pool.Idle, Pool.NoneEmpty, IsNew;
      hide Pool.CountsIn;
      var image := InitPage(width, pid, kind);
      pool.SkipMore({}, {pid}, block);
      pool.Install(pid, block, image);
    }

    /** An id goes back to the store.  The disk changes at most where the store's
        top page was, and that id is not in use. */
    method ReturnId(pid: Id)
      requires IdsKept() && pid in live
      modifies this`live, store`disk, store`levels, store.page, store.page.buf
      ensures IdsKept() && live == old(live) - {pid} && Ledger() == After(old(Ledger()), Free(pid))
      ensures store.counter == old(store.counter)
      ensures ElsewhereKept(old(store.disk), store.disk, old(live))
    {
      hide Partition, After, Stack, Pushed, IsStore, ChainStored, Represents, Holds, Store.IdStore.TopValid;
      ghost var levels, s := store.levels, Ledger();
      store.TopIs();
      BottomStays(levels);
      ReturnsUsed(levels, s, pid);
      store.FreeOne(pid);
      live := live - {pid};
      if store.disk != old(store.disk) {
        StorePageId(store.disk[TopPid(levels)], levels[|levels| - 1], Prev(levels, |levels| - 1));
      }
    }

    method Open(pid: Id, short: Option<Image>) returns (block: Block?)
      requires Valid() && pid in live && (pid in pool.gpt || pid in pool.disk)
      modifies pool, pool.subs, pool.blocks
      ensures Valid() && Ledger() == old(Ledger())
      ensures forall p :: pool.Read(p) == old(pool.Read(p)) && (pool.Faithful(p) <==> old(pool.Faithful(p)))
      ensures block == null <==> old(pid !in pool.gpt) && (short.Some? || old(pool.NoneEmpty()))
      ensures WellKept(old(pool.InMemory()))
      ensures block != null ==> pid in old(pool.InMemory()).pages || !Full(old(pool.InMemory()))
      ensures pool.InMemory() == if block == null then old(pool.InMemory()) else Opened(old(pool.InMemory()), pid)
      ensures block != null ==>
                && block in pool.blocks && pid in pool.gpt && pool.gpt[pid].block == block
                && pool.Read(pid) == Some(block.page)
    {
      hide PageId, Zeroes, Pool.Table, Pool.Lists, Pool.Read, Pool.Faithful, Pool.Idle, Pool.NoneEmpty, Partition;
      hide Stack, Store.IdStore.Valid;
      hide Pool.Empties, Pool.CountsIn, Pool.Numbered, Pool.InMemory, WellKept, Opened, Closed, Gone, Full;
      pool.MemoryKept();
      block := pool.Open(pid, short);
    }

    /** Closing writes a page back under an id in use: no page of the store's
        chain is there. */
    method Close(block: Block, enforce: bool)
      requires Valid() && block in pool.blocks && !pool.Idle(block)
      modifies pool, pool.subs, block, store`disk
      ensures Valid() && Ledger() == old(Ledger())
      ensures forall p :: p != old(PageId(block.page)) ==>
                pool.Read(p) == old(pool.Read(p)) && (pool.Faithful(p) <==> old(pool.Faithful(p)))
      ensures var pid, leaves := old(PageId(block.page)), old(block.references) == 1 || enforce;
              && (pool.Read(pid) == old(pool.Read(pid)) <==> !leaves || old(pool.Faithful(pid)))
              && (pool.Faithful(pid) <==> leaves || old(pool.Faithful(pid)))
      ensures var pid, was := old(PageId(block.page)), old(pool.InMemory());
              WellKept(was) && pid in was.pages && pool.InMemory() == Closed(was, pid, enforce)
    {
      hide PageId, Zeroes, Pool.Table, Pool.Lists, Pool.Read, Pool.Faithful, Pool.Idle, Partition, Stack;
      hide ChainStored, IsStore, Represents;
      hide Pool.Empties, Pool.CountsIn, Pool.Numbered, Pool.InMemory, WellKept, Opened, Closed, Gone, Full;
      ghost var pid := PageId(block.page);
      pool.HoldsPage(block);
      store.TopIs();
      ChainIsNotLive(store.levels, store.counter, live, pid);
      pool.Close(block, enforce);
      store.SetDisk(pool.disk);
    }

    /** Deleting a page frees its id; every other page in use stays as it is,
        also when the store has to write its top page out. */
    method Delete(pid: Id)
      requires Valid() && pid in live
      modifies this`live, pool, pool.subs, pool.blocks, store`disk, store`levels, store.page, store.page.buf
      ensures Valid() && live == old(live) - {pid} && Ledger() == After(old(Ledger()), Free(pid))
      ensures store.counter == old(store.counter)
      ensures WellKept(old(pool.InMemory())) && pool.InMemory() == Gone(old(pool.InMemory()), pid)
      ensures forall p :: p in live ==>
                pool.Read(p) == old(pool.Read(p)) && (pool.Faithful(p) <==> old(pool.Faithful(p)))
    {
      hide PageId, Zeroes, Pool.Table, Pool.Lists, Pool.Read, Pool.Faithful, Pool.Idle, Partition, Stack, After;
      hide Store.IdStore.Valid;
      hide Pool.Empties, Pool.CountsIn, Pool.Numbered, Pool.InMemory, WellKept, Opened, Closed, Gone, Full;
      var freed := pool.DDelete(pid);
      ReturnId(freed);
      forall p | p in store.disk ensures PageId(store.disk[p]) == p {
        if p in pool.disk {
          pool.OnDisk(p);
        }
      }
      pool.SetDisk(store.disk);
    }

    /** Change a page that is open. */
    method Write(block: Block, image: Image)
      requires Valid() && block in pool.blocks && !pool.Idle(block) && PageId(image) == PageId(block.page)
      modifies block`page, block`dirty
      ensures Valid() && Ledger() == old(Ledger()) && block.page == image && pool.InMemory() == old(pool.InMemory())
      ensures pool.Read(PageId(image)) == Some(image) && pool.Faithful(PageId(image))
      ensures forall p :: p != PageId(image) ==>
                pool.Read(p) == old(pool.Read(p)) && (pool.Faithful(p) <==> old(pool.Faithful(p)))
    {
      hide PageId, Zeroes, Pool.Table, Pool.Lists, Pool.Read, Pool.Faithful, Pool.Idle, Partition, Stack;
      hide Store.IdStore.Valid;
      hide Pool.Empties, Pool.CountsIn, Pool.Numbered, Pool.InMemory, WellKept, Opened, Closed, Gone, Full;
      pool.Write(block, image);
    }

    // ------------------------------------------------------------- whole runs

    lemma Known(p: Id)
      requires Faultless()
      ensures Contents().Keys == live
      ensures p in live ==> pool.Read(p) == Some(Contents()[p]) && (p in pool.gpt || p in pool.disk)
      ensures p in pool.gpt ==>
                && p in live && pool.gpt[p].block != null && pool.gpt[p].block in pool.blocks
                && !pool.Idle(pool.gpt[p].block) && PageId(pool.gpt[p].block.page) == p
    {
      hide PageId, Pool.Table, Pool.Lists, Pool.Faithful, Pool.Idle, Partition, Stack, Store.IdStore.Valid;
      if p in pool.gpt {
        pool.InTable(p);
      }
    }

    lemma ContentsAre(m: map<Id, Image>)
      requires m.Keys == live && forall p :: p in live ==> pool.Read(p) == Some(m[p])
      ensures Contents() == m
    {
    }

    lemma ValidPool()
      requires Faultless()
      ensures pool.Valid() && pool.Fixed()
    {
    }

    /** A new page, written as it is so that it is not lost. */
    method MakeOpen(kind: Half, width: nat) returns (block: Block?)
      requires Faultless() && store.counter < PAGEIDNULL && width <= ENTRY_LIMIT
      modifies this, pool, pool.subs, pool.blocks, store, store.page, store.page.buf
      ensures Faultless() && store.counter <= old(store.counter) + 1
      ensures block == null <==> |old(pool.InMemory()).pages.Keys| == PAGE_BLOCKS
      ensures block == null ==> Contents() == old(Contents()) && pool.InMemory() == old(pool.InMemory())
      ensures block != null ==>
                var pid, was := PageId(block.page), old(pool.InMemory());
                && pid !in old(Contents()) && pid >= SYSTEM_IDS && IsNew(block.page, width, pid, kind)
                && Contents() == old(Contents())[pid := block.page]
                && WellKept(was) && pid !in was.pages && !Full(was) && pool.InMemory() == Opened(was, pid)
    {
      hide PageId, Zeroes, Pool.Table, Pool.Lists, Pool.Read, Pool.Faithful, Pool.Idle, Pool.NoneEmpty, IsNew;
      hide Partition, Stack, Store.IdStore.Valid;
      hide Pool.Empties, Pool.CountsIn, Pool.Numbered, Pool.InMemory, WellKept, Opened, Closed, Gone, Full;
      pool.FullAtTheBlocks();
      pool.MemoryKept();
      ghost var m := Contents();
      block := Create(kind, width);
      if block != null {
        Write(block, block.page);
        m := m[PageId(block.page) := block.page];
      }
      ContentsAre(m);
    }

    method AnswerMake(kind: Half, width: nat) returns (e: Event)
      requires Faultless() && store.counter < PAGEIDNULL && width <= ENTRY_LIMIT
      modifies this, pool, pool.subs, pool.blocks, store, store.page, store.page.buf
      ensures Faultless() && store.counter <= old(store.counter) + 1
      ensures Fits(old(Contents()), e) && Contents() == Step(old(Contents()), e)
      ensures Moves(old(pool.InMemory()), e, pool.InMemory())
      ensures Matches(old(Contents()), old(pool.InMemory()), Make(kind, width), e)
    {
      hide Faultless, Contents, PageId, IsNew, Pool.Table, Pool.Lists, Pool.InMemory, WellKept, Opened, Full;
      hide Pool.NoneEmpty;
      ValidPool();
      pool.MemoryKept();
      var block := MakeOpen(kind, width);
      e := if block == null then Refused else Made(PageId(block.page), block.page);
    }

    method AnswerFetch(pid: Id, short: Option<Image>) returns (e: Event)
      requires Faultless()
      modifies pool, pool.subs, pool.blocks
      ensures Faultless() && store.counter == old(store.counter)
      ensures Fits(old(Contents()), e) && Contents() == Step(old(Contents()), e)
      ensures Moves(old(pool.InMemory()), e, pool.InMemory())
      ensures Matches(old(Contents()), old(pool.InMemory()), Fetch(pid, short), e)
    {
      hide PageId, Zeroes, Pool.Table, Pool.Lists, Pool.Read, Pool.Faithful, Pool.Idle, Pool.NoneEmpty, Partition;
      hide Stack, Store.IdStore.Valid;
      hide Pool.Empties, Pool.CountsIn, Pool.Numbered, Pool.InMemory, WellKept, Opened, Closed, Gone, Full;
      pool.FullAtTheBlocks();
      pool.MemoryKept();
      if pid !in live {
        return Refused;
      }
      Known(pid);
      var block := Open(pid, short);
      e := if block == null then Refused else Fetched(pid, block.page);
    }

    method AnswerChange(pid: Id, image: Image) returns (e: Event)
      requires Faultless() && PageId(image) == pid
      modifies pool.blocks
      ensures Faultless()
      ensures Fits(old(Contents()), e) && Contents() == Step(old(Contents()), e)
      ensures Moves(old(pool.InMemory()), e, pool.InMemory())
      ensures Matches(old(Contents()), old(pool.InMemory()), Change(pid, image), e)
    {
      hide PageId, Zeroes, Pool.Table, Pool.Lists, Pool.Read, Pool.Faithful, Pool.Idle, Partition, Stack;
      hide Store.IdStore.Valid;
      hide Pool.Empties, Pool.CountsIn, Pool.Numbered, Pool.InMemory, WellKept, Opened, Closed, Gone, Full;
      pool.MemoryKept();
      if pid !in pool.gpt {
        return Refused;
      }
      Known(pid);
      Write(pool.gpt[pid].block, image);
      e := Changed(pid, image);
    }

    method AnswerLeave(pid: Id) returns (e: Event)
      requires Faultless()
      modifies pool, pool.subs, pool.blocks, store`disk
      ensures Faultless()
      ensures Fits(old(Contents()), e) && Contents() == Step(old(Contents()), e)
      ensures Moves(old(pool.InMemory()), e, pool.InMemory())
      ensures Matches(old(Contents()), old(pool.InMemory()), Leave(pid), e)
    {
      hide PageId, Zeroes, Pool.Table, Pool.Lists, Pool.Read, Pool.Faithful, Pool.Idle, Partition, Stack;
      hide Store.IdStore.Valid;
      hide Pool.Empties, Pool.CountsIn, Pool.Numbered, Pool.InMemory, WellKept, Opened, Closed, Gone, Full;
      pool.MemoryKept();
      if pid !in pool.gpt {
        return Refused;
      }
      Known(pid);
      Close(pool.gpt[pid].block, false);
      e := Left(pid);
    }

    method AnswerDrop(pid: Id) returns (e: Event)
      requires Faultless()
      modifies this`live, pool, pool.subs, pool.blocks, store`disk, store`levels, store.page, store.page.buf
      ensures Faultless() && store.counter == old(store.counter)
      ensures Fits(old(Contents()), e) && Contents() == Step(old(Contents()), e)
      ensures Moves(old(pool.InMemory()), e, pool.InMemory())
      ensures Matches(old(Contents()), old(pool.InMemory()), Drop(pid), e)
    {
      hide PageId, Zeroes, Pool.Table, Pool.Lists, Pool.Read, Pool.Faithful, Pool.Idle, Partition, Stack, After;
      hide Store.IdStore.Valid;
      hide Pool.Empties, Pool.CountsIn, Pool.Numbered, Pool.InMemory, WellKept, Opened, Closed, Gone, Full;
      pool.MemoryKept();
      if pid !in live {
        return Refused;
      }
      Known(pid);
      Delete(pid);
      e := Dropped(pid);
    }

    /** Do what is asked; a page that is not there, or not open, is refused. */
    method Answer(r: Request) returns (e: Event)
      requires Faultless() && store.counter < PAGEIDNULL && Sound(r)
      modifies this, pool, pool.subs, pool.blocks, store, store.page, store.page.buf
      ensures Faultless() && store.counter <= old(store.counter) + 1 && Contents() == Step(old(Contents()), e)
      ensures Answered(old(Contents()), old(pool.InMemory()), r, e, pool.InMemory())
    {
      hide PageId, Pool.Valid, Pool.Read, Pool.Faithful, Partition, Store.IdStore.Valid, Faultless, Fits, Step;
      hide Contents, Matches, Moves;
      match r
      case Make(kind, width) => e := AnswerMake(kind, width);
      case Fetch(pid, short) => e := AnswerFetch(pid, short);
      case Change(pid, image) => e := AnswerChange(pid, image);
      case Leave(pid) => e := AnswerLeave(pid);
      case Drop(pid) => e := AnswerDrop(pid);
    }

    /** Answer one request after the other: whatever leaves memory and comes back
        in between, and whichever ids are used again, the answers are those of a
        plain map from page ids to pages, and a request is refused exactly when
        the pages in memory say so; `memory` lists them from state to state. */
    method Serve(rs: seq<Request>) returns (log: seq<Event>, ghost memory: seq<Memory>)
      requires Faultless() && store.counter + |rs| <= PAGEIDNULL && forall i :: 0 <= i < |rs| ==> Sound(rs[i])
      modifies this, pool, pool.subs, pool.blocks, store, store.page, store.page.buf
      ensures Faultless() && |log| == |rs| && |memory| == |log| + 1
      ensures memory[0] == old(pool.InMemory()) && memory[|log|] == pool.InMemory()
      ensures History(old(Contents()), rs, log, memory) && Contents() == Final(old(Contents()), log)
    {
      hide *;
      ValidPool();
      log, memory := [], [pool.InMemory()];
      NothingAsked(Contents(), rs, memory);
      while |log| < |rs|
        invariant Faultless() && |log| <= |rs| && store.counter + |rs| - |log| <= PAGEIDNULL
        invariant |memory| == |log| + 1 && memory[0] == old(pool.InMemory()) && memory[|log|] == pool.InMemory()
        invariant History(old(Contents()), rs, log, memory) && Contents() == Final(old(Contents()), log)
      {
        var e := Answer(rs[|log|]);
        HistoryGrows(old(Contents()), rs, log, memory, e, pool.InMemory());
        log, memory := log + [e], memory + [pool.InMemory()];
      }
    }
  }
}
