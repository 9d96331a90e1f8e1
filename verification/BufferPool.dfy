/** The buffer pool: 64 blocks in four sub pools, the table of pages in memory,
    and the disk behind them.  One operation at a time: a page is opened, changed,
    closed and deleted before the next operation begins. */
module BufferPool {
  import opened Counting
  import opened PageLayout
  import opened PageView
  import opened SlottedPage
  import opened IdStore
  import opened PoolMemory

  datatype GnodeState = Loading | Finish | Swapping | Destroy

  /** An entry of the page table: where the page is and what is happening to it. */
  datatype Gnode = Gnode(block: Block?, state: GnodeState)

  class Block {
    const index: nat
    var nextEmpty: Block?
    var references: int
    var dirty: bool
    var occupied: bool
    var inPool: bool
    var page: Image

    constructor (index: nat)
      ensures this.index == index && nextEmpty == null && references == 0 && !dirty && !occupied && !inPool
      ensures page == Zeroes()
    {
      this.index := index;
      nextEmpty, references, dirty, occupied, inPool, page := null, 0, false, false, false, Zeroes();
    }
  }

  function Zeroes(): Image { seq(PAGE_SIZE, _ => 0) }

  function PageId(s: Image): Id { Long(s, PAGE_ID) }

  /** A page as `page_init` and `p_entry_set_pagetype` leave it. */
  ghost predicate IsNew(image: Image, width: nat, pid: Id, kind: Half) {
    Represents(image, Fresh(width, pid, PAGEIDNULL).(kind := kind)) && ChecksumHolds(image)
  }

  method InitPage(width: nat, pid: Id, kind: Half) returns (image: Image)
    requires width <= ENTRY_LIMIT
    ensures IsNew(image, width, pid, kind) && PageId(image) == pid
  {
    var page := new Page();
    page.Init(width, pid, PAGEIDNULL);
    page.SetPageType(kind);
    image := page.Save();
  }

  /** A stretch of sixteen blocks and the list of those that are empty. */
  class SubPool {
    const number: nat
    var usedBlocks: nat
    var emptyBlock: Block?
    ghost var empties: seq<Block>

    /** The empty blocks are chained in order, each once, and the others are
        counted as used. */
    ghost predicate Valid()
      reads this, empties`nextEmpty
    {
      && usedBlocks + |empties| == SUB_POOL_BLOCKS
      && emptyBlock == (if empties == [] then null else empties[0])
      && (forall i :: 0 <= i < |empties| ==> empties[i].index / SUB_POOL_BLOCKS == number)
      && (forall i, j :: 0 <= i < j < |empties| ==> empties[i] != empties[j])
      && (forall i, j :: 0 <= i < |empties| && j == i + 1 < |empties| ==> empties[i].nextEmpty == empties[j])
      && (empties != [] ==> empties[|empties| - 1].nextEmpty == null)
    }

    constructor (number: nat, own: seq<Block>)
      requires |own| == SUB_POOL_BLOCKS
      requires forall i :: 0 <= i < |own| ==> own[i].index == number * SUB_POOL_BLOCKS + i
      requires forall i, j :: 0 <= i < j < |own| ==> own[i] != own[j]
      modifies own`nextEmpty
      ensures Valid() && this.number == number && empties == own && usedBlocks == 0
    {
      this.number := number;
      usedBlocks, emptyBlock, empties := 0, own[0], own;
      new;
      var i := 0;
      while i < |own|
        invariant i <= |own|
        invariant forall j, k :: 0 <= j < i && k == j + 1 < |own| ==> own[j].nextEmpty == own[k]
        invariant i == |own| ==> own[i - 1].nextEmpty == null
        modifies own`nextEmpty
      {
        own[i].nextEmpty := if i == SUB_POOL_BLOCKS - 1 then null else own[i + 1];
        i := i + 1;
      }
    }

    method AllocateBlock() returns (block: Block?)
      requires Valid()
      modifies this, if empties == [] then {} else {empties[0]}
      ensures Valid()
      ensures old(empties) == [] ==> block == null && empties == []
      ensures old(empties) != [] ==>
                && block == old(empties)[0] && empties == old(empties)[1..] && block.occupied
                && block.page == old(empties[0].page) && block.dirty == old(empties[0].dirty)
                && block.references == old(empties[0].references)
    {
      if usedBlocks == SUB_POOL_BLOCKS {
        return null;
      }
      usedBlocks := usedBlocks + 1;
      block := emptyBlock;
      emptyBlock := block.nextEmpty;
      empties := empties[1..];
      block.occupied := true;
    }

    method FreeBlock(block: Block)
      requires Valid() && block !in empties && block.index / SUB_POOL_BLOCKS == number && usedBlocks > 0
      modifies this, block
      ensures Valid() && empties == [block] + old(empties)
      ensures !block.dirty && !block.occupied
      ensures block.page == old(block.page) && block.references == old(block.references)
    {
      usedBlocks := usedBlocks - 1;
      assert forall i :: 0 <= i < |empties| ==> empties[i] in empties;
      block.nextEmpty := emptyBlock;
      emptyBlock := block;
      block.dirty := false;
      block.occupied := false;
      empties := [block] + empties;
    }
  }

  class Pool {
    const blocks: seq<Block>
    const subs: seq<SubPool>
    var gpt: map<Id, Gnode>
    var disk: map<Id, Image>

    /** An empty pool over a disk whose pages carry their own ids. */
    constructor (disk: map<Id, Image>)
      requires forall p :: p in disk ==> PageId(disk[p]) == p
      ensures Valid() && gpt == map[] && this.disk == disk
      ensures forall k :: 0 <= k < SUB_POOLS ==> |subs[k].empties| == SUB_POOL_BLOCKS
      ensures forall b :: b in blocks ==> b.references == 0
    {
      hide SubPool.Valid, Idle, Zeroes, Stretch, Table, Lists;
      var all := NewBlocks();
      var four := NewSubPools(all);
      blocks, subs, gpt := all, four, map[];
      this.disk := disk;
      new;
      DealtOut();
    }

    lemma DealtOut()
      requires |blocks| == PAGE_BLOCKS && |subs| == SUB_POOLS && gpt == map[]
      requires forall i :: 0 <= i < PAGE_BLOCKS ==> IsUnused(blocks[i], i)
      requires forall k :: 0 <= k < SUB_POOLS ==> Stretch(subs[k], blocks, k)
      requires forall p :: p in disk ==> PageId(disk[p]) == p
      ensures Valid() && forall b :: b in blocks ==> b.references == 0
      ensures forall k :: 0 <= k < SUB_POOLS ==> |subs[k].empties| == SUB_POOL_BLOCKS
    {
      assert forall k :: 0 <= k < SUB_POOLS ==> Stretch(subs[k], blocks, k) && subs[k].number == k;
      hide PageId;
      forall b | b in blocks ensures Idle(b) {
        var k := b.index / SUB_POOL_BLOCKS;
        assert Stretch(subs[k], blocks, k);
        assert subs[k].empties[b.index - k * SUB_POOL_BLOCKS] == b;
      }
    }

    /** Deal the blocks out to four sub pools, sixteen to each. */
    static method NewSubPools(all: seq<Block>) returns (four: seq<SubPool>)
      requires |all| == PAGE_BLOCKS && forall i :: 0 <= i < |all| ==> all[i].index == i
      modifies all`nextEmpty
      ensures |four| == SUB_POOLS && forall k :: 0 <= k < |four| ==> fresh(four[k]) && Stretch(four[k], all, k)
    {
      hide SubPool.Valid, Zeroes;
      four := [];
      while |four| < SUB_POOLS
        invariant |four| <= SUB_POOLS && forall k :: 0 <= k < |four| ==> fresh(four[k]) && Stretch(four[k], all, k)
        modifies all`nextEmpty
      {
        var n := |four|;
        var own := all[n * SUB_POOL_BLOCKS..(n + 1) * SUB_POOL_BLOCKS];
        forall k, i | 0 <= k < n && 0 <= i < |four[k].empties| ensures four[k].empties[i] !in own {
          assert Stretch(four[k], all, k);
        }
        assert forall b :: b in own ==> b in all;
        var sub := new SubPool(n, own);
        four := four + [sub];
      }
    }

    /** The sub pool owns the `k`th sixteen blocks and all of them are empty. */
    static ghost predicate Stretch(sub: SubPool, all: seq<Block>, k: nat)
      requires |all| == PAGE_BLOCKS
      reads sub, sub.empties`nextEmpty
    {
      && k < SUB_POOLS && sub.Valid() && sub.number == k && |sub.empties| == SUB_POOL_BLOCKS
      && forall i :: 0 <= i < SUB_POOL_BLOCKS ==> sub.empties[i] == all[k * SUB_POOL_BLOCKS + i]
    }

    static ghost predicate IsUnused(b: Block, i: nat)
      reads b
    {
      b.index == i && !b.dirty && b.references == 0
    }

    static method NewBlocks() returns (all: seq<Block>)
      ensures |all| == PAGE_BLOCKS && forall i :: 0 <= i < |all| ==> fresh(all[i]) && IsUnused(all[i], i)
    {
      all := [];
      while |all| < PAGE_BLOCKS
        invariant |all| <= PAGE_BLOCKS && forall i :: 0 <= i < |all| ==> fresh(all[i]) && IsUnused(all[i], i)
      {
        var b := new Block(|all|);
        all := all + [b];
      }
    }

    ghost predicate Fixed() {
      && |blocks| == PAGE_BLOCKS && (forall i :: 0 <= i < PAGE_BLOCKS ==> blocks[i].index == i)
      && |subs| == SUB_POOLS && (forall k :: 0 <= k < SUB_POOLS ==> subs[k].number == k)
    }

    /** The lists of the four sub pools hold blocks of this pool. */
    ghost predicate Lists()
      reads subs, blocks`nextEmpty
    {
      && Fixed()
      && (forall k, i :: 0 <= k < SUB_POOLS && 0 <= i < |subs[k].empties| ==> subs[k].empties[i] in blocks)
      && (forall k :: 0 <= k < SUB_POOLS ==> subs[k].Valid())
    }

    static ghost function Numbers(list: seq<Block>): (r: seq<nat>)
      ensures |r| == |list| && forall i :: 0 <= i < |list| ==> r[i] == list[i].index
    {
      seq(|list|, i requires 0 <= i < |list| => list[i].index)
    }

    static lemma NumbersOf(b: Block, list: seq<Block>)
      ensures Numbers([b] + list) == [b.index] + Numbers(list)
    {
    }

    /** The empty blocks of the sub pools, by number. */
    ghost function Empties(): (e: seq<seq<nat>>)
      requires Fixed()
      reads subs
      ensures |e| == SUB_POOLS && forall k :: 0 <= k < SUB_POOLS ==> e[k] == Numbers(subs[k].empties)
    {
      seq(SUB_POOLS, k requires 0 <= k < SUB_POOLS reads subs => Numbers(subs[k].empties))
    }

    static ghost function CountsIn(list: seq<Block>): (c: seq<int>)
      reads list`references
      ensures |c| == |list| && forall i :: 0 <= i < |list| ==> c[i] == list[i].references
    {
      if list == [] then [] else CountsIn(list[..|list| - 1]) + [list[|list| - 1].references]
    }

    static ghost function Numbered(gpt: map<Id, Gnode>): map<Id, nat> {
      map p | p in gpt && gpt[p].block != null :: gpt[p].block.index
    }

    /** The page table, the free lists and the user counts on numbers. */
    ghost function InMemory(): Memory
      requires Fixed()
      reads this`gpt, subs, blocks`references
    {
      Memory(Numbered(gpt), Empties(), CountsIn(blocks))
    }

    ghost predicate NoneEmpty()
      reads subs
    {
      forall k :: 0 <= k < |subs| ==> subs[k].empties == []
    }

    ghost predicate Idle(b: Block)
      requires Fixed() && b in blocks
      reads subs
    {
      b in subs[b.index / SUB_POOL_BLOCKS].empties
    }

    /** The page table: each page has a block in use that holds it. */
    ghost predicate Entry(pid: Id)
      requires Fixed()
      reads this, subs, blocks`page
    {
      && pid in gpt && gpt[pid].state.Finish? && gpt[pid].block != null && gpt[pid].block in blocks
      && !Idle(gpt[pid].block) && PageId(gpt[pid].block.page) == pid
    }

    /** A block is idle and clean, or it holds a page of the table. */
    ghost predicate Held(b: Block)
      requires Fixed() && b in blocks
      reads this, subs, blocks`page, blocks`dirty
    {
      if Idle(b) then !b.dirty else PageId(b.page) in gpt && gpt[PageId(b.page)].block == b
    }

    /** The table and the blocks agree, but for the page `skip` and the block
        `busy` that an operation is working on. */
    ghost predicate Table(skip: set<Id>, busy: Block?)
      reads this, subs, blocks`page, blocks`dirty
    {
      && Fixed()
      && Apart(skip, busy)
      && (forall b :: b in blocks && b != busy ==> if Idle(b) then !b.dirty else PageId(b.page) !in skip && Held(b))
      && (forall p :: p in disk ==> PageId(disk[p]) == p)
    }

    ghost predicate Valid()
      reads this, subs, blocks`page, blocks`dirty, blocks`nextEmpty
    {
      Lists() && Table({}, null)
    }

    /** What a page id reads: the block that holds it, or else the disk. */
    ghost function Read(pid: Id): Option<Image>
      reads this, blocks`page
    {
      if pid in gpt && gpt[pid].block != null && gpt[pid].block in blocks then Some(gpt[pid].block.page)
      else if pid in disk then Some(disk[pid])
      else None
    }

    /** Nothing is lost if the page leaves memory: it is marked dirty, or the disk
        holds it as it is. */
    ghost predicate Faithful(pid: Id)
      reads this, blocks`page, blocks`dirty
    {
      pid in gpt && gpt[pid].block != null && gpt[pid].block in blocks ==>
        gpt[pid].block.dirty || (pid in disk && disk[pid] == gpt[pid].block.page)
    }

    /** No two pages share a block, and a page in the table is in no free list. */
    lemma BlocksAreNotShared(p: Id, q: Id)
      requires Valid() && p in gpt && q in gpt && p != q
      ensures gpt[p].block != gpt[q].block && gpt[p].block in blocks && !Idle(gpt[p].block)
    {
      assert Entry(p) && Entry(q);
    }

    ghost function Busy(): (r: set<nat>)
      requires Fixed()
      reads subs
      ensures forall i: nat :: i in r <==> i < PAGE_BLOCKS && !Idle(blocks[i])
    {
      set i: nat | i < PAGE_BLOCKS && !Idle(blocks[i])
    }

    lemma BusyHolds()
      requires Valid()
      ensures |gpt.Keys| == |Busy()|
    {
      MemoryKept();
      var m := InMemory();
      hide Table, Lists, PageId, Idle, Empties, Numbered, CountsIn;
      forall i | i in Busy() ensures i in m.pages.Values {
        HoldsPage(blocks[i]);
        BlockNumbered(m, PageId(blocks[i].page), blocks[i]);
      }
      forall i | i in m.pages.Values ensures i in Busy() {
        var p :| p in m.pages && m.pages[p] == i;
        InTable(p);
        BlockNumbered(m, p, gpt[p].block);
      }
      AsManyValues(m.pages);
      assert m.pages.Values == Busy();
    }

    /** The first block of a list that is not empty is not busy. */
    lemma NotBusy(k: nat) returns (i: nat)
      requires Lists() && k < SUB_POOLS && subs[k].empties != []
      ensures i < PAGE_BLOCKS && i !in Busy()
    {
      var b := subs[k].empties[0];
      i := b.index;
      assert b in blocks && subs[k].Valid();
      assert blocks[i] == b && i / SUB_POOL_BLOCKS == k;
    }

    lemma BusyBelow()
      requires Fixed()
      ensures |Busy()| <= PAGE_BLOCKS
      ensures forall i: nat :: i < PAGE_BLOCKS && i !in Busy() ==> |Busy()| < PAGE_BLOCKS
      ensures (forall i: nat :: i < PAGE_BLOCKS ==> i in Busy()) ==> |Busy()| == PAGE_BLOCKS
    {
      var busy := Busy();
      hide *;
      AtMostBelow(busy, PAGE_BLOCKS);
    }

    static lemma AtMostBelow(s: set<nat>, n: nat)
      requires forall i :: i in s ==> i < n
      ensures |s| <= n && (forall i: nat :: i < n && i !in s ==> |s| < n)
      ensures (forall i: nat :: i < n ==> i in s) ==> |s| == n
    {
      UpToIs(n);
      SubsetSize(s, UpTo(n));
      if i: nat :| i < n && i !in s {
        SubsetSize(s + {i}, UpTo(n));
      } else {
        assert s == UpTo(n);
      }
    }

    lemma AllBusy()
      requires Lists() && NoneEmpty()
      ensures forall i: nat :: i < PAGE_BLOCKS ==> i in Busy()
    {
      forall i: nat | i < PAGE_BLOCKS ensures i in Busy() {
        assert blocks[i].index == i && subs[i / SUB_POOL_BLOCKS].empties == [];
      }
    }

    /** No block is empty exactly when the table has as many pages as blocks. */
    lemma FullAtTheBlocks()
      requires Valid()
      ensures |gpt.Keys| <= PAGE_BLOCKS
      ensures NoneEmpty() <==> |gpt.Keys| == PAGE_BLOCKS
    {
      BusyHolds();
      BusyBelow();
      hide Table, PageId, Idle, Busy, SubPool.Valid;
      if NoneEmpty() {
        AllBusy();
      } else {
        var k :| 0 <= k < |subs| && subs[k].empties != [];
        var i := NotBusy(k);
      }
    }

    /** The first empty block of the first sub pool that has one. */
    method TakeBlock() returns (block: Block?)
      requires Lists()
      modifies subs, blocks
      ensures Lists() && CountsIn(blocks) == old(CountsIn(blocks)) && Empties() == Rest(old(Empties()))
      ensures block == null <==> old(NoneEmpty())
      ensures block == null <==> FirstList(old(Empties())) == SUB_POOLS
      ensures block != null ==>
                && block in blocks && old(Idle(block)) && !Idle(block)
                && block.index == old(Empties())[FirstList(old(Empties()))][0]
                && block.page == old(block.page) && block.references == old(block.references)
                && block.dirty == old(block.dirty)
      ensures forall b :: b in blocks && b != block ==> unchanged(b) && (Idle(b) <==> old(Idle(b)))
    {
      NoneLeft();
      hide Idle, Lists, NoneEmpty, Rest, CountsIn, Empties;
      block := null;
      var i := 0;
      ghost var e := Empties();
      while i < SUB_POOLS && block == null
        invariant i <= SUB_POOLS && Lists() && CountsIn(blocks) == old(CountsIn(blocks))
        invariant block == null ==> Empties() == e && forall k :: 0 <= k < i ==> e[k] == []
        invariant block != null ==>
                    && FirstList(e) < SUB_POOLS && block.index == e[FirstList(e)][0] && Empties() == Rest(e)
                    && block in blocks && old(Idle(block)) && !Idle(block)
                    && block.page == old(block.page) && block.references == old(block.references)
                    && block.dirty == old(block.dirty)
        invariant forall b :: b in blocks && b != block ==> unchanged(b) && (Idle(b) <==> old(Idle(b)))
      {
        block := TakeFrom(i);
        FirstListAt(e, i, block != null);
        i := i + 1;
      }
    }

    lemma FirstListAt(e: seq<seq<nat>>, i: nat, found: bool)
      requires i < |e| && (forall k :: 0 <= k < i ==> e[k] == []) && (found <==> e[i] != [])
      ensures found ==> FirstList(e) == i && Rest(e) == e[i := e[i][1..]]
      ensures !found && i + 1 == |e| ==> FirstList(e) == |e| && Rest(e) == e
    {
      if found {
        FirstListIs(e, i);
      } else if i + 1 == |e| {
        FirstListIs(e, |e|);
      }
    }

    method TakeFrom(k: nat) returns (block: Block?)
      requires Lists() && k < SUB_POOLS
      modifies subs[k], blocks
      ensures Lists() && CountsIn(blocks) == old(CountsIn(blocks))
      ensures block == null ==> old(Empties())[k] == [] && Empties() == old(Empties())
      ensures block != null ==>
                && block in blocks && old(Idle(block)) && !Idle(block)
                && old(Empties())[k] != [] && block.index == old(Empties())[k][0]
                && Empties() == old(Empties())[k := old(Empties())[k][1..]]
                && block.page == old(block.page) && block.references == old(block.references)
                && block.dirty == old(block.dirty)
      ensures forall b :: b in blocks && b != block ==> unchanged(b) && (Idle(b) <==> old(Idle(b)))
    {
      block := TakeOne(k);
      hide Idle, Lists;
      SameCounts();
      if block != null {
        assert Numbers(old(subs[k].empties)[1..]) == Numbers(old(subs[k].empties))[1..];
      }
    }

    twostate lemma SameCounts()
      requires forall b :: b in blocks ==> b.references == old(b.references)
      ensures CountsIn(blocks) == old(CountsIn(blocks))
    {
      forall i | 0 <= i < |blocks| ensures blocks[i].references == old(blocks[i].references) {
        assert blocks[i] in blocks;
      }
    }

    twostate lemma OneCount(block: Block)
      requires Fixed() && block in blocks && forall b :: b in blocks && b != block ==> b.references == old(b.references)
      ensures CountsIn(blocks) == old(CountsIn(blocks))[block.index := block.references]
    {
      forall i | 0 <= i < |blocks| && i != block.index ensures blocks[i].references == old(blocks[i].references) {
        assert blocks[i] in blocks;
      }
    }

    method TakeOne(k: nat) returns (block: Block?)
      requires Lists() && k < SUB_POOLS
      modifies subs[k], blocks
      ensures Lists() && forall j :: 0 <= j < SUB_POOLS && j != k ==> subs[j].empties == old(subs[j].empties)
      ensures if block == null then old(subs[k].empties) == [] == subs[k].empties
              else block in old(subs[k].empties) && subs[k].empties == old(subs[k].empties)[1..]
      ensures block != null ==>
                && block == old(subs[k].empties)[0] && block in blocks && old(Idle(block)) && !Idle(block)
                && block.page == old(block.page) && block.references == old(block.references)
                && block.dirty == old(block.dirty)
      ensures forall b :: b in blocks && b != block ==> unchanged(b) && (Idle(b) <==> old(Idle(b)))
    {
      block := subs[k].AllocateBlock();
    }

    lemma NoneLeft()
      requires Lists()
      ensures Fixed() && (NoneEmpty() <==> FirstList(Empties()) == SUB_POOLS)
    {
    }

    /** Taking a block leaves the rest of the table alone. */
    method Take(skip: set<Id>) returns (block: Block?)
      requires Lists() && Table(skip, null)
      modifies subs, blocks
      ensures Lists() && Table(skip, block)
      ensures CountsIn(blocks) == old(CountsIn(blocks)) && Empties() == Rest(old(Empties()))
      ensures block == null <==> old(NoneEmpty())
      ensures block == null <==> FirstList(old(Empties())) == SUB_POOLS
      ensures block == null ==> Empties() == old(Empties())
      ensures block != null ==>
                && block in blocks && !Idle(block) && !block.dirty && block.references == old(block.references)
                && block.index == old(Empties())[FirstList(old(Empties()))][0]
      ensures forall p :: p !in skip ==> Read(p) == old(Read(p)) && (Faithful(p) <==> old(Faithful(p)))
    {
      hide PageId, Zeroes, Lists, Empties, CountsIn, Idle, FirstList;
      block := TakeBlock();
      assert forall p :: p in gpt && p !in skip ==> old(Entry(p));
    }

    ghost function Places(e: seq<Block>): (f: seq<nat>)
      ensures |f| == |e| && forall i :: 0 <= i < |e| ==> f[i] == e[i].index % SUB_POOL_BLOCKS
    {
      seq(|e|, i requires 0 <= i < |e| => e[i].index % SUB_POOL_BLOCKS)
    }

    lemma SamePlace(a: Block, b: Block)
      requires Fixed() && a in blocks && b in blocks && a != b
      ensures a.index / SUB_POOL_BLOCKS != b.index / SUB_POOL_BLOCKS
              || a.index % SUB_POOL_BLOCKS != b.index % SUB_POOL_BLOCKS
    {
      assert blocks[a.index] == a && blocks[b.index] == b;
    }

    /** A block in use is counted: its sub pool cannot have sixteen empty blocks. */
    lemma SomeInUse(block: Block)
      requires Lists() && block in blocks && !Idle(block)
      ensures subs[block.index / SUB_POOL_BLOCKS].usedBlocks > 0
    {
      var k := block.index / SUB_POOL_BLOCKS;
      var e := subs[k].empties;
      var x: nat := block.index % SUB_POOL_BLOCKS;
      var f := Places(e);
      assert subs[k].Valid();
      forall i, j | 0 <= i < j < |e| ensures f[i] != f[j] {
        assert e[i] in blocks && e[j] in blocks;
        SamePlace(e[i], e[j]);
      }
      forall i | 0 <= i < |e| ensures f[i] != x {
        assert e[i] in blocks && e[i] in e;
        SamePlace(e[i], block);
      }
      hide Places, Lists, Idle;
      LeavesOut(f, x, SUB_POOL_BLOCKS);
    }

    static lemma LeavesOut(f: seq<nat>, x: nat, n: nat)
      requires x < n && forall i :: 0 <= i < |f| ==> f[i] < n && f[i] != x
      requires forall i, j :: 0 <= i < j < |f| ==> f[i] != f[j]
      ensures |f| < n
    {
      UpToIs(n);
      ElementsAre(f);
      SubsetSize(Elements(f) + {x}, UpTo(n));
    }

    /** Put a page into a block that has been taken, under its id. */
    method Install(pid: Id, block: Block, image: Image)
      requires Lists() && Table({pid}, block) && block in blocks && !Idle(block) && PageId(image) == pid
      modifies this`gpt, block`references, block`page, block`inPool
      ensures Valid() && gpt == old(gpt)[pid := Gnode(block, Finish)] && block.page == image
      ensures block.references == old(block.references) + 1 && block.dirty == old(block.dirty)
      ensures CountsIn(blocks) == old(CountsIn(blocks))[block.index := block.references]
      ensures Read(pid) == Some(image) && (Faithful(pid) <==> block.dirty || (pid in disk && disk[pid] == image))
      ensures forall p :: p != pid ==> Read(p) == old(Read(p)) && (Faithful(p) <==> old(Faithful(p)))
    {
      hide PageId, Zeroes, Lists, Idle, SubPool.Valid, Table, CountsIn, Read, Faithful, Empties;
      UsedByOne(block);
      GptSet(pid, Gnode(block, Finish), block);
      Fill({pid}, block, image);
      Settles(pid, block);
      HoldsPage(block);
    }

    method UsedByOne(block: Block)
      requires Lists() && block in blocks
      modifies block`references, block`inPool
      ensures block.references == old(block.references) + 1
      ensures CountsIn(blocks) == old(CountsIn(blocks))[block.index := block.references]
    {
      block.references := block.references + 1;
      block.inPool := true;
      OneCount(block);
    }

    /** The page an operation is working on is in its block: the table is whole. */
    lemma Settles(pid: Id, block: Block)
      requires Lists() && Table({pid}, block) && block in blocks && !Idle(block) && PageId(block.page) == pid
      requires pid in gpt && gpt[pid] == Gnode(block, Finish)
      ensures Valid()
    {
      hide PageId, Lists, Idle, SubPool.Valid;
      assert Apart({pid}, block);
      forall p | p in gpt ensures Entry(p) {
      }
      forall b | b in blocks ensures Held(b) {
      }
    }

    /** The pages of the table other than those in `skip` are not in `busy`. */
    ghost predicate Apart(skip: set<Id>, busy: Block?)
      requires Fixed()
      reads this, subs, blocks`page
    {
      forall p :: p in gpt && p !in skip ==> Entry(p) && gpt[p].block != busy
    }

    method FreeInto(block: Block)
      requires Lists() && block in blocks && !Idle(block)
      modifies subs, block
      ensures Lists() && Idle(block) && !block.dirty
      ensures block.references == old(block.references) && block.page == old(block.page)
      ensures CountsIn(blocks) == old(CountsIn(blocks)) && Empties() == Back(old(Empties()), block.index)
      ensures forall b :: b in blocks && b != block ==> (Idle(b) <==> old(Idle(b)))
    {
      ghost var list := subs[block.index / SUB_POOL_BLOCKS].empties;
      FreeOwn(block);
      hide Zeroes, Idle, Lists, CountsIn, Numbers;
      SameCounts();
      NumbersOf(block, list);
    }

    /** A block goes back to the sub pool that it is from. */
    method FreeOwn(block: Block)
      requires Lists() && block in blocks && !Idle(block)
      modifies subs, block
      ensures Lists() && Idle(block) && !block.dirty
      ensures block.references == old(block.references) && block.page == old(block.page)
      ensures var own := block.index / SUB_POOL_BLOCKS;
              && subs[own].empties == [block] + old(subs[own].empties)
              && forall k :: 0 <= k < SUB_POOLS && k != own ==> subs[k].empties == old(subs[k].empties)
      ensures forall b :: b in blocks && b != block ==> (Idle(b) <==> old(Idle(b)))
    {
      hide Zeroes;
      SomeInUse(block);
      subs[block.index / SUB_POOL_BLOCKS].FreeBlock(block);
    }

    /** Give a block back that no page of the table is in. */
    method GiveBack(skip: set<Id>, block: Block)
      requires Lists() && Table(skip, block) && block in blocks && !Idle(block)
      modifies subs, block
      ensures Lists() && Table(skip, null) && Idle(block)
      ensures block.references == old(block.references) && block.page == old(block.page)
      ensures CountsIn(blocks) == old(CountsIn(blocks)) && Empties() == Back(old(Empties()), block.index)
      ensures forall p :: p !in skip ==> Read(p) == old(Read(p)) && (Faithful(p) <==> old(Faithful(p)))
    {
      hide PageId, Zeroes, Lists, Empties, Back, CountsIn, Numbers;
      FreeInto(block);
      block.inPool := false;
      assert forall p :: p in gpt && p !in skip ==> old(Entry(p) && gpt[p].block != block);
    }

    lemma SkipMore(skip: set<Id>, more: set<Id>, busy: Block?)
      requires Table(skip, busy) && skip <= more && forall p :: p in more && p !in skip ==> p !in gpt
      ensures Table(more, busy)
    {
    }

    /** Open a page: the block that holds it already, or an empty one that it is
        read into.  `short` is what a read that comes back incomplete leaves. */
    method Open(pid: Id, short: Option<Image>) returns (block: Block?)
      requires Valid() && (pid in gpt || pid in disk)
      modifies this, subs, blocks
      ensures Valid() && disk == old(disk)
      ensures forall p :: Read(p) == old(Read(p)) && (Faithful(p) <==> old(Faithful(p)))
      ensures block == null <==>
                old(pid !in gpt) && (short.Some? || old(NoneEmpty()))
      ensures block == null ==> gpt == old(gpt)
      ensures block != null ==>
                && block in blocks && gpt == old(gpt)[pid := Gnode(block, Finish)]
                && block.references == old(block.references) + 1 && Read(pid) == Some(block.page)
      ensures WellKept(old(InMemory())) && (block != null ==> pid in old(gpt) || !Full(old(InMemory())))
      ensures InMemory() == if block == null then old(InMemory()) else Opened(old(InMemory()), pid)
    {
      hide Zeroes, PageId, Table, Lists, Read, Faithful, NoneEmpty, Idle, Entry, Rest, Back, CountsIn, Empties;
      hide WellKept, InMemory, Opened;
      MemoryKept();
      if pid in gpt {
        block := OpenAgain(pid);
      } else {
        block := BringIn(pid, short);
      }
    }

    method OpenAgain(pid: Id) returns (block: Block)
      requires Valid() && pid in gpt
      modifies blocks`references
      ensures Valid()
      ensures forall p :: Read(p) == old(Read(p)) && (Faithful(p) <==> old(Faithful(p)))
      ensures block in blocks && gpt[pid] == Gnode(block, Finish)
      ensures block.references == old(block.references) + 1 && Read(pid) == Some(block.page)
      ensures WellKept(old(InMemory())) && pid in old(InMemory()).pages
      ensures InMemory() == Opened(old(InMemory()), pid)
    {
      hide Zeroes, PageId, Table, Lists, Read, Faithful, NoneEmpty, Idle, Entry, Rest, Back, CountsIn, Empties;
      hide WellKept, Numbered;
      MemoryKept();
      InTable(pid);
      block := gpt[pid].block;
      BlockNumbered(InMemory(), pid, block);
      Again(block);
    }

    method BringIn(pid: Id, short: Option<Image>) returns (block: Block?)
      requires Valid() && pid !in gpt && pid in disk
      modifies this, subs, blocks
      ensures Valid() && disk == old(disk)
      ensures forall p :: Read(p) == old(Read(p)) && (Faithful(p) <==> old(Faithful(p)))
      ensures block == null <==> short.Some? || old(NoneEmpty())
      ensures WellKept(old(InMemory())) && (block != null ==> !Full(old(InMemory())))
      ensures block == null ==> gpt == old(gpt) && InMemory() == old(InMemory())
      ensures block != null ==>
                && block in blocks && gpt == old(gpt)[pid := Gnode(block, Finish)]
                && block.references == old(block.references) + 1 && Read(pid) == Some(block.page)
                && InMemory() == Opened(old(InMemory()), pid)
    {
      hide Zeroes, PageId, Table, Lists, Read, Faithful, NoneEmpty, Idle, Entry, Rest, Back, CountsIn, Empties;
      hide WellKept, Numbered, Opened, FirstList;
      MemoryKept();
      ListsAreKept();
      ghost var was, e := InMemory(), Empties();
      OnDisk(pid);
      ReadsDisk(pid);
      block := Load(pid);
      if block == null {
        ReadsDisk(pid);
      } else if short.Some? {
        Unread(pid, block, short.value, e);
        ReadsDisk(pid);
        block := null;
      } else {
        Install(pid, block, disk[pid]);
        HasEntered(was, old(gpt), pid, block);
      }
    }

    /** The page gets an entry and a block, or neither. */
    method Load(pid: Id) returns (block: Block?)
      requires Valid() && pid !in gpt
      modifies this`gpt, subs, blocks
      ensures Lists() && Table(if block == null then {} else {pid}, block)
      ensures gpt == if block == null then old(gpt) else old(gpt)[pid := Gnode(null, Loading)]
      ensures block == null <==> old(NoneEmpty())
      ensures block == null <==> FirstList(old(Empties())) == SUB_POOLS
      ensures CountsIn(blocks) == old(CountsIn(blocks)) && Empties() == Rest(old(Empties()))
      ensures block == null ==> Empties() == old(Empties())
      ensures block != null ==>
                && block in blocks && !Idle(block) && !block.dirty && block.references == old(block.references)
                && block.index == old(Empties())[FirstList(old(Empties()))][0]
      ensures forall p :: p != pid ==> Read(p) == old(Read(p)) && (Faithful(p) <==> old(Faithful(p)))
    {
      hide Zeroes, PageId, Table, Lists, Read, Faithful, NoneEmpty, Idle, Entry, Rest, Back, CountsIn, Empties;
      SkipMore({}, {pid}, null);
      GptSet(pid, Gnode(null, Loading), null);
      block := Take({pid});
      if block == null {
        GptRemove(pid);
      }
    }

    /** A page that could not be read: its block goes back. */
    method Unread(pid: Id, block: Block, short: Image, ghost was: seq<seq<nat>>)
      requires Lists() && Table({pid}, block) && block in blocks && !Idle(block)
      requires ListsKept(was) && Empties() == Rest(was) && FirstList(was) < SUB_POOLS
      requires block.index == was[FirstList(was)][0]
      modifies this`gpt, subs, block
      ensures Valid() && gpt == old(gpt) - {pid}
      ensures CountsIn(blocks) == old(CountsIn(blocks)) && Empties() == was
      ensures forall p :: p != pid ==> Read(p) == old(Read(p)) && (Faithful(p) <==> old(Faithful(p)))
    {
      hide Zeroes, PageId, Table, Lists, Read, Faithful, NoneEmpty, Idle, Entry, Rest, Back, CountsIn, Empties;
      BackUndoesRest(was);
      Fill({pid}, block, short);
      GiveBack({pid}, block);
      GptRemove(pid);
    }

    lemma ListsAreKept()
      requires Lists()
      ensures Fixed() && ListsKept(Empties())
    {
      forall k, i | 0 <= k < SUB_POOLS && 0 <= i < |subs[k].empties|
        ensures subs[k].empties[i].index < PAGE_BLOCKS && subs[k].empties[i].index / SUB_POOL_BLOCKS == k {
        assert subs[k].empties[i] in blocks && subs[k].Valid();
      }
      forall k, i, j | 0 <= k < SUB_POOLS && 0 <= i < j < |subs[k].empties|
        ensures subs[k].empties[i].index != subs[k].empties[j].index {
        assert subs[k].empties[i] in blocks && subs[k].empties[j] in blocks && subs[k].Valid();
      }
    }

    /** The tables on numbers are kept as the real ones are. */
    lemma MemoryKept()
      requires Valid()
      ensures Fixed() && WellKept(InMemory()) && InMemory().pages.Keys == gpt.Keys
      ensures Full(InMemory()) <==> NoneEmpty()
    {
      hide Table, Lists, PageId, Idle, Empties, NoneEmpty, PageKept;
      ListsAreKept();
      NoneLeft();
      forall p | p in gpt ensures PageKept(p) {
        PageIsKept(p);
      }
      forall p, q | p in gpt && q in gpt && p != q ensures gpt[p].block != gpt[q].block {
        BlocksAreNotShared(p, q);
      }
      KeptAll();
    }

    ghost predicate PageKept(p: Id)
      requires Fixed() && p in gpt
      reads this, subs
    {
      && gpt[p].block != null && gpt[p].block in blocks
      && gpt[p].block.index !in Empties()[gpt[p].block.index / SUB_POOL_BLOCKS]
    }

    lemma PageIsKept(p: Id)
      requires Valid() && p in gpt
      ensures PageKept(p)
    {
      assert Entry(p);
      IdleIsEmpty(gpt[p].block);
    }

    lemma KeptAll()
      requires Fixed() && ListsKept(Empties()) && forall p :: p in gpt ==> PageKept(p)
      requires forall p, q :: p in gpt && q in gpt && p != q ==> gpt[p].block != gpt[q].block
      ensures WellKept(InMemory()) && InMemory().pages.Keys == gpt.Keys
      ensures Full(InMemory()) <==> FirstList(Empties()) == SUB_POOLS
    {
      hide Empties, ListsKept;
    }

    lemma IdleIsEmpty(b: Block)
      requires Lists() && b in blocks
      ensures Idle(b) <==> b.index in Empties()[b.index / SUB_POOL_BLOCKS]
    {
      var list := subs[b.index / SUB_POOL_BLOCKS].empties;
      if b.index in Numbers(list) {
        var i :| 0 <= i < |list| && list[i].index == b.index;
        assert list[i] in blocks;
      }
    }

    /** Set the entry of the page an operation is working on. */
    method GptSet(pid: Id, g: Gnode, ghost busy: Block?)
      requires Table({pid}, busy)
      modifies this`gpt
      ensures Table({pid}, busy) && gpt == old(gpt)[pid := g]
      ensures forall p :: p != pid ==> Read(p) == old(Read(p)) && (Faithful(p) <==> old(Faithful(p)))
    {
      hide PageId;
      assert Apart({pid}, busy);
      gpt := gpt[pid := g];
      assert Apart({pid}, busy);
    }

    method GptRemove(pid: Id)
      requires Table({pid}, null)
      modifies this`gpt
      ensures Table({}, null) && gpt == old(gpt) - {pid}
      ensures forall p :: p != pid ==> Read(p) == old(Read(p)) && (Faithful(p) <==> old(Faithful(p)))
    {
      hide PageId;
      assert Apart({pid}, null);
      gpt := gpt - {pid};
      assert Apart({}, null);
    }

    /** Overwrite a block that no page of the table is in. */
    method Fill(ghost skip: set<Id>, block: Block, image: Image)
      requires Table(skip, block) && block in blocks
      modifies block`page
      ensures Table(skip, block) && block.page == image
      ensures forall p :: p !in skip ==> Read(p) == old(Read(p)) && (Faithful(p) <==> old(Faithful(p)))
    {
      hide PageId;
      assert Apart(skip, block);
      block.page := image;
      assert Apart(skip, block);
    }

    lemma InTable(pid: Id)
      requires Valid() && pid in gpt
      ensures gpt[pid] == Gnode(gpt[pid].block, Finish) && gpt[pid].block != null && gpt[pid].block in blocks
      ensures !Idle(gpt[pid].block) && PageId(gpt[pid].block.page) == pid && Read(pid) == Some(gpt[pid].block.page)
    {
      assert Entry(pid);
    }

    lemma ReadsDisk(pid: Id)
      ensures pid !in gpt ==> Faithful(pid) && Read(pid) == if pid in disk then Some(disk[pid]) else None
    {
    }

    lemma OnDisk(pid: Id)
      requires Valid() && pid in disk
      ensures PageId(disk[pid]) == pid
    {
    }

    /** One more user of a page that is in memory. */
    method Again(block: Block)
      requires Valid() && block in blocks
      modifies block`references
      ensures Valid() && block.references == old(block.references) + 1 && block.page == old(block.page)
      ensures CountsIn(blocks) == old(CountsIn(blocks))[block.index := block.references]
      ensures forall p :: Read(p) == old(Read(p)) && (Faithful(p) <==> old(Faithful(p)))
    {
      block.references := block.references + 1;
      OneCount(block);
    }

    /** Write a dirty page back, under the id it carries. */
    method PageSwapOut(block: Block)
      requires Table({PageId(block.page)}, block)
      modifies this`disk
      ensures Table({PageId(block.page)}, block)
      ensures forall p :: p != PageId(block.page) ==> Read(p) == old(Read(p)) && (Faithful(p) <==> old(Faithful(p)))
      ensures disk == if block.dirty then old(disk)[PageId(block.page) := block.page] else old(disk)
    {
      hide PageId;
      assert Apart({PageId(block.page)}, block);
      if block.dirty {
        disk := disk[PageId(block.page) := block.page];
      }
      assert Apart({PageId(block.page)}, block);
    }

    /** The page a block in use holds. */
    lemma HoldsPage(block: Block)
      requires Valid() && block in blocks && !Idle(block)
      ensures var pid := PageId(block.page);
              pid in gpt && gpt[pid] == Gnode(block, Finish) && Read(pid) == Some(block.page)
      ensures var pid := PageId(block.page); Faithful(pid) <==> block.dirty || (pid in disk && disk[pid] == block.page)
    {
      assert Held(block) && Entry(PageId(block.page));
    }

    /** The table without the page that is about to leave it. */
    lemma Leaving(block: Block)
      requires Valid() && block in blocks && !Idle(block)
      ensures Table({PageId(block.page)}, block)
    {
      hide PageId;
      var pid := PageId(block.page);
      assert Held(block);
      forall p | p in gpt && p != pid ensures Entry(p) && gpt[p].block != block {
        assert Entry(p);
      }
      forall b | b in blocks && b != block && !Idle(b) ensures PageId(b.page) != pid {
        assert Held(b);
      }
    }

    /** The page leaves memory: its block is given back and wiped. */
    method Release(pid: Id, block: Block)
      requires Lists() && Table({pid}, block) && block in blocks && !Idle(block)
      modifies this`gpt, subs, block
      ensures Valid() && Idle(block) && gpt == old(gpt) - {pid} && block.references == old(block.references)
      ensures CountsIn(blocks) == old(CountsIn(blocks)) && Empties() == Back(old(Empties()), block.index)
      ensures forall p :: p != pid ==> Read(p) == old(Read(p)) && (Faithful(p) <==> old(Faithful(p)))
    {
      hide Zeroes, PageId, Table, Lists, Read, Faithful, Idle, Empties, CountsIn, Back;
      var zeroes := Zeroes();
      Fill({pid}, block, zeroes);
      GiveBack({pid}, block);
      GptRemove(pid);
    }

    /** Close a page.  It leaves memory when its last user closes it or when that
        is enforced; otherwise it has one user less. */
    method Close(block: Block, enforce: bool)
      requires Valid() && block in blocks && !Idle(block)
      modifies this, subs, block
      ensures Valid() && block.references == old(block.references) - 1
      ensures var pid, leaves := old(PageId(block.page)), old(block.references) == 1 || enforce;
              && gpt == (if leaves then old(gpt) - {pid} else old(gpt))
              && disk == (if leaves && old(block.dirty) then old(disk)[pid := old(block.page)] else old(disk))
              && (leaves <==> Idle(block))
              && (forall p :: p != pid ==> Read(p) == old(Read(p)) && (Faithful(p) <==> old(Faithful(p))))
              && (Read(pid) == old(Read(pid)) <==> !leaves || old(Faithful(pid)))
              && (Faithful(pid) <==> leaves || old(Faithful(pid)))
      ensures var pid, was := old(PageId(block.page)), old(InMemory());
              WellKept(was) && pid in was.pages && InMemory() == Closed(was, pid, enforce)
    {
      hide Zeroes, PageId, Table, Lists, Read, Faithful, Idle, Empties, CountsIn, Back, NoneEmpty, WellKept, Numbered;
      var pid := PageId(block.page);
      MemoryKept();
      HoldsPage(block);
      BlockNumbered(InMemory(), pid, block);
      var ref := block.references;
      block.references := ref - 1;
      OneCount(block);
      if ref == 1 || enforce {
        Evict(pid, block);
      }
    }

    /** A page has come into the next block. */
    lemma HasEntered(was: Memory, before: map<Id, Gnode>, pid: Id, block: Block)
      requires Fixed() && WellKept(was) && !Full(was) && was.pages == Numbered(before) && pid !in before
      requires gpt == before[pid := Gnode(block, Finish)] && block.index == Next(was) && block.index < PAGE_BLOCKS
      requires Empties() == Rest(was.empties)
      requires CountsIn(blocks) == was.counts[block.index := was.counts[block.index] + 1]
      ensures pid !in was.pages && InMemory() == Opened(was, pid)
    {
      NumberedIs(before, pid, block);
    }

    /** A page has left its block. */
    lemma HasGone(was: Memory, before: map<Id, Gnode>, pid: Id, block: Block)
      requires Fixed() && WellKept(was) && was.pages == Numbered(before) && pid in was.pages
      requires was.pages[pid] == block.index && gpt == before - {pid}
      requires Empties() == Back(was.empties, block.index) && CountsIn(blocks) == was.counts
      ensures InMemory() == Gone(was, pid)
    {
      NumberedIs(before, pid, block);
    }

    /** The table on numbers when a page comes or goes. */
    static lemma NumberedIs(gpt: map<Id, Gnode>, pid: Id, block: Block)
      ensures Numbered(gpt - {pid}) == Numbered(gpt) - {pid}
      ensures Numbered(gpt[pid := Gnode(block, Finish)]) == Numbered(gpt)[pid := block.index]
    {
    }

    lemma BlockNumbered(was: Memory, pid: Id, block: Block)
      requires Fixed() && was == InMemory() && pid in gpt && gpt[pid].block == block && block in blocks
      ensures pid in was.pages && was.pages[pid] == block.index
      ensures |was.counts| == PAGE_BLOCKS && was.counts[block.index] == block.references
    {
    }

    /** A page leaves memory; it is written back first if it is dirty. */
    method Evict(pid: Id, block: Block)
      requires Valid() && block in blocks && !Idle(block) && pid == PageId(block.page)
      modifies this, subs, block
      ensures Valid() && Idle(block) && gpt == old(gpt) - {pid} && block.references == old(block.references)
      ensures disk == if old(block.dirty) then old(disk)[pid := old(block.page)] else old(disk)
      ensures var was := old(InMemory()); WellKept(was) && pid in was.pages && InMemory() == Gone(was, pid)
      ensures forall p :: p != pid ==> Read(p) == old(Read(p)) && (Faithful(p) <==> old(Faithful(p)))
      ensures Faithful(pid) && (Read(pid) == old(Read(pid)) <==> old(Faithful(pid)))
    {
      hide Zeroes, PageId, Table, Lists, Read, Faithful, Idle, Empties, CountsIn, Back, WellKept, Numbered, NoneEmpty;
      hide Gone;
      MemoryKept();
      HoldsPage(block);
      ghost var was := InMemory();
      BlockNumbered(was, pid, block);
      Leaving(block);
      GptSet(pid, Gnode(block, Swapping), block);
      PageSwapOut(block);
      Release(pid, block);
      ReadsDisk(pid);
      HasGone(was, old(gpt), pid, block);
    }

    /** Delete a page that is in memory.  Its id is free from now on; the block
        goes back to its list with the user count it had. */
    method MDelete(block: Block) returns (freed: Id)
      requires Valid() && block in blocks && !Idle(block)
      modifies this, subs, block
      ensures Valid() && freed == old(PageId(block.page)) && gpt == old(gpt) - {freed} && disk == old(disk)
      ensures Idle(block) && block.references == old(block.references)
      ensures forall p :: p != freed ==> Read(p) == old(Read(p)) && (Faithful(p) <==> old(Faithful(p)))
      ensures var was := old(InMemory()); WellKept(was) && freed in was.pages && InMemory() == Gone(was, freed)
    {
      hide Zeroes, PageId, Table, Lists, Read, Faithful, Idle, Empties, CountsIn, Back, NoneEmpty, WellKept, Numbered;
      MemoryKept();
      freed := PageId(block.page);
      HoldsPage(block);
      BlockNumbered(InMemory(), freed, block);
      Leaving(block);
      GptSet(freed, Gnode(block, Destroy), block);
      Release(freed, block);
      NumberedIs(old(gpt), freed, block);
    }

    /** Delete a page wherever it is: a page that is only on the disk stays there
        until its id is used again. */
    method DDelete(pid: Id) returns (freed: Id)
      requires Valid()
      modifies this, subs, blocks
      ensures Valid() && freed == pid && gpt == old(gpt) - {pid} && disk == old(disk)
      ensures forall p :: p != pid ==> Read(p) == old(Read(p)) && (Faithful(p) <==> old(Faithful(p)))
      ensures WellKept(old(InMemory())) && InMemory() == Gone(old(InMemory()), pid)
    {
      hide Zeroes, PageId, Table, Lists, Read, Faithful, Idle, Empties, CountsIn, Back, NoneEmpty;
      MemoryKept();
      if pid !in gpt {
        return pid;
      }
      InTable(pid);
      freed := MDelete(gpt[pid].block);
    }

    /** The disk gets other contents in places where no page of the table is. */
    method SetDisk(d: map<Id, Image>)
      requires Valid() && forall p :: p in d ==> PageId(d[p]) == p
      requires forall p :: p in gpt ==> (p in d <==> p in disk) && (p in d ==> d[p] == disk[p])
      modifies this`disk
      ensures Valid() && disk == d
      ensures forall p :: p in gpt || ((p in d <==> p in old(disk)) && (p in d ==> d[p] == old(disk)[p])) ==>
                Read(p) == old(Read(p)) && (Faithful(p) <==> old(Faithful(p)))
    {
      hide PageId, Zeroes, Lists;
      assert Apart({}, null);
      disk := d;
      assert Apart({}, null);
    }

    /** Change a page that is open and mark it dirty. */
    method Write(block: Block, image: Image)
      requires Valid() && block in blocks && !Idle(block) && PageId(image) == PageId(block.page)
      modifies block`page, block`dirty
      ensures Valid() && block.dirty && block.page == image && Read(PageId(image)) == Some(image)
      ensures Faithful(PageId(image))
      ensures forall p :: p != PageId(image) ==> Read(p) == old(Read(p)) && (Faithful(p) <==> old(Faithful(p)))
    {
      hide Zeroes, PageId, Lists;
      HoldsPage(block);
      assert Apart({}, null);
      block.page := image;
      block.dirty := true;
      assert Apart({}, null);
    }
  }
}
