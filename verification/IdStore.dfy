/** The store of free page ids. */
module IdStore {
  import opened PageLayout
  import opened PageView
  import opened SlottedPage

  // A stack laid out over a chain of slotted pages, the top one in memory and the
  // others on disk, where a freed page can itself become the next page.

  const PAGEIDNULL: Id := 0xffff_ffff
  const PAGEIDSTOREPAGE: Half := 2
  const ID_SIZE := 4
  const ID_SLOTS := 677

  function Encode(d: Id): (b: seq<Byte>)
    ensures |b| == ID_SIZE
  {
    [d % 256, d / 256 % 256, d / 256 / 256 % 256, d / 256 / 256 / 256]
  }

  function Decode(b: seq<Byte>): Id
    requires |b| == ID_SIZE
  {
    var b0: int, b1: int, b2: int, b3: int := b[0], b[1], b[2], b[3];
    b0 + 256 * (b1 + 256 * (b2 + 256 * b3))
  }

  lemma DecodeEncode(d: Id)
    ensures Decode(Encode(d)) == d
  {
    var q1, q2 := d / 256, d / 256 / 256;
    assert d == d % 256 + 256 * q1 && q1 == q1 % 256 + 256 * q2 && q2 == q2 % 256 + 256 * (q2 / 256);
  }

  // ---------------------------------------------------------------- the chain

  /** One page of the chain: its page id and the ids stacked in it. */
  datatype Level = Level(pid: Id, ids: seq<Id>)

  /** The stack, bottom first.  The id of a page above the bottom one is itself
      a freed id, below those stacked in the page. */
  ghost function Stack(levels: seq<Level>): seq<Id> {
    if levels == [] then []
    else if |levels| == 1 then levels[0].ids
    else Stack(levels[..|levels| - 1]) + [levels[|levels| - 1].pid] + levels[|levels| - 1].ids
  }

  ghost function Prev(levels: seq<Level>, k: nat): Id
    requires k < |levels|
  {
    if k == 0 then PAGEIDNULL else levels[k - 1].pid
  }

  /** The positions from `n` on. */
  ghost function From(n: nat): seq<nat> {
    seq(if n < ID_SLOTS then ID_SLOTS - n else 0, k requires k >= 0 => n + k)
  }

  /** The view of a store page: the previous page's id, then the stacked ids. */
  ghost predicate IsStore(v: View, level: Level, prev: Id) {
    && v.pid == level.pid && v.kind == PAGEIDSTOREPAGE && v.width == ID_SIZE && v.nulls == {}
    && |level.ids| < ID_SLOTS && v.free == From(|level.ids| + 1)
    && (forall i: nat :: i in v.entries <==> i <= |level.ids|)
    && v.entries[0] == Encode(prev)
    && forall i :: 0 < i <= |level.ids| ==> v.entries[i] == Encode(level.ids[i - 1])
  }

  /** The image holds a store page. */
  ghost predicate Holds(s: Image, level: Level, prev: Id) {
    ChecksumHolds(s) && exists v :: Represents(s, v) && IsStore(v, level, prev)
  }

  lemma IdSlots()
    ensures MaxEntries(ID_SIZE) == ID_SLOTS
  {
  }

  // ------------------------------------------------- one push, one pop on a page

  lemma PushedOnPage(v: View, level: Level, prev: Id, d: Id, s: Image)
    requires IsStore(v, level, prev) && |level.ids| + 1 < ID_SLOTS
    ensures v.free != [] && v.free[0] == |level.ids| + 1
    ensures IsStore(AfterInsert(s, v, Some(Encode(d))), level.(ids := level.ids + [d]), prev)
  {
    IdSlots();
    var w := AfterInsert(s, v, Some(Encode(d)));
    AreasApart(ID_SIZE, v.free[0], v.free[0]);
    assert Written(Stale(s, v), Some(Encode(d))) == Encode(d);
    assert w.free == From(|level.ids| + 2);
  }

  lemma PoppedFromPage(v: View, level: Level, prev: Id)
    requires IsStore(v, level, prev) && level.ids != []
    ensures |level.ids| in v.entries && v.entries[|level.ids|] == Encode(level.ids[|level.ids| - 1])
    ensures IsStore(Deleted(v, |level.ids|), level.(ids := level.ids[..|level.ids| - 1]), prev)
  {
    assert [|level.ids|] + From(|level.ids| + 1) == From(|level.ids|);
  }

  lemma FreshStore(s: Image, pid: Id, prev: Id)
    ensures var v := Fresh(ID_SIZE, pid, PAGEIDNULL).(kind := PAGEIDSTOREPAGE);
            v.free != [] && v.free[0] == 0 && IsStore(AfterInsert(s, v, Some(Encode(prev))), Level(pid, []), prev)
  {
    hide Encode, MaxEntries;
    IdSlots();
    var v := Fresh(ID_SIZE, pid, PAGEIDNULL).(kind := PAGEIDSTOREPAGE);
    AreasApart(ID_SIZE, 0, 0);
    assert Written(Stale(s, v), Some(Encode(prev))) == Encode(prev);
    assert v.free[1..] == From(1);
  }

  /** How many records a store page shows. */
  lemma StoreRecords(s: Image, v: View, level: Level, prev: Id)
    requires Represents(s, v) && IsStore(v, level, prev)
    ensures Word(s, RECORD_NUM) == |level.ids| + 1 && Long(s, PAGE_ID) == level.pid && v.width == ID_SIZE
    ensures 0 in v.entries && v.entries[0] == Encode(prev) && |level.ids| < ID_SLOTS
    ensures v.free == [] <==> |level.ids| + 1 == ID_SLOTS
  {
    IdSlots();
  }

  /** The link to the next page does not matter to a store page. */
  lemma NextIsFree(v: View, level: Level, prev: Id, next: Id)
    requires IsStore(v, level, prev)
    ensures IsStore(v.(next := next), level, prev)
  {
  }

  // ------------------------------------------------ the chain as one stack

  /** The chain after a push: on the top page, or as a new page when it is full. */
  ghost function Pushed(levels: seq<Level>, d: Id): seq<Level>
    requires levels != []
  {
    var n := |levels| - 1;
    if |levels[n].ids| + 1 == ID_SLOTS then levels + [Level(d, [])]
    else levels[..n] + [levels[n].(ids := levels[n].ids + [d])]
  }

  ghost function Popped(levels: seq<Level>): seq<Level>
    requires levels != []
  {
    var n := |levels| - 1;
    if levels[n].ids != [] then levels[..n] + [levels[n].(ids := levels[n].ids[..|levels[n].ids| - 1])]
    else if n > 0 then levels[..n]
    else levels
  }

  /** What a pop hands out: the topmost stacked id, or the id of an exhausted page. */
  ghost function Topmost(levels: seq<Level>): Id
    requires levels != [] && (levels[|levels| - 1].ids != [] || |levels| > 1)
  {
    var top := levels[|levels| - 1];
    if top.ids != [] then top.ids[|top.ids| - 1] else top.pid
  }

  lemma Rejoin<T>(s: seq<T>)
    requires s != []
    ensures s[..|s| - 1] + [s[|s| - 1]] == s
  {
  }

  /** What lies below the ids stacked in the top page. */
  ghost function Under(below: seq<Level>, pid: Id): seq<Id> {
    if below == [] then [] else Stack(below) + [pid]
  }

  lemma StackOf(below: seq<Level>, top: Level)
    ensures Stack(below + [top]) == Under(below, top.pid) + top.ids
  {
    var levels := below + [top];
    assert levels[..|levels| - 1] == below;
  }

  /** Over the whole chain, a push is a push. */
  lemma PushedStack(levels: seq<Level>, d: Id)
    requires levels != []
    ensures Stack(Pushed(levels, d)) == Stack(levels) + [d]
  {
    hide Stack;
    var n := |levels| - 1;
    var below, top := levels[..n], levels[n];
    Rejoin(levels);
    StackOf(below, top);
    if |top.ids| + 1 == ID_SLOTS {
      StackOf(levels, Level(d, []));
    } else {
      StackOf(below, top.(ids := top.ids + [d]));
    }
  }

  /** And a pop is a pop, also where the top page is exhausted. */
  lemma PoppedStack(levels: seq<Level>)
    requires levels != []
    ensures Stack(levels) == [] <==> |levels| == 1 && levels[0].ids == []
    ensures Stack(levels) != [] ==> Stack(levels) == Stack(Popped(levels)) + [Topmost(levels)]
    ensures Stack(levels) == [] ==> Popped(levels) == levels
  {
    hide Stack;
    var n := |levels| - 1;
    var below, top := levels[..n], levels[n];
    Rejoin(levels);
    StackOf(below, top);
    if top.ids != [] {
      var m := |top.ids| - 1;
      var rest := top.(ids := top.ids[..m]);
      assert Popped(levels) == below + [rest];
      StackOf(below, rest);
      LastOff(Under(below, top.pid), top.ids);
      assert rest.pid == top.pid;
      assert Stack(levels) == Stack(Popped(levels)) + [Topmost(levels)];
    } else if n > 0 {
      assert Popped(levels) == below;
    }
  }

  lemma LastOff(a: seq<Id>, b: seq<Id>)
    requires b != []
    ensures a + b == (a + b[..|b| - 1]) + [b[|b| - 1]]
  {
  }

  /** A pop undoes a push. */
  lemma PopUndoesPush(levels: seq<Level>, d: Id)
    requires levels != []
    ensures Popped(Pushed(levels, d)) == levels && Topmost(Pushed(levels, d)) == d
  {
    var n := |levels| - 1;
    var after := Pushed(levels, d);
    if |levels[n].ids| + 1 == ID_SLOTS {
      assert after[..n + 1] == levels;
    } else {
      assert after[n].ids[..|levels[n].ids|] == levels[n].ids;
      assert Popped(after) == levels[..n] + [levels[n]];
    }
  }

  /** Every page of the chain but the bottom one is itself a stacked id. */
  lemma {:induction false} PagesAreStacked(levels: seq<Level>, k: nat)
    requires 0 < k < |levels|
    ensures levels[k].pid in Stack(levels)
    decreases |levels|
  {
    var n := |levels| - 1;
    Rejoin(levels);
    StackOf(levels[..n], levels[n]);
    if k < n {
      PagesAreStacked(levels[..n], k);
    }
  }

  /** `n` ids taken one after the other: from the stack while there are any,
      then fresh ones. */
  ghost function Taken(stack: seq<Id>, counter: Id, n: nat): (seq<Id>, seq<Id>, Id)
    decreases n
  {
    if n == 0 then ([], stack, counter)
    else if stack == [] then
      var rest := Taken(stack, (counter + 1) % 0x1_0000_0000, n - 1);
      ([counter] + rest.0, rest.1, rest.2)
    else
      var top := |stack| - 1;
      var rest := Taken(stack[..top], counter, n - 1);
      ([stack[top]] + rest.0, rest.1, rest.2)
  }

  /** The first of `n` takes, after `to` have been taken already. */
  lemma TakeFirst(to: seq<Id>, stack: seq<Id>, counter: Id, n: nat)
    ensures n == 0 ==> to + Taken(stack, counter, n).0 == to
    ensures n == 0 ==> Taken(stack, counter, n).1 == stack && Taken(stack, counter, n).2 == counter
    ensures n > 0 && stack == [] ==>
              var all, rest := Taken(stack, counter, n), Taken([], (counter + 1) % 0x1_0000_0000, n - 1);
              to + all.0 == (to + [counter]) + rest.0 && all.1 == rest.1 && all.2 == rest.2
    ensures n > 0 && stack != [] ==>
              var top := |stack| - 1;
              var all, rest := Taken(stack, counter, n), Taken(stack[..top], counter, n - 1);
              to + all.0 == (to + [stack[top]]) + rest.0 && all.1 == rest.1 && all.2 == rest.2
  {
    if n > 0 && stack == [] {
      var rest := Taken([], (counter + 1) % 0x1_0000_0000, n - 1).0;
      assert to + ([counter] + rest) == (to + [counter]) + rest;
    } else if n > 0 {
      var top := |stack| - 1;
      var rest := Taken(stack[..top], counter, n - 1).0;
      assert to + ([stack[top]] + rest) == (to + [stack[top]]) + rest;
    }
  }

  lemma Wraps(c: nat, k: nat)
    ensures ((c + 1) % 0x1_0000_0000 + k) % 0x1_0000_0000 == (c + k + 1) % 0x1_0000_0000
  {
  }

  lemma {:induction false} FreshIs(counter: Id, n: nat)
    ensures var (to, rest, next) := Taken([], counter, n);
            && |to| == n && rest == [] && next == (counter + n) % 0x1_0000_0000
            && forall k :: 0 <= k < n ==> to[k] == (counter + k) % 0x1_0000_0000
    decreases n
  {
    if n > 0 {
      var c := (counter + 1) % 0x1_0000_0000;
      FreshIs(c, n - 1);
      Wraps(counter, n - 1);
      var less := Taken([], c, n - 1).0;
      assert Taken([], counter, n).0 == [counter] + less;
      hide Taken;
      CountsOn(less, counter, n);
    }
  }

  lemma CountsOn(less: seq<Id>, counter: Id, n: nat)
    requires 0 < n == |less| + 1
    requires forall k :: 0 <= k < n - 1 ==> less[k] == ((counter + 1) % 0x1_0000_0000 + k) % 0x1_0000_0000
    ensures forall k :: 0 <= k < n ==> ([counter] + less)[k] == (counter + k) % 0x1_0000_0000
  {
    forall k | 0 <= k < n ensures ([counter] + less)[k] == (counter + k) % 0x1_0000_0000 {
      if k > 0 {
        Wraps(counter, k - 1);
      }
    }
  }

  /** The `n` ids are those of the stack, the last one first, and then the values of
      the counter, which wraps; what is left is the rest of the stack. */
  lemma {:induction false} TakenIs(stack: seq<Id>, counter: Id, n: nat)
    ensures var (to, rest, next) := Taken(stack, counter, n);
            && |to| == n
            && (forall k :: 0 <= k < n && k < |stack| ==> to[k] == stack[|stack| - 1 - k])
            && (forall k :: |stack| <= k < n ==> to[k] == (counter + k - |stack|) % 0x1_0000_0000)
            && rest == stack[..if n < |stack| then |stack| - n else 0]
            && next == (if n < |stack| then counter else (counter + n - |stack|) % 0x1_0000_0000)
    decreases n
  {
    if stack == [] {
      FreshIs(counter, n);
    } else if n > 0 {
      var top := |stack| - 1;
      TakenIs(stack[..top], counter, n - 1);
      var to, less := Taken(stack, counter, n).0, Taken(stack[..top], counter, n - 1).0;
      assert to == [stack[top]] + less;
      hide Taken;
      forall k | 0 < k < n ensures to[k] == less[k - 1] {
      }
    }
  }

  // ------------------------------------------------------ the chain on disk

  ghost function TopPid(levels: seq<Level>): Id
    requires levels != []
  {
    levels[|levels| - 1].pid
  }

  /** The disk holds the `k`th page of the chain. */
  ghost predicate Stored(disk: map<Id, Image>, levels: seq<Level>, k: nat) {
    k < |levels| && levels[k].pid in disk && Holds(disk[levels[k].pid], levels[k], Prev(levels, k))
  }

  /** The pages below the top one are full and on disk, under different ids. */
  ghost predicate ChainStored(disk: map<Id, Image>, levels: seq<Level>) {
    && (forall k :: 0 <= k < |levels| - 1 ==> Stored(disk, levels, k) && |levels[k].ids| + 1 == ID_SLOTS)
    && (forall j, k :: 0 <= j < k < |levels| ==> levels[j].pid != levels[k].pid)
  }

  lemma PoppedStored(disk: map<Id, Image>, levels: seq<Level>)
    requires levels != [] && ChainStored(disk, levels)
    ensures ChainStored(disk, Popped(levels))
    ensures |levels| > 1 ==> Stored(disk, levels, |levels| - 2)
  {
    hide Holds;
    var after := Popped(levels);
    forall k | 0 <= k < |after| - 1 ensures Stored(disk, after, k) && |after[k].ids| + 1 == ID_SLOTS {
      assert Stored(disk, levels, k) && after[k] == levels[k] && Prev(after, k) == Prev(levels, k);
    }
  }

  /** A full top page has to reach the disk before a new page goes on top: it
      must be marked dirty, unless the disk holds it already. */
  ghost predicate MayGrow(disk: map<Id, Image>, levels: seq<Level>, id: Id, dirty: bool)
    requires levels != []
  {
    && (forall k :: 0 <= k < |levels| ==> levels[k].pid != id)
    && (|levels[|levels| - 1].ids| + 1 == ID_SLOTS ==> dirty || Stored(disk, levels, |levels| - 1))
  }

  lemma PushedStored(disk: map<Id, Image>, disk': map<Id, Image>, levels: seq<Level>, id: Id, dirty: bool)
    requires levels != [] && ChainStored(disk, levels) && MayGrow(disk, levels, id, dirty)
    requires |levels[|levels| - 1].ids| + 1 < ID_SLOTS || !dirty ==> disk' == disk
    requires |levels[|levels| - 1].ids| + 1 == ID_SLOTS && dirty ==> Stored(disk', levels, |levels| - 1)
    requires forall d :: d in disk && d != TopPid(levels) ==> d in disk' && disk'[d] == disk[d]
    ensures ChainStored(disk', Pushed(levels, id))
  {
    hide Holds;
    var after, n := Pushed(levels, id), |levels| - 1;
    forall k | 0 <= k < n ensures Stored(disk', levels, k) {
      assert Stored(disk, levels, k) && levels[k].pid != TopPid(levels);
    }
    forall k | 0 <= k < |after| - 1 ensures Stored(disk', after, k) && |after[k].ids| + 1 == ID_SLOTS {
      assert after[k] == levels[k] && Prev(after, k) == Prev(levels, k);
      assert Stored(disk', levels, k);
    }
  }

  lemma ChainElsewhere(disk: map<Id, Image>, d: map<Id, Image>, levels: seq<Level>)
    requires ChainStored(disk, levels)
    requires forall k :: 0 <= k < |levels| && levels[k].pid in disk ==>
              levels[k].pid in d && d[levels[k].pid] == disk[levels[k].pid]
    ensures ChainStored(d, levels)
  {
    hide Holds;
    forall k | 0 <= k < |levels| - 1 ensures Stored(d, levels, k) {
      assert Stored(disk, levels, k);
    }
  }

  // ------------------------------------------------------------- the store

  class IdStore {
    const page: Page
    var disk: map<Id, Image>
    var dirty: bool
    var counter: Id
    ghost var levels: seq<Level>

    /** A new database: page 2 is the empty store, ids below 3 are taken. */
    constructor (page: Page)
      requires page.Sized()
      modifies page, page.buf
      ensures Valid() && this.page == page && dirty && counter == 3 && levels == [Level(2, [])]
    {
      this.page := page;
      disk, dirty, counter, levels := map[], true, 3, [Level(2, [])];
      new;
      InitStore(page, 2, PAGEIDNULL);
    }

    /** Set a page up as an empty store page on top of `prev`. */
    static method InitStore(page: Page, pid: Id, prev: Id)
      requires page.Sized()
      modifies page, page.buf
      ensures page.Valid() && page.Intact() && IsStore(page.view, Level(pid, []), prev)
    {
      hide MaxEntries, Represents, IsStore, AfterInsert, Fold, Encode;
      page.Init(ID_SIZE, pid, PAGEIDNULL);
      page.SetPageType(PAGEIDSTOREPAGE);
      FreshStore(page.Bytes(), pid, prev);
      var _ := page.Insert(Some(Encode(prev)));
    }

    ghost predicate TopValid()
      reads this, page, page.buf
    {
      && page.Valid() && page.Intact() && levels != []
      && (forall k :: 0 <= k < |levels| ==> levels[k].pid != PAGEIDNULL)
      && IsStore(page.view, levels[|levels| - 1], Prev(levels, |levels| - 1))
    }

    ghost predicate Valid()
      reads this, page, page.buf
    {
      TopValid() && ChainStored(disk, levels)
    }

    ghost predicate Full()
      requires levels != []
      reads this
    {
      |levels[|levels| - 1].ids| + 1 == ID_SLOTS
    }

    method PageBringIn(pid: Id, ghost level: Level, ghost prev: Id)
      requires page.Sized() && pid in disk
      modifies page, page.buf
      ensures page.Bytes() == disk[pid]
      ensures Holds(disk[pid], level, prev) ==> page.Valid() && page.Intact() && IsStore(page.view, level, prev)
    {
      ghost var v := page.view;
      if Holds(disk[pid], level, prev) {
        v :| Represents(disk[pid], v) && IsStore(v, level, prev);
      }
      page.Load(disk[pid], v);
    }

    method PageSwapOut()
      requires page.Sized()
      modifies this`disk
      ensures disk == if dirty then old(disk)[Long(page.Bytes(), PAGE_ID) := page.Bytes()] else old(disk)
    {
      if dirty {
        var image := page.Save();
        disk := disk[page.GetLong(PAGE_ID) := image];
      }
    }

    /** Hand out one id. */
    method AllocateOne() returns (id: Id)
      requires TopValid()
      requires levels[|levels| - 1].ids == [] && |levels| > 1 ==> levels[|levels| - 2].pid in disk
      modifies this`counter, this`levels, page, page.buf
      ensures levels == Popped(old(levels))
      ensures Stack(old(levels)) == [] ==> id == old(counter) && counter == (old(counter) + 1) % 0x1_0000_0000
      ensures Stack(old(levels)) != [] ==> id == Topmost(old(levels)) && counter == old(counter)
      ensures old(levels[|levels| - 1].ids == [] && |levels| > 1) ==>
                && page.Bytes() == disk[old(levels[|levels| - 2].pid)]
                && (TopValid() <== Holds(page.Bytes(), levels[|levels| - 1], Prev(levels, |levels| - 1)))
      ensures !old(levels[|levels| - 1].ids == [] && |levels| > 1) ==> TopValid()
      ensures old(Valid()) ==> Valid()
    {
      IdSlots();
      hide MaxEntries, Represents, IsStore, Stack, Encode, Decode, Deleted, Slot, ChainStored, Holds, Fold, Under;
      hide Word, Long;
      ghost var n := |levels| - 1;
      ghost var top, prev := levels[n], Prev(levels, n);
      StoreRecords(page.Bytes(), page.view, top, prev);
      PoppedStack(levels);
      if ChainStored(disk, levels) {
        PoppedStored(disk, levels);
      }
      if page.GetWord(RECORD_NUM) == 1 {
        var tmp := page.ReadByIndex(0);
        DecodeEncode(prev);
        var prevId := if tmp.Some? then Decode(tmp.value) else PAGEIDNULL;
        if prevId == PAGEIDNULL {
          id := counter;
          counter := (counter + 1) % 0x1_0000_0000;
        } else {
          id := page.GetLong(PAGE_ID);
          PageBringIn(prevId, levels[n - 1], Prev(levels, n - 1));
          levels := levels[..n];
        }
      } else {
        var stackTop := page.GetWord(RECORD_NUM) - 1;
        PoppedFromPage(page.view, top, prev);
        var tmp := page.ReadByIndex(stackTop);
        DecodeEncode(top.ids[|top.ids| - 1]);
        id := Decode(tmp.value);
        var _ := page.DeleteByIndex(stackTop);
        levels := Popped(levels);
      }
    }

    /** Take one id back. */
    method FreeOne(id: Id)
      requires TopValid() && id != PAGEIDNULL
      modifies this`disk, this`levels, page, page.buf
      ensures TopValid() && levels == Pushed(old(levels), id)
      ensures !old(Full()) || !dirty ==> disk == old(disk)
      ensures old(Full()) && dirty ==>
                && TopPid(old(levels)) in disk && disk == old(disk)[TopPid(old(levels)) := disk[TopPid(old(levels))]]
                && Stored(disk, old(levels), |old(levels)| - 1)
      ensures old(Valid() && MayGrow(disk, levels, id, dirty)) ==> Valid()
    {
      IdSlots();
      hide MaxEntries, Represents, IsStore, Stack, Encode, AfterInsert, Slot, Fold, ChainStored, MayGrow;
      ghost var n := |levels| - 1;
      ghost var top, prev, s, v := levels[n], Prev(levels, n), page.Bytes(), page.view;
      StoreRecords(s, v, top, prev);
      if !Full() {
        PushedOnPage(v, top, prev, id, s);
      }
      var code := page.Insert(Some(Encode(id)));
      if code == P_ENTRY_PAGEFULL {
        var prevId := page.GetLong(PAGE_ID);
        var _ := page.SetNextPid(id);
        NextIsFree(v, top, prev, id);
        ghost var image := page.Bytes();
        assert Holds(image, top, prev);
        StoreRecords(image, page.view, top, prev);
        PageSwapOut();
        InitStore(page, id, prevId);
      }
      if ChainStored(old(disk), levels) && MayGrow(old(disk), levels, id, dirty) {
        PushedStored(old(disk), disk, levels, id, dirty);
      }
      levels := Pushed(levels, id);
    }

    /** Hand out `n` ids. */
    method AllocatePagesId(n: nat) returns (to: seq<Id>)
      requires Valid()
      modifies this`counter, this`levels, page, page.buf
      ensures Valid() && (to, Stack(levels), counter) == Taken(Stack(old(levels)), old(counter), n)
    {
      hide ChainStored, IsStore, Popped, Topmost, Stack, Taken;
      to := [];
      assert [] + Taken(Stack(levels), counter, n).0 == Taken(Stack(levels), counter, n).0;
      var i := 0;
      while i < n
        invariant i <= n && Valid()
        invariant var done, rest := Taken(Stack(old(levels)), old(counter), n), Taken(Stack(levels), counter, n - i);
                  done.0 == to + rest.0 && done.1 == rest.1 && done.2 == rest.2
        modifies this`counter, this`levels, page, page.buf
      {
        ghost var was := levels;
        PoppedStack(was);
        TakeFirst(to, Stack(was), counter, n - i);
        DiskBelow();
        var id := AllocateOne();
        assert Stack(was) != [] ==> Stack(was)[..|Stack(was)| - 1] == Stack(levels);
        to := to + [id];
        i := i + 1;
      }
      TakeFirst(to, Stack(levels), counter, 0);
    }

    lemma DiskBelow()
      requires Valid()
      ensures |levels| > 1 ==> levels[|levels| - 2].pid in disk
    {
      assert |levels| > 1 ==> Stored(disk, levels, |levels| - 2);
    }

    /** Take ids back that are neither in the stack nor the store's first page,
        while the top page is marked dirty. */
    method FreePagesId(from: seq<Id>)
      requires Valid() && dirty
      requires forall j :: 0 <= j < |from| ==>
                from[j] != PAGEIDNULL && from[j] != levels[0].pid && from[j] !in Stack(levels)
      requires forall j, k :: 0 <= j < k < |from| ==> from[j] != from[k]
      modifies this`disk, this`levels, page, page.buf
      ensures Valid() && Stack(levels) == Stack(old(levels)) + from && levels[0].pid == old(levels)[0].pid
    {
      hide ChainStored, IsStore, Stack, Under, TopValid, Represents;
      TopIs();
      var i := 0;
      while i < |from|
        invariant i <= |from| && Valid() && Stack(levels) == Stack(old(levels)) + from[..i]
        invariant levels != [] && levels[0].pid == old(levels)[0].pid
        modifies this`disk, this`levels, page, page.buf
      {
        forall k | 0 <= k < |levels| ensures levels[k].pid != from[i] {
          if k > 0 {
            PagesAreStacked(levels, k);
          }
        }
        PushedStack(levels, from[i]);
        FreeOne(from[i]);
        assert from[..i] + [from[i]] == from[..i + 1];
        i := i + 1;
      }
      assert from[..|from|] == from;
    }

    /** Freeing an id and allocating at once gives the same id back, across a
        page boundary as well.  The store is as it was exactly when the page that
        was pushed out had been written or was on the disk before. */
    method FreeThenAllocate(id: Id) returns (again: Id)
      requires TopValid() && id != PAGEIDNULL && (Full() && !dirty ==> TopPid(levels) in disk)
      modifies this`disk, this`counter, this`levels, page, page.buf
      ensures again == id && levels == old(levels) && counter == old(counter)
      ensures Holds(page.Bytes(), levels[|levels| - 1], Prev(levels, |levels| - 1))
              <==> !old(Full()) || dirty || Stored(old(disk), levels, |levels| - 1)
    {
      hide ChainStored, IsStore, Stack, MaxEntries, Represents, Fold, MayGrow, Holds, TopValid, Popped, Topmost, Under;
      ghost var was, n := levels, |levels| - 1;
      TopIs();
      PopUndoesPush(levels, id);
      PushedStack(levels, id);
      FreeOne(id);
      again := AllocateOne();
      TopHolds();
    }

    /** The disk gets other contents in places where no page of the chain is. */
    method SetDisk(d: map<Id, Image>)
      requires Valid() && forall k :: 0 <= k < |levels| && levels[k].pid in disk ==>
                levels[k].pid in d && d[levels[k].pid] == disk[levels[k].pid]
      modifies this`disk
      ensures Valid() && disk == d
    {
      hide IsStore, ChainStored, ChecksumHolds, Represents;
      ChainElsewhere(disk, d, levels);
      disk := d;
    }

    lemma TopIs()
      requires TopValid()
      ensures levels != [] && Holds(page.Bytes(), levels[|levels| - 1], Prev(levels, |levels| - 1))
    {
    }

    lemma TopHolds()
      requires levels != [] && page.Sized()
      ensures TopValid() ==> Holds(page.Bytes(), levels[|levels| - 1], Prev(levels, |levels| - 1))
    {
    }
  }

  // ------------------------------------------------------------ over runs

  /** The store as its users see it, with the ids that are in use. */
  datatype Ids = Ids(stack: seq<Id>, counter: nat, live: set<Id>)

  datatype IdStep = Allocate | Free(id: Id)

  const SYSTEM_IDS := 3

  ghost predicate CanStep(s: Ids, st: IdStep) {
    match st
    case Allocate => s.stack == [] ==> s.counter < PAGEIDNULL
    case Free(id) => id in s.live
  }

  ghost function Handed(s: Ids): Id
    requires CanStep(s, Allocate) && s.counter < 0x1_0000_0000
  {
    if s.stack == [] then s.counter else s.stack[|s.stack| - 1]
  }

  ghost function After(s: Ids, st: IdStep): Ids
    requires CanStep(s, st) && s.counter < 0x1_0000_0000
  {
    match st
    case Allocate =>
      if s.stack == [] then Ids([], s.counter + 1, s.live + {Handed(s)})
      else Ids(s.stack[..|s.stack| - 1], s.counter, s.live + {Handed(s)})
    case Free(id) => Ids(s.stack + [id], s.counter, s.live - {id})
  }

  /** The system's ids, the ids in use and the stacked ids are exactly the ids
      below the counter, each in one place. */
  ghost predicate Partition(s: Ids) {
    && SYSTEM_IDS <= s.counter <= PAGEIDNULL
    && (forall j, k :: 0 <= j < k < |s.stack| ==> s.stack[j] != s.stack[k])
    && (forall id: Id :: id in s.live ==> SYSTEM_IDS <= id < s.counter && id !in s.stack)
    && (forall id: Id :: id in s.stack ==> SYSTEM_IDS <= id < s.counter)
    && (forall id: Id :: SYSTEM_IDS <= id < s.counter ==> id in s.live || id in s.stack)
  }

  /** An id that is handed out was not in use, and it is not a system id. */
  lemma NeverHandedOutTwice(s: Ids)
    requires Partition(s) && CanStep(s, Allocate)
    ensures Handed(s) !in s.live && Handed(s) >= SYSTEM_IDS && Handed(s) != PAGEIDNULL
  {
    if s.stack != [] {
      assert s.stack[|s.stack| - 1] in s.stack;
    }
  }

  lemma StepKeepsPartition(s: Ids, st: IdStep)
    requires Partition(s) && CanStep(s, st)
    ensures Partition(After(s, st))
  {
    var t, n := After(s, st), |s.stack| - 1;
    if st.Allocate? && s.stack != [] {
      assert s.stack == t.stack + [s.stack[n]];
      assert s.stack[n] in s.stack;
      forall id: Id | id in t.stack ensures id in s.stack && id != s.stack[n] {
        var k :| 0 <= k < n && t.stack[k] == id;
        assert s.stack[k] == id;
      }
    }
  }

  ghost predicate IdRun(ss: seq<Ids>, ts: seq<IdStep>) {
    && |ss| == |ts| + 1
    && forall i :: 0 <= i < |ts| ==>
        ss[i].counter < 0x1_0000_0000 && CanStep(ss[i], ts[i]) && ss[i + 1] == After(ss[i], ts[i])
  }

  /** Over every run that frees only ids in use. */
  lemma {:induction false} RunKeepsPartition(ss: seq<Ids>, ts: seq<IdStep>, i: nat)
    requires IdRun(ss, ts) && ss[0] == Ids([], SYSTEM_IDS, {}) && i < |ss|
    ensures Partition(ss[i])
  {
    if i > 0 {
      RunKeepsPartition(ss, ts, i - 1);
      StepKeepsPartition(ss[i - 1], ts[i - 1]);
    }
  }
}
