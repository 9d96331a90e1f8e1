/** The page as the program handles it: a buffer of 4096 bytes changed in place.
    Bytes are read and written where the program does it, and the checksum is
    recomputed where it recomputes it; `PageView` says what the bytes stand for. */
module SlottedPage {
  import opened Bits
  import opened PageLayout
  import opened PageView

  const P_ENTRY_PAGEFULL := 0xffff
  const P_ENTRY_CHECKSUMERROR := 0xefff
  const P_ENTRY_ITEMNOTFOUND := 0xdfff
  const P_ENTRY_ACCEPT := 0xcfff

  /** The stores of an insert, one after the other, into the entry at `e` and
      the slot at `a`. */
  ghost predicate InsertStores(s: Image, s1: Image, s2: Image, s3: Image, s4: Image, r: Image,
                               e: nat, a: nat, item: Option<seq<Byte>>, full: bool) {
    && a + 2 <= PAGE_SIZE && (item.Some? ==> e + |item.value| <= PAGE_SIZE)
    && s1 == (if item.Some? then PutBytes(s, e, item.value) else PutWord(s, a, SetNull(Word(s, a))))
    && Word(s1, RECORD_NUM) < 0xffff && s2 == PutWord(s1, RECORD_NUM, Word(s1, RECORD_NUM) + 1)
    && s3 == PutWord(s2, a, SetSeat(Word(s2, a)))
    && s4 == PutWord(s3, FREE_SLOT, if full then PAGE_IS_FULL else SlotValue(Word(s3, a)))
    && r == Sealed(s4)
  }

  lemma InsertedBytes(s: Image, s1: Image, s2: Image, s3: Image, s4: Image, r: Image, e: nat, a: nat, w: nat,
      item: Option<seq<Byte>>, full: bool)
    requires InsertStores(s, s1, s2, s3, s4, r, e, a, item, full)
    requires DATA <= e && e + w <= a && (item.Some? ==> |item.value| <= w)
    ensures r[e..e + w] == Written(s[e..e + w], item)
    ensures Word(r, a) == SetSeat(if item.None? then SetNull(Word(s, a)) else Word(s, a))
    ensures Word(r, RECORD_NUM) == Word(s, RECORD_NUM) + 1
    ensures Word(r, FREE_SLOT) == if full then PAGE_IS_FULL else SlotValue(Word(r, a))
    ensures SameBytes(s, r, NEXT_PAGE_ID, RECORD_NUM) && SameBytes(s, r, DATA_WIDTH, FREE_SLOT)
    ensures SameBytes(s, r, PAGE_TYPE, e)
    ensures SameBytes(s, r, e + w, a) && SameBytes(s, r, a + 2, PAGE_SIZE)
    ensures ChecksumHolds(r)
  {
    hide SetSeat, SetNull, SlotValue, Fold, PutWord, PutBytes;
    SealHolds(s4);
    var x := Written(s[e..e + w], item);
    assert |x| == w;
    forall k | 0 <= k < w ensures r[e + k] == x[k] {
      if item.Some? && k < |item.value| {
        assert s1[e..e + |item.value|][k] == item.value[k];
      }
    }
  }

  /** The width and the count that the test for a full page looks at. */
  lemma ThreeStores(s: Image, s1: Image, s2: Image, s3: Image, s4: Image, r: Image, e: nat, a: nat, w: nat,
      item: Option<seq<Byte>>, full: bool)
    requires InsertStores(s, s1, s2, s3, s4, r, e, a, item, full)
    requires DATA <= e && e + w <= a && (item.Some? ==> |item.value| <= w)
    ensures Word(s3, DATA_WIDTH) == Word(s, DATA_WIDTH) && Word(s3, RECORD_NUM) == Word(s, RECORD_NUM) + 1
  {
    hide SetSeat, SetNull, SlotValue, Fold, PutWord, PutBytes;
  }

  lemma DeletedBytes(s: Image, s1: Image, s2: Image, s3: Image, s4: Image, r: Image, a: nat, first: Half, link: Half,
      index: Half)
    requires DATA <= a && a + 2 <= PAGE_SIZE && s1 == PutWord(s, a, first) && s2 == PutWord(s1, a, link)
    requires s3 == PutWord(s2, FREE_SLOT, index) && Word(s3, RECORD_NUM) > 0
    requires s4 == PutWord(s3, RECORD_NUM, Word(s3, RECORD_NUM) - 1) && r == Sealed(s4)
    ensures Word(r, a) == link && Word(r, FREE_SLOT) == index && Word(r, RECORD_NUM) == Word(s, RECORD_NUM) - 1
    ensures SameBytes(s, r, NEXT_PAGE_ID, RECORD_NUM) && SameBytes(s, r, DATA_WIDTH, FREE_SLOT)
    ensures SameBytes(s, r, PAGE_TYPE, a)
    ensures SameBytes(s, r, a + 2, PAGE_SIZE) && ChecksumHolds(r)
  {
    hide Fold;
    SealHolds(s4);
  }

  /** The stores of a delete do what a delete does to the view. */
  lemma Deletes(s: Image, s1: Image, s2: Image, s3: Image, s4: Image, r: Image, v: View, index: nat, first: Half)
    requires Represents(s, v) && index in v.entries && SlotAt(index) >= DATA && index < 0x1_0000
    requires s1 == PutWord(s, SlotAt(index), first)
    requires var next := if Word(s1, FREE_SLOT) == PAGE_IS_FULL then SLOT_NULL else Word(s1, FREE_SLOT);
             s2 == PutWord(s1, SlotAt(index), next)
    requires s3 == PutWord(s2, FREE_SLOT, index) && Word(s3, RECORD_NUM) > 0
    requires s4 == PutWord(s3, RECORD_NUM, Word(s3, RECORD_NUM) - 1) && r == Sealed(s4)
    ensures Represents(r, Deleted(v, index)) && ChecksumHolds(r)
  {
    hide MaxEntries, Fold, Seated, MarkedNull;
    var a := SlotAt(index);
    assert index < MaxEntries(v.width);
    AreasApart(v.width, index, index);
    FreeSlotTells(s, v);
    assert Word(s1, FREE_SLOT) == Word(s, FREE_SLOT);
    DeletedBytes(s, s1, s2, s3, s4, r, a, first, Word(s2, a), index);
    assert HeaderStored(r, Deleted(v, index));
    DeleteRepresents(s, r, v, index);
  }

  /** Writing an entry and sealing the page changes that entry only. */
  lemma Updates(s: Image, s1: Image, r: Image, v: View, index: nat, bytes: seq<Byte>)
    requires Represents(s, v) && index in v.entries && |bytes| == v.width
    requires EntryAt(v.width, index) + v.width <= PAGE_SIZE && s1 == PutBytes(s, EntryAt(v.width, index), bytes)
    requires r == Sealed(s1)
    ensures Represents(r, Updated(v, index, bytes)) && ChecksumHolds(r)
  {
    hide MaxEntries, Fold, Seated, MarkedNull;
    var e := EntryAt(v.width, index);
    AreasApart(v.width, index, index);
    SealHolds(s1);
    forall k | 0 <= k < v.width ensures r[e + k] == bytes[k] {
      assert s1[e..e + |bytes|][k] == bytes[k];
    }
    assert Entry(r, v.width, index) == bytes;
    UpdateRepresents(s, r, v, index, bytes);
  }

  /** A used position has a slot past the header and an entry before it. */
  lemma RoomUsed(s: Image, v: View, i: nat)
    requires Represents(s, v) && i < MaxEntries(v.width)
    ensures Word(s, DATA_WIDTH) == v.width && i < 0x8000
    ensures DATA <= EntryAt(v.width, i) && EntryAt(v.width, i) + v.width <= SlotAt(i) && SlotAt(i) + 2 <= PAGE_SIZE
    ensures i in v.entries ==> Word(s, RECORD_NUM) > 0
  {
    FewEntries(v.width);
    AreasApart(v.width, i, i);
    FreeIsBounded(v);
    if i in v.entries {
      UsedIsNotFree(v, i);
    }
  }

  /** A free position has room for an entry and a slot. */
  lemma Room(s: Image, v: View)
    requires Represents(s, v) && v.free != []
    ensures var i := v.free[0];
            && Word(s, DATA_WIDTH) == v.width && Word(s, FREE_SLOT) == i && 0 <= Word(s, RECORD_NUM) < 0xffff
            && DATA <= EntryAt(v.width, i) && EntryAt(v.width, i) + v.width <= SlotAt(i) && SlotAt(i) + 2 <= PAGE_SIZE
  {
    FewEntries(v.width);
    AreasApart(v.width, v.free[0], v.free[0]);
  }

  /** The stores of an insert, seen at the first free position. */
  lemma StoresAt(s: Image, s1: Image, s2: Image, s3: Image, s4: Image, r: Image, v: View, item: Option<seq<Byte>>,
      full: bool)
    requires v.free != [] && v.free[0] < MaxEntries(v.width) && (item.Some? ==> |item.value| <= v.width)
    requires Word(s, DATA_WIDTH) == v.width
    requires SlotAt(v.free[0]) >= 0
    requires InsertStores(s, s1, s2, s3, s4, r, EntryAt(v.width, v.free[0]), SlotAt(v.free[0]), item, full)
    requires full <==> IsPageFull(Word(s3, DATA_WIDTH), Word(s3, RECORD_NUM))
    ensures var i, w := v.free[0], v.width;
            && Entry(r, w, i) == Written(Stale(s, v), item) && |Entry(r, w, i)| == w && ElsewhereSame(s, r, w, i)
            && Slot(r, w, i) == SetSeat(if item.None? then SetNull(Slot(s, w, i)) else Slot(s, w, i))
            && SameBytes(s, r, NEXT_PAGE_ID, RECORD_NUM) && SameBytes(s, r, DATA_WIDTH, FREE_SLOT)
            && SameBytes(s, r, PAGE_TYPE, DATA)
            && Word(r, RECORD_NUM) == Word(s, RECORD_NUM) + 1 && (full <==> IsPageFull(w, Word(r, RECORD_NUM)))
            && Word(r, FREE_SLOT) == (if full then PAGE_IS_FULL else SlotValue(Slot(r, w, i)))
            && ChecksumHolds(r)
  {
    hide EntryAt, SlotAt, MaxEntries, IsPageFull, SetSeat, SetNull, SlotValue, Fold, InsertStores, PutWord;
    hide PutBytes, Word, Written;
    var i, w := v.free[0], v.width;
    var e, a := EntryAt(w, i), SlotAt(i);
    AreasApart(w, i, i);
    ThreeStores(s, s1, s2, s3, s4, r, e, a, w, item, full);
    InsertedBytes(s, s1, s2, s3, s4, r, e, a, w, item, full);
  }

  /** The stores of an insert do what an insert does to the view. */
  lemma Inserts(s: Image, s1: Image, s2: Image, s3: Image, s4: Image, r: Image, v: View, item: Option<seq<Byte>>,
      full: bool)
    requires Represents(s, v) && v.free != [] && (item.Some? ==> |item.value| <= v.width)
    requires SlotAt(v.free[0]) >= 0
    requires InsertStores(s, s1, s2, s3, s4, r, EntryAt(v.width, v.free[0]), SlotAt(v.free[0]), item, full)
    requires full <==> IsPageFull(Word(s3, DATA_WIDTH), Word(s3, RECORD_NUM))
    ensures Represents(r, AfterInsert(s, v, item)) && ChecksumHolds(r)
  {
    StoresAt(s, s1, s2, s3, s4, r, v, item, full);
    hide Represents, IsPageFull, Word, Slot, Entry, Written, Stale, InsertStores, HeaderStored, SetSeat, SetNull;
    hide SlotValue, MaxEntries;
    InsertHeader(s, r, v, Written(Stale(s, v), item), item.None?, full);
    InsertRepresents(s, r, v, Written(Stale(s, v), item), item.None?);
  }

  class Page {
    const buf: array<Byte>
    ghost var view: View

    constructor ()
      ensures Sized() && fresh(buf)
    {
      buf := new Byte[PAGE_SIZE](_ => 0);
      view := Fresh(0, 0, 0);
    }

    ghost predicate Sized() { buf.Length == PAGE_SIZE }

    ghost function Bytes(): Image
      requires Sized()
      reads buf
    {
      buf[..]
    }

    /** The bytes stand for the view. */
    ghost predicate Valid()
      reads this, buf
    {
      Sized() && Represents(Bytes(), view)
    }

    ghost predicate Intact()
      requires Sized()
      reads buf
    {
      ChecksumHolds(Bytes())
    }

    function GetWord(at: nat): (h: Half)
      requires Sized() && at + 2 <= PAGE_SIZE
      reads buf
      ensures h == Word(Bytes(), at)
    {
      var low: int, high: int := buf[at], buf[at + 1];
      low + 256 * high
    }

    method SetWord(at: nat, h: Half)
      requires Sized() && at + 2 <= PAGE_SIZE
      modifies buf
      ensures Bytes() == PutWord(old(Bytes()), at, h)
    {
      buf[at] := h % 256;
      buf[at + 1] := h / 256;
    }

    method MemCopy(at: nat, item: seq<Byte>)
      requires Sized() && at + |item| <= PAGE_SIZE
      modifies buf
      ensures Bytes() == PutBytes(old(Bytes()), at, item)
    {
      var k := 0;
      while k < |item|
        invariant k <= |item|
        invariant forall j :: 0 <= j < PAGE_SIZE ==> buf[j] == if at <= j < at + k then item[j - at] else old(buf[j])
      {
        buf[at + k] := item[k];
        k := k + 1;
      }
    }

    method CalculateChecksum() returns (v: Half)
      requires Sized()
      ensures v == Fold(Bytes(), LAST_WORD)
    {
      v := 0;
      var i := 1;
      while i <= LAST_WORD
        invariant 1 <= i <= LAST_WORD + 1 && v == Fold(Bytes(), i - 1)
      {
        XorBound(v, GetWord(2 * i), 16);
        Pow2Words();
        v := Xor(v, GetWord(2 * i), 16);
        i := i + 1;
      }
    }

    method UpdateChecksum()
      requires Sized()
      modifies buf
      ensures Bytes() == Sealed(old(Bytes()))
    {
      var v := CalculateChecksum();
      SetWord(CHECKSUM, v);
    }

    method ExamineChecksum() returns (ok: bool)
      requires Sized()
      ensures ok == Intact()
    {
      var v := CalculateChecksum();
      ok := GetWord(CHECKSUM) == v;
    }

    method Clear()
      requires Sized()
      modifies buf
      ensures forall j :: 0 <= j < PAGE_SIZE ==> Bytes()[j] == 0
    {
      var k := 0;
      while k < PAGE_SIZE
        invariant k <= PAGE_SIZE && forall j :: 0 <= j < k ==> buf[j] == 0
      {
        buf[k] := 0;
        k := k + 1;
      }
    }

    method SetLong(at: nat, d: Id)
      requires Sized() && at + 4 <= PAGE_SIZE
      modifies buf
      ensures Long(Bytes(), at) == d
      ensures SameBytes(old(Bytes()), Bytes(), 0, at) && SameBytes(old(Bytes()), Bytes(), at + 4, PAGE_SIZE)
    {
      SetWord(at, d % 0x1_0000);
      SetWord(at + 2, d / 0x1_0000);
    }

    /** Chain all slots of a cleared page. */
    method ChainSlots(width: nat)
      requires Sized() && forall k :: DATA <= k < PAGE_SIZE ==> Bytes()[k] == 0
      modifies buf
      ensures SameBytes(old(Bytes()), Bytes(), 0, DATA)
      ensures forall i: nat :: i < MaxEntries(width) ==>
                Slot(Bytes(), width, i) == if i + 1 < MaxEntries(width) then i + 1 else 0
    {
      hide MaxEntries;
      var loop: int := MaxEntries(width);
      FewEntries(width);
      ghost var start := Bytes();
      var i := 0;
      while i < loop - 1
        invariant 0 <= i && (i == 0 || i <= loop - 1)
        invariant SameBytes(start, Bytes(), 0, DATA)
        invariant forall k :: DATA <= k <= SlotAt(i) + 1 ==> Bytes()[k] == 0
        invariant forall j :: 0 <= j < i ==> Word(Bytes(), SlotAt(j)) == j + 1
      {
        SetWord(SlotAt(i), i + 1);
        i := i + 1;
      }
    }

    /** Set the page up empty: every slot points to the next one. */
    method Init(width: nat, id: Id, next: Id)
      requires Sized() && width <= ENTRY_LIMIT
      modifies this, buf
      ensures Valid() && view == Fresh(width, id, next) && Intact()
    {
      hide MaxEntries, Fold;
      Clear();
      SetLong(PAGE_ID, id);
      SetLong(NEXT_PAGE_ID, next);
      SetWord(DATA_WIDTH, width);
      ChainSlots(width);
      ghost var s := Bytes();
      UpdateChecksum();
      SealHolds(s);
      view := Fresh(width, id, next);
      forall i: nat | i < MaxEntries(width) ensures Slot(Bytes(), width, i) == Slot(s, width, i) {
        AreasApart(width, i, i);
      }
      FreshRepresents(Bytes(), width, id, next);
    }

    function NotSeated(index: nat): (r: bool)
      requires Valid() && index < MaxEntries(view.width)
      reads this, buf
      ensures r <==> index !in view.entries
    {
      AreasApart(view.width, index, index);
      SeatTells(Bytes(), view, index);
      !Seated(GetWord(SlotAt(index)))
    }

    /** The first free position gets the item, or a null mark when there is none. */
    method Insert(item: Option<seq<Byte>>) returns (position: Half)
      requires Valid() && (item.Some? ==> |item.value| <= view.width)
      modifies this, buf
      ensures Valid()
      ensures old(view.free) == [] ==> position == P_ENTRY_PAGEFULL && Bytes() == old(Bytes()) && view == old(view)
      ensures old(view.free) != [] && !old(Intact()) ==>
                position == P_ENTRY_CHECKSUMERROR && Bytes() == old(Bytes()) && view == old(view)
      ensures old(view.free) != [] && old(Intact()) ==>
                position == old(view.free)[0] && Intact() && view == old(AfterInsert(Bytes(), view, item))
    {
      hide MaxEntries, IsPageFull, SetSeat, SetNull, SlotValue, Fold, Represents, Inserted, Written, Entry, Slot;
      hide PutWord, PutBytes, Sealed, AfterInsert;
      ghost var v, s := view, Bytes();
      FreeSlotTells(s, v);
      if GetWord(FREE_SLOT) == PAGE_IS_FULL {
        return P_ENTRY_PAGEFULL;
      }
      var ok := ExamineChecksum();
      if !ok {
        return P_ENTRY_CHECKSUMERROR;
      }
      position := GetWord(FREE_SLOT);
      var e, a := EntryAt(GetWord(DATA_WIDTH), position), SlotAt(position);
      Room(s, v);
      if item.Some? {
        MemCopy(e, item.value);
      } else {
        SetWord(a, SetNull(GetWord(a)));
      }
      ghost var s1 := Bytes();
      SetWord(RECORD_NUM, GetWord(RECORD_NUM) + 1);
      ghost var s2 := Bytes();
      SetWord(a, SetSeat(GetWord(a)));
      ghost var s3 := Bytes();
      ghost var full := IsPageFull(Word(s3, DATA_WIDTH), Word(s3, RECORD_NUM));
      if IsPageFull(GetWord(DATA_WIDTH), GetWord(RECORD_NUM)) {
        SetWord(FREE_SLOT, PAGE_IS_FULL);
      } else {
        SetWord(FREE_SLOT, SlotValue(GetWord(a)));
      }
      ghost var s4 := Bytes();
      UpdateChecksum();
      Inserts(s, s1, s2, s3, s4, Bytes(), v, item, full);
      view := AfterInsert(s, v, item);
    }

    /** Give a used position back; it becomes the first free one. */
    method DeleteByIndex(index: nat) returns (code: Half)
      requires Valid() && index < MaxEntries(view.width)
      modifies this, buf
      ensures Valid()
      ensures !old(Intact()) ==> code == P_ENTRY_CHECKSUMERROR && Bytes() == old(Bytes()) && view == old(view)
      ensures old(Intact()) && index !in old(view.entries) ==>
                code == P_ENTRY_ITEMNOTFOUND && Bytes() == old(Bytes()) && view == old(view)
      ensures old(Intact()) && index in old(view.entries) ==>
                code == P_ENTRY_ACCEPT && Intact() && view == Deleted(old(view), index)
    {
      hide MaxEntries, Fold, Represents, Deleted, PutWord, Sealed, Slot;
      ghost var v, s := view, Bytes();
      var ok := ExamineChecksum();
      if !ok {
        return P_ENTRY_CHECKSUMERROR;
      }
      if NotSeated(index) {
        return P_ENTRY_ITEMNOTFOUND;
      }
      RoomUsed(s, v, index);
      var a := SlotAt(index);
      var slot := GetWord(a);
      SetWord(a, if Seated(slot) then slot - 0x4000 else slot);
      ghost var s1 := Bytes();
      SetWord(a, if GetWord(FREE_SLOT) == PAGE_IS_FULL then SLOT_NULL else GetWord(FREE_SLOT));
      ghost var s2 := Bytes();
      SetWord(FREE_SLOT, index);
      ghost var s3 := Bytes();
      assert Word(s3, RECORD_NUM) == Word(s, RECORD_NUM);
      SetWord(RECORD_NUM, GetWord(RECORD_NUM) - 1);
      ghost var s4 := Bytes();
      UpdateChecksum();
      view := Deleted(v, index);
      Deletes(s, s1, s2, s3, s4, Bytes(), v, index, Word(s1, a));
      code := P_ENTRY_ACCEPT;
    }

    /** Write other bytes into a used position. */
    method UpdateByIndex(item: seq<Byte>, index: nat) returns (code: Half)
      requires Valid() && index < MaxEntries(view.width) && |item| == view.width
      modifies this, buf
      ensures Valid()
      ensures !old(Intact()) ==> code == P_ENTRY_CHECKSUMERROR && Bytes() == old(Bytes()) && view == old(view)
      ensures old(Intact()) && index !in old(view.entries) ==>
                code == P_ENTRY_ITEMNOTFOUND && Bytes() == old(Bytes()) && view == old(view)
      ensures old(Intact()) && index in old(view.entries) ==>
                code == P_ENTRY_ACCEPT && Intact() && view == Updated(old(view), index, item)
    {
      hide MaxEntries, Fold, Represents, Updated, PutBytes, Sealed, Slot;
      ghost var v, s := view, Bytes();
      var ok := ExamineChecksum();
      if !ok {
        return P_ENTRY_CHECKSUMERROR;
      }
      if NotSeated(index) {
        return P_ENTRY_ITEMNOTFOUND;
      }
      RoomUsed(s, v, index);
      MemCopy(EntryAt(GetWord(DATA_WIDTH), index), item);
      ghost var s1 := Bytes();
      UpdateChecksum();
      view := Updated(v, index, item);
      Updates(s, s1, Bytes(), v, index, item);
      code := P_ENTRY_ACCEPT;
    }

    /** The bytes of a used position, or nothing. */
    method ReadByIndex(index: nat) returns (item: Option<seq<Byte>>)
      requires Valid() && index < MaxEntries(view.width)
      ensures item == if index in view.entries then Some(view.entries[index]) else None
    {
      hide MaxEntries, Slot;
      RoomUsed(Bytes(), view, index);
      if NotSeated(index) {
        return None;
      }
      assert EntryStored(Bytes(), view, index);
      var e, w := EntryAt(GetWord(DATA_WIDTH), index), GetWord(DATA_WIDTH);
      item := Some(buf[e..e + w]);
    }

    /** Link the page to the next one. */
    method SetNextPid(next: Id) returns (code: Half)
      requires Valid()
      modifies this, buf
      ensures Valid()
      ensures !old(Intact()) ==> code == P_ENTRY_CHECKSUMERROR && Bytes() == old(Bytes()) && view == old(view)
      ensures old(Intact()) ==> code == P_ENTRY_ACCEPT && Intact() && view == old(view).(next := next)
    {
      hide MaxEntries, Fold, PutWord;
      ghost var v, s := view, Bytes();
      var ok := ExamineChecksum();
      if !ok {
        return P_ENTRY_CHECKSUMERROR;
      }
      SetLong(NEXT_PAGE_ID, next);
      SealHolds(Bytes());
      UpdateChecksum();
      view := v.(next := next);
      HeaderRepresents(s, Bytes(), v, view);
      code := P_ENTRY_ACCEPT;
    }

    method SetPageType(kind: Half)
      requires Valid()
      modifies this, buf
      ensures Valid() && Intact() && view == old(view).(kind := kind)
    {
      hide MaxEntries, Fold, PutWord;
      ghost var v, s := view, Bytes();
      SetWord(PAGE_TYPE, kind);
      SealHolds(Bytes());
      UpdateChecksum();
      view := v.(kind := kind);
      HeaderRepresents(s, Bytes(), v, view);
    }

    function GetLong(at: nat): (d: Id)
      requires Sized() && at + 4 <= PAGE_SIZE
      reads buf
      ensures d == Long(Bytes(), at)
    {
      GetWord(at) + 0x1_0000 * GetWord(at + 2)
    }

    /** Read a whole page in, for what it stands for. */
    method Load(image: Image, ghost v: View)
      requires Sized()
      modifies this, buf
      ensures Bytes() == image && view == v
    {
      MemCopy(0, image);
      view := v;
    }

    /** A copy of the bytes, as they are written to the disk. */
    method Save() returns (image: Image)
      requires Sized()
      ensures image == Bytes()
    {
      image := buf[..];
    }
  }
}
