/** What the bytes of a slotted page stand for: a map from positions to entries
    and the list of free positions. */
module PageView {
  import opened Counting
  import opened PageLayout

  datatype Option<T> = None | Some(value: T)

  /** Positions in use with their bytes, the ones marked null, and the free
      positions in the order in which they will be handed out. */
  datatype View = View(pid: Id, next: Id, kind: Half, flags: Half, width: nat,
                       entries: map<nat, seq<Byte>>, nulls: set<nat>, free: seq<nat>)

  ghost predicate Positions(v: View) {
    && v.width <= ENTRY_LIMIT
    && (forall j, k :: 0 <= j < k < |v.free| ==> v.free[j] != v.free[k])
    && (forall k :: 0 <= k < |v.free| ==> v.free[k] < MaxEntries(v.width) && v.free[k] !in v.entries)
    && (forall i: nat :: i < MaxEntries(v.width) && i !in v.free ==> i in v.entries)
    && (forall i: nat :: i in v.entries ==> i < MaxEntries(v.width))
  }

  ghost predicate EntryStored(s: Image, v: View, i: nat) {
    && i < MaxEntries(v.width) && i in v.entries && Entry(s, v.width, i) == v.entries[i]
    && Seated(Slot(s, v.width, i)) && (MarkedNull(Slot(s, v.width, i)) <==> i in v.nulls)
  }

  /** A free slot holds the position of the next free one; the last one holds
      anything that is not a seat. */
  ghost predicate LinkStored(s: Image, v: View, k: nat) {
    && k < |v.free| && v.free[k] < MaxEntries(v.width)
    && Slot(s, v.width, v.free[k]) < 0x2000
    && (k + 1 < |v.free| ==> Slot(s, v.width, v.free[k]) == v.free[k + 1])
  }

  ghost predicate HeaderStored(s: Image, v: View) {
    && Long(s, PAGE_ID) == v.pid && Long(s, NEXT_PAGE_ID) == v.next
    && Word(s, PAGE_TYPE) == v.kind && Word(s, FLAGS) == v.flags && Word(s, DATA_WIDTH) == v.width
    && Word(s, RECORD_NUM) == MaxEntries(v.width) - |v.free|
    && Word(s, FREE_SLOT) == if v.free == [] then PAGE_IS_FULL else v.free[0]
  }

  ghost predicate Represents(s: Image, v: View) {
    && Positions(v) && HeaderStored(s, v)
    && (forall i: nat :: i in v.entries ==> EntryStored(s, v, i))
    && (forall k :: 0 <= k < |v.free| ==> LinkStored(s, v, k))
  }

  // ---------------------------------------------- the operations on a view

  /** A new entry takes the first free position; `None` marks it null and keeps
      the bytes that were there. */
  ghost function Inserted(v: View, bytes: seq<Byte>, isNull: bool): View
    requires v.free != []
  {
    v.(entries := v.entries[v.free[0] := bytes],
       nulls := if isNull then v.nulls + {v.free[0]} else v.nulls - {v.free[0]},
       free := v.free[1..])
  }

  /** What an insert leaves in an entry that held `before`. */
  function Written(before: seq<Byte>, item: Option<seq<Byte>>): seq<Byte> {
    if item.Some? && |item.value| <= |before| then item.value + before[|item.value|..] else before
  }

  /** The bytes in the first free entry, which an insert writes over. */
  ghost function Stale(s: Image, v: View): seq<Byte> {
    if v.free != [] && v.free[0] < MaxEntries(v.width) then Entry(s, v.width, v.free[0]) else []
  }

  ghost function AfterInsert(s: Image, v: View, item: Option<seq<Byte>>): View {
    if v.free == [] then v else Inserted(v, Written(Stale(s, v), item), item.None?)
  }

  ghost function Deleted(v: View, i: nat): View {
    v.(entries := v.entries - {i}, free := [i] + v.free)
  }

  ghost function Updated(v: View, i: nat, bytes: seq<Byte>): View {
    v.(entries := v.entries[i := bytes])
  }

  /** What a position reads. */
  ghost function Reads(v: View, i: nat): Option<seq<Byte>> {
    if i in v.entries then Some(v.entries[i]) else None
  }

  /** After an insert its position reads the item, followed by what stood behind
      it, and is marked null only if there is no item; all others are as before. */
  lemma InsertReads(s: Image, v: View, item: Option<seq<Byte>>)
    requires Represents(s, v) && v.free != [] && (item.Some? ==> |item.value| <= v.width)
    ensures var v', i := AfterInsert(s, v, item), v.free[0];
            && v'.free == v.free[1..] && |Stale(s, v)| == v.width && Reads(v, i).None? && Reads(v', i).Some?
            && |Reads(v', i).value| == v.width
            && (item.Some? ==> item.value <= Reads(v', i).value)
            && (forall k :: (if item.Some? then |item.value| else 0) <= k < v.width ==>
                  Reads(v', i).value[k] == Stale(s, v)[k])
            && (i in v'.nulls <==> item.None?)
            && forall j :: j != i ==> Reads(v', j) == Reads(v, j) && (j in v'.nulls <==> j in v.nulls)
  {
    AreasApart(v.width, v.free[0], v.free[0]);
    assert |Stale(s, v)| == v.width;
    hide MaxEntries, Represents, Stale;
  }

  /** After an update its position reads the new bytes, and nothing else changes. */
  lemma UpdateReads(v: View, i: nat, bytes: seq<Byte>, j: nat)
    requires i in v.entries
    ensures Reads(Updated(v, i, bytes), j) == if j == i then Some(bytes) else Reads(v, j)
    ensures Updated(v, i, bytes) == v.(entries := Updated(v, i, bytes).entries)
  {
  }

  /** After a delete its position reads nothing, and the next insert takes it. */
  lemma DeleteReads(s: Image, v: View, i: nat, item: Option<seq<Byte>>)
    requires i in v.entries
    ensures var v' := Deleted(v, i);
            && Reads(v', i).None? && (forall j :: j != i ==> Reads(v', j) == Reads(v, j))
            && v' == v.(entries := v'.entries, free := v'.free)
            && v'.free != [] && AfterInsert(s, v', item).free == v.free && Reads(AfterInsert(s, v', item), i).Some?
  {
  }

  ghost function Ascending(n: nat): (r: seq<nat>)
    ensures |r| == n && forall i :: 0 <= i < n ==> r[i] == i
    ensures forall i: nat :: i in r <==> i < n
  {
    if n == 0 then [] else Ascending(n - 1) + [n - 1]
  }

  /** The view of a page that has just been set up. */
  ghost function Fresh(width: nat, pid: Id, next: Id): View {
    View(pid, next, 0, 0, width, map[], {}, Ascending(MaxEntries(width)))
  }

  // --------------------------------------------------------------- framing

  /** Everything a view says about position `i` is the same in both images. */
  ghost predicate SamePosition(s: Image, r: Image, width: nat, i: nat)
    requires i < MaxEntries(width)
  {
    Entry(r, width, i) == Entry(s, width, i) && Slot(r, width, i) == Slot(s, width, i)
  }

  /** Past the header, only the slot and the entry of `i` may differ. */
  ghost predicate ElsewhereSame(s: Image, r: Image, width: nat, i: nat) {
    && SameBytes(s, r, DATA, EntryAt(width, i))
    && (forall k :: EntryAt(width, i) + width <= k < SlotAt(i) && k < PAGE_SIZE ==> r[k] == s[k])
    && (forall k :: 0 <= SlotAt(i) + SLOT_SIZE <= k < PAGE_SIZE ==> r[k] == s[k])
  }

  /** Bytes that change in the header, in the slot and in the entry of `i` leave
      every other position alone. */
  lemma OthersKept(s: Image, r: Image, width: nat, i: nat, j: nat)
    requires i < MaxEntries(width) && j < MaxEntries(width) && i != j
    requires ElsewhereSame(s, r, width, i)
    ensures SamePosition(s, r, width, j)
  {
    hide MaxEntries;
    AreasApart(width, i, j);
    AreasApart(width, j, i);
    AreasApart(width, j, j);
    assert forall k :: 0 <= k < width ==> Entry(r, width, j)[k] == Entry(s, width, j)[k];
  }

  // ---------------------------------------------------------- how many are free

  lemma FreeIsBounded(v: View)
    requires Positions(v)
    ensures |v.free| <= MaxEntries(v.width)
  {
    UpToIs(MaxEntries(v.width));
    ElementsAre(v.free);
    SubsetSize(Elements(v.free), UpTo(MaxEntries(v.width)));
  }

  lemma UsedIsNotFree(v: View, i: nat)
    requires Positions(v) && i in v.entries
    ensures |v.free| < MaxEntries(v.width)
  {
    UpToIs(MaxEntries(v.width));
    ElementsAre(v.free);
    assert i in UpTo(MaxEntries(v.width)) && i !in v.free;
    SubsetSize(Elements(v.free) + {i}, UpTo(MaxEntries(v.width)));
  }

  // ---------------------------------------------------------- the free list

  /** Following `n` links from position `first`. */
  ghost function Walk(s: Image, width: nat, first: nat, n: nat): seq<nat>
    decreases n
  {
    if n == 0 || first >= MaxEntries(width) then []
    else [first] + Walk(s, width, SlotValue(Slot(s, width, first)), n - 1)
  }

  lemma {:induction false} WalkFrom(s: Image, v: View, k: nat)
    requires k < |v.free| && forall j :: 0 <= j < |v.free| ==> LinkStored(s, v, j)
    ensures Walk(s, v.width, v.free[k], |v.free| - k) == v.free[k..]
    decreases |v.free| - k
  {
    hide MaxEntries;
    assert LinkStored(s, v, k);
    assert v.free[k..] == [v.free[k]] + v.free[k + 1..];
    if k + 1 < |v.free| {
      WalkFrom(s, v, k + 1);
    }
  }

  /** The seat bit tells whether a position is in use. */
  lemma SeatTells(s: Image, v: View, i: nat)
    requires Represents(s, v) && i < MaxEntries(v.width)
    ensures Seated(Slot(s, v.width, i)) <==> i in v.entries
    ensures i in v.free <==> i !in v.entries
  {
    hide MaxEntries;
    if i in v.free {
      var k :| 0 <= k < |v.free| && v.free[k] == i;
      assert LinkStored(s, v, k);
    } else {
      assert EntryStored(s, v, i);
    }
  }

  /** Following exactly as many links as there are places left visits each
      unseated slot once and no seated one. */
  lemma WalkVisitsTheFree(s: Image, v: View)
    requires Represents(s, v)
    ensures var w := Walk(s, v.width, Word(s, FREE_SLOT), MaxEntries(v.width) - Word(s, RECORD_NUM));
            && |w| == MaxEntries(v.width) - Word(s, RECORD_NUM)
            && (forall j, k :: 0 <= j < k < |w| ==> w[j] != w[k])
            && (forall i: nat :: i < MaxEntries(v.width) ==> (i in w <==> !Seated(Slot(s, v.width, i))))
  {
    hide MaxEntries, Seated;
    if v.free != [] {
      WalkFrom(s, v, 0);
      assert v.free[0..] == v.free;
    }
    forall i: nat | i < MaxEntries(v.width) ensures i in v.free <==> !Seated(Slot(s, v.width, i)) {
      SeatTells(s, v, i);
    }
  }

  // --------------------------------------- what the operations do to bytes

  /** A page whose slots each point to the next one is an empty page. */
  lemma FreshRepresents(s: Image, width: nat, pid: Id, next: Id)
    requires width <= ENTRY_LIMIT && Long(s, PAGE_ID) == pid && Long(s, NEXT_PAGE_ID) == next
    requires Word(s, PAGE_TYPE) == Word(s, FLAGS) == Word(s, RECORD_NUM) == Word(s, FREE_SLOT) == 0
    requires Word(s, DATA_WIDTH) == width
    requires forall i: nat :: i < MaxEntries(width) ==>
              Slot(s, width, i) == if i + 1 < MaxEntries(width) then i + 1 else 0
    ensures Represents(s, Fresh(width, pid, next))
  {
    FewEntries(width);
    AtLeastOne(width);
    hide MaxEntries, Ascending;
    var v := Fresh(width, pid, next);
    assert |v.free| == MaxEntries(width) && v.free[0] == 0;
    forall k | 0 <= k < |v.free| ensures LinkStored(s, v, k) {
      assert v.free[k] == k;
    }
    assert HeaderStored(s, v);
    assert Positions(v);
  }

  /** The free-slot field says whether there is a free position. */
  lemma FreeSlotTells(s: Image, v: View)
    requires Represents(s, v)
    ensures Word(s, FREE_SLOT) == PAGE_IS_FULL <==> v.free == []
    ensures v.free != [] ==> Word(s, FREE_SLOT) == v.free[0] < MaxEntries(v.width)
    ensures v.free == [] <==> Word(s, RECORD_NUM) == MaxEntries(v.width)
  {
    FewEntries(v.width);
    hide MaxEntries;
  }

  /** The header an insert leaves: the page is marked full exactly when the last
      free position has been taken. */
  lemma InsertHeader(s: Image, r: Image, v: View, bytes: seq<Byte>, isNull: bool, full: bool)
    requires Represents(s, v) && v.free != []
    requires SameBytes(s, r, NEXT_PAGE_ID, RECORD_NUM) && SameBytes(s, r, DATA_WIDTH, FREE_SLOT)
    requires SameBytes(s, r, PAGE_TYPE, DATA)
    requires Word(r, RECORD_NUM) == Word(s, RECORD_NUM) + 1
    requires full <==> IsPageFull(v.width, Word(r, RECORD_NUM))
    requires var slot := Slot(s, v.width, v.free[0]);
             Slot(r, v.width, v.free[0]) == SetSeat(if isNull then SetNull(slot) else slot)
    requires Word(r, FREE_SLOT) == if full then PAGE_IS_FULL else SlotValue(Slot(r, v.width, v.free[0]))
    ensures HeaderStored(r, Inserted(v, bytes, isNull))
  {
    FullAtTheMaximum(v.width, Word(r, RECORD_NUM));
    hide MaxEntries, IsPageFull, Seated, MarkedNull, SetSeat, SetNull, SlotValue;
    assert LinkStored(s, v, 0);
    SlotBits(Slot(s, v.width, v.free[0]));
  }

  /** `r` is `s` with a new entry in the first free position. */
  lemma InsertRepresents(s: Image, r: Image, v: View, bytes: seq<Byte>, isNull: bool)
    requires Represents(s, v) && v.free != [] && |bytes| == v.width
    requires var i := v.free[0];
             && Entry(r, v.width, i) == bytes
             && Slot(r, v.width, i) == SetSeat(if isNull then SetNull(Slot(s, v.width, i)) else Slot(s, v.width, i))
             && ElsewhereSame(s, r, v.width, i)
    requires HeaderStored(r, Inserted(v, bytes, isNull))
    ensures Represents(r, Inserted(v, bytes, isNull))
  {
    hide MaxEntries, Seated, MarkedNull, SetSeat, SetNull;
    var i, v' := v.free[0], Inserted(v, bytes, isNull);
    assert LinkStored(s, v, 0);
    SlotBits(Slot(s, v.width, i));
    forall j | j in v'.entries ensures EntryStored(r, v', j) {
      if j != i {
        OthersKept(s, r, v.width, i, j);
        assert EntryStored(s, v, j);
      }
    }
    forall k | 0 <= k < |v'.free| ensures LinkStored(r, v', k) {
      assert LinkStored(s, v, k + 1);
      OthersKept(s, r, v.width, i, v.free[k + 1]);
    }
  }

  lemma DeleteLinks(s: Image, r: Image, v: View, i: nat, k: nat)
    requires Represents(s, v) && i in v.entries && k <= |v.free|
    requires Slot(r, v.width, i) == if v.free == [] then SLOT_NULL else v.free[0]
    requires ElsewhereSame(s, r, v.width, i)
    ensures LinkStored(r, Deleted(v, i), k)
  {
    FewEntries(v.width);
    hide MaxEntries, HeaderStored;
    if k > 0 {
      assert LinkStored(s, v, k - 1);
      OthersKept(s, r, v.width, i, v.free[k - 1]);
    } else if v.free != [] {
      assert LinkStored(s, v, 0);
    }
  }

  /** `r` is `s` with position `i` given back. */
  lemma DeleteRepresents(s: Image, r: Image, v: View, i: nat)
    requires Represents(s, v) && i in v.entries
    requires Slot(r, v.width, i) == if v.free == [] then SLOT_NULL else v.free[0]
    requires ElsewhereSame(s, r, v.width, i) && HeaderStored(r, Deleted(v, i))
    ensures Represents(r, Deleted(v, i))
  {
    hide MaxEntries, Seated, MarkedNull, HeaderStored;
    var v' := Deleted(v, i);
    forall j | j in v'.entries ensures EntryStored(r, v', j) {
      OthersKept(s, r, v.width, i, j);
      assert EntryStored(s, v, j);
    }
    forall k | 0 <= k < |v'.free| ensures LinkStored(r, v', k) {
      DeleteLinks(s, r, v, i, k);
    }
    assert i !in v.free;
  }

  /** `r` is `s` with other bytes in position `i`. */
  lemma UpdateRepresents(s: Image, r: Image, v: View, i: nat, bytes: seq<Byte>)
    requires Represents(s, v) && i in v.entries && |bytes| == v.width
    requires Entry(r, v.width, i) == bytes
    requires ElsewhereSame(s, r, v.width, i) && SameBytes(s, r, NEXT_PAGE_ID, DATA)
    requires Slot(r, v.width, i) == Slot(s, v.width, i)
    ensures Represents(r, Updated(v, i, bytes))
  {
    hide MaxEntries;
    var v' := Updated(v, i, bytes);
    AreasApart(v.width, i, i);
    forall j | j in v'.entries ensures EntryStored(r, v', j) {
      assert EntryStored(s, v, j);
      AreasApart(v.width, i, j);
      if j != i {
        OthersKept(s, r, v.width, i, j);
      }
    }
    forall k | 0 <= k < |v'.free| ensures LinkStored(r, v', k) {
      assert LinkStored(s, v, k) && v.free[k] in v.free;
      OthersKept(s, r, v.width, i, v.free[k]);
    }
  }

  /** A change of the header fields that a view does not fix elsewhere. */
  lemma HeaderRepresents(s: Image, r: Image, v: View, v': View)
    requires Represents(s, v) && HeaderStored(r, v') && SameBytes(s, r, DATA, PAGE_SIZE)
    requires v' == v.(pid := v'.pid, next := v'.next, kind := v'.kind, flags := v'.flags)
    ensures Represents(r, v')
  {
    hide MaxEntries;
    forall i: nat | i < MaxEntries(v.width) ensures SamePosition(s, r, v.width, i) {
      AreasApart(v.width, i, i);
    }
    forall i | i in v'.entries ensures EntryStored(r, v', i) {
      assert EntryStored(s, v, i) && SamePosition(s, r, v.width, i);
    }
    forall k | 0 <= k < |v'.free| ensures LinkStored(r, v', k) {
      assert LinkStored(s, v, k) && v.free[k] in v.free && SamePosition(s, r, v.width, v.free[k]);
    }
  }
}
