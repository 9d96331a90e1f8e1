/** The leaf page of the B-link index, changed in place. */
module LeafPage {
  import opened BlinkPage

  const ZEROED := Rec(0, [])

  /** Cell `i` of `data` stands for the record in bytes `i * width` to
      `(i + 1) * width`.  The search loops of the program may look one record past
      the last one before a second test makes that look irrelevant; here the
      second test guards the look. */
  class LeafPage {
    const data: array<Rec>
    var records: nat
    var upbound: Word
    ghost var content: seq<Rec>

    ghost predicate Valid()
      reads this, data
    {
      && records == |content| <= data.Length
      && data[..records] == content
      && Sorted(content)
    }

    constructor (capacity: nat)
      ensures Valid() && fresh(data) && data.Length == capacity && content == [] && upbound == PAGE_ID_NULL
    {
      data := new Rec[capacity](i => ZEROED);
      records := 0;
      upbound := PAGE_ID_NULL;
      content := [];
    }

    /** The binary search for the record with `key`. */
    method Scan(key: Word) returns (found: bool, index: nat)
      requires Valid()
      ensures found <==> HasKey(content, key)
      ensures found ==> index < records && data[index].key == key
    {
      if records == 0 || key > data[records - 1].key || key < data[0].key {
        return false, 0;
      }
      var upper, lower := records, 0;
      while true
        invariant 0 <= lower < upper <= records
        invariant content[lower].key <= key
        invariant upper == records || key < content[upper].key
        decreases upper - lower
      {
        index := (upper + lower) / 2;
        assert content[index].key <= content[records - 1].key;
        if data[index].key == key {
          return true, index;
        }
        if index + 1 < records && key < data[index + 1].key && key > data[index].key {
          assert forall j :: 0 <= j <= index ==> content[j].key <= content[index].key;
          assert forall j :: index < j < records ==> content[index + 1].key <= content[j].key;
          return false, 0;
        }
        if data[index].key > key {
          upper := index;
        } else {
          assert index < records - 1;
          lower := index;
        }
      }
    }

    /** The cell where a new record goes, or the news that its key is there. */
    method Locate(key: Word) returns (dup: bool, index: nat)
      requires Valid()
      ensures index <= records && index == Rank(KeysOf(content), key)
      ensures dup <==> HasKey(content, key)
    {
      if records == 0 {
        return false, 0;
      }
      if key > data[records - 1].key {
        SlotIs(content, key, records);
        return false, records;
      }
      if key < data[0].key {
        SlotIs(content, key, 0);
        return false, 0;
      }
      var upper, lower := records, 0;
      while true
        invariant 0 <= lower < upper <= records
        invariant content[lower].key <= key
        invariant upper == records || key < content[upper].key
        decreases upper - lower
      {
        index := (upper + lower) / 2;
        assert content[index].key <= content[records - 1].key;
        if data[index].key == key {
          SlotIs(content, key, index);
          return true, index;
        }
        if data[index].key > key {
          upper := index;
        } else {
          lower := index;
        }
        if index + 1 < records && key < data[index + 1].key && key > data[index].key {
          break;
        }
        assert index == lower ==> lower + 1 < upper;
      }
      SlotIs(content, key, index + 1);
      return false, index + 1;
    }

    /** Move the records from `index` on one cell up. */
    method ShiftUp(index: nat)
      requires Valid() && index <= records < data.Length
      modifies data
      ensures data[..index] == old(data[..index])
      ensures data[index + 1..records + 1] == old(data[index..records])
    {
      assert records <= data.Length;
      hide Valid, Sorted;
      ghost var was := data[..];
      var i := records;
      while i > index
        invariant index <= i <= records
        invariant forall j :: 0 <= j < i ==> data[j] == was[j]
        invariant forall j :: i < j <= records ==> data[j] == was[j - 1]
      {
        data[i] := data[i - 1];
        i := i - 1;
      }
      assert data[index + 1..records + 1] == was[index..records];
    }

    /** Put `e` in cell `index`, everything from there on moved up. */
    method InsertCell(index: nat, e: Rec)
      requires Valid() && index <= records < data.Length
      requires Sorted(InsertAt(content, index, e))
      modifies this`records, this`content, data
      ensures Valid() && content == InsertAt(old(content), index, e)
    {
      ShiftUp(index);
      data[index] := e;
      records := records + 1;
      assert data[..records] == data[..index] + [e] + data[index + 1..records];
      content := InsertAt(content, index, e);
    }

    method Insert(e: Rec) returns (accepted: bool)
      requires Valid() && (records < data.Length || HasKey(content, e.key))
      modifies this`records, this`content, data
      ensures Valid() && content == LeafInsert(old(content), e)
      ensures accepted <==> !HasKey(old(content), e.key)
    {
      var dup, index := Locate(e.key);
      if dup {
        return false;
      }
      LeafInsertSorted(content, e);
      InsertCell(index, e);
      return true;
    }

    /** Move the records after `index` one cell down. */
    method ShiftDown(index: nat)
      requires Valid() && index < records
      modifies data
      ensures data[..records - 1] == old(RemoveAt(data[..records], index))
    {
      assert records <= data.Length;
      hide Valid, Sorted;
      var i := index;
      while i < records - 1
        invariant index <= i <= records - 1
        invariant forall j :: 0 <= j < index || i < j < records ==> data[j] == old(data[j])
        invariant forall j :: index <= j < i ==> data[j] == old(data[j + 1])
      {
        data[i] := data[i + 1];
        i := i + 1;
      }
    }

    /** Drop cell `index`, everything behind it moved down. */
    method DropCell(index: nat)
      requires Valid() && index < records
      modifies this`records, this`content, data
      ensures Valid() && content == RemoveAt(old(content), index)
    {
      RemoveSorted(content, index);
      assert data[..records] == content;
      ShiftDown(index);
      hide Sorted;
      records := records - 1;
      data[records] := ZEROED;
      content := RemoveAt(content, index);
      assert data[..records] == content;
    }

    method Remove(key: Word) returns (accepted: bool)
      requires Valid()
      modifies this`records, this`content, data
      ensures Valid() && content == LeafRemove(old(content), key)
      ensures accepted <==> HasKey(old(content), key)
    {
      var found, index := Scan(key);
      if !found {
        SlotAbsent(content, key);
        return false;
      }
      SlotIs(content, key, index);
      DropCell(index);
      return true;
    }

    /** Copy the records from `mid` on into the empty page `to`. */
    method CopyUpper(to: LeafPage, mid: nat)
      requires Valid() && to.Valid() && to.content == [] && to != this && to.data != data
      requires mid <= records && to.data.Length == data.Length
      modifies to`records, to`content, to.data
      ensures to.Valid() && to.content == content[mid..]
    {
      var i := mid;
      while i < records
        modifies to`records, to`content, to.data
        invariant mid <= i <= records
        invariant to.Valid() && to.content == content[mid..i]
      {
        TailGrows(content, mid, i);
        var _ := to.Insert(data[i]);
        i := i + 1;
      }
    }

    /** Wipe the records from `mid` on. */
    method CutTail(mid: nat)
      requires Valid() && mid <= records
      modifies this`records, this`content, data
      ensures Valid() && content == old(content)[..mid]
    {
      var i := mid;
      while i < records
        modifies data
        invariant mid <= i <= records
        invariant forall j :: 0 <= j < mid ==> data[j] == content[j]
      {
        data[i] := ZEROED;
        i := i + 1;
      }
      records := mid;
      content := content[..mid];
    }

    /** Cut a full page after the middle. */
    method Divide(to: LeafPage) returns (fence: Word)
      requires Valid() && to.Valid() && to.content == [] && to != this && to.data != data
      requires 1 <= records == data.Length == to.data.Length
      modifies this`records, this`content, this`upbound, data, to`records, to`content, to`upbound, to.data
      ensures Valid() && to.Valid() && |to.content| < to.data.Length
      ensures var mid := old(records) / 2 + 1; content == old(content)[..mid] && to.content == old(content)[mid..]
      ensures |content| > 0 && upbound == fence == content[|content| - 1].key && to.upbound == old(upbound)
    {
      var mid := records / 2 + 1;
      CopyUpper(to, mid);
      CutTail(mid);
      fence := data[mid - 1].key;
      to.upbound := upbound;
      upbound := fence;
    }

    /** Add a record to the half of a divided leaf that it falls in.  `fits` tells
        whether that half has room: the program does not ask, and without room
        writes past the end of the page. */
    method AddToHalf(to: LeafPage, e: Rec, fence: Word) returns (fits: bool)
      requires Valid() && to.Valid() && |to.content| < to.data.Length && to != this && to.data != data
      modifies this`records, this`content, data, to`records, to`content, to.data
      ensures Valid() && to.Valid()
      ensures e.key > fence ==> fits && content == old(content) && to.content == LeafInsert(old(to.content), e)
      ensures e.key <= fence ==> to.content == old(to.content)
      ensures e.key <= fence ==> (fits <==> |old(content)| < data.Length || HasKey(old(content), e.key))
      ensures e.key <= fence ==> content == if fits then LeafInsert(old(content), e) else old(content)
    {
      fits := true;
      if e.key > fence {
        var _ := to.Insert(e);
      } else {
        if records == data.Length {
          var place;
          fits, place := Locate(e.key);
        }
        if fits {
          var _ := Insert(e);
        }
      }
    }

    lemma InOrder()
      requires Valid()
      ensures |content| == records <= data.Length && Sorted(content)
    {
    }

    /** Split a full page into itself and the empty page `to`, and insert the new
        record in the half it falls in, if it has room. */
    method Split(to: LeafPage, e: Rec) returns (fence: Word, fits: bool)
      requires Valid() && to.Valid() && to.content == [] && to != this && to.data != data
      requires 1 <= records == data.Length == to.data.Length
      modifies this`records, this`content, this`upbound, data, to`records, to`content, to`upbound, to.data
      ensures Valid() && to.Valid()
      ensures fits <==> CutFits(SplitLeaf(old(content), e), data.Length)
      ensures fits ==> LeafCut(content, fence, to.content) == SplitLeaf(old(content), e)
      ensures upbound == fence && to.upbound == old(upbound)
    {
      hide *;
      InOrder();
      ghost var rs, cap := content, records;
      Halved(rs, e, cap);
      fence := Divide(to);
      fits := AddToHalf(to, e, fence);
    }
  }

  /** A split half by half. */
  lemma Halved(rs: seq<Rec>, e: Rec, cap: nat)
    requires Sorted(rs) && |rs| == cap >= 1
    ensures var mid := cap / 2 + 1; var l, r, c := rs[..mid], rs[mid..], SplitLeaf(rs, e);
            && c.fence == l[mid - 1].key
            && (e.key > c.fence ==> c == LeafCut(l, c.fence, LeafInsert(r, e)) && CutFits(c, cap))
            && (e.key <= c.fence ==> c == LeafCut(LeafInsert(l, e), c.fence, r))
            && (e.key <= c.fence && |l| == cap ==> (CutFits(c, cap) <==> HasKey(l, e.key)))
            && (e.key <= c.fence && |l| < cap ==> CutFits(c, cap))
  {
    if cap < 3 {
      assert rs[..cap / 2 + 1] == rs;
    }
  }

  /** The one slot between the smaller and the larger keys. */
  lemma SlotIs(rs: seq<Rec>, k: Word, i: nat)
    requires Sorted(rs) && i <= |rs|
    requires i > 0 ==> rs[i - 1].key < k
    requires i < |rs| ==> k <= rs[i].key
    ensures Rank(KeysOf(rs), k) == i
    ensures HasKey(rs, k) <==> i < |rs| && rs[i].key == k
  {
    var ks := KeysOf(rs);
    assert Ascending(ks);
    assert i > 0 ==> ks[i - 1] == rs[i - 1].key;
    RankIs(ks, k, i);
    assert forall j :: 0 <= j < i ==> rs[j].key <= rs[i - 1].key;
    assert forall j :: i < j < |rs| ==> rs[i].key < rs[j].key;
  }

  lemma RemoveSorted(rs: seq<Rec>, i: nat)
    requires Sorted(rs) && i < |rs|
    ensures Sorted(RemoveAt(rs, i)) && |RemoveAt(rs, i)| == |rs| - 1
  {
  }

  lemma SlotAbsent(rs: seq<Rec>, k: Word)
    requires !HasKey(rs, k)
    ensures LeafRemove(rs, k) == rs
  {
  }

  lemma TailGrows(rs: seq<Rec>, lo: nat, i: nat)
    requires Sorted(rs) && lo <= i < |rs|
    ensures LeafInsert(rs[lo..i], rs[i]) == rs[lo..i + 1]
  {
    SlotIs(rs[lo..i], rs[i].key, i - lo);
    assert rs[lo..i] + [rs[i]] == rs[lo..i + 1];
  }
}
