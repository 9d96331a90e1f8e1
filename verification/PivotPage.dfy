/** The pivot page of the B-link index, changed in place. */
module PivotPage {
  import opened Bits
  import opened BlinkPage

  datatype Pair = Pair(key: Word, cpid: Word)

  datatype RemoveCode = RemoveUnexist | RemoveAccept | RemoveLeftest

  ghost predicate Holds(ps: seq<Pair>, p: Pivot) {
    && |p.kids| == |p.keys| + 1 <= |ps|
    && (forall i :: 0 <= i < |p.keys| ==> ps[i].key == p.keys[i])
    && (forall i :: 0 <= i < |p.kids| ==> ps[i].cpid == p.kids[i])
  }

  /** Cell `i` of `pairs` holds key `i` and the child to its left; the child right
      of the last key sits in the cell after it, and the key field of the very
      last cell is the page's upper fence. */
  class PivotPage {
    /** `pairs.Length` is the fan-out: one more than the most keys held. */
    const pairs: array<Pair>
    var records: nat
    ghost var content: Pivot

    ghost predicate Valid()
      reads this, pairs
    {
      && 4 <= pairs.Length
      && records == |content.keys|
      && Ascending(content.keys)
      && Holds(pairs[..], content)
    }

    ghost function Fence(): Word
      requires pairs.Length > 0
      reads this, pairs
    {
      pairs[pairs.Length - 1].key
    }

    constructor (fanout: nat)
      requires fanout >= 4
      ensures Valid() && fresh(pairs) && pairs.Length == fanout && records == 0 && Fence() == PAGE_ID_NULL
    {
      pairs := new Pair[fanout](i => Pair(PAGE_ID_NULL, PAGE_ID_NULL));
      records := 0;
      content := Pivot([], [PAGE_ID_NULL]);
    }

    method Set(key: Word, left: Word, right: Word)
      requires Valid() && records == 0
      modifies this`records, this`content, pairs
      ensures Valid() && content == Pivot([key], [left, right]) && Fence() == old(Fence())
    {
      pairs[0] := Pair(key, left);
      pairs[1] := pairs[1].(cpid := right);
      records := records + 1;
      content := Pivot([key], [left, right]);
    }

    /** The binary search for the child that covers `key`. */
    method Scan(key: Word) returns (child: Word)
      requires Valid() && records >= 1
      ensures child == Route(content.keys, content.kids, key)
    {
      ghost var ks := content.keys;
      var upper, lower := records, 0;
      if key <= pairs[lower].key {
        RankIs(ks, key, 0);
        return pairs[lower].cpid;
      }
      if key > pairs[upper - 1].key {
        RankIs(ks, key, upper);
        return pairs[upper].cpid;
      }
      if key == pairs[upper - 1].key {
        RankIs(ks, key, upper - 1);
        return pairs[upper - 1].cpid;
      }
      while true
        invariant 0 <= lower < upper <= records
        invariant ks[lower] < key
        invariant upper == records || key <= ks[upper]
        decreases upper - lower
      {
        var index := (upper + lower) / 2;
        assert ks[lower] <= ks[index];
        if key <= pairs[index + 1].key && key > pairs[index].key {
          RankIs(ks, key, index + 1);
          return pairs[index + 1].cpid;
        }
        if pairs[index].key >= key {
          upper := index;
        } else {
          lower := index;
        }
      }
    }

    /** The search loop of the insert: either the key itself or its slot. */
    method Locate(key: Word) returns (dup: bool, index: nat)
      requires Valid() && records >= 1
      requires pairs[0].key <= key <= pairs[records - 1].key
      ensures index < records && index == Rank(content.keys, key)
      ensures dup <==> content.keys[index] == key
    {
      ghost var ks := content.keys;
      var upper, lower := records, 0;
      while true
        invariant 0 <= lower < upper <= records
        invariant ks[lower] <= key
        invariant upper == records || key < ks[upper]
        decreases upper - lower
      {
        index := (upper + lower) / 2;
        assert ks[lower] <= ks[index] <= ks[records - 1];
        if pairs[index].key == key {
          RankIs(ks, key, index);
          return true, index;
        }
        if pairs[index].key > key {
          upper := index;
        } else {
          lower := index;
        }
        if key < pairs[index + 1].key && key > pairs[index].key {
          break;
        }
        assert index == lower ==> lower + 1 < upper;
      }
      RankIs(ks, key, index + 1);
      return false, index + 1;
    }

    /** Exchange the child fields of cells 0 and 1 by three exclusive-ors. */
    method SwapCells()
      requires pairs.Length >= 4
      modifies pairs
      ensures pairs[..] == [old(pairs[0]).(cpid := old(pairs[1].cpid)), old(pairs[1]).(cpid := old(pairs[0].cpid))]
                           + old(pairs[2..])
    {
      var a, b := pairs[0].cpid, pairs[1].cpid;
      XorWord(a, b);
      pairs[0] := pairs[0].(cpid := Xor(pairs[0].cpid, pairs[1].cpid, 32));
      XorWord(b, pairs[0].cpid);
      pairs[1] := pairs[1].(cpid := Xor(pairs[1].cpid, pairs[0].cpid, 32));
      XorWord(pairs[0].cpid, pairs[1].cpid);
      pairs[0] := pairs[0].(cpid := Xor(pairs[0].cpid, pairs[1].cpid, 32));
      Pow2Words();
      XorExchange(a, b, 32);
    }

    method SwapKids()
      requires Valid() && records >= 1
      modifies this`content, pairs
      ensures Valid() && Fence() == old(Fence())
      ensures content == old(content).(kids := SwapFirstTwo(old(content).kids))
    {
      SwapCells();
      content := content.(kids := SwapFirstTwo(content.kids));
    }

    /** Move the cells from `index` on one up, the last child first. */
    method ShiftUp(index: nat)
      requires Valid() && index < records && records + 1 < pairs.Length
      modifies pairs
      ensures forall i :: 0 <= i <= index ==> pairs[i] == old(pairs[i])
      ensures forall i :: index < i <= records ==> pairs[i] == old(pairs[i - 1])
      ensures pairs[records + 1].cpid == old(pairs[records].cpid)
      ensures Fence() == old(Fence())
    {
      assert records < pairs.Length;
      hide Valid, Holds, Ascending;
      pairs[records + 1] := pairs[records + 1].(cpid := pairs[records].cpid);
      var i := records;
      while i > index
        invariant index <= i <= records
        invariant forall j :: 0 <= j <= i ==> pairs[j] == old(pairs[j])
        invariant forall j :: i < j <= records ==> pairs[j] == old(pairs[j - 1])
        invariant pairs[records + 1].cpid == old(pairs[records].cpid)
        invariant pairs[pairs.Length - 1].key == old(pairs[pairs.Length - 1].key)
      {
        pairs[i] := pairs[i - 1];
        i := i - 1;
      }
    }

    /** Put the pair in cell `index`, everything from there on moved up. */
    method InsertCell(index: nat, key: Word, pid: Word)
      requires Valid() && index < records && records + 1 < pairs.Length
      requires Ascending(InsertAt(content.keys, index, key))
      modifies this`records, this`content, pairs
      ensures Valid() && Fence() == old(Fence())
      ensures content == Pivot(InsertAt(old(content).keys, index, key), InsertAt(old(content).kids, index, pid))
    {
      ghost var ps := pairs[..];
      ShiftUp(index);
      pairs[index] := Pair(key, pid);
      records := records + 1;
      HoldsInserted(ps, pairs[..], content, index);
      content := Pivot(InsertAt(content.keys, index, key), InsertAt(content.kids, index, pid));
    }

    method Append(key: Word, pid: Word)
      requires Valid() && records + 1 < pairs.Length
      requires Ascending(content.keys + [key])
      modifies this`records, this`content, pairs
      ensures Valid() && Fence() == old(Fence())
      ensures content == Pivot(old(content).keys + [key], old(content).kids + [pid])
    {
      pairs[records] := pairs[records].(key := key);
      pairs[records + 1] := pairs[records + 1].(cpid := pid);
      records := records + 1;
      content := Pivot(content.keys + [key], content.kids + [pid]);
    }

    /** Put a new key in its slot with the child at its left. */
    method InsertBefore(index: nat, key: Word, pid: Word, sep: bool)
      requires Valid() && index < records && records + 1 < pairs.Length
      requires key !in content.keys && index == Rank(content.keys, key)
      modifies this`records, this`content, pairs
      ensures Valid() && Fence() == old(Fence())
      ensures content == InsertAsWritten(old(content), key, pid, sep)
    {
      AscendingInsert(content.keys, key);
      InsertCell(index, key, pid);
      if sep {
        SwapKids();
      }
    }

    method Insert(key: Word, pid: Word, sep: bool) returns (accepted: bool)
      requires Valid() && 1 <= records && records + 1 < pairs.Length
      modifies this`records, this`content, pairs
      ensures Valid() && Fence() == old(Fence())
      ensures content == InsertAsWritten(old(content), key, pid, sep)
      ensures accepted <==> key !in old(content).keys
    {
      ghost var ks := content.keys;
      if key > pairs[records - 1].key {
        RankIs(ks, key, records);
        Append(key, pid);
        return true;
      }
      var dup, index := false, 0;
      if key < pairs[0].key {
        RankIs(ks, key, 0);
      } else {
        dup, index := Locate(key);
      }
      if dup {
        return false;
      }
      AbsentAt(ks, key);
      InsertBefore(index, key, pid, sep);
      return true;
    }

    method SetFence(fence: Word)
      requires Valid()
      modifies pairs
      ensures Valid() && Fence() == fence
    {
      var last := pairs.Length - 1;
      pairs[last] := pairs[last].(key := fence);
    }

    /** Copy the keys from `mid` on and the children around them into `to`. */
    method CopyUpper(to: PivotPage, mid: nat)
      requires Valid() && to.Valid() && to.records == 0 && to != this && to.pairs != pairs
      requires 1 <= mid < records && to.pairs.Length == pairs.Length
      modifies to`records, to`content, to.pairs
      ensures to.Valid() && to.Fence() == old(to.Fence())
      ensures to.content == Pivot(content.keys[mid..], content.kids[mid..])
    {
      to.Set(pairs[mid].key, pairs[mid].cpid, pairs[mid + 1].cpid);
      var i := mid + 1;
      while i < records
        modifies to`records, to`content, to.pairs
        invariant mid < i <= records
        invariant to.Valid() && to.Fence() == old(to.Fence())
        invariant to.content == Pivot(content.keys[mid..i], content.kids[mid..i + 1])
      {
        SliceGrows(content, mid, i);
        var _ := to.Insert(pairs[i].key, pairs[i + 1].cpid, false);
        i := i + 1;
      }
    }

    /** Wipe the cells from `mid` on and end the page one key before them. */
    method CutTail(mid: nat) returns (last: Word)
      requires Valid() && 2 <= mid < records && records + 1 == pairs.Length
      modifies this`records, this`content, pairs
      ensures Valid() && Fence() == old(Fence())
      ensures content == Pivot(old(content).keys[..mid - 1], old(content).kids[..mid])
      ensures last == old(content).keys[mid - 1]
    {
      var i := mid;
      while i < records
        modifies pairs
        invariant mid <= i <= records
        invariant forall j :: 0 <= j < mid ==> pairs[j] == old(pairs[j])
        invariant Fence() == old(Fence())
      {
        pairs[i] := Pair(PAGE_ID_NULL, PAGE_ID_NULL);
        i := i + 1;
      }
      pairs[records] := pairs[records].(cpid := PAGE_ID_NULL);
      records := mid - 1;
      last := pairs[mid - 1].key;
      pairs[mid - 1] := pairs[mid - 1].(key := PAGE_ID_NULL);
      content := Pivot(content.keys[..mid - 1], content.kids[..mid]);
    }

    /** Cut a full page around the promoted key. */
    method Divide(to: PivotPage) returns (fence: Word)
      requires Valid() && to.Valid() && to.records == 0 && to != this && to.pairs != pairs
      requires records + 1 == pairs.Length == to.pairs.Length
      modifies this`records, this`content, pairs, to`records, to`content, to.pairs
      ensures Valid() && to.Valid() && records + 1 < pairs.Length && to.records + 1 < to.pairs.Length
      ensures PivotCut(content, fence, to.content) == CutPivot(old(content))
      ensures Fence() == fence && to.Fence() == old(Fence())
    {
      var mid := records / 2 + 1;
      CopyUpper(to, mid);
      fence := CutTail(mid);
      to.SetFence(pairs[pairs.Length - 1].key);
      SetFence(fence);
    }

    /** Split a full page into itself and the empty page `to` around a promoted
        key, and insert the waiting separator in the half it falls in. */
    method Split(to: PivotPage, key: Word, cpid: Word) returns (fence: Word)
      requires Valid() && to.Valid() && to.records == 0 && to != this && to.pairs != pairs
      requires records + 1 == pairs.Length == to.pairs.Length
      modifies this`records, this`content, pairs, to`records, to`content, to.pairs
      ensures Valid() && to.Valid()
      ensures PivotCut(content, fence, to.content) == SplitPivot(AsWritten, old(content), key, cpid)
      ensures Fence() == fence && to.Fence() == old(Fence())
    {
      fence := Divide(to);
      hide CutPivot;
      if key > fence {
        var _ := to.Insert(key, cpid, false);
      } else {
        var _ := Insert(key, cpid, false);
      }
    }

    /** The search loop of the removal. */
    method Find(key: Word) returns (found: bool, index: nat)
      requires Valid() && records >= 1
      requires pairs[0].key < key < pairs[records - 1].key
      ensures 1 <= index < records && index == Rank(content.keys, key)
      ensures found <==> content.keys[index] == key
    {
      ghost var ks := content.keys;
      var upper, lower := records, 0;
      while true
        invariant 0 <= lower < upper <= records
        invariant ks[lower] < key
        invariant upper == records || key < ks[upper]
        decreases upper - lower
      {
        index := (upper + lower) / 2;
        assert ks[lower] <= ks[index] <= ks[records - 1];
        if pairs[index].key == key {
          RankIs(ks, key, index);
          return true, index;
        }
        if key < pairs[index + 1].key && key > pairs[index].key {
          RankIs(ks, key, index + 1);
          return false, index + 1;
        }
        if pairs[index].key > key {
          upper := index;
        } else {
          lower := index;
        }
      }
    }

    /** The removal looks at the last key, the first key and then in between. */
    method FindFromEnds(key: Word) returns (found: bool, index: nat)
      requires Valid() && records >= 1
      requires pairs[0].key <= key <= pairs[records - 1].key
      ensures index < records && index == Rank(content.keys, key)
      ensures found <==> content.keys[index] == key
      ensures !found ==> index >= 1
    {
      if pairs[records - 1].key == key {
        RankIs(content.keys, key, records - 1);
        return true, records - 1;
      }
      if pairs[0].key == key {
        RankIs(content.keys, key, 0);
        return true, 0;
      }
      found, index := Find(key);
    }

    /** Move the keys after `index`, and the children after those, one down. */
    method ShiftDown(index: nat)
      requires Valid() && index < records
      modifies pairs
      ensures forall i :: 0 <= i < index ==> pairs[i] == old(pairs[i])
      ensures forall i :: index <= i < records - 1 ==> pairs[i].key == old(pairs[i + 1].key)
      ensures pairs[index].cpid == old(pairs[index].cpid)
      ensures forall i :: index < i < records ==> pairs[i].cpid == old(pairs[i + 1].cpid)
      ensures Fence() == old(Fence())
    {
      assert records < pairs.Length;
      hide Valid, Holds, Ascending;
      ghost var was := pairs[..];
      var i := index;
      while i < records - 1
        invariant index <= i <= records - 1
        invariant forall j :: 0 <= j < index || i < j < pairs.Length ==> pairs[j] == was[j]
        invariant forall j :: index < j < i ==> pairs[j] == was[j + 1]
        invariant pairs[index].cpid == was[index].cpid
        invariant i > index ==> pairs[index].key == was[index + 1].key && pairs[i] == Pair(was[i].key, was[i + 1].cpid)
        invariant i == index ==> pairs[i] == was[i]
      {
        pairs[i] := pairs[i].(key := pairs[i + 1].key);
        pairs[i + 1] := pairs[i + 1].(cpid := pairs[i + 2].cpid);
        i := i + 1;
      }
      pairs[i + 1] := pairs[i + 1].(cpid := PAGE_ID_NULL);
      pairs[i] := pairs[i].(key := PAGE_ID_NULL);
    }

    /** Drop key `index` and the child at its right. */
    method DropKey(index: nat)
      requires Valid() && index < records
      modifies this`records, this`content, pairs
      ensures Valid() && Fence() == old(Fence())
      ensures content == Pivot(RemoveAt(old(content).keys, index), RemoveAt(old(content).kids, index + 1))
    {
      AscendingRemove(content.keys, index);
      ghost var ps := pairs[..];
      ShiftDown(index);
      records := records - 1;
      HoldsRemoved(ps, pairs[..], content, index);
      content := Pivot(RemoveAt(content.keys, index), RemoveAt(content.kids, index + 1));
    }

    /** Move every cell one down; the last child follows. */
    method ShiftAllDown()
      requires Valid() && records >= 1
      modifies pairs
      ensures forall i :: 0 <= i < records - 1 ==> pairs[i] == old(pairs[i + 1])
      ensures pairs[records - 1].cpid == old(pairs[records].cpid)
      ensures Fence() == old(Fence())
    {
      var i := 0;
      while i < records - 1
        invariant 0 <= i <= records - 1
        invariant forall j :: 0 <= j < i ==> pairs[j] == old(pairs[j + 1])
        invariant forall j :: i <= j <= records ==> pairs[j] == old(pairs[j])
        invariant Fence() == old(Fence())
      {
        pairs[i] := pairs[i + 1];
        i := i + 1;
      }
      pairs[i] := pairs[i].(cpid := pairs[i + 1].cpid);
      pairs[i] := pairs[i].(key := PAGE_ID_NULL);
      pairs[i + 1] := pairs[i + 1].(cpid := PAGE_ID_NULL);
    }

    /** Drop the leftmost child and the first key. */
    method DropFirst()
      requires Valid() && records >= 1
      modifies this`records, this`content, pairs
      ensures Valid() && Fence() == old(Fence())
      ensures content == Pivot(old(content).keys[1..], old(content).kids[1..])
    {
      ShiftAllDown();
      records := records - 1;
      content := Pivot(content.keys[1..], content.kids[1..]);
    }

    /** Remove a key: exactly it goes, or exactly the first one for a key below all. */
    method Remove(key: Word) returns (code: RemoveCode)
      requires Valid()
      modifies this`records, this`content, pairs
      ensures Valid() && Fence() == old(Fence())
      ensures var r := RemoveFromPivot(old(content), key);
              && content == (if r.Unexist? then old(content) else r.pivot)
              && code == (if r.Unexist? then RemoveUnexist else if r.Accept? then RemoveAccept else RemoveLeftest)
      ensures code.RemoveAccept? ==>
                && records + 1 == old(records)
                && forall x :: x in content.keys <==> x in old(content).keys && x != key
      ensures code.RemoveLeftest? ==>
                && records + 1 == old(records) && key < old(content).keys[0]
                && forall x :: x in content.keys <==> x in old(content).keys && x != old(content).keys[0]
    {
      RemovalLeaves(content, key);
      hide RemoveFromPivot, Holds, Ascending;
      code := Take(key);
    }

    method Take(key: Word) returns (code: RemoveCode)
      requires Valid()
      modifies this`records, this`content, pairs
      ensures Valid() && Fence() == old(Fence())
      ensures var r := RemoveFromPivot(old(content), key);
              && content == (if r.Unexist? then old(content) else r.pivot)
              && code == (if r.Unexist? then RemoveUnexist else if r.Accept? then RemoveAccept else RemoveLeftest)
    {
      ghost var ks := content.keys;
      if records == 0 || key > pairs[records - 1].key {
        RankIs(ks, key, records);
        return RemoveUnexist;
      }
      if key < pairs[0].key {
        RankIs(ks, key, 0);
        DropFirst();
        return RemoveLeftest;
      }
      var found, index := FindFromEnds(key);
      if !found {
        return RemoveUnexist;
      }
      DropKey(index);
      return RemoveAccept;
    }
  }

  lemma XorWord(a: Word, b: Word)
    ensures 0 <= Xor(a, b, 32) <= 0xffff_ffff
  {
    XorBound(a, b, 32);
    Pow2Words();
  }

  lemma HoldsInserted(ps: seq<Pair>, qs: seq<Pair>, p: Pivot, i: nat)
    requires Holds(ps, p) && i < |p.keys| && |p.keys| + 2 <= |ps| == |qs|
    requires forall j :: 0 <= j < i ==> qs[j] == ps[j]
    requires forall j :: i < j <= |p.keys| ==> qs[j] == ps[j - 1]
    requires qs[|p.keys| + 1].cpid == ps[|p.keys|].cpid
    ensures Holds(qs, Pivot(InsertAt(p.keys, i, qs[i].key), InsertAt(p.kids, i, qs[i].cpid)))
  {
    var ks, cs := InsertAt(p.keys, i, qs[i].key), InsertAt(p.kids, i, qs[i].cpid);
    forall j | 0 <= j < |ks| ensures qs[j].key == ks[j] {
      InsertAtIndex(p.keys, i, qs[i].key, j);
    }
    forall j | 0 <= j < |cs| ensures qs[j].cpid == cs[j] {
      InsertAtIndex(p.kids, i, qs[i].cpid, j);
    }
  }

  lemma HoldsRemoved(ps: seq<Pair>, qs: seq<Pair>, p: Pivot, i: nat)
    requires Holds(ps, p) && i < |p.keys| && |ps| == |qs|
    requires forall j :: 0 <= j < i ==> qs[j] == ps[j]
    requires forall j :: i <= j < |p.keys| - 1 ==> qs[j].key == ps[j + 1].key
    requires qs[i].cpid == ps[i].cpid
    requires forall j :: i < j < |p.keys| ==> qs[j].cpid == ps[j + 1].cpid
    ensures Holds(qs, Pivot(RemoveAt(p.keys, i), RemoveAt(p.kids, i + 1)))
  {
    var ks, cs := RemoveAt(p.keys, i), RemoveAt(p.kids, i + 1);
    forall j | 0 <= j < |ks| ensures qs[j].key == ks[j] {
      assert ks[j] == if j < i then p.keys[j] else p.keys[j + 1];
    }
    forall j | 0 <= j < |cs| ensures qs[j].cpid == cs[j] {
      assert cs[j] == if j < i + 1 then p.kids[j] else p.kids[j + 1];
    }
  }

  lemma SliceGrows(p: Pivot, lo: nat, i: nat)
    requires PivotShape(p) && lo < i < |p.keys|
    ensures InsertAsWritten(Pivot(p.keys[lo..i], p.kids[lo..i + 1]), p.keys[i], p.kids[i + 1], false)
            == Pivot(p.keys[lo..i + 1], p.kids[lo..i + 2])
  {
    var ks := p.keys[lo..i];
    assert ks[i - lo - 1] < p.keys[i];
    RankIs(ks, p.keys[i], i - lo);
    assert ks + [p.keys[i]] == p.keys[lo..i + 1];
    assert p.kids[lo..i + 1] + [p.kids[i + 1]] == p.kids[lo..i + 2];
  }

  lemma AbsentAt(ks: seq<Word>, k: Word)
    requires Ascending(ks)
    requires var i := Rank(ks, k); i < |ks| ==> ks[i] != k
    ensures k !in ks
  {
    var i := Rank(ks, k);
    assert forall j :: i <= j < |ks| ==> ks[i] <= ks[j];
  }
}
