/** What the pages of the B-link index hold, and the page operations on it. */
module BlinkPage {
  import Table = TableMessage

  // Functions on sequences: `PivotPage` and `LeafPage` carry them out in place,
  // `BlinkTree` interleaves them.

  /** An unsigned 32-bit field: a key or a page id. */
  type Word = w: int | 0 <= w <= 0xffff_ffff

  /** The null page id, which is also the open upper fence. */
  const PAGE_ID_NULL: Word := 0xffff_ffff

  ghost predicate Ascending(ks: seq<int>) {
    forall i, j :: 0 <= i < j < |ks| ==> ks[i] < ks[j]
  }

  /** The number of leading keys below `k`. */
  function Rank(ks: seq<Word>, k: Word): (r: nat)
    ensures r <= |ks|
    ensures forall i :: 0 <= i < r ==> ks[i] < k
    ensures r < |ks| ==> k <= ks[r]
  {
    if |ks| == 0 || k <= ks[0] then 0 else 1 + Rank(ks[1..], k)
  }

  lemma RankIs(ks: seq<Word>, k: Word, i: nat)
    requires Ascending(ks) && i <= |ks|
    requires i > 0 ==> ks[i - 1] < k
    requires i < |ks| ==> k <= ks[i]
    ensures Rank(ks, k) == i
  {
    if i > 0 {
      assert forall j :: 0 <= j < i ==> ks[j] <= ks[i - 1];
    }
  }

  lemma RankConcat(a: seq<Word>, b: seq<Word>, k: Word)
    requires Ascending(a + b) && |a| > 0
    ensures k > a[|a| - 1] ==> Rank(a + b, k) == |a| + Rank(b, k)
    ensures k <= a[|a| - 1] ==> Rank(a + b, k) == Rank(a, k) < |a|
  {
    var r := if k > a[|a| - 1] then |a| + Rank(b, k) else Rank(a, k);
    assert r > 0 ==> (a + b)[r - 1] < k;
    assert r < |a + b| ==> k <= (a + b)[r];
    RankIs(a + b, k, r);
  }

  lemma RankBelow(a: seq<Word>, last: Word, k: Word)
    requires Ascending(a + [last]) && k < last
    ensures Rank(a + [last], k) == Rank(a, k)
  {
    RankIs(a + [last], k, Rank(a, k));
  }

  lemma AscendingParts(a: seq<Word>, b: seq<Word>)
    requires Ascending(a + b)
    ensures Ascending(a) && Ascending(b)
  {
    assert forall j :: 0 <= j < |a| ==> (a + b)[j] == a[j];
    assert forall j :: 0 <= j < |b| ==> (a + b)[|a| + j] == b[j];
  }

  function InsertAt<T>(s: seq<T>, i: nat, x: T): (r: seq<T>)
    requires i <= |s|
    ensures |r| == |s| + 1 && r[i] == x
  {
    s[..i] + [x] + s[i..]
  }

  lemma InsertAtIndex<T>(s: seq<T>, i: nat, x: T, j: nat)
    requires i <= |s| && j <= |s|
    ensures InsertAt(s, i, x)[j] == if j < i then s[j] else if j == i then x else s[j - 1]
  {
  }

  function RemoveAt<T>(s: seq<T>, i: nat): (r: seq<T>)
    requires i < |s|
    ensures |r| == |s| - 1
  {
    s[..i] + s[i + 1..]
  }

  lemma InsertAtLeft<T>(a: seq<T>, b: seq<T>, i: nat, x: T)
    requires i <= |a|
    ensures InsertAt(a + b, i, x) == InsertAt(a, i, x) + b
  {
    assert (a + b)[..i] == a[..i] && (a + b)[i..] == a[i..] + b;
  }

  lemma InsertAtRight<T>(a: seq<T>, b: seq<T>, i: nat, x: T)
    requires |a| <= i <= |a| + |b|
    ensures InsertAt(a + b, i, x) == a + InsertAt(b, i - |a|, x)
  {
    assert (a + b)[..i] == a + b[..i - |a|] && (a + b)[i..] == b[i - |a|..];
  }

  lemma RemoveInserted<T>(s: seq<T>, i: nat, x: T)
    requires i <= |s|
    ensures RemoveAt(InsertAt(s, i, x), i) == s
  {
    assert InsertAt(s, i, x)[..i] == s[..i] && InsertAt(s, i, x)[i + 1..] == s[i..];
  }

  lemma AscendingInsert(ks: seq<Word>, k: Word)
    requires Ascending(ks) && k !in ks
    ensures Ascending(InsertAt(ks, Rank(ks, k), k))
  {
    var r := Rank(ks, k);
    var s := InsertAt(ks, r, k);
    forall i, j | 0 <= i < j < |s| ensures s[i] < s[j] {
      if r < |ks| {
        assert k < ks[r];
      }
    }
  }

  // ---------------------------------------------------------------- pivots

  /** The child a pivot sends key `k` to: child `i` takes the keys above key
      `i - 1` and up to and including key `i`. */
  function Route(ks: seq<Word>, cs: seq<Word>, k: Word): Word
    requires |cs| == |ks| + 1
  {
    cs[Rank(ks, k)]
  }

  datatype Pivot = Pivot(keys: seq<Word>, kids: seq<Word>)

  ghost predicate PivotShape(p: Pivot) {
    |p.kids| == |p.keys| + 1 && |p.keys| >= 1 && Ascending(p.keys)
  }

  /** How a new separator and its right sibling are put into a pivot: the way
      the code does it, or the way the index needs it. */
  datatype Reading = AsWritten | Intended

  function SwapFirstTwo<T>(s: seq<T>): (r: seq<T>)
    requires |s| >= 2
    ensures |r| == |s|
  {
    [s[1], s[0]] + s[2..]
  }

  /** The pivot with `k` inserted and `pid` put directly to its right. */
  function PlaceRight(p: Pivot, k: Word, pid: Word): Pivot
    requires |p.kids| == |p.keys| + 1
  {
    var r := Rank(p.keys, k);
    Pivot(InsertAt(p.keys, r, k), InsertAt(p.kids, r + 1, pid))
  }

  /** The pivot that the insert routine really leaves: a key above all others
      is appended with `pid` at its right; any other new key gets `pid` at its
      left, after which the separator mode exchanges children 0 and 1. */
  function InsertAsWritten(p: Pivot, k: Word, pid: Word, sep: bool): Pivot
    requires |p.kids| == |p.keys| + 1
  {
    var r := Rank(p.keys, k);
    if r == |p.keys| then Pivot(p.keys + [k], p.kids + [pid])
    else if p.keys[r] == k then p
    else
      var kids := InsertAt(p.kids, r, pid);
      Pivot(InsertAt(p.keys, r, k), if sep then SwapFirstTwo(kids) else kids)
  }

  function PivotPut(rd: Reading, p: Pivot, k: Word, pid: Word, sep: bool): Pivot
    requires |p.kids| == |p.keys| + 1
  {
    match rd
    case AsWritten => InsertAsWritten(p, k, pid, sep)
    case Intended => PlaceRight(p, k, pid)
  }

  /** When the insert routine puts the sibling where it belongs: the key goes
      behind all others, or in separator mode before all others. */
  predicate Lands(p: Pivot, k: Word, sep: bool)
    requires |p.keys| >= 1
  {
    k > p.keys[|p.keys| - 1] || (sep && k < p.keys[0])
  }

  lemma InsertMisplaces(p: Pivot, k: Word, pid: Word, sep: bool)
    requires PivotShape(p) && k !in p.keys && pid !in p.kids && !Lands(p, k, sep)
    ensures var r := Rank(p.keys, k); var got := InsertAsWritten(p, k, pid, sep);
            && r < |p.keys| && got.keys == InsertAt(p.keys, r, k)
            && |got.kids| == |got.keys| + 1 && got.kids[r + 1] == p.kids[r]
  {
    var r := Rank(p.keys, k);
    var kids := InsertAt(p.kids, r, pid);
    if r == 0 {
      assert k < p.keys[0];
    } else if sep {
      assert SwapFirstTwo(kids)[r + 1] == kids[r + 1];
    }
  }

  lemma InsertPlaces(p: Pivot, k: Word, pid: Word, sep: bool)
    requires PivotShape(p) && Lands(p, k, sep)
    ensures InsertAsWritten(p, k, pid, sep) == PlaceRight(p, k, pid)
  {
    var n := |p.keys|;
    if k > p.keys[n - 1] {
      RankIs(p.keys, k, n);
      assert InsertAt(p.keys, n, k) == p.keys + [k];
      assert InsertAt(p.kids, n + 1, pid) == p.kids + [pid];
    } else {
      RankIs(p.keys, k, 0);
      assert SwapFirstTwo(InsertAt(p.kids, 0, pid)) == InsertAt(p.kids, 1, pid);
    }
  }

  /** For every pivot and every new separator, the routine as written agrees
      with the intended placement exactly when `Lands` holds. */
  lemma InsertLandsExactly(p: Pivot, k: Word, pid: Word, sep: bool)
    requires PivotShape(p) && k !in p.keys && pid !in p.kids
    ensures InsertAsWritten(p, k, pid, sep) == PlaceRight(p, k, pid) <==> Lands(p, k, sep)
  {
    if Lands(p, k, sep) {
      InsertPlaces(p, k, pid, sep);
    } else {
      InsertMisplaces(p, k, pid, sep);
      assert PlaceRight(p, k, pid).kids[Rank(p.keys, k) + 1] == pid;
    }
  }

  /** Whenever the sibling is misplaced, some key at or below the separator is
      sent to it, although the sibling holds only keys above the separator. */
  lemma MisplacedMisroutes(p: Pivot, k: Word, pid: Word, sep: bool) returns (q: Word)
    requires PivotShape(p) && k !in p.keys && pid !in p.kids && !Lands(p, k, sep)
    ensures var got := InsertAsWritten(p, k, pid, sep);
            && |got.kids| == |got.keys| + 1
            && q <= k && Route(got.keys, got.kids, q) == pid
  {
    var r := Rank(p.keys, k);
    var got := InsertAsWritten(p, k, pid, sep);
    AscendingInsert(p.keys, k);
    assert r < |p.keys| && p.keys[r] != k;
    if sep && r == 1 {
      q := p.keys[0];
      RankIs(got.keys, q, 0);
    } else {
      q := k;
      assert sep ==> r >= 2;
      RankIs(got.keys, q, r);
    }
  }

  /** A concrete miss: keys 10 and 20 over children 1, 2 and 3, and child 2 has
      split at 15 into 2 and 4.  Afterwards the keys up to 10, which live in
      child 1, are sent to page 4, and the keys 11 to 15 to child 1. */
  lemma InsertMisroutes()
    ensures var p := Pivot([10, 20], [1, 2, 3]);
            var got, want := InsertAsWritten(p, 15, 4, true), PlaceRight(p, 15, 4);
            && !Lands(p, 15, true)
            && Route(got.keys, got.kids, 5) == 4 && Route(want.keys, want.kids, 5) == 1
            && Route(got.keys, got.kids, 12) == 1 && Route(want.keys, want.kids, 12) == 2
  {
    var p := Pivot([10, 20], [1, 2, 3]);
    RankIs(p.keys, 15, 1);
    hide Rank;
    var got, want := InsertAsWritten(p, 15, 4, true), PlaceRight(p, 15, 4);
    assert got.keys == want.keys == [10, 15, 20];
    assert got.kids == [4, 1, 2, 3] && want.kids == [1, 2, 4, 3];
    RankIs(got.keys, 5, 0);
    RankIs(got.keys, 12, 1);
  }

  /** Sending every key where it went before, except that the new sibling takes
      over the keys of the split child that lie above the separator. */
  lemma PlaceRightRoutes(p: Pivot, k: Word, pid: Word, q: Word)
    requires PivotShape(p) && k !in p.keys
    ensures var r := Rank(p.keys, k); var p' := PlaceRight(p, k, pid);
            && PivotShape(p')
            && Route(p'.keys, p'.kids, q) ==
               if Rank(p.keys, q) == r && q > k then pid else Route(p.keys, p.kids, q)
  {
    var r := Rank(p.keys, k);
    var p' := PlaceRight(p, k, pid);
    AscendingInsert(p.keys, k);
    var s := Rank(p.keys, q);
    if s < r || (s == r && q <= k) {
      RankIs(p'.keys, q, s);
    } else {
      RankIs(p'.keys, q, s + 1);
    }
  }

  /** One half of a split pivot, the promoted key and the other half. */
  datatype PivotCut = PivotCut(left: Pivot, fence: Word, right: Pivot)

  function CutPivot(p: Pivot): (c: PivotCut)
    requires |p.kids| == |p.keys| + 1 && |p.keys| >= 3
    ensures |c.left.kids| == |c.left.keys| + 1 && |c.right.kids| == |c.right.keys| + 1
    ensures |c.left.keys| >= 1 && |c.right.keys| >= 1
  {
    var mid := |p.keys| / 2 + 1;
    PivotCut(Pivot(p.keys[..mid - 1], p.kids[..mid]), p.keys[mid - 1], Pivot(p.keys[mid..], p.kids[mid..]))
  }

  /** Split a pivot and put the waiting separator into the half it falls in. */
  function SplitPivot(rd: Reading, p: Pivot, k: Word, pid: Word): PivotCut
    requires |p.kids| == |p.keys| + 1 && |p.keys| >= 3
  {
    var c := CutPivot(p);
    if k > c.fence then c.(right := PivotPut(rd, c.right, k, pid, false))
    else c.(left := PivotPut(rd, c.left, k, pid, false))
  }

  predicate SplitLands(p: Pivot, k: Word)
    requires |p.kids| == |p.keys| + 1 && |p.keys| >= 3
  {
    var c := CutPivot(p);
    Lands(if k > c.fence then c.right else c.left, k, false)
  }

  /** The two halves with the promoted key between them read as one pivot. */
  function Join(c: PivotCut): Pivot {
    Pivot(c.left.keys + [c.fence] + c.right.keys, c.left.kids + c.right.kids)
  }

  lemma CutPivotJoins(p: Pivot)
    requires PivotShape(p) && |p.keys| >= 3
    ensures var c := CutPivot(p); Join(c) == p && PivotShape(c.left) && PivotShape(c.right)
    ensures var c := CutPivot(p); c.left.keys[|c.left.keys| - 1] < c.fence < c.right.keys[0]
  {
    var c := CutPivot(p);
    assert p.keys == c.left.keys + [c.fence] + c.right.keys;
  }

  lemma JoinShape(c: PivotCut)
    requires PivotShape(Join(c)) && |c.left.kids| == |c.left.keys| + 1 && |c.right.kids| == |c.right.keys| + 1
    requires |c.left.keys| >= 1 && |c.right.keys| >= 1
    ensures PivotShape(c.left) && PivotShape(c.right)
    ensures c.left.keys[|c.left.keys| - 1] < c.fence < c.right.keys[0]
  {
    var n, keys := |c.left.keys|, Join(c).keys;
    assert keys[n] == c.fence && keys[n - 1] == c.left.keys[n - 1] && keys[n + 1] == c.right.keys[0];
    assert forall j :: 0 <= j < n ==> keys[j] == c.left.keys[j];
    assert forall j :: 0 <= j < |c.right.keys| ==> keys[n + 1 + j] == c.right.keys[j];
  }

  lemma PlaceInRight(c: PivotCut, k: Word, pid: Word)
    requires PivotShape(Join(c)) && |c.left.kids| == |c.left.keys| + 1 && |c.right.kids| == |c.right.keys| + 1
    requires k > c.fence
    ensures PlaceRight(Join(c), k, pid) == Join(c.(right := PlaceRight(c.right, k, pid)))
  {
    hide Rank, InsertAt, Ascending;
    var lk := c.left.keys + [c.fence];
    var r := Rank(c.right.keys, k);
    RankConcat(lk, c.right.keys, k);
    InsertAtRight(lk, c.right.keys, |lk| + r, k);
    InsertAtRight(c.left.kids, c.right.kids, |lk| + r + 1, pid);
  }

  lemma PlaceInLeft(c: PivotCut, k: Word, pid: Word)
    requires PivotShape(Join(c)) && |c.left.kids| == |c.left.keys| + 1 && |c.right.kids| == |c.right.keys| + 1
    requires k < c.fence
    ensures PlaceRight(Join(c), k, pid) == Join(c.(left := PlaceRight(c.left, k, pid)))
  {
    hide InsertAt, Ascending, Rank;
    var lk := c.left.keys + [c.fence];
    var r := Rank(c.left.keys, k);
    RankConcat(lk, c.right.keys, k);
    AscendingParts(lk, c.right.keys);
    RankBelow(c.left.keys, c.fence, k);
    InsertAtLeft(lk, c.right.keys, r, k);
    InsertAtLeft(c.left.keys, [c.fence], r, k);
    InsertAtLeft(c.left.kids, c.right.kids, r + 1, pid);
  }

  /** A split loses nothing, duplicates nothing and reorders nothing: the two
      halves around the promoted key are the old pivot with the separator and
      its sibling placed; neither half exceeds `cap` keys or is empty. */
  lemma SplitPivotJoins(p: Pivot, k: Word, pid: Word, cap: nat)
    requires PivotShape(p) && k !in p.keys && |p.keys| == cap >= 3
    ensures var c := SplitPivot(Intended, p, k, pid);
            && Join(c) == PlaceRight(p, k, pid)
            && PivotShape(c.left) && PivotShape(c.right)
            && |c.left.keys| <= cap && |c.right.keys| <= cap
            && c.left.keys[|c.left.keys| - 1] < c.fence < c.right.keys[0]
            && c.fence == p.keys[cap / 2]
  {
    var c := CutPivot(p);
    CutPivotJoins(p);
    assert p.keys[|p.keys| / 2] == c.fence;
    AscendingInsert(p.keys, k);
    if k > c.fence {
      PlaceInRight(c, k, pid);
    } else {
      PlaceInLeft(c, k, pid);
    }
    JoinShape(SplitPivot(Intended, p, k, pid));
  }

  /** As written the split agrees with the intended one exactly when the
      separator goes behind all keys of its half. */
  lemma SplitLandsExactly(p: Pivot, k: Word, pid: Word)
    requires PivotShape(p) && |p.keys| >= 3 && k !in p.keys && pid !in p.kids
    ensures SplitPivot(AsWritten, p, k, pid) == SplitPivot(Intended, p, k, pid) <==> SplitLands(p, k)
  {
    var c := CutPivot(p);
    InsertLandsExactly(if k > c.fence then c.right else c.left, k, pid, false);
  }

  datatype PivotRemoval = Unexist | Accept(pivot: Pivot) | Leftest(pivot: Pivot)

  /** Removing a key from a pivot: a key below all others drops the leftmost
      child and the first key; a present key goes with the child at its right. */
  function RemoveFromPivot(p: Pivot, k: Word): PivotRemoval
    requires |p.kids| == |p.keys| + 1
  {
    var r := Rank(p.keys, k);
    if r == |p.keys| then Unexist
    else if p.keys[r] == k then Accept(Pivot(RemoveAt(p.keys, r), RemoveAt(p.kids, r + 1)))
    else if r == 0 then Leftest(Pivot(p.keys[1..], p.kids[1..]))
    else Unexist
  }

  lemma AscendingRemove(ks: seq<Word>, i: nat)
    requires Ascending(ks) && i < |ks|
    ensures Ascending(RemoveAt(ks, i))
  {
  }

  lemma RemoveAtIndex<T>(s: seq<T>, i: nat, j: nat)
    requires i < |s| && j < |s| - 1
    ensures RemoveAt(s, i)[j] == if j < i then s[j] else s[j + 1]
  {
  }

  lemma RemoveAcceptRoutes(p: Pivot, r: nat, q: Word)
    requires PivotShape(p) && r < |p.keys|
    ensures var keys, kids := RemoveAt(p.keys, r), RemoveAt(p.kids, r + 1);
            Route(keys, kids, q) == if Rank(p.keys, q) == r + 1 then p.kids[r] else Route(p.keys, p.kids, q)
  {
    hide Rank, RemoveAt;
    var s := Rank(p.keys, q);
    AscendingRemove(p.keys, r);
    var i := if s <= r then s else s - 1;
    if i > 0 {
      RemoveAtIndex(p.keys, r, i - 1);
    }
    if i < |p.keys| - 1 {
      RemoveAtIndex(p.keys, r, i);
      assert s == r < |p.keys| - 1 ==> p.keys[r] < p.keys[r + 1];
    }
    RemoveAtIndex(p.kids, r + 1, i);
    RankIs(RemoveAt(p.keys, r), q, i);
  }

  lemma RemoveLeftestRoutes(p: Pivot, q: Word)
    requires PivotShape(p)
    ensures Route(p.keys[1..], p.kids[1..], q) ==
            if Rank(p.keys, q) == 0 then p.kids[1] else Route(p.keys, p.kids, q)
  {
    var s := Rank(p.keys, q);
    RankIs(p.keys[1..], q, if s == 0 then 0 else s - 1);
  }

  /** After a removal every key is routed as before, except the keys of the
      dropped child, which go to its left neighbour, or to its right neighbour
      when the leftmost child was dropped.  Nothing is removed exactly when the
      key is absent and not below all others. */
  lemma RemoveRoutes(p: Pivot, k: Word, q: Word)
    requires PivotShape(p)
    ensures RemoveFromPivot(p, k).Unexist? <==> k !in p.keys && k > p.keys[0]
    ensures RemoveFromPivot(p, k).Accept? ==>
              var r, p' := Rank(p.keys, k), RemoveFromPivot(p, k).pivot;
              && p.keys[r] == k && |p'.kids| == |p'.keys| + 1 && Ascending(p'.keys)
              && Route(p'.keys, p'.kids, q) ==
                 if Rank(p.keys, q) == r + 1 then p.kids[r] else Route(p.keys, p.kids, q)
    ensures RemoveFromPivot(p, k).Leftest? ==>
              var p' := RemoveFromPivot(p, k).pivot;
              && k < p.keys[0] && |p'.kids| == |p'.keys| + 1 && Ascending(p'.keys)
              && Route(p'.keys, p'.kids, q) ==
                 if Rank(p.keys, q) == 0 then p.kids[1] else Route(p.keys, p.kids, q)
  {
    hide Route, RemoveAt, Rank;
    if k in p.keys {
      var i :| 0 <= i < |p.keys| && p.keys[i] == k;
      RankIs(p.keys, k, i);
      AscendingRemove(p.keys, i);
      RemoveAcceptRoutes(p, i, q);
    } else if k < p.keys[0] {
      RankIs(p.keys, k, 0);
      RemoveLeftestRoutes(p, q);
    }
  }

  /** Removing a key takes back its insert: the page is as it was. */
  lemma RemoveUndoesPlace(p: Pivot, k: Word, pid: Word)
    requires PivotShape(p) && k !in p.keys
    ensures RemoveFromPivot(PlaceRight(p, k, pid), k) == Accept(p)
  {
    var r := Rank(p.keys, k);
    var p' := PlaceRight(p, k, pid);
    InsertedRank(p.keys, k);
    hide Rank, InsertAt, RemoveAt, Ascending;
    RemoveInserted(p.keys, r, k);
    RemoveInserted(p.kids, r + 1, pid);
  }

  lemma InsertedRank(ks: seq<Word>, k: Word)
    requires Ascending(ks) && k !in ks
    ensures Rank(InsertAt(ks, Rank(ks, k), k), k) == Rank(ks, k)
  {
    AscendingInsert(ks, k);
    RankIs(InsertAt(ks, Rank(ks, k), k), k, Rank(ks, k));
  }

  /** What is gone after a removal, in one. */
  lemma RemovalLeaves(p: Pivot, k: Word)
    requires |p.kids| == |p.keys| + 1 && Ascending(p.keys)
    ensures var r := RemoveFromPivot(p, k);
            && (r.Accept? ==> |r.pivot.keys| + 1 == |p.keys|
                              && forall x :: x in r.pivot.keys <==> x in p.keys && x != k)
            && (r.Leftest? ==> |p.keys| > 0 && k < p.keys[0] && |r.pivot.keys| + 1 == |p.keys|
                               && forall x :: x in r.pivot.keys <==> x in p.keys && x != p.keys[0])
  {
    var r := RemoveFromPivot(p, k);
    if r.Accept? {
      PlaceUndoesRemove(p, k);
    } else if r.Leftest? {
      LeftestLeaves(p, k);
    }
  }

  /** What a removal leaves: the key and the child at its right are gone, and
      nothing else is. */
  lemma PlaceUndoesRemove(p: Pivot, k: Word)
    requires PivotShape(p) && k in p.keys
    ensures Rank(p.keys, k) < |p.keys| && RemoveFromPivot(p, k).Accept?
    ensures var p' := RemoveFromPivot(p, k).pivot;
            && |p'.keys| + 1 == |p.keys| && |p'.kids| == |p'.keys| + 1 && Ascending(p'.keys)
            && PlaceRight(p', k, p.kids[Rank(p.keys, k) + 1]) == p
            && forall x :: x in p'.keys <==> x in p.keys && x != k
  {
    var r :| 0 <= r < |p.keys| && p.keys[r] == k;
    KeyAccepted(p, k, r);
    hide RemoveAt, InsertAt, Rank, RemoveFromPivot;
    KeyRemoved(p.keys, r);
    InsertRemoved(p.kids, r + 1);
  }

  lemma KeyAccepted(p: Pivot, k: Word, r: nat)
    requires PivotShape(p) && r < |p.keys| && p.keys[r] == k
    ensures Rank(p.keys, k) == r
    ensures RemoveFromPivot(p, k) == Accept(Pivot(RemoveAt(p.keys, r), RemoveAt(p.kids, r + 1)))
  {
    RankIs(p.keys, k, r);
  }

  lemma InsertRemoved<T>(s: seq<T>, i: nat)
    requires i < |s|
    ensures InsertAt(RemoveAt(s, i), i, s[i]) == s
  {
  }

  lemma KeyRemoved(ks: seq<Word>, r: nat)
    requires Ascending(ks) && r < |ks|
    ensures var rest := RemoveAt(ks, r);
            && Ascending(rest) && Rank(rest, ks[r]) == r && InsertAt(rest, r, ks[r]) == ks
            && forall x :: x in rest <==> x in ks && x != ks[r]
  {
    var rest := RemoveAt(ks, r);
    AscendingRemove(ks, r);
    InsertRemoved(ks, r);
    forall i | 0 <= i < |rest| ensures i < r ==> rest[i] < ks[r]
                               ensures i >= r ==> rest[i] > ks[r] {
      RemoveAtIndex(ks, r, i);
    }
    RankIs(rest, ks[r], r);
    InsertAtMembers(rest, r, ks[r]);
  }

  /** And when the leftmost child goes, the first key goes with it. */
  lemma LeftestLeaves(p: Pivot, k: Word)
    requires PivotShape(p) && k < p.keys[0]
    ensures RemoveFromPivot(p, k).Leftest?
    ensures var p' := RemoveFromPivot(p, k).pivot;
            && |p'.keys| + 1 == |p.keys| && |p'.kids| == |p'.keys| + 1
            && p == Pivot([p.keys[0]] + p'.keys, [p.kids[0]] + p'.kids)
            && forall x :: x in p'.keys <==> x in p.keys && x != p.keys[0]
  {
    RankIs(p.keys, k, 0);
    assert p.keys == [p.keys[0]] + p.keys[1..];
  }

  // ---------------------------------------------------------------- leaves

  /** A leaf record: its key and the rest of its bytes. */
  datatype Rec = Rec(key: Word, body: seq<int>)

  function KeysOf(rs: seq<Rec>): (ks: seq<Word>)
    ensures |ks| == |rs|
    ensures forall i :: 0 <= i < |rs| ==> ks[i] == rs[i].key
  {
    seq(|rs|, i requires 0 <= i < |rs| => rs[i].key)
  }

  ghost predicate Sorted(rs: seq<Rec>) {
    forall i, j :: 0 <= i < j < |rs| ==> rs[i].key < rs[j].key
  }

  predicate HasKey(rs: seq<Rec>, k: Word) {
    exists i :: 0 <= i < |rs| && rs[i].key == k
  }

  /** The records with `e` added in key order, unchanged if its key is there. */
  function LeafInsert(rs: seq<Rec>, e: Rec): (r: seq<Rec>)
    ensures |rs| <= |r| <= |rs| + 1
  {
    if HasKey(rs, e.key) then rs else InsertAt(rs, Rank(KeysOf(rs), e.key), e)
  }

  lemma InsertAtMembers<T>(s: seq<T>, i: nat, x: T)
    requires i <= |s|
    ensures forall y :: y in InsertAt(s, i, x) <==> y in s || y == x
  {
    assert s == s[..i] + s[i..];
  }

  lemma LeafInsertSorted(rs: seq<Rec>, e: Rec)
    requires Sorted(rs)
    ensures Sorted(LeafInsert(rs, e))
    ensures forall x :: x in LeafInsert(rs, e) <==> x in rs || (x == e && !HasKey(rs, e.key))
  {
    if !HasKey(rs, e.key) {
      var ks := KeysOf(rs);
      var r := Rank(ks, e.key);
      AscendingInsert(ks, e.key);
      InsertAtMembers(rs, r, e);
      forall j | 0 <= j <= |rs| ensures LeafInsert(rs, e)[j].key == InsertAt(ks, r, e.key)[j] {
        InsertAtIndex(rs, r, e, j);
        InsertAtIndex(ks, r, e.key, j);
      }
    }
  }

  /** Removing the record with key `k`. */
  function LeafRemove(rs: seq<Rec>, k: Word): seq<Rec> {
    var r := Rank(KeysOf(rs), k);
    if r < |rs| && rs[r].key == k then RemoveAt(rs, r) else rs
  }

  /** Removing the key just inserted gives back the leaf as it was. */
  lemma RemoveUndoesInsert(rs: seq<Rec>, e: Rec)
    requires Sorted(rs) && !HasKey(rs, e.key)
    ensures LeafRemove(LeafInsert(rs, e), e.key) == rs
  {
    var r := Rank(KeysOf(rs), e.key);
    var rs' := InsertAt(rs, r, e);
    LeafInsertSorted(rs, e);
    RankIs(KeysOf(rs'), e.key, r);
    RemoveInserted(rs, r, e);
  }

  /** A removal takes out the record with the key, if there is one, and no other. */
  lemma LeafRemoveLeaves(rs: seq<Rec>, k: Word)
    requires Sorted(rs)
    ensures Sorted(LeafRemove(rs, k)) && forall x :: x in LeafRemove(rs, k) <==> x in rs && x.key != k
    ensures |LeafRemove(rs, k)| == if HasKey(rs, k) then |rs| - 1 else |rs|
  {
    var ks := KeysOf(rs);
    if HasKey(rs, k) {
      var r :| 0 <= r < |rs| && rs[r].key == k;
      RankIs(ks, k, r);
      RecRemoved(rs, r);
    }
  }

  lemma RecRemoved(rs: seq<Rec>, r: nat)
    requires Sorted(rs) && r < |rs|
    ensures Sorted(RemoveAt(rs, r)) && forall x :: x in RemoveAt(rs, r) <==> x in rs && x.key != rs[r].key
  {
    var rest := RemoveAt(rs, r);
    InsertRemoved(rs, r);
    InsertAtMembers(rest, r, rs[r]);
    forall i | 0 <= i < |rest| ensures rest[i].key != rs[r].key {
      RemoveAtIndex(rs, r, i);
    }
  }

  datatype LeafCut = LeafCut(left: seq<Rec>, fence: Word, right: seq<Rec>)

  /** Add `e` to the half of a divided leaf that it falls in. */
  function PutInHalf(l: seq<Rec>, r: seq<Rec>, e: Rec): LeafCut
    requires |l| > 0
  {
    var fence := l[|l| - 1].key;
    if e.key > fence then LeafCut(l, fence, LeafInsert(r, e)) else LeafCut(LeafInsert(l, e), fence, r)
  }

  /** Split a leaf after the middle and add `e`. */
  function SplitLeaf(rs: seq<Rec>, e: Rec): LeafCut
    requires |rs| >= 1
  {
    var mid := |rs| / 2 + 1;
    PutInHalf(rs[..mid], rs[mid..], e)
  }

  lemma HasKeyConcat(a: seq<Rec>, b: seq<Rec>, k: Word)
    ensures HasKey(a + b, k) <==> HasKey(a, k) || HasKey(b, k)
  {
    if HasKey(a, k) {
      var j :| 0 <= j < |a| && a[j].key == k;
      assert (a + b)[j].key == k;
    }
    if HasKey(b, k) {
      var j :| 0 <= j < |b| && b[j].key == k;
      assert (a + b)[|a| + j].key == k;
    }
  }

  lemma SortedConcat(a: seq<Rec>, b: seq<Rec>)
    requires Sorted(a + b)
    ensures Sorted(a) && Sorted(b)
    ensures forall i, j :: 0 <= i < |a| && 0 <= j < |b| ==> a[i].key < b[j].key
  {
    assert forall j :: 0 <= j < |a| ==> (a + b)[j] == a[j];
    assert forall j :: 0 <= j < |b| ==> (a + b)[|a| + j] == b[j];
  }

  lemma KeysConcat(a: seq<Rec>, b: seq<Rec>)
    requires Sorted(a + b)
    ensures KeysOf(a + b) == KeysOf(a) + KeysOf(b) && Ascending(KeysOf(a) + KeysOf(b))
  {
    assert KeysOf(a + b) == KeysOf(a) + KeysOf(b);
    assert Ascending(KeysOf(a + b));
  }

  /** A key above the last one is in no record, and one at or below it is in no
      record that follows. */
  lemma NotInOther(a: seq<Rec>, b: seq<Rec>, k: Word)
    requires Sorted(a + b) && |a| > 0
    ensures k > a[|a| - 1].key ==> !HasKey(a, k)
    ensures k <= a[|a| - 1].key ==> !HasKey(b, k)
  {
    SortedConcat(a, b);
  }

  lemma LeafInsertRight(a: seq<Rec>, b: seq<Rec>, e: Rec)
    requires Sorted(a + b) && |a| > 0 && e.key > a[|a| - 1].key
    ensures LeafInsert(a + b, e) == a + LeafInsert(b, e)
  {
    hide HasKey, Sorted, Ascending, Rank;
    NotInOther(a, b, e.key);
    HasKeyConcat(a, b, e.key);
    KeysConcat(a, b);
    RankConcat(KeysOf(a), KeysOf(b), e.key);
    InsertAtRight(a, b, |a| + Rank(KeysOf(b), e.key), e);
  }

  lemma LeafInsertLeft(a: seq<Rec>, b: seq<Rec>, e: Rec)
    requires Sorted(a + b) && |a| > 0 && e.key <= a[|a| - 1].key
    ensures LeafInsert(a + b, e) == LeafInsert(a, e) + b
  {
    hide HasKey, Sorted, Ascending, Rank;
    NotInOther(a, b, e.key);
    HasKeyConcat(a, b, e.key);
    KeysConcat(a, b);
    RankConcat(KeysOf(a), KeysOf(b), e.key);
    InsertAtLeft(a, b, Rank(KeysOf(a), e.key), e);
  }

  ghost predicate CutInOrder(c: LeafCut) {
    && Sorted(c.left) && Sorted(c.right)
    && (forall x :: x in c.left ==> x.key <= c.fence)
    && (forall x :: x in c.right ==> x.key > c.fence)
  }

  lemma PutInHalfInOrder(l: seq<Rec>, r: seq<Rec>, e: Rec)
    requires Sorted(l + r) && |l| > 0
    ensures CutInOrder(PutInHalf(l, r, e))
  {
    SortedConcat(l, r);
    if e.key > l[|l| - 1].key {
      LeafInsertSorted(r, e);
    } else {
      LeafInsertSorted(l, e);
    }
  }

  lemma PutInHalfJoins(l: seq<Rec>, r: seq<Rec>, e: Rec)
    requires Sorted(l + r) && |l| > 0
    ensures var c := PutInHalf(l, r, e); c.left + c.right == LeafInsert(l + r, e)
  {
    if e.key > l[|l| - 1].key {
      LeafInsertRight(l, r, e);
    } else {
      LeafInsertLeft(l, r, e);
    }
  }

  ghost predicate CutFits(c: LeafCut, cap: nat) { |c.left| <= cap && |c.right| <= cap }

  /** The two halves hold exactly the old records plus `e` if its key was new, in
      order, with the fence between them.  Both fit in `cap` records exactly when
      there is room for three, or the new record goes to the upper half or nowhere. */
  lemma SplitLeafJoins(rs: seq<Rec>, e: Rec, cap: nat)
    requires Sorted(rs) && |rs| == cap >= 1
    ensures var c := SplitLeaf(rs, e);
            && c.left + c.right == LeafInsert(rs, e)
            && CutInOrder(c)
            && 1 <= |c.left| && (cap >= 3 ==> 1 <= |c.right|)
            && c.fence == rs[cap / 2].key
            && (CutFits(c, cap) <==> cap >= 3 || e.key > rs[cap - 1].key || HasKey(rs, e.key))
  {
    CutFitsExactly(rs, e, cap);
    var l, r := SplitLeafIs(rs, e);
    hide *;
    PutInHalfInOrder(l, r, e);
    PutInHalfJoins(l, r, e);
  }

  lemma SplitLeafIs(rs: seq<Rec>, e: Rec) returns (l: seq<Rec>, r: seq<Rec>)
    requires |rs| >= 1
    ensures rs == l + r && |l| > 0 && SplitLeaf(rs, e) == PutInHalf(l, r, e)
    ensures var c := SplitLeaf(rs, e); 1 <= |c.left| && (|rs| >= 3 ==> 1 <= |c.right|) && c.fence == rs[|rs| / 2].key
  {
    var mid := |rs| / 2 + 1;
    l, r := rs[..mid], rs[mid..];
    hide LeafInsert;
  }

  lemma CutFitsExactly(rs: seq<Rec>, e: Rec, cap: nat)
    requires |rs| == cap >= 1
    ensures CutFits(SplitLeaf(rs, e), cap) <==> cap >= 3 || e.key > rs[cap - 1].key || HasKey(rs, e.key)
  {
    if cap < 3 {
      assert cap / 2 + 1 == cap && rs[..cap] == rs;
    }
    hide HasKey, Rank;
  }

  // ------------------------------------------------------- leaf capacity

  const PAGE_SIZE: nat := 4096
  const BLINK_HEADER_SIZE: nat := 22
  const BLINK_LEAF_DATA_SIZE: nat := PAGE_SIZE - BLINK_HEADER_SIZE - 4

  /** The test by which the program decides that a leaf takes one more record. */
  predicate LeafSafe(records: nat, width: nat) {
    (records + 1) * width + BLINK_HEADER_SIZE < PAGE_SIZE
  }

  /** The test forgets the four bytes of the upper fence.  A leaf that it calls
      safe really has room, for every record count, exactly for the widths with
      no multiple in the last three bytes counted. */
  lemma LeafSafeFitsExactly(width: nat)
    requires 0 < width <= BLINK_LEAF_DATA_SIZE
    ensures (forall n: nat :: LeafSafe(n, width) ==> (n + 1) * width <= BLINK_LEAF_DATA_SIZE)
       <==> 4073 / width * width <= 4070
  {
    var m := 4073 / width;
    assert m * width <= 4073 < (m + 1) * width by { DivBounds(4073, width); }
    assert m >= 1 by { MulMono(1, width, 1); }
    if m * width <= 4070 {
      forall n: nat | LeafSafe(n, width) ensures (n + 1) * width <= BLINK_LEAF_DATA_SIZE {
        if n + 1 > m {
          MulMono(m + 1, n + 1, width);
        } else {
          MulMono(n + 1, m, width);
        }
      }
    } else {
      assert LeafSafe(m - 1, width);
    }
  }

  /** A record has the bytes of its attributes. */
  function RowWidth(kinds: seq<Table.Kind>): nat {
    if kinds == [] then 0 else Table.KindSize(kinds[0]) + RowWidth(kinds[1..])
  }

  lemma {:induction false} RowWidthIs(kinds: seq<Table.Kind>)
    ensures RowWidth(kinds) % 8 == 0 && RowWidth(kinds) >= 8 * |kinds|
  {
    if kinds != [] {
      RowWidthIs(kinds[1..]);
    }
  }

  ghost predicate NoDivisor(n: nat, k: nat) { k < 2 || (n / k * k != n && NoDivisor(n, k - 1)) }

  lemma {:induction false} NotDivided(n: nat, k: nat, d: nat, m: nat)
    requires NoDivisor(n, k) && 2 <= d <= k
    ensures d * m != n
    decreases k
  {
    if d == k {
      DivBounds(n, d);
      if m < n / d {
        MulMono(m + 1, n / d, d);
      } else if m > n / d {
        MulMono(n / d + 1, m, d);
      }
    } else {
      NotDivided(n, k - 1, d, m);
    }
  }

  lemma FiveHundredNine(a: nat, b: nat)
    requires a * b == 509 && b < 509
    ensures b == 1
  {
    assert NoDivisor(509, 6) && NoDivisor(509, 11) && NoDivisor(509, 16) && NoDivisor(509, 22);
    if 2 <= b <= 22 {
      NotDivided(509, 22, b, a);
    } else if b > 22 {
      if a >= 23 {
        MulMono(23, a, b);
      } else if a >= 2 {
        NotDivided(509, 22, a, b);
      }
    }
  }

  /** For the records of a table the test says there is room where there is none
      exactly when the table has a single attribute of eight bytes. */
  lemma TableLeafSafeFitsExactly(kinds: seq<Table.Kind>)
    requires 0 < RowWidth(kinds) <= BLINK_LEAF_DATA_SIZE
    ensures (forall n: nat :: LeafSafe(n, RowWidth(kinds)) ==> (n + 1) * RowWidth(kinds) <= BLINK_LEAF_DATA_SIZE)
       <==> kinds != [Table.Str8]
  {
    RowWidthIs(kinds);
    LeafSafeFitsExactly(RowWidth(kinds));
    EightFails(RowWidth(kinds));
    EightIsOne(kinds);
    hide RowWidth, LeafSafe;
  }

  lemma EightIsOne(kinds: seq<Table.Kind>)
    ensures RowWidth(kinds) == 8 <==> kinds == [Table.Str8]
  {
    if RowWidth(kinds) == 8 {
      RowWidthIs(kinds[1..]);
      assert kinds == [kinds[0]] && Table.KindSize(kinds[0]) == 8;
    }
  }

  lemma EightFails(width: nat)
    requires 0 < width <= BLINK_LEAF_DATA_SIZE && width % 8 == 0
    ensures 4073 / width * width <= 4070 <==> width != 8
  {
    var j, m := width / 8, 4073 / width;
    DivBounds(4073, width);
    assert m * width == m * j * 8;
    if m * width > 4070 {
      FiveHundredNine(m, j);
    }
  }

  /** Such a leaf of 508 records is called safe; one more fills 4072 bytes of 4070. */
  lemma SafeOverruns()
    ensures RowWidth([Table.Str8]) == 8 && LeafSafe(508, 8) && (508 + 1) * 8 > BLINK_LEAF_DATA_SIZE
  {
  }

  lemma DivBounds(a: nat, d: nat)
    requires d > 0
    ensures a / d * d <= a < (a / d + 1) * d
  {
  }

  lemma MulMono(a: nat, b: nat, w: nat)
    requires a <= b
    ensures a * w <= b * w
  {
  }

  /** The records a leaf of that width has when it is first called unsafe. */
  function LeafCapacity(width: nat): nat
    requires width > 0
  {
    4073 / width
  }

  lemma FullLeaf(records: nat, width: nat)
    requires width > 0
    ensures records > 0 ==> (LeafSafe(records - 1, width) <==> records <= LeafCapacity(width))
    ensures !LeafSafe(LeafCapacity(width), width)
  {
    var m := LeafCapacity(width);
    DivBounds(4073, width);
    if records <= m {
      MulMono(records, m, width);
    } else {
      MulMono(m + 1, records, width);
    }
  }

  lemma RoomForThree(width: nat)
    requires 0 < width <= BLINK_LEAF_DATA_SIZE
    ensures LeafCapacity(width) >= 1
    ensures LeafCapacity(width) >= 3 <==> width <= 1357
  {
    var cap := LeafCapacity(width);
    DivBounds(4073, width);
    if cap >= 3 {
      MulMono(3, cap, width);
    } else {
      MulMono(cap + 1, 3, width);
    }
  }

  lemma FewDoNotFit(cap: nat) returns (rs: seq<Rec>, e: Rec)
    requires 1 <= cap < 3
    ensures Sorted(rs) && |rs| == cap && !CutFits(SplitLeaf(rs, e), cap)
  {
    rs, e := if cap == 1 then [Rec(10, [])] else [Rec(10, []), Rec(20, [])], Rec(5, []);
    SplitLeafJoins(rs, e, cap);
  }

  /** Splitting a full leaf leaves two halves that fit, for every leaf and record,
      exactly for the widths of which a page takes at least three records. */
  lemma SplitLeafFitsExactly(width: nat)
    requires 0 < width <= BLINK_LEAF_DATA_SIZE
    ensures (forall rs, e :: Sorted(rs) && |rs| == LeafCapacity(width) ==>
              CutFits(SplitLeaf(rs, e), LeafCapacity(width)))
            <==> width <= 1357
  {
    RoomForThree(width);
    var cap := LeafCapacity(width);
    hide LeafCapacity, SplitLeaf, Sorted;
    if cap >= 3 {
      forall rs, e | Sorted(rs) && |rs| == cap ensures CutFits(SplitLeaf(rs, e), cap) {
        SplitLeafJoins(rs, e, cap);
      }
    } else {
      var rs, e := FewDoNotFit(cap);
    }
  }

  /** Six attributes of 256 bytes leave room for two records; inserting 15 between
      10 and 20 leaves three in one page, 4608 bytes in an area of 4070. */
  lemma SplitOverruns()
    ensures var rs, e := [Rec(10, []), Rec(20, [])], Rec(15, []); var width := 6 * 256;
            && LeafCapacity(width) == |rs| && Sorted(rs)
            && |SplitLeaf(rs, e).left| == 3 && 3 * width > BLINK_LEAF_DATA_SIZE
  {
    var rs, e := [Rec(10, []), Rec(20, [])], Rec(15, []);
    TenTwenty();
    hide SplitLeaf, LeafInsert, Sorted, HasKey, CutInOrder;
    SplitLeafJoins(rs, e, 2);
  }

  lemma TenTwenty()
    ensures var rs := [Rec(10, []), Rec(20, [])]; Sorted(rs) && !HasKey(rs, 15)
  {
  }
}
