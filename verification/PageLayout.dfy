/** The 4096-byte slotted page as bytes: a header, entries growing up, a map of
    two-byte slots growing down, and what such bytes represent. */
module PageLayout {
  import opened Bits

  const PAGE_SIZE := 4096
  const CHECKSUM := 0
  const NEXT_PAGE_ID := 2
  const PAGE_ID := 6
  const RECORD_NUM := 10
  const DATA_WIDTH := 12
  const FLAGS := 14
  const FREE_SLOT := 16
  const PAGE_TYPE := 18
  const DATA := 32
  const SLOT_SIZE := 2
  const ENTRY_LIMIT := 4062

  const PAGE_IS_FULL := 0xffff
  const SLOT_NULL := 0x1fff

  type Byte = b: int | 0 <= b < 256
  type Half = h: int | 0 <= h < 0x1_0000
  type Id = d: int | 0 <= d < 0x1_0000_0000
  type Image = s: seq<Byte> | |s| == PAGE_SIZE witness seq(PAGE_SIZE, _ => 0)

  // ------------------------------------------------------- words in a page

  function Word(s: Image, at: nat): Half
    requires at + 2 <= PAGE_SIZE
  {
    var low: int, high: int := s[at], s[at + 1];
    low + 256 * high
  }

  function PutWord(s: Image, at: nat, h: Half): (r: Image)
    requires at + 2 <= PAGE_SIZE
    ensures Word(r, at) == h
    ensures forall k :: 0 <= k < PAGE_SIZE && k != at && k != at + 1 ==> r[k] == s[k]
    ensures forall p: nat :: p + 2 <= PAGE_SIZE && (p + 2 <= at || at + 2 <= p) ==> Word(r, p) == Word(s, p)
  {
    s[at := h % 256][at + 1 := h / 256]
  }

  function Long(s: Image, at: nat): Id
    requires at + 4 <= PAGE_SIZE
  {
    Word(s, at) + 0x1_0000 * Word(s, at + 2)
  }

  function PutBytes(s: Image, at: nat, b: seq<Byte>): (r: Image)
    requires at + |b| <= PAGE_SIZE
    ensures r[at..at + |b|] == b
    ensures forall k :: 0 <= k < PAGE_SIZE && (k < at || at + |b| <= k) ==> r[k] == s[k]
    ensures forall p: nat :: p + 2 <= PAGE_SIZE && (p + 2 <= at || at + |b| <= p) ==> Word(r, p) == Word(s, p)
  {
    s[..at] + b + s[at + |b|..]
  }

  /** The two images agree on the bytes from `from` up to `to`. */
  ghost predicate SameBytes(s: Image, r: Image, from: nat, to: nat) {
    forall k :: from <= k < to && k < PAGE_SIZE ==> r[k] == s[k]
  }

  // ---------------------------------------------------------------- layout

  function MaxEntries(width: nat): nat {
    (PAGE_SIZE - DATA) / (width + SLOT_SIZE)
  }

  /** The test the program makes for a full page. */
  predicate IsPageFull(width: nat, records: nat) {
    PAGE_SIZE - DATA < (width + SLOT_SIZE) * (records + 1)
  }

  lemma MulMonotone(a: nat, b: nat, c: nat)
    requires a <= b
    ensures a * c <= b * c
  {
  }

  lemma DivisionFits(a: nat, d: nat)
    requires d > 0
    ensures (a / d) * d <= a < (a / d + 1) * d
  {
  }

  /** A page is full exactly when it holds as many records as it has slots. */
  lemma FullAtTheMaximum(width: nat, records: nat)
    ensures IsPageFull(width, records) <==> records >= MaxEntries(width)
  {
    var d, m := width + SLOT_SIZE, MaxEntries(width);
    DivisionFits(PAGE_SIZE - DATA, d);
    if records >= m {
      MulMonotone(m + 1, records + 1, d);
    } else {
      MulMonotone(records + 1, m, d);
    }
    assert d * (records + 1) == (records + 1) * d;
  }

  lemma AtLeastOne(width: nat)
    requires width <= ENTRY_LIMIT
    ensures MaxEntries(width) >= 1
  {
    DivisionFits(PAGE_SIZE - DATA, width + SLOT_SIZE);
  }

  function SlotAt(i: nat): int { PAGE_SIZE - SLOT_SIZE - SLOT_SIZE * i }

  function EntryAt(width: nat, i: nat): nat { DATA + i * width }

  lemma NextEntry(width: nat, i: nat, j: nat)
    requires i < j
    ensures i * width + width <= j * width
  {
    MulMonotone(i + 1, j, width);
    assert (i + 1) * width == i * width + width;
  }

  lemma Spread(m: nat, a: nat, b: nat)
    ensures m * (a + b) == m * a + b * m
  {
  }

  /** Entries and slots are inside the page, no entry reaches into the slots, no
      two entries overlap and no two slots overlap. */
  lemma AreasApart(width: nat, i: nat, j: nat)
    requires i < MaxEntries(width) && j < MaxEntries(width)
    ensures DATA <= EntryAt(width, i) && EntryAt(width, i) + width <= SlotAt(j) && SlotAt(j) + SLOT_SIZE <= PAGE_SIZE
    ensures i < j ==> EntryAt(width, i) + width <= EntryAt(width, j) && SlotAt(j) + SLOT_SIZE <= SlotAt(i)
  {
    var m := MaxEntries(width);
    DivisionFits(PAGE_SIZE - DATA, width + SLOT_SIZE);
    Spread(m, width, SLOT_SIZE);
    NextEntry(width, i, m);
    if i < j {
      NextEntry(width, i, j);
    }
    hide MaxEntries;
    BelowSlots(i * width, width, m * width, m, j);
  }

  lemma BelowSlots(at: nat, width: nat, all: nat, m: nat, j: nat)
    requires at + width <= all && all + SLOT_SIZE * m <= PAGE_SIZE - DATA && j < m
    ensures DATA + at + width <= PAGE_SIZE - SLOT_SIZE - SLOT_SIZE * j
  {
  }

  function Entry(s: Image, width: nat, i: nat): seq<Byte>
    requires i < MaxEntries(width)
  {
    AreasApart(width, i, i);
    s[EntryAt(width, i)..EntryAt(width, i) + width]
  }

  function Slot(s: Image, width: nat, i: nat): Half
    requires i < MaxEntries(width)
  {
    AreasApart(width, i, i);
    Word(s, SlotAt(i))
  }

  // the bits of a slot word: null mark, seat, thirteen bits of link
  predicate Seated(slot: Half) { slot / 0x4000 % 2 == 1 }
  predicate MarkedNull(slot: Half) { slot / 0x8000 % 2 == 1 }
  function SetSeat(slot: Half): Half { if Seated(slot) then slot else slot + 0x4000 }
  function SetNull(slot: Half): Half { if MarkedNull(slot) then slot else slot + 0x8000 }
  function SlotValue(slot: Half): Half { slot % 0x2000 }

  /** Taking a free slot sets its seat, marks it if asked and keeps its link. */
  lemma SlotBits(slot: Half)
    requires slot < 0x2000
    ensures !Seated(slot) && SlotValue(slot) == slot
    ensures Seated(SetSeat(slot)) && !MarkedNull(SetSeat(slot)) && SlotValue(SetSeat(slot)) == slot
    ensures var n := SetSeat(SetNull(slot)); Seated(n) && MarkedNull(n) && SlotValue(n) == slot
  {
  }

  lemma FewEntries(width: nat)
    ensures MaxEntries(width) <= (PAGE_SIZE - DATA) / SLOT_SIZE
  {
    var m := MaxEntries(width);
    DivisionFits(PAGE_SIZE - DATA, width + SLOT_SIZE);
    assert m * (width + SLOT_SIZE) == m * width + m * SLOT_SIZE;
  }

  // -------------------------------------------------------------- checksum

  /** Exclusive-or of the words 1 to `n`; word 0 is the checksum itself. */
  function Fold(s: Image, n: nat): (h: Half)
    requires 2 * n + 2 <= PAGE_SIZE
  {
    if n == 0 then 0
    else
      XorBound(Fold(s, n - 1), Word(s, 2 * n), 16);
      Pow2Words();
      Xor(Fold(s, n - 1), Word(s, 2 * n), 16)
  }

  /** How many of the words 1 to `n` have bit `k`. */
  ghost function WordsWith(s: Image, n: nat, k: nat): nat
    requires 2 * n + 2 <= PAGE_SIZE
  {
    if n == 0 then 0 else WordsWith(s, n - 1, k) + if Bit(Word(s, 2 * n), k) then 1 else 0
  }

  /** A bit of the checksum says whether an odd number of words has it. */
  lemma {:induction false} ChecksumIsParity(s: Image, n: nat, k: nat)
    requires 2 * n + 2 <= PAGE_SIZE && k < 16
    ensures Bit(Fold(s, n), k) <==> WordsWith(s, n, k) % 2 == 1
  {
    if n == 0 {
      ZeroBits(k);
    } else {
      ChecksumIsParity(s, n - 1, k);
      XorBits(Fold(s, n - 1), Word(s, 2 * n), 16, k);
    }
  }

  lemma {:induction false} ZeroBits(k: nat)
    ensures !Bit(0, k)
  {
    if k > 0 {
      ZeroBits(k - 1);
    }
  }

  const LAST_WORD := PAGE_SIZE / 2 - 1

  predicate ChecksumHolds(s: Image) { Word(s, CHECKSUM) == Fold(s, LAST_WORD) }

  function Sealed(s: Image): Image { PutWord(s, CHECKSUM, Fold(s, LAST_WORD)) }

  lemma {:induction false} FoldReads(s: Image, r: Image, n: nat)
    requires 2 * n + 2 <= PAGE_SIZE && SameBytes(s, r, 2, 2 * n + 2)
    ensures Fold(r, n) == Fold(s, n)
  {
    if n > 0 {
      FoldReads(s, r, n - 1);
    }
  }

  lemma SealHolds(s: Image)
    ensures ChecksumHolds(Sealed(s))
  {
    FoldReads(s, Sealed(s), LAST_WORD);
  }

  lemma XorInjective(a: Half, b: Half, c: Half)
    requires Xor(a, c, 16) == Xor(b, c, 16) || Xor(c, a, 16) == Xor(c, b, 16)
    ensures a == b
  {
    Pow2Words();
    XorCommutes(c, a, 16);
    XorCommutes(c, b, 16);
    XorCancels(a, c, 16);
    XorCancels(b, c, 16);
  }

  lemma {:induction false} OneWordOff(s: Image, r: Image, k: nat, n: nat)
    requires 1 <= k <= n <= LAST_WORD && Word(s, 2 * k) != Word(r, 2 * k)
    requires SameBytes(s, r, 2, 2 * k) && SameBytes(s, r, 2 * k + 2, PAGE_SIZE)
    ensures Fold(s, n) != Fold(r, n)
  {
    if n == k {
      FoldReads(s, r, n - 1);
      if Fold(s, n) == Fold(r, n) {
        XorInjective(Word(s, 2 * n), Word(r, 2 * n), Fold(s, n - 1));
      }
    } else {
      OneWordOff(s, r, k, n - 1);
      if Fold(s, n) == Fold(r, n) {
        XorInjective(Fold(s, n - 1), Fold(r, n - 1), Word(s, 2 * n));
      }
    }
  }

  lemma SameWord(s: Image, r: Image, k: nat)
    requires k <= LAST_WORD && SameBytes(s, r, 0, 2 * k) && SameBytes(s, r, 2 * k + 2, PAGE_SIZE)
    ensures Word(s, 2 * k) == Word(r, 2 * k) ==> s == r
  {
    if Word(s, 2 * k) == Word(r, 2 * k) {
      forall j | 0 <= j < PAGE_SIZE ensures s[j] == r[j] {
      }
    }
  }

  /** Damage confined to one two-byte word, the checksum's own included, is
      always noticed. */
  lemma DamageIsNoticed(s: Image, r: Image, k: nat)
    requires ChecksumHolds(s) && k <= LAST_WORD && r != s
    requires SameBytes(s, r, 0, 2 * k) && SameBytes(s, r, 2 * k + 2, PAGE_SIZE)
    ensures !ChecksumHolds(r)
  {
    SameWord(s, r, k);
    if k == 0 {
      FoldReads(s, r, LAST_WORD);
    } else {
      OneWordOff(s, r, k, LAST_WORD);
    }
  }
}
