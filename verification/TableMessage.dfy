/** What a create-table command says and how it is laid out: the text a user
    writes, and the bytes the client makes of it. */
module TableMessage {
  import opened PageLayout

  type Text = seq<Byte>

  const SPACE: Byte := 32
  const COMMA: Byte := 44
  const BAR: Byte := 124

  datatype Kind = Int16 | Int32 | Int64 | Str8 | Str16 | Str32 | Str64 | Str128 | Str256

  /** int16, int32, int64, str8, str16, str32, str64, str128, str256 */
  function KindName(k: Kind): Text {
    match k
    case Int16 => [105, 110, 116, 49, 54]
    case Int32 => [105, 110, 116, 51, 50]
    case Int64 => [105, 110, 116, 54, 52]
    case Str8 => [115, 116, 114, 56]
    case Str16 => [115, 116, 114, 49, 54]
    case Str32 => [115, 116, 114, 51, 50]
    case Str64 => [115, 116, 114, 54, 52]
    case Str128 => [115, 116, 114, 49, 50, 56]
    case Str256 => [115, 116, 114, 50, 53, 54]
  }

  function KindCode(k: Kind): Byte {
    match k
    case Int16 => 1 case Int32 => 2 case Int64 => 3
    case Str8 => 4 case Str16 => 5 case Str32 => 6 case Str64 => 7 case Str128 => 8 case Str256 => 9
  }

  function KindSize(k: Kind): nat {
    match k
    case Int16 => 16 case Int32 => 32 case Int64 => 64
    case Str8 => 8 case Str16 => 16 case Str32 => 32 case Str64 => 64 case Str128 => 128 case Str256 => 256
  }

  /** The number that decimal digits spell. */
  ghost function Number(digits: Text): int {
    if digits == [] then 0 else 10 * Number(digits[..|digits| - 1]) + digits[|digits| - 1] - 48
  }

  /** A kind's size is the number in its name, behind the three letters. */
  lemma SizeIsSpelled(k: Kind)
    ensures |KindName(k)| > 3 && forall i :: 3 <= i < |KindName(k)| ==> 48 <= KindName(k)[i] <= 57
    ensures KindSize(k) == Number(KindName(k)[3..])
  {
    var d := KindName(k)[3..];
    assert Number(d[..1]) == d[0] - 48 by { assert d[..1][..0] == []; }
    assert |d| >= 2 ==> Number(d[..2]) == 10 * Number(d[..1]) + d[1] - 48 by {
      assert |d| >= 2 ==> d[..2][..1] == d[..1];
    }
    assert d[..|d|] == d;
  }

  /** The codes number the kinds from one on: integers first, then strings, each
      by size. */
  lemma CodesInOrder(a: Kind, b: Kind)
    ensures 1 <= KindCode(a) <= 9
    ensures KindCode(a) < KindCode(b) <==>
              KindName(a)[0] < KindName(b)[0] || (KindName(a)[0] == KindName(b)[0] && KindSize(a) < KindSize(b))
  {
  }

  datatype Attr = Attr(name: Text, kind: Kind)

  /** A letter, a digit or an underscore. */
  predicate IsNameByte(b: Byte) {
    48 <= b <= 57 || 65 <= b <= 90 || 97 <= b <= 122 || b == 95
  }

  predicate IsName(t: Text) {
    forall i :: 0 <= i < |t| ==> IsNameByte(t[i])
  }

  ghost predicate WellFormed(attrs: seq<Attr>) {
    attrs != [] && forall k :: 0 <= k < |attrs| ==> IsName(attrs[k].name) && |attrs[k].name| < 0x1_0000
  }

  /** No kind name starts another one, so a text starts with at most one. */
  lemma OneKindFits(t: Text, a: Kind, b: Kind)
    requires KindName(a) <= t && KindName(b) <= t
    ensures a == b
  {
    assert KindName(a)[0] == KindName(b)[0] && KindName(a)[3] == KindName(b)[3];
    if |KindName(a)| > 4 && |KindName(b)| > 4 {
      assert KindName(a)[4] == KindName(b)[4];
    }
  }

  // -------------------------------------------------- what the user writes

  function Item(a: Attr): Text { a.name + [SPACE] + KindName(a.kind) }

  /** The items, separated by commas. */
  ghost function Spelled(attrs: seq<Attr>): Text {
    if attrs == [] then []
    else if |attrs| == 1 then Item(attrs[0])
    else Item(attrs[0]) + [COMMA] + Spelled(attrs[1..])
  }

  ghost function Start(attrs: seq<Attr>, k: nat): nat
    requires k <= |attrs|
  {
    if k == 0 then 0 else |Item(attrs[0])| + 1 + Start(attrs[1..], k - 1)
  }

  lemma Inside(a: Text, b: Text, at: nat, n: nat)
    requires at + n <= |b|
    ensures (a + b)[|a| + at..|a| + at + n] == b[at..at + n]
    ensures at + n < |b| ==> (a + b)[|a| + at + n] == b[at + n]
  {
  }

  /** Where the `k`th item stands and what comes after it. */
  lemma {:induction false} ItemAt(attrs: seq<Attr>, k: nat)
    requires k < |attrs|
    ensures var s, at, n := Spelled(attrs), Start(attrs, k), |Item(attrs[k])|;
            && at + n <= |s| && s[at..at + n] == Item(attrs[k])
            && (if k + 1 < |attrs| then at + n < |s| && s[at + n] == COMMA else at + n == |s|)
            && Start(attrs, k + 1) == at + n + 1
  {
    hide Item;
    var rest := attrs[1..];
    assert Start(rest, 0) == 0;
    if |attrs| > 1 {
      var s, first := Spelled(attrs), Item(attrs[0]) + [COMMA];
      assert s == first + Spelled(rest);
      if k > 0 {
        ItemAt(rest, k - 1);
        Inside(first, Spelled(rest), Start(rest, k - 1), |Item(rest[k - 1])|);
      }
    }
  }

  /** Where the user wrote the digits of the `k`th kind. */
  ghost function DigitsFrom(attrs: seq<Attr>, k: nat): nat
    requires k < |attrs|
  {
    Start(attrs, k) + |attrs[k].name| + 4
  }

  /** In the user's text stand the name, a space, three letters and the size. */
  lemma SizeIsWritten(attrs: seq<Attr>, k: nat)
    requires k < |attrs|
    ensures var s, at, to := Spelled(attrs), DigitsFrom(attrs, k), Start(attrs, k) + |Item(attrs[k])|;
            at <= to <= |s| && s[at..to] == KindName(attrs[k].kind)[3..] && Number(s[at..to]) == KindSize(attrs[k].kind)
  {
    ItemAt(attrs, k);
    SizeIsSpelled(attrs[k].kind);
    var s, from, n, m := Spelled(attrs), Start(attrs, k), |Item(attrs[k])|, |attrs[k].name| + 4;
    hide Spelled, Number, Start;
    assert s[from + m..from + n] == s[from..from + n][m..];
    assert Item(attrs[k])[m..] == KindName(attrs[k].kind)[3..];
  }

  // ------------------------------------------------ what the client packs

  /** Two bytes of length, two bytes of kind. */
  function Head(a: Attr): Text
    requires |a.name| < 0x1_0000
  {
    [|a.name| % 256, |a.name| / 256, KindCode(a.kind), 0]
  }

  ghost function Packed(attrs: seq<Attr>): Text
    requires forall k :: 0 <= k < |attrs| ==> |attrs[k].name| < 0x1_0000
  {
    if attrs == [] then []
    else
      var n := |attrs| - 1;
      Packed(attrs[..n]) + Head(attrs[n]) + attrs[n].name
  }

  ghost function Offset(attrs: seq<Attr>, k: nat): nat
    requires k <= |attrs|
  {
    if k == 0 then 0 else Offset(attrs, k - 1) + 4 + |attrs[k - 1].name|
  }

  lemma {:induction false} OffsetIsLength(attrs: seq<Attr>, k: nat)
    requires k <= |attrs| && forall j :: 0 <= j < |attrs| ==> |attrs[j].name| < 0x1_0000
    ensures |Packed(attrs[..k])| == Offset(attrs, k)
  {
    if k > 0 {
      assert attrs[..k][..k - 1] == attrs[..k - 1];
      OffsetIsLength(attrs, k - 1);
    }
  }

  lemma PackedNext(attrs: seq<Attr>, k: nat)
    requires k < |attrs| && forall j :: 0 <= j < |attrs| ==> |attrs[j].name| < 0x1_0000
    ensures Packed(attrs[..k + 1]) == Packed(attrs[..k]) + Head(attrs[k]) + attrs[k].name
  {
    assert attrs[..k + 1][..k] == attrs[..k];
  }

  lemma {:induction false} PackedStarts(attrs: seq<Attr>, k: nat)
    requires k <= |attrs| && forall j :: 0 <= j < |attrs| ==> |attrs[j].name| < 0x1_0000
    ensures Packed(attrs[..k]) <= Packed(attrs)
    decreases |attrs| - k
  {
    if k < |attrs| {
      PackedNext(attrs, k);
      PackedStarts(attrs, k + 1);
    } else {
      assert attrs[..k] == attrs;
    }
  }

  /** The head and the name of the `k`th attribute among the packed bytes. */
  lemma PackedAt(attrs: seq<Attr>, k: nat)
    requires k < |attrs| && forall j :: 0 <= j < |attrs| ==> |attrs[j].name| < 0x1_0000
    ensures var p, at := Packed(attrs), Offset(attrs, k);
            && at + 4 + |attrs[k].name| == Offset(attrs, k + 1) <= |p|
            && p[at..at + 4] == Head(attrs[k]) && p[at + 4..Offset(attrs, k + 1)] == attrs[k].name
  {
    OffsetIsLength(attrs, k);
    OffsetIsLength(attrs, k + 1);
    PackedNext(attrs, k);
    PackedStarts(attrs, k + 1);
    var p, q := Packed(attrs), Packed(attrs[..k + 1]);
    var at, to := Offset(attrs, k), Offset(attrs, k + 1);
    assert p[at..at + 4] == q[at..at + 4];
    assert p[at + 4..to] == q[at + 4..to];
  }

  lemma PackedEnds(attrs: seq<Attr>)
    requires forall j :: 0 <= j < |attrs| ==> |attrs[j].name| < 0x1_0000
    ensures Offset(attrs, |attrs|) == |Packed(attrs)|
  {
    OffsetIsLength(attrs, |attrs|);
    assert attrs[..|attrs|] == attrs;
  }

  /** Packing takes no more room than the text it is made from. */
  lemma {:induction false} PackedIsShorter(attrs: seq<Attr>, k: nat)
    requires k <= |attrs|
    ensures Offset(attrs, k) <= Start(attrs, k)
  {
    if k > 0 {
      PackedIsShorter(attrs, k - 1);
      ItemAt(attrs, k - 1);
    }
  }

  /** The text of a message body after its command number. */
  ghost function Body(table: Text, attrs: seq<Attr>): Text
    requires forall k :: 0 <= k < |attrs| ==> |attrs[k].name| < 0x1_0000
  {
    [BAR] + table + [BAR] + Packed(attrs)
  }

  /** The bytes from `at` up to the first zero, as C reads a string. */
  ghost function CString(b: Text, at: nat): Text
    decreases |b| - at
  {
    if at >= |b| || b[at] == 0 then [] else [b[at]] + CString(b, at + 1)
  }

  lemma {:induction false} CStringIs(b: Text, at: nat, t: Text)
    requires at + |t| < |b| && b[at + |t|] == 0
    requires forall i :: 0 <= i < |t| ==> b[at + i] == t[i] && t[i] != 0
    ensures CString(b, at) == t
    decreases |t|
  {
    if t != [] {
      assert forall i :: 0 <= i < |t[1..]| ==> b[at + 1 + i] == t[1..][i] by {
        assert forall i :: 0 <= i < |t[1..]| ==> t[1..][i] == t[i + 1];
      }
      CStringIs(b, at + 1, t[1..]);
      assert b[at + 0] == t[0];
    }
  }
}
