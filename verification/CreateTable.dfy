/** The create-table command on its way: the client packs the attributes, the
    server splits the message and unpacks them in place. */
module CreateTable {
  import opened PageLayout
  import opened TableMessage

  /** The byte at `i`, with the zero that ends a C string. */
  function At(str: Text, i: nat): Byte {
    if i < |str| then str[i] else 0
  }

  predicate NoZero(t: Text) { forall i :: 0 <= i < |t| ==> t[i] != 0 }

  /** Does the text at `h` start with `b`? */
  method StrCmp(str: Text, h: nat, b: Text) returns (same: bool)
    requires h <= |str| && NoZero(b)
    ensures same <==> b <= str[h..]
  {
    var i := 0;
    while i < |b|
      invariant i <= |b| && h + i <= |str| && b[..i] == str[h..h + i]
    {
      if At(str, h + i) != b[i] {
        assert i >= |str[h..]| || str[h..][i] != b[i];
        return false;
      }
      i := i + 1;
    }
    assert b[..|b|] == b && str[h..][..|b|] == str[h..h + |b|];
    return true;
  }

  /** The code of the kind whose name the text at `h` starts with, 0 if it starts
      with none. */
  method StrToType(str: Text, h: nat) returns (code: Byte)
    requires h <= |str|
    ensures forall k :: KindName(k) <= str[h..] ==> code == KindCode(k)
    ensures code == 0 <==> forall k :: !(KindName(k) <= str[h..])
  {
    forall a, b | KindName(a) <= str[h..] && KindName(b) <= str[h..] ensures a == b {
      OneKindFits(str[h..], a, b);
    }
    var c := StrCmp(str, h, KindName(Int16));
    if c { return 1; }
    c := StrCmp(str, h, KindName(Int32));
    if c { return 2; }
    c := StrCmp(str, h, KindName(Int64));
    if c { return 3; }
    c := StrCmp(str, h, KindName(Str8));
    if c { return 4; }
    c := StrCmp(str, h, KindName(Str16));
    if c { return 5; }
    c := StrCmp(str, h, KindName(Str32));
    if c { return 6; }
    c := StrCmp(str, h, KindName(Str64));
    if c { return 7; }
    c := StrCmp(str, h, KindName(Str128));
    if c { return 8; }
    c := StrCmp(str, h, KindName(Str256));
    if c { return 9; }
    forall k ensures !(KindName(k) <= str[h..]) {
      match k
      case Int16 => case Int32 => case Int64 => case Str8 => case Str16 =>
      case Str32 => case Str64 => case Str128 => case Str256 =>
    }
    return 0;
  }

  method CopyTo(buf: array<Byte>, at: nat, text: Text)
    requires at + |text| <= buf.Length
    modifies buf
    ensures buf[at..at + |text|] == text
    ensures forall j :: 0 <= j < buf.Length && !(at <= j < at + |text|) ==> buf[j] == old(buf[j])
  {
    var k := 0;
    while k < |text|
      invariant k <= |text|
      invariant forall j :: 0 <= j < buf.Length ==> buf[j] == if at <= j < at + k then text[j - at] else old(buf[j])
    {
      buf[at + k] := text[k];
      k := k + 1;
    }
  }

  lemma KindNameBytes(k: Kind)
    ensures IsName(KindName(k)) && 4 <= |KindName(k)| <= 6
  {
  }

  lemma ItemBytes(s: Text, at: nat, x: Text, y: Text, i: nat)
    requires at + |x| + 1 + |y| <= |s| && s[at..at + |x| + 1 + |y|] == x + [SPACE] + y
    requires at <= i < at + |x| + 1 + |y|
    ensures s[i] == if i < at + |x| then x[i - at] else if i == at + |x| then SPACE else y[i - at - |x| - 1]
    ensures s[at..at + |x|] == x && y <= s[at + |x| + 1..]
  {
    var n := |x| + 1 + |y|;
    assert s[i] == s[at..at + n][i - at];
    assert s[at..at + |x|] == s[at..at + n][..|x|];
    assert s[at + |x| + 1..][..|y|] == s[at..at + n][|x| + 1..];
  }

  /** What stands at position `i` of the text, in the `k`th item. */
  lemma ByteOfItem(attrs: seq<Attr>, k: nat, i: nat)
    requires WellFormed(attrs) && k < |attrs| && Start(attrs, k) <= i <= Start(attrs, k) + |Item(attrs[k])|
    ensures var s, at, a, b := Spelled(attrs), Start(attrs, k), attrs[k], At(Spelled(attrs), i);
            && at + |a.name| + 1 + |KindName(a.kind)| <= |s| && |Item(a)| == |a.name| + 1 + |KindName(a.kind)|
            && (i < at + |a.name| ==> IsNameByte(b) && b == a.name[i - at])
            && (i == at + |a.name| ==> b == SPACE)
            && (at + |a.name| < i < at + |Item(a)| ==> IsNameByte(b))
            && (i == at + |Item(a)| ==> b == if k + 1 < |attrs| then COMMA else 0)
            && s[at..at + |a.name|] == a.name && KindName(a.kind) <= s[at + |a.name| + 1..]
            && Start(attrs, k + 1) == at + |Item(a)| + 1
  {
    hide KindName, Spelled, Start, IsNameByte;
    ItemAt(attrs, k);
    var s, at, a := Spelled(attrs), Start(attrs, k), attrs[k];
    KindNameBytes(a.kind);
    ItemBytes(s, at, a.name, KindName(a.kind), at);
    if i < at + |Item(a)| {
      ItemBytes(s, at, a.name, KindName(a.kind), i);
    }
  }

  /** The length and the name of an attribute. */
  method PutName(packed: array<Byte>, index: nat, name: Text)
    requires index + 4 + |name| <= packed.Length && |name| < 0x1_0000
    modifies packed
    ensures packed[..index] == old(packed[..index])
    ensures Named(packed[..], index, name)
  {
    CopyTo(packed, index, [|name| % 256, |name| / 256]);
    CopyTo(packed, index + 4, name);
  }

  ghost predicate Named(b: Text, index: nat, name: Text) {
    && index + 4 + |name| <= |b| && |name| < 0x1_0000
    && b[index] == |name| % 256 && b[index + 1] == |name| / 256 && b[index + 4..index + 4 + |name|] == name
  }

  /** The kind, which completes the attribute. */
  method PutKind(packed: array<Byte>, index: nat, code: Byte, ghost attrs: seq<Attr>, ghost k: nat)
    requires WellFormed(attrs) && k < |attrs| && code == KindCode(attrs[k].kind)
    requires index == Offset(attrs, k) && Named(packed[..], index, attrs[k].name)
    requires packed[..index] == Packed(attrs[..k])
    modifies packed
    ensures index + 4 + |attrs[k].name| == Offset(attrs, k + 1) <= packed.Length
    ensures packed[..Offset(attrs, k + 1)] == Packed(attrs[..k + 1])
  {
    assert |Head(attrs[k])| == 4;
    hide Packed, WellFormed;
    ghost var b, n := packed[..], index + 4 + |attrs[k].name|;
    packed[index + 2], packed[index + 3] := code, 0;
    PackedNext(attrs, k);
    assert packed[..n] == packed[..index] + packed[index..index + 4] + packed[index + 4..n];
    assert packed[..index] == b[..index] && packed[index + 4..n] == b[index + 4..n];
    assert packed[index..index + 4] == Head(attrs[k]);
  }

  /** Pack the attributes a user has spelled out. */
  method AttrTypeFormater(str: Text, ghost attrs: seq<Attr>) returns (packed: array<Byte>, slen: nat)
    requires WellFormed(attrs) && str == Spelled(attrs) && |str| < 0x1_0000
    ensures fresh(packed) && slen <= packed.Length && packed[..slen] == Packed(attrs)
  {
    hide Spelled, Packed, Offset, Start, KindName, Item, Head, Named, IsNameByte;
    packed := new Byte[|str| + 64](_ => 0);
    var i, h, len, plen, index := 0, 0, 0, 0, 0;
    ghost var k, inKind := 0, false;
    Begin(attrs);
    while true
      invariant 0 <= k < |attrs| && h + len == i <= |str|
      invariant index == Offset(attrs, k) <= Start(attrs, k) <= i && packed[..index] == Packed(attrs[..k])
      invariant !inKind ==> h == Start(attrs, k) && len <= |attrs[k].name|
      invariant inKind ==> h == Start(attrs, k) + |attrs[k].name| + 1 && len <= |KindName(attrs[k].kind)|
      invariant inKind ==> plen == |attrs[k].name| && Named(packed[..], index, attrs[k].name)
      decreases |str| - i
    {
      ItemLength(attrs[k]);
      ByteOfItem(attrs, k, i);
      MarksAreNoNameBytes();
      var c := At(str, i);
      if IsNameByte(c) {
        len := len + 1;
      }
      if c == SPACE {
        PutName(packed, index, str[h..h + len]);
        h := h + len + 1;
        plen := len;
        len := 0;
        inKind := true;
      }
      if c == COMMA || c == 0 {
        var code := StrToType(str, h);
        PutKind(packed, index, code, attrs, k);
        PackedIsShorter(attrs, k + 1);
        index := index + plen + 4;
        h := h + len + 1;
        len := 0;
        if c == 0 {
          assert attrs[..k + 1] == attrs;
          break;
        }
        k, inKind := k + 1, false;
      }
      i := i + 1;
    }
    slen := index;
  }

  lemma ItemLength(a: Attr)
    ensures |Item(a)| == |a.name| + 1 + |KindName(a.kind)|
  {
  }

  lemma MarksAreNoNameBytes()
    ensures !IsNameByte(SPACE) && !IsNameByte(COMMA) && !IsNameByte(0)
  {
  }

  lemma Begin(attrs: seq<Attr>)
    ensures attrs[..0] == [] && Packed(attrs[..0]) == [] && Offset(attrs, 0) == 0 == Start(attrs, 0)
  {
  }

  // ------------------------------------------------------------ the message

  const MSG_TYPE_CMD: Byte := 1
  const BUFSIZE := 4096
  const MAX_CMDLEN := 512

  function FourBytes(n: nat): Text
    requires n < 0x1_0000_0000
  {
    [n % 256, n / 0x100 % 256, n / 0x1_0000 % 256, n / 0x100_0000]
  }

  /** The pieces of the body, one after the other from byte 9 on. */
  method PutBody(buf: array<Byte>, table: Text, packed: Text) returns (n: nat)
    requires 11 + |table| + |packed| <= buf.Length
    modifies buf
    ensures n == 2 + |table| + |packed| && buf[9..9 + n] == [BAR] + table + [BAR] + packed
    ensures forall j :: 0 <= j < 9 ==> buf[j] == old(buf[j])
  {
    n := 1 + |table|;
    CopyTo(buf, 9, [BAR] + table);
    ghost var first := buf[9..9 + n];
    CopyTo(buf, 9 + n, [BAR]);
    ghost var second := buf[9 + n..10 + n];
    CopyTo(buf, 10 + n, packed);
    assert buf[9..9 + n] == first && buf[9 + n..10 + n] == second;
    assert buf[9..10 + n + |packed|] == buf[9..9 + n] + buf[9 + n..10 + n] + buf[10 + n..10 + n + |packed|];
    n := n + 1 + |packed|;
  }

  /** The message a client sends: a type, the length of what follows the command
      number, the command number, and the body. */
  method TableCommand(cmd: nat, table: Text, str: Text, ghost attrs: seq<Attr>) returns (wire: Text)
    requires cmd < 0x1_0000_0000 && WellFormed(attrs) && str == Spelled(attrs) && |str| < 0x1_0000
    requires |Body(table, attrs)| + 9 <= BUFSIZE
    ensures wire == [MSG_TYPE_CMD] + FourBytes(|Body(table, attrs)|) + FourBytes(cmd) + Body(table, attrs)
  {
    hide Spelled, Packed, FourBytes, WellFormed;
    var packed, slen := AttrTypeFormater(str, attrs);
    var buf := new Byte[BUFSIZE](_ => 0);
    FourLong();
    CopyTo(buf, 5, FourBytes(cmd));
    var n := PutBody(buf, table, packed[..slen]);
    ghost var before := buf[..];
    assert before[5..9] == FourBytes(cmd);
    CopyTo(buf, 0, [MSG_TYPE_CMD] + FourBytes(n));
    wire := buf[..n + 9];
    ThreeParts(buf[..], before, n);
  }

  /** The header, the command number and the body, one after the other. */
  lemma ThreeParts(b: Text, before: Text, n: nat)
    requires |b| == |before| && n + 9 <= |b| && forall j :: 5 <= j < |b| ==> b[j] == before[j]
    ensures b[..n + 9] == b[0..5] + before[5..9] + before[9..9 + n]
  {
  }

  lemma FourLong()
    ensures forall n: nat :: n < 0x1_0000_0000 ==> |FourBytes(n)| == 4
  {
  }

  // ------------------------------------------------------------- the server

  function TypeToSize(code: nat): nat {
    match code
    case 1 => 16 case 2 => 32 case 3 => 64
    case 4 => 8 case 5 => 16 case 6 => 32 case 7 => 64 case 8 => 128 case 9 => 256
    case _ => 0
  }

  /** Split a body of `msgLen` bytes, counted with the separator in front of it
      that has been skipped: the table's name up to the next separator, and the
      rest behind it.  The separator becomes a zero. */
  method Executer(buf: array<Byte>, base: nat, msgLen: nat) returns (second: int, rest: int)
    requires base + msgLen <= buf.Length
    modifies buf
    ensures BAR !in old(buf[base..base + msgLen]) ==> second == -1 && rest == 0 && buf[..] == old(buf[..])
    ensures BAR in old(buf[base..base + msgLen]) ==>
              && base < second <= base + msgLen && old(buf[second - 1]) == BAR && BAR !in old(buf[base..second - 1])
              && buf[..] == old(buf[..])[second - 1 := 0] && rest == msgLen - (second - base) - 1
  {
    second := -1;
    var i := 0;
    while i < msgLen
      invariant i <= msgLen && second == -1 && BAR !in buf[base..base + i] && buf[..] == old(buf[..])
    {
      if buf[base + i] == BAR {
        buf[base + i] := 0;
        second := base + i + 1;
        assert old(buf[base..base + msgLen])[i] == BAR;
        assert old(buf[base..second - 1]) == old(buf[base..base + i]);
        i := i + 2;
        return second, msgLen - i;
      }
      assert buf[base..base + i + 1] == buf[base..base + i] + [buf[base + i]];
      i := i + 1;
    }
    return -1, msgLen - i;
  }

  /** The attribute bytes in the buffer while the first `k` attributes have been
      read: heads still to be read are there, names are untouched, and behind
      each name that has been read there is a zero. */
  ghost predicate Unpacking(b: Text, str: nat, attrs: seq<Attr>, k: nat)
    requires k <= |attrs|
  {
    && (forall j :: 0 <= j < |attrs| ==> NameThere(b, str, attrs, j))
    && (forall j :: k < j < |attrs| ==> HeadThere(b, str, attrs, j))
    && (forall j :: 0 < j <= k ==> ZeroAt(b, str, attrs, j))
  }

  ghost predicate NameThere(b: Text, str: nat, attrs: seq<Attr>, j: nat) {
    && j < |attrs| && str + Offset(attrs, j + 1) <= |b|
    && b[str + Offset(attrs, j) + 4..str + Offset(attrs, j) + 4 + |attrs[j].name|] == attrs[j].name
  }

  ghost predicate HeadThere(b: Text, str: nat, attrs: seq<Attr>, j: nat) {
    && j < |attrs| && |attrs[j].name| < 0x1_0000 && str + Offset(attrs, j + 1) <= |b|
    && b[str + Offset(attrs, j)..str + Offset(attrs, j) + 4] == Head(attrs[j])
  }

  ghost predicate ZeroAt(b: Text, str: nat, attrs: seq<Attr>, j: nat) {
    j <= |attrs| && str + Offset(attrs, j) < |b| && b[str + Offset(attrs, j)] == 0
  }

  lemma {:induction false} OffsetsRise(attrs: seq<Attr>, j: nat, k: nat)
    requires j < k <= |attrs|
    ensures Offset(attrs, j) + 4 + |attrs[j].name| == Offset(attrs, j + 1) <= Offset(attrs, k)
  {
    if j + 1 < k {
      OffsetsRise(attrs, j, k - 1);
    }
  }

  lemma SubText(b: Text, str: nat, n: nat, from: nat, to: nat)
    requires str + n <= |b| && from <= to <= n
    ensures b[str..str + n][from..to] == b[str + from..str + to]
  {
    var x, y := b[str..str + n][from..to], b[str + from..str + to];
    forall k | 0 <= k < to - from ensures x[k] == y[k] {
    }
  }

  /** The packed bytes hold every head and every name. */
  lemma AllThere(b: Text, str: nat, attrs: seq<Attr>)
    requires WellFormed(attrs) && str + |Packed(attrs)| <= |b| && b[str..str + |Packed(attrs)|] == Packed(attrs)
    ensures HeadThere(b, str, attrs, 0) && Unpacking(b, str, attrs, 0)
  {
    hide Packed, Offset, Head;
    var p := Packed(attrs);
    PackedAt(attrs, 0);
    forall j | 0 <= j < |attrs| ensures NameThere(b, str, attrs, j) && HeadThere(b, str, attrs, j) {
      PackedAt(attrs, j);
      var at, to := Offset(attrs, j), Offset(attrs, j + 1);
      SubText(b, str, |p|, at, at + 4);
      SubText(b, str, |p|, at + 4, to);
    }
  }

  /** Putting the zero behind the `k`th name, over the head that has been read. */
  lemma ZeroBehind(b: Text, b': Text, str: nat, attrs: seq<Attr>, k: nat)
    requires k < |attrs| && Unpacking(b, str, attrs, k) && str + Offset(attrs, k + 1) < |b|
    requires b' == b[str + Offset(attrs, k + 1) := 0]
    ensures Unpacking(b', str, attrs, k + 1)
  {
    var at := str + Offset(attrs, k + 1);
    forall j | 0 <= j < |attrs| ensures NameThere(b', str, attrs, j) {
      assert NameThere(b, str, attrs, j);
      if j < k {
        OffsetsRise(attrs, j, k + 1);
      } else if k + 1 < j {
        OffsetsRise(attrs, k + 1, j);
      } else {
        OffsetsRise(attrs, k, k + 1);
      }
      var from, n := str + Offset(attrs, j) + 4, |attrs[j].name|;
      assert b'[from..from + n] == b[from..from + n];
    }
    forall j | k + 1 < j < |attrs| ensures HeadThere(b', str, attrs, j) {
      assert HeadThere(b, str, attrs, j);
      OffsetsRise(attrs, k + 1, j);
      var from := str + Offset(attrs, j);
      assert b'[from..from + 4] == b[from..from + 4];
    }
    forall j | 0 < j <= k + 1 ensures ZeroAt(b', str, attrs, j) {
      if j <= k {
        assert ZeroAt(b, str, attrs, j);
      }
    }
  }

  function TwoBytes(t: Text, at: nat): nat
    requires at + 2 <= |t|
  {
    var low: int, high: int := t[at], t[at + 1];
    low + 256 * high
  }

  lemma HeadTells(attrs: seq<Attr>, k: nat)
    requires WellFormed(attrs) && k < |attrs|
    ensures var d := Head(attrs[k]);
            |d| == 4 && TwoBytes(d, 0) == |attrs[k].name| && TypeToSize(TwoBytes(d, 2)) == KindSize(attrs[k].kind)
  {
  }

  /** The next head has not been touched yet. */
  lemma NextHead(b: Text, str: nat, attrs: seq<Attr>, k: nat)
    requires WellFormed(attrs) && k < |attrs| && Unpacking(b, str, attrs, k)
    ensures Offset(attrs, k + 1) == Offset(attrs, k) + 4 + |attrs[k].name| <= Offset(attrs, |attrs|)
    ensures k + 1 < |attrs| ==> str + Offset(attrs, k + 1) + 4 <= |b|
                                && b[str + Offset(attrs, k + 1)..str + Offset(attrs, k + 1) + 4] == Head(attrs[k + 1])
  {
    OffsetsRise(attrs, k, |attrs|);
    if k + 1 < |attrs| {
      assert HeadThere(b, str, attrs, k + 1);
    }
  }

  /** When all heads have been read, each name reads as a C string. */
  lemma NameReads(b: Text, str: nat, attrs: seq<Attr>, j: nat)
    requires WellFormed(attrs) && j < |attrs| && Unpacking(b, str, attrs, |attrs|)
    ensures CString(b, str + Offset(attrs, j) + 4) == attrs[j].name
  {
    hide CString;
    assert NameThere(b, str, attrs, j) && ZeroAt(b, str, attrs, j + 1);
    OffsetsRise(attrs, j, j + 1);
    var at, t := str + Offset(attrs, j) + 4, attrs[j].name;
    forall i | 0 <= i < |t| ensures b[at + i] == t[i] && t[i] != 0 {
      assert b[at..at + |t|][i] == t[i];
    }
    CStringIs(b, at, t);
  }

  /** The walk ends at the last attribute, unless there is nothing but one head. */
  lemma WalkEnds(attrs: seq<Attr>, k: nat)
    requires attrs != [] && k <= |attrs|
    ensures k == 0 && 4 >= Offset(attrs, |attrs|) ==> |attrs| == 1 && attrs[0].name == []
    ensures k > 0 && Offset(attrs, k) >= Offset(attrs, |attrs|) ==> k == |attrs|
    ensures |attrs| == 1 && attrs[0].name == [] ==> Offset(attrs, |attrs|) == 4
    ensures Offset(attrs, 0) == 0
  {
    OffsetsRise(attrs, 0, |attrs|);
    if k < |attrs| {
      OffsetsRise(attrs, k, |attrs|);
    }
    if |attrs| > 1 {
      OffsetsRise(attrs, 1, |attrs|);
    }
  }

  /** Unpack the attributes in place: where each name starts, and the size of its
      kind.  Each head is read before the zero behind the name in front of it is
      put over it. */
  method CreateFormat(buf: array<Byte>, str: nat, msgLen: nat, ghost attrs: seq<Attr>)
      returns (names: seq<nat>, sizes: seq<nat>)
    requires WellFormed(attrs) && msgLen == |Packed(attrs)| && str + msgLen + 4 <= buf.Length
    requires buf[str..str + msgLen] == Packed(attrs)
    modifies buf
    ensures |names| == |sizes|
    ensures |attrs| == 1 && attrs[0].name == [] ==> names == []
    ensures !(|attrs| == 1 && attrs[0].name == []) ==>
              && |names| == |attrs|
              && forall k :: 0 <= k < |attrs| ==>
                  CString(buf[..], names[k]) == attrs[k].name && sizes[k] == KindSize(attrs[k].kind)
    ensures forall j :: 0 <= j < str ==> buf[j] == old(buf[j])
  {
    hide Packed, Head, CString, Offset, Unpacking;
    AllThere(buf[..], str, attrs);
    PackedEnds(attrs);
    ghost var k := 0;
    WalkEnds(attrs, 0);
    names, sizes := [], [];
    var next := buf[str..str + 4];
    var i: nat, h: nat := 4, 4;
    while i < msgLen
      invariant 0 <= k == |names| == |sizes| <= |attrs| && h == Offset(attrs, k) + 4
      invariant |attrs| == 1 && attrs[0].name == [] ==> k == 0
      invariant i == if k == 0 then 4 else Offset(attrs, k)
      invariant k < |attrs| ==> next == Head(attrs[k])
      invariant Unpacking(buf[..], str, attrs, k)
      invariant forall j :: 0 <= j < k ==> names[j] == str + Offset(attrs, j) + 4 && sizes[j] == KindSize(attrs[j].kind)
      invariant forall j :: 0 <= j < str ==> buf[j] == old(buf[j])
      decreases |attrs| - k
    {
      WalkEnds(attrs, k);
      HeadTells(attrs, k);
      ghost var before := buf[..];
      names := names + [str + h];
      sizes := sizes + [TypeToSize(TwoBytes(next, 2))];
      h := h + TwoBytes(next, 0);
      NextHead(before, str, attrs, k);
      next := buf[str + h..str + h + 4];
      buf[str + h] := 0;
      ZeroBehind(before, buf[..], str, attrs, k);
      k := k + 1;
      i := h;
      h := h + 4;
    }
    WalkEnds(attrs, k);
    if k == |attrs| {
      forall j | 0 <= j < k ensures CString(buf[..], names[j]) == attrs[j].name {
        NameReads(buf[..], str, attrs, j);
      }
    }
  }

  function FromFour(t: Text): nat
    requires |t| >= 4
  {
    TwoBytes(t, 0) + 0x1_0000 * TwoBytes(t, 2)
  }

  lemma FromFourBytes(n: nat, t: Text)
    requires n < 0x1_0000_0000 && |t| >= 4 && t[..4] == FourBytes(n)
    ensures FromFour(t) == n
  {
    assert t[0] == t[..4][0] && t[1] == t[..4][1] && t[2] == t[..4][2] && t[3] == t[..4][3];
    var q, r := n / 0x1_0000, n % 0x1_0000;
    Halves(n, r, q);
    Bytes(r);
    Bytes(q);
  }

  lemma Bytes(h: nat)
    requires h < 0x1_0000
    ensures h / 0x100 < 0x100 && h == h % 0x100 + 0x100 * (h / 0x100)
  {
  }

  lemma Halves(n: nat, r: nat, q: nat)
    requires n == r + 0x1_0000 * q && r < 0x1_0000 && q < 0x1_0000
    ensures n % 0x100 == r % 0x100 && n / 0x100 % 0x100 == r / 0x100
    ensures n / 0x1_0000 % 0x100 == q % 0x100 && n / 0x100_0000 == q / 0x100
  {
    assert n / 0x100 == r / 0x100 + 0x100 * q;
  }

  /** Take a message in: its length from the header, the rest into the buffer. */
  method Receive(wire: Text) returns (buf: array<Byte>, value: nat)
    requires |wire| >= 9 && FromFour(wire[1..]) + 9 <= |wire| && FromFour(wire[1..]) + 4 <= MAX_CMDLEN
    ensures fresh(buf) && buf.Length == MAX_CMDLEN && value == FromFour(wire[1..])
    ensures buf[..value + 4] == wire[5..value + 9]
  {
    value := FromFour(wire[1..]);
    buf := new Byte[MAX_CMDLEN];
    CopyTo(buf, 0, wire[5..value + 9]);
  }

  /** From what a user spells out to what the server hands on: the same table
      name, the same attribute names and the sizes of their kinds, for every
      table name without a separator or a zero and every message that leaves four
      bytes of the server's buffer free.  Names may be empty, except that one
      nameless attribute alone is taken for none: see `CreateFormat`. */
  method DecodeUndoesEncode(cmd: nat, table: Text, str: Text, ghost attrs: seq<Attr>)
    returns (buf: array<Byte>, first: nat, names: seq<nat>, sizes: seq<nat>)
    requires cmd < 0x1_0000_0000 && WellFormed(attrs) && str == Spelled(attrs) && |str| < 0x1_0000
    requires NoZero(table) && BAR !in table && |Body(table, attrs)| + 8 <= MAX_CMDLEN
    requires !(|attrs| == 1 && attrs[0].name == [])
    ensures CString(buf[..], first) == table
    ensures |names| == |sizes| == |attrs|
    ensures forall k :: 0 <= k < |attrs| ==>
              CString(buf[..], names[k]) == attrs[k].name && sizes[k] == KindSize(attrs[k].kind)
    ensures forall k :: 0 <= k < |attrs| ==>
              var at, to := DigitsFrom(attrs, k), Start(attrs, k) + |Item(attrs[k])|;
              at <= to <= |str| && sizes[k] == Number(str[at..to])
  {
    hide Packed, Spelled, CString, FourBytes, FromFour, Number, Item, Start, DigitsFrom;
    var wire := TableCommand(cmd, table, str, attrs);
    LengthOnWire(wire, cmd, table, attrs);
    var value;
    buf, value := Receive(wire);
    ghost var b := buf[..];
    BodyInBuffer(b, wire, cmd, table, attrs);
    first := 5;
    var second, rest := Executer(buf, 5, value);
    FirstBar(b, table, value, second);
    names, sizes := CreateFormat(buf, second, rest, attrs);
    CStringIs(buf[..], 5, table);
    SizesAreWritten(attrs, sizes);
  }

  lemma SizesAreWritten(attrs: seq<Attr>, sizes: seq<nat>)
    requires |sizes| == |attrs| && forall k :: 0 <= k < |attrs| ==> sizes[k] == KindSize(attrs[k].kind)
    ensures forall k :: 0 <= k < |attrs| ==>
              var at, to := DigitsFrom(attrs, k), Start(attrs, k) + |Item(attrs[k])|;
              at <= to <= |Spelled(attrs)| && sizes[k] == Number(Spelled(attrs)[at..to])
  {
    hide Number, Spelled, Item, Start, DigitsFrom;
    forall k | 0 <= k < |attrs|
      ensures var at, to := DigitsFrom(attrs, k), Start(attrs, k) + |Item(attrs[k])|;
              at <= to <= |Spelled(attrs)| && sizes[k] == Number(Spelled(attrs)[at..to])
    {
      SizeIsWritten(attrs, k);
    }
  }

  lemma LengthOnWire(wire: Text, cmd: nat, table: Text, attrs: seq<Attr>)
    requires cmd < 0x1_0000_0000 && WellFormed(attrs) && |Body(table, attrs)| < 0x1_0000_0000
    requires wire == [MSG_TYPE_CMD] + FourBytes(|Body(table, attrs)|) + FourBytes(cmd) + Body(table, attrs)
    ensures |wire| == 9 + |Body(table, attrs)| && FromFour(wire[1..]) == |Body(table, attrs)|
    ensures wire[5..] == FourBytes(cmd) + Body(table, attrs)
  {
    hide FourBytes, FromFour, Body;
    FourLong();
    assert wire[1..][..4] == FourBytes(|Body(table, attrs)|);
    FromFourBytes(|Body(table, attrs)|, wire[1..]);
  }

  /** Where the pieces of the body are in the server's buffer. */
  lemma BodyInBuffer(b: Text, wire: Text, cmd: nat, table: Text, attrs: seq<Attr>)
    requires cmd < 0x1_0000_0000 && WellFormed(attrs)
    requires var v := |Body(table, attrs)|;
             && v + 9 == |wire| && v + 4 <= |b| && b[..v + 4] == wire[5..v + 9]
             && wire[5..] == FourBytes(cmd) + Body(table, attrs)
    ensures var n, p := |table|, Packed(attrs);
            && |Body(table, attrs)| == n + 2 + |p| && n + 6 + |p| <= |b|
            && b[5..5 + n] == table && b[5 + n] == BAR && b[6 + n..6 + n + |p|] == p
  {
    hide FourBytes, Packed;
    FourLong();
    var n, p, v := |table|, Packed(attrs), |Body(table, attrs)|;
    assert wire[5..v + 9] == wire[5..];
    assert b[..v + 4] == FourBytes(cmd) + ([BAR] + table + [BAR] + p);
    Pieces(b, FourBytes(cmd), table, p);
  }

  lemma Pieces(b: Text, c: Text, table: Text, p: Text)
    requires |c| == 4 && |table| + |p| + 6 <= |b| && b[..|table| + |p| + 6] == c + ([BAR] + table + [BAR] + p)
    ensures var n := |table|; b[5..5 + n] == table && b[5 + n] == BAR && b[6 + n..6 + n + |p|] == p
  {
    var n, all := |table|, c + ([BAR] + table + [BAR] + p);
    assert forall i :: 0 <= i < |all| ==> b[i] == b[..|all|][i];
    forall i | 0 <= i < n ensures b[5 + i] == table[i] {
      assert all[5 + i] == table[i];
    }
    assert all[5 + n] == BAR;
    forall i | 0 <= i < |p| ensures b[6 + n + i] == p[i] {
      assert all[6 + n + i] == p[i];
    }
  }

  /** The first separator is the one behind the table's name. */
  lemma FirstBar(b: Text, table: Text, value: nat, second: int)
    requires 6 + |table| <= 5 + value <= |b| && b[5..5 + |table|] == table && b[5 + |table|] == BAR && BAR !in table
    requires BAR in b[5..5 + value] ==> 5 < second <= 5 + value && b[second - 1] == BAR && BAR !in b[5..second - 1]
    ensures BAR in b[5..5 + value] && second == 6 + |table|
  {
    assert b[5..5 + value][|table|] == BAR;
    NoBar(b, 5, second - 1);
    NoBar(b, 5, 5 + |table|);
  }

  lemma NoBar(b: Text, from: nat, to: nat)
    requires from <= to <= |b| && BAR !in b[from..to]
    ensures forall i :: from <= i < to ==> b[i] != BAR
  {
    forall i | from <= i < to ensures b[i] != BAR {
      assert b[i] == b[from..to][i - from];
    }
  }
}
