/** Headers of variable-length datums (postgres.h). A datum is the sequence of
    bytes that starts at its pointer. */
module Varlena {
  import opened Bits
  import opened Bytes

  const VARHDRSZ := 4
  const VARHDRSZ_SHORT := 1
  const VARHDRSZ_EXTERNAL := 2
  const VARATT_SHORT_MAX := 0x7F
  const UINT32 := 0x1_0000_0000

  /** The arithmetic behind the mask tests on the first header byte. */
  lemma LowFlags(b: Byte)
    ensures And(b, 0x01) == b % 2 && And(b, 0x03) == b % 4
  {
    hide And, Pow2;
    Pow2Constants();
    AndMask(b, 1);
    AndMask(b, 2);
  }

  lemma HighFlags(b: Byte)
    ensures And(b, 0x80) == b - b % 128 && And(b, 0xC0) == b - b % 64
  {
    hide And, Pow2;
    Pow2Constants();
    AndHigh(b, 7, 8);
    AndHigh(b, 6, 8);
  }

  lemma LowSeven(b: nat)
    ensures And(b, 0x7F) == b % 128
  {
    hide And, Pow2;
    Pow2Constants();
    AndMask(b, 7);
  }

  lemma HalfByte(b: Byte)
    ensures And(b / 2, 0x7F) == b / 2
  {
    hide And;
    LowSeven(b / 2);
    QuotientUnique(b / 2, 128, 0, b / 2);
  }

  lemma Low30(w: nat)
    ensures And(w, 0x3FFF_FFFF) == w % 0x4000_0000
  {
    hide And, Pow2;
    Pow2Constants();
    AndMask(w, 30);
  }

  lemma QuarterWord(w: nat)
    requires w < UINT32
    ensures w / 4 < 0x4000_0000 && And(w / 4, 0x3FFF_FFFF) == w / 4
  {
    hide And;
    Low30(w / 4);
    QuotientUnique(w / 4, 0x4000_0000, 0, w / 4);
  }

  lemma Load4(order: ByteOrder, s: seq<Byte>)
    requires |s| == 4
    ensures var b0: int, b1: int, b2: int, b3: int := s[0], s[1], s[2], s[3];
            Load(order, s) == if order.LittleEndian?
                              then b0 + 0x100 * b1 + 0x1_0000 * b2 + 0x100_0000 * b3
                              else b3 + 0x100 * b2 + 0x1_0000 * b1 + 0x100_0000 * b0
  {
    if order.LittleEndian? {
      var t := s[1..];
      var u := t[1..];
      assert u == [s[2], s[3]] && u[1..] == [s[3]];
      assert Load(order, [s[3]]) == s[3] by { assert [s[3]][1..] == []; }
      assert Load(order, u) == s[2] + 256 * Load(order, u[1..]);
      assert Load(order, t) == s[1] + 256 * Load(order, u);
    } else {
      var t := s[..3];
      var u := t[..2];
      assert u == [s[0], s[1]] && u[..1] == [s[0]];
      assert Load(order, [s[0]]) == s[0] by { assert [s[0]][..0] == []; }
      assert Load(order, u) == 256 * Load(order, u[..1]) + s[1];
      assert Load(order, t) == 256 * Load(order, u) + s[2];
    }
  }

  lemma WordBound(order: ByteOrder, s: seq<Byte>)
    requires |s| == 4
    ensures Load(order, s) < UINT32
  {
    Load4(order, s);
  }

  // ---------------------------------------------------------------- reading

  predicate Is4B(order: ByteOrder, p: seq<Byte>): (r: bool)
    requires |p| > 0
    ensures r <==> if order.BigEndian? then p[0] < 0x80 else p[0] % 2 == 0
  {
    hide And;
    LowFlags(p[0]);
    HighFlags(p[0]);
    if order.BigEndian? then And(p[0], 0x80) == 0x00 else And(p[0], 0x01) == 0x00
  }

  predicate Is4BU(order: ByteOrder, p: seq<Byte>): (r: bool)
    requires |p| > 0
    ensures r <==> if order.BigEndian? then p[0] < 0x40 else p[0] % 4 == 0
  {
    hide And;
    LowFlags(p[0]);
    HighFlags(p[0]);
    if order.BigEndian? then And(p[0], 0xC0) == 0x00 else And(p[0], 0x03) == 0x00
  }

  predicate Is4BC(order: ByteOrder, p: seq<Byte>): (r: bool)
    requires |p| > 0
    ensures r <==> if order.BigEndian? then 0x40 <= p[0] < 0x80 else p[0] % 4 == 2
  {
    hide And;
    LowFlags(p[0]);
    HighFlags(p[0]);
    if order.BigEndian? then And(p[0], 0xC0) == 0x40 else And(p[0], 0x03) == 0x02
  }

  predicate Is1B(order: ByteOrder, p: seq<Byte>): (r: bool)
    requires |p| > 0
    ensures r <==> if order.BigEndian? then p[0] >= 0x80 else p[0] % 2 == 1
  {
    hide And;
    LowFlags(p[0]);
    HighFlags(p[0]);
    if order.BigEndian? then And(p[0], 0x80) == 0x80 else And(p[0], 0x01) == 0x01
  }

  predicate Is1BE(order: ByteOrder, p: seq<Byte>)
    requires |p| > 0
  {
    if order.BigEndian? then p[0] == 0x80 else p[0] == 0x01
  }

  predicate NotPadByte(p: seq<Byte>)
    requires |p| > 0
  {
    p[0] != 0
  }

  /** The bytes that the header occupies are there to be read. */
  predicate HasHeader(order: ByteOrder, p: seq<Byte>) {
    |p| > 0 && (Is1BE(order, p) ==> |p| >= 2) && (Is4B(order, p) ==> |p| >= 4)
  }

  function VarSize4B(order: ByteOrder, p: seq<Byte>): (r: nat)
    requires |p| >= 4
    ensures r == if order.BigEndian? then Load(order, p[..4]) % 0x4000_0000 else Load(order, p[..4]) / 4
    ensures r < 0x4000_0000
  {
    hide And, Load;
    var w := Load(order, p[..4]);
    if order.BigEndian? then
      Low30(w);
      And(w, 0x3FFF_FFFF)
    else
      WordBound(order, p[..4]);
      QuarterWord(w);
      And(w / 4, 0x3FFF_FFFF)
  }

  function VarSize1B(order: ByteOrder, p: seq<Byte>): (r: nat)
    requires |p| > 0
    ensures r == if order.BigEndian? then p[0] % 128 else p[0] / 2
  {
    hide And;
    if order.BigEndian? then
      LowSeven(p[0]);
      And(p[0], 0x7F)
    else
      HalfByte(p[0]);
      And(p[0] / 2, 0x7F)
  }

  function VarSize1BE(p: seq<Byte>): nat
    requires |p| >= 2
  {
    p[1]
  }

  function VarSizeAny(order: ByteOrder, p: seq<Byte>): nat
    requires HasHeader(order, p)
  {
    if Is1BE(order, p) then VarSize1BE(p)
    else if Is1B(order, p) then VarSize1B(order, p)
    else VarSize4B(order, p)
  }

  /** The subtraction is made in uint32, as the types of the C operands say. */
  function VarSizeAnyExhdr(order: ByteOrder, p: seq<Byte>): nat
    requires HasHeader(order, p)
  {
    if Is1BE(order, p) then (VarSize1BE(p) - VARHDRSZ_EXTERNAL) % UINT32
    else if Is1B(order, p) then (VarSize1B(order, p) - VARHDRSZ_SHORT) % UINT32
    else (VarSize4B(order, p) - VARHDRSZ) % UINT32
  }

  function VarDataAny(order: ByteOrder, p: seq<Byte>): seq<Byte>
    requires HasHeader(order, p)
  {
    if Is1B(order, p) then p[1..] else p[4..]
  }

  /** A datum whose header tells its length. */
  predicate WellFormed(order: ByteOrder, p: seq<Byte>) {
    HasHeader(order, p) && VarSizeAny(order, p) == |p|
  }

  /** VARSIZE_ANY_EXHDR and VARDATA_ANY, by the first byte: the payload is what is behind a
      header of one or four bytes. A TOAST pointer has two, and there the data macro is one
      byte off. */
  lemma PayloadSize(order: ByteOrder, p: seq<Byte>)
    requires WellFormed(order, p)
    ensures var header := if order.BigEndian? then (if p[0] == 0x80 then 2 else if p[0] > 0x80 then 1 else 4)
                          else (if p[0] == 0x01 then 2 else if p[0] % 2 == 1 then 1 else 4);
            && VarSizeAnyExhdr(order, p) == |p| - header
            && VarDataAny(order, p) == p[if header == 2 then 1 else header..]
  {
    hide And, Load;
  }

  // ---------------------------------------------------------------- writing

  /** The header word or byte, as the macros compute it before it is stored. */
  function Word4B(order: ByteOrder, len: nat): (w: nat)
    ensures w % UINT32 == if order.BigEndian? then len % 0x4000_0000 else 4 * (len % 0x4000_0000)
  {
    hide And, Or;
    Low30(len);
    ShiftTwo(len);
    if order.BigEndian? then And(len, 0x3FFF_FFFF) else len * 4
  }

  function Word4BC(order: ByteOrder, len: nat): (w: nat)
    ensures w % UINT32 == if order.BigEndian? then len % 0x4000_0000 + 0x4000_0000 else 4 * (len % 0x4000_0000) + 2
  {
    hide And, Or;
    CompressedFlag(len);
    if order.BigEndian? then Or(And(len, 0x3FFF_FFFF), 0x4000_0000) else Or((len * 4) % UINT32, 0x02)
  }

  function Word1B(order: ByteOrder, len: nat): (w: nat)
    ensures w % 256 == if order.BigEndian? then 128 + len % 128 else 2 * (len % 128) + 1
  {
    hide And, Or;
    ShortFlag(len);
    DoubleMod(len);
    if order.BigEndian? then Or(len, 0x80) else Or((len % 256) * 2, 0x01)
  }

  lemma ShiftTwo(len: nat)
    ensures (len * 4) % UINT32 == 4 * (len % 0x4000_0000)
  {
    QuotientUnique(len * 4, UINT32, len / 0x4000_0000, 4 * (len % 0x4000_0000));
  }

  lemma CompressedFlag(len: nat)
    ensures var w, m := Or(And(len, 0x3FFF_FFFF), 0x4000_0000), len % 0x4000_0000;
            w >= 0 && w % UINT32 == m + 0x4000_0000
    ensures var w, m := Or((len * 4) % UINT32, 0x02), len % 0x4000_0000;
            w >= 0 && w % UINT32 == 4 * m + 2
  {
    hide And, Or, Pow2;
    var m := len % 0x4000_0000;
    assert Pow2(30) == 0x4000_0000 by { Pow2Constants(); }
    Low30(len);
    ShiftTwo(len);
    OrAbove(m, 30);
    OrTwo(4 * m);
  }

  lemma ShortFlag(len: nat)
    ensures Or(len, 0x80) >= 0 && Or(len, 0x80) % 256 == 128 + len % 128
    ensures Or((len % 256) * 2, 0x01) == (len % 256) * 2 + 1
  {
    hide Or, Pow2;
    assert Pow2(7) == 128 && Pow2(8) == 256 by { Pow2Constants(); }
    OrPow2(len, 7);
    OrPow2Mod(len, 7);
    OrOne((len % 256) * 2);
  }

  lemma DoubleMod(len: nat)
    ensures ((len % 256) * 2 + 1) % 256 == 2 * (len % 128) + 1
  {
  }

  function SetVarSize4B(order: ByteOrder, len: nat): (s: seq<Byte>)
    ensures |s| == 4
  {
    Store(order, Word4B(order, len), 4)
  }

  function SetVarSize4BC(order: ByteOrder, len: nat): (s: seq<Byte>)
    ensures |s| == 4
  {
    Store(order, Word4BC(order, len), 4)
  }

  function SetVarSize1B(order: ByteOrder, len: nat): (s: seq<Byte>)
    ensures |s| == 1
  {
    Store(order, Word1B(order, len), 1)
  }

  function SetVarSize1BE(order: ByteOrder, len: nat): seq<Byte> {
    [if order.BigEndian? then 0x80 else 0x01, len % 256]
  }

  // ---------------------------------------------------------------- the codec

  /** Every first byte belongs to exactly one of the four classes, and a byte of
      the two unaligned classes is never zero. */
  lemma ClassesPartition(order: ByteOrder, p: seq<Byte>)
    requires |p| > 0
    ensures var u, c, e, s := Is4BU(order, p), Is4BC(order, p), Is1BE(order, p), Is1B(order, p) && !Is1BE(order, p);
            (u || c || e || s) && !(u && c) && !(u && e) && !(u && s) && !(c && e) && !(c && s) && !(e && s)
    ensures Is4B(order, p) <==> Is4BU(order, p) || Is4BC(order, p)
    ensures Is4B(order, p) <==> !Is1B(order, p)
    ensures !NotPadByte(p) ==> Is4BU(order, p)
  {
  }

  lemma WordReadBack(order: ByteOrder, w: nat, rest: seq<Byte>)
    ensures Load(order, (Store(order, w, 4) + rest)[..4]) == w % UINT32
  {
    var s := Store(order, w, 4);
    assert (s + rest)[..4] == s;
    assert Pow256(4) == UINT32;
    LoadStore(order, w, 4);
  }

  lemma SizeOfWord(order: ByteOrder, p: seq<Byte>, m: nat, flag: nat)
    requires |p| >= 4 && m < 0x4000_0000 && flag < 2
    requires Load(order, p[..4]) == if order.BigEndian? then m + 0x4000_0000 * flag else 4 * m + 2 * flag
    ensures VarSize4B(order, p) == m
  {
    if order.BigEndian? {
      QuotientUnique(m + 0x4000_0000 * flag, 0x4000_0000, flag, m);
    } else {
      QuotientUnique(4 * m + 2 * flag, 4, m, 2 * flag);
    }
  }

  lemma ClassOfWord(order: ByteOrder, p: seq<Byte>, m: nat, flag: nat)
    requires |p| >= 4 && m < 0x4000_0000 && flag < 2
    requires Load(order, p[..4]) == if order.BigEndian? then m + 0x4000_0000 * flag else 4 * m + 2 * flag
    ensures if flag == 0 then Is4BU(order, p) else Is4BC(order, p)
    ensures !Is1B(order, p) && VarSizeAny(order, p) == VarSize4B(order, p)
  {
    hide And, Or, Load;
    Load4(order, p[..4]);
    ClassesPartition(order, p);
  }

  /** A plain 4-byte header reads back as itself exactly when the length is below 1 GB. */
  lemma Header4BRoundTrip(order: ByteOrder, len: nat, rest: seq<Byte>)
    ensures var p := SetVarSize4B(order, len) + rest;
            Is4BU(order, p) && !Is1B(order, p) && (VarSizeAny(order, p) == len <==> len < 0x4000_0000)
  {
    hide And, Or, Store;
    var p := SetVarSize4B(order, len) + rest;
    WordReadBack(order, Word4B(order, len), rest);
    ClassOfWord(order, p, len % 0x4000_0000, 0);
    SizeOfWord(order, p, len % 0x4000_0000, 0);
  }

  lemma Header4BCRoundTrip(order: ByteOrder, len: nat, rest: seq<Byte>)
    ensures var p := SetVarSize4BC(order, len) + rest;
            Is4BC(order, p) && !Is1B(order, p) && (VarSizeAny(order, p) == len <==> len < 0x4000_0000)
  {
    hide And, Or, Store;
    var p := SetVarSize4BC(order, len) + rest;
    var w := Word4BC(order, len);
    assert w % UINT32 == if order.BigEndian? then len % 0x4000_0000 + 0x4000_0000 else 4 * (len % 0x4000_0000) + 2;
    WordReadBack(order, w, rest);
    ClassOfWord(order, p, len % 0x4000_0000, 1);
    SizeOfWord(order, p, len % 0x4000_0000, 1);
  }

  lemma ClassOfShort(order: ByteOrder, p: seq<Byte>, m: nat)
    requires |p| >= 1 && m < 128 && p[0] == if order.BigEndian? then 128 + m else 2 * m + 1
    ensures Is1B(order, p) && NotPadByte(p) && VarSize1B(order, p) == m && (Is1BE(order, p) <==> m == 0)
  {
  }

  /** A 1-byte header reads back as itself, and not as the external marker, exactly
      for the lengths 1 to 127; it is never zero. */
  lemma Header1BRoundTrip(order: ByteOrder, len: nat, rest: seq<Byte>)
    ensures var p := SetVarSize1B(order, len) + rest;
            Is1B(order, p) && NotPadByte(p)
            && (!Is1BE(order, p) && VarSize1B(order, p) == len <==> 1 <= len <= VARATT_SHORT_MAX)
  {
    hide And, Or;
    var s := SetVarSize1B(order, len);
    assert s[0] == Word1B(order, len) % 256;
    ClassOfShort(order, s + rest, len % 128);
  }

  lemma Header1BERoundTrip(order: ByteOrder, len: nat, rest: seq<Byte>)
    ensures var p := SetVarSize1BE(order, len) + rest;
            Is1BE(order, p) && Is1B(order, p) && NotPadByte(p) && (VarSizeAny(order, p) == len <==> len < 256)
  {
    hide And, Or;
  }

  // ---------------------------------------------------------------- short conversion

  predicate CanMakeShort(order: ByteOrder, p: seq<Byte>)
    requires HasHeader(order, p)
  {
    Is4BU(order, p) && ConvertedShortSize(order, p) <= VARATT_SHORT_MAX
  }

  function ConvertedShortSize(order: ByteOrder, p: seq<Byte>): nat
    requires |p| >= 4
  {
    (VarSize4B(order, p) - VARHDRSZ + VARHDRSZ_SHORT) % UINT32
  }

  /** The datum as heap_fill_tuple stores it with a 1-byte header. */
  function ConvertToShort(order: ByteOrder, p: seq<Byte>): seq<Byte>
    requires |p| >= 4
  {
    SetVarSize1B(order, ConvertedShortSize(order, p)) + p[4..]
  }

  function ConvertToLong(order: ByteOrder, p: seq<Byte>): seq<Byte>
    requires |p| >= 1
  {
    SetVarSize4B(order, VarSize1B(order, p) - VARHDRSZ_SHORT + VARHDRSZ) + p[1..]
  }

  /** Packing keeps the payload and its length, and gives up nothing: the long
      form can be rebuilt from the short one. */
  lemma ShortConversion(order: ByteOrder, p: seq<Byte>)
    requires WellFormed(order, p) && CanMakeShort(order, p)
    ensures var s := ConvertToShort(order, p);
            && WellFormed(order, s) && Is1B(order, s) && !Is1BE(order, s) && NotPadByte(s)
            && |s| == |p| - 3 == ConvertedShortSize(order, p)
            && VarSizeAnyExhdr(order, s) == VarSizeAnyExhdr(order, p)
            && VarDataAny(order, s) == VarDataAny(order, p)
            && ConvertToLong(order, s) == p
  {
    hide And, Or, Store, Load, SetVarSize1B, SetVarSize4B;
    var n := ConvertedShortSize(order, p);
    assert n == |p| - 3;
    var s := ConvertToShort(order, p);
    Header1BRoundTrip(order, n, p[4..]);
    assert |SetVarSize1B(order, n)| == 1;
    assert s[1..] == p[4..];
    LongHeaderIsCanonical(order, p);
    assert p == p[..4] + p[4..];
  }

  lemma LongHeaderIsCanonical(order: ByteOrder, p: seq<Byte>)
    requires |p| >= 4 && Is4BU(order, p)
    ensures SetVarSize4B(order, VarSize4B(order, p)) == p[..4]
  {
    hide And, Or, Load, Store, Word4B, VarSize4B, Pow256;
    var h, w := p[..4], Word4B(order, VarSize4B(order, p));
    PlainWord(order, h);
    WordOfSize(order, Load(order, h));
    assert Pow256(4) == UINT32 by { WordWidth(); }
    LoadStore(order, w, 4);
    StoreLoad(order, Store(order, w, 4));
    StoreLoad(order, h);
  }

  lemma WordWidth()
    ensures Pow256(4) == UINT32
  {
  }

  lemma PlainWord(order: ByteOrder, h: seq<Byte>)
    requires |h| == 4 && Is4BU(order, h)
    ensures Load(order, h) < UINT32
    ensures if order.BigEndian? then Load(order, h) < 0x4000_0000 else Load(order, h) % 4 == 0
  {
    hide And, Load;
    Load4(order, h);
  }

  lemma WordOfSize(order: ByteOrder, v: nat)
    requires v < UINT32 && if order.BigEndian? then v < 0x4000_0000 else v % 4 == 0
    ensures var m := if order.BigEndian? then v % 0x4000_0000 else v / 4;
            v == if order.BigEndian? then m % 0x4000_0000 else 4 * (m % 0x4000_0000)
  {
  }
}
