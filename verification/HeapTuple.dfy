/** Heap tuples as a whole: header, bitmap, data (htup.h, heaptuple.c). */
module HeapTuple {
  import opened Bits
  import opened Bytes
  import opened Alignment
  import opened TupleLayout
  import opened TupleForm
  import Varlena
  import opened Wrappers

  const MAX_TUPLE_ATTRIBUTE_NUMBER := 1664
  const HEAP_NATTS_MASK := 0x07FF
  const OFFSETOF_T_BITS := 23
  const SIZEOF_OID := 4

  /** A tuple header's fields that say how the rest is laid out, and the whole
      image, header included. */
  datatype Tuple = Tuple(t_infomask2: nat, t_infomask: nat, t_hoff: nat, image: seq<Byte>)

  datatype FormResult = Formed(tuple: Tuple) | TooManyColumns

  function GetNatts(infomask2: nat): nat {
    And(infomask2, HEAP_NATTS_MASK)
  }

  function SetNatts(infomask2: nat, natts: nat): nat {
    Or(And(infomask2, Not(HEAP_NATTS_MASK)), natts)
  }

  /** The attribute count is the low 11 bits. It comes back for every count that fits 11 bits, and the
      flags above it stay. */
  lemma NattsRoundTrip(infomask2: nat, natts: nat, k: nat)
    ensures GetNatts(infomask2) == infomask2 % 0x800
    ensures GetNatts(SetNatts(infomask2, natts)) == natts <==> natts <= HEAP_NATTS_MASK
    ensures natts <= HEAP_NATTS_MASK && k >= 11 ==> (Bit(SetNatts(infomask2, natts), k) <==> Bit(infomask2, k))
  {
    hide And, Or, Pow2, Bit;
    assert Pow2(11) == 0x800 by { Pow2Constants(); }
    AndClear(infomask2, 11);
    AndMask(infomask2, 11);
    AndMask(SetNatts(infomask2, natts), 11);
    if natts <= HEAP_NATTS_MASK {
      var flags := infomask2 - infomask2 % 0x800;
      OrAdd(flags, natts, 11);
      OrBit(flags, natts, k);
      AndBit(infomask2, Not(HEAP_NATTS_MASK), k);
      NotBit(HEAP_NATTS_MASK, k);
      MaskBit(11, k);
      if k >= 11 { HighBitsZero(natts, 11, k); }
    }
  }

  predicate HasFlag(infomask: nat, flag: nat) {
    And(infomask, flag) != 0
  }

  lemma FlagIsBit(infomask: nat)
    ensures HasFlag(infomask, HEAP_HASNULL) <==> Bit(infomask, 0)
    ensures HasFlag(infomask, HEAP_HASVARWIDTH) <==> Bit(infomask, 1)
    ensures HasFlag(infomask, HEAP_HASEXTERNAL) <==> Bit(infomask, 2)
    ensures HasFlag(infomask, HEAP_HASOID) <==> Bit(infomask, 3)
  {
    hide And, Bit, Pow2;
    Pow2Constants();
    AndPow2(infomask, 0);
    AndPow2(infomask, 1);
    AndPow2(infomask, 2);
    AndPow2(infomask, 3);
  }

  /** Length of the header with its bitmap and OID, before it is aligned. */
  function HeaderLen(natts: nat, hasnull: bool, hasoid: bool): nat {
    OFFSETOF_T_BITS + (if hasnull then BitmapLen(natts) else 0) + (if hasoid then SIZEOF_OID else 0)
  }

  /** t_hoff is one byte wide: with the OID it has room for 1768 columns, which is
      more than the 1664 that are allowed. */
  lemma HoffFitsByte(natts: nat)
    ensures MaxAlign(HeaderLen(natts, true, true)) < 256 <==> natts <= 1768
    ensures natts <= MAX_TUPLE_ATTRIBUTE_NUMBER ==>
              forall hasnull: bool, hasoid: bool :: MaxAlign(HeaderLen(natts, hasnull, hasoid)) < 256
  {
    hide TypeAlign;
  }

  predicate AnyNull(cols: seq<Column>) {
    exists i :: 0 <= i < |cols| && cols[i].Null?
  }

  /** Behind the bitmap and in front of the OID, if there is one, a tuple is padded. */
  function PadStart(natts: nat, hasnull: bool): nat {
    OFFSETOF_T_BITS + if hasnull then BitmapLen(natts) else 0
  }

  /** The tuple that heap_form_tuple builds, up to the bytes of the fixed header. */
  ghost predicate IsFormed(pf: Platform, attrs: seq<Attr>, hasoid: bool, cols: seq<Column>, tup: Tuple) {
    && ValidRow(pf, attrs, cols)
    && |attrs| <= MAX_TUPLE_ATTRIBUTE_NUMBER
    && tup.t_infomask2 == SetNatts(0, |attrs|)
    && tup.t_infomask == MaskFor(pf, attrs, cols, |attrs|, if hasoid then HEAP_HASOID else 0)
    && tup.t_hoff == MaxAlign(HeaderLen(|attrs|, AnyNull(cols), hasoid)) < 256
    && |tup.image| == tup.t_hoff + |Data(pf, attrs, cols, |attrs|)|
    && tup.image[tup.t_hoff..] == Data(pf, attrs, cols, |attrs|)
    && (AnyNull(cols) ==>
          tup.image[OFFSETOF_T_BITS..OFFSETOF_T_BITS + BitmapLen(|attrs|)] == NullBits(cols))
    && forall k | PadStart(|attrs|, AnyNull(cols)) <= k < tup.t_hoff - (if hasoid then SIZEOF_OID else 0) ::
       tup.image[k] == 0
  }

  method ScanNulls(cols: seq<Column>) returns (hasnull: bool)
    ensures hasnull <==> AnyNull(cols)
  {
    hasnull := false;
    for i := 0 to |cols|
      invariant hasnull <==> exists k :: 0 <= k < i && cols[k].Null?
    {
      if cols[i].Null? {
        hasnull := true;
      }
    }
  }

  /** The header fields that a tuple has as a Datum of a composite type: its length as a
      varlena, type modifier and type. */
  function DatumFields(order: ByteOrder, len: nat, typmod: int, typeid: uint32): (s: seq<Byte>)
    ensures |s| == 12
  {
    Varlena.SetVarSize4B(order, len) + Store(order, Wrap(typmod), 4) + Store(order, typeid, 4)
  }

  /** They read back, the type modifier as a signed number, and the length exactly below
      2^30: the tuple is a varlena of its own length. */
  lemma DatumFieldsReadBack(order: ByteOrder, image: seq<Byte>, typmod: int, typeid: uint32)
    requires |image| >= OFFSETOF_T_BITS && image[..12] == DatumFields(order, |image|, typmod, typeid)
    requires -0x8000_0000 <= typmod < 0x8000_0000
    ensures Varlena.HasHeader(order, image) && Varlena.Is4BU(order, image)
    ensures Varlena.VarSizeAny(order, image) == |image| <==> |image| < 0x4000_0000
    ensures SignExtend(Load(order, image[4..8]), 32) == typmod && Load(order, image[8..12]) == typeid
  {
    hide Load, Store, And, Pow256;
    var fields := DatumFields(order, |image|, typmod, typeid);
    assert image == Varlena.SetVarSize4B(order, |image|) + image[4..] by {
      assert image == image[..12] + image[12..];
    }
    Varlena.Header4BRoundTrip(order, |image|, image[4..]);
    assert image[4..8] == fields[4..8] == Store(order, Wrap(typmod), 4);
    assert image[8..12] == fields[8..12] == Store(order, typeid, 4);
    assert Pow256(4) == 0x1_0000_0000 by { Pow256Four(); }
    LoadStoreFits(order, Wrap(typmod), 4);
    LoadStoreFits(order, typeid, 4);
    assert Pow2(31) == 0x8000_0000 && Pow2(32) == 0x1_0000_0000 by { Pow2Constants(); }
  }

  /** heap_form_tuple. */
  method FormTuple(pf: Platform, attrs: seq<Attr>, hasoid: bool, typeid: uint32, typmod: int, cols: seq<Column>)
    returns (r: FormResult)
    requires ValidRow(pf, attrs, cols)
    ensures r.TooManyColumns? <==> |attrs| > 1664
    ensures r.Formed? ==> IsFormed(pf, attrs, hasoid, cols, r.tuple)
    ensures r.Formed? ==> r.tuple.image[..12] == DatumFields(pf.order, |r.tuple.image|, typmod, typeid)
    ensures r.Formed? && hasoid ==> r.tuple.image[r.tuple.t_hoff - SIZEOF_OID..r.tuple.t_hoff] == Zeros(SIZEOF_OID)
  {
    hide TypeAlign, And, Or, ValidAttr, ValidValue, Data, NullBits, MaskFor, SetNatts, Filled, DatumFields, Pow2,
         IsFormed;
    if |attrs| > MAX_TUPLE_ATTRIBUTE_NUMBER {
      return TooManyColumns;
    }
    var hasnull := ScanNulls(cols);
    HoffFitsByte(|attrs|);
    var hoff := MaxAlign(HeaderLen(|attrs|, hasnull, hasoid));
    var size := ComputeDataSize(pf, attrs, cols);
    var image := new Byte[hoff + size](_ => 0);
    CopyBytes(image, 0, DatumFields(pf.order, image.Length, typmod, typeid));
    var bit := if hasnull then Some(OFFSETOF_T_BITS as nat) else None;
    ghost var was := image[..];
    var infomask := FillTuple(pf, attrs, cols, image, hoff, bit, if hasoid then HEAP_HASOID else 0);
    r := Formed(Tuple(SetNatts(0, |attrs|), infomask, hoff % 256, image[..]));
    FilledIsFormed(pf, attrs, hasoid, cols, bit, was, r.tuple);
  }

  lemma FilledIsFormed(pf: Platform, attrs: seq<Attr>, hasoid: bool, cols: seq<Column>, bit: Option<nat>,
                       was: seq<Byte>, tup: Tuple)
    requires FillPre(pf, attrs, cols, tup.t_hoff, bit, was) && |attrs| <= MAX_TUPLE_ATTRIBUTE_NUMBER
    requires tup.t_hoff == MaxAlign(HeaderLen(|attrs|, AnyNull(cols), hasoid)) < 256
    requires bit == if AnyNull(cols) then Some(OFFSETOF_T_BITS as nat) else None
    requires |was| == tup.t_hoff + |Data(pf, attrs, cols, |attrs|)|
    requires forall k :: 12 <= k < |was| ==> was[k] == 0
    requires tup.t_infomask2 == SetNatts(0, |attrs|)
    requires tup.t_infomask == MaskFor(pf, attrs, cols, |attrs|, if hasoid then HEAP_HASOID else 0)
    requires tup.image == Filled(pf, attrs, cols, |attrs|, |attrs|, tup.t_hoff, bit, was)
    ensures IsFormed(pf, attrs, hasoid, cols, tup)
    ensures tup.image[..12] == was[..12]
    ensures hasoid ==> tup.image[tup.t_hoff - SIZEOF_OID..tup.t_hoff] == Zeros(SIZEOF_OID)
  {
    hide TypeAlign, ValidAttr, ValidValue, Data, NullBits, MaskFor, SetNatts, Filled, Pow2;
    FilledParts(pf, attrs, cols, tup.t_hoff, bit, was);
  }

  lemma {:induction false} MaskBound(pf: Platform, attrs: seq<Attr>, cols: seq<Column>, n: nat, infomask: nat)
    requires ValidRow(pf, attrs, cols) && n <= |attrs| && infomask < 16
    ensures MaskFor(pf, attrs, cols, n, infomask) < 16
  {
    hide And, Or, Pow2, ValidAttr, ValidValue;
    assert Pow2(3) == 8 && Pow2(4) == 16 by { Pow2Constants(); }
    if n == 0 {
      AndClear(infomask, 3);
    } else {
      MaskBound(pf, attrs, cols, n - 1, infomask);
      var m := MaskFor(pf, attrs, cols, n - 1, infomask);
      OrBound(m, HEAP_HASNULL, 4);
      OrBound(m, HEAP_HASVARWIDTH, 4);
      OrBound(Or(m, HEAP_HASVARWIDTH), HEAP_HASEXTERNAL, 4);
    }
  }

  /** The flag word says whether there is a null, a value of variable width, and one with
      the header of a TOAST pointer, and whether there is room for an OID; the other word
      holds the column count. */
  lemma FormedFlags(pf: Platform, attrs: seq<Attr>, hasoid: bool, cols: seq<Column>, tup: Tuple)
    requires IsFormed(pf, attrs, hasoid, cols, tup)
    ensures tup.t_infomask2 == |attrs| && tup.t_infomask < 16
    ensures tup.t_infomask % 2 == 1 <==> exists i :: 0 <= i < |cols| && cols[i].Null?
    ensures (tup.t_infomask / 2) % 2 == 1 <==> exists i :: 0 <= i < |cols| && cols[i].NotNull? && attrs[i].attlen < 0
    ensures (tup.t_infomask / 4) % 2 == 1 <==>
            exists i :: 0 <= i < |cols| && cols[i].NotNull? && attrs[i].attlen == -1
                        && cols[i].value.bytes[0] == if pf.order.BigEndian? then 0x80 else 0x01
    ensures (tup.t_infomask / 8) % 2 == 1 <==> hasoid
  {
    hide TypeAlign, And, Or, Bit, Pow2, Data, NullBits, MaskFor, ValidAttr, ValidValue, SetNatts, MaxAlign, HeaderLen;
    var infomask := if hasoid then HEAP_HASOID else 0;
    NattsIsCount(|attrs|);
    MaskBound(pf, attrs, cols, |attrs|, infomask);
    FlagDigit(tup.t_infomask);
    MaskMeaning(pf, attrs, cols, |attrs|, infomask, 0);
    MaskMeaning(pf, attrs, cols, |attrs|, infomask, 1);
    MaskMeaning(pf, attrs, cols, |attrs|, infomask, 2);
    MaskMeaning(pf, attrs, cols, |attrs|, infomask, 3);
    FlagBits(3);
    ZeroBit(3);
  }

  lemma FlagDigit(infomask: nat)
    ensures Bit(infomask, 0) <==> infomask % 2 == 1
    ensures Bit(infomask, 1) <==> (infomask / 2) % 2 == 1
    ensures Bit(infomask, 2) <==> (infomask / 4) % 2 == 1
    ensures Bit(infomask, 3) <==> (infomask / 8) % 2 == 1
  {
    hide Bit, Pow2;
    Pow2Constants();
    BitIsDigit(infomask, 0);
    BitIsDigit(infomask, 1);
    BitIsDigit(infomask, 2);
    BitIsDigit(infomask, 3);
  }

  /** The image, spelled out: the header is rounded up to MAXALIGN, it has a bitmap behind
      the fixed part only when there is a null, with a one for every column that is present,
      then zeros in front of the place for the OID, and the data area follows. */
  lemma FormedImage(pf: Platform, attrs: seq<Attr>, hasoid: bool, cols: seq<Column>, tup: Tuple)
    requires IsFormed(pf, attrs, hasoid, cols, tup)
    ensures var hasnull := exists i :: 0 <= i < |cols| && cols[i].Null?;
            var pad := 23 + if hasnull then (|attrs| + 7) / 8 else 0;
            var data := pad + if hasoid then 4 else 0;
            && tup.t_hoff % 8 == 0 && data <= tup.t_hoff < data + 8 && tup.t_hoff < 256
            && tup.t_hoff <= |tup.image|
            && (hasnull ==>
                  forall i: nat | i < |cols| ::
                    (tup.image[23 + i / 8] / Pow2(i % 8)) % 2 == if cols[i].Null? then 0 else 1)
            && (forall k | pad <= k < tup.t_hoff - (if hasoid then 4 else 0) :: tup.image[k] == 0)
    ensures |tup.image| == tup.t_hoff + |Data(pf, attrs, cols, |attrs|)|
    ensures tup.image[tup.t_hoff..|tup.image|] == Data(pf, attrs, cols, |attrs|)
  {
    hide TypeAlign, And, Or, Bit, Pow2, Data, NullBits, MaskFor, ValidAttr, ValidValue, AttIsNull, SetNatts;
    if AnyNull(cols) {
      BitmapDigits(tup.image, OFFSETOF_T_BITS, cols);
    }
  }

  lemma NattsIsCount(natts: nat)
    requires natts <= HEAP_NATTS_MASK
    ensures SetNatts(0, natts) == natts
  {
    hide And, Or;
    AndZeroLeft(Not(HEAP_NATTS_MASK));
    OrZeroLeft(natts);
  }

  lemma AndZeroLeft(x: int)
    ensures And(0, x) == 0
  {
  }

  lemma BitmapDigits(image: seq<Byte>, at: nat, cols: seq<Column>)
    requires at + BitmapLen(|cols|) <= |image| && image[at..at + BitmapLen(|cols|)] == NullBits(cols)
    ensures forall i: nat | i < |cols| :: (image[at + i / 8] / Pow2(i % 8)) % 2 == if cols[i].Null? then 0 else 1
  {
    hide Pow2, NullBits, AttIsNull;
    NullBitsIsBitmap(cols);
    forall i: nat | i < |cols| ensures (image[at + i / 8] / Pow2(i % 8)) % 2 == if cols[i].Null? then 0 else 1 {
      assert image[at + i / 8] == image[at..at + BitmapLen(|cols|)][i / 8];
      BitmapReads(NullBits(cols), cols, i);
      NullIsZeroDigit(NullBits(cols), i);
    }
  }

  // ---------------------------------------------------------------- object ID

  /** HeapTupleHeaderGetOid: InvalidOid when the tuple has none. */
  function GetOid(pf: Platform, tup: Tuple): nat
    requires SIZEOF_OID <= tup.t_hoff <= |tup.image|
  {
    if HasFlag(tup.t_infomask, HEAP_HASOID) then Load(pf.order, tup.image[tup.t_hoff - SIZEOF_OID..tup.t_hoff]) else 0
  }

  function SetOid(pf: Platform, tup: Tuple, oid: nat): Tuple
    requires SIZEOF_OID <= tup.t_hoff <= |tup.image|
  {
    tup.(image := Overlay(tup.image, tup.t_hoff - SIZEOF_OID, Store(pf.order, oid, SIZEOF_OID)))
  }

  /** The OID has its own four bytes: setting it leaves the tuple one that
      heap_form_tuple could have built from the same columns. */
  lemma OidRoundTrip(pf: Platform, attrs: seq<Attr>, cols: seq<Column>, tup: Tuple, oid: nat)
    requires IsFormed(pf, attrs, true, cols, tup) && oid < 0x1_0000_0000
    ensures SIZEOF_OID <= tup.t_hoff <= |tup.image|
    ensures IsFormed(pf, attrs, true, cols, SetOid(pf, tup, oid)) && GetOid(pf, SetOid(pf, tup, oid)) == oid
    ensures var t, at := SetOid(pf, tup, oid).image, tup.t_hoff - 4;
            && |t| == |tup.image| && t[at..tup.t_hoff] == Store(pf.order, oid, 4)
            && forall k :: 0 <= k < |t| && !(at <= k < tup.t_hoff) ==> t[k] == tup.image[k]
  {
    hide Data, And, Or, Bit, TypeAlign, NullBits, MaskFor, HasFlag, ValidAttr, ValidValue, Load, Store, Pow256;
    assert Pow256(4) == 0x1_0000_0000 by { Pow256Four(); }
    LoadStoreFits(pf.order, oid, SIZEOF_OID);
    FlagIsBit(tup.t_infomask);
    assert Bit(HEAP_HASOID, 3) by { FlagBits(3); }
    MaskMeaning(pf, attrs, cols, |attrs|, HEAP_HASOID, 3);
    var t, at := SetOid(pf, tup, oid).image, tup.t_hoff - SIZEOF_OID;
    assert t[at..tup.t_hoff] == Store(pf.order, oid, SIZEOF_OID);
    assert t[tup.t_hoff..] == tup.image[tup.t_hoff..];
    if AnyNull(cols) {
      var e := OFFSETOF_T_BITS + BitmapLen(|attrs|);
      assert t[OFFSETOF_T_BITS..e] == tup.image[OFFSETOF_T_BITS..e];
    }
  }

  /** A tuple without an OID answers InvalidOid, whatever its bytes are. */
  lemma NoOid(pf: Platform, attrs: seq<Attr>, cols: seq<Column>, tup: Tuple)
    requires IsFormed(pf, attrs, false, cols, tup)
    ensures SIZEOF_OID <= tup.t_hoff <= |tup.image| && GetOid(pf, tup) == 0
  {
    hide IsFormed, And, Or, Bit, Data, HasFlag;
    FormedImage(pf, attrs, false, cols, tup);
    FormedFlags(pf, attrs, false, cols, tup);
    FlagIsBit(tup.t_infomask);
    FlagDigit(tup.t_infomask);
  }

  lemma Pow256Four()
    ensures Pow256(4) == 0x1_0000_0000
  {
  }
}
