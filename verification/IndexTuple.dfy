/** Index tuples: the same data area behind a smaller header (itup.h, indextuple.c). */
module IndexTuple {
  import opened Bits
  import opened Bytes
  import opened Alignment
  import opened TupleLayout
  import opened TupleForm
  import opened Wrappers
  import opened HeapTuple
  import opened TupleDesc

  const INDEX_MAX_KEYS := 32
  const INDEX_SIZE_MASK := 0x1FFF
  const INDEX_VAR_MASK := 0x4000
  const INDEX_NULL_MASK := 0x8000
  const SIZEOF_INDEX_TUPLE_DATA := 8
  const SIZEOF_INDEX_BITMAP := 4

  datatype IndexTuple = IndexTuple(t_info: nat, image: seq<Byte>)

  datatype IndexFormResult = Formed(tuple: IndexTuple) | TooManyColumns | RowTooBig(size: nat)

  function InfoFindDataOffset(t_info: nat): nat {
    if And(t_info, INDEX_NULL_MASK) == 0 then MaxAlign(SIZEOF_INDEX_TUPLE_DATA)
    else MaxAlign(SIZEOF_INDEX_TUPLE_DATA + SIZEOF_INDEX_BITMAP)
  }

  function DataOffset(hasnull: bool): (r: nat)
    ensures r == if hasnull then 16 else 8
  {
    hide TypeAlign;
    if hasnull then MaxAlign(SIZEOF_INDEX_TUPLE_DATA + SIZEOF_INDEX_BITMAP) else MaxAlign(SIZEOF_INDEX_TUPLE_DATA)
  }

  function Size(t_info: nat): nat {
    And(t_info, INDEX_SIZE_MASK)
  }

  function Info(hasnull: bool, hasvar: bool, size: nat): nat {
    Or(Or(Or(0, if hasnull then INDEX_NULL_MASK else 0), if hasvar then INDEX_VAR_MASK else 0), size)
  }

  /** The two flags and a 13-bit size share t_info without touching one another. */
  lemma InfoRoundTrip(hasnull: bool, hasvar: bool, size: nat)
    requires size <= INDEX_SIZE_MASK
    ensures var i := Info(hasnull, hasvar, size);
            && (And(i, INDEX_NULL_MASK) != 0 <==> hasnull)
            && (And(i, INDEX_VAR_MASK) != 0 <==> hasvar)
            && Size(i) == size
            && InfoFindDataOffset(i) == DataOffset(hasnull)
  {
    hide And, Or, TypeAlign, Info;
    InfoIsSum(hasnull, hasvar, size);
    TestFlags(Info(hasnull, hasvar, size));
  }

  lemma InfoIsSum(hasnull: bool, hasvar: bool, size: nat)
    requires size <= INDEX_SIZE_MASK
    ensures Info(hasnull, hasvar, size) == (if hasnull then 0x8000 else 0) + (if hasvar then 0x4000 else 0) + size
  {
    hide Or;
    var n, v := if hasnull then 0x8000 else 0, if hasvar then 0x4000 else 0;
    OrZero(n);
    OrFlags(n, v);
    OrSize(n + v, size);
  }

  lemma OrFlags(n: nat, v: nat)
    requires (n == 0 || n == 0x8000) && (v == 0 || v == 0x4000)
    ensures Or(0, n) == n && Or(n, v) == n + v
  {
    hide Pow2, Or, Bit;
    assert Or(0, n) == n by { OrZeroLeft(n); }
    OrZero(n);
    assert Pow2(14) == 0x4000 by { Pow2Constants(); }
    if v != 0 {
      OrPow2(n, 14);
      BitIsDigit(n, 14);
    }
  }

  lemma OrSize(flags: nat, size: nat)
    requires flags % 0x2000 == 0 && size < 0x2000
    ensures Or(flags, size) == flags + size
  {
    hide Or, Pow2;
    assert Pow2(13) == 0x2000 by { Pow2Constants(); }
    OrAdd(flags, size, 13);
  }

  lemma TestFlags(i: nat)
    ensures And(i, INDEX_SIZE_MASK) == i % 0x2000
    ensures And(i, INDEX_VAR_MASK) != 0 <==> (i / 0x4000) % 2 == 1
    ensures And(i, INDEX_NULL_MASK) != 0 <==> (i / 0x8000) % 2 == 1
  {
    hide And, Pow2, Bit;
    assert Pow2(13) == 0x2000 && Pow2(14) == 0x4000 && Pow2(15) == 0x8000 by { Pow2Constants(); }
    AndMask(i, 13);
    AndPow2(i, 14);
    AndPow2(i, 15);
    BitIsDigit(i, 14);
    BitIsDigit(i, 15);
  }

  /** The size field holds every size up to 8191 and no other. */
  lemma SizeFits(size: nat)
    ensures And(size, INDEX_SIZE_MASK) == size <==> size <= INDEX_SIZE_MASK
  {
    hide And, Pow2;
    assert Pow2(13) == 0x2000 by { Pow2Constants(); }
    AndMask(size, 13);
  }

  predicate HasVarWidth(attrs: seq<Attr>, cols: seq<Column>) {
    exists i :: 0 <= i < |attrs| && i < |cols| && cols[i].NotNull? && attrs[i].attlen < 0
  }

  function FormedSize(hasnull: bool, datasize: nat): nat {
    MaxAlign(DataOffset(hasnull) + datasize)
  }

  lemma FormedSizeIsLeast(hasnull: bool, datasize: nat)
    ensures var r, least := FormedSize(hasnull, datasize), (if hasnull then 16 else 8) + datasize;
            r % 8 == 0 && least <= r < least + 8
  {
    hide MaxAlign;
  }

  /** The tuple that index_form_tuple builds, up to the heap TID in its header. */
  ghost predicate IsFormedIndex(pf: Platform, attrs: seq<Attr>, cols: seq<Column>, tup: IndexTuple) {
    hide ValidAttr, ValidValue, MaxAlign;
    && ValidRow(pf, attrs, cols)
    && |attrs| <= INDEX_MAX_KEYS
    && |tup.image| == FormedSize(AnyNull(cols), |Data(pf, attrs, cols, |attrs|)|) <= INDEX_SIZE_MASK
    && tup.t_info == Info(AnyNull(cols), HasVarWidth(attrs, cols), |tup.image|)
    && HasIndexParts(AnyNull(cols), NullBits(cols), Data(pf, attrs, cols, |attrs|), tup.image)
  }

  predicate HasIndexParts(hasnull: bool, bits: seq<Byte>, data: seq<Byte>, image: seq<Byte>) {
    && DataOffset(hasnull) + |data| <= |image|
    && image[DataOffset(hasnull)..] == data + Zeros(|image| - DataOffset(hasnull) - |data|)
    && (hasnull ==> SIZEOF_INDEX_TUPLE_DATA + |bits| <= DataOffset(hasnull)
                    && image[SIZEOF_INDEX_TUPLE_DATA..SIZEOF_INDEX_TUPLE_DATA + |bits|] == bits)
  }

  /** index_form_tuple, for values that are already fetched and compressed. */
  method FormTuple(pf: Platform, attrs: seq<Attr>, cols: seq<Column>) returns (r: IndexFormResult)
    requires ValidRow(pf, attrs, cols)
    ensures r.TooManyColumns? <==> |attrs| > 32
    ensures r.RowTooBig? <==>
              |attrs| <= 32 && FormedSize(AnyNull(cols), |Data(pf, attrs, cols, |attrs|)|) > 8191
    ensures r.Formed? ==> IsFormedIndex(pf, attrs, cols, r.tuple)
  {
    hide TypeAlign, And, Or, ValidAttr, ValidValue, MaskFor, HasFlag, NullBits, Data, Filled, Pow2, Info, Bit,
         HasVarWidth, FormedSize, HasIndexParts;
    if |attrs| > INDEX_MAX_KEYS {
      return IndexFormResult.TooManyColumns;
    }
    var hasnull := false;
    for i := 0 to |cols|
      invariant !hasnull && forall k :: 0 <= k < i ==> cols[k].NotNull?
    {
      if cols[i].Null? {
        hasnull := true;
        break;
      }
    }
    assert hasnull <==> AnyNull(cols);
    var hoff := DataOffset(hasnull);
    var datasize := ComputeDataSize(pf, attrs, cols);
    var size := FormedSize(hasnull, datasize);
    FormedSizeIsLeast(hasnull, datasize);
    var image := new Byte[size](_ => 0);
    var bit := if hasnull then Some(SIZEOF_INDEX_TUPLE_DATA as nat) else None;
    ghost var was := image[..];
    FilledIndexParts(pf, attrs, cols, hoff, bit, was);
    var tupmask := FillTuple(pf, attrs, cols, image, hoff, bit, 0);
    var hasvar := HasFlag(tupmask, HEAP_HASVARWIDTH);
    VarWidthFlag(pf, attrs, cols);
    SizeFits(size);
    if And(size, INDEX_SIZE_MASK) != size {
      return RowTooBig(size);
    }
    r := IndexFormResult.Formed(IndexTuple(Info(hasnull, hasvar, size), image[..]));
  }

  lemma VarWidthFlag(pf: Platform, attrs: seq<Attr>, cols: seq<Column>)
    requires ValidRow(pf, attrs, cols)
    ensures HasFlag(MaskFor(pf, attrs, cols, |attrs|, 0), HEAP_HASVARWIDTH) <==> HasVarWidth(attrs, cols)
  {
    hide MaskFor, HasFlag, Bit, ValidAttr, ValidValue;
    FlagIsBit(MaskFor(pf, attrs, cols, |attrs|, 0));
    MaskMeaning(pf, attrs, cols, |attrs|, 0, 1);
  }

  lemma FilledIndexParts(pf: Platform, attrs: seq<Attr>, cols: seq<Column>, data: nat, bit: Option<nat>, was: seq<Byte>)
    requires FillPre(pf, attrs, cols, data, bit, was) && data == if bit.Some? then 16 else 8
    requires bit.Some? ==> bit.value == SIZEOF_INDEX_TUPLE_DATA
    requires forall k :: 0 <= k < |was| ==> was[k] == 0
    ensures HasIndexParts(bit.Some?, NullBits(cols), Data(pf, attrs, cols, |attrs|),
                          Filled(pf, attrs, cols, |attrs|, |attrs|, data, bit, was))
  {
    hide ValidAttr, ValidValue, Data, NullBits, Filled, Pow2, MaxAlign;
    FilledParts(pf, attrs, cols, data, bit, was);
    var t, n := Filled(pf, attrs, cols, |attrs|, |attrs|, data, bit, was), |Data(pf, attrs, cols, |attrs|)|;
    assert t[data..] == t[data..data + n] + t[data + n..];
    assert t[data + n..] == Zeros(|was| - data - n);
  }

  /** The tuple, spelled out: the size with the flags for nulls and variable width above
      it; a bitmap of 32 bits behind the header only when there is a null; and the data
      area, which starts and ends at a multiple of MAXALIGN. */
  lemma FormedIndexImage(pf: Platform, attrs: seq<Attr>, cols: seq<Column>, tup: IndexTuple)
    requires IsFormedIndex(pf, attrs, cols, tup)
    ensures var hasnull := exists i :: 0 <= i < |cols| && cols[i].Null?;
            var hasvar := exists i :: 0 <= i < |cols| && cols[i].NotNull? && attrs[i].attlen < 0;
            var data, n := if hasnull then 16 else 8, |Data(pf, attrs, cols, |attrs|)|;
            && tup.t_info == (if hasnull then 0x8000 else 0) + (if hasvar then 0x4000 else 0) + |tup.image|
            && |tup.image| < 0x2000 && |tup.image| % 8 == 0 && data + n <= |tup.image| < data + n + 8
            && tup.image[data..data + n] == Data(pf, attrs, cols, |attrs|)
            && (forall k :: data + n <= k < |tup.image| ==> tup.image[k] == 0)
            && (hasnull ==>
                  forall i: nat | i < |cols| ::
                    (tup.image[8 + i / 8] / Pow2(i % 8)) % 2 == if cols[i].Null? then 0 else 1)
  {
    hide And, Or, Pow2, TypeAlign, Data, NullBits, ValidAttr, ValidValue, AttIsNull;
    InfoIsSum(AnyNull(cols), HasVarWidth(attrs, cols), |tup.image|);
    if AnyNull(cols) {
      BitmapDigits(tup.image, SIZEOF_INDEX_TUPLE_DATA, cols);
    }
  }

  function IndexView(tup: IndexTuple): View
    requires SIZEOF_INDEX_TUPLE_DATA <= InfoFindDataOffset(tup.t_info) <= |tup.image|
  {
    View(tup.image[InfoFindDataOffset(tup.t_info)..], And(tup.t_info, INDEX_NULL_MASK) != 0,
         tup.image[SIZEOF_INDEX_TUPLE_DATA..], And(tup.t_info, INDEX_VAR_MASK) != 0)
  }

  /** index_getattr reads back what index_form_tuple was given. The view is the one
      that Descriptor.GetAttr works on. */
  lemma IndexTupleRoundTrip(pf: Platform, attrs: seq<Attr>, cols: seq<Column>, tup: IndexTuple)
    requires IsFormedIndex(pf, attrs, cols, tup)
    ensures SIZEOF_INDEX_TUPLE_DATA <= InfoFindDataOffset(tup.t_info) <= |tup.image| == Size(tup.t_info)
    ensures Readable(pf, attrs, IndexView(tup), |attrs|)
    ensures forall i :: 0 <= i < |attrs| ==>
              ColumnOf(pf, attrs, IndexView(tup), |attrs|, i) == ReadsAs(pf, attrs[i], cols[i])
  {
    hide And, Or, TypeAlign, Data, NullBits, Info, InfoFindDataOffset, ValidAttr, ValidValue, AnyNull;
    var data, hoff := Data(pf, attrs, cols, |attrs|), DataOffset(AnyNull(cols));
    InfoRoundTrip(AnyNull(cols), HasVarWidth(attrs, cols), |tup.image|);
    if AnyNull(cols) {
      assert tup.image[SIZEOF_INDEX_TUPLE_DATA..][..BitmapLen(|attrs|)]
          == tup.image[SIZEOF_INDEX_TUPLE_DATA..SIZEOF_INDEX_TUPLE_DATA + BitmapLen(|attrs|)];
    }
    FormedViewReads(pf, attrs, cols, IndexView(tup), Zeros(|tup.image| - hoff - |data|));
  }

  /** index_deform_tuple: index_getattr for each column in turn. */
  method Deform(desc: Descriptor, tup: IndexTuple) returns (cols: seq<Column>)
    requires desc.Valid() && SIZEOF_INDEX_TUPLE_DATA <= InfoFindDataOffset(tup.t_info) <= |tup.image|
    requires Readable(desc.pf, desc.attrs, IndexView(tup), |desc.attrs|)
    modifies desc.attcacheoff
    ensures desc.Valid() && |cols| == |desc.attrs|
    ensures forall i :: 0 <= i < |cols| ==>
              cols[i] == ColumnOf(desc.pf, desc.attrs, IndexView(tup), |desc.attrs|, i)
  {
    hide And;
    cols := [];
    for i := 0 to |desc.attrs|
      invariant desc.Valid() && |cols| == i
      invariant forall k :: 0 <= k < i ==> cols[k] == ColumnOf(desc.pf, desc.attrs, IndexView(tup), |desc.attrs|, k)
    {
      var c := desc.GetAttr(IndexView(tup), i + 1, |desc.attrs|);
      cols := cols + [c];
    }
  }
}
