/** Building heap and index tuples in memory (heaptuple.c, indextuple.c). */
module TupleForm {
  import opened Bits
  import opened Bytes
  import opened Varlena
  import opened TupleLayout
  import opened Wrappers

  const HEAP_HASNULL := 0x0001
  const HEAP_HASVARWIDTH := 0x0002
  const HEAP_HASEXTERNAL := 0x0004
  const HEAP_HASOID := 0x0008
  const HIGHBIT := 0x80

  // ---------------------------------------------------------------- null bitmap

  function BitmapLen(natts: nat): nat {
    (natts + 7) / 8
  }

  predicate AttIsNull(att: nat, bits: seq<Byte>)
    requires att / 8 < |bits|
  {
    And(bits[att / 8], Pow2(att % 8)) == 0
  }

  /** `bits` has a one for every column that is present, and no other ones. */
  ghost predicate IsBitmap(bits: seq<Byte>, cols: seq<Column>) {
    && |bits| == BitmapLen(|cols|)
    && forall i: nat | i < 8 * |bits| :: Bit(bits[i / 8], i % 8) <==> i < |cols| && cols[i].NotNull?
  }

  lemma BitmapReads(bits: seq<Byte>, cols: seq<Column>, i: nat)
    requires IsBitmap(bits, cols) && i < |cols|
    ensures AttIsNull(i, bits) <==> cols[i].Null?
  {
    hide And;
    AndPow2(bits[i / 8], i % 8);
    assert i < 8 * |bits|;
  }

  /** att_isnull looks at bit `i % 8`, counted from the lowest, of byte `i / 8`, and a
      clear bit means null. */
  lemma NullIsZeroDigit(bits: seq<Byte>, i: nat)
    requires i / 8 < |bits|
    ensures AttIsNull(i, bits) <==> (bits[i / 8] / Pow2(i % 8)) % 2 == 0
  {
    hide And, Pow2, Bit;
    AndPow2(bits[i / 8], i % 8);
    BitIsDigit(bits[i / 8], i % 8);
  }

  /** The bitmap is determined by the columns: there is only one. */
  lemma BitmapUnique(b1: seq<Byte>, b2: seq<Byte>, cols: seq<Column>)
    requires IsBitmap(b1, cols) && IsBitmap(b2, cols)
    ensures b1 == b2
  {
    forall k | 0 <= k < |b1| ensures b1[k] == b2[k] {
      assert Pow2(8) == 256 by { Pow2Constants(); }
      forall j: nat | j < 8 ensures Bit(b1[k], j) == Bit(b2[k], j) {
        var i := 8 * k + j;
        assert i / 8 == k && i % 8 == j;
      }
      BitsDetermine(b1[k], b2[k], 8);
    }
  }

  // ---------------------------------------------------------------- size of the data area

  /** heap_compute_data_size: the space the columns will need, padding included. */
  method ComputeDataSize(pf: Platform, attrs: seq<Attr>, cols: seq<Column>) returns (size: nat)
    requires ValidRow(pf, attrs, cols)
    ensures size == |Data(pf, attrs, cols, |attrs|)|
  {
    hide And, Or, Load, Store;
    size := 0;
    for i := 0 to |attrs|
      invariant size == |Data(pf, attrs, cols, i)|
    {
      if cols[i].NotNull? {
        var a, v := attrs[i], cols[i].value;
        StoredFormLength(pf, a, v);
        if IsPackable(a) && CanMakeShort(pf.order, v.bytes) {
          size := size + ConvertedShortSize(pf.order, v.bytes);
        } else {
          // att_align_datum, then att_addlength_datum
          if !(a.attlen == -1 && Is1B(pf.order, v.bytes)) {
            size := AlignNominal(size, a.attalign);
          }
          size := size + (if a.attlen > 0 then a.attlen
                          else if a.attlen == -1 then VarSizeAny(pf.order, v.bytes)
                          else |v.bytes|);
        }
      }
    }
  }

  lemma StoredFormLength(pf: Platform, a: Attr, v: Value)
    requires ValidAttr(pf, a) && ValidValue(pf, a, v)
    ensures |StoredForm(pf, a, v)| == if Packs(pf, a, v) then ConvertedShortSize(pf.order, v.bytes)
                                      else if a.attlen > 0 then a.attlen
                                      else if a.attlen == -1 then VarSizeAny(pf.order, v.bytes)
                                      else |v.bytes|
    ensures IsPackable(a) && CanMakeShort(pf.order, v.bytes) ==> Packs(pf, a, v)
  {
    hide And, Or, Load, Store;
    if Packs(pf, a, v) {
      ShortConversion(pf.order, v.bytes);
    }
    if IsPackable(a) {
      ClassesPartition(pf.order, v.bytes);
    }
  }

  // ---------------------------------------------------------------- heap_fill_tuple

  /** One non-null column: the branches of heap_fill_tuple. `p` is the data
      pointer, as an index into memory that starts MAXALIGNed. */
  method PutValue(pf: Platform, a: Attr, v: Value, t: array<Byte>, p: nat, infomask: nat)
    returns (next: nat, infomask': nat)
    requires ValidAttr(pf, a) && ValidValue(pf, a, v)
    requires StoredAt(pf, a, v, p) + |StoredForm(pf, a, v)| <= t.Length
    modifies t
    ensures var at, s := StoredAt(pf, a, v, p), StoredForm(pf, a, v);
            next == at + |s| && t[..] == Overlay(old(t[..]), at, s)
    ensures infomask' == MaskAfter(pf, a, v, infomask)
  {
    hide And, Or, Load, Store;
    infomask' := infomask;
    StoredFormLength(pf, a, v);
    if a.attbyval {
      var at := AlignNominal(p, a.attalign);
      CopyBytes(t, at, StoreAttByVal(pf, v.datum, a.attlen).bytes);
      next := at + a.attlen;
    } else if a.attlen == -1 {
      ClassesPartition(pf.order, v.bytes);
      infomask' := Or(infomask', HEAP_HASVARWIDTH);
      if Is1BE(pf.order, v.bytes) {
        infomask' := Or(infomask', HEAP_HASEXTERNAL);
        CopyBytes(t, p, v.bytes);
        next := p + VarSize1BE(v.bytes);
      } else if Is1B(pf.order, v.bytes) {
        CopyBytes(t, p, v.bytes);
        next := p + VarSize1B(pf.order, v.bytes);
      } else if IsPackable(a) && CanMakeShort(pf.order, v.bytes) {
        CopyBytes(t, p, ConvertToShort(pf.order, v.bytes));
        next := p + ConvertedShortSize(pf.order, v.bytes);
      } else {
        var at := AlignNominal(p, a.attalign);
        CopyBytes(t, at, v.bytes);
        next := at + VarSize4B(pf.order, v.bytes);
      }
    } else if a.attlen == -2 {
      infomask' := Or(infomask', HEAP_HASVARWIDTH);
      CopyBytes(t, p, v.bytes);
      next := p + |v.bytes|;
    } else {
      var at := AlignNominal(p, a.attalign);
      CopyBytes(t, at, v.bytes);
      next := at + a.attlen;
    }
  }

  function MaskAfter(pf: Platform, a: Attr, v: Value, infomask: nat): nat
    requires ValidAttr(pf, a) && ValidValue(pf, a, v)
  {
    if a.attlen > 0 then infomask
    else if a.attlen == -1 && Is1BE(pf.order, v.bytes) then Or(Or(infomask, HEAP_HASVARWIDTH), HEAP_HASEXTERNAL)
    else Or(infomask, HEAP_HASVARWIDTH)
  }

  /** One step of the null bitmap: `i` columns are recorded, one more is added. */
  function PushBit(bits: seq<Byte>, i: nat, present: bool): seq<Byte>
    requires |bits| == BitmapLen(i)
  {
    if i % 8 == 0 then bits + [if present then 1 else 0]
    else if present then
      var k := |bits| - 1;
      OrByte(bits[k], i % 8);
      bits[k := Or(bits[k], Pow2(i % 8))]
    else bits
  }

  function NullBits(cols: seq<Column>): (bits: seq<Byte>)
    ensures |bits| == BitmapLen(|cols|)
  {
    if cols == [] then []
    else PushBit(NullBits(cols[..|cols| - 1]), |cols| - 1, cols[|cols| - 1].NotNull?)
  }

  lemma OrByte(b: Byte, k: nat)
    requires k < 8
    ensures 0 <= Or(b, Pow2(k)) < 256
  {
    hide Or;
    assert Pow2(8) == 256 by { Pow2Constants(); }
    Pow2Monotone(k, 7);
    OrBound(b, Pow2(k), 8);
  }

  lemma {:induction false} NullBitsIsBitmap(cols: seq<Column>)
    ensures IsBitmap(NullBits(cols), cols)
  {
    hide PushBit;
    if cols != [] {
      NullBitsIsBitmap(cols[..|cols| - 1]);
      forall i: nat | i < 8 * |NullBits(cols)|
        ensures Bit(NullBits(cols)[i / 8], i % 8) <==> i < |cols| && cols[i].NotNull?
      {
        PushBitAdds(NullBits(cols[..|cols| - 1]), cols, i);
      }
    }
  }

  lemma PushBitAdds(before: seq<Byte>, cols: seq<Column>, i: nat)
    requires cols != [] && IsBitmap(before, cols[..|cols| - 1]) && i < 8 * BitmapLen(|cols|)
    ensures var bits := PushBit(before, |cols| - 1, cols[|cols| - 1].NotNull?);
            |bits| == BitmapLen(|cols|) && (Bit(bits[i / 8], i % 8) <==> i < |cols| && cols[i].NotNull?)
  {
    hide Or, Pow2, Bit;
    var n := |cols| - 1;
    if i / 8 < |before| {
      assert Bit(before[i / 8], i % 8) <==> i < n && cols[..n][i].NotNull?;
      OrBit(before[i / 8], Pow2(n % 8), i % 8);
      Pow2Bit(n % 8, i % 8);
    } else {
      assert Pow2(0) == 1 by { Pow2Constants(); }
      Pow2Bit(0, i % 8);
      ZeroBit(i % 8);
    }
  }

  // ---------------------------------------------------------------- infomask

  function MaskFor(pf: Platform, attrs: seq<Attr>, cols: seq<Column>, n: nat, infomask: nat): nat
    requires ValidRow(pf, attrs, cols) && n <= |attrs|
  {
    if n == 0 then And(infomask, Not(HEAP_HASNULL + HEAP_HASVARWIDTH + HEAP_HASEXTERNAL))
    else
      var m := MaskFor(pf, attrs, cols, n - 1, infomask);
      if cols[n - 1].Null? then Or(m, HEAP_HASNULL) else MaskAfter(pf, attrs[n - 1], cols[n - 1].value, m)
  }

  /** What the flags say: some null, some variable-width value, some TOAST pointer;
      every other bit is as it was. */
  lemma {:induction false} MaskMeaning(pf: Platform, attrs: seq<Attr>, cols: seq<Column>, n: nat, infomask: nat, k: nat)
    requires ValidRow(pf, attrs, cols) && n <= |attrs|
    ensures Bit(MaskFor(pf, attrs, cols, n, infomask), k) <==>
            if k == 0 then exists i :: 0 <= i < n && cols[i].Null?
            else if k == 1 then exists i :: 0 <= i < n && cols[i].NotNull? && attrs[i].attlen < 0
            else if k == 2 then exists i :: 0 <= i < n && cols[i].NotNull? && attrs[i].attlen == -1
                                            && cols[i].value.bytes[0] == if pf.order.BigEndian? then 0x80 else 0x01
            else Bit(infomask, k)
  {
    hide Or, And, Bit;
    FlagBits(k);
    if n == 0 {
      AndBit(infomask, Not(7), k);
      NotBit(7, k);
    } else {
      MaskMeaning(pf, attrs, cols, n - 1, infomask, k);
      var m := MaskFor(pf, attrs, cols, n - 1, infomask);
      OrBit(m, HEAP_HASNULL, k);
      OrBit(m, HEAP_HASVARWIDTH, k);
      OrBit(Or(m, HEAP_HASVARWIDTH), HEAP_HASEXTERNAL, k);
    }
  }

  lemma FlagBits(k: nat)
    ensures Bit(1, k) <==> k == 0
    ensures Bit(2, k) <==> k == 1
    ensures Bit(4, k) <==> k == 2
    ensures Bit(8, k) <==> k == 3
    ensures Bit(7, k) <==> k < 3
  {
    Pow2Constants();
    Pow2Bit(0, k);
    Pow2Bit(1, k);
    Pow2Bit(2, k);
    Pow2Bit(3, k);
    MaskBit(3, k);
  }

  // ---------------------------------------------------------------- the fill loop

  /** The bitmap step: `bitP` and `bitmask` move to the bit of the next column. */
  method PutNullBit(t: array<Byte>, bit: nat, bitP: int, bitmask: nat, ghost i: nat, present: bool)
    returns (bitP': int, bitmask': nat)
    requires bitP == bit + BitmapLen(i) - 1 && bit + BitmapLen(i + 1) <= t.Length
    requires bitmask == if i % 8 == 0 then HIGHBIT else Pow2((i - 1) % 8)
    modifies t
    ensures bitP' == bit + BitmapLen(i + 1) - 1
    ensures bitmask' == if (i + 1) % 8 == 0 then HIGHBIT else Pow2(i % 8)
    ensures t[..] == Overlay(old(t[..]), bit, PushBit(old(t[bit..bitP + 1]), i, present))
  {
    hide Or;
    ghost var was := t[bit..bitP + 1];
    bitP', bitmask' := bitP, bitmask;
    MaskStep(i);
    if bitmask' != HIGHBIT {
      bitmask' := 2 * bitmask';
    } else {
      bitP' := bitP' + 1;
      t[bitP'] := 0;
      bitmask' := 1;
    }
    if present {
      OrByte(t[bitP'], i % 8);
      OrZeroLeft(bitmask');
      t[bitP'] := Or(t[bitP'], bitmask');
    }
    assert t[bit..bitP' + 1] == PushBit(was, i, present);
  }

  lemma OrZeroLeft(x: int)
    ensures Or(0, x) == x
  {
  }

  lemma MaskStep(i: nat)
    ensures i % 8 != 0 ==> Pow2(i % 8) == 2 * Pow2((i - 1) % 8) && Pow2((i - 1) % 8) < HIGHBIT
    ensures i % 8 == 7 ==> Pow2(i % 8) == HIGHBIT
    ensures i % 8 == 0 ==> Pow2(i % 8) == 1
  {
    hide Pow2;
    PowStep(i % 8);
    assert i % 8 != 0 ==> (i - 1) % 8 == i % 8 - 1;
  }

  lemma PowStep(r: nat)
    requires r < 8
    ensures Pow2(0) == 1 && Pow2(7) == HIGHBIT
    ensures r > 0 ==> Pow2(r) == 2 * Pow2(r - 1) && Pow2(r - 1) < HIGHBIT
  {
    assert Pow2(7) == 128 by { Pow2Constants(); }
    if r > 0 { Pow2Monotone(r - 1, 6); }
  }

  /** Memory after the values of `n` columns went to the data area at `data`, and
      the null flags of `m` columns to the bitmap at `bit`, if there is one. */
  ghost function Filled(pf: Platform, attrs: seq<Attr>, cols: seq<Column>, n: nat, m: nat, data: nat, bit: Option<nat>,
                        was: seq<Byte>): (t: seq<Byte>)
    requires FillPre(pf, attrs, cols, data, bit, was) && n <= |attrs| && m <= |attrs|
    ensures |t| == |was|
  {
    DataGrows(pf, attrs, cols, n, |attrs|);
    var t := Overlay(was, data, Data(pf, attrs, cols, n));
    if bit.Some? then Overlay(t, bit.value, NullBits(cols[..m])) else t
  }

  /** What heap_fill_tuple asks of its caller: room, a zeroed data area, and a
      place for the bitmap when there is a null. */
  ghost predicate FillPre(pf: Platform, attrs: seq<Attr>, cols: seq<Column>, data: nat, bit: Option<nat>,
                          was: seq<Byte>)
  {
    && ValidRow(pf, attrs, cols)
    && data % 8 == 0
    && data + |Data(pf, attrs, cols, |attrs|)| <= |was|
    && (forall k :: data <= k < data + |Data(pf, attrs, cols, |attrs|)| ==> was[k] == 0)
    && if bit.Some? then bit.value + BitmapLen(|attrs|) <= data
       else forall i :: 0 <= i < |cols| ==> cols[i].NotNull?
  }

  /** Writing a value behind zero bytes is appending padding and value. */
  lemma OverlayAppend(was: seq<Byte>, data: nat, d: seq<Byte>, at: nat, s: seq<Byte>)
    requires data + |d| <= at && at + |s| <= |was|
    requires forall k :: data + |d| <= k < at ==> was[k] == 0
    ensures Overlay(Overlay(was, data, d), at, s) == Overlay(was, data, d + Zeros(at - data - |d|) + s)
  {
  }

  lemma OverlaysCommute(was: seq<Byte>, bit: nat, b: seq<Byte>, at: nat, s: seq<Byte>)
    requires bit + |b| <= at && at + |s| <= |was|
    ensures Overlay(Overlay(was, bit, b), at, s) == Overlay(Overlay(was, at, s), bit, b)
  {
  }

  lemma OverlayTwice(was: seq<Byte>, bit: nat, b: seq<Byte>, b': seq<Byte>)
    requires |b| <= |b'| && bit + |b'| <= |was|
    ensures Overlay(Overlay(was, bit, b), bit, b') == Overlay(was, bit, b')
    ensures Overlay(was, bit, b)[bit..bit + |b|] == b
  {
  }

  lemma FilledFlag(pf: Platform, attrs: seq<Attr>, cols: seq<Column>, i: nat, data: nat, bit: Option<nat>,
                   was: seq<Byte>)
    requires FillPre(pf, attrs, cols, data, bit, was) && i < |attrs|
    ensures bit.None? ==>
              Filled(pf, attrs, cols, i, i + 1, data, bit, was) == Filled(pf, attrs, cols, i, i, data, bit, was)
    ensures bit.Some? ==>
              var t := Filled(pf, attrs, cols, i, i, data, bit, was);
              && BitmapLen(i) <= BitmapLen(i + 1) && bit.value + BitmapLen(i + 1) <= |was|
              && t[bit.value..bit.value + BitmapLen(i)] == NullBits(cols[..i])
              && Overlay(t, bit.value, PushBit(NullBits(cols[..i]), i, cols[i].NotNull?))
                 == Filled(pf, attrs, cols, i, i + 1, data, bit, was)
  {
    hide Overlay, ValidAttr, ValidValue;
    DataGrows(pf, attrs, cols, i, |attrs|);
    if bit.Some? {
      assert cols[..i + 1][..i] == cols[..i];
      BitmapFits(i, |attrs|);
      assert NullBits(cols[..i + 1]) == PushBit(NullBits(cols[..i]), i, cols[i].NotNull?);
      OverlayTwice(Overlay(was, data, Data(pf, attrs, cols, i)), bit.value, NullBits(cols[..i]),
                   NullBits(cols[..i + 1]));
    }
  }

  lemma FilledNull(pf: Platform, attrs: seq<Attr>, cols: seq<Column>, i: nat, data: nat, bit: Option<nat>,
                   was: seq<Byte>)
    requires FillPre(pf, attrs, cols, data, bit, was) && i < |attrs| && cols[i].Null?
    ensures |Data(pf, attrs, cols, i + 1)| == |Data(pf, attrs, cols, i)|
    ensures Filled(pf, attrs, cols, i, i + 1, data, bit, was) == Filled(pf, attrs, cols, i + 1, i + 1, data, bit, was)
  {
  }

  lemma FilledValue(pf: Platform, attrs: seq<Attr>, cols: seq<Column>, i: nat, data: nat, bit: Option<nat>,
                    was: seq<Byte>)
    requires FillPre(pf, attrs, cols, data, bit, was) && i < |attrs| && cols[i].NotNull?
    ensures var at, s := data + ColumnAt(pf, attrs, cols, i), ColumnForm(pf, attrs, cols, i);
            && at + |s| == data + |Data(pf, attrs, cols, i + 1)| <= |was|
            && Overlay(Filled(pf, attrs, cols, i, i + 1, data, bit, was), at, s)
               == Filled(pf, attrs, cols, i + 1, i + 1, data, bit, was)
  {
    hide NullBits, Overlay, ColumnAt, ColumnForm, Data, ValidAttr, ValidValue;
    DataGrows(pf, attrs, cols, i, |attrs|);
    DataGrows(pf, attrs, cols, i + 1, |attrs|);
    DataStep(pf, attrs, cols, i);
    var d := Data(pf, attrs, cols, i);
    var at, s := data + ColumnAt(pf, attrs, cols, i), ColumnForm(pf, attrs, cols, i);
    OverlayAppend(was, data, d, at, s);
    if bit.Some? {
      BitmapFits(i, |attrs|);
      OverlaysCommute(Overlay(was, data, d), bit.value, NullBits(cols[..i + 1]), at, s);
    }
  }

  lemma BitmapFits(i: nat, n: nat)
    requires i < n
    ensures BitmapLen(i) <= BitmapLen(i + 1) <= BitmapLen(n)
  {
  }

  /** heap_fill_tuple. */
  method FillTuple(pf: Platform, attrs: seq<Attr>, cols: seq<Column>, t: array<Byte>, data: nat, bit: Option<nat>,
                   infomask: nat) returns (infomask': nat)
    requires FillPre(pf, attrs, cols, data, bit, t[..])
    modifies t
    ensures infomask' == MaskFor(pf, attrs, cols, |attrs|, infomask)
    ensures t[..] == Filled(pf, attrs, cols, |attrs|, |attrs|, data, bit, old(t[..]))
    ensures var n := |Data(pf, attrs, cols, |attrs|)|;
            && t[data..data + n] == Data(pf, attrs, cols, |attrs|)
            && forall k | 0 <= k < t.Length && !(data <= k < data + n)
                          && (bit.Some? ==> !(bit.value <= k < bit.value + (|attrs| + 7) / 8)) :: t[k] == old(t[k])
    ensures bit.Some? ==>
              forall i: nat | i < |attrs| ::
                (t[bit.value + i / 8] / Pow2(i % 8)) % 2 == if cols[i].Null? then 0 else 1
  {
    hide And, Or, NullBits, Overlay, StoredForm, StoredAt, ValidAttr, ValidValue, MaskAfter, PushBit, Filled, Pow2,
         Data;
    var bitP: int, bitmask: nat := if bit.Some? then bit.value - 1 else 0, HIGHBIT;
    infomask' := And(infomask, Not(HEAP_HASNULL + HEAP_HASVARWIDTH + HEAP_HASEXTERNAL));
    var p := data;
    ghost var was := t[..];
    EmptyFill(pf, attrs, cols, data, bit, was);
    for i := 0 to |attrs|
      invariant t[..] == Filled(pf, attrs, cols, i, i, data, bit, was) && p == data + |Data(pf, attrs, cols, i)|
      invariant infomask' == MaskFor(pf, attrs, cols, i, infomask)
      invariant bit.Some? ==> bitP == bit.value + BitmapLen(i) - 1
                              && bitmask == if i % 8 == 0 then HIGHBIT else Pow2((i - 1) % 8)
    {
      FilledFlag(pf, attrs, cols, i, data, bit, was);
      if bit.Some? {
        bitP, bitmask := PutNullBit(t, bit.value, bitP, bitmask, i, cols[i].NotNull?);
      }
      assert t[..] == Filled(pf, attrs, cols, i, i + 1, data, bit, was);
      if cols[i].Null? {
        FilledNull(pf, attrs, cols, i, data, bit, was);
        infomask' := Or(infomask', HEAP_HASNULL);
      } else {
        FilledValue(pf, attrs, cols, i, data, bit, was);
        StoredAtBase(pf, attrs[i], cols[i].value, p - data, data);
        p, infomask' := PutValue(pf, attrs[i], cols[i].value, t, p, infomask');
      }
    }
    FilledParts(pf, attrs, cols, data, bit, was);
  }

  /** What memory holds in the end: the data area, the bitmap with a one for every column
      that is present, and everything else as before. */
  lemma FilledParts(pf: Platform, attrs: seq<Attr>, cols: seq<Column>, data: nat, bit: Option<nat>, was: seq<Byte>)
    requires FillPre(pf, attrs, cols, data, bit, was)
    ensures var t, d := Filled(pf, attrs, cols, |attrs|, |attrs|, data, bit, was), Data(pf, attrs, cols, |attrs|);
            && t[data..data + |d|] == d
            && (bit.Some? ==> t[bit.value..bit.value + BitmapLen(|attrs|)] == NullBits(cols))
            && (forall k | 0 <= k < |t| && !(data <= k < data + |d|)
                           && (bit.Some? ==> !(bit.value <= k < bit.value + (|attrs| + 7) / 8)) :: t[k] == was[k])
            && (bit.Some? ==>
                  forall i: nat | i < |attrs| ::
                    (t[bit.value + i / 8] / Pow2(i % 8)) % 2 == if cols[i].Null? then 0 else 1)
  {
    hide ValidAttr, ValidValue, Data, NullBits, Pow2;
    assert cols[..|attrs|] == cols;
    var t := Filled(pf, attrs, cols, |attrs|, |attrs|, data, bit, was);
    if bit.Some? {
      NullBitsIsBitmap(cols);
      forall i: nat | i < |attrs|
        ensures (t[bit.value + i / 8] / Pow2(i % 8)) % 2 == if cols[i].Null? then 0 else 1
      {
        assert t[bit.value + i / 8] == NullBits(cols)[i / 8];
        BitmapReads(NullBits(cols), cols, i);
        NullIsZeroDigit(NullBits(cols), i);
      }
    }
  }

  lemma EmptyFill(pf: Platform, attrs: seq<Attr>, cols: seq<Column>, data: nat, bit: Option<nat>, was: seq<Byte>)
    requires FillPre(pf, attrs, cols, data, bit, was)
    ensures Data(pf, attrs, cols, 0) == [] && Filled(pf, attrs, cols, 0, 0, data, bit, was) == was
  {
  }
}
