/** The data area of a heap or index tuple (tupmacs.h): how columns are laid out
    by a writer and found again by a reader that walks the same bytes. */
module TupleLayout {
  import opened Bits
  import opened Bytes
  import opened Alignment
  import opened Varlena
  import opened Wrappers

  /** Byte order and sizeof(Datum), which is 4 or 8. */
  datatype Platform = Platform(order: ByteOrder, sizeofDatum: nat)

  /** The part of pg_attribute that the layout depends on. */
  datatype Attr = Attr(attlen: int, attbyval: bool, attalign: char, attstorage: char)

  /** A Datum: the word itself, or the object that the pointer leads to. */
  datatype Value = ByVal(datum: nat) | ByRef(bytes: seq<Byte>)

  datatype Column = Null | NotNull(value: Value)

  predicate SupportedByValLength(pf: Platform, attlen: int) {
    attlen == 1 || attlen == 2 || attlen == 4 || (attlen == 8 && pf.sizeofDatum == 8)
  }

  predicate ValidAttr(pf: Platform, a: Attr) {
    && a.attalign in "csid"
    && (a.attlen > 0 || a.attlen == -1 || a.attlen == -2)
    && (a.attbyval ==> SupportedByValLength(pf, a.attlen))
    && (a.attlen == -2 ==> a.attalign == 'c')
  }

  predicate ValidValue(pf: Platform, a: Attr, v: Value) {
    if a.attbyval then v.ByVal? && v.datum < Pow256(pf.sizeofDatum)
    else v.ByRef? &&
         if a.attlen > 0 then |v.bytes| == a.attlen
         else if a.attlen == -1 then WellFormed(pf.order, v.bytes)
         else IsCString(v.bytes)
  }

  /** Bytes up to and including the only zero. */
  predicate IsCString(s: seq<Byte>) {
    |s| > 0 && s[|s| - 1] == 0 && forall i :: 0 <= i < |s| - 1 ==> s[i] != 0
  }

  predicate ValidRow(pf: Platform, attrs: seq<Attr>, cols: seq<Column>) {
    && |cols| == |attrs|
    && forall i :: 0 <= i < |attrs| ==>
         ValidAttr(pf, attrs[i]) && (cols[i].NotNull? ==> ValidValue(pf, attrs[i], cols[i].value))
  }

  // ---------------------------------------------------------------- alignment

  function AlignNominal(off: int, attalign: char): (r: int)
    ensures off <= r < off + 8
  {
    if attalign == 'i' then IntAlign(off)
    else if attalign == 'c' then off
    else if attalign == 'd' then DoubleAlign(off)
    else ShortAlign(off)
  }

  /** Rounding up to the least multiple of 4 for an int, 8 for a double and 2 for a short,
      and not at all for a char. */
  lemma AlignNominalIsLeast(off: int, attalign: char)
    ensures var r := AlignNominal(off, attalign);
            if attalign == 'i' then r % 4 == 0 && off <= r < off + 4
            else if attalign == 'd' then r % 8 == 0 && off <= r < off + 8
            else if attalign == 'c' then r == off
            else r % 2 == 0 && off <= r < off + 2
  {
    hide IntAlign, DoubleAlign, ShortAlign;
  }

  /** Aligning twice is aligning once, and a MAXALIGNed base does not matter. */
  lemma AlignNominalLaws(off: int, attalign: char, base: int)
    requires base % 8 == 0
    ensures AlignNominal(AlignNominal(off, attalign), attalign) == AlignNominal(off, attalign)
    ensures AlignNominal(base + off, attalign) == base + AlignNominal(off, attalign)
  {
    hide AlignNominal;
    AlignNominalShift(off, attalign, base);
    AlignedStays(off, attalign);
  }

  lemma AlignNominalShift(off: int, attalign: char, base: int)
    requires base % 8 == 0
    ensures AlignNominal(base + off, attalign) == base + AlignNominal(off, attalign)
  {
    hide AlignNominal;
    EightDivided(base);
    var r, r' := AlignNominal(off, attalign), AlignNominal(base + off, attalign);
    AlignNominalIsLeast(off, attalign);
    AlignNominalIsLeast(base + off, attalign);
    if attalign == 'i' {
      SameMultiple(4, off, base, r, r');
    } else if attalign == 'd' {
      SameMultiple(8, off, base, r, r');
    } else if attalign != 'c' {
      SameMultiple(2, off, base, r, r');
    }
  }

  lemma EightDivided(n: int)
    requires n % 8 == 0
    ensures n % 2 == 0 && n % 4 == 0
  {
    QuotientUnique(n, 2, 4 * (n / 8), 0);
    QuotientUnique(n, 4, 2 * (n / 8), 0);
  }

  lemma AlignedStays(off: int, attalign: char)
    ensures AlignNominal(AlignNominal(off, attalign), attalign) == AlignNominal(off, attalign)
  {
    hide AlignNominal;
    var r := AlignNominal(off, attalign);
    var r' := AlignNominal(r, attalign);
    AlignNominalIsLeast(off, attalign);
    AlignNominalIsLeast(r, attalign);
    if attalign == 'i' {
      SameMultiple(4, r, 0, r, r');
    } else if attalign == 'd' {
      SameMultiple(8, r, 0, r, r');
    } else if attalign != 'c' {
      SameMultiple(2, r, 0, r, r');
    }
  }

  lemma SameMultiple(a: int, off: int, base: int, r: int, r': int)
    requires a > 0 && base % a == 0 && r % a == 0 && r' % a == 0
    requires off <= r < off + a && base + off <= r' < base + off + a
    ensures r' == base + r
  {
    assert base + r == (base / a + r / a) * a;
    QuotientUnique(base + r, a, base / a + r / a, 0);
    if r' < base + r {
      MultiplesApart(r', base + r, a);
    } else if base + r < r' {
      MultiplesApart(base + r, r', a);
    }
  }

  // ---------------------------------------------------------------- by-value fields

  datatype StoreResult = Stored(bytes: seq<Byte>) | UnsupportedByValLength

  function StoreAttByVal(pf: Platform, datum: nat, attlen: int): StoreResult {
    if SupportedByValLength(pf, attlen) then Stored(Store(pf.order, datum, attlen))
    else UnsupportedByValLength
  }

  /** The value of an n-bit field read as a signed integer, as `*((int32 *) T)` does. */
  function SignExtend(v: nat, k: nat): int
    requires k > 0
  {
    if v < Pow2(k - 1) then v else v - Pow2(k)
  }

  function FetchAttByVal(pf: Platform, t: seq<Byte>, attlen: int): int
    requires SupportedByValLength(pf, attlen) && |t| >= attlen
  {
    var v := Load(pf.order, t[..attlen]);
    if attlen == pf.sizeofDatum then v
    else if attlen == 4 then And(SignExtend(v, 32), 0xFFFF_FFFF)
    else if attlen == 2 then And(SignExtend(v, 16), 0xFFFF)
    else And(SignExtend(v, 8), 0xFF)
  }

  lemma MaskedSignExtend(v: nat, k: nat)
    requires k > 0 && v < Pow2(k)
    ensures And(SignExtend(v, k), Pow2(k) - 1) == v
  {
    AndMask(SignExtend(v, k), k);
    QuotientUnique(SignExtend(v, k), Pow2(k), if v < Pow2(k - 1) then 0 else -1, v);
  }

  lemma FetchIsLoad(pf: Platform, t: seq<Byte>, attlen: int)
    requires SupportedByValLength(pf, attlen) && |t| >= attlen
    ensures FetchAttByVal(pf, t, attlen) == Load(pf.order, t[..attlen])
  {
    hide And, Pow2, Load;
    var v := Load(pf.order, t[..attlen]);
    LoadBound(pf.order, t[..attlen]);
    assert Pow256(1) == 0x100 && Pow256(2) == 0x1_0000 && Pow256(4) == 0x1_0000_0000;
    assert Pow2(8) == 0x100 && Pow2(16) == 0x1_0000 && Pow2(32) == 0x1_0000_0000 by { Pow2Constants(); }
    if attlen < 8 {
      MaskedSignExtend(v, 8 * attlen);
    }
  }

  /** store_att_byval is a partial inverse of fetch_att: it fails exactly for the
      lengths it does not know, and otherwise gives back the low-order bytes, which
      is the Datum itself exactly when the Datum has no others. */
  lemma StoreFetchPartialInverse(pf: Platform, datum: nat, attlen: int, rest: seq<Byte>)
    ensures var s := StoreAttByVal(pf, datum, attlen);
            && (s.Stored? <==> attlen == 1 || attlen == 2 || attlen == 4 || (attlen == 8 && pf.sizeofDatum == 8))
            && (s.Stored? ==>
                  && |s.bytes| == attlen
                  && FetchAttByVal(pf, s.bytes + rest, attlen) == datum % Pow256(attlen)
                  && (FetchAttByVal(pf, s.bytes + rest, attlen) == datum <==> datum < Pow256(attlen)))
  {
    if SupportedByValLength(pf, attlen) {
      var s := Store(pf.order, datum, attlen);
      assert (s + rest)[..attlen] == s;
      FetchIsLoad(pf, s + rest, attlen);
      LoadStore(pf.order, datum, attlen);
      if datum < Pow256(attlen) {
        QuotientUnique(datum, Pow256(attlen), 0, datum);
      }
    }
  }

  /** Rows of the common types are rows: any 4-byte Datum is an int4, any payload below one
      gigabyte is a text, and any column may be null. */
  lemma CommonTypesAreValid(pf: Platform, datum: nat, payload: seq<Byte>)
    requires pf.sizeofDatum == 4 || pf.sizeofDatum == 8
    requires datum < 0x1_0000_0000 && |payload| + 4 < 0x4000_0000
    ensures var attrs := [Attr(4, true, 'i', 'p'), Attr(-1, false, 'i', 'x')];
            && ValidRow(pf, attrs, [NotNull(ByVal(datum)),
                                    NotNull(ByRef(SetVarSize4B(pf.order, |payload| + 4) + payload))])
            && ValidRow(pf, attrs, [Null, Null])
  {
    hide And, Load, Store, SetVarSize4B;
    assert Pow256(4) == 0x1_0000_0000;
    assert Pow256(8) >= Pow256(4);
    Header4BRoundTrip(pf.order, |payload| + 4, payload);
  }

  // ---------------------------------------------------------------- the writer

  predicate IsPackable(a: Attr) {
    a.attlen == -1 && a.attstorage != 'p'
  }

  predicate Packs(pf: Platform, a: Attr, v: Value)
    requires ValidAttr(pf, a) && ValidValue(pf, a, v)
  {
    IsPackable(a) && !Is1B(pf.order, v.bytes) && CanMakeShort(pf.order, v.bytes)
  }

  /** The bytes that heap_fill_tuple puts into the tuple for a value. */
  function StoredForm(pf: Platform, a: Attr, v: Value): seq<Byte>
    requires ValidAttr(pf, a) && ValidValue(pf, a, v)
  {
    if a.attbyval then Store(pf.order, v.datum, a.attlen)
    else if Packs(pf, a, v) then ConvertToShort(pf.order, v.bytes)
    else v.bytes
  }

  /** Where it puts them, when the columns before end at `off`. */
  function StoredAt(pf: Platform, a: Attr, v: Value, off: nat): (r: nat)
    requires ValidAttr(pf, a) && ValidValue(pf, a, v)
    ensures off <= r
  {
    if a.attlen == -1 && (Is1B(pf.order, v.bytes) || Packs(pf, a, v)) then off
    else if a.attlen == -2 then off
    else AlignNominal(off, a.attalign)
  }

  /** The data area of the first `n` columns, pad bytes zero. */
  function Data(pf: Platform, attrs: seq<Attr>, cols: seq<Column>, n: nat): seq<Byte>
    requires ValidRow(pf, attrs, cols) && n <= |attrs|
  {
    if n == 0 then []
    else
      var d := Data(pf, attrs, cols, n - 1);
      if cols[n - 1].Null? then d
      else
        var a, v := attrs[n - 1], cols[n - 1].value;
        d + Zeros(StoredAt(pf, a, v, |d|) - |d|) + StoredForm(pf, a, v)
  }

  /** Where column `i` of a row starts, and the bytes it takes. */
  function ColumnAt(pf: Platform, attrs: seq<Attr>, cols: seq<Column>, i: nat): nat
    requires ValidRow(pf, attrs, cols) && i < |attrs| && cols[i].NotNull?
  {
    StoredAt(pf, attrs[i], cols[i].value, |Data(pf, attrs, cols, i)|)
  }

  function ColumnForm(pf: Platform, attrs: seq<Attr>, cols: seq<Column>, i: nat): seq<Byte>
    requires ValidRow(pf, attrs, cols) && i < |attrs| && cols[i].NotNull?
  {
    StoredForm(pf, attrs[i], cols[i].value)
  }

  /** What a reader is to find in column `i`: the Datum cut to the attribute's
      width, or the object as it was stored. */
  function StoredValue(pf: Platform, a: Attr, v: Value): Value
    requires ValidAttr(pf, a) && ValidValue(pf, a, v)
  {
    if a.attbyval then ByVal(v.datum % Pow256(a.attlen)) else ByRef(StoredForm(pf, a, v))
  }

  lemma {:induction false} DataGrows(pf: Platform, attrs: seq<Attr>, cols: seq<Column>, i: nat, n: nat)
    requires ValidRow(pf, attrs, cols) && i <= n <= |attrs|
    ensures Data(pf, attrs, cols, i) <= Data(pf, attrs, cols, n)
  {
    if i < n {
      DataGrows(pf, attrs, cols, i, n - 1);
    }
  }

  // ---------------------------------------------------------------- the reader

  /** The length of the object that starts `t`, or None when it would run past the end. */
  function ObjectLength(pf: Platform, a: Attr, t: seq<Byte>): (r: Option<nat>)
    ensures r.Some? ==> r.value <= |t|
  {
    if a.attlen > 0 then
      if a.attlen <= |t| then Some(a.attlen) else None
    else if a.attlen == -1 then
      if HasHeader(pf.order, t) && VarSizeAny(pf.order, t) <= |t| then Some(VarSizeAny(pf.order, t)) else None
    else
      CStringLength(t)
  }

  /** strlen + 1. */
  function CStringLength(t: seq<Byte>): (r: Option<nat>)
    ensures r.Some? ==> r.value <= |t| && IsCString(t[..r.value])
    ensures r.None? ==> forall i :: 0 <= i < |t| ==> t[i] != 0
  {
    if t == [] then None
    else if t[0] == 0 then Some(1)
    else
      match CStringLength(t[1..])
      case None => None
      case Some(n) =>
        assert t[..n + 1] == [t[0]] + t[1..][..n];
        Some(n + 1)
  }

  /** fetchatt at a pointer: the word, or the object behind the pointer. */
  function FetchAtt(pf: Platform, a: Attr, t: seq<Byte>): Value
    requires ValidAttr(pf, a) && ObjectLength(pf, a, t).Some?
  {
    if a.attbyval then
      FetchIsLoad(pf, t, a.attlen);
      ByVal(FetchAttByVal(pf, t, a.attlen))
    else ByRef(t[..ObjectLength(pf, a, t).value])
  }

  /** att_align_pointer: a varlena is aligned only behind a zero byte. */
  function AlignPointer(a: Attr, off: nat, mem: seq<Byte>): (r: Option<nat>)
    ensures r.Some? ==> off <= r.value
  {
    if a.attlen == -1 then
      if off >= |mem| then None
      else if NotPadByte(mem[off..]) then Some(off)
      else Some(AlignNominal(off, a.attalign))
    else Some(AlignNominal(off, a.attalign))
  }

  /** Offset behind the first `i` columns, as found by walking. None: the walk
      left the tuple. */
  function WalkEnd(pf: Platform, attrs: seq<Attr>, nulls: seq<bool>, mem: seq<Byte>, i: nat): (r: Option<nat>)
    requires i <= |attrs| && i <= |nulls|
    ensures r.Some? ==> r.value <= |mem|
    decreases i, 1
  {
    if i == 0 then Some(0)
    else if nulls[i - 1] then WalkEnd(pf, attrs, nulls, mem, i - 1)
    else
      match WalkStart(pf, attrs, nulls, mem, i - 1)
      case None => None
      case Some(s) =>
        match ObjectLength(pf, attrs[i - 1], mem[s..])
        case None => None
        case Some(len) => Some(s + len)
  }

  /** Offset of the non-null column `i`. */
  function WalkStart(pf: Platform, attrs: seq<Attr>, nulls: seq<bool>, mem: seq<Byte>, i: nat): (r: Option<nat>)
    requires i < |attrs| && i <= |nulls|
    ensures r.Some? ==> r.value <= |mem|
    decreases i, 2
  {
    match WalkEnd(pf, attrs, nulls, mem, i)
    case None => None
    case Some(off) =>
      match AlignPointer(attrs[i], off, mem)
      case None => None
      case Some(s) => if s <= |mem| then Some(s) else None
  }

  /** The column a walk reads at index `i`. */
  function WalkColumn(pf: Platform, attrs: seq<Attr>, nulls: seq<bool>, mem: seq<Byte>, i: nat): Option<Column>
    requires i < |attrs| && i < |nulls|
    requires ValidAttr(pf, attrs[i])
  {
    if nulls[i] then Some(Null)
    else
      match WalkStart(pf, attrs, nulls, mem, i)
      case None => None
      case Some(s) =>
        if ObjectLength(pf, attrs[i], mem[s..]).None? then None
        else Some(NotNull(FetchAtt(pf, attrs[i], mem[s..])))
  }

  // ---------------------------------------------------------------- round trip

  predicate NullsOf(cols: seq<Column>, nulls: seq<bool>) {
    |nulls| == |cols| && forall i :: 0 <= i < |cols| ==> nulls[i] == cols[i].Null?
  }

  lemma CStringStops(s: seq<Byte>, rest: seq<Byte>)
    requires IsCString(s)
    ensures CStringLength(s + rest) == Some(|s|)
    decreases |s|
  {
    if |s| > 1 {
      assert (s + rest)[1..] == s[1..] + rest;
      CStringStops(s[1..], rest);
    }
  }

  /** A stored object is read back with its own length, whatever follows it. */
  lemma ReadObject(pf: Platform, a: Attr, v: Value, rest: seq<Byte>)
    requires ValidAttr(pf, a) && ValidValue(pf, a, v)
    ensures var s := StoredForm(pf, a, v);
            && ObjectLength(pf, a, s + rest) == Some(|s|)
            && FetchAtt(pf, a, s + rest) == StoredValue(pf, a, v)
  {
    hide And, Or, Load, Store;
    var s := StoredForm(pf, a, v);
    assert (s + rest)[..|s|] == s;
    if a.attbyval {
      StoreFetchPartialInverse(pf, v.datum, a.attlen, rest);
    } else if a.attlen == -1 {
      if Packs(pf, a, v) {
        ShortConversion(pf.order, v.bytes);
      }
      assert WellFormed(pf.order, s);
      VarSizePrefix(pf.order, s, rest);
    } else if a.attlen == -2 {
      CStringStops(s, rest);
    }
  }

  lemma VarSizePrefix(order: ByteOrder, s: seq<Byte>, rest: seq<Byte>)
    requires WellFormed(order, s)
    ensures HasHeader(order, s + rest) && VarSizeAny(order, s + rest) == |s|
  {
    hide And, Load;
    assert (s + rest)[0] == s[0];
    if Is4B(order, s) {
      assert (s + rest)[..4] == s[..4];
    }
  }

  /** The byte a reader peeks at tells it what the writer did. The hard case is an
      aligned 4-byte header whose own first byte is zero: rounding up is then harmless. */
  lemma PeekFindsStart(pf: Platform, a: Attr, v: Value, off: nat, mem: seq<Byte>)
    requires ValidAttr(pf, a) && ValidValue(pf, a, v)
    requires var at := StoredAt(pf, a, v, off);
             off <= at <= |mem| && StoredForm(pf, a, v) <= mem[at..]
             && forall k :: off <= k < at ==> mem[k] == 0
    ensures AlignPointer(a, off, mem) == Some(StoredAt(pf, a, v, off))
  {
    hide And, Or, Load, Store;
    var s, at := StoredForm(pf, a, v), StoredAt(pf, a, v, off);
    if a.attlen == -1 {
      if Packs(pf, a, v) {
        ShortConversion(pf.order, v.bytes);
      }
      assert |s| > 0 && mem[at] == s[0];
      ClassesPartition(pf.order, s);
    }
  }

  /** The bytes of column `i` inside the whole data area. */
  lemma ColumnBytes(pf: Platform, attrs: seq<Attr>, cols: seq<Column>, rest: seq<Byte>, i: nat)
    requires ValidRow(pf, attrs, cols) && i < |attrs| && cols[i].NotNull?
    ensures var mem, d := Data(pf, attrs, cols, |attrs|) + rest, Data(pf, attrs, cols, i);
            var at, s := ColumnAt(pf, attrs, cols, i), ColumnForm(pf, attrs, cols, i);
            && |d| <= at && at + |s| <= |mem|
            && s <= mem[at..]
            && (forall k :: |d| <= k < at ==> mem[k] == 0)
  {
    hide ColumnAt, ColumnForm, ValidRow, Data;
    DataGrows(pf, attrs, cols, i + 1, |attrs|);
    DataStep(pf, attrs, cols, i);
    var mem, d, d' := Data(pf, attrs, cols, |attrs|) + rest, Data(pf, attrs, cols, i), Data(pf, attrs, cols, i + 1);
    var at, s := ColumnAt(pf, attrs, cols, i), ColumnForm(pf, attrs, cols, i);
    assert mem == d' + mem[|d'|..];
    PaddedShape(d, at - |d|, s, mem[|d'|..]);
  }

  lemma DataStep(pf: Platform, attrs: seq<Attr>, cols: seq<Column>, i: nat)
    requires ValidRow(pf, attrs, cols) && i < |attrs| && cols[i].NotNull?
    ensures var d := Data(pf, attrs, cols, i);
            && |d| <= ColumnAt(pf, attrs, cols, i)
            && Data(pf, attrs, cols, i + 1)
               == d + Zeros(ColumnAt(pf, attrs, cols, i) - |d|) + ColumnForm(pf, attrs, cols, i)
  {
  }

  lemma PaddedShape(d: seq<Byte>, gap: nat, s: seq<Byte>, tail: seq<Byte>)
    ensures var mem := d + Zeros(gap) + s + tail;
            && mem[|d| + gap..] == s + tail
            && s <= s + tail
            && forall k :: |d| <= k < |d| + gap ==> mem[k] == 0
  {
  }

  lemma StoredAtBase(pf: Platform, a: Attr, v: Value, off: nat, base: nat)
    requires ValidAttr(pf, a) && ValidValue(pf, a, v) && base % 8 == 0
    ensures StoredAt(pf, a, v, base + off) == base + StoredAt(pf, a, v, off)
  {
    AlignNominalLaws(off, a.attalign, base);
  }

  /** One stored value, spelled out: how long it is, where it starts behind `off`, and
      what its bytes are. */
  lemma PlacedForm(pf: Platform, a: Attr, v: Value, off: nat)
    requires ValidAttr(pf, a) && ValidValue(pf, a, v)
    ensures var big := pf.order.BigEndian?;
            var oneByte := a.attlen == -1 && if big then v.bytes[0] >= 0x80 else v.bytes[0] % 2 == 1;
            var shorten := a.attlen == -1 && a.attstorage != 'p' && |v.bytes| - 3 <= 0x7F
                           && if big then v.bytes[0] < 0x40 else v.bytes[0] % 4 == 0;
            var s, at := StoredForm(pf, a, v), StoredAt(pf, a, v, off);
            && |s| == (if a.attlen > 0 then a.attlen else if shorten then |v.bytes| - 3 else |v.bytes|) > 0
            && (if oneByte || shorten || a.attalign == 'c' then at == off
                else if a.attalign == 'i' then at % 4 == 0 && off <= at < off + 4
                else if a.attalign == 'd' then at % 8 == 0 && off <= at < off + 8
                else at % 2 == 0 && off <= at < off + 2)
            && (if a.attbyval then Load(pf.order, s) == v.datum % Pow256(a.attlen)
                else if shorten then s[0] == (if big then 0x80 + |s| else 2 * |s| + 1) && s[1..] == v.bytes[4..]
                else s == v.bytes)
  {
    hide And, Or, Load, Store, Pow256;
    AlignNominalIsLeast(off, a.attalign);
    if a.attbyval {
      LoadStore(pf.order, v.datum, a.attlen);
    } else if a.attlen == -1 {
      ClassesPartition(pf.order, v.bytes);
      if Packs(pf, a, v) {
        ShortHeaderByte(pf.order, v.bytes);
      }
    }
  }

  lemma ShortHeaderByte(order: ByteOrder, p: seq<Byte>)
    requires WellFormed(order, p) && CanMakeShort(order, p)
    ensures var s := ConvertToShort(order, p);
            && |s| == |p| - 3 > 0 && s[1..] == p[4..]
            && s[0] == if order.BigEndian? then 0x80 + |s| else 2 * |s| + 1
  {
    hide And, Or, Load;
    ShortConversion(order, p);
  }

  /** The bytes of a column in memory that holds a data area at `base`, spelled out. They
      follow the bytes of the columns before; a null column has none. A varlena with a 1-byte
      header is not aligned, and neither is one that is given such a header here, which
      happens exactly when its own is a plain 4-byte one, it is short enough, and its storage
      is not plain. Every other value starts at the least offset with its alignment, behind
      zeros. */
  lemma ColumnPlacement(pf: Platform, attrs: seq<Attr>, cols: seq<Column>, i: nat, mem: seq<Byte>, base: nat)
    requires ValidRow(pf, attrs, cols) && i < |attrs| && base % 8 == 0
    requires var d := Data(pf, attrs, cols, |attrs|); base + |d| <= |mem| && mem[base..base + |d|] == d
    ensures |Data(pf, attrs, cols, 0)| == 0
    ensures |Data(pf, attrs, cols, i)| <= |Data(pf, attrs, cols, i + 1)| <= |Data(pf, attrs, cols, |attrs|)|
    ensures cols[i].Null? ==> |Data(pf, attrs, cols, i + 1)| == |Data(pf, attrs, cols, i)|
    ensures cols[i].NotNull? ==>
              var a, v, big := attrs[i], cols[i].value, pf.order.BigEndian?;
              var oneByte := a.attlen == -1 && if big then v.bytes[0] >= 0x80 else v.bytes[0] % 2 == 1;
              var shorten := a.attlen == -1 && a.attstorage != 'p' && |v.bytes| - 3 <= 0x7F
                             && if big then v.bytes[0] < 0x40 else v.bytes[0] % 4 == 0;
              var size := if a.attlen > 0 then a.attlen else if shorten then |v.bytes| - 3 else |v.bytes|;
              var lo, hi := base + |Data(pf, attrs, cols, i)|, base + |Data(pf, attrs, cols, i + 1)|;
              var at := hi - size;
              && lo <= at < hi <= |mem|
              && (forall k :: lo <= k < at ==> mem[k] == 0)
              && (if oneByte || shorten || a.attalign == 'c' then at == lo
                  else if a.attalign == 'i' then at % 4 == 0 && at < lo + 4
                  else if a.attalign == 'd' then at % 8 == 0 && at < lo + 8
                  else at % 2 == 0 && at < lo + 2)
              && (if a.attbyval then Load(pf.order, mem[at..hi]) == v.datum % Pow256(a.attlen)
                  else if shorten then
                    mem[at] == (if big then 0x80 + size else 2 * size + 1) && mem[at + 1..hi] == v.bytes[4..]
                  else mem[at..hi] == v.bytes)
  {
    hide Data, StoredForm, StoredAt, ColumnAt, ColumnForm, Load, Pow256, And, Or, VarSizeAny;
    DataEnds(pf, attrs, cols, i);
    if cols[i].NotNull? {
      ColumnSlice(pf, attrs, cols, i, mem, base);
      PlacedForm(pf, attrs[i], cols[i].value, base + |Data(pf, attrs, cols, i)|);
    }
  }

  lemma ColumnSlice(pf: Platform, attrs: seq<Attr>, cols: seq<Column>, i: nat, mem: seq<Byte>, base: nat)
    requires ValidRow(pf, attrs, cols) && i < |attrs| && cols[i].NotNull? && base % 8 == 0
    requires var d := Data(pf, attrs, cols, |attrs|); base + |d| <= |mem| && mem[base..base + |d|] == d
    ensures var s, off := StoredForm(pf, attrs[i], cols[i].value), |Data(pf, attrs, cols, i)|;
            var hi := base + |Data(pf, attrs, cols, i + 1)|;
            var at := hi - |s|;
            && at == StoredAt(pf, attrs[i], cols[i].value, base + off) && base + off <= at && hi <= |mem|
            && mem[at..hi] == s && (forall k :: base + off <= k < at ==> mem[k] == 0)
            && (|s| > 0 ==> mem[at] == s[0] && mem[at + 1..hi] == s[1..])
  {
    hide ValidAttr, ValidValue, Data, StoredForm, StoredAt;
    DataGrows(pf, attrs, cols, i + 1, |attrs|);
    StoredAtBase(pf, attrs[i], cols[i].value, |Data(pf, attrs, cols, i)|, base);
    ColumnBytes(pf, attrs, cols, [], i);
    DataStep(pf, attrs, cols, i);
    var d := Data(pf, attrs, cols, |attrs|);
    assert d + [] == d;
    var at, s := ColumnAt(pf, attrs, cols, i), ColumnForm(pf, attrs, cols, i);
    assert d[at..at + |s|] == s;
    SliceInMemory(mem, base, d, at, s);
    assert forall k :: base + |Data(pf, attrs, cols, i)| <= k < base + at ==> mem[k] == d[k - base];
  }

  lemma SliceInMemory(mem: seq<Byte>, base: nat, d: seq<Byte>, at: nat, s: seq<Byte>)
    requires base + |d| <= |mem| && mem[base..base + |d|] == d
    requires at + |s| <= |d| && d[at..at + |s|] == s
    ensures forall k :: base <= k < base + |d| ==> mem[k] == d[k - base]
    ensures mem[base + at..base + at + |s|] == s
    ensures |s| > 0 ==> mem[base + at] == s[0] && mem[base + at + 1..base + at + |s|] == s[1..]
  {
    forall k | base <= k < base + |d| ensures mem[k] == d[k - base] {
      assert mem[k] == mem[base..base + |d|][k - base];
    }
    forall k | 0 <= k < |s| ensures mem[base + at + k] == s[k] {
      assert s[k] == d[at..at + |s|][k] == d[at + k];
    }
  }

  lemma DataEnds(pf: Platform, attrs: seq<Attr>, cols: seq<Column>, i: nat)
    requires ValidRow(pf, attrs, cols) && i < |attrs|
    ensures Data(pf, attrs, cols, 0) == []
    ensures |Data(pf, attrs, cols, i)| <= |Data(pf, attrs, cols, i + 1)| <= |Data(pf, attrs, cols, |attrs|)|
    ensures cols[i].Null? ==> Data(pf, attrs, cols, i + 1) == Data(pf, attrs, cols, i)
  {
    DataGrows(pf, attrs, cols, i, i + 1);
    DataGrows(pf, attrs, cols, i + 1, |attrs|);
  }

  /** One reader step over column `i`, from where the writer's columns before it end. */
  lemma ReadColumn(pf: Platform, attrs: seq<Attr>, cols: seq<Column>, rest: seq<Byte>, i: nat)
    requires ValidRow(pf, attrs, cols) && i < |attrs| && cols[i].NotNull?
    ensures var mem, d := Data(pf, attrs, cols, |attrs|) + rest, Data(pf, attrs, cols, i);
            var a, v := attrs[i], cols[i].value;
            var at := StoredAt(pf, a, v, |d|);
            && AlignPointer(a, |d|, mem) == Some(at) && at <= |mem|
            && ObjectLength(pf, a, mem[at..]) == Some(|StoredForm(pf, a, v)|)
            && FetchAtt(pf, a, mem[at..]) == StoredValue(pf, a, v)
            && |Data(pf, attrs, cols, i + 1)| == at + |StoredForm(pf, a, v)|
  {
    hide And, Or, Load, Store, ObjectLength, FetchAtt, AlignPointer;
    var mem, d := Data(pf, attrs, cols, |attrs|) + rest, Data(pf, attrs, cols, i);
    ColumnBytes(pf, attrs, cols, rest, i);
    PeekFindsStart(pf, attrs[i], cols[i].value, |d|, mem);
    var at, s := StoredAt(pf, attrs[i], cols[i].value, |d|), StoredForm(pf, attrs[i], cols[i].value);
    assert mem[at..] == s + mem[at..][|s|..];
    ReadObject(pf, attrs[i], cols[i].value, mem[at..][|s|..]);
  }

  /** Walking over a row that was laid out visits the writer's offsets. */
  lemma {:induction false} WalkVisitsWriterOffsets(pf: Platform, attrs: seq<Attr>, cols: seq<Column>, nulls: seq<bool>,
                                                   rest: seq<Byte>, i: nat)
    requires ValidRow(pf, attrs, cols) && NullsOf(cols, nulls) && i <= |attrs|
    ensures WalkEnd(pf, attrs, nulls, Data(pf, attrs, cols, |attrs|) + rest, i) == Some(|Data(pf, attrs, cols, i)|)
  {
    hide ObjectLength, AlignPointer, StoredForm, StoredAt, ValidAttr, ValidValue;
    if i > 0 {
      WalkVisitsWriterOffsets(pf, attrs, cols, nulls, rest, i - 1);
      if cols[i - 1].NotNull? {
        ReadColumn(pf, attrs, cols, rest, i - 1);
      }
    }
  }

  /** Every column of a laid-out row is read back, at the writer's offset, with the
      stored value and the null flag it was given. */
  lemma TupleRoundTrip(pf: Platform, attrs: seq<Attr>, cols: seq<Column>, nulls: seq<bool>, rest: seq<Byte>, i: nat)
    requires ValidRow(pf, attrs, cols) && NullsOf(cols, nulls) && i < |attrs|
    ensures var mem := Data(pf, attrs, cols, |attrs|) + rest;
            && WalkColumn(pf, attrs, nulls, mem, i)
               == Some(if cols[i].Null? then Null else NotNull(StoredValue(pf, attrs[i], cols[i].value)))
            && (cols[i].NotNull? ==>
                 WalkStart(pf, attrs, nulls, mem, i)
                 == Some(StoredAt(pf, attrs[i], cols[i].value, |Data(pf, attrs, cols, i)|)))
  {
    hide ObjectLength, AlignPointer, StoredForm, StoredAt;
    WalkVisitsWriterOffsets(pf, attrs, cols, nulls, rest, i);
    if cols[i].NotNull? {
      ReadColumn(pf, attrs, cols, rest, i);
    }
  }

  /** The stored value stands for the one given: the same Datum when that fits the
      attribute, otherwise for a packed varlena the same payload. */
  lemma StoredValueMeaning(pf: Platform, a: Attr, v: Value)
    requires ValidAttr(pf, a) && ValidValue(pf, a, v)
    ensures var w := StoredValue(pf, a, v);
            if a.attbyval then w == v <==> v.datum < Pow256(a.attlen)
            else if Packs(pf, a, v) then
              && WellFormed(pf.order, w.bytes)
              && VarDataAny(pf.order, w.bytes) == VarDataAny(pf.order, v.bytes)
              && ConvertToLong(pf.order, w.bytes) == v.bytes
            else w == v
  {
    if a.attbyval {
      if v.datum < Pow256(a.attlen) {
        QuotientUnique(v.datum, Pow256(a.attlen), 0, v.datum);
      }
    } else if Packs(pf, a, v) {
      ShortConversion(pf.order, v.bytes);
    }
  }

  /** The row that a reader of `cols` gets. */
  function ReadsAs(pf: Platform, a: Attr, c: Column): Column
    requires ValidAttr(pf, a) && (c.NotNull? ==> ValidValue(pf, a, c.value))
  {
    if c.Null? then Null else NotNull(StoredValue(pf, a, c.value))
  }

  function RowReadsAs(pf: Platform, attrs: seq<Attr>, cols: seq<Column>): (r: seq<Column>)
    requires ValidRow(pf, attrs, cols)
    ensures |r| == |cols|
  {
    seq(|cols|, i requires 0 <= i < |cols| => ReadsAs(pf, attrs[i], cols[i]))
  }

  lemma StoredFormStable(pf: Platform, a: Attr, v: Value, off: nat)
    requires ValidAttr(pf, a) && ValidValue(pf, a, v)
    requires a.attbyval ==> a.attlen <= pf.sizeofDatum
    ensures var w := StoredValue(pf, a, v);
            && ValidValue(pf, a, w)
            && StoredForm(pf, a, w) == StoredForm(pf, a, v)
            && StoredAt(pf, a, w, off) == StoredAt(pf, a, v, off)
  {
    hide And, Or, Load, Store, Pow256;
    if a.attbyval {
      LoadStore(pf.order, v.datum, a.attlen);
      StoreLoad(pf.order, Store(pf.order, v.datum, a.attlen));
      Pow256Monotonic(a.attlen, pf.sizeofDatum);
    } else if Packs(pf, a, v) {
      ShortConversion(pf.order, v.bytes);
    }
  }

  lemma {:induction false} Pow256Monotonic(i: nat, k: nat)
    requires i <= k
    ensures Pow256(i) <= Pow256(k)
  {
    if i < k { Pow256Monotonic(i, k - 1); }
  }

  /** Forming a tuple again from the columns read out of it gives the same bytes. */
  lemma {:induction false} RefillIsIdentical(pf: Platform, attrs: seq<Attr>, cols: seq<Column>, n: nat)
    requires ValidRow(pf, attrs, cols) && n <= |attrs|
    requires pf.sizeofDatum == 4 || pf.sizeofDatum == 8
    ensures ValidRow(pf, attrs, RowReadsAs(pf, attrs, cols))
    ensures Data(pf, attrs, RowReadsAs(pf, attrs, cols), n) == Data(pf, attrs, cols, n)
  {
    hide StoredForm, StoredAt, StoredValue;
    forall i | 0 <= i < |attrs| && cols[i].NotNull?
      ensures ValidValue(pf, attrs[i], StoredValue(pf, attrs[i], cols[i].value))
    {
      StoredFormStable(pf, attrs[i], cols[i].value, 0);
    }
    if n > 0 {
      RefillIsIdentical(pf, attrs, cols, n - 1);
      if cols[n - 1].NotNull? {
        StoredFormStable(pf, attrs[n - 1], cols[n - 1].value, |Data(pf, attrs, cols, n - 1)|);
      }
    }
  }

  /** The zeroed pad is needed, though only its first byte is looked at: the reader finds
      a varlena where the writer has put it exactly when there is no pad, or its first
      byte is zero. */
  lemma PadMustBeZero(pf: Platform, a: Attr, v: Value, off: nat, mem: seq<Byte>)
    requires ValidAttr(pf, a) && ValidValue(pf, a, v) && a.attlen == -1
    requires var at := StoredAt(pf, a, v, off); off <= at <= |mem| && StoredForm(pf, a, v) <= mem[at..]
    ensures var at := StoredAt(pf, a, v, off); AlignPointer(a, off, mem) == Some(at) <==> at == off || mem[off] == 0
  {
    hide And, Or, Load, Store;
    var s, at := StoredForm(pf, a, v), StoredAt(pf, a, v, off);
    if Packs(pf, a, v) {
      ShortConversion(pf.order, v.bytes);
    }
    assert |s| > 0 && mem[at] == s[0];
    ClassesPartition(pf.order, s);
  }
}
