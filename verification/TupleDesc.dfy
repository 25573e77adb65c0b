/** Reading columns back (heaptuple.c, indextuple.c, htup.h, itup.h). The tuple
    descriptor remembers the offsets of leading columns in `attcacheoff`; every
    reader may use the cache and may extend it. */
module TupleDesc {
  import opened Bytes
  import opened Alignment
  import opened TupleLayout
  import opened TupleForm
  import opened Wrappers
  import opened HeapTuple
  import Bits

  /** What the readers look at in a heap or an index tuple. */
  datatype View = View(data: seq<Byte>, hasNulls: bool, bits: seq<Byte>, hasVarWidth: bool)

  predicate HasBitmap(v: View, n: nat) {
    v.hasNulls ==> BitmapLen(n) <= |v.bits|
  }

  predicate NullAt(v: View, i: nat)
    requires HasBitmap(v, i + 1)
  {
    v.hasNulls && AttIsNull(i, v.bits)
  }

  function NullFlags(v: View, n: nat): (flags: seq<bool>)
    requires HasBitmap(v, n)
    ensures |flags| == n && forall i: nat | i < n :: flags[i] == NullAt(v, i)
  {
    seq(n, (i: nat) requires i < n => NullAt(v, i))
  }

  /** A tuple whose first `n` columns can be walked without leaving it, and whose
      variable-width flag tells the truth. */
  ghost predicate Readable(pf: Platform, attrs: seq<Attr>, v: View, n: nat) {
    && n <= |attrs|
    && (forall i :: 0 <= i < |attrs| ==> ValidAttr(pf, attrs[i]))
    && HasBitmap(v, n)
    && WalkEnd(pf, attrs, NullFlags(v, n), v.data, n).Some?
    && (!v.hasVarWidth ==> forall i :: 0 <= i < n && !NullFlags(v, n)[i] ==> attrs[i].attlen > 0)
  }

  /** The column at index `i` of a readable tuple: the plain walk, without any cache. */
  ghost function ColumnOf(pf: Platform, attrs: seq<Attr>, v: View, n: nat, i: nat): Column
    requires Readable(pf, attrs, v, n) && i < n
  {
    WalkReaches(pf, attrs, NullFlags(v, n), v.data, n, i);
    WalkColumn(pf, attrs, NullFlags(v, n), v.data, i).value
  }

  lemma {:induction false} WalkReaches(pf: Platform, attrs: seq<Attr>, nulls: seq<bool>, mem: seq<Byte>, n: nat, i: nat)
    requires i < n <= |attrs| && n <= |nulls| && WalkEnd(pf, attrs, nulls, mem, n).Some?
    ensures WalkEnd(pf, attrs, nulls, mem, i).Some?
    ensures !nulls[i] ==> var s := WalkStart(pf, attrs, nulls, mem, i);
                          s.Some? && ObjectLength(pf, attrs[i], mem[s.value..]).Some?
  {
    if i < n - 1 {
      WalkReaches(pf, attrs, nulls, mem, n - 1, i);
    }
  }

  // ---------------------------------------------------------------- heap tuples

  datatype Attribute = User(column: Column) | System(attnum: int)

  predicate HasParts(tup: Tuple) {
    OFFSETOF_T_BITS <= |tup.image| && tup.t_hoff <= |tup.image|
  }

  function HeapView(tup: Tuple): View
    requires HasParts(tup)
  {
    View(tup.image[tup.t_hoff..], HasFlag(tup.t_infomask, HEAP_HASNULL), tup.image[OFFSETOF_T_BITS..],
         HasFlag(tup.t_infomask, HEAP_HASVARWIDTH))
  }

  /** How many of the descriptor's columns the tuple has. */
  function StoredColumns(attrs: seq<Attr>, tup: Tuple): nat {
    var natts := GetNatts(tup.t_infomask2);
    if natts < |attrs| then natts else |attrs|
  }

  /** Column number `attnum` of a heap tuple, by the plain walk. */
  ghost function HeapColumn(pf: Platform, attrs: seq<Attr>, tup: Tuple, attnum: nat): Column
    requires HasParts(tup) && Readable(pf, attrs, HeapView(tup), StoredColumns(attrs, tup))
    requires 0 < attnum
  {
    if attnum > StoredColumns(attrs, tup) then Null
    else ColumnOf(pf, attrs, HeapView(tup), StoredColumns(attrs, tup), attnum - 1)
  }

  /** A data area with its bitmap and flags, as every reader sees it. */
  lemma FormedViewReads(pf: Platform, attrs: seq<Attr>, cols: seq<Column>, v: View, rest: seq<Byte>)
    requires ValidRow(pf, attrs, cols)
    requires v.data == Data(pf, attrs, cols, |attrs|) + rest
    requires v.hasNulls <==> AnyNull(cols)
    requires v.hasNulls ==> BitmapLen(|attrs|) <= |v.bits| && v.bits[..BitmapLen(|attrs|)] == NullBits(cols)
    requires v.hasVarWidth <==> exists i :: 0 <= i < |attrs| && cols[i].NotNull? && attrs[i].attlen < 0
    ensures Readable(pf, attrs, v, |attrs|)
    ensures forall i :: 0 <= i < |attrs| ==>
              ColumnOf(pf, attrs, v, |attrs|, i) == ReadsAs(pf, attrs[i], cols[i])
  {
    hide AttIsNull, IsBitmap, StoredValue, ObjectLength, AlignPointer, Data;
    var flags := NullFlags(v, |attrs|);
    NullBitsIsBitmap(cols);
    forall i | 0 <= i < |attrs| ensures flags[i] == cols[i].Null? {
      if v.hasNulls {
        BitmapReads(NullBits(cols), cols, i);
        SameBit(v.bits, NullBits(cols), i);
      }
    }
    WalkVisitsWriterOffsets(pf, attrs, cols, flags, rest, |attrs|);
    forall i | 0 <= i < |attrs|
      ensures ColumnOf(pf, attrs, v, |attrs|, i) == ReadsAs(pf, attrs[i], cols[i])
    {
      TupleRoundTrip(pf, attrs, cols, flags, rest, i);
    }
  }

  lemma SameBit(bits: seq<Byte>, prefix: seq<Byte>, i: nat)
    requires prefix <= bits && i / 8 < |prefix|
    ensures AttIsNull(i, bits) <==> AttIsNull(i, prefix)
  {
  }

  /** A walk over the first columns does not depend on the columns behind them. */
  lemma {:induction false} WalkPrefix(pf: Platform, attrs: seq<Attr>, n: nat, nulls: seq<bool>, mem: seq<Byte>, i: nat)
    requires i <= n <= |attrs| && i <= |nulls|
    ensures WalkEnd(pf, attrs[..n], nulls, mem, i) == WalkEnd(pf, attrs, nulls, mem, i)
    ensures i < n ==> WalkStart(pf, attrs[..n], nulls, mem, i) == WalkStart(pf, attrs, nulls, mem, i)
  {
    hide ObjectLength, AlignPointer;
    if i > 0 {
      WalkPrefix(pf, attrs, n, nulls, mem, i - 1);
    }
  }

  /** heap_getattr and heap_deform_tuple read back what heap_form_tuple was given, also with
      a descriptor that has got more columns since: every column of every row, null or not,
      and null beyond the last column of the row. */
  lemma HeapTupleRoundTrip(pf: Platform, attrs: seq<Attr>, n: nat, hasoid: bool, cols: seq<Column>, tup: Tuple)
    requires n <= |attrs| && IsFormed(pf, attrs[..n], hasoid, cols, tup)
    requires forall i :: 0 <= i < |attrs| ==> ValidAttr(pf, attrs[i])
    ensures HasParts(tup) && GetNatts(tup.t_infomask2) == StoredColumns(attrs, tup) == n == |cols|
    ensures Readable(pf, attrs, HeapView(tup), n)
    ensures forall i :: 0 <= i < n ==>
              && (cols[i].NotNull? ==> ValidValue(pf, attrs[i], cols[i].value))
              && ColumnOf(pf, attrs, HeapView(tup), n, i) == ReadsAs(pf, attrs[i], cols[i])
    ensures forall attnum :: 0 < attnum <= n ==>
              HeapColumn(pf, attrs, tup, attnum) == ReadsAs(pf, attrs[attnum - 1], cols[attnum - 1])
    ensures forall attnum: nat :: attnum > n ==> HeapColumn(pf, attrs, tup, attnum) == Null
  {
    hide Data, AnyNull, Bits.And, Bits.Or, SetNatts, GetNatts, NullBits, MaskFor, ValidAttr, ValidValue;
    hide WalkEnd, WalkStart, NullAt;
    var v := HeapView(tup);
    FormedParts(pf, attrs[..n], hasoid, cols, tup);
    FormedViewReads(pf, attrs[..n], cols, v, []);
    WalkPrefix(pf, attrs, n, NullFlags(v, n), v.data, n);
    forall i | 0 <= i < n
      ensures ColumnOf(pf, attrs, v, n, i) == ReadsAs(pf, attrs[i], cols[i])
    {
      WalkPrefix(pf, attrs, n, NullFlags(v, n), v.data, i);
      assert ColumnOf(pf, attrs[..n], v, n, i) == ReadsAs(pf, attrs[..n][i], cols[i]);
    }
  }

  lemma FormedRowsRead(pf: Platform, attrs: seq<Attr>, tup: Tuple)
    requires forall i :: 0 <= i < |attrs| ==> ValidAttr(pf, attrs[i])
    ensures forall n: nat, hasoid, row: seq<Column> | n <= |attrs| && IsFormed(pf, attrs[..n], hasoid, row, tup) ::
              && HasParts(tup) && GetNatts(tup.t_infomask2) == StoredColumns(attrs, tup) == n == |row|
              && Readable(pf, attrs, HeapView(tup), n)
              && (forall i | 0 <= i < n ::
                    && (row[i].NotNull? ==> ValidValue(pf, attrs[i], row[i].value))
                    && ColumnOf(pf, attrs, HeapView(tup), n, i) == ReadsAs(pf, attrs[i], row[i]))
  {
    hide IsFormed;
    forall n: nat, hasoid, row: seq<Column> | n <= |attrs| && IsFormed(pf, attrs[..n], hasoid, row, tup) {
      HeapTupleRoundTrip(pf, attrs, n, hasoid, row, tup);
    }
  }

  lemma FormedParts(pf: Platform, attrs: seq<Attr>, hasoid: bool, cols: seq<Column>, tup: Tuple)
    requires IsFormed(pf, attrs, hasoid, cols, tup)
    ensures HasParts(tup) && GetNatts(tup.t_infomask2) == |attrs|
    ensures var v := HeapView(tup);
            && v.data == Data(pf, attrs, cols, |attrs|) + []
            && (v.hasNulls <==> AnyNull(cols))
            && (v.hasNulls ==> BitmapLen(|attrs|) <= |v.bits| && v.bits[..BitmapLen(|attrs|)] == NullBits(cols))
            && (v.hasVarWidth <==> exists i :: 0 <= i < |attrs| && cols[i].NotNull? && attrs[i].attlen < 0)
  {
    hide Data, Bits.And, Bits.Or, TypeAlign, NullBits, MaskFor, HasFlag, GetNatts, SetNatts, ValidAttr, ValidValue;
    NattsRoundTrip(0, |attrs|, 0);
    FlagIsBit(tup.t_infomask);
    MaskMeaning(pf, attrs, cols, |attrs|, if hasoid then HEAP_HASOID else 0, 0);
    MaskMeaning(pf, attrs, cols, |attrs|, if hasoid then HEAP_HASOID else 0, 1);
    if AnyNull(cols) {
      assert tup.image[OFFSETOF_T_BITS..][..BitmapLen(|attrs|)]
          == tup.image[OFFSETOF_T_BITS..OFFSETOF_T_BITS + BitmapLen(|attrs|)];
    }
  }

  lemma WalkFromStart(pf: Platform, attrs: seq<Attr>, nulls: seq<bool>, mem: seq<Byte>)
    ensures WalkEnd(pf, attrs, nulls, mem, 0) == Some(0)
  {
  }

  lemma WalkAdvances(pf: Platform, attrs: seq<Attr>, nulls: seq<bool>, mem: seq<Byte>, i: nat)
    requires i < |attrs| && i < |nulls|
    ensures nulls[i] ==> WalkEnd(pf, attrs, nulls, mem, i + 1) == WalkEnd(pf, attrs, nulls, mem, i)
    ensures !nulls[i] ==>
              var s := WalkStart(pf, attrs, nulls, mem, i);
              s.Some? && ObjectLength(pf, attrs[i], mem[s.value..]).Some? ==>
                WalkEnd(pf, attrs, nulls, mem, i + 1)
                  == Some(s.value + ObjectLength(pf, attrs[i], mem[s.value..]).value)
  {
    hide ObjectLength, AlignPointer;
  }

  /** A column starts where att_align_pointer gets to from the end of the columns before. */
  lemma StartFromEnd(pf: Platform, attrs: seq<Attr>, nulls: seq<bool>, mem: seq<Byte>, i: nat)
    requires i < |attrs| && i < |nulls| && WalkStart(pf, attrs, nulls, mem, i).Some?
    ensures var end := WalkEnd(pf, attrs, nulls, mem, i);
            && end.Some? && AlignPointer(attrs[i], end.value, mem) == WalkStart(pf, attrs, nulls, mem, i)
            && (attrs[i].attlen != -1 ==>
                  WalkStart(pf, attrs, nulls, mem, i) == Some(AlignNominal(end.value, attrs[i].attalign)))
  {
    hide AlignNominal;
  }

  // ---------------------------------------------------------------- cached offsets

  /** Offsets of columns that only fixed-width columns precede, all present. */
  function NominalEnd(attrs: seq<Attr>, j: nat): nat
    requires j <= |attrs|
    decreases j, 0
  {
    if j == 0 then 0
    else NominalStart(attrs, j - 1) + (if attrs[j - 1].attlen > 0 then attrs[j - 1].attlen else 0)
  }

  function NominalStart(attrs: seq<Attr>, j: nat): nat
    requires j < |attrs|
    decreases j, 1
  {
    AlignNominal(NominalEnd(attrs, j), attrs[j].attalign)
  }

  predicate FixedBefore(attrs: seq<Attr>, j: nat)
    requires j <= |attrs|
  {
    forall i :: 0 <= i < j ==> attrs[i].attlen > 0
  }

  /** When the offset of column `j` is the same in every tuple without a null before
      it: behind fixed-width columns only, and a varlena only where it is aligned anyway. */
  predicate Cacheable(attrs: seq<Attr>, j: nat)
    requires j < |attrs|
  {
    FixedBefore(attrs, j) && (attrs[j].attlen == -1 ==> NominalStart(attrs, j) == NominalEnd(attrs, j))
  }

  ghost predicate CacheValid(attrs: seq<Attr>, cache: seq<int>) {
    && |cache| == |attrs|
    && forall j :: 0 <= j < |attrs| && cache[j] >= 0 ==>
         Cacheable(attrs, j) && cache[j] == NominalStart(attrs, j) && (j > 0 ==> cache[j - 1] >= 0)
  }

  ghost predicate NoNullBefore(nulls: seq<bool>, j: nat)
    requires j <= |nulls|
  {
    forall i :: 0 <= i < j ==> !nulls[i]
  }

  lemma {:induction false} FixedWalk(pf: Platform, attrs: seq<Attr>, nulls: seq<bool>, mem: seq<Byte>, j: nat)
    requires j <= |attrs| && j <= |nulls| && FixedBefore(attrs, j) && NoNullBefore(nulls, j)
    requires WalkEnd(pf, attrs, nulls, mem, j).Some?
    ensures WalkEnd(pf, attrs, nulls, mem, j) == Some(NominalEnd(attrs, j))
  {
    hide AlignNominal;
    if j > 0 {
      WalkReaches(pf, attrs, nulls, mem, j, j - 1);
      FixedWalk(pf, attrs, nulls, mem, j - 1);
    }
  }

  /** The cached offset is where the walk arrives. */
  lemma CachedOffsetAgrees(pf: Platform, attrs: seq<Attr>, nulls: seq<bool>, mem: seq<Byte>, j: nat)
    requires j < |attrs| && j < |nulls| && NoNullBefore(nulls, j + 1) && Cacheable(attrs, j)
    requires WalkStart(pf, attrs, nulls, mem, j).Some?
    ensures WalkStart(pf, attrs, nulls, mem, j) == Some(NominalStart(attrs, j))
  {
    FixedWalk(pf, attrs, nulls, mem, j);
    AlignNominalLaws(NominalEnd(attrs, j), attrs[j].attalign, 0);
  }

  // ---------------------------------------------------------------- the descriptor

  class Descriptor {
    const pf: Platform
    const attrs: seq<Attr>
    var attcacheoff: array<int>

    ghost predicate Valid()
      reads this, attcacheoff
    {
      && (forall i :: 0 <= i < |attrs| ==> ValidAttr(pf, attrs[i]))
      && attcacheoff.Length == |attrs|
      && CacheValid(attrs, attcacheoff[..])
    }

    constructor (pf: Platform, attrs: seq<Attr>)
      requires forall i :: 0 <= i < |attrs| ==> ValidAttr(pf, attrs[i])
      ensures Valid() && this.pf == pf && this.attrs == attrs && fresh(attcacheoff)
    {
      this.pf := pf;
      this.attrs := attrs;
      attcacheoff := new int[|attrs|](_ => -1);
    }

    /** heap_deform_tuple: all columns at once; those the tuple does not have are null. */
    method Deform(tup: Tuple) returns (cols: seq<Column>)
      requires Valid() && HasParts(tup) && Readable(pf, attrs, HeapView(tup), StoredColumns(attrs, tup))
      modifies attcacheoff
      ensures Valid()
      ensures var n := StoredColumns(attrs, tup);
              |cols| == |attrs|
              && forall i :: 0 <= i < |attrs| ==>
                   cols[i] == if i < n then ColumnOf(pf, attrs, HeapView(tup), n, i) else Null
      ensures forall n: nat, hasoid, row: seq<Column> | n <= |attrs| && IsFormed(pf, attrs[..n], hasoid, row, tup) ::
                forall i | 0 <= i < |attrs| ::
                  cols[i] == if i < n then ReadsAs(pf, attrs[i], row[i]) else Null
    {
      hide IsFormed, Bits.And, Readable, ColumnOf;
      var natts := GetNatts(tup.t_infomask2);
      var n := if natts < |attrs| then natts else |attrs|;
      cols := DeformStored(HeapView(tup), n);
      cols := cols + seq(|attrs| - n, _ => Null);
      FormedRowsRead(pf, attrs, tup);
    }

    /** Its first loop, over the columns that the tuple has. */
    method DeformStored(v: View, n: nat) returns (cols: seq<Column>)
      requires Valid() && Readable(pf, attrs, v, n)
      modifies attcacheoff
      ensures Valid()
      ensures |cols| == n && forall i :: 0 <= i < n ==> cols[i] == ColumnOf(pf, attrs, v, n, i)
    {
      hide AlignNominal, ObjectLength, FetchAtt, AlignPointer, CacheValid, WalkEnd, WalkStart;
      ghost var nulls := NullFlags(v, n);
      cols := [];
      var off, slow := 0, false;
      assert WalkEnd(pf, attrs, nulls, v.data, 0) == Some(0) by { WalkFromStart(pf, attrs, nulls, v.data); }
      for i := 0 to n
        invariant Valid()
        invariant |cols| == i && forall k :: 0 <= k < i ==> cols[k] == ColumnOf(pf, attrs, v, n, k)
        invariant WalkEnd(pf, attrs, nulls, v.data, i) == Some(off)
        invariant !slow ==>
                    FixedBefore(attrs, i) && NoNullBefore(nulls, i) && forall k :: 0 <= k < i ==> attcacheoff[k] >= 0
      {
        WalkReaches(pf, attrs, nulls, v.data, n, i);
        WalkAdvances(pf, attrs, nulls, v.data, i);
        if NullAt(v, i) {
          cols := cols + [Null];
          slow := true;
        } else {
          off, slow := FindStart(v, i, off, slow, n);
          cols := cols + [NotNull(FetchAtt(pf, attrs[i], v.data[off..]))];
          off := off + ObjectLength(pf, attrs[i], v.data[off..]).value;
          if attrs[i].attlen <= 0 {
            slow := true;
          }
        }
      }
    }

    /** The step that heap_deform_tuple and nocachegetattr share: from the end of the
        columns before, or from the cache, to the start of column `i`. */
    method FindStart(v: View, i: nat, off: nat, slow: bool, ghost n: nat) returns (off': nat, slow': bool)
      requires Valid() && Readable(pf, attrs, v, n) && i < n && !NullAt(v, i)
      requires WalkEnd(pf, attrs, NullFlags(v, n), v.data, i) == Some(off)
      requires !slow ==> FixedBefore(attrs, i) && NoNullBefore(NullFlags(v, n), i)
                         && forall k :: 0 <= k < i ==> attcacheoff[k] >= 0
      modifies attcacheoff
      ensures Valid()
      ensures WalkStart(pf, attrs, NullFlags(v, n), v.data, i) == Some(off')
      ensures !slow' ==> !slow && forall k :: 0 <= k <= i ==> attcacheoff[k] >= 0
    {
      hide ObjectLength, FetchAtt, AlignNominal, AlignPointer, CacheValid, WalkEnd, WalkStart;
      ghost var nulls := NullFlags(v, n);
      WalkReaches(pf, attrs, nulls, v.data, n, i);
      StartFromEnd(pf, attrs, nulls, v.data, i);
      off', slow' := off, slow;
      if !slow' && attcacheoff[i] >= 0 {
        CachedValue(attrs, attcacheoff[..], i);
        CachedOffsetAgrees(pf, attrs, nulls, v.data, i);
        off' := attcacheoff[i];
      } else if attrs[i].attlen == -1 {
        if !slow' && off' == AlignNominal(off', attrs[i].attalign) {
          FixedWalk(pf, attrs, nulls, v.data, i);
          CachedOffsetAgrees(pf, attrs, nulls, v.data, i);
          CacheStep(attrs, attcacheoff[..], i);
          attcacheoff[i] := off';
        } else {
          off' := AlignPointer(attrs[i], off', v.data).value;
          slow' := true;
        }
      } else {
        off' := AlignNominal(off', attrs[i].attalign);
        if !slow' {
          FixedWalk(pf, attrs, nulls, v.data, i);
          CacheStep(attrs, attcacheoff[..], i);
          attcacheoff[i] := off';
        }
      }
    }

    /** fastgetattr and index_getattr: the cached offset when the tuple has no nulls,
        the null bit, or else the walk. Column numbers start at 1. */
    method GetAttr(v: View, attnum: nat, ghost n: nat) returns (c: Column)
      requires Valid() && Readable(pf, attrs, v, n) && 0 < attnum <= n
      modifies attcacheoff
      ensures Valid()
      ensures c == ColumnOf(pf, attrs, v, n, attnum - 1)
    {
      hide AlignNominal, ObjectLength, FetchAtt, AlignPointer;
      ghost var nulls := NullFlags(v, n);
      WalkReaches(pf, attrs, nulls, v.data, n, attnum - 1);
      if !v.hasNulls {
        if attcacheoff[attnum - 1] >= 0 {
          CachedOffsetAgrees(pf, attrs, nulls, v.data, attnum - 1);
          return NotNull(FetchAtt(pf, attrs[attnum - 1], v.data[attcacheoff[attnum - 1]..]));
        }
      } else if AttIsNull(attnum - 1, v.bits) {
        return Null;
      }
      var value := NoCacheGetAttr(v, attnum - 1, n);
      c := NotNull(value);
    }

    /** heap_getattr: a column the tuple was stored without is null, and a number
        below 1 means a system attribute. Column numbers beyond the descriptor may be used
        as long as the tuple does not have them either. */
    method HeapGetAttr(tup: Tuple, attnum: int) returns (r: Attribute)
      requires Valid() && (attnum <= |attrs| || attnum > GetNatts(tup.t_infomask2))
      requires HasParts(tup)
      requires Readable(pf, attrs, HeapView(tup), StoredColumns(attrs, tup))
      modifies attcacheoff
      ensures Valid()
      ensures r == if attnum > 0 then User(HeapColumn(pf, attrs, tup, attnum)) else System(attnum)
      ensures attnum > tup.t_infomask2 % 0x800 ==> r == User(Null)
      ensures forall n: nat, hasoid, row: seq<Column> | n <= |attrs| && IsFormed(pf, attrs[..n], hasoid, row, tup) ::
                attnum > 0 ==> r == User(if attnum <= n then ReadsAs(pf, attrs[attnum - 1], row[attnum - 1]) else Null)
    {
      hide Bits.And;
      FormedRowsRead(pf, attrs, tup);
      NattsRoundTrip(tup.t_infomask2, 0, 0);
      if attnum > 0 {
        if attnum > GetNatts(tup.t_infomask2) {
          r := User(Null);
        } else {
          var c := GetAttr(HeapView(tup), attnum, StoredColumns(attrs, tup));
          r := User(c);
        }
      } else {
        r := System(attnum);
      }
    }

    /** nocachegetattr and nocache_index_getattr, for a column that is not null. */
    method NoCacheGetAttr(v: View, attnum: nat, ghost n: nat) returns (r: Value)
      requires Valid() && Readable(pf, attrs, v, n) && attnum < n && !NullAt(v, attnum)
      modifies attcacheoff
      ensures Valid()
      ensures NotNull(r) == ColumnOf(pf, attrs, v, n, attnum)
    {
      hide AlignNominal, ObjectLength, FetchAtt, AlignPointer, WalkEnd, WalkStart;
      ghost var nulls := NullFlags(v, n);
      WalkReaches(pf, attrs, nulls, v.data, n, attnum);
      var slow := false;
      if v.hasNulls {
        slow := AnyNullBefore(v, attnum);
      }
      if !slow {
        if attcacheoff[attnum] >= 0 {
          CachedOffsetAgrees(pf, attrs, nulls, v.data, attnum);
          return FetchAtt(pf, attrs[attnum], v.data[attcacheoff[attnum]..]);
        }
        if v.hasVarWidth {
          var j := 0;
          while j <= attnum && !slow
            invariant 0 <= j <= attnum + 1
            invariant !slow ==> FixedBefore(attrs, j)
            decreases attnum + 1 - j, !slow
          {
            if attrs[j].attlen <= 0 {
              slow := true;
            } else {
              j := j + 1;
            }
          }
        }
      }
      var off;
      if !slow {
        CacheFixedPrefix(attnum);
        off := attcacheoff[attnum];
        CachedOffsetAgrees(pf, attrs, nulls, v.data, attnum);
      } else {
        off := CarefulWalk(v, attnum, n);
      }
      r := FetchAtt(pf, attrs[attnum], v.data[off..]);
    }

    /** Any zero bit of the bitmap before bit `attnum`, which is itself a one. */
    method AnyNullBefore(v: View, attnum: nat) returns (slow: bool)
      requires v.hasNulls && HasBitmap(v, attnum + 1)
      ensures slow <==> exists i: nat :: i < attnum && AttIsNull(i, v.bits)
    {
      hide Bits.And, Bits.Bit, Bits.Pow2;
      var byte, finalbit := attnum / 8, attnum % 8;
      LowBitsSet(v.bits[byte], finalbit);
      if Bits.And(Bits.Not(v.bits[byte]), Bits.Pow2(finalbit) - 1) != 0 {
        slow := true;
        var j: nat :| j < finalbit && !Bits.Bit(v.bits[byte], j);
        NullIsClearBit(8 * byte + j, v.bits);
      } else {
        slow := false;
        var i := 0;
        while i < byte && !slow
          invariant 0 <= i <= byte
          invariant slow ==> exists k: nat :: k < attnum && AttIsNull(k, v.bits)
          invariant !slow ==> forall k: nat :: k < 8 * i ==> !AttIsNull(k, v.bits)
          decreases byte - i, !slow
        {
          FullByte(v.bits[i]);
          if v.bits[i] != 0xFF {
            slow := true;
            var j: nat :| j < 8 && !Bits.Bit(v.bits[i], j);
            NullIsClearBit(8 * i + j, v.bits);
          } else {
            forall k: nat | k < 8 * (i + 1) ensures !AttIsNull(k, v.bits) {
              if k >= 8 * i {
                NullIsClearBit(k, v.bits);
              }
            }
            i := i + 1;
          }
        }
        if !slow {
          forall k: nat | k < attnum ensures !AttIsNull(k, v.bits) {
            if k >= 8 * byte {
              NullIsClearBit(k, v.bits);
            }
          }
        }
      }
    }

    /** Caches the offsets of all leading fixed-width columns, `attnum` among them. */
    method CacheFixedPrefix(attnum: nat)
      requires Valid() && attnum < |attrs| && FixedBefore(attrs, attnum + 1) && attcacheoff[attnum] < 0
      modifies attcacheoff
      ensures Valid() && attcacheoff[attnum] >= 0
    {
      hide AlignNominal, CacheValid;
      StartOfFirst(attrs);
      CacheIsPrefix(attrs, attcacheoff[..], attnum);
      CacheStep(attrs, attcacheoff[..], 0);
      attcacheoff[0] := 0;
      var j := FirstUncached(attnum);
      CachedValue(attrs, attcacheoff[..], j - 1);
      var off := attcacheoff[j - 1] + attrs[j - 1].attlen;
      while j < |attrs| && attrs[j].attlen > 0
        invariant 1 <= j <= |attrs| && CacheValid(attrs, attcacheoff[..]) && FixedBefore(attrs, j)
        invariant off == NominalEnd(attrs, j)
        invariant forall k :: 0 <= k < j ==> attcacheoff[k] >= 0
      {
        off := AlignNominal(off, attrs[j].attalign);
        CacheStep(attrs, attcacheoff[..], j);
        attcacheoff[j] := off;
        off := off + attrs[j].attlen;
        j := j + 1;
      }
    }

    /** Skips offsets that the slow path has cached before. */
    method FirstUncached(attnum: nat) returns (j: nat)
      requires attnum < |attrs| && attcacheoff.Length == |attrs| && attcacheoff[0] == 0
      requires forall k :: attnum <= k < |attrs| && k > 0 ==> attcacheoff[k] < 0
      ensures 1 <= j <= attnum + 1 && j <= |attrs|
      ensures forall k :: 0 <= k < j ==> attcacheoff[k] >= 0
    {
      j := 1;
      while j < |attrs| && attcacheoff[j] > 0
        invariant 1 <= j <= |attrs| && j <= attnum + 1
        invariant forall k :: 0 <= k < j ==> attcacheoff[k] >= 0
      {
        j := j + 1;
      }
    }

    /** The slow path: walk the tuple, caching offsets until a null or a
        variable-width column is met. */
    method CarefulWalk(v: View, attnum: nat, ghost n: nat) returns (off: nat)
      requires Valid() && Readable(pf, attrs, v, n) && attnum < n && !NullAt(v, attnum)
      modifies attcacheoff
      ensures Valid()
      ensures WalkStart(pf, attrs, NullFlags(v, n), v.data, attnum) == Some(off)
    {
      hide AlignNominal, ObjectLength, FetchAtt, AlignPointer, WalkStart, WalkEnd, CacheValid;
      ghost var nulls := NullFlags(v, n);
      WalkFromStart(pf, attrs, nulls, v.data);
      var usecache, i := true, 0;
      off := 0;
      while true
        invariant 0 <= i <= attnum && Valid()
        invariant WalkEnd(pf, attrs, nulls, v.data, i) == Some(off)
        invariant usecache ==>
                    FixedBefore(attrs, i) && NoNullBefore(nulls, i) && forall k :: 0 <= k < i ==> attcacheoff[k] >= 0
        decreases attnum - i
      {
        WalkReaches(pf, attrs, nulls, v.data, n, i);
        WalkAdvances(pf, attrs, nulls, v.data, i);
        if NullAt(v, i) {
          usecache := false;
        } else {
          var slow;
          off, slow := FindStart(v, i, off, !usecache, n);
          usecache := !slow;
          if i == attnum {
            break;
          }
          off := off + ObjectLength(pf, attrs[i], v.data[off..]).value;
          if usecache && attrs[i].attlen <= 0 {
            usecache := false;
          }
        }
        i := i + 1;
      }
    }
  }

  lemma CacheStep(attrs: seq<Attr>, cache: seq<int>, j: nat)
    requires CacheValid(attrs, cache) && j < |attrs| && Cacheable(attrs, j)
    requires j > 0 ==> cache[j - 1] >= 0
    ensures CacheValid(attrs, cache[j := NominalStart(attrs, j)])
  {
    hide AlignNominal;
  }

  lemma CachedValue(attrs: seq<Attr>, cache: seq<int>, j: nat)
    requires CacheValid(attrs, cache) && j < |attrs| && cache[j] >= 0
    ensures cache[j] == NominalStart(attrs, j) && Cacheable(attrs, j)
  {
  }

  /** Behind an uncached column nothing is cached. */
  lemma CacheIsPrefix(attrs: seq<Attr>, cache: seq<int>, j: nat)
    requires CacheValid(attrs, cache) && j < |attrs| && cache[j] < 0
    ensures forall k :: j <= k < |attrs| ==> cache[k] < 0
  {
    var k := j + 1;
    while k < |attrs|
      invariant j < k <= |attrs| && forall i :: j <= i < k ==> cache[i] < 0
    {
      assert cache[k - 1] < 0;
      k := k + 1;
    }
  }

  lemma StartOfFirst(attrs: seq<Attr>)
    requires |attrs| > 0
    ensures NominalStart(attrs, 0) == 0
  {
  }

  lemma NullIsClearBit(i: nat, bits: seq<Byte>)
    requires i / 8 < |bits|
    ensures AttIsNull(i, bits) <==> !Bits.Bit(bits[i / 8], i % 8)
  {
    hide Bits.And, Bits.Bit;
    Bits.AndPow2(bits[i / 8], i % 8);
  }

  /** `(~b) & ((1 << k) - 1)` is zero when the low `k` bits of `b` are all ones. */
  lemma LowBitsSet(b: int, k: nat)
    ensures Bits.And(Bits.Not(b), Bits.Pow2(k) - 1) == 0 <==> Bits.AllOnes(b, k)
  {
    hide Bits.And, Bits.Pow2;
    var x := Bits.And(Bits.Not(b), Bits.Pow2(k) - 1);
    Bits.AndMask(Bits.Not(b), k);
    forall j: nat ensures Bits.Bit(x, j) <==> j < k && !Bits.Bit(b, j) {
      Bits.AndBit(Bits.Not(b), Bits.Pow2(k) - 1, j);
      Bits.NotBit(b, j);
      Bits.MaskBit(k, j);
    }
    forall j: nat ensures !Bits.Bit(0, j) {
      Bits.ZeroBit(j);
    }
    if Bits.AllOnes(b, k) {
      Bits.BitsDetermine(x, 0, k);
    } else {
      var j: nat :| j < k && !Bits.Bit(b, j);
      assert Bits.Bit(x, j) && !Bits.Bit(0, j);
      assert x != 0;
    }
  }

  lemma FullByte(b: Byte)
    ensures b == 0xFF <==> Bits.AllOnes(b, 8)
  {
    hide Bits.Pow2, Bits.AllOnes;
    assert Bits.Pow2(8) == 256 by { Bits.Pow2Constants(); }
    Bits.FullMask(b, 8);
  }
}
