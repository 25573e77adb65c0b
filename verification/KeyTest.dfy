/** HeapKeyTest (valid.h): does a heap tuple satisfy a scan key? */
module KeyTest {
  import opened Bits
  import opened TupleLayout
  import opened HeapTuple
  import opened TupleDesc

  const SK_ISNULL := 0x0001

  /** One condition of a scan key: the attribute, the argument and the comparison
      function, which returns a Datum. */
  datatype ScanKey = ScanKey(flags: nat, attno: int, argument: nat, func: (Attribute, nat) -> nat)

  /** DatumGetBool looks at the low byte only, `bool` being a char. */
  predicate DatumGetBool(d: nat) {
    d % 256 != 0
  }

  /** A condition is met when the argument and the attribute are not null and the
      comparison is true. */
  ghost predicate KeyHolds(pf: Platform, attrs: seq<Attr>, tup: Tuple, key: ScanKey)
    requires HasParts(tup) && Readable(pf, attrs, HeapView(tup), StoredColumns(attrs, tup))
  {
    && key.flags % 2 == 0
    && (key.attno > 0 ==> HeapColumn(pf, attrs, tup, key.attno).NotNull?)
    && key.func(if key.attno > 0 then User(HeapColumn(pf, attrs, tup, key.attno)) else System(key.attno),
                key.argument) % 256 != 0
  }

  /** The same of the row that a tuple was formed from: its column is there and not null,
      and the comparison gives a Datum whose low byte is not zero. */
  ghost predicate RowMeets(pf: Platform, attrs: seq<Attr>, row: seq<Column>, key: ScanKey)
    requires |row| <= |attrs|
    requires forall i :: 0 <= i < |row| ==>
               ValidAttr(pf, attrs[i]) && (row[i].NotNull? ==> ValidValue(pf, attrs[i], row[i].value))
  {
    && key.flags % 2 == 0
    && (key.attno > 0 ==> key.attno <= |row| && row[key.attno - 1].NotNull?)
    && key.func(if key.attno > 0 then User(ReadsAs(pf, attrs[key.attno - 1], row[key.attno - 1]))
                else System(key.attno), key.argument) % 256 != 0
  }

  lemma RowDecides(pf: Platform, attrs: seq<Attr>, tup: Tuple, keys: seq<ScanKey>)
    requires forall i :: 0 <= i < |attrs| ==> ValidAttr(pf, attrs[i])
    requires HasParts(tup) && Readable(pf, attrs, HeapView(tup), StoredColumns(attrs, tup))
    ensures forall n: nat, hasoid, row: seq<Column> | n <= |attrs| && IsFormed(pf, attrs[..n], hasoid, row, tup) ::
              && n == |row|
              && (forall i :: 0 <= i < |row| ==> row[i].NotNull? ==> ValidValue(pf, attrs[i], row[i].value))
              && forall i | 0 <= i < |keys| ::
                   KeyHolds(pf, attrs, tup, keys[i]) <==> RowMeets(pf, attrs, row, keys[i])
  {
    hide And, Readable, IsFormed, HeapColumn;
    forall n: nat, hasoid, row: seq<Column> | n <= |attrs| && IsFormed(pf, attrs[..n], hasoid, row, tup)
      ensures
        && n == |row|
        && (forall i :: 0 <= i < |row| ==> row[i].NotNull? ==> ValidValue(pf, attrs[i], row[i].value))
        && forall i | 0 <= i < |keys| ::
             KeyHolds(pf, attrs, tup, keys[i]) <==> RowMeets(pf, attrs, row, keys[i])
    {
      HeapTupleRoundTrip(pf, attrs, n, hasoid, row, tup);
    }
  }

  /** The loop stops at the first condition that fails; its result is whether all hold,
      which is true for no conditions at all. */
  method HeapKeyTest(desc: Descriptor, tup: Tuple, keys: seq<ScanKey>) returns (result: bool)
    requires desc.Valid() && HasParts(tup)
             && Readable(desc.pf, desc.attrs, HeapView(tup), StoredColumns(desc.attrs, tup))
    requires forall i | 0 <= i < |keys| :: keys[i].attno <= |desc.attrs| || keys[i].attno > GetNatts(tup.t_infomask2)
    modifies desc.attcacheoff
    ensures desc.Valid()
    ensures result <==> forall i | 0 <= i < |keys| :: KeyHolds(desc.pf, desc.attrs, tup, keys[i])
    ensures forall n: nat, hasoid, row: seq<Column>
              | n <= |desc.attrs| && IsFormed(desc.pf, desc.attrs[..n], hasoid, row, tup) ::
              result <==>
              forall i | 0 <= i < |keys| :: RowMeets(desc.pf, desc.attrs, row, keys[i])
  {
    hide And, HeapColumn, Readable, IsFormed;
    result := true;
    var remaining, cur := |keys|, 0;
    while remaining != 0
      invariant 0 <= remaining && 0 <= cur && remaining + cur == |keys| && result && desc.Valid()
      invariant forall i | 0 <= i < cur :: KeyHolds(desc.pf, desc.attrs, tup, keys[i])
      decreases remaining
    {
      remaining := remaining - 1;
      var key := keys[cur];
      FlagBit(key.flags);
      if And(key.flags, SK_ISNULL) != 0 {
        result := false;
        break;
      }
      var atp := desc.HeapGetAttr(tup, key.attno);
      if atp.User? && atp.column.Null? {
        result := false;
        break;
      }
      if !DatumGetBool(key.func(atp, key.argument)) {
        result := false;
        break;
      }
      cur := cur + 1;
    }
    RowDecides(desc.pf, desc.attrs, tup, keys);
  }

  lemma FlagBit(flags: nat)
    ensures And(flags, SK_ISNULL) != 0 <==> flags % 2 == 1
  {
    Pow2Constants();
    AndMask(flags, 1);
  }
}
