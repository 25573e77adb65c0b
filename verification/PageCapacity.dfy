/** How much fits on a page (bufpage.c), against the size limits that the access
    methods use (htup.h, itup.h, tuptoaster.h, nbtree.h, hash.h). */
module PageCapacity {
  import opened Alignment
  import Bits
  import opened Wrappers

  const BLCKSZ := 8192
  const SIZE_OF_PAGE_HEADER := 24
  const SIZEOF_ITEM_ID := 4
  const SIZEOF_TUPLE_HEADER := 23
  const SIZEOF_BT_OPAQUE := 16
  const SIZEOF_HASH_OPAQUE := 16

  /** The page header fields that bound the free space. */
  datatype Space = Space(lower: int, upper: int, special: int)

  /** PageInit. */
  function Init(specialSize: nat): Space {
    var special := BLCKSZ - MaxAlign(specialSize);
    Space(SIZE_OF_PAGE_HEADER, special, special)
  }

  /** PageAddItem behind the existing line pointers: a line pointer from below, the item
      from above. */
  function AddItem(p: Space, size: nat): Option<Space> {
    var lower, upper := p.lower + SIZEOF_ITEM_ID, p.upper - MaxAlign(size);
    if lower > upper then None else Some(Space(lower, upper, p.special))
  }

  function AddAll(p: Space, sizes: seq<nat>): Option<Space>
    decreases |sizes|
  {
    if sizes == [] then Some(p)
    else
      match AddItem(p, sizes[0])
      case None => None
      case Some(q) => AddAll(q, sizes[1..])
  }

  function Total(sizes: seq<nat>): nat {
    if sizes == [] then 0 else MaxAlign(sizes[0]) + Total(sizes[1..])
  }

  predicate Fits(specialSize: nat, sizes: seq<nat>) {
    AddAll(Init(specialSize), sizes).Some?
  }

  lemma {:induction false} AddAllIsSum(p: Space, sizes: seq<nat>)
    requires p.lower <= p.upper
    ensures AddAll(p, sizes).Some? <==> p.lower + 4 * |sizes| + Total(sizes) <= p.upper
    decreases |sizes|
  {
    hide MaxAlign;
    if sizes != [] && AddItem(p, sizes[0]).Some? {
      AddAllIsSum(AddItem(p, sizes[0]).value, sizes[1..]);
    }
  }

  /** Items fit exactly when their line pointers and aligned sizes do, in any order. */
  lemma FitsIsSum(specialSize: nat, sizes: seq<nat>)
    requires MaxAlign(specialSize) <= 8168
    ensures Fits(specialSize, sizes) <==> 24 + 4 * |sizes| + Total(sizes) + MaxAlign(specialSize) <= 8192
  {
    hide MaxAlign;
    AddAllIsSum(Init(specialSize), sizes);
  }

  /** One more item behind the others. */
  lemma {:induction false} AddAllSnoc(p: Space, sizes: seq<nat>, size: nat)
    ensures AddAll(p, sizes + [size]) ==
              match AddAll(p, sizes)
              case None => None
              case Some(q) => AddItem(q, size)
    decreases |sizes|
  {
    hide AddItem;
    if sizes == [] {
      assert sizes + [size] == [size] && [size][1..] == [];
    } else {
      assert (sizes + [size])[1..] == sizes[1..] + [size];
      if AddItem(p, sizes[0]).Some? { AddAllSnoc(AddItem(p, sizes[0]).value, sizes[1..], size); }
    }
  }

  /** What is left between the line pointers and the items. */
  lemma {:induction false} AddAllSpace(p: Space, sizes: seq<nat>)
    requires AddAll(p, sizes).Some?
    ensures var q := AddAll(p, sizes).value;
            q.lower == p.lower + 4 * |sizes| && q.upper == p.upper - Total(sizes) && q.special == p.special
    decreases |sizes|
  {
    hide MaxAlign;
    if sizes != [] {
      AddAllSpace(AddItem(p, sizes[0]).value, sizes[1..]);
    }
  }

  /** A page, with the sizes of the items that have been put on it. */
  class Page {
    ghost const specialSize: nat
    ghost var sizes: seq<nat>
    var lower: int
    var upper: int
    var special: int

    ghost predicate Valid()
      reads this
    {
      MaxAlign(specialSize) <= 8168 && AddAll(Init(specialSize), sizes) == Some(Space(lower, upper, special))
    }

    constructor (specialSize: nat)
      requires MaxAlign(specialSize) <= 8168
      ensures Valid() && this.specialSize == specialSize && sizes == []
    {
      this.specialSize, sizes := specialSize, [];
      lower := SIZE_OF_PAGE_HEADER;
      upper := BLCKSZ - MaxAlign(specialSize);
      special := BLCKSZ - MaxAlign(specialSize);
    }

    /** PageAddItem: the item is taken exactly when all line pointers and aligned sizes
        together fit beside header and special space, and then lies between the free
        space, of which the rest is left, and the items that were there. */
    method Add(size: nat) returns (ok: bool)
      requires Valid()
      modifies this
      ensures Valid() && sizes == if ok then old(sizes) + [size] else old(sizes)
      ensures ok <==> 24 + 4 * (|old(sizes)| + 1) + Total(old(sizes) + [size]) + MaxAlign(specialSize) <= 8192
      ensures lower == 24 + 4 * |sizes| && upper == 8192 - MaxAlign(specialSize) - Total(sizes)
              && special == old(special)
    {
      hide MaxAlign;
      AddAllSnoc(Init(specialSize), sizes, size);
      FitsIsSum(specialSize, sizes + [size]);
      AddAllSpace(Init(specialSize), sizes);
      var newLower := lower + SIZEOF_ITEM_ID;
      var alignedSize := MaxAlign(size);
      var newUpper := upper - alignedSize;
      if newLower > newUpper {
        return false;
      }
      lower, upper := newLower, newUpper;
      sizes := sizes + [size];
      AddAllSpace(Init(specialSize), sizes);
      ok := true;
    }
  }

  // ---------------------------------------------------------------- limits for n items

  lemma {:induction false} TotalBounds(sizes: seq<nat>, low: nat, high: nat)
    requires forall s | s in sizes :: low <= MaxAlign(s) <= high
    ensures low * |sizes| <= Total(sizes) <= high * |sizes|
    decreases |sizes|
  {
    hide MaxAlign;
    if sizes != [] {
      assert sizes[0] in sizes && forall s | s in sizes[1..] :: s in sizes;
      TotalBounds(sizes[1..], low, high);
      MulSuccessor(low, |sizes[1..]|);
      MulSuccessor(high, |sizes[1..]|);
    }
  }

  lemma MulSuccessor(a: nat, n: nat)
    ensures a * (n + 1) == a * n + a
  {
  }

  /** MAXALIGN_DOWN of a quotient, over `n` items and a space that is a multiple of the
      alignment: the largest size such that `n` aligned items fill at most the space. */
  lemma QuotientLimit(space: nat, used: nat, n: nat, size: nat)
    requires space % 8 == 0 && n > 0 && MaxAlign(used) <= space
    ensures size <= MaxAlignDown((space - MaxAlign(used)) / n) <==> used + n * MaxAlign(size) <= space
  {
    hide MaxAlign, MaxAlignDown;
    var a, room := MaxAlign(size), space - MaxAlign(used);
    var limit := MaxAlignDown(room / n);
    DownIsGreatest(room / n, a);
    UpIsLeast(size, limit);
    assert size <= limit <==> a <= room / n;
    DivisionBound(room, n, a);
    MulEight(n, a);
    UpIsLeast(used, space - n * a);
    EightSubtract(space, n * a);
  }

  lemma MulEight(n: nat, a: nat)
    requires a % 8 == 0
    ensures (n * a) % 8 == 0
  {
    Bits.QuotientUnique(n * a, 8, n * (a / 8), 0);
  }

  lemma EightSubtract(a: int, b: int)
    requires a % 8 == 0 && b % 8 == 0
    ensures (a - b) % 8 == 0
  {
  }

  lemma DivisionBound(room: nat, n: nat, a: nat)
    requires n > 0
    ensures a <= room / n <==> n * a <= room
  {
    var q, r := room / n, room % n;
    assert room == n * q + r;
    if a > q {
      Bits.MulAtLeast(a - q, n);
      assert n * a == n * q + (a - q) * n;
    } else {
      assert n * q == n * a + n * (q - a);
    }
  }

  lemma UpIsLeast(len: int, m: int)
    ensures m % 8 == 0 ==> (len <= m <==> MaxAlign(len) <= m)
  {
    hide MaxAlign;
    EightMultiples(MaxAlign(len), m);
  }

  lemma DownIsGreatest(len: int, m: int)
    ensures m % 8 == 0 ==> (m <= len <==> m <= MaxAlignDown(len))
  {
    hide MaxAlignDown;
    EightMultiples(MaxAlignDown(len), m);
  }

  lemma EightMultiples(a: int, b: int)
    requires a % 8 == 0
    ensures b % 8 == 0 && a > b ==> a >= b + 8
    ensures b % 8 == 0 && a < b ==> a + 8 <= b
  {
    if b % 8 == 0 {
      assert a == 8 * (a / 8) && b == 8 * (b / 8);
    }
  }

  /** The size limit for `n` items beside a special space. */
  function Limit(specialSize: nat, n: nat): int
    requires n > 0
  {
    MaxAlignDown((BLCKSZ - MaxAlign(specialSize) - MaxAlign(SIZE_OF_PAGE_HEADER + n * SIZEOF_ITEM_ID)) / n)
  }

  /** There is room for `n` line pointers. */
  predicate RoomFor(specialSize: nat, n: nat) {
    n > 0 && MaxAlign(specialSize) + MaxAlign(24 + 4 * n) <= 8192
  }

  lemma RoomBound(specialSize: nat, n: nat)
    requires RoomFor(specialSize, n)
    ensures MaxAlign(specialSize) <= 8168
  {
    hide MaxAlign;
  }

  lemma CopiesFit(specialSize: nat, n: nat, size: nat)
    requires RoomFor(specialSize, n)
    ensures Fits(specialSize, seq(n, _ => size)) <==> 24 + 4 * n + n * MaxAlign(size) <= 8192 - MaxAlign(specialSize)
  {
    hide MaxAlign, Fits;
    RoomBound(specialSize, n);
    var copies := seq(n, _ => size);
    FitsIsSum(specialSize, copies);
    TotalBounds(copies, MaxAlign(size), MaxAlign(size));
    assert n * MaxAlign(size) == MaxAlign(size) * n;
  }

  /** The limit is the largest size of which `n` items fit. */
  lemma LimitIsLargest(specialSize: nat, n: nat, size: nat)
    requires RoomFor(specialSize, n)
    ensures Fits(specialSize, seq(n, _ => size)) <==> size <= Limit(specialSize, n)
  {
    hide MaxAlign, MaxAlignDown, Fits;
    var space := 8192 - MaxAlign(specialSize);
    EightSubtract(8192, MaxAlign(specialSize));
    QuotientLimit(space, 24 + 4 * n, n, size);
    CopiesFit(specialSize, n, size);
  }

  /** Any `n` items up to the limit fit, whatever their sizes. */
  lemma SmallerItemsFit(specialSize: nat, n: nat, sizes: seq<nat>)
    requires RoomFor(specialSize, n) && |sizes| == n && forall s | s in sizes :: s <= Limit(specialSize, n)
    ensures Fits(specialSize, sizes)
  {
    hide MaxAlign, MaxAlignDown, Fits;
    var limit := Limit(specialSize, n);
    assert sizes[0] in sizes && 0 <= limit;
    forall s | s in sizes ensures 0 <= MaxAlign(s) <= limit {
      UpIsLeast(s, limit);
    }
    UpIsLeast(limit, limit);
    LimitIsLargest(specialSize, n, limit);
    CopiesFit(specialSize, n, limit);
    TotalBounds(sizes, 0, limit);
    assert n * limit == limit * n;
    RoomBound(specialSize, n);
    FitsIsSum(specialSize, sizes);
  }

  // ---------------------------------------------------------------- the limits in use

  lemma Aligned()
    ensures MaxAlign(0) == 0 && MaxAlign(9) == 16 && MaxAlign(16) == 16 && MaxAlign(23) == 24 && MaxAlign(28) == 32
    ensures MaxAlign(36) == 40 && MaxAlign(40) == 40
    ensures MaxAlignDown(8160) == 8160 && MaxAlignDown(2038) == 2032 && MaxAlignDown(2712) == 2712
            && MaxAlignDown(8148) == 8144
  {
    hide MaxAlign, MaxAlignDown;
    EightMultiples(MaxAlign(0), 0);
    EightMultiples(MaxAlign(9), 16);
    EightMultiples(MaxAlign(16), 16);
    EightMultiples(MaxAlign(23), 24);
    EightMultiples(MaxAlign(28), 32);
    EightMultiples(MaxAlign(36), 40);
    EightMultiples(MaxAlign(40), 40);
    EightMultiples(MaxAlignDown(8160), 8160);
    EightMultiples(MaxAlignDown(2038), 2032);
    EightMultiples(MaxAlignDown(2712), 2712);
    EightMultiples(MaxAlignDown(8148), 8144);
  }

  /** MaximumBytesPerTuple. Beyond 2042 tuples the unsigned subtraction would wrap. */
  function MaximumBytesPerTuple(n: nat): int
    requires n > 0
  {
    MaxAlignDown((BLCKSZ - MaxAlign(SIZE_OF_PAGE_HEADER + n * SIZEOF_ITEM_ID)) / n)
  }

  /** It is the largest size of which `n` tuples fit on a heap page; `n` smaller tuples
      of any sizes fit too. */
  lemma MaximumBytesPerTupleIsLargest(n: nat, size: nat, sizes: seq<nat>)
    requires 0 < n <= 2042
    ensures Fits(0, seq(n, _ => size)) <==> size <= MaximumBytesPerTuple(n)
    ensures |sizes| == n && (forall s | s in sizes :: s <= MaximumBytesPerTuple(n)) ==> Fits(0, sizes)
  {
    hide MaxAlign, MaxAlignDown, Fits;
    Aligned();
    UpIsLeast(24 + 4 * n, 8192);
    assert MaximumBytesPerTuple(n) == Limit(0, n);
    LimitIsLargest(0, n, size);
    if |sizes| == n && forall s | s in sizes :: s <= MaximumBytesPerTuple(n) {
      SmallerItemsFit(0, n, sizes);
    }
  }

  const MAX_HEAP_TUPLE_SIZE := 8160

  /** MaxHeapTupleSize: what a page can hold as its only tuple. */
  lemma MaxHeapTupleSizeIsLargest(size: nat)
    ensures MAX_HEAP_TUPLE_SIZE == BLCKSZ - MaxAlign(SIZE_OF_PAGE_HEADER + SIZEOF_ITEM_ID)
    ensures Fits(0, [size]) <==> size <= MAX_HEAP_TUPLE_SIZE
  {
    hide MaxAlign, MaxAlignDown, Fits;
    Aligned();
    LimitIsLargest(0, 1, size);
    assert seq(1, _ => size) == [size];
  }

  /** BTMaxItemSize. */
  function BTMaxItemSize(): int {
    MaxAlignDown((BLCKSZ - MaxAlign(SIZE_OF_PAGE_HEADER + 3 * SIZEOF_ITEM_ID) - MaxAlign(SIZEOF_BT_OPAQUE)) / 3)
  }

  /** Three items fit on every B-tree page, and no larger limit would do. */
  lemma ThreeItemsFit(a: nat, b: nat, c: nat, size: nat)
    ensures a <= BTMaxItemSize() && b <= BTMaxItemSize() && c <= BTMaxItemSize() ==> Fits(SIZEOF_BT_OPAQUE, [a, b, c])
    ensures Fits(SIZEOF_BT_OPAQUE, [size, size, size]) <==> size <= BTMaxItemSize()
    ensures BTMaxItemSize() == 2712
  {
    hide MaxAlign, MaxAlignDown, Fits;
    Aligned();
    assert RoomFor(16, 3);
    assert BTMaxItemSize() == Limit(16, 3);
    LimitIsLargest(16, 3, size);
    assert seq(3, _ => size) == [size, size, size];
    if a <= BTMaxItemSize() && b <= BTMaxItemSize() && c <= BTMaxItemSize() {
      SmallerItemsFit(16, 3, [a, b, c]);
    }
  }

  /** HashMaxItemSize. */
  function HashMaxItemSize(): int {
    MaxAlignDown(BLCKSZ - SIZE_OF_PAGE_HEADER - SIZEOF_ITEM_ID - MaxAlign(SIZEOF_HASH_OPAQUE))
  }

  lemma HashMaxItemSizeIsLargest(size: nat)
    ensures Fits(SIZEOF_HASH_OPAQUE, [size]) <==> size <= HashMaxItemSize()
    ensures HashMaxItemSize() == 8144
  {
    hide MaxAlign, MaxAlignDown, Fits;
    Aligned();
    FitsIsSum(16, [size]);
    assert Total([size]) == MaxAlign(size) + Total([]) by { TotalOne(size); }
    UpIsLeast(size, 8144);
  }

  lemma TotalOne(size: nat)
    ensures Total([size]) == MaxAlign(size)
  {
    hide MaxAlign;
    assert [size][1..] == [];
  }

  const EXTERN_TUPLES_PER_PAGE := 4

  /** TOAST_MAX_CHUNK_SIZE, and the toast tuple of a chunk: header, value id, sequence
      number, length word and data. */
  function ToastMaxChunkSize(): int {
    MaximumBytesPerTuple(EXTERN_TUPLES_PER_PAGE) - MaxAlign(SIZEOF_TUPLE_HEADER) - 4 - 4 - 4
  }

  function ChunkTupleSize(chunk: nat): nat {
    MaxAlign(SIZEOF_TUPLE_HEADER) + 4 + 4 + 4 + chunk
  }

  /** It is the largest chunk of which four toast tuples fill a page. */
  lemma ToastChunkIsLargest(chunk: nat)
    ensures Fits(0, seq(4, _ => ChunkTupleSize(chunk))) <==> chunk <= ToastMaxChunkSize()
    ensures ToastMaxChunkSize() == 1996
  {
    hide MaxAlign, MaxAlignDown, Fits;
    MaximumBytesPerTupleIsLargest(4, ChunkTupleSize(chunk), []);
  }

  const MAX_HEAP_TUPLES_PER_PAGE := 291
  const MAX_INDEX_TUPLES_PER_PAGE := 408

  lemma PerPageConstants()
    ensures MAX_HEAP_TUPLES_PER_PAGE
            == (8192 - 24) / (MaxAlign(23) + 4)
    ensures MAX_INDEX_TUPLES_PER_PAGE
            == (8192 - 24) / (MaxAlign(8 + 1) + 4)
  {
    assert MaxAlign(23) == 24 && MaxAlign(8 + 1) == 16 by {
      hide MaxAlign;
      EightMultiples(MaxAlign(23), 24);
      EightMultiples(MaxAlign(9), 16);
    }
  }

  /** No heap page holds more tuples than MaxHeapTuplesPerPage, each with at least its
      header; and a page of that many bare headers is possible. */
  lemma HeapTuplesPerPage(sizes: seq<nat>)
    ensures (forall s | s in sizes :: s >= 23) && Fits(0, sizes) ==>
              |sizes| <= MAX_HEAP_TUPLES_PER_PAGE
    ensures Fits(0, seq(MAX_HEAP_TUPLES_PER_PAGE, _ => SIZEOF_TUPLE_HEADER))
  {
    hide MaxAlign, Fits;
    Aligned();
    UpIsLeast(24 + 4 * 291, 8192);
    CopiesFit(0, 291, 23);
    if (forall s | s in sizes :: s >= SIZEOF_TUPLE_HEADER) && Fits(0, sizes) {
      MinimumSizes(sizes, 23, 24);
      FitsIsSum(0, sizes);
    }
  }

  lemma MinimumSizes(sizes: seq<nat>, least: nat, aligned: nat)
    requires (forall s | s in sizes :: s >= least) && MaxAlign(least) == aligned
    ensures aligned * |sizes| <= Total(sizes)
  {
    hide MaxAlign;
    forall s | s in sizes ensures aligned <= MaxAlign(s) <= Total(sizes) {
      AlignMonotone(least, s);
      PartOfTotal(sizes, s);
    }
    TotalBounds(sizes, aligned, Total(sizes));
  }

  lemma AlignMonotone(a: nat, b: nat)
    requires a <= b
    ensures MaxAlign(a) <= MaxAlign(b)
  {
    hide MaxAlign;
    EightMultiples(MaxAlign(a), MaxAlign(b));
  }

  lemma {:induction false} PartOfTotal(sizes: seq<nat>, s: nat)
    requires s in sizes
    ensures MaxAlign(s) <= Total(sizes)
    decreases |sizes|
  {
    hide MaxAlign;
    if s != sizes[0] {
      PartOfTotal(sizes[1..], s);
    }
  }

  /** The same for index pages, whose tuples have at least one byte behind the header. */
  lemma IndexTuplesPerPage(specialSize: nat, sizes: seq<nat>)
    requires MaxAlign(specialSize) <= 8168
    ensures (forall s | s in sizes :: s >= 8 + 1) && Fits(specialSize, sizes) ==>
              |sizes| <= MAX_INDEX_TUPLES_PER_PAGE
  {
    hide MaxAlign, Fits;
    Aligned();
    if (forall s | s in sizes :: s >= 8 + 1) && Fits(specialSize, sizes) {
      MinimumSizes(sizes, 9, 16);
      FitsIsSum(specialSize, sizes);
    }
  }
}
