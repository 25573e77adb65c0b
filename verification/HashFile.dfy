/** Where a hash index puts its buckets and overflow pages (hash.h, hashpage.c,
    hashovfl.c, hashutil.c). Buckets are allocated in batches that double the table,
    overflow pages one by one between the batches; nothing records the place of a
    bucket, it is computed from how many overflow pages preceded its batch. */
module HashFile {
  import opened Bits
  import opened Wrappers

  const HASH_MAX_SPLITPOINTS := 32
  const INVALID_BLOCK := 0xFFFF_FFFF
  const MAX_BUCKET := 0x7FFF_FFFE

  // ---------------------------------------------------------------- _hash_log2

  /** The least `i` with num <= 2^i. */
  function CeilLog2(num: nat): (i: nat)
    ensures num <= Pow2(i) && (i > 0 ==> Pow2(i - 1) < num)
  {
    if num <= 1 then 0 else 1 + CeilLog2((num + 1) / 2)
  }

  lemma CeilLog2Unique(num: nat, k: nat)
    requires num <= Pow2(k) && (k > 0 ==> Pow2(k - 1) < num)
    ensures CeilLog2(num) == k
  {
    var i := CeilLog2(num);
    if i < k {
      Pow2Monotone(i, k - 1);
    } else if k < i {
      Pow2Monotone(k, i - 1);
    }
  }

  /** The loop of _hash_log2. Above 2^31 the shifted limit would become zero. */
  method HashLog2(num: uint32) returns (i: uint32)
    requires num <= 0x8000_0000
    ensures i == CeilLog2(num) <= 31
  {
    Pow2Constants();
    var limit: uint32 := 1;
    i := 0;
    while limit < num
      invariant i <= 31 && limit == Pow2(i) && (i > 0 ==> Pow2(i - 1) < num)
      decreases 31 - i
    {
      if i == 31 { assert false; }
      Pow2Monotone(i + 1, 31);
      limit := Wrap(2 * limit);
      i := i + 1;
    }
    CeilLog2Unique(num, i);
  }

  // ---------------------------------------------------------------- metapage and file

  datatype Meta = Meta(maxbucket: uint32, highmask: uint32, lowmask: uint32, ovflpoint: uint32, spares: seq<uint32>)

  /** What a block of the file was allocated for. Blocks of a batch of buckets are zero
      until their bucket comes into use. */
  datatype Block = Zero | MetaBlock | Bucket(b: nat) | Overflow(bit: nat)

  datatype Index = Index(m: Meta, file: seq<Block>)

  /** BUCKET_TO_BLKNO, in 32-bit arithmetic. */
  function BucketToBlkno(m: Meta, b: uint32): uint32
    requires |m.spares| == HASH_MAX_SPLITPOINTS && b < 0x8000_0000
  {
    BucketLevel(b);
    Wrap(b + (if b != 0 then m.spares[CeilLog2(b + 1) - 1] else 0) + 1)
  }

  lemma BucketLevel(b: uint32)
    requires b < 0x8000_0000
    ensures CeilLog2(b + 1) <= 31 && (b != 0 ==> CeilLog2(b + 1) >= 1)
  {
    Pow2Constants();
    var i := CeilLog2(b + 1);
    if i > 31 { Pow2Monotone(31, i - 1); }
  }

  /** The split point that overflow page `n` (counted from one) was allocated at: the
      loop of bitno_to_blkno from `i` on. */
  function SplitPoint(m: Meta, n: nat, i: nat): (r: nat)
    requires |m.spares| == HASH_MAX_SPLITPOINTS && m.ovflpoint < HASH_MAX_SPLITPOINTS
    ensures i <= r && (i <= m.ovflpoint ==> r <= m.ovflpoint)
    ensures forall j :: i <= j < r ==> j < HASH_MAX_SPLITPOINTS && m.spares[j] < n
    ensures r < m.ovflpoint ==> n <= m.spares[r]
    decreases m.ovflpoint - i
  {
    if i < m.ovflpoint && n > m.spares[i] then SplitPoint(m, n, i + 1) else i
  }

  function BitnoToBlkno(m: Meta, bit: uint32): uint32
    requires |m.spares| == HASH_MAX_SPLITPOINTS && m.ovflpoint < HASH_MAX_SPLITPOINTS
  {
    Wrap(Pow2(SplitPoint(m, Wrap(bit + 1), 1)) + Wrap(bit + 1))
  }

  function BlknoToBitno(m: Meta, blkno: uint32, i: nat): Option<uint32>
    requires |m.spares| == HASH_MAX_SPLITPOINTS && m.ovflpoint < HASH_MAX_SPLITPOINTS
    decreases m.ovflpoint + 1 - i
  {
    if i > m.ovflpoint || blkno <= Pow2(i) then None
    else if blkno - Pow2(i) <= m.spares[i] then Some(blkno - Pow2(i) - 1)
    else BlknoToBitno(m, blkno, i + 1)
  }

  // ---------------------------------------------------------------- the steps

  /** _hash_getnewbuf: the block at the end of the file, or one before it that a failed
      attempt has left there. */
  function Put(file: seq<Block>, blkno: uint32, b: Block): Option<seq<Block>> {
    if blkno == INVALID_BLOCK || blkno > |file| then None
    else if blkno == |file| then Some(file + [b])
    else Some(file[blkno := b])
  }

  function InitialBuckets(n: nat): (r: uint32)
    requires 1 <= n <= 30
    ensures 2 <= r == Pow2(n) <= 0x4000_0000
  {
    Pow2Monotone(n, 30);
    Pow2Monotone(1, n);
    Pow2Constants();
    Pow2(n)
  }

  /** _hash_metapinit with 2^n buckets, and the bitmap page behind them. */
  function InitialMeta(n: nat): (m: Meta)
    requires 1 <= n <= 30
    ensures m.ovflpoint == n && m.maxbucket + 1 == m.lowmask + 1 == InitialBuckets(n)
            && m.highmask == 2 * InitialBuckets(n) - 1
    ensures |m.spares| == 32 && forall j :: 0 <= j < 32 ==> m.spares[j] == if j == n then 1 else 0
  {
    var buckets := InitialBuckets(n);
    Meta(buckets - 1, 2 * buckets - 1, buckets - 1, n, seq(32, i => 0)[n := 1])
  }

  function InitialIndex(n: nat): Index
    requires 1 <= n <= 30
  {
    Index(InitialMeta(n), [MetaBlock] + seq(InitialBuckets(n), b requires 0 <= b => Bucket(b)) + [Overflow(0)])
  }

  /** _hash_getovflpage when no free page is left, without the bitmap pages: the next
      bit, at the block that bitno_to_blkno gives. */
  function AddOverflow(s: Index): Option<Index>
    requires |s.m.spares| == HASH_MAX_SPLITPOINTS && s.m.ovflpoint < HASH_MAX_SPLITPOINTS
  {
    var bit: int := s.m.spares[s.m.ovflpoint];
    match Put(s.file, BitnoToBlkno(s.m, bit), Overflow(bit))
    case None => None
    case Some(file) =>
      Some(Index(s.m.(spares := s.m.spares[s.m.ovflpoint := Wrap(bit + 1)]), file))
  }

  /** _hash_alloc_buckets: the file is extended to the last of `n` blocks from `first`
      on, unless block numbers run out. */
  function AllocBuckets(file: seq<Block>, first: uint32, n: uint32): Option<seq<Block>> {
    var last := Wrap(first + n - 1);
    if last < first || last == INVALID_BLOCK then None
    else Some(file + seq(if last + 1 > |file| then last + 1 - |file| else 0, _ => Zero))
  }

  /** _hash_expandtable, when a split is due and the locks are there. */
  function Expand(s: Index): Option<Index>
    requires |s.m.spares| == HASH_MAX_SPLITPOINTS && s.m.ovflpoint < HASH_MAX_SPLITPOINTS
  {
    var m := s.m;
    if m.maxbucket >= MAX_BUCKET then None
    else
      var newBucket := m.maxbucket + 1;
      var blkno := BucketToBlkno(m, newBucket);
      BucketLevel(newBucket);
      var spareNdx := CeilLog2(newBucket + 1);
      var extended := if spareNdx > m.ovflpoint then AllocBuckets(s.file, blkno, newBucket) else Some(s.file);
      if extended.None? then None
      else
        match Put(extended.value, blkno, Bucket(newBucket))
        case None => None
        case Some(file) =>
          var doubling := newBucket > m.highmask;
          Some(Index(Meta(newBucket, if doubling then NewHighMask(newBucket, m.highmask) else m.highmask,
                          if doubling then m.highmask else m.lowmask,
                          if spareNdx > m.ovflpoint then spareNdx else m.ovflpoint,
                          if spareNdx > m.ovflpoint then m.spares[spareNdx := m.spares[m.ovflpoint]] else m.spares),
                     file))
  }

  function NewHighMask(newBucket: uint32, lowmask: uint32): uint32 {
    Pow2Constants();
    OrBound(newBucket, lowmask, 32);
    Or(newBucket, lowmask)
  }

  // ---------------------------------------------------------------- the invariant

  /** Where the design puts a bucket, and an overflow page of a given split point. */
  function BucketPlace(m: Meta, b: nat): (place: nat)
    requires |m.spares| == HASH_MAX_SPLITPOINTS && b < 0x8000_0000
    ensures place > b
  {
    BucketLevel(b);
    b + (if b != 0 then m.spares[CeilLog2(b + 1) - 1] else 0) + 1
  }

  function OverflowPlace(m: Meta, bit: nat): nat
    requires |m.spares| == HASH_MAX_SPLITPOINTS && m.ovflpoint < HASH_MAX_SPLITPOINTS
  {
    Pow2(SplitPoint(m, bit + 1, 1)) + bit + 1
  }

  /** The masks belong to a power of two that the number of buckets has reached. */
  predicate MasksOk(m: Meta, k: nat) {
    && m.lowmask == Pow2(k) - 1 && m.highmask == Pow2(k + 1) - 1
    && m.lowmask <= m.maxbucket <= m.highmask
  }

  /** The counts are cumulative, and no overflow page precedes the first batch. */
  predicate SparesRise(m: Meta)
    requires |m.spares| == HASH_MAX_SPLITPOINTS && m.ovflpoint < HASH_MAX_SPLITPOINTS
  {
    m.spares[0] == 0 && forall i, j :: 0 <= i <= j <= m.ovflpoint ==> m.spares[i] <= m.spares[j]
  }

  ghost predicate MetaOk(m: Meta) {
    && |m.spares| == HASH_MAX_SPLITPOINTS
    && 1 <= m.ovflpoint <= 31 && m.maxbucket <= MAX_BUCKET
    && m.ovflpoint == CeilLog2(m.maxbucket + 1)
    && SparesRise(m)
    && exists k :: MasksOk(m, k)
  }

  ghost predicate Valid(s: Index) {
    hide CeilLog2, SplitPoint, Pow2;
    && MetaOk(s.m)
    && |s.file| == Pow2(s.m.ovflpoint) + s.m.spares[s.m.ovflpoint] + 1 <= INVALID_BLOCK
    && s.file[0] == MetaBlock
    && BucketsPlaced(s)
    && OverflowPlaced(s)
    && Labelled(s)
  }

  /** No block is in use for anything but what belongs at its place. */
  ghost predicate Labelled(s: Index)
    requires MetaOk(s.m)
  {
    forall i | 0 <= i < |s.file| :: LabelOk(s.m, i, s.file[i])
  }

  predicate LabelOk(m: Meta, i: nat, block: Block)
    requires |m.spares| == HASH_MAX_SPLITPOINTS && m.ovflpoint < HASH_MAX_SPLITPOINTS
  {
    match block
    case Zero => true
    case MetaBlock => i == 0
    case Bucket(b) => b <= m.maxbucket && b < 0x8000_0000 && BucketPlace(m, b) == i
    case Overflow(bit) => bit < m.spares[m.ovflpoint] && OverflowPlace(m, bit) == i
  }

  ghost predicate BucketsPlaced(s: Index)
    requires MetaOk(s.m)
  {
    forall b: nat | b < Pow2(s.m.ovflpoint) && b < 0x8000_0000 ::
      BucketPlace(s.m, b) < |s.file| && s.file[BucketPlace(s.m, b)] == if b <= s.m.maxbucket then Bucket(b) else Zero
  }

  ghost predicate OverflowPlaced(s: Index)
    requires MetaOk(s.m)
  {
    forall bit: nat | bit < s.m.spares[s.m.ovflpoint] ::
      OverflowPlace(s.m, bit) < |s.file| && s.file[OverflowPlace(s.m, bit)] == Overflow(bit)
  }

  /** Blocks in use stay what they are. */
  predicate Stable(before: seq<Block>, after: seq<Block>) {
    |before| <= |after| && forall i | 0 <= i < |before| && before[i] != Zero :: after[i] == before[i]
  }

  // ---------------------------------------------------------------- placement

  /** Buckets lie in the order of their numbers. */
  lemma PlaceIncreasing(m: Meta, b: nat, b': nat)
    requires MetaOk(m) && b < b' < 0x8000_0000 && b' < Pow2(m.ovflpoint)
    ensures BucketPlace(m, b) < BucketPlace(m, b')
  {
    hide Pow2, CeilLog2, MasksOk;
    BucketLevel(b);
    BucketLevel(b');
    LevelMonotone(b + 1, b' + 1);
    LevelBound(b' + 1, m.ovflpoint);
  }

  lemma LevelMonotone(x: nat, y: nat)
    requires x <= y
    ensures CeilLog2(x) <= CeilLog2(y)
  {
    hide Pow2, CeilLog2;
    var i, j := CeilLog2(x), CeilLog2(y);
    if j < i { Pow2Monotone(j, i - 1); }
  }

  lemma LevelBound(x: nat, k: nat)
    requires x <= Pow2(k)
    ensures CeilLog2(x) <= k
  {
    hide Pow2, CeilLog2;
    var i := CeilLog2(x);
    if k < i { Pow2Monotone(k, i - 1); }
  }

  lemma FitsLevel(m: Meta)
    requires MetaOk(m)
    ensures m.maxbucket < Pow2(m.ovflpoint) <= 0x8000_0000
  {
    hide CeilLog2, MasksOk;
    Pow2Monotone(m.ovflpoint, 31);
    Pow2Constants();
  }

  /** SplitPoint looks at the counts below the last split point only. */
  lemma {:induction false} SplitSame(m: Meta, m': Meta, n: nat, i: nat)
    requires |m.spares| == |m'.spares| == HASH_MAX_SPLITPOINTS && m.ovflpoint < HASH_MAX_SPLITPOINTS
    requires m'.ovflpoint == m.ovflpoint
             || (m'.ovflpoint == m.ovflpoint + 1 < HASH_MAX_SPLITPOINTS && n <= m'.spares[m.ovflpoint])
    requires forall j :: 0 <= j < m.ovflpoint ==> m'.spares[j] == m.spares[j]
    requires i <= m.ovflpoint
    ensures SplitPoint(m', n, i) == SplitPoint(m, n, i)
    decreases m.ovflpoint - i
  {
    if i < m.ovflpoint && n > m.spares[i] {
      SplitSame(m, m', n, i + 1);
    }
  }

  /** The next overflow page comes at the end of the file. */
  lemma NextOverflowIsAtEnd(s: Index)
    requires Valid(s)
    ensures BitnoToBlkno(s.m, s.m.spares[s.m.ovflpoint]) == |s.file|
  {
    hide Pow2, CeilLog2, MasksOk, BucketsPlaced, OverflowPlaced, Labelled;
    var m := s.m;
    var n := m.spares[m.ovflpoint] + 1;
    assert Wrap(n) == n;
    var r := SplitPoint(m, n, 1);
    assert r >= m.ovflpoint;
  }

  /** And the first bucket of the next batch too. */
  lemma NextBatchIsAtEnd(s: Index)
    requires Valid(s) && s.m.maxbucket < MAX_BUCKET && CeilLog2(s.m.maxbucket + 2) > s.m.ovflpoint
    ensures s.m.maxbucket + 1 == Pow2(s.m.ovflpoint) && CeilLog2(s.m.maxbucket + 2) == s.m.ovflpoint + 1
    ensures BucketToBlkno(s.m, s.m.maxbucket + 1) == |s.file|
  {
    hide CeilLog2, MasksOk, BucketsPlaced, OverflowPlaced, Labelled, SplitPoint;
    var m := s.m;
    var b := m.maxbucket + 1;
    if b < Pow2(m.ovflpoint) { LevelBound(b + 1, m.ovflpoint); }
    Pow2Monotone(m.ovflpoint, m.ovflpoint + 1);
    CeilLog2Unique(b + 1, m.ovflpoint + 1);
  }

  lemma PlaceFits(s: Index, b: nat)
    requires Valid(s) && b < Pow2(s.m.ovflpoint) && b < 0x8000_0000
    ensures BucketPlace(s.m, b) < |s.file| && BucketToBlkno(s.m, b) == BucketPlace(s.m, b)
  {
    hide Pow2, CeilLog2, MasksOk, OverflowPlaced, Labelled;
    BucketLevel(b);
  }

  // ---------------------------------------------------------------- overflow pages

  lemma AddOverflowMeta(s: Index)
    requires Valid(s) && AddOverflow(s).Some?
    ensures var s' := AddOverflow(s).value;
            && |s.file| < INVALID_BLOCK
            && s' == Index(s.m.(spares := s.m.spares[s.m.ovflpoint := s.m.spares[s.m.ovflpoint] + 1]),
                           s.file + [Overflow(s.m.spares[s.m.ovflpoint])])
            && MetaOk(s'.m)
  {
    hide Pow2, CeilLog2, MasksOk, BucketsPlaced, OverflowPlaced, Labelled;
    NextOverflowIsAtEnd(s);
    var k: nat :| MasksOk(s.m, k);
    var m' := AddOverflow(s).value.m;
    assert MasksOk(m', k) by { MasksSame(s.m, m', k); }
  }

  lemma NextOverflowPlace(s: Index)
    requires Valid(s)
    ensures OverflowPlace(s.m, s.m.spares[s.m.ovflpoint]) == |s.file|
  {
    hide Pow2, CeilLog2, MasksOk, BucketsPlaced, OverflowPlaced, Labelled;
    var r := SplitPoint(s.m, s.m.spares[s.m.ovflpoint] + 1, 1);
    assert r >= s.m.ovflpoint;
  }

  lemma MasksSame(m: Meta, m': Meta, k: nat)
    requires MasksOk(m, k) && m'.lowmask == m.lowmask && m'.highmask == m.highmask
    requires m'.maxbucket == m.maxbucket || m.maxbucket <= m'.maxbucket <= m.highmask
    ensures MasksOk(m', k)
  {
  }

  /** It fails exactly when the file has reached its greatest size. */
  lemma AddOverflowFails(s: Index)
    requires Valid(s)
    ensures AddOverflow(s) == None <==> |s.file| == INVALID_BLOCK
  {
    hide Pow2, CeilLog2, MasksOk, BucketsPlaced, OverflowPlaced, Labelled, BitnoToBlkno;
    NextOverflowIsAtEnd(s);
  }

  lemma AddOverflowKeeps(s: Index)
    requires Valid(s) && AddOverflow(s).Some?
    ensures Valid(AddOverflow(s).value) && Stable(s.file, AddOverflow(s).value.file)
  {
    hide CeilLog2, MetaOk, AddOverflow;
    FacetsOk(s.m);
    AddOverflowMeta(s);
    var s' := AddOverflow(s).value;
    var m, m' := s.m, s'.m;
    forall b: nat | b < Pow2(m'.ovflpoint) && b < 0x8000_0000
      ensures BucketPlace(m', b) < |s'.file|
              && s'.file[BucketPlace(m', b)] == if b <= m'.maxbucket then Bucket(b) else Zero
    {
      SamePlace(m, m', b);
    }
    forall bit: nat | bit < m'.spares[m'.ovflpoint]
      ensures OverflowPlace(m', bit) < |s'.file| && s'.file[OverflowPlace(m', bit)] == Overflow(bit)
    {
      SplitSame(m, m', bit + 1, 1);
      assert OverflowPlace(m', bit) == OverflowPlace(m, bit);
      if bit == m.spares[m.ovflpoint] {
        NextOverflowPlace(s);
        assert OverflowPlace(m, bit) == |s.file|;
      } else {
        assert bit < m.spares[m.ovflpoint];
        assert OverflowPlace(m, bit) < |s.file|;
      }
    }
    forall i | 0 <= i < |s'.file| ensures LabelOk(m', i, s'.file[i]) {
      if i < |s.file| {
        assert LabelOk(m, i, s.file[i]);
        LabelKept(m, m', i, s.file[i]);
      }
    }
  }

  lemma LabelKept(m: Meta, m': Meta, i: nat, block: Block)
    requires MetaOk(m) && MetaOk(m') && LabelOk(m, i, block) && m.maxbucket <= m'.maxbucket
    requires m'.ovflpoint == m.ovflpoint || m'.ovflpoint == m.ovflpoint + 1
    requires forall j :: 0 <= j < m.ovflpoint ==> m'.spares[j] == m.spares[j]
    requires m.spares[m.ovflpoint] <= m'.spares[m'.ovflpoint]
    requires m'.ovflpoint != m.ovflpoint ==> m'.spares[m.ovflpoint] == m.spares[m.ovflpoint]
    ensures LabelOk(m', i, block)
  {
    hide CeilLog2, MasksOk, Pow2, BucketPlace, OverflowPlace;
    match block
    case Bucket(b) =>
      FitsLevel(m);
      SamePlace(m, m', b);
    case Overflow(bit) =>
      SameOverflowPlace(m, m', bit);
    case _ =>
  }

  lemma SameOverflowPlace(m: Meta, m': Meta, bit: nat)
    requires |m.spares| == |m'.spares| == HASH_MAX_SPLITPOINTS && 1 <= m.ovflpoint < HASH_MAX_SPLITPOINTS
    requires m'.ovflpoint == m.ovflpoint
             || (m'.ovflpoint == m.ovflpoint + 1 < HASH_MAX_SPLITPOINTS && bit < m'.spares[m.ovflpoint])
    requires forall j :: 0 <= j < m.ovflpoint ==> m'.spares[j] == m.spares[j]
    ensures OverflowPlace(m', bit) == OverflowPlace(m, bit)
  {
    hide Pow2;
    SplitSame(m, m', bit + 1, 1);
  }

  lemma FacetsOk(m: Meta)
    requires MetaOk(m)
    ensures |m.spares| == HASH_MAX_SPLITPOINTS && 1 <= m.ovflpoint <= 31 && m.maxbucket <= MAX_BUCKET
  {
  }

  /** A bucket's place depends on the counts below its level only. */
  lemma SamePlace(m: Meta, m': Meta, b: nat)
    requires |m.spares| == |m'.spares| == HASH_MAX_SPLITPOINTS && b < 0x8000_0000 && b < Pow2(m.ovflpoint)
    requires forall j :: 0 <= j < m.ovflpoint && j < HASH_MAX_SPLITPOINTS ==> m'.spares[j] == m.spares[j]
    ensures BucketPlace(m', b) == BucketPlace(m, b)
  {
    hide Pow2, CeilLog2;
    BucketLevel(b);
    LevelBound(b + 1, m.ovflpoint);
  }

  // ---------------------------------------------------------------- splits

  lemma NewMasks(m: Meta, k: nat)
    requires MasksOk(m, k) && m.maxbucket == m.highmask < 0x7FFF_FFFF
    ensures NewHighMask(m.maxbucket + 1, m.highmask) == Pow2(k + 2) - 1
  {
    hide Or;
    var p := Pow2(k + 1);
    QuotientUnique(p, p, 1, 0);
    OrAdd(p, p - 1, k + 1);
  }

  /** The metapage after a split. */
  function SplitMeta(m: Meta): Meta
    requires MetaOk(m) && m.maxbucket < MAX_BUCKET
  {
    var b := m.maxbucket + 1;
    BucketLevel(b);
    var level := CeilLog2(b + 1);
    var doubling := b > m.highmask;
    Meta(b, if doubling then NewHighMask(b, m.highmask) else m.highmask, if doubling then m.highmask else m.lowmask,
         if level > m.ovflpoint then level else m.ovflpoint,
         if level > m.ovflpoint then m.spares[level := m.spares[m.ovflpoint]] else m.spares)
  }

  lemma SplitKeepsMasks(m: Meta)
    requires MetaOk(m) && m.maxbucket < MAX_BUCKET
    ensures exists k :: MasksOk(SplitMeta(m), k)
  {
    hide CeilLog2, NewHighMask;
    var k: nat :| MasksOk(m, k);
    if m.maxbucket + 1 > m.highmask {
      NewMasks(m, k);
      assert MasksOk(SplitMeta(m), k + 1);
    } else {
      assert MasksOk(SplitMeta(m), k);
    }
  }

  lemma SplitKeepsMeta(m: Meta)
    requires MetaOk(m) && m.maxbucket < MAX_BUCKET
    ensures MetaOk(SplitMeta(m)) && SplitMeta(m).maxbucket == m.maxbucket + 1
    ensures SplitMeta(m).ovflpoint == m.ovflpoint || SplitMeta(m).ovflpoint == m.ovflpoint + 1
    ensures SplitMeta(m).ovflpoint == m.ovflpoint <==> m.maxbucket + 1 < Pow2(m.ovflpoint)
    ensures SplitMeta(m).ovflpoint != m.ovflpoint ==> m.maxbucket + 1 == Pow2(m.ovflpoint)
    ensures forall j :: 0 <= j <= m.ovflpoint ==> SplitMeta(m).spares[j] == m.spares[j]
    ensures SplitMeta(m).spares[SplitMeta(m).ovflpoint] == m.spares[m.ovflpoint]
  {
    hide CeilLog2, NewHighMask, MasksOk;
    var b := m.maxbucket + 1;
    SplitKeepsMasks(m);
    BucketLevel(b);
    LevelMonotone(b, b + 1);
    if b < Pow2(m.ovflpoint) {
      LevelBound(b + 1, m.ovflpoint);
    } else {
      Pow2Monotone(m.ovflpoint, m.ovflpoint + 1);
      CeilLog2Unique(b + 1, m.ovflpoint + 1);
    }
  }

  /** A split either takes a block of the current batch, or starts the next batch. */
  lemma ExpandForms(s: Index)
    requires Valid(s) && s.m.maxbucket < MAX_BUCKET
    ensures var m, b := s.m, s.m.maxbucket + 1;
            if b < Pow2(m.ovflpoint) then
              && BucketPlace(m, b) < |s.file|
              && Expand(s) == Some(Index(SplitMeta(m), s.file[BucketPlace(m, b) := Bucket(b)]))
            else
              Expand(s) == if |s.file| + b > INVALID_BLOCK then None
                           else Some(Index(SplitMeta(m), s.file + [Bucket(b)] + seq(b - 1, _ => Zero)))
  {
    hide CeilLog2, MasksOk, NewHighMask, OverflowPlaced, BucketsPlaced, Labelled, BucketToBlkno;
    var m, b := s.m, s.m.maxbucket + 1;
    SplitKeepsMeta(m);
    if b < Pow2(m.ovflpoint) {
      PlaceFits(s, b);
    } else {
      NextBatchIsAtEnd(s);
      AllocAtEnd(s.file, b);
    }
  }

  /** The block of the new bucket is within the file, once that has been extended. */
  lemma SplitBlockExists(s: Index)
    requires Valid(s) && s.m.maxbucket < MAX_BUCKET
    ensures CeilLog2(s.m.maxbucket + 2) <= 31
    ensures var b, blkno := s.m.maxbucket + 1, BucketToBlkno(s.m, s.m.maxbucket + 1);
            var extended := if CeilLog2(b + 1) > s.m.ovflpoint then AllocBuckets(s.file, blkno, b) else Some(s.file);
            if extended.None? then Expand(s) == None
            else
              var file := Put(extended.value, blkno, Bucket(b));
              file.Some? && Expand(s) == Some(Index(SplitMeta(s.m), file.value))
  {
    hide Valid, MasksOk, NewHighMask, BucketToBlkno, CeilLog2, Pow2, AllocBuckets, Put;
    BucketLevel(s.m.maxbucket + 1);
    NewBlock(s);
  }

  lemma NewBlock(s: Index)
    requires Valid(s) && s.m.maxbucket < MAX_BUCKET
    ensures |s.m.spares| == HASH_MAX_SPLITPOINTS && s.m.ovflpoint < HASH_MAX_SPLITPOINTS
            && CeilLog2(s.m.maxbucket + 2) <= 31
    ensures var b, blkno := s.m.maxbucket + 1, BucketToBlkno(s.m, s.m.maxbucket + 1);
            var extended := if CeilLog2(b + 1) > s.m.ovflpoint then AllocBuckets(s.file, blkno, b) else Some(s.file);
            extended.Some? ==> Put(extended.value, blkno, Bucket(b)).Some?
  {
    hide MasksOk, NewHighMask, OverflowPlaced, BucketsPlaced, Labelled, BucketToBlkno, CeilLog2, Pow2;
    var m, b := s.m, s.m.maxbucket + 1;
    BucketLevel(b);
    if CeilLog2(b + 1) > m.ovflpoint {
      NextBatchIsAtEnd(s);
      AllocAtEnd(s.file, b);
    } else {
      Pow2Monotone(CeilLog2(b + 1), m.ovflpoint);
      PlaceFits(s, b);
    }
  }

  lemma AllocAtEnd(file: seq<Block>, n: uint32)
    requires 0 < |file| <= INVALID_BLOCK && n > 0
    ensures var r := AllocBuckets(file, |file|, n);
            && (r == None <==> |file| + n > INVALID_BLOCK)
            && (r.Some? ==> r.value == file + seq(n, _ => Zero)
                            && Put(r.value, |file|, Bucket(n)) == Some(file + [Bucket(n)] + seq(n - 1, _ => Zero)))
  {
    hide Wrap;
    if |file| + n <= INVALID_BLOCK {
      var r := file + seq(n, _ => Zero);
      assert r[|file| := Bucket(n)] == file + [Bucket(n)] + seq(n - 1, _ => Zero);
    }
  }

  /** A split fails exactly at the greatest bucket number, or when a new batch is due
      and does not fit below the greatest block number. */
  lemma ExpandFails(s: Index)
    requires Valid(s)
    ensures Expand(s) == None <==>
              || s.m.maxbucket >= 0x7FFF_FFFE
              || (s.m.maxbucket + 1 == Pow2(s.m.ovflpoint) && |s.file| + Pow2(s.m.ovflpoint) > INVALID_BLOCK)
  {
    hide CeilLog2, MasksOk, NewHighMask, OverflowPlaced, BucketsPlaced, Labelled, BucketToBlkno;
    if s.m.maxbucket < MAX_BUCKET {
      FitsLevel(s.m);
      ExpandForms(s);
    }
  }

  lemma ExpandKeeps(s: Index)
    requires Valid(s) && Expand(s).Some?
    ensures Valid(Expand(s).value) && Stable(s.file, Expand(s).value.file)
  {
    hide CeilLog2, MasksOk, NewHighMask, BucketsPlaced, OverflowPlaced, Labelled, Expand, SplitMeta;
    ExpandFails(s);
    ExpandForms(s);
    SplitKeepsMeta(s.m);
    var s' := Expand(s).value;
    if s.m.maxbucket + 1 < Pow2(s.m.ovflpoint) {
      SplitWithinBatch(s, s');
    } else {
      SplitNewBatch(s, s');
    }
  }

  lemma OverflowKept(s: Index, s': Index)
    requires MetaOk(s.m) && MetaOk(s'.m) && OverflowPlaced(s) && Stable(s.file, s'.file)
    requires s'.m.ovflpoint == s.m.ovflpoint || s'.m.ovflpoint == s.m.ovflpoint + 1
    requires forall j :: 0 <= j <= s.m.ovflpoint ==> s'.m.spares[j] == s.m.spares[j]
    requires s'.m.spares[s'.m.ovflpoint] == s.m.spares[s.m.ovflpoint]
    ensures OverflowPlaced(s')
  {
    hide CeilLog2, MasksOk, Pow2;
    var m, m' := s.m, s'.m;
    forall bit: nat | bit < m'.spares[m'.ovflpoint]
      ensures OverflowPlace(m', bit) < |s'.file| && s'.file[OverflowPlace(m', bit)] == Overflow(bit)
    {
      SameOverflowPlace(m, m', bit);
      assert OverflowPlace(m, bit) < |s.file|;
    }
  }

  lemma LabelsKept(s: Index, s': Index)
    requires MetaOk(s.m) && MetaOk(s'.m) && Labelled(s) && s.m.maxbucket <= s'.m.maxbucket
    requires s'.m.ovflpoint == s.m.ovflpoint || s'.m.ovflpoint == s.m.ovflpoint + 1
    requires forall j :: 0 <= j <= s.m.ovflpoint ==> s'.m.spares[j] == s.m.spares[j]
    requires s'.m.spares[s'.m.ovflpoint] == s.m.spares[s.m.ovflpoint]
    requires forall i | 0 <= i < |s'.file| && !(i < |s.file| && s'.file[i] == s.file[i]) :: LabelOk(s'.m, i, s'.file[i])
    ensures Labelled(s')
  {
    hide LabelOk, MasksOk, CeilLog2;
    forall i | 0 <= i < |s'.file| ensures LabelOk(s'.m, i, s'.file[i]) {
      if i < |s.file| && s'.file[i] == s.file[i] {
        LabelKept(s.m, s'.m, i, s.file[i]);
      }
    }
  }

  lemma SplitWithinBatch(s: Index, s': Index)
    requires Valid(s) && MetaOk(s'.m) && s'.m.maxbucket == s.m.maxbucket + 1 < Pow2(s.m.ovflpoint)
    requires s'.m.ovflpoint == s.m.ovflpoint && forall j :: 0 <= j <= s.m.ovflpoint ==> s'.m.spares[j] == s.m.spares[j]
    requires BucketPlace(s.m, s'.m.maxbucket) < |s.file|
    requires s'.file == s.file[BucketPlace(s.m, s'.m.maxbucket) := Bucket(s'.m.maxbucket)]
    ensures Valid(s') && Stable(s.file, s'.file)
  {
    hide CeilLog2, MasksOk, MetaOk, SplitPoint, OverflowPlaced, BucketPlace;
    FacetsOk(s.m);
    FacetsOk(s'.m);
    var m, m', b := s.m, s'.m, s'.m.maxbucket;
    assert s.file[BucketPlace(m, b)] == Zero;
    forall c: nat | c < Pow2(m'.ovflpoint) && c < 0x8000_0000
      ensures BucketPlace(m', c) < |s'.file|
              && s'.file[BucketPlace(m', c)] == if c <= m'.maxbucket then Bucket(c) else Zero
    {
      SamePlace(m, m', c);
      if c < b {
        PlaceIncreasing(m, c, b);
      } else if b < c {
        PlaceIncreasing(m, b, c);
      }
    }
    OverflowKept(s, s');
    LabelsKept(s, s');
  }

  lemma SplitNewBatch(s: Index, s': Index)
    requires Valid(s) && MetaOk(s'.m) && s'.m.maxbucket == s.m.maxbucket + 1 == Pow2(s.m.ovflpoint)
    requires s'.m.ovflpoint == s.m.ovflpoint + 1
    requires forall j :: 0 <= j <= s.m.ovflpoint ==> s'.m.spares[j] == s.m.spares[j]
    requires s'.m.spares[s'.m.ovflpoint] == s.m.spares[s.m.ovflpoint]
    requires |s.file| + s'.m.maxbucket <= INVALID_BLOCK
    requires s'.file == s.file + [Bucket(s'.m.maxbucket)] + seq(s'.m.maxbucket - 1, _ => Zero)
    ensures Valid(s') && Stable(s.file, s'.file)
  {
    hide CeilLog2, MasksOk, MetaOk, SplitPoint, OverflowPlaced, BucketPlace;
    FacetsOk(s.m);
    FacetsOk(s'.m);
    var m, m', b := s.m, s'.m, s'.m.maxbucket;
    forall c: nat | c < Pow2(m'.ovflpoint) && c < 0x8000_0000
      ensures BucketPlace(m', c) < |s'.file|
              && s'.file[BucketPlace(m', c)] == if c <= m'.maxbucket then Bucket(c) else Zero
    {
      if c < b {
        SamePlace(m, m', c);
      } else {
        BatchPlace(m', c);
      }
    }
    OverflowKept(s, s');
    LabelsKept(s, s');
  }

  /** The buckets of the last batch. */
  lemma BatchPlace(m: Meta, c: nat)
    requires |m.spares| == HASH_MAX_SPLITPOINTS && 1 <= m.ovflpoint <= 31 && c < 0x8000_0000
    requires Pow2(m.ovflpoint - 1) <= c < Pow2(m.ovflpoint)
    ensures BucketPlace(m, c) == c + m.spares[m.ovflpoint - 1] + 1
  {
    hide CeilLog2;
    BucketLevel(c);
    CeilLog2Unique(c + 1, m.ovflpoint);
  }

  // ---------------------------------------------------------------- the initial index

  lemma InitialMetaOk(n: nat)
    requires 1 <= n <= 30
    ensures MetaOk(InitialMeta(n))
  {
    hide CeilLog2, MasksOk, SparesRise, InitialMeta;
    var m := InitialMeta(n);
    InitialMasks(n);
    InitialSpares(n);
    InitialSize(n);
  }

  lemma InitialSize(n: nat)
    requires 1 <= n <= 30
    ensures var m := InitialMeta(n);
            |m.spares| == 32 && m.ovflpoint == n && m.maxbucket <= MAX_BUCKET && CeilLog2(m.maxbucket + 1) == n
  {
    hide CeilLog2, Pow2;
    InitialLevel(n);
  }

  lemma InitialSpares(n: nat)
    requires 1 <= n <= 30
    ensures SparesRise(InitialMeta(n))
  {
    hide InitialMeta, Pow2;
  }

  lemma InitialLevel(n: nat)
    requires 1 <= n <= 30
    ensures CeilLog2(Pow2(n)) == n
  {
    hide CeilLog2, Pow2;
    Pow2Step(n);
    CeilLog2Unique(Pow2(n), n);
  }

  lemma InitialMasks(n: nat)
    requires 1 <= n <= 30
    ensures MasksOk(InitialMeta(n), n)
  {
    hide Pow2;
    Pow2Step(n);
  }

  lemma Pow2Step(n: nat)
    requires n >= 1
    ensures Pow2(n + 1) == 2 * Pow2(n) && Pow2(n) == 2 * Pow2(n - 1)
  {
  }

  lemma InitialPlaces(n: nat, b: nat)
    requires 1 <= n <= 30 && b < Pow2(n)
    ensures b < 0x8000_0000 && BucketPlace(InitialMeta(n), b) == b + 1
  {
    hide CeilLog2, Pow2;
    assert b < InitialBuckets(n);
    BucketLevel(b);
    LevelBound(b + 1, n);
  }

  lemma InitialIndexValid(n: nat)
    requires 1 <= n <= 30
    ensures Valid(InitialIndex(n)) && InitialIndex(n).m.maxbucket + 1 == Pow2(n)
  {
    hide SplitPoint, MetaOk, Pow2, BucketPlace;
    InitialMetaOk(n);
    var s := InitialIndex(n);
    forall b: nat | b < Pow2(n) ensures b < 0x8000_0000 && BucketPlace(s.m, b) == b + 1 {
      InitialPlaces(n, b);
    }
    NoSplitsYet(s.m, 1, 1);
  }

  lemma {:induction false} NoSplitsYet(m: Meta, n: nat, i: nat)
    requires |m.spares| == HASH_MAX_SPLITPOINTS && m.ovflpoint < HASH_MAX_SPLITPOINTS && i <= m.ovflpoint && n > 0
    requires forall j :: 0 <= j < m.ovflpoint ==> m.spares[j] == 0
    ensures SplitPoint(m, n, i) == m.ovflpoint
    decreases m.ovflpoint - i
  {
    if i < m.ovflpoint { NoSplitsYet(m, n, i + 1); }
  }

  // ---------------------------------------------------------------- runs

  datatype Step = GetOverflowPage | Split

  /** One operation; one that fails leaves the index as it was. */
  function Do(s: Index, step: Step): Index
    requires |s.m.spares| == HASH_MAX_SPLITPOINTS && s.m.ovflpoint < HASH_MAX_SPLITPOINTS
  {
    var r := match step case GetOverflowPage => AddOverflow(s) case Split => Expand(s);
    if r.Some? then r.value else s
  }

  lemma DoKeeps(s: Index, step: Step)
    requires Valid(s)
    ensures Valid(Do(s, step)) && Stable(s.file, Do(s, step).file)
  {
    hide AddOverflow, Expand;
    if step.GetOverflowPage? && AddOverflow(s).Some? { AddOverflowKeeps(s); }
    if step.Split? && Expand(s).Some? { ExpandKeeps(s); }
  }

  lemma ValidFacets(s: Index)
    requires Valid(s)
    ensures |s.m.spares| == HASH_MAX_SPLITPOINTS && s.m.ovflpoint < HASH_MAX_SPLITPOINTS && s.m.maxbucket <= MAX_BUCKET
  {
  }

  ghost function Run(s: Index, steps: seq<Step>): (r: Index)
    requires Valid(s)
    ensures Valid(r)
    decreases |steps|
  {
    hide Valid, Do;
    ValidFacets(s);
    if steps == [] then s
    else
      DoKeeps(s, steps[0]);
      Run(Do(s, steps[0]), steps[1..])
  }

  lemma {:induction false} RunStable(s: Index, steps: seq<Step>)
    requires Valid(s)
    ensures Stable(s.file, Run(s, steps).file)
    ensures s.m.maxbucket <= Run(s, steps).m.maxbucket
    decreases |steps|
  {
    hide Valid, Do;
    if steps != [] {
      ValidFacets(s);
      DoKeeps(s, steps[0]);
      DoGrows(s, steps[0]);
      RunStable(Do(s, steps[0]), steps[1..]);
    }
  }

  lemma DoGrows(s: Index, step: Step)
    requires Valid(s)
    ensures s.m.maxbucket <= Do(s, step).m.maxbucket
  {
    hide Put, AllocBuckets, CeilLog2, SplitPoint, NewHighMask;
  }

  /** In every index, the macro yields the block that the bucket was put in. */
  lemma MacroFindsBucket(s: Index, b: nat)
    requires Valid(s) && b <= s.m.maxbucket
    ensures var blkno := BucketToBlkno(s.m, b);
            && 0 < blkno < |s.file| && s.file[blkno] == Bucket(b)
            && forall i | 0 <= i < |s.file| && s.file[i] == Bucket(b) :: i == blkno
  {
    hide Pow2, CeilLog2, SplitPoint, MasksOk, BucketToBlkno;
    FitsLevel(s.m);
    PlaceFits(s, b);
    forall i | 0 <= i < |s.file| && s.file[i] == Bucket(b) ensures i == BucketToBlkno(s.m, b) {
      assert LabelOk(s.m, i, s.file[i]);
    }
  }

  /** Whatever happens to the index afterwards, the macro yields the same block for the
      same bucket, and the block is still that bucket's. */
  lemma BucketsNeverMove(s: Index, steps: seq<Step>, b: nat)
    requires Valid(s) && b <= s.m.maxbucket
    ensures var s' := Run(s, steps);
            && b <= s'.m.maxbucket && BucketToBlkno(s'.m, b) == BucketToBlkno(s.m, b) < |s'.file|
            && s'.file[BucketToBlkno(s'.m, b)] == Bucket(b)
  {
    hide Valid, BucketToBlkno, Run;
    RunStable(s, steps);
    ValidFacets(s);
    ValidFacets(Run(s, steps));
    MacroFindsBucket(s, b);
    MacroFindsBucket(Run(s, steps), b);
  }

  lemma BlocksIncrease(s: Index, b: nat, b': nat)
    requires Valid(s) && b < b' <= s.m.maxbucket
    ensures BucketToBlkno(s.m, b) < BucketToBlkno(s.m, b')
  {
    hide Pow2, CeilLog2, SplitPoint, MasksOk, BucketToBlkno, BucketsPlaced, OverflowPlaced, Labelled;
    FitsLevel(s.m);
    PlaceFits(s, b);
    PlaceFits(s, b');
    PlaceIncreasing(s.m, b, b');
  }

  /** Between the last bucket below a power of two and the bucket at it there are exactly
      the overflow pages that were allocated at that split point. */
  lemma GapBeforeBatch(s: Index, k: nat, t: nat)
    requires Valid(s) && 1 <= k < s.m.ovflpoint && Pow2(k) <= s.m.maxbucket
    ensures var first, last := BucketToBlkno(s.m, Pow2(k)), BucketToBlkno(s.m, Pow2(k) - 1);
            var gap := s.m.spares[k] - s.m.spares[k - 1];
            && first == last + 1 + gap
            && (t < gap ==> last + 1 + t < |s.file| && s.file[last + 1 + t] == Overflow(s.m.spares[k - 1] + t))
  {
    hide CeilLog2, MasksOk, BucketToBlkno, Labelled, SplitPoint, Pow2, BucketsPlaced, OverflowPlaced;
    FitsLevel(s.m);
    Pow2Monotone(k, k + 1);
    Pow2Monotone(k - 1, k);
    PlaceFits(s, Pow2(k));
    PlaceFits(s, Pow2(k) - 1);
    CeilLog2Unique(Pow2(k) + 1, k + 1);
    CeilLog2Unique(Pow2(k), k);
    if t < s.m.spares[k] - s.m.spares[k - 1] {
      OverflowOfSplit(s, s.m.spares[k - 1] + t, k);
    }
  }

  lemma OverflowOfSplit(s: Index, bit: nat, k: nat)
    requires Valid(s) && 1 <= k <= s.m.ovflpoint && s.m.spares[k - 1] <= bit < s.m.spares[k]
    ensures Pow2(k) + bit + 1 < |s.file| && s.file[Pow2(k) + bit + 1] == Overflow(bit)
  {
    hide CeilLog2, MasksOk, Labelled, Pow2, BucketsPlaced;
    SplitOfBit(s.m, bit, k);
    assert s.m.spares[k] <= s.m.spares[s.m.ovflpoint];
    assert OverflowPlace(s.m, bit) < |s.file|;
  }

  lemma SplitOfBit(m: Meta, bit: nat, k: nat)
    requires MetaOk(m) && 1 <= k <= m.ovflpoint && m.spares[k - 1] <= bit < m.spares[k]
    ensures SplitPoint(m, bit + 1, 1) == k
  {
    hide CeilLog2, MasksOk, Pow2;
    var r := SplitPoint(m, bit + 1, 1);
    assert !(r < k);
  }

  // ---------------------------------------------------------------- overflow bits

  /** Bit numbers and overflow blocks are translated into each other. */
  lemma BitsAndBlocks(s: Index, bit: uint32)
    requires Valid(s) && bit < s.m.spares[s.m.ovflpoint]
    ensures var blkno := BitnoToBlkno(s.m, bit);
            blkno < |s.file| && s.file[blkno] == Overflow(bit) && BlknoToBitno(s.m, blkno, 1) == Some(bit)
  {
    hide CeilLog2, MasksOk, Labelled, Pow2, BucketsPlaced;
    assert OverflowPlace(s.m, bit) < |s.file|;
    assert Wrap(bit + 1) == bit + 1;
    FindBit(s.m, bit, 1);
  }

  lemma {:induction false} FindBit(m: Meta, bit: uint32, i: nat)
    requires MetaOk(m) && bit < m.spares[m.ovflpoint] && 1 <= i <= SplitPoint(m, bit + 1, 1)
    requires OverflowPlace(m, bit) < 0x1_0000_0000
    ensures BlknoToBitno(m, OverflowPlace(m, bit), i) == Some(bit)
    decreases m.ovflpoint - i
  {
    hide CeilLog2, MasksOk;
    var r := SplitPoint(m, bit + 1, 1);
    Pow2Monotone(i, r);
    if i < r {
      assert m.spares[i] < bit + 1;
      FindBit(m, bit, i + 1);
    }
  }

  /** Only for overflow pages, though. Of the other blocks, in use or not yet, the check of
      blkno_to_bitno catches the metapage, and the block of a bucket exactly when it lies
      at or below the size of the bucket's batch; else the bit is that of another page. */
  lemma BucketBlockBit(s: Index, b: nat)
    requires Valid(s) && b < Pow2(s.m.ovflpoint) && b < 0x8000_0000
    ensures BlknoToBitno(s.m, 0, 1) == None
    ensures var blkno, r := BucketToBlkno(s.m, b), BlknoToBitno(s.m, BucketToBlkno(s.m, b), 1);
            && (r == None <==> blkno <= Pow2(CeilLog2(b + 1)))
            && (r.Some? ==> r.value < s.m.spares[s.m.ovflpoint] && BitnoToBlkno(s.m, r.value) != blkno)
  {
    hide CeilLog2, MasksOk, Labelled, Pow2, BucketsPlaced, OverflowPlaced, BucketToBlkno, SplitPoint, BitnoToBlkno;
    Pow2Monotone(0, 1);
    PlaceFits(s, b);
    LevelBound(b + 1, s.m.ovflpoint);
    if b == 0 {
      CeilLog2Unique(1, 0);
    } else {
      BucketLevel(b);
      BucketBit(s.m, b, 1);
    }
    var r := BlknoToBitno(s.m, BucketToBlkno(s.m, b), 1);
    if r.Some? { OtherBlock(s, b, r.value); }
  }

  lemma OtherBlock(s: Index, b: nat, bit: uint32)
    requires Valid(s) && b < Pow2(s.m.ovflpoint) && b < 0x8000_0000 && bit < s.m.spares[s.m.ovflpoint]
    ensures BitnoToBlkno(s.m, bit) != BucketToBlkno(s.m, b)
  {
    hide CeilLog2, MasksOk, Labelled, Pow2, BucketToBlkno, SplitPoint, BitnoToBlkno, OverflowPlaced;
    PlaceFits(s, b);
    BitsAndBlocks(s, bit);
  }

  lemma {:induction false} BucketBit(m: Meta, b: nat, i: nat)
    requires MetaOk(m) && 0 < b < 0x8000_0000 && BucketPlace(m, b) < 0x1_0000_0000
    requires 1 <= i <= CeilLog2(b + 1) <= m.ovflpoint
    ensures var r := BlknoToBitno(m, BucketPlace(m, b), i);
            && (r == None <==> BucketPlace(m, b) <= Pow2(CeilLog2(b + 1)))
            && (r.Some? ==> r.value < m.spares[m.ovflpoint])
    decreases m.ovflpoint - i
  {
    hide CeilLog2, MasksOk, Pow2;
    var k := CeilLog2(b + 1);
    BucketLevel(b);
    Pow2Monotone(i, k);
    if i < k {
      Pow2Monotone(i, k - 1);
      assert m.spares[i] <= m.spares[k - 1];
      BucketBit(m, b, i + 1);
    } else {
      assert m.spares[k - 1] <= m.spares[k] <= m.spares[m.ovflpoint];
    }
  }

  function Counts(one: uint32, two: uint32): seq<uint32> {
    seq(HASH_MAX_SPLITPOINTS, i => if i == 1 then one else if i == 2 then two else 0)
  }

  const ONE_MORE_PAGE := Index(Meta(1, 3, 1, 1, Counts(2, 0)),
                               [MetaBlock, Bucket(0), Bucket(1), Overflow(0), Overflow(1)])
  const ONE_SPLIT := Index(Meta(2, 3, 1, 2, Counts(2, 2)),
                           [MetaBlock, Bucket(0), Bucket(1), Overflow(0), Overflow(1), Bucket(2), Zero])

  lemma OneMorePage()
    ensures Do(InitialIndex(1), GetOverflowPage) == ONE_MORE_PAGE
  {
    var s := InitialIndex(1);
    assert s.file == [MetaBlock, Bucket(0), Bucket(1), Overflow(0)];
    assert s.m.spares == Counts(1, 0);
    assert BitnoToBlkno(s.m, 1) == 4;
    assert Counts(1, 0)[1 := 2] == Counts(2, 0);
  }

  lemma OneSplit()
    ensures Do(ONE_MORE_PAGE, Split) == ONE_SPLIT
  {
    hide Or;
    var s := ONE_MORE_PAGE;
    CeilLog2Unique(3, 2);
    assert BucketToBlkno(s.m, 2) == 5;
    assert AllocBuckets(s.file, 5, 2).Some? && AllocBuckets(s.file, 5, 2).value == s.file + [Zero, Zero];
    assert (s.file + [Zero, Zero])[5 := Bucket(2)] == ONE_SPLIT.file;
    assert Counts(2, 0)[2 := 2] == Counts(2, 2);
  }

  lemma OneSplitTranslated()
    ensures BucketToBlkno(ONE_SPLIT.m, 2) == 5 && BlknoToBitno(ONE_SPLIT.m, 5, 1) == Some(0)
  {
    CeilLog2Unique(3, 2);
    assert BlknoToBitno(ONE_SPLIT.m, 5, 2) == Some(0);
  }

  /** That happens: with one more overflow page and one split after the start, the block
      of bucket 2 is taken for that of the first bitmap page. */
  lemma BucketTakenForOverflow()
    ensures Do(InitialIndex(1), GetOverflowPage) == ONE_MORE_PAGE && Do(ONE_MORE_PAGE, Split) == ONE_SPLIT
    ensures BucketToBlkno(ONE_SPLIT.m, 2) == 5 && ONE_SPLIT.file[5] == Bucket(2)
            && BlknoToBitno(ONE_SPLIT.m, 5, 1) == Some(0)
    ensures Valid(InitialIndex(1)) && Valid(ONE_SPLIT)
  {
    hide Valid, Do, BucketToBlkno, BlknoToBitno, InitialIndex;
    InitialIndexValid(1);
    OneMorePage();
    OneSplit();
    OneSplitTranslated();
    DoKeeps(InitialIndex(1), GetOverflowPage);
    DoKeeps(ONE_MORE_PAGE, Split);
  }

  // ---------------------------------------------------------------- hash keys

  /** _hash_hashkey2bucket. */
  function KeyToBucket(hashkey: uint32, m: Meta): int {
    var bucket := And(hashkey, m.highmask);
    if bucket > m.maxbucket then And(bucket, m.lowmask) else bucket
  }

  lemma KeyToBucketMod(hashkey: uint32, m: Meta, k: nat)
    requires MasksOk(m, k)
    ensures var x := hashkey % Pow2(k + 1);
            KeyToBucket(hashkey, m) == if x > m.maxbucket then x % Pow2(k) else x
    ensures 0 <= KeyToBucket(hashkey, m) <= m.maxbucket
  {
    hide And;
    AndMask(hashkey, k + 1);
    AndMask(hashkey % Pow2(k + 1), k);
  }

  lemma ModMod(x: nat, k: nat)
    ensures (x % Pow2(k + 1)) % Pow2(k) == x % Pow2(k)
  {
    var p, y := Pow2(k), x % Pow2(k + 1);
    assert x == (x / (2 * p)) * (2 * p) + y;
    QuotientUnique(x, p, 2 * (x / (2 * p)) + y / p, y % p);
  }

  /** Every key has a bucket in the table, and a split moves keys from the bucket that
      is split to the new bucket and nowhere else. */
  lemma SplitMovesKeys(m: Meta, hashkey: uint32)
    requires MetaOk(m) && m.maxbucket < MAX_BUCKET
    ensures 0 <= KeyToBucket(hashkey, m) <= m.maxbucket
    ensures var m' := SplitMeta(m);
            var oldBucket, newBucket := And(m'.maxbucket, m.lowmask), m'.maxbucket;
            && 0 <= oldBucket < newBucket
            && (if KeyToBucket(hashkey, m') == newBucket then KeyToBucket(hashkey, m) == oldBucket
                else KeyToBucket(hashkey, m') == KeyToBucket(hashkey, m))
  {
    hide CeilLog2, NewHighMask, And, KeyToBucket, Pow2;
    var k: nat :| MasksOk(m, k);
    var m', b, p := SplitMeta(m), m.maxbucket + 1, Pow2(k);
    assert Pow2(k + 1) == 2 * p && Pow2(k + 2) == 4 * p by { Pow2Step(k + 1); }
    AndMask(b, k);
    KeyToBucketMod(hashkey, m, k);
    var x := hashkey % (2 * p);
    HalfMod(x, p);
    if b > m.highmask {
      NewMasks(m, k);
      KeyToBucketMod(hashkey, m', k + 1);
      ModMod(hashkey, k + 1);
      HalfMod(hashkey % (4 * p), 2 * p);
      QuotientUnique(b, p, 2, 0);
    } else {
      KeyToBucketMod(hashkey, m', k);
      HalfMod(b, p);
    }
  }

  lemma HalfMod(x: nat, p: nat)
    requires x < 2 * p
    ensures x % p == if x < p then x else x - p
  {
    QuotientUnique(x, p, if x < p then 0 else 1, if x < p then x else x - p);
  }

  // ---------------------------------------------------------------- the metapage, in place

  /** The fields of HashMetaPageData that place blocks, and the file they describe. */
  class HashMeta {
    var maxbucket: uint32
    var highmask: uint32
    var lowmask: uint32
    var ovflpoint: uint32
    const spares: array<uint32>
    ghost var file: seq<Block>

    function Value(): Meta
      reads this, spares
    {
      Meta(maxbucket, highmask, lowmask, ovflpoint, spares[..])
    }

    ghost function State(): Index
      reads this, spares
    {
      Index(Value(), file)
    }

    /** _hash_metapinit. */
    constructor (n: uint32)
      requires 1 <= n <= 30
      ensures State() == InitialIndex(n) && Valid(State()) && fresh(spares)
    {
      hide Valid, InitialMeta, Pow2;
      InitialIndexValid(n);
      var buckets := InitialBuckets(n);
      maxbucket, lowmask := buckets - 1, buckets - 1;
      highmask := 2 * buckets - 1;
      ovflpoint := n;
      spares := new uint32[HASH_MAX_SPLITPOINTS](_ => 0);
      file := InitialIndex(n).file;
      new;
      spares[n] := 1;
      assert spares[..] == InitialMeta(n).spares;
    }

    /** The search of bitno_to_blkno. */
    method BlockOfBit(bit: uint32) returns (blkno: uint32)
      requires spares.Length == HASH_MAX_SPLITPOINTS && ovflpoint < HASH_MAX_SPLITPOINTS
      ensures blkno == BitnoToBlkno(Value(), bit)
    {
      var n, i: uint32 := Wrap(bit + 1), 1;
      while i < ovflpoint && n > spares[i]
        invariant 1 <= i && (i <= ovflpoint || i == 1)
        invariant SplitPoint(Value(), n, i) == SplitPoint(Value(), n, 1)
      {
        i := i + 1;
      }
      blkno := Wrap(Pow2(i) + n);
    }

    /** The search of blkno_to_bitno. */
    method BitOfBlock(blkno: uint32) returns (bit: Option<uint32>)
      requires spares.Length == HASH_MAX_SPLITPOINTS && ovflpoint < HASH_MAX_SPLITPOINTS
      ensures bit == BlknoToBitno(Value(), blkno, 1)
    {
      var i := 1;
      while i <= ovflpoint
        invariant 1 <= i && BlknoToBitno(Value(), blkno, i) == BlknoToBitno(Value(), blkno, 1)
        decreases ovflpoint + 1 - i
      {
        if blkno <= Pow2(i) {
          break;
        }
        var d := blkno - Pow2(i);
        if d <= spares[i] {
          return Some(d - 1);
        }
        i := i + 1;
      }
      return None;
    }

    /** The part of _hash_getovflpage that extends the index by one page. */
    method ExtendForOverflow() returns (blkno: Option<uint32>)
      requires Valid(State())
      modifies this, spares
      ensures Valid(State()) && Stable(old(file), file)
      ensures State() == Do(old(State()), GetOverflowPage)
      ensures if old(|file|) < INVALID_BLOCK
              then blkno == Some(old(|file|)) && file == old(file + [Overflow(spares[ovflpoint])])
              else blkno == None && file == old(file)
    {
      hide AddOverflow, BitnoToBlkno, BucketsPlaced, OverflowPlaced, Labelled, MetaOk;
      ghost var s := State();
      FacetsOk(s.m);
      NextOverflowIsAtEnd(s);
      DoKeeps(s, GetOverflowPage);
      AddOverflowFails(s);
      var b := BlockOfBit(spares[ovflpoint]);
      if b == INVALID_BLOCK {
        return None;
      }
      AddOverflowMeta(s);
      file := file + [Overflow(spares[ovflpoint])];
      spares[ovflpoint] := spares[ovflpoint] + 1;
      blkno := Some(b);
      assert spares[..] == s.m.spares[s.m.ovflpoint := s.m.spares[s.m.ovflpoint] + 1];
    }

    /** _hash_expandtable: the update of the metapage for one more bucket. */
    method ExpandTable() returns (ok: bool)
      requires Valid(State())
      modifies this, spares
      ensures Valid(State()) && Stable(old(file), file)
      ensures State() == Do(old(State()), Split)
      ensures ok <==> Expand(old(State())).Some?
      ensures maxbucket == old(maxbucket) + (if ok then 1 else 0)
    {
      hide BucketToBlkno, BucketsPlaced, OverflowPlaced, Labelled, MetaOk, Put, Expand, SplitMeta, CeilLog2;
      ghost var s := State();
      FacetsOk(s.m);
      DoKeeps(s, Split);
      if maxbucket >= MAX_BUCKET {
        ExpandFails(s);
        return false;
      }
      SplitBlockExists(s);
      var newBucket := maxbucket + 1;
      var start := BucketToBlkno(Value(), newBucket);
      var spareNdx := HashLog2(newBucket + 1);
      if spareNdx > ovflpoint {
        var last := Wrap(start + newBucket - 1);
        if last < start || last == INVALID_BLOCK {
          return false;
        }
        file := AllocBuckets(file, start, newBucket).value;
      }
      UpdateMapping(newBucket, spareNdx);
      file := Put(file, start, Bucket(newBucket)).value;
      ok := true;
    }

    /** The critical section of _hash_expandtable. */
    method UpdateMapping(newBucket: uint32, spareNdx: uint32)
      requires MetaOk(Value()) && maxbucket < MAX_BUCKET
      requires newBucket == maxbucket + 1 && spareNdx == CeilLog2(newBucket + 1) <= 31
      modifies `maxbucket, `lowmask, `highmask, `ovflpoint, spares
      ensures Value() == SplitMeta(old(Value())) && maxbucket == newBucket
    {
      hide CeilLog2, NewHighMask, SparesRise, MasksOk;
      maxbucket := newBucket;
      if newBucket > highmask {
        lowmask := highmask;
        highmask := NewHighMask(newBucket, lowmask);
      }
      if spareNdx > ovflpoint {
        spares[spareNdx] := spares[ovflpoint];
        ovflpoint := spareNdx;
      }
    }
  }
}
