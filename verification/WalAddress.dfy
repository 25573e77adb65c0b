/** WAL positions (xlogdefs.h, xlog_internal.h): a file number and an offset, in
    wrapping 32-bit arithmetic, against one linear byte address. The last segment
    of each 4 GB log file is left out, so the two do not simply concatenate. */
module WalAddress {
  import opened Bits

  const XLOG_BLCKSZ := 8192
  const XLOG_SEG_SIZE := 0x100_0000
  const XLOG_SEGS_PER_FILE := 255
  const XLOG_FILE_SIZE := 0xFF00_0000
  /** All bytes and all segments of the 2^32 files that a 32-bit number can name. */
  const LOG_SPACE := 0xFF00_0000_0000_0000
  const LOG_SEGMENTS := 0xFF_0000_0000

  /** The sizes are the ones that the macros compute. */
  lemma Sizes()
    ensures LOG_SPACE == XLOG_FILE_SIZE * 0x1_0000_0000 && LOG_SEGMENTS == XLOG_SEGS_PER_FILE * 0x1_0000_0000
    ensures XLOG_SEGS_PER_FILE == 0xFFFF_FFFF / XLOG_SEG_SIZE
    ensures XLOG_FILE_SIZE == XLOG_SEGS_PER_FILE * XLOG_SEG_SIZE
    ensures XLOG_SEG_SIZE % XLOG_BLCKSZ == 0
  {
  }

  datatype RecPtr = RecPtr(xlogid: uint32, xrecoff: uint32)

  function Linear(p: RecPtr): nat {
    0xFF00_0000 * p.xlogid + p.xrecoff
  }

  /** Pointers to a byte. The offset XLOG_FILE_SIZE is representable too: it is the
      end of a file, one past its last byte. */
  predicate Normal(p: RecPtr) {
    p.xrecoff < 0xFF00_0000
  }

  predicate NormalOrEnd(p: RecPtr) {
    p.xrecoff <= 0xFF00_0000
  }

  /** The pointer to a linear address; file numbers start over after 2^32 files. */
  function FromLinear(a: nat): (p: RecPtr)
    ensures Normal(p)
  {
    RecPtr(Wrap(a / 0xFF00_0000), a % 0xFF00_0000)
  }

  /** Linear addresses form a ring, of 2^32 files. */
  function PlusBytes(a: nat, n: nat): nat {
    if a + n < LOG_SPACE then a + n else a + n - LOG_SPACE
  }

  lemma LinearRoundTrip(p: RecPtr, a: nat)
    ensures Normal(p) ==> FromLinear(Linear(p)) == p
    ensures Linear(FromLinear(a)) == a % LOG_SPACE
  {
    if Normal(p) {
      QuotientUnique(Linear(p), 0xFF00_0000, p.xlogid, p.xrecoff);
    }
    var q := a / 0xFF00_0000;
    QuotientUnique(a, LOG_SPACE, q / 0x1_0000_0000,
                   0xFF00_0000 * (q % 0x1_0000_0000) + a % 0xFF00_0000);
  }

  // ---------------------------------------------------------------- comparison

  predicate ByteLT(a: RecPtr, b: RecPtr) {
    a.xlogid < b.xlogid || (a.xlogid == b.xlogid && a.xrecoff < b.xrecoff)
  }

  predicate ByteLE(a: RecPtr, b: RecPtr) {
    a.xlogid < b.xlogid || (a.xlogid == b.xlogid && a.xrecoff <= b.xrecoff)
  }

  predicate ByteEQ(a: RecPtr, b: RecPtr) {
    a.xlogid == b.xlogid && a.xrecoff == b.xrecoff
  }

  /** The comparisons are those of the linear addresses, except that the end of a
      file counts as before the start of the next, which is the same address. */
  lemma ComparisonIsLinear(a: RecPtr, b: RecPtr)
    requires NormalOrEnd(a) && NormalOrEnd(b)
    ensures ByteLT(a, b) <==> Linear(a) < Linear(b) || (Linear(a) == Linear(b) && a.xlogid < b.xlogid)
    ensures ByteLE(a, b) <==> Linear(a) < Linear(b) || (Linear(a) == Linear(b) && a.xlogid <= b.xlogid)
    ensures Normal(a) && Normal(b) ==> (ByteEQ(a, b) <==> Linear(a) == Linear(b))
  {
  }

  // ---------------------------------------------------------------- advancing

  /** XLByteAdvance. */
  function ByteAdvance(p: RecPtr, nbytes: uint32): RecPtr {
    if Wrap(p.xrecoff + nbytes) >= XLOG_FILE_SIZE
    then RecPtr(Wrap(p.xlogid + 1), Wrap(p.xrecoff + nbytes - XLOG_FILE_SIZE))
    else RecPtr(p.xlogid, Wrap(p.xrecoff + nbytes))
  }

  /** The macro adds `nbytes` to the linear address exactly when the 32-bit sum of
      offset and `nbytes` does not overflow. */
  lemma AdvanceExact(p: RecPtr, nbytes: uint32)
    requires Normal(p)
    ensures Linear(ByteAdvance(p, nbytes)) == PlusBytes(Linear(p), nbytes) <==> p.xrecoff + nbytes < 0x1_0000_0000
    ensures p.xrecoff + nbytes < 0x1_0000_0000 ==> Normal(ByteAdvance(p, nbytes))
  {
    hide Wrap;
  }

  /** In particular for every step of at most a segment; and such steps add up. */
  lemma AdvanceWithinSegment(p: RecPtr, m: uint32, n: uint32)
    requires Normal(p) && m + n <= XLOG_SEG_SIZE
    ensures Normal(ByteAdvance(p, m))
    ensures Linear(ByteAdvance(p, m)) == PlusBytes(Linear(p), m)
    ensures ByteAdvance(ByteAdvance(p, m), n) == ByteAdvance(p, m + n)
  {
    hide Wrap;
    AdvanceExact(p, m);
  }

  /** NextLogPage. */
  function NextLogPage(p: RecPtr): RecPtr {
    var off := if p.xrecoff % 8192 != 0 then Wrap(p.xrecoff + (8192 - p.xrecoff % 8192)) else p.xrecoff;
    if off >= XLOG_FILE_SIZE then RecPtr(Wrap(p.xlogid + 1), 0) else RecPtr(p.xlogid, off)
  }

  /** How far it is to the next page boundary. */
  function PageDistance(a: nat): nat {
    if a % 8192 == 0 then 0 else 8192 - a % 8192
  }

  lemma PageDistanceIsLeast(a: nat, n: nat)
    ensures (a + PageDistance(a)) % 8192 == 0
    ensures (a + n) % 8192 == 0 ==> PageDistance(a) <= n
  {
    var q := a / 8192;
    PageIsMultiple(q + 1);
    if (a + n) % 8192 == 0 {
      PagesApart(q, a % 8192, (a + n) / 8192);
    }
  }

  /** The nearest page boundary at or after the pointer, on the ring of all files; doing
      it again changes nothing. */
  lemma NextLogPageIsLeast(p: RecPtr, n: nat)
    requires NormalOrEnd(p)
    ensures var r := NextLogPage(p);
            && Normal(r) && Linear(r) % 8192 == 0 && NextLogPage(r) == r
            && Linear(r) == PlusBytes(Linear(p), PageDistance(Linear(p)))
            && ((Linear(p) + n) % 8192 == 0 ==> PageDistance(Linear(p)) <= n)
  {
    hide Wrap;
    var q, r := p.xrecoff / 8192, p.xrecoff % 8192;
    var base := 0x7_F800 * p.xlogid;
    QuotientUnique(Linear(p), 8192, base + q, r);
    PageDistanceIsLeast(Linear(p), n);
    PageIsMultiple(base + q + 1);
    PageIsMultiple(q + 1);
    assert p.xrecoff == 8192 * q + r && q <= 0x7_F800;
    assert NextLogPage(NextLogPage(p)) == NextLogPage(p);
  }

  lemma PagesApart(q: nat, r: nat, k: nat)
    requires r < 8192 && 8192 * q + r <= 8192 * k
    ensures 8192 * (if r == 0 then q else q + 1) <= 8192 * k
  {
  }

  lemma PageIsMultiple(k: nat)
    ensures (8192 * k) % 8192 == 0
  {
  }

  // ---------------------------------------------------------------- segments

  datatype LogSeg = LogSeg(logId: uint32, logSeg: uint32)

  function SegLinear(s: LogSeg): nat {
    255 * s.logId + s.logSeg
  }

  function NextLogSeg(s: LogSeg): LogSeg {
    if s.logSeg >= XLOG_SEGS_PER_FILE - 1 then LogSeg(Wrap(s.logId + 1), 0) else LogSeg(s.logId, s.logSeg + 1)
  }

  function PrevLogSeg(s: LogSeg): LogSeg {
    if s.logSeg != 0 then LogSeg(s.logId, s.logSeg - 1) else LogSeg(Wrap(s.logId - 1), XLOG_SEGS_PER_FILE - 1)
  }

  /** The two steps are +1 and -1 on the ring of all segments. */
  lemma NextLogSegIsLinear(s: LogSeg)
    requires s.logSeg < XLOG_SEGS_PER_FILE
    ensures NextLogSeg(s).logSeg < XLOG_SEGS_PER_FILE
    ensures SegLinear(NextLogSeg(s)) == if SegLinear(s) == LOG_SEGMENTS - 1 then 0 else SegLinear(s) + 1
  {
    hide Wrap;
    if s.logSeg < 254 {
      assert SegLinear(NextLogSeg(s)) == SegLinear(s) + 1;
    } else if s.logId == 0xFFFF_FFFF {
      assert NextLogSeg(s) == LogSeg(0, 0);
    } else {
      assert NextLogSeg(s) == LogSeg(s.logId + 1, 0);
    }
  }

  lemma PrevLogSegIsLinear(s: LogSeg)
    requires s.logSeg < XLOG_SEGS_PER_FILE
    ensures PrevLogSeg(s).logSeg < XLOG_SEGS_PER_FILE
    ensures SegLinear(PrevLogSeg(s)) == if SegLinear(s) == 0 then LOG_SEGMENTS - 1 else SegLinear(s) - 1
  {
    hide Wrap;
    if s.logSeg > 0 {
      assert SegLinear(PrevLogSeg(s)) == SegLinear(s) - 1;
    } else if s.logId == 0 {
      assert PrevLogSeg(s) == LogSeg(0xFFFF_FFFF, 254);
    } else {
      assert PrevLogSeg(s) == LogSeg(s.logId - 1, 254);
    }
  }

  /** And inverses of each other there. */
  lemma SegStepsInvert(s: LogSeg)
    requires s.logSeg < XLOG_SEGS_PER_FILE
    ensures PrevLogSeg(NextLogSeg(s)) == s
    ensures NextLogSeg(PrevLogSeg(s)) == s
  {
    hide Wrap;
  }

  function NextLogSegs(s: LogSeg, n: nat): LogSeg {
    if n == 0 then s else NextLogSeg(NextLogSegs(s, n - 1))
  }

  lemma {:induction false} NextLogSegsAdds(s: LogSeg, n: nat)
    requires s.logSeg < XLOG_SEGS_PER_FILE
    ensures NextLogSegs(s, n).logSeg < XLOG_SEGS_PER_FILE
    ensures SegLinear(NextLogSegs(s, n)) == (SegLinear(s) + n) % LOG_SEGMENTS
  {
    hide Wrap, NextLogSeg;
    if n == 0 {
      QuotientUnique(SegLinear(s), LOG_SEGMENTS, 0, SegLinear(s));
    } else {
      NextLogSegsAdds(s, n - 1);
      NextLogSegIsLinear(NextLogSegs(s, n - 1));
      ModSuccessor(SegLinear(s) + n - 1, LOG_SEGMENTS);
    }
  }

  /** XLByteToSeg and XLByteToPrevSeg. */
  function ByteToSeg(p: RecPtr): LogSeg {
    LogSeg(p.xlogid, p.xrecoff / XLOG_SEG_SIZE)
  }

  function ByteToPrevSeg(p: RecPtr): LogSeg {
    LogSeg(p.xlogid, Wrap(p.xrecoff - 1) / XLOG_SEG_SIZE)
  }

  predicate ByteInSeg(p: RecPtr, s: LogSeg) {
    p.xlogid == s.logId && p.xrecoff / XLOG_SEG_SIZE == s.logSeg
  }

  predicate ByteInPrevSeg(p: RecPtr, s: LogSeg) {
    p.xlogid == s.logId && Wrap(p.xrecoff - 1) / XLOG_SEG_SIZE == s.logSeg
  }

  /** Segment lookup is division of the linear address; the test agrees with it. */
  lemma ByteToSegIsDivision(p: RecPtr, s: LogSeg)
    requires Normal(p)
    ensures ByteToSeg(p).logSeg < XLOG_SEGS_PER_FILE
    ensures SegLinear(ByteToSeg(p)) == Linear(p) / 0x100_0000
    ensures ByteInSeg(p, s) <==> s == ByteToSeg(p)
    ensures ByteInPrevSeg(p, s) <==> s == ByteToPrevSeg(p)
  {
    QuotientUnique(Linear(p), 0x100_0000, 255 * p.xlogid + p.xrecoff / 0x100_0000, p.xrecoff % 0x100_0000);
  }

  /** The boundary form is the segment of the byte before, for exactly the pointers
      that a record can end at: those with a nonzero offset, the file end included. */
  lemma ByteToPrevSegIsDivision(p: RecPtr)
    requires NormalOrEnd(p) && Linear(p) > 0
    ensures SegLinear(ByteToPrevSeg(p)) == (Linear(p) - 1) / 0x100_0000 <==> p.xrecoff != 0
    ensures p.xrecoff != 0 && Normal(p) ==>
              (ByteToPrevSeg(p) != ByteToSeg(p) <==> p.xrecoff % 0x100_0000 == 0)
  {
    if p.xrecoff != 0 {
      var o := p.xrecoff - 1;
      QuotientUnique(Linear(p) - 1, 0x100_0000, 255 * p.xlogid + o / 0x100_0000, o % 0x100_0000);
    } else {
      QuotientUnique(Linear(p) - 1, 0x100_0000, 255 * p.xlogid - 1, 0xFF_FFFF);
    }
  }

  // ---------------------------------------------------------------- the macros, in place

  /** A record pointer that the statement macros update. */
  class Pointer {
    var xlogid: uint32
    var xrecoff: uint32

    constructor (p: RecPtr)
      ensures Value() == p
    {
      xlogid, xrecoff := p.xlogid, p.xrecoff;
    }

    function Value(): RecPtr
      reads this
    {
      RecPtr(xlogid, xrecoff)
    }

    /** XLByteAdvance: on the ring of all files, as far as the 32-bit sum does not overflow. */
    method Advance(nbytes: uint32)
      modifies this
      ensures Value() == ByteAdvance(old(Value()), nbytes)
      ensures old(Normal(Value())) ==>
                (Linear(Value()) == PlusBytes(old(Linear(Value())), nbytes) <==> old(xrecoff) + nbytes < 0x1_0000_0000)
      ensures old(Normal(Value())) && old(xrecoff) + nbytes < 0x1_0000_0000 ==> Normal(Value())
    {
      if Normal(Value()) { AdvanceExact(Value(), nbytes); }
      if Wrap(xrecoff + nbytes) >= XLOG_FILE_SIZE {
        xlogid := Wrap(xlogid + 1);
        xrecoff := Wrap(xrecoff + nbytes - XLOG_FILE_SIZE);
      } else {
        xrecoff := Wrap(xrecoff + nbytes);
      }
    }

    /** NextLogPage: to the nearest page boundary at or after the pointer. */
    method AlignToPage()
      modifies this
      ensures Value() == NextLogPage(old(Value()))
      ensures old(NormalOrEnd(Value())) ==>
                && Normal(Value()) && Linear(Value()) % 8192 == 0
                && Linear(Value()) == PlusBytes(old(Linear(Value())), PageDistance(old(Linear(Value()))))
    {
      if NormalOrEnd(Value()) { NextLogPageIsLeast(Value(), 0); }
      if xrecoff % XLOG_BLCKSZ != 0 {
        xrecoff := Wrap(xrecoff + (XLOG_BLCKSZ - xrecoff % XLOG_BLCKSZ));
      }
      if xrecoff >= XLOG_FILE_SIZE {
        xlogid := Wrap(xlogid + 1);
        xrecoff := 0;
      }
    }
  }
}
