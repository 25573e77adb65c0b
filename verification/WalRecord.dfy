/** What a WAL record is made of (xlog.c, xlog_internal.h): the caller's data, copies of
    whole pages without their unused middle, and a checksum over all of it, which the
    reader verifies before a record is replayed. */
module WalRecord {
  import opened Bits
  import opened Bytes
  import opened WalAddress
  import opened WalPages
  import opened Wrappers

  const SIZE_OF_BKP_BLOCK := 24
  const BLCKSZ := 8192
  const XLR_MAX_BKP_BLOCKS := 3

  /** The checksum of a sequence of bytes, COMP_CRC32 from INIT_CRC32 to FIN_CRC32. */
  type Crc = seq<Byte> -> uint32

  // ---------------------------------------------------------------- backup blocks

  /** A BkpBlock with the page that it is made for. */
  datatype Backup = Backup(spc: uint32, db: uint32, rel: uint32, fork: uint32, block: uint32,
                           holeOffset: nat, holeLength: nat, page: seq<Byte>)

  predicate ValidBackup(b: Backup) {
    |b.page| == BLCKSZ && b.holeOffset + b.holeLength <= BLCKSZ
  }

  function BackupFields(b: Backup): seq<(nat, nat)> {
    [(b.spc, 4), (b.db, 4), (b.rel, 4), (b.fork, 4), (b.block, 4), (b.holeOffset, 2), (b.holeLength, 2)]
  }

  /** The page without its hole. */
  function Stripped(page: seq<Byte>, off: nat, len: nat): seq<Byte>
    requires off + len <= |page|
  {
    page[..off] + page[off + len..]
  }

  function BackupBytes(order: ByteOrder, b: Backup): seq<Byte>
    requires ValidBackup(b)
  {
    Pack(order, BackupFields(b)) + Stripped(b.page, b.holeOffset, b.holeLength)
  }

  type Page = s: seq<Byte> | |s| == BLCKSZ witness Zeros(BLCKSZ)

  /** A page in a buffer, with its place in the database; `standard` if the caller has
      said that its header says what is in use. */
  datatype BufferPage = BufferPage(spc: uint32, db: uint32, rel: uint32, fork: uint32, block: uint32,
                                   page: Page, standard: bool)

  function PageLower(order: ByteOrder, page: Page): nat {
    Field(order, page, 12, 2)
  }

  function PageUpper(order: ByteOrder, page: Page): nat {
    Field(order, page, 14, 2)
  }

  /** The page is declared standard and its pd_lower and pd_upper make sense. */
  predicate HasHole(order: ByteOrder, b: BufferPage) {
    var lower, upper := PageLower(order, b.page), PageUpper(order, b.page);
    b.standard && lower >= 24 && upper > lower && upper <= BLCKSZ
  }

  /** The backup block that XLogCheckBuffer sets up: without what is between pd_lower and
      pd_upper, if these make sense. */
  function BackupOf(order: ByteOrder, b: BufferPage): (r: Backup)
    ensures ValidBackup(r) && r.page == b.page
  {
    var lower, upper := PageLower(order, b.page), PageUpper(order, b.page);
    if HasHole(order, b) then Backup(b.spc, b.db, b.rel, b.fork, b.block, lower, upper - lower, b.page)
    else Backup(b.spc, b.db, b.rel, b.fork, b.block, 0, 0, b.page)
  }

  function PageLSN(order: ByteOrder, page: Page): RecPtr {
    LoadBound(order, page[0..4]);
    LoadBound(order, page[4..8]);
    FieldWidths();
    RecPtr(Field(order, page, 0, 4), Field(order, page, 4, 4))
  }

  /** XLogCheckBuffer: pages that have not been changed since the redo point are backed up. */
  function CheckBuffer(order: ByteOrder, doPageWrites: bool, redo: RecPtr, b: BufferPage): (r: Option<Backup>)
    ensures r.Some? ==> ValidBackup(r.value)
  {
    if doPageWrites && ByteLE(PageLSN(order, b.page), redo) then Some(BackupOf(order, b)) else None
  }

  /** A page is backed up exactly when page writes are on and its LSN, which is the first
      thing on it, is not past the redo pointer. */
  lemma CheckBufferExactly(order: ByteOrder, doPageWrites: bool, redo: RecPtr, b: BufferPage, lsn: RecPtr)
    requires b.page[0..4] == Store(order, lsn.xlogid, 4) && b.page[4..8] == Store(order, lsn.xrecoff, 4)
    ensures PageLSN(order, b.page) == lsn
    ensures CheckBuffer(order, doPageWrites, redo, b).Some? <==>
            doPageWrites && (lsn.xlogid < redo.xlogid || (lsn.xlogid == redo.xlogid && lsn.xrecoff <= redo.xrecoff))
  {
    hide Load, Store, Pow256;
    FieldWidths();
    LoadStoreFits(order, lsn.xlogid, 4);
    LoadStoreFits(order, lsn.xrecoff, 4);
  }

  /** What is backed up: everything but the bytes from pd_lower to pd_upper, provided that
      the page is declared standard, that pd_lower is behind the page header, and that both
      are in order and within the page; otherwise the whole page. */
  lemma HoleExactly(order: ByteOrder, b: BufferPage, lower: nat, upper: nat)
    requires lower < 0x1_0000 && upper < 0x1_0000
    requires b.page[12..14] == Store(order, lower, 2) && b.page[14..16] == Store(order, upper, 2)
    ensures var r, hole := BackupOf(order, b), b.standard && 24 <= lower < upper <= 8192;
            && ValidBackup(r) && r.page == b.page
            && r.holeOffset == (if hole then lower else 0) && r.holeLength == (if hole then upper - lower else 0)
            && r.spc == b.spc && r.db == b.db && r.rel == b.rel && r.fork == b.fork && r.block == b.block
  {
    hide Load, Store, Pow256;
    FieldWidths();
    LoadStoreFits(order, lower, 2);
    LoadStoreFits(order, upper, 2);
  }

  predicate ValidBackups(bs: seq<Option<Backup>>) {
    |bs| == XLR_MAX_BKP_BLOCKS && forall i | 0 <= i < |bs| :: bs[i].Some? ==> ValidBackup(bs[i].value)
  }

  /** The blocks from the `i`-th on. */
  function BlocksBytes(order: ByteOrder, bs: seq<Option<Backup>>, i: nat): seq<Byte>
    requires ValidBackups(bs) && i <= |bs|
    decreases |bs| - i
  {
    if i == |bs| then []
    else (if bs[i].Some? then BackupBytes(order, bs[i].value) else []) + BlocksBytes(order, bs, i + 1)
  }

  /** The bit of xl_info for the `i`-th block: XLR_SET_BKP_BLOCK. */
  function BlockBit(i: nat): nat
    requires i < XLR_MAX_BKP_BLOCKS
  {
    3 - i
  }

  /** xl_info with the bits of the first `n` blocks set. */
  function WithBlockBits(info: nat, bs: seq<Option<Backup>>, n: nat): nat
    requires n <= |bs| == XLR_MAX_BKP_BLOCKS
  {
    if n == 0 then info
    else
      var before := WithBlockBits(info, bs, n - 1);
      if bs[n - 1].Some? then Or(before, Pow2(BlockBit(n - 1))) else before
  }

  predicate AnyBackup(bs: seq<Option<Backup>>) {
    exists i :: 0 <= i < |bs| && bs[i].Some?
  }

  /** And with XLR_BKP_REMOVABLE, when full pages are not being forced. */
  function FinalInfo(info: nat, bs: seq<Option<Backup>>, removable: bool): nat
    requires |bs| == XLR_MAX_BKP_BLOCKS
  {
    var flags := WithBlockBits(info, bs, XLR_MAX_BKP_BLOCKS);
    if AnyBackup(bs) && removable then Or(flags, 1) else flags
  }

  /** Each bit is set for its block; the low four bits that come in are zero. */
  lemma {:induction false} BlockBits(info: nat, bs: seq<Option<Backup>>, n: nat, k: nat)
    requires n <= |bs| == XLR_MAX_BKP_BLOCKS && info % 16 == 0 && k < 4
    ensures Bit(WithBlockBits(info, bs, n), k) <==> k > 0 && 3 - k < n && bs[3 - k].Some?
    decreases n
  {
    hide Or, Bit, Pow2;
    if n == 0 {
      LowBitClear(info, k);
    } else {
      BlockBits(info, bs, n - 1, k);
      if bs[n - 1].Some? {
        OrBit(WithBlockBits(info, bs, n - 1), Pow2(BlockBit(n - 1)), k);
        Pow2Bit(BlockBit(n - 1), k);
      }
    }
  }

  lemma LowBitClear(x: nat, k: nat)
    requires x % 16 == 0 && k < 4
    ensures !Bit(x, k)
  {
    var q := x / 16;
    assert x == 16 * q && x / 2 == 8 * q && 8 * q / 2 == 4 * q && 4 * q / 2 == 2 * q;
  }

  /** The flags are added below the resource manager's own bits. */
  lemma {:induction false} InfoGrows(info: nat, bs: seq<Option<Backup>>, n: nat)
    requires n <= |bs| == XLR_MAX_BKP_BLOCKS && info % 16 == 0
    ensures info <= WithBlockBits(info, bs, n) <= info + 16 - Pow2(4 - n)
    decreases n
  {
    hide Or, Bit;
    if n > 0 {
      InfoGrows(info, bs, n - 1);
      BlockBits(info, bs, n - 1, BlockBit(n - 1));
      OrPow2(WithBlockBits(info, bs, n - 1), BlockBit(n - 1));
    }
  }

  lemma FinalInfoFits(info: nat, bs: seq<Option<Backup>>, removable: bool)
    requires |bs| == XLR_MAX_BKP_BLOCKS && info % 16 == 0 && info < 256
    ensures info <= FinalInfo(info, bs, removable) < info + 16 && FinalInfo(info, bs, removable) < 256
    ensures forall i | 0 <= i < 3 :: And(FinalInfo(info, bs, removable), Pow2(BlockBit(i))) != 0 <==> bs[i].Some?
  {
    hide Or, Bit, And, WithBlockBits, Pow2;
    Pow2Constants();
    InfoGrows(info, bs, 3);
    var flags := WithBlockBits(info, bs, 3);
    OrPow2(flags, 0);
    BlockBits(info, bs, 3, 0);
    forall i | 0 <= i < 3
      ensures And(FinalInfo(info, bs, removable), Pow2(BlockBit(i))) != 0 <==> bs[i].Some?
    {
      BlockBits(info, bs, 3, BlockBit(i));
      OrBit(flags, 1, BlockBit(i));
      Pow2Bit(0, BlockBit(i));
      AndPow2(FinalInfo(info, bs, removable), BlockBit(i));
    }
  }

  // ---------------------------------------------------------------- the writer

  /** What a caller gives to XLogInsert, with the backup blocks that are called for. */
  datatype Request = Request(rmid: Byte, info: Byte, xid: uint32, data: seq<Byte>, backups: seq<Option<Backup>>,
                             removable: bool)

  predicate ValidRequest(q: Request) {
    && q.rmid <= RM_MAX_ID && q.info % 16 == 0 && !(q.rmid == RM_XLOG_ID && q.info == XLOG_SWITCH)
    && 0 < |q.data| < 0x8000_0000 && ValidBackups(q.backups)
  }

  /** Everything behind the record header. */
  function Body(order: ByteOrder, q: Request): seq<Byte>
    requires ValidRequest(q)
  {
    q.data + BlocksBytes(order, q.backups, 0)
  }

  /** The record header behind its first field, the checksum. */
  function HeaderTail(sys: System, r: Record, prev: RecPtr): seq<Byte> {
    Pack(sys.order, RecordFields(r, prev)[1..])
  }

  function Unsealed(sys: System, q: Request): Record
    requires ValidRequest(q)
  {
    FinalInfoFits(q.info, q.backups, q.removable);
    Record(0, q.xid, |q.data|, FinalInfo(q.info, q.backups, q.removable), q.rmid, Body(sys.order, q))
  }

  /** The record that XLogInsert makes; its checksum covers the body and then the rest of
      the header. */
  function Assembled(sys: System, crc: Crc, q: Request, prev: RecPtr): Record
    requires ValidRequest(q)
  {
    var r := Unsealed(sys, q);
    r.(crc := crc(r.data + HeaderTail(sys, r, prev)))
  }

  lemma BackupLength(order: ByteOrder, b: Backup)
    requires ValidBackup(b)
    ensures |BackupBytes(order, b)| == SIZE_OF_BKP_BLOCK + BLCKSZ - b.holeLength
    ensures var f := BackupFields(b);
            Offset(f, 0) == 0 && Offset(f, 1) == 4 && Offset(f, 2) == 8 && Offset(f, 3) == 12 && Offset(f, 4) == 16
            && Offset(f, 5) == 20 && Offset(f, 6) == 22 && Offset(f, 7) == 24
  {
    hide Pack, Offset;
    var f := BackupFields(b);
    PackLength(order, f);
    assert Offset(f, 0) == 0 by { OffsetZero(f); }
    OffsetStep(f, 0); OffsetStep(f, 1); OffsetStep(f, 2); OffsetStep(f, 3); OffsetStep(f, 4);
    OffsetStep(f, 5); OffsetStep(f, 6);
  }

  lemma {:induction false} BlocksLength(order: ByteOrder, bs: seq<Option<Backup>>, i: nat)
    requires ValidBackups(bs) && i <= 3
    ensures |BlocksBytes(order, bs, i)| <= (3 - i) * (SIZE_OF_BKP_BLOCK + BLCKSZ)
    decreases 3 - i
  {
    hide BackupBytes;
    if i < 3 {
      BlocksLength(order, bs, i + 1);
      if bs[i].Some? { BackupLength(order, bs[i].value); }
    }
  }

  /** The record, spelled out: the caller's transaction, resource manager and data; in the
      flags the caller's upper four bits, a bit for each page that is backed up, and the
      lowest one when these may be removed. */
  lemma AssembledFields(sys: System, crc: Crc, q: Request, prev: RecPtr)
    requires ValidRequest(q)
    ensures var r := Assembled(sys, crc, q, prev);
            && r.xid == q.xid && r.rmid == q.rmid && r.len == |q.data| <= |r.data| && r.data[..r.len] == q.data
            && r.info / 16 == q.info / 16
            && ((r.info / 8) % 2 == 1 <==> q.backups[0].Some?)
            && ((r.info / 4) % 2 == 1 <==> q.backups[1].Some?)
            && ((r.info / 2) % 2 == 1 <==> q.backups[2].Some?)
            && (r.info % 2 == 1 <==> q.removable && exists i :: 0 <= i < 3 && q.backups[i].Some?)
            && SIZE_OF_RECORD + |r.data| < 0x1_0000_0000
  {
    hide Or, And, Bit, Pow2, WithBlockBits, BlocksBytes, HeaderTail;
    FinalInfoFits(q.info, q.backups, q.removable);
    FinalInfoDigits(q.info, q.backups, q.removable);
    BlocksLength(sys.order, q.backups, 0);
  }

  lemma FinalInfoDigits(info: nat, bs: seq<Option<Backup>>, removable: bool)
    requires |bs| == XLR_MAX_BKP_BLOCKS && info % 16 == 0
    ensures var x := FinalInfo(info, bs, removable);
            && ((x / 8) % 2 == 1 <==> bs[0].Some?) && ((x / 4) % 2 == 1 <==> bs[1].Some?)
            && ((x / 2) % 2 == 1 <==> bs[2].Some?)
            && (x % 2 == 1 <==> removable && exists i :: 0 <= i < 3 && bs[i].Some?)
  {
    hide Or, And, Bit, Pow2, WithBlockBits;
    Pow2Constants();
    var flags, x := WithBlockBits(info, bs, 3), FinalInfo(info, bs, removable);
    forall k: nat | k < 4
      ensures Bit(x, k) <==> if k == 0 then AnyBackup(bs) && removable else bs[3 - k].Some?
      ensures Bit(x, k) <==> (x / Pow2(k)) % 2 == 1
    {
      BlockBits(info, bs, 3, k);
      OrBit(flags, 1, k);
      Pow2Bit(0, k);
      BitIsDigit(x, k);
    }
    assert forall k: nat | k < 4 :: Bit(x, k) <==> (x / Pow2(k)) % 2 == 1;
  }

  lemma AssembledIsValidRecord(sys: System, crc: Crc, q: Request, prev: RecPtr)
    requires ValidRequest(q)
    ensures ValidRecord(Assembled(sys, crc, q, prev))
  {
    hide FinalInfo, BlocksBytes;
    FinalInfoFits(q.info, q.backups, q.removable);
    BlocksLength(sys.order, q.backups, 0);
  }

  // ---------------------------------------------------------------- the reader

  /** The end of the backup blocks from the `i`-th on, which start at `at`; None when one
      does not make sense or lies outside the record. */
  function BlocksEnd(order: ByteOrder, rec: seq<Byte>, info: nat, at: nat, i: nat): Option<nat>
    requires i <= XLR_MAX_BKP_BLOCKS
    decreases XLR_MAX_BKP_BLOCKS - i
  {
    if i == XLR_MAX_BKP_BLOCKS then Some(at)
    else if And(info, Pow2(BlockBit(i))) == 0 then BlocksEnd(order, rec, info, at, i + 1)
    else if at + SIZE_OF_BKP_BLOCK > |rec| then None
    else
      var off, len := Field(order, rec, at + 20, 2), Field(order, rec, at + 22, 2);
      if off + len > BLCKSZ then None
      else BlocksEnd(order, rec, info, at + SIZE_OF_BKP_BLOCK + BLCKSZ - len, i + 1)
  }

  /** RecordIsValid: the blocks end where the record does, and the checksum is right. */
  predicate RecordIsValid(sys: System, crc: Crc, rec: seq<Byte>)
    requires |rec| >= SIZE_OF_RECORD
  {
    var len, info := Field(sys.order, rec, 20, 4), Field(sys.order, rec, 24, 1);
    && BlocksEnd(sys.order, rec, info, SIZE_OF_RECORD + len, 0) == Some(|rec|)
    && Field(sys.order, rec, 0, 4) == crc(rec[SIZE_OF_RECORD..] + rec[4..SIZE_OF_RECORD])
  }

  lemma BlocksEndLast(order: ByteOrder, rec: seq<Byte>, info: nat, at: nat)
    ensures BlocksEnd(order, rec, info, at, XLR_MAX_BKP_BLOCKS) == Some(at)
  {
  }

  lemma BlocksEndStep(order: ByteOrder, rec: seq<Byte>, info: nat, at: nat, i: nat)
    requires i < XLR_MAX_BKP_BLOCKS
    ensures BlocksEnd(order, rec, info, at, i) ==
              if And(info, Pow2(BlockBit(i))) == 0 then BlocksEnd(order, rec, info, at, i + 1)
              else if at + SIZE_OF_BKP_BLOCK > |rec| then None
              else
                var off, len := Field(order, rec, at + 20, 2), Field(order, rec, at + 22, 2);
                if off + len > BLCKSZ then None
                else BlocksEnd(order, rec, info, at + SIZE_OF_BKP_BLOCK + BLCKSZ - len, i + 1)
  {
    hide And, Pow2, Field;
  }

  lemma ReadBackupField(order: ByteOrder, b: Backup, rec: seq<Byte>, at: nat, i: nat)
    requires ValidBackup(b) && at <= |rec| && BackupBytes(order, b) <= rec[at..] && i < 7
    ensures var o, w := Offset(BackupFields(b), i), BackupFields(b)[i].1;
            at + o + w <= |rec| && Field(order, rec, at + o, w) == BackupFields(b)[i].0
  {
    hide Pack, Offset, Field;
    var f, rest := BackupFields(b), rec[at..][|Pack(order, BackupFields(b))|..];
    assert rec[at..] == Pack(order, f) + rest;
    FieldWidths();
    FieldReadBack(order, f, i, rest);
    FieldShift(order, rec, at, Offset(f, i), f[i].1);
  }

  lemma {:induction false} BlocksReadBack(order: ByteOrder, bs: seq<Option<Backup>>, info: nat, rec: seq<Byte>, at: nat,
                                          i: nat)
    requires ValidBackups(bs) && i <= 3 && at <= |rec| && rec[at..] == BlocksBytes(order, bs, i)
    requires forall k | 0 <= k < 3 :: And(info, Pow2(BlockBit(k))) != 0 <==> bs[k].Some?
    ensures BlocksEnd(order, rec, info, at, i) == Some(|rec|)
    decreases 3 - i
  {
    hide And, Pow2, Field, BackupBytes, Offset, BlocksEnd, ImageAt, ZeroFilled;
    if i == 3 {
      BlocksEndLast(order, rec, info, at);
    } else {
      BlocksEndStep(order, rec, info, at, i);
      if bs[i].Some? {
        var b := bs[i].value;
        BackupLength(order, b);
        RestoreOne(order, b, rec, at);
        var next := at + |BackupBytes(order, b)|;
        assert rec[next..] == rec[at..][|BackupBytes(order, b)|..] == BlocksBytes(order, bs, i + 1);
        BlocksReadBack(order, bs, info, rec, next, i + 1);
      } else {
        BlocksReadBack(order, bs, info, rec, at, i + 1);
      }
    }
  }

  /** The checksum field comes first, and what follows does not depend on it. */
  lemma HeaderParts(sys: System, r: Record, prev: RecPtr)
    ensures RecordHeader(sys, r, prev) == Store(sys.order, r.crc, 4) + HeaderTail(sys, r, prev)
    ensures |HeaderTail(sys, r, prev)| == SIZE_OF_RECORD - 4
    ensures forall c: uint32 :: HeaderTail(sys, r.(crc := c), prev) == HeaderTail(sys, r, prev)
  {
    RecordHeaderLength(sys, r, prev);
    forall c: uint32 ensures HeaderTail(sys, r.(crc := c), prev) == HeaderTail(sys, r, prev) {
      assert RecordFields(r.(crc := c), prev)[1..] == RecordFields(r, prev)[1..];
    }
  }

  /** Every record that XLogInsert makes passes the reader's check of its contents. */
  lemma AssembledIsValid(sys: System, crc: Crc, q: Request, prev: RecPtr)
    requires ValidRequest(q)
    ensures var rec := RecordBytes(sys, Assembled(sys, crc, q, prev), prev);
            |rec| >= SIZE_OF_RECORD && RecordIsValid(sys, crc, rec)
  {
    hide FinalInfo, BlocksEnd, BlocksBytes, RecordHeader, HeaderTail, And, Pow2, Field;
    var r := Assembled(sys, crc, q, prev);
    var rec := RecordBytes(sys, r, prev);
    AssembledIsValidRecord(sys, crc, q, prev);
    FinalInfoFits(q.info, q.backups, q.removable);
    RecordHeaderLength(sys, r, prev);
    HeaderParts(sys, r, prev);
    HeaderParts(sys, Unsealed(sys, q), prev);
    RecordHeaderFields(sys, r, prev, r.data);
    var at := SIZE_OF_RECORD + |q.data|;
    assert rec[at..] == BlocksBytes(sys.order, q.backups, 0);
    BlocksReadBack(sys.order, q.backups, r.info, rec, at, 0);
    assert rec[SIZE_OF_RECORD..] == r.data;
    assert rec[4..SIZE_OF_RECORD] == HeaderTail(sys, r, prev);
  }

  // ---------------------------------------------------------------- restoring pages

  /** A page as it is written back during recovery. */
  datatype PageImage = PageImage(spc: nat, db: nat, rel: nat, fork: nat, block: nat, page: seq<Byte>)

  function ZeroFilled(page: seq<Byte>, off: nat, len: nat): seq<Byte>
    requires off + len <= |page|
  {
    page[..off] + Zeros(len) + page[off + len..]
  }

  predicate BlockFits(order: ByteOrder, rec: seq<Byte>, at: nat) {
    && at + SIZE_OF_BKP_BLOCK <= |rec|
    && Field(order, rec, at + 20, 2) + Field(order, rec, at + 22, 2) <= BLCKSZ
    && at + SIZE_OF_BKP_BLOCK + BLCKSZ - Field(order, rec, at + 22, 2) <= |rec|
  }

  /** The page that the backup block at `at` is written back as. */
  function ImageAt(order: ByteOrder, rec: seq<Byte>, at: nat): PageImage
    requires BlockFits(order, rec, at)
  {
    var off, len := Field(order, rec, at + 20, 2), Field(order, rec, at + 22, 2);
    var blk := rec[at + SIZE_OF_BKP_BLOCK..at + SIZE_OF_BKP_BLOCK + BLCKSZ - len];
    PageImage(Field(order, rec, at, 4), Field(order, rec, at + 4, 4), Field(order, rec, at + 8, 4),
              Field(order, rec, at + 12, 4), Field(order, rec, at + 16, 4), blk[..off] + Zeros(len) + blk[off..])
  }

  function BlockEnd(order: ByteOrder, rec: seq<Byte>, at: nat): (end: nat)
    requires BlockFits(order, rec, at)
    ensures at < end <= |rec|
  {
    at + SIZE_OF_BKP_BLOCK + BLCKSZ - Field(order, rec, at + 22, 2)
  }

  lemma {:induction false} BlocksWithin(order: ByteOrder, rec: seq<Byte>, info: nat, at: nat, i: nat)
    requires i <= XLR_MAX_BKP_BLOCKS && BlocksEnd(order, rec, info, at, i).Some?
    ensures at <= BlocksEnd(order, rec, info, at, i).value
    ensures i < XLR_MAX_BKP_BLOCKS && And(info, Pow2(BlockBit(i))) != 0
            && BlocksEnd(order, rec, info, at, i).value <= |rec| ==>
              BlockFits(order, rec, at)
    decreases XLR_MAX_BKP_BLOCKS - i
  {
    hide And, Pow2, Field;
    if i < XLR_MAX_BKP_BLOCKS {
      if And(info, Pow2(BlockBit(i))) == 0 {
        BlocksWithin(order, rec, info, at, i + 1);
      } else {
        BlocksWithin(order, rec, info, at + SIZE_OF_BKP_BLOCK + BLCKSZ - Field(order, rec, at + 22, 2), i + 1);
      }
    }
  }

  /** In a record that has passed the check, one block follows the other. */
  lemma BlocksNext(order: ByteOrder, rec: seq<Byte>, info: nat, at: nat, i: nat)
    requires i < XLR_MAX_BKP_BLOCKS && BlocksEnd(order, rec, info, at, i) == Some(|rec|)
    ensures if And(info, Pow2(BlockBit(i))) == 0 then BlocksEnd(order, rec, info, at, i + 1) == Some(|rec|)
            else BlockFits(order, rec, at)
                 && BlocksEnd(order, rec, info, BlockEnd(order, rec, at), i + 1) == Some(|rec|)
  {
    hide And, Pow2, Field;
    BlocksWithin(order, rec, info, at, i);
  }

  /** RestoreBkpBlocks, from the `i`-th block on. */
  function Restored(order: ByteOrder, rec: seq<Byte>, info: nat, at: nat, i: nat): seq<PageImage>
    requires i <= XLR_MAX_BKP_BLOCKS && BlocksEnd(order, rec, info, at, i) == Some(|rec|)
    decreases XLR_MAX_BKP_BLOCKS - i
  {
    hide And, Pow2, Field, ImageAt, BlocksEnd, BlockFits, BlockEnd;
    if i == XLR_MAX_BKP_BLOCKS then []
    else
      BlocksNext(order, rec, info, at, i);
      if And(info, Pow2(BlockBit(i))) == 0 then Restored(order, rec, info, at, i + 1)
      else [ImageAt(order, rec, at)] + Restored(order, rec, info, BlockEnd(order, rec, at), i + 1)
  }

  function ImageOf(b: Backup): PageImage
    requires ValidBackup(b)
  {
    PageImage(b.spc, b.db, b.rel, b.fork, b.block, ZeroFilled(b.page, b.holeOffset, b.holeLength))
  }

  /** The pages that were backed up, their holes filled with zeros. */
  function Images(bs: seq<Option<Backup>>, i: nat): seq<PageImage>
    requires ValidBackups(bs) && i <= |bs|
    decreases |bs| - i
  {
    if i == |bs| then []
    else
      (match bs[i]
       case None => []
       case Some(b) => [ImageOf(b)])
      + Images(bs, i + 1)
  }

  lemma RestoredNone(order: ByteOrder, rec: seq<Byte>, info: nat, at: nat)
    requires BlocksEnd(order, rec, info, at, XLR_MAX_BKP_BLOCKS) == Some(|rec|)
    ensures Restored(order, rec, info, at, XLR_MAX_BKP_BLOCKS) == []
  {
  }

  lemma RestoredStep(order: ByteOrder, rec: seq<Byte>, info: nat, at: nat, i: nat)
    requires i < XLR_MAX_BKP_BLOCKS && BlocksEnd(order, rec, info, at, i) == Some(|rec|)
    ensures if And(info, Pow2(BlockBit(i))) == 0
            then BlocksEnd(order, rec, info, at, i + 1) == Some(|rec|)
                 && Restored(order, rec, info, at, i) == Restored(order, rec, info, at, i + 1)
            else
              && BlockFits(order, rec, at)
              && BlocksEnd(order, rec, info, BlockEnd(order, rec, at), i + 1) == Some(|rec|)
              && Restored(order, rec, info, at, i) == [ImageAt(order, rec, at)]
                 + Restored(order, rec, info, BlockEnd(order, rec, at), i + 1)
  {
    hide And, Pow2, Field, ImageAt, BlockFits, BlockEnd, BlocksEnd;
    BlocksNext(order, rec, info, at, i);
  }

  lemma BackupFieldsAt(order: ByteOrder, b: Backup, rec: seq<Byte>, at: nat)
    requires ValidBackup(b) && at <= |rec| && BackupBytes(order, b) <= rec[at..]
    ensures at + SIZE_OF_BKP_BLOCK + BLCKSZ - b.holeLength <= |rec|
    ensures && Field(order, rec, at, 4) == b.spc && Field(order, rec, at + 4, 4) == b.db
            && Field(order, rec, at + 8, 4) == b.rel && Field(order, rec, at + 12, 4) == b.fork
            && Field(order, rec, at + 16, 4) == b.block
            && Field(order, rec, at + 20, 2) == b.holeOffset && Field(order, rec, at + 22, 2) == b.holeLength
  {
    hide Pack, Offset, Field;
    BackupLength(order, b);
    ReadBackupField(order, b, rec, at, 0);
    ReadBackupField(order, b, rec, at, 1);
    ReadBackupField(order, b, rec, at, 2);
    ReadBackupField(order, b, rec, at, 3);
    ReadBackupField(order, b, rec, at, 4);
    ReadBackupField(order, b, rec, at, 5);
    ReadBackupField(order, b, rec, at, 6);
  }

  lemma BackupDataAt(order: ByteOrder, b: Backup, rec: seq<Byte>, at: nat)
    requires ValidBackup(b) && at <= |rec| && BackupBytes(order, b) <= rec[at..]
    requires at + SIZE_OF_BKP_BLOCK + BLCKSZ - b.holeLength <= |rec|
    ensures rec[at + SIZE_OF_BKP_BLOCK..at + SIZE_OF_BKP_BLOCK + BLCKSZ - b.holeLength]
            == Stripped(b.page, b.holeOffset, b.holeLength)
  {
    hide Pack, Offset;
    BackupLength(order, b);
    PackLength(order, BackupFields(b));
    var blk := rec[at + SIZE_OF_BKP_BLOCK..at + SIZE_OF_BKP_BLOCK + BLCKSZ - b.holeLength];
    assert rec[at..][..|BackupBytes(order, b)|] == BackupBytes(order, b);
    assert blk == rec[at..][..|BackupBytes(order, b)|][SIZE_OF_BKP_BLOCK..];
  }

  lemma RestoreOne(order: ByteOrder, b: Backup, rec: seq<Byte>, at: nat)
    requires ValidBackup(b) && at <= |rec| && BackupBytes(order, b) <= rec[at..]
    ensures BlockFits(order, rec, at)
    ensures Field(order, rec, at + 20, 2) == b.holeOffset && Field(order, rec, at + 22, 2) == b.holeLength
    ensures ImageAt(order, rec, at) == ImageOf(b)
  {
    hide BackupBytes, Field;
    BackupFieldsAt(order, b, rec, at);
    BackupDataAt(order, b, rec, at);
  }

  lemma {:induction false} RestoreReadsBack(order: ByteOrder, bs: seq<Option<Backup>>, info: nat, rec: seq<Byte>,
                                            at: nat, i: nat)
    requires ValidBackups(bs) && i <= 3 && at <= |rec| && rec[at..] == BlocksBytes(order, bs, i)
    requires forall k | 0 <= k < 3 :: And(info, Pow2(BlockBit(k))) != 0 <==> bs[k].Some?
    ensures BlocksEnd(order, rec, info, at, i) == Some(|rec|) && Restored(order, rec, info, at, i) == Images(bs, i)
    decreases 3 - i
  {
    hide And, Pow2, Field, BackupBytes, Offset, ZeroFilled, ImageAt, BlocksEnd, Restored;
    BlocksReadBack(order, bs, info, rec, at, i);
    if i == 3 {
      RestoredNone(order, rec, info, at);
    } else {
      RestoredStep(order, rec, info, at, i);
      if bs[i].Some? {
        var b := bs[i].value;
        BackupLength(order, b);
        RestoreOne(order, b, rec, at);
        var next := at + |BackupBytes(order, b)|;
        assert rec[next..] == rec[at..][|BackupBytes(order, b)|..] == BlocksBytes(order, bs, i + 1);
        RestoreReadsBack(order, bs, info, rec, next, i + 1);
      } else {
        RestoreReadsBack(order, bs, info, rec, at, i + 1);
      }
    }
  }

  /** Recovery writes back the pages that were backed up, in the same order, and with the
      bytes they had, except that a hole is zero; so exactly what they were when the hole
      was zero already. */
  lemma BackupRoundTrip(sys: System, crc: Crc, q: Request, prev: RecPtr)
    requires ValidRequest(q)
    ensures var r := Assembled(sys, crc, q, prev);
            var rec, at := RecordBytes(sys, r, prev), SIZE_OF_RECORD + |q.data|;
            && BlocksEnd(sys.order, rec, r.info, at, 0) == Some(|rec|)
            && Restored(sys.order, rec, r.info, at, 0) == Images(q.backups, 0)
  {
    hide FinalInfo, BlocksEnd, BlocksBytes, RecordHeader, And, Pow2, Restored, Images;
    var r := Assembled(sys, crc, q, prev);
    var rec, at := RecordBytes(sys, r, prev), SIZE_OF_RECORD + |q.data|;
    FinalInfoFits(q.info, q.backups, q.removable);
    RecordHeaderLength(sys, r, prev);
    assert rec[at..] == BlocksBytes(sys.order, q.backups, 0);
    RestoreReadsBack(sys.order, q.backups, r.info, rec, at, 0);
  }

  lemma ZeroFilledIsPage(page: seq<Byte>, off: nat, len: nat)
    requires off + len <= |page|
    ensures ZeroFilled(page, off, len) == page <==> forall i | off <= i < off + len :: page[i] == 0
  {
    if ZeroFilled(page, off, len) == page {
      forall i | off <= i < off + len ensures page[i] == 0 {
        assert ZeroFilled(page, off, len)[i] == 0;
      }
    }
  }

  lemma {:induction false} ImageIsListed(bs: seq<Option<Backup>>, i: nat, k: nat)
    requires ValidBackups(bs) && i <= k < |bs| && bs[k].Some?
    ensures ImageOf(bs[k].value) in Images(bs, i)
    decreases k - i
  {
    if i < k { ImageIsListed(bs, i + 1, k); }
  }

  /** A page that XLogCheckBuffer backs up comes back for the block it was taken from, with
      every byte below pd_lower and from pd_upper on, and zeros between them; so as it was,
      exactly when there were only zeros before. Of a page that is not declared standard, or
      whose pd_lower and pd_upper make no sense, every byte comes back. */
  lemma PageRestoredExactly(sys: System, crc: Crc, q: Request, prev: RecPtr, k: nat, b: BufferPage,
                            lower: nat, upper: nat)
    requires ValidRequest(q) && k < XLR_MAX_BKP_BLOCKS && q.backups[k] == Some(BackupOf(sys.order, b))
    requires lower < 0x1_0000 && upper < 0x1_0000
    requires b.page[12..14] == Store(sys.order, lower, 2) && b.page[14..16] == Store(sys.order, upper, 2)
    ensures var r, hole := Assembled(sys, crc, q, prev), b.standard && 24 <= lower < upper <= 8192;
            var rec, at := RecordBytes(sys, r, prev), SIZE_OF_RECORD + |q.data|;
            && BlocksEnd(sys.order, rec, r.info, at, 0) == Some(|rec|)
            && exists page: Page ::
                 && PageImage(b.spc, b.db, b.rel, b.fork, b.block, page) in Restored(sys.order, rec, r.info, at, 0)
                 && (forall i | 0 <= i < 8192 :: page[i] == if hole && lower <= i < upper then 0 else b.page[i])
                 && (page == b.page <==> (hole ==> forall i | lower <= i < upper :: b.page[i] == 0))
  {
    hide FinalInfo, BlocksEnd, BlocksBytes, RecordBytes, Assembled, Restored, Images, Field, BackupOf, Store;
    var backup := BackupOf(sys.order, b);
    HoleExactly(sys.order, b, lower, upper);
    BackupRoundTrip(sys, crc, q, prev);
    ImageIsListed(q.backups, 0, k);
    ZeroFilledIsPage(backup.page, backup.holeOffset, backup.holeLength);
    var page: Page := ZeroFilled(backup.page, backup.holeOffset, backup.holeLength);
    assert PageImage(b.spc, b.db, b.rel, b.fork, b.block, page) == ImageOf(backup);
  }

  /** Where the blocks are in the record: behind the caller's data, one behind the other, to
      the end of the record. Each has a header of 24 bytes, and then the page without its hole. */
  lemma BlockInRecord(sys: System, crc: Crc, q: Request, prev: RecPtr, i: nat)
    requires ValidRequest(q) && i < XLR_MAX_BKP_BLOCKS
    ensures var rec, o := RecordBytes(sys, Assembled(sys, crc, q, prev), prev), sys.order;
            var at, next := |rec| - |BlocksBytes(o, q.backups, i)|, |rec| - |BlocksBytes(o, q.backups, i + 1)|;
            && 32 + |q.data| <= at <= next && (i == 0 ==> at == 32 + |q.data|) && (i == 2 ==> next == |rec|)
            && rec[32..32 + |q.data|] == q.data
            && match q.backups[i]
               case None => next == at
               case Some(b) =>
                 && next == at + 24 + 8192 - b.holeLength
                 && Field(o, rec, at, 4) == b.spc && Field(o, rec, at + 4, 4) == b.db
                 && Field(o, rec, at + 8, 4) == b.rel && Field(o, rec, at + 12, 4) == b.fork
                 && Field(o, rec, at + 16, 4) == b.block
                 && Field(o, rec, at + 20, 2) == b.holeOffset && Field(o, rec, at + 22, 2) == b.holeLength
                 && rec[at + 24..next] == b.page[..b.holeOffset] + b.page[b.holeOffset + b.holeLength..]
  {
    hide FinalInfo, BlocksEnd, RecordHeader, Field, BackupBytes, HeaderTail;
    var rec, o := RecordBytes(sys, Assembled(sys, crc, q, prev), prev), sys.order;
    RecordHeaderLength(sys, Assembled(sys, crc, q, prev), prev);
    BlocksSuffix(o, q.backups, i);
    var at := |rec| - |BlocksBytes(o, q.backups, i)|;
    assert rec[at..] == BlocksBytes(o, q.backups, i);
    if q.backups[i].Some? {
      var b := q.backups[i].value;
      BackupLength(o, b);
      BackupFieldsAt(o, b, rec, at);
      BackupDataAt(o, b, rec, at);
    }
  }

  lemma {:induction false} BlocksSuffix(order: ByteOrder, bs: seq<Option<Backup>>, i: nat)
    requires ValidBackups(bs) && i <= |bs|
    ensures var all, rest := BlocksBytes(order, bs, 0), BlocksBytes(order, bs, i);
            |rest| <= |all| && all[|all| - |rest|..] == rest
  {
    hide BackupBytes, BlocksBytes;
    if i > 0 {
      BlocksSuffix(order, bs, i - 1);
      BlocksStep(order, bs, i - 1);
      var first := if bs[i - 1].Some? then BackupBytes(order, bs[i - 1].value) else [];
      SuffixOfSuffix(BlocksBytes(order, bs, 0), first, BlocksBytes(order, bs, i));
    }
  }

  lemma BlocksStep(order: ByteOrder, bs: seq<Option<Backup>>, i: nat)
    requires ValidBackups(bs) && i < |bs|
    ensures BlocksBytes(order, bs, i)
            == (if bs[i].Some? then BackupBytes(order, bs[i].value) else []) + BlocksBytes(order, bs, i + 1)
  {
  }

  lemma SuffixOfSuffix(s: seq<Byte>, x: seq<Byte>, rest: seq<Byte>)
    requires |x| + |rest| <= |s| && s[|s| - |x| - |rest|..] == x + rest
    ensures s[|s| - |rest|..] == rest
  {
    assert s[|s| - |rest|..] == s[|s| - |x| - |rest|..][|x|..];
  }

  // ---------------------------------------------------------------- the loops

  /** Where the loop of RecordIsValid arrives, which reads the headers from memory without
      regard to the end of the record; None when a hole does not make sense. */
  function LoopEnd(order: ByteOrder, mem: seq<Byte>, info: nat, at: nat, i: nat): Option<nat>
    requires i <= XLR_MAX_BKP_BLOCKS && at + (XLR_MAX_BKP_BLOCKS - i) * (SIZE_OF_BKP_BLOCK + BLCKSZ) <= |mem|
    decreases XLR_MAX_BKP_BLOCKS - i
  {
    if i == XLR_MAX_BKP_BLOCKS then Some(at)
    else if And(info, Pow2(BlockBit(i))) == 0 then LoopEnd(order, mem, info, at, i + 1)
    else
      var off, len := Field(order, mem, at + 20, 2), Field(order, mem, at + 22, 2);
      if off + len > BLCKSZ then None
      else LoopEnd(order, mem, info, at + SIZE_OF_BKP_BLOCK + BLCKSZ - len, i + 1)
  }

  /** All that the loop reads lies in the record: every block that is announced, up to the
      first one whose hole does not make sense. */
  predicate BlocksInside(order: ByteOrder, rec: seq<Byte>, info: nat, at: nat, i: nat)
    requires i <= XLR_MAX_BKP_BLOCKS
    decreases XLR_MAX_BKP_BLOCKS - i
  {
    if i == XLR_MAX_BKP_BLOCKS then at <= |rec|
    else if And(info, Pow2(BlockBit(i))) == 0 then BlocksInside(order, rec, info, at, i + 1)
    else
      && at + SIZE_OF_BKP_BLOCK <= |rec|
      && var off, len := Field(order, rec, at + 20, 2), Field(order, rec, at + 22, 2);
         off + len > BLCKSZ || BlocksInside(order, rec, info, at + SIZE_OF_BKP_BLOCK + BLCKSZ - len, i + 1)
  }

  lemma SameField(order: ByteOrder, mem: seq<Byte>, n: nat, at: nat, width: nat)
    requires at + width <= n <= |mem|
    ensures Field(order, mem[..n], at, width) == Field(order, mem, at, width)
  {
    hide Load;
    assert mem[..n][at..at + width] == mem[at..at + width];
  }

  /** What lies behind the record does not matter for the verdict. */
  lemma {:induction false} LoopEndsAtEnd(order: ByteOrder, mem: seq<Byte>, tot: nat, info: nat, at: nat, i: nat)
    requires i <= XLR_MAX_BKP_BLOCKS && at + (XLR_MAX_BKP_BLOCKS - i) * (SIZE_OF_BKP_BLOCK + BLCKSZ) <= |mem|
             && tot <= |mem|
    ensures LoopEnd(order, mem, info, at, i) == Some(tot) <==> BlocksEnd(order, mem[..tot], info, at, i) == Some(tot)
    ensures var end := LoopEnd(order, mem, info, at, i); end.Some? ==> at <= end.value
    ensures BlocksEnd(order, mem[..tot], info, at, i) == Some(tot) ==> BlocksInside(order, mem[..tot], info, at, i)
    decreases XLR_MAX_BKP_BLOCKS - i
  {
    hide And, Pow2, Field;
    if i < XLR_MAX_BKP_BLOCKS {
      if And(info, Pow2(BlockBit(i))) == 0 {
        LoopEndsAtEnd(order, mem, tot, info, at, i + 1);
      } else {
        if at + SIZE_OF_BKP_BLOCK <= tot {
          SameField(order, mem, tot, at + 20, 2);
          SameField(order, mem, tot, at + 22, 2);
        }
        var off, len := Field(order, mem, at + 20, 2), Field(order, mem, at + 22, 2);
        if off + len <= BLCKSZ {
          LoopEndsAtEnd(order, mem, tot, info, at + SIZE_OF_BKP_BLOCK + BLCKSZ - len, i + 1);
        }
      }
    }
  }

  lemma {:induction false} BeyondEnd(order: ByteOrder, rec: seq<Byte>, info: nat, at: nat, i: nat)
    requires i <= XLR_MAX_BKP_BLOCKS && at > |rec|
    ensures !BlocksInside(order, rec, info, at, i)
    decreases XLR_MAX_BKP_BLOCKS - i
  {
    hide And, Pow2, Field;
    if i < XLR_MAX_BKP_BLOCKS { BeyondEnd(order, rec, info, at, i + 1); }
  }

  lemma LoopLast(order: ByteOrder, mem: seq<Byte>, tot: nat, info: nat, at: nat)
    requires at <= |mem| && tot <= |mem|
    ensures LoopEnd(order, mem, info, at, XLR_MAX_BKP_BLOCKS) == Some(at)
    ensures BlocksInside(order, mem[..tot], info, at, XLR_MAX_BKP_BLOCKS) <==> at <= tot
  {
  }

  lemma LoopStep(order: ByteOrder, mem: seq<Byte>, tot: nat, info: nat, at: nat, i: nat)
    requires i < XLR_MAX_BKP_BLOCKS && at + (XLR_MAX_BKP_BLOCKS - i) * (SIZE_OF_BKP_BLOCK + BLCKSZ) <= |mem|
             && tot <= |mem|
    ensures var end, inside := LoopEnd(order, mem, info, at, i), BlocksInside(order, mem[..tot], info, at, i);
            if And(info, Pow2(BlockBit(i))) == 0 then
              end == LoopEnd(order, mem, info, at, i + 1) && inside == BlocksInside(order, mem[..tot], info, at, i + 1)
            else
              var off, len := Field(order, mem, at + 20, 2), Field(order, mem, at + 22, 2);
              if off + len > BLCKSZ then end == None && inside == (at + SIZE_OF_BKP_BLOCK <= tot)
              else
                var next := at + SIZE_OF_BKP_BLOCK + BLCKSZ - len;
                end == LoopEnd(order, mem, info, next, i + 1)
                  && inside == BlocksInside(order, mem[..tot], info, next, i + 1)
  {
    hide And, Pow2, Field;
    if at + SIZE_OF_BKP_BLOCK <= tot {
      SameField(order, mem, tot, at + 20, 2);
      SameField(order, mem, tot, at + 22, 2);
    } else {
      var off, len := Field(order, mem, at + 20, 2), Field(order, mem, at + 22, 2);
      if off + len <= BLCKSZ {
        BeyondEnd(order, mem[..tot], info, at + SIZE_OF_BKP_BLOCK + BLCKSZ - len, i + 1);
      }
    }
  }

  /** So a record that announces blocks and is too short for the header of one is read
      beyond its end, and is rejected; a record without blocks never is. */
  lemma {:induction false} ShortRecordIsOverread(order: ByteOrder, rec: seq<Byte>, info: nat, at: nat, i: nat)
    requires i <= XLR_MAX_BKP_BLOCKS && at <= |rec| < at + SIZE_OF_BKP_BLOCK
    ensures BlocksInside(order, rec, info, at, i) <==>
              forall k | i <= k < XLR_MAX_BKP_BLOCKS :: And(info, Pow2(BlockBit(k))) == 0
    ensures !BlocksInside(order, rec, info, at, i) ==> BlocksEnd(order, rec, info, at, i) == None
    decreases XLR_MAX_BKP_BLOCKS - i
  {
    hide And, Pow2, Field;
    if i < XLR_MAX_BKP_BLOCKS && And(info, Pow2(BlockBit(i))) == 0 {
      ShortRecordIsOverread(order, rec, info, at, i + 1);
    }
  }

  /** RecordIsValid, for a record of `tot` bytes at the beginning of `mem`. The verdict is
      about the record alone. `reach` is the end of what has been read: the headers are
      read before anything is compared with the length of the record. */
  method CheckRecord(sys: System, crc: Crc, mem: seq<Byte>, tot: nat) returns (ok: bool, reach: nat)
    requires SIZE_OF_RECORD <= tot <= |mem| && SIZE_OF_RECORD + Field(sys.order, mem, 20, 4) <= tot
    requires tot + MAX_BKP_LEN <= |mem|
    ensures ok == RecordIsValid(sys, crc, mem[..tot])
    ensures var info := Field(sys.order, mem[..tot], 24, 1);
            var blocks := SIZE_OF_RECORD + Field(sys.order, mem[..tot], 20, 4);
            reach <= tot <==> BlocksInside(sys.order, mem[..tot], info, blocks, 0)
    ensures ok ==> reach == tot
  {
    hide And, Pow2, Field, BlocksEnd, LoopEnd, BlocksInside;
    SameField(sys.order, mem, tot, 0, 4);
    SameField(sys.order, mem, tot, 20, 4);
    SameField(sys.order, mem, tot, 24, 1);
    var info := Field(sys.order, mem, 24, 1);
    var blk: nat := SIZE_OF_RECORD + Field(sys.order, mem, 20, 4);
    ghost var first := blk;
    LoopEndsAtEnd(sys.order, mem, tot, info, first, 0);
    reach := blk;
    for i := 0 to XLR_MAX_BKP_BLOCKS
      invariant SIZE_OF_RECORD <= reach == blk && blk + (XLR_MAX_BKP_BLOCKS - i) * (SIZE_OF_BKP_BLOCK + BLCKSZ) <= |mem|
      invariant LoopEnd(sys.order, mem, info, blk, i) == LoopEnd(sys.order, mem, info, first, 0)
      invariant BlocksInside(sys.order, mem[..tot], info, first, 0) ==
                  (BlocksInside(sys.order, mem[..tot], info, blk, i))
    {
      LoopStep(sys.order, mem, tot, info, blk, i);
      if And(info, Pow2(BlockBit(i))) != 0 {
        reach := blk + SIZE_OF_BKP_BLOCK;
        var off, len := Field(sys.order, mem, blk + 20, 2), Field(sys.order, mem, blk + 22, 2);
        if off + len > BLCKSZ {
          return false, reach;
        }
        blk := blk + SIZE_OF_BKP_BLOCK + BLCKSZ - len;
        reach := blk;
      }
    }
    LoopLast(sys.order, mem, tot, info, blk);
    if blk != tot {
      return false, reach;
    }
    ok := Field(sys.order, mem, 0, 4) == crc(mem[SIZE_OF_RECORD..blk] + mem[4..SIZE_OF_RECORD]);
    assert mem[..tot][SIZE_OF_RECORD..] == mem[SIZE_OF_RECORD..tot]
           && mem[..tot][4..SIZE_OF_RECORD] == mem[4..SIZE_OF_RECORD];
  }

  /** RestoreBkpBlocks, for a record that has been checked. */
  method RestoreBkpBlocks(sys: System, rec: seq<Byte>) returns (images: seq<PageImage>)
    requires |rec| >= SIZE_OF_RECORD
    requires BlocksEnd(sys.order, rec, Field(sys.order, rec, 24, 1), SIZE_OF_RECORD + Field(sys.order, rec, 20, 4), 0)
             == Some(|rec|)
    ensures images == Restored(sys.order, rec, Field(sys.order, rec, 24, 1),
                               SIZE_OF_RECORD + Field(sys.order, rec, 20, 4), 0)
  {
    hide And, Pow2, Field, BlocksEnd, Restored;
    var order, info := sys.order, Field(sys.order, rec, 24, 1);
    var blk: nat := SIZE_OF_RECORD + Field(order, rec, 20, 4);
    ghost var first := blk;
    images := [];
    for i := 0 to XLR_MAX_BKP_BLOCKS
      invariant BlocksEnd(order, rec, info, blk, i) == Some(|rec|)
      invariant images + Restored(order, rec, info, blk, i) == Restored(order, rec, info, first, 0)
    {
      RestoredStep(order, rec, info, blk, i);
      if And(info, Pow2(BlockBit(i))) != 0 {
        var image := RestoreBlock(order, rec, blk);
        images := images + [image];
        blk := BlockEnd(order, rec, blk);
      }
    }
    RestoredNone(order, rec, info, blk);
  }

  /** One block: the page is zeroed first only when there is a hole. */
  method RestoreBlock(order: ByteOrder, rec: seq<Byte>, blk: nat) returns (image: PageImage)
    requires BlockFits(order, rec, blk)
    ensures image == ImageAt(order, rec, blk)
  {
    hide Field;
    var off, len := Field(order, rec, blk + 20, 2), Field(order, rec, blk + 22, 2);
    var data := rec[blk + SIZE_OF_BKP_BLOCK..blk + SIZE_OF_BKP_BLOCK + BLCKSZ - len];
    var page := data;
    if len != 0 {
      page := data[..off] + Zeros(len) + data[off..];
    } else {
      assert data[..off] + Zeros(len) + data[off..] == data;
    }
    image := PageImage(Field(order, rec, blk, 4), Field(order, rec, blk + 4, 4), Field(order, rec, blk + 8, 4),
                       Field(order, rec, blk + 12, 4), Field(order, rec, blk + 16, 4), page);
  }

  // ---------------------------------------------------------------- recovery

  /** ReadRecord with the check of the record's contents. */
  function ReadValid(sys: System, crc: Crc, m: seq<Byte>, pos: nat, prev: RecPtr): Option<ReadResult> {
    hide ReadRecord;
    var r := ReadRecord(sys, m, pos, prev);
    if r.Some? && |r.value.bytes| >= SIZE_OF_RECORD && RecordIsValid(sys, crc, r.value.bytes) then r else None
  }

  function ReadAllValid(sys: System, crc: Crc, m: seq<Byte>, pos: nat, prev: RecPtr): seq<ReadResult>
    decreases if pos > |m| then 0 else |m| - pos + 1
  {
    hide ReadRecord, RecordIsValid;
    match ReadValid(sys, crc, m, pos, prev)
    case None => []
    case Some(r) =>
      ReadProgress(sys, m, pos, prev);
      [r] + ReadAllValid(sys, crc, m, r.next, FromLinear(r.start))
  }

  /** The records before the first one that does not pass the check. */
  function ValidPrefix(sys: System, crc: Crc, rs: seq<ReadResult>): seq<ReadResult> {
    if rs == [] || |rs[0].bytes| < SIZE_OF_RECORD || !RecordIsValid(sys, crc, rs[0].bytes) then []
    else [rs[0]] + ValidPrefix(sys, crc, rs[1..])
  }

  /** The check makes recovery stop in front of the first damaged record, and changes
      nothing otherwise. */
  lemma {:induction false} ReadAllValidIsPrefix(sys: System, crc: Crc, m: seq<Byte>, pos: nat, prev: RecPtr)
    ensures ReadAllValid(sys, crc, m, pos, prev) == ValidPrefix(sys, crc, ReadAll(sys, m, pos, prev))
    decreases if pos > |m| then 0 else |m| - pos + 1
  {
    hide ReadRecord, RecordIsValid;
    var r := ReadRecord(sys, m, pos, prev);
    if r.Some? {
      ReadProgress(sys, m, pos, prev);
      ReadAllValidIsPrefix(sys, crc, m, r.value.next, FromLinear(r.value.start));
      var rest := ReadAll(sys, m, r.value.next, FromLinear(r.value.start));
      assert ([r.value] + rest)[1..] == rest;
    }
  }

  /** The records that XLogInsert makes of a list of requests, one behind the other. */
  function Records(sys: System, crc: Crc, log: seq<Byte>, prev: RecPtr, qs: seq<Request>): seq<Record>
    requires forall q | q in qs :: ValidRequest(q)
    decreases |qs|
  {
    if qs == [] then []
    else
      var r := Assembled(sys, crc, qs[0], prev);
      [r] + Records(sys, crc, Insert(sys, log, prev, r), FromLinear(StartOf(sys, log)), qs[1..])
  }

  lemma {:induction false} SurvivingIsValid(sys: System, crc: Crc, log: seq<Byte>, prev: RecPtr, qs: seq<Request>,
                                            f: nat)
    requires forall q | q in qs :: ValidRequest(q)
    ensures var rs := Records(sys, crc, log, prev, qs);
            && (forall r | r in rs :: ValidRecord(r))
            && var out := Surviving(sys, log, prev, rs, f); ValidPrefix(sys, crc, out) == out
    decreases |qs|
  {
    hide Insert, Assembled, RecordIsValid, ValidRequest, ValidRecord, RecordBytes;
    if qs != [] {
      assert qs[0] in qs;
      var r := Assembled(sys, crc, qs[0], prev);
      var next, start := Insert(sys, log, prev, r), FromLinear(StartOf(sys, log));
      AssembledIsValidRecord(sys, crc, qs[0], prev);
      AssembledIsValid(sys, crc, qs[0], prev);
      SurvivingIsValid(sys, crc, next, start, qs[1..], f);
      var rest := Records(sys, crc, next, start, qs[1..]);
      assert ([r] + rest)[1..] == rest;
      var out := Surviving(sys, next, start, rest, f);
      var first := ReadResult(StartOf(sys, log), RecordBytes(sys, r, prev), |next|);
      assert ([first] + out)[1..] == out;
    }
  }

  /** Crash recovery, checksums included: whatever the requests, whatever pages have
      reached the disk, recovery returns the records that lie wholly within them, and all
      of them pass the check. */
  lemma CheckedRecovery(sys: System, crc: Crc, log: seq<Byte>, prev: RecPtr, qs: seq<Request>, m: seq<Byte>, f: nat)
    requires ValidSystem(sys) && LogOk(sys, log) && forall q | q in qs :: ValidRequest(q)
    requires f % 8192 == 0 && |log| <= f <= |m| && |m| % 8192 == 0 && !PageReadable(sys, m, f)
    requires m[..f] <= Image(InsertAll(sys, log, prev, Records(sys, crc, log, prev, qs)))
    ensures ReadAllValid(sys, crc, m, |log|, prev) == Surviving(sys, log, prev, Records(sys, crc, log, prev, qs), f)
  {
    hide LogOk, ReadRecord, RecordIsValid, ValidRequest, ValidRecord, PageReadable, Insert, ReadAll, ReadAllValid,
         Surviving, Records, InsertAll;
    var rs := Records(sys, crc, log, prev, qs);
    SurvivingIsValid(sys, crc, log, prev, qs, f);
    Recovery(sys, log, prev, rs, m, f);
    ReadAllValidIsPrefix(sys, crc, m, |log|, prev);
  }

  lemma {:induction false} RecordsAreAssembled(sys: System, crc: Crc, log: seq<Byte>, prev: RecPtr, qs: seq<Request>,
                                               k: nat) returns (p: RecPtr)
    requires (forall q | q in qs :: ValidRequest(q)) && k < |qs|
    ensures var rs := Records(sys, crc, log, prev, qs);
            && |rs| == |qs| && rs[k] == Assembled(sys, crc, qs[k], p)
            && forall r | r in rs :: SIZE_OF_RECORD + |r.data| < 0x1_0000_0000
    decreases |qs|
  {
    hide Insert, Assembled, ValidRequest, FromLinear;
    assert qs[0] in qs;
    var r := Assembled(sys, crc, qs[0], prev);
    AssembledFields(sys, crc, qs[0], prev);
    p := prev;
    if |qs| > 1 {
      p := RecordsAreAssembled(sys, crc, Insert(sys, log, prev, r), FromLinear(StartOf(sys, log)), qs[1..],
                               if k > 0 then k - 1 else 0);
    }
    if k == 0 {
      p := prev;
    }
  }

  /** What recovery returns for the `k`-th request, in terms of the request: in the record
      are its transaction, resource manager, flags and data, and a link to the record that
      was returned before. */
  lemma RecoveredRequest(sys: System, crc: Crc, log: seq<Byte>, prev: RecPtr, qs: seq<Request>, f: nat, k: nat)
    requires (forall q | q in qs :: ValidRequest(q))
    requires k < |Surviving(sys, log, prev, Records(sys, crc, log, prev, qs), f)| && k < |qs|
    ensures var out, q := Surviving(sys, log, prev, Records(sys, crc, log, prev, qs), f), qs[k];
            var b, before := out[k].bytes, if k == 0 then prev else FromLinear(out[k - 1].start);
            && 32 + |q.data| <= |b| && b[32..32 + |q.data|] == q.data
            && Field(sys.order, b, 4, 4) == before.xlogid && Field(sys.order, b, 8, 4) == before.xrecoff
            && Field(sys.order, b, 12, 4) == q.xid
            && Field(sys.order, b, 16, 4) == |b| && Field(sys.order, b, 20, 4) == |q.data|
            && Field(sys.order, b, 24, 1) / 16 == q.info / 16 && Field(sys.order, b, 25, 1) == q.rmid
  {
    hide Surviving, Records, Assembled, ValidRequest, Field, FromLinear;
    var p := RecordsAreAssembled(sys, crc, log, prev, qs, k);
    var rs := Records(sys, crc, log, prev, qs);
    RecoveredRecord(sys, log, prev, rs, f, k);
    assert qs[k] in qs;
    AssembledFields(sys, crc, qs[k], p);
    var b := Surviving(sys, log, prev, rs, f)[k].bytes;
    assert b[32..32 + |qs[k].data|] == b[32..][..|qs[k].data|];
  }

  // ---------------------------------------------------------------- torn records

  lemma {:induction false} ValidPrefixConcat(sys: System, crc: Crc, a: seq<ReadResult>, b: seq<ReadResult>)
    requires ValidPrefix(sys, crc, a) == a
    ensures ValidPrefix(sys, crc, a + b) == a + ValidPrefix(sys, crc, b)
    decreases |a|
  {
    hide RecordIsValid;
    if a == [] {
      assert a + b == b;
    } else {
      assert (a + b)[1..] == a[1..] + b;
      assert a == [a[0]] + ValidPrefix(sys, crc, a[1..]);
      ValidPrefixConcat(sys, crc, a[1..], b);
    }
  }

  /** Recovery from a log that breaks off anywhere and goes on with arbitrary bytes: no
      record that is wholly there is lost, and nothing is added exactly when no record is
      accepted behind the last of them. */
  lemma CheckedTornRecovery(sys: System, crc: Crc, log: seq<Byte>, prev: RecPtr, qs: seq<Request>, m: seq<Byte>, n: nat)
    requires ValidSystem(sys) && LogOk(sys, log) && forall q | q in qs :: ValidRequest(q)
    requires |log| <= n <= |m| && |m| % 8192 == 0
    requires m[..n] <= Image(InsertAll(sys, log, prev, Records(sys, crc, log, prev, qs)))
    ensures var rs := Records(sys, crc, log, prev, qs);
            var (pos, last) := SurvivingEnd(sys, log, prev, rs, n);
            var read := ReadAllValid(sys, crc, m, |log|, prev);
            && read == Surviving(sys, log, prev, rs, n) + ReadAllValid(sys, crc, m, pos, last)
            && (read == Surviving(sys, log, prev, rs, n) <==> ReadValid(sys, crc, m, pos, last) == None)
  {
    hide LogOk, ReadRecord, RecordIsValid, ValidRequest, ValidRecord, Insert, ReadAll, Surviving, SurvivingEnd, Records,
         InsertAll, ReadValid;
    var rs := Records(sys, crc, log, prev, qs);
    var (pos, last) := SurvivingEnd(sys, log, prev, rs, n);
    SurvivingIsValid(sys, crc, log, prev, qs, n);
    TornRecovery(sys, log, prev, rs, m, n);
    ReadAllValidIsPrefix(sys, crc, m, |log|, prev);
    ReadAllValidIsPrefix(sys, crc, m, pos, last);
    ValidPrefixConcat(sys, crc, Surviving(sys, log, prev, rs, n), ReadAll(sys, m, pos, last));
  }

  /** What the checksum decides: a record whose header is intact, and whose body is not
      what was written, is accepted exactly when its blocks still end where it does and the
      checksum of the two bodies is the same. */
  lemma DamagePassesExactly(sys: System, crc: Crc, q: Request, prev: RecPtr, body: seq<Byte>)
    requires ValidRequest(q)
    ensures var r := Assembled(sys, crc, q, prev);
            var rec, tail := RecordHeader(sys, r, prev) + body, HeaderTail(sys, r, prev);
            && |rec| >= SIZE_OF_RECORD
            && (RecordIsValid(sys, crc, rec) <==>
                  && BlocksEnd(sys.order, rec, r.info, SIZE_OF_RECORD + |q.data|, 0) == Some(|rec|)
                  && crc(body + tail) == crc(r.data + tail))
  {
    hide FinalInfo, BlocksEnd, BlocksBytes, RecordHeader, HeaderTail, And, Pow2, Field;
    var r := Assembled(sys, crc, q, prev);
    var rec := RecordHeader(sys, r, prev) + body;
    AssembledIsValidRecord(sys, crc, q, prev);
    RecordHeaderLength(sys, r, prev);
    HeaderParts(sys, r, prev);
    HeaderParts(sys, Unsealed(sys, q), prev);
    RecordHeaderFields(sys, r, prev, body);
    assert rec[SIZE_OF_RECORD..] == body;
    assert rec[4..SIZE_OF_RECORD] == HeaderTail(sys, r, prev);
  }
}
