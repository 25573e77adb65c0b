/** The page format of the WAL, written and read (xlog_internal.h, xlog.c). The log
    is the sequence of bytes inserted so far; its length is the linear address of
    the insertion point. */
module WalPages {
  import opened Bits
  import opened Bytes
  import opened Wrappers
  import opened WalAddress
  import opened Alignment

  const XLOG_PAGE_MAGIC := 0xD066
  const XLP_FIRST_IS_CONTRECORD := 0x0001
  const XLP_LONG_HEADER := 0x0002
  const XLP_ALL_FLAGS := 0x0003
  const SIZE_OF_SHORT_PHD := 16
  const SIZE_OF_LONG_PHD := 32
  const SIZE_OF_CONT_RECORD := 4
  const SIZE_OF_RECORD := 32
  const RM_XLOG_ID := 0
  const RM_MAX_ID := 15
  const XLOG_SWITCH := 0x40
  const MAX_BKP_LEN := 3 * (24 + 8192)

  /** What identifies this installation and history in the page headers. */
  datatype System = System(order: ByteOrder, tli: uint32, sysid: nat)

  datatype Record = Record(crc: uint32, xid: uint32, len: uint32, info: Byte, rmid: Byte, data: seq<Byte>)

  /** What ReadRecord insists on; XLOG_SWITCH records are not part of the model. */
  predicate ValidRecord(r: Record) {
    && !(r.rmid == RM_XLOG_ID && r.info == XLOG_SWITCH)
    && r.rmid <= RM_MAX_ID
    && 0 < r.len <= |r.data| <= r.len + MAX_BKP_LEN
    && SIZE_OF_RECORD + |r.data| < 0x1_0000_0000
  }

  // ---------------------------------------------------------------- fields

  /** Consecutive unsigned fields: (value, width) pairs. */
  function Pack(order: ByteOrder, fields: seq<(nat, nat)>): seq<Byte> {
    if fields == [] then [] else Store(order, fields[0].0, fields[0].1) + Pack(order, fields[1..])
  }

  function Offset(fields: seq<(nat, nat)>, i: nat): nat
    requires i <= |fields|
  {
    if i == 0 then 0 else fields[0].1 + Offset(fields[1..], i - 1)
  }

  function Field(order: ByteOrder, s: seq<Byte>, at: nat, width: nat): nat
    requires at + width <= |s|
  {
    Load(order, s[at..at + width])
  }

  lemma {:induction false} PackLength(order: ByteOrder, fields: seq<(nat, nat)>)
    ensures |Pack(order, fields)| == Offset(fields, |fields|)
  {
    if fields != [] { PackLength(order, fields[1..]); }
  }

  lemma {:induction false} FieldReadBack(order: ByteOrder, fields: seq<(nat, nat)>, i: nat, rest: seq<Byte>)
    requires i < |fields| && fields[i].0 < Pow256(fields[i].1)
    ensures var s := Pack(order, fields) + rest;
            Offset(fields, i) + fields[i].1 <= |s| && Field(order, s, Offset(fields, i), fields[i].1) == fields[i].0
  {
    hide Load, Store;
    var head, tail := Store(order, fields[0].0, fields[0].1), Pack(order, fields[1..]) + rest;
    var s := Pack(order, fields) + rest;
    assert s == head + tail;
    if i == 0 {
      assert s[..fields[0].1] == head;
      LoadStoreFits(order, fields[0].0, fields[0].1);
    } else {
      FieldReadBack(order, fields[1..], i - 1, rest);
      SliceOfConcat(head, tail, Offset(fields[1..], i - 1), fields[i].1);
    }
  }

  lemma SliceOfConcat(head: seq<Byte>, tail: seq<Byte>, at: nat, width: nat)
    requires at + width <= |tail|
    ensures (head + tail)[|head| + at..|head| + at + width] == tail[at..at + width]
  {
  }

  // ---------------------------------------------------------------- page headers

  function HeaderSize(addr: nat): (r: nat)
    ensures r == 16 || r == 32
  {
    if addr % 0x100_0000 == 0 then SIZE_OF_LONG_PHD else SIZE_OF_SHORT_PHD
  }

  function PageInfo(addr: nat, cont: bool): nat {
    (if cont then XLP_FIRST_IS_CONTRECORD else 0) + (if addr % 0x100_0000 == 0 then XLP_LONG_HEADER else 0)
  }

  function PageFields(sys: System, addr: nat, cont: bool): seq<(nat, nat)> {
    var p := FromLinear(addr);
    var short := [(XLOG_PAGE_MAGIC, 2), (PageInfo(addr, cont), 2), (sys.tli, 4), (p.xlogid, 4), (p.xrecoff, 4)];
    if addr % 0x100_0000 == 0 then short + [(sys.sysid, 8), (0x100_0000, 4), (8192, 4)] else short
  }

  function PageHeader(sys: System, addr: nat, cont: bool): seq<Byte> {
    Pack(sys.order, PageFields(sys, addr, cont))
  }

  /** ValidXLOGHeader, for the page at linear address `addr`. */
  predicate ValidHeader(sys: System, page: seq<Byte>, addr: nat)
    requires |page| == 8192
  {
    var info := Field(sys.order, page, 2, 2);
    && Field(sys.order, page, 0, 2) == XLOG_PAGE_MAGIC
    && And(info, Not(XLP_ALL_FLAGS)) == 0
    && (if And(info, XLP_LONG_HEADER) != 0 then
          && Field(sys.order, page, 16, 8) == sys.sysid
          && Field(sys.order, page, 24, 4) == 0x100_0000
          && Field(sys.order, page, 28, 4) == 8192
        else addr % 0x100_0000 != 0)
    && Field(sys.order, page, 8, 4) == FromLinear(addr).xlogid
    && Field(sys.order, page, 12, 4) == FromLinear(addr).xrecoff
    && Field(sys.order, page, 4, 4) == sys.tli
  }

  /** XLogPageHeaderSize. */
  function PageHeaderSize(sys: System, page: seq<Byte>): nat
    requires |page| == 8192
  {
    if And(Field(sys.order, page, 2, 2), XLP_LONG_HEADER) != 0 then SIZE_OF_LONG_PHD else SIZE_OF_SHORT_PHD
  }

  predicate IsContPage(sys: System, page: seq<Byte>)
    requires |page| == 8192
  {
    And(Field(sys.order, page, 2, 2), XLP_FIRST_IS_CONTRECORD) != 0
  }

  lemma PageHeaderLength(sys: System, addr: nat, cont: bool)
    ensures |PageHeader(sys, addr, cont)| == HeaderSize(addr)
  {
    hide Pack;
    PackLength(sys.order, PageFields(sys, addr, cont));
    PageOffsets(sys, addr, cont);
  }

  lemma PageOffsets(sys: System, addr: nat, cont: bool)
    ensures var f := PageFields(sys, addr, cont);
            && |f| == (if addr % 0x100_0000 == 0 then 8 else 5)
            && Offset(f, 0) == 0 && Offset(f, 1) == 2 && Offset(f, 2) == 4 && Offset(f, 3) == 8 && Offset(f, 4) == 12
            && Offset(f, 5) == 16
            && (addr % 0x100_0000 == 0 ==> Offset(f, 6) == 24 && Offset(f, 7) == 28 && Offset(f, 8) == 32)
  {
    var f := PageFields(sys, addr, cont);
    OffsetStep(f, 0); OffsetStep(f, 1); OffsetStep(f, 2); OffsetStep(f, 3); OffsetStep(f, 4);
    if addr % 0x100_0000 == 0 {
      OffsetStep(f, 5); OffsetStep(f, 6); OffsetStep(f, 7);
    }
  }

  lemma {:induction false} OffsetStep(fields: seq<(nat, nat)>, i: nat)
    requires i < |fields|
    ensures Offset(fields, i + 1) == Offset(fields, i) + fields[i].1
  {
    if i > 0 { OffsetStep(fields[1..], i - 1); }
  }

  predicate ValidSystem(sys: System) {
    sys.sysid < 0x1_0000_0000_0000_0000
  }

  lemma InfoFlags(cont: bool, addr: nat)
    ensures var info := PageInfo(addr, cont);
            && And(info, Not(XLP_ALL_FLAGS)) == 0
            && (And(info, XLP_LONG_HEADER) != 0 <==> addr % 0x100_0000 == 0)
            && (And(info, XLP_FIRST_IS_CONTRECORD) != 0 <==> cont)
  {
    hide And, Pow2, Bit;
    var info := PageInfo(addr, cont);
    assert Pow2(0) == 1 && Pow2(1) == 2 && Pow2(2) == 4 by { Pow2Constants(); }
    AndClear(info, 2);
    AndPow2(info, 0);
    AndPow2(info, 1);
    BitIsDigit(info, 0);
    BitIsDigit(info, 1);
  }

  lemma FieldWidths()
    ensures Pow256(1) == 256 && Pow256(2) == 0x1_0000 && Pow256(4) == 0x1_0000_0000
            && Pow256(8) == 0x1_0000_0000_0000_0000
  {
  }

  /** The header of the page at `addr`, field by field: it is longer on the first page of a
      segment file. */
  lemma PageHeaderFields(sys: System, addr: nat, cont: bool, rest: seq<Byte>)
    requires ValidSystem(sys)
    ensures var s, first := PageHeader(sys, addr, cont) + rest, addr % 0x100_0000 == 0;
            && |PageHeader(sys, addr, cont)| == (if first then 32 else 16)
            && Field(sys.order, s, 0, 2) == 0xD066
            && Field(sys.order, s, 2, 2) == (if cont then 1 else 0) + (if first then 2 else 0)
            && Field(sys.order, s, 4, 4) == sys.tli
            && Field(sys.order, s, 8, 4) == FromLinear(addr).xlogid
            && Field(sys.order, s, 12, 4) == FromLinear(addr).xrecoff
            && (first ==> Field(sys.order, s, 16, 8) == sys.sysid && Field(sys.order, s, 24, 4) == 16 * 1024 * 1024
                          && Field(sys.order, s, 28, 4) == 8192)
  {
    hide Pack, Offset, Field, Pow256, FromLinear;
    var f := PageFields(sys, addr, cont);
    PageHeaderLength(sys, addr, cont);
    FieldWidths();
    PageOffsets(sys, addr, cont);
    FieldReadBack(sys.order, f, 0, rest);
    FieldReadBack(sys.order, f, 1, rest);
    FieldReadBack(sys.order, f, 2, rest);
    FieldReadBack(sys.order, f, 3, rest);
    FieldReadBack(sys.order, f, 4, rest);
    if addr % 0x100_0000 == 0 {
      FieldReadBack(sys.order, f, 5, rest);
      FieldReadBack(sys.order, f, 6, rest);
      FieldReadBack(sys.order, f, 7, rest);
    }
  }

  /** A page that starts with the header written for its address passes every check
      of ValidXLOGHeader, and the flags say what was written. */
  lemma HeaderIsValid(sys: System, page: seq<Byte>, addr: nat, cont: bool)
    requires ValidSystem(sys) && |page| == 8192 && PageHeader(sys, addr, cont) <= page
    ensures ValidHeader(sys, page, addr)
    ensures PageHeaderSize(sys, page) == HeaderSize(addr)
    ensures IsContPage(sys, page) <==> cont
  {
    hide And, Field, FromLinear, PageHeader;
    var rest := page[|PageHeader(sys, addr, cont)|..];
    assert page == PageHeader(sys, addr, cont) + rest;
    PageHeaderFields(sys, addr, cont, rest);
    InfoFlags(cont, addr);
  }

  // ---------------------------------------------------------------- the writer

  /** The page that an address is on. */
  function PageBase(pos: nat): (base: nat)
    ensures base % 8192 == 0 && base <= pos < base + 8192
  {
    pos - pos % 8192
  }

  lemma PageBaseUnique(pos: nat, base: nat)
    requires base % 8192 == 0 && base <= pos < base + 8192
    ensures PageBase(pos) == base
  {
  }

  /** INSERT_FREESPACE: what is left of the current page. A log that ends on a page
      boundary has filled the page before it. */
  function FreeSpace(pos: nat): (r: nat) {
    if pos == PageBase(pos) then 0 else PageBase(pos) + 8192 - pos
  }

  function PageEnd(pos: nat): (r: nat)
    ensures r % 8192 == 0 && pos <= r < pos + 8192
  {
    hide PageBase;
    pos + FreeSpace(pos)
  }

  /** AdvanceXLInsertBuffer: the rest of the page stays zero, and a new page header
      follows. */
  function NewPage(sys: System, log: seq<Byte>, cont: bool): (r: seq<Byte>)
    ensures |r| == PageEnd(|log|) + HeaderSize(PageEnd(|log|))
  {
    PageHeaderLength(sys, PageEnd(|log|), cont);
    log + Zeros(FreeSpace(|log|)) + PageHeader(sys, PageEnd(|log|), cont)
  }

  /** The pages on disk: the page being filled ends in zeros. */
  function Image(log: seq<Byte>): seq<Byte> {
    log + Zeros(FreeSpace(|log|))
  }

  function RecordFields(r: Record, prev: RecPtr): seq<(nat, nat)> {
    [(r.crc, 4), (prev.xlogid, 4), (prev.xrecoff, 4), (r.xid, 4), (SIZE_OF_RECORD + |r.data|, 4), (r.len, 4),
     (r.info, 1), (r.rmid, 1), (0, 6)]
  }

  function RecordHeader(sys: System, r: Record, prev: RecPtr): seq<Byte> {
    Pack(sys.order, RecordFields(r, prev))
  }

  /** The record as one piece: header, then data and backup blocks. */
  function RecordBytes(sys: System, r: Record, prev: RecPtr): seq<Byte> {
    RecordHeader(sys, r, prev) + r.data
  }

  /** Where a record goes: not on this page unless its whole header fits. */
  function RecordStart(sys: System, log: seq<Byte>): seq<Byte> {
    if FreeSpace(|log|) < SIZE_OF_RECORD then NewPage(sys, log, false) else log
  }

  function Room(addr: nat): nat {
    8192 - HeaderSize(addr) - SIZE_OF_CONT_RECORD
  }

  /** A new page that continues a record of which `rem` bytes are left. */
  function ContPage(sys: System, log: seq<Byte>, rem: nat): (r: seq<Byte>)
    requires |log| % 8192 == 0
    ensures log <= r && |r| == |log| + HeaderSize(|log|) + SIZE_OF_CONT_RECORD
    ensures FreeSpace(|r|) == Room(|log|)
  {
    hide HeaderSize, Store, PageHeader, PageBase;
    PageBaseUnique(|log|, |log|);
    PageBaseUnique(|log| + HeaderSize(|log|) + SIZE_OF_CONT_RECORD, |log|);
    NewPage(sys, log, true) + Store(sys.order, rem, SIZE_OF_CONT_RECORD)
  }

  /** Record data, continued on as many pages as it takes; each continuation says
      how much is left. */
  function Continue(sys: System, log: seq<Byte>, data: seq<Byte>): (r: seq<Byte>)
    requires |log| % 8192 == 0
    ensures log <= r
    decreases |data|
  {
    if data == [] then log
    else
      hide PageBase, HeaderSize, FreeSpace, ContPage;
      var page := ContPage(sys, log, |data|);
      var room := FreeSpace(|page|);
      if |data| <= room then page + data
      else
        assert |page + data[..room]| == PageEnd(|page|);
        Continue(sys, page + data[..room], data[room..])
  }

  function AppendData(sys: System, log: seq<Byte>, data: seq<Byte>): (r: seq<Byte>)
    ensures log <= r
  {
    hide FreeSpace, Continue;
    var room := FreeSpace(|log|);
    if |data| <= room then log + data
    else
      assert |log + data[..room]| == PageEnd(|log|);
      Continue(sys, log + data[..room], data[room..])
  }

  function AlignLog(log: seq<Byte>): (r: seq<Byte>)
    ensures log <= r && |r| == MaxAlign(|log|)
  {
    log + Zeros(MaxAlign(|log|) - |log|)
  }

  /** XLogInsert, for a record that starts at the address it returns beside the log. */
  function Insert(sys: System, log: seq<Byte>, prev: RecPtr, r: Record): seq<Byte> {
    AlignLog(AppendData(sys, RecordStart(sys, log) + RecordHeader(sys, r, prev), r.data))
  }

  function StartOf(sys: System, log: seq<Byte>): nat {
    |RecordStart(sys, log)|
  }

  // ---------------------------------------------------------------- the reader

  /** A record that was read: where it starts, its bytes, and where the next may start. */
  datatype ReadResult = ReadResult(start: nat, bytes: seq<Byte>, next: nat)

  predicate PageReadable(sys: System, m: seq<Byte>, addr: nat) {
    addr + 8192 <= |m| && ValidHeader(sys, m[addr..addr + 8192], addr)
  }

  /** The checks that ReadRecord makes on a record header, `at` bytes into its page. */
  predicate AcceptsHeader(sys: System, page: seq<Byte>, at: nat, prev: RecPtr)
    requires at + SIZE_OF_RECORD <= |page|
  {
    var tot, len := Field(sys.order, page, at + 16, 4), Field(sys.order, page, at + 20, 4);
    var info, rmid := Field(sys.order, page, at + 24, 1), Field(sys.order, page, at + 25, 1);
    && !(rmid == RM_XLOG_ID && info == XLOG_SWITCH)
    && len != 0
    && SIZE_OF_RECORD + len <= tot <= SIZE_OF_RECORD + len + MAX_BKP_LEN
    && rmid <= RM_MAX_ID
    && Field(sys.order, page, at + 4, 4) == prev.xlogid
    && Field(sys.order, page, at + 8, 4) == prev.xrecoff
  }

  /** Where ReadRecord looks for the next record: past a tail too short for a header. */
  function ReaderPos(pos: nat): (p: nat)
    ensures pos <= p <= PageBase(p) + 8192 - SIZE_OF_RECORD
  {
    hide PageBase;
    PageBaseUnique(PageEnd(pos), PageEnd(pos));
    if PageBase(pos) + 8192 - pos < SIZE_OF_RECORD then PageEnd(pos) else pos
  }

  /** ReadRecord, continuing at address `pos` behind a record that started at `prev`. */
  function ReadRecord(sys: System, m: seq<Byte>, pos: nat, prev: RecPtr): Option<ReadResult> {
    hide PageBase, ReaderPos, Field, ValidHeader, IsContPage, AcceptsHeader, MaxAlign, ReadRest;
    var p := ReaderPos(pos);
    var base := PageBase(p);
    if !PageReadable(sys, m, base) then None
    else
      var page := m[base..base + 8192];
      var h := PageHeaderSize(sys, page);
      var at := if p == base then h else p - base;
      if at < h || (IsContPage(sys, page) && at == h) || !AcceptsHeader(sys, page, at, prev) then None
      else
        var total := Field(sys.order, page, at + 16, 4);
        if total > 8192 - at then
          match ReadRest(sys, m, base, page[at..], total)
          case None => None
          case Some(rest) => Some(ReadResult(base + at, rest.0, rest.1))
        else Some(ReadResult(base + at, page[at..at + total], base + at + MaxAlign(total)))
  }

  /** The loop that puts a record together from continuation pages. */
  function ReadRest(sys: System, m: seq<Byte>, base: nat, got: seq<Byte>, total: nat): Option<(seq<Byte>, nat)>
    decreases |m| - base
  {
    var addr := base + 8192;
    if !PageReadable(sys, m, addr) then None
    else
      var page := m[addr..addr + 8192];
      var h := PageHeaderSize(sys, page);
      var rem := Field(sys.order, page, h, SIZE_OF_CONT_RECORD);
      var d := h + SIZE_OF_CONT_RECORD;
      if !IsContPage(sys, page) || rem == 0 || total != Wrap(rem + |got|) then None
      else if rem > 8192 - d then ReadRest(sys, m, addr, got + page[d..], total)
      else Some((got + page[d..d + rem], addr + h + MaxAlign(SIZE_OF_CONT_RECORD + rem)))
  }

  /** Which pages are accepted, field by field: no unknown flag is set; a page with a long
      header has the right system, segment size and page size, and one without is not the
      first of a segment; and the address and the timeline are right. */
  lemma PageAcceptedExactly(sys: System, page: seq<Byte>, addr: nat)
    requires |page| == 8192
    ensures var info := Field(sys.order, page, 2, 2);
            && (ValidHeader(sys, page, addr) <==>
                  && Field(sys.order, page, 0, 2) == 0xD066 && info < 4
                  && Field(sys.order, page, 4, 4) == sys.tli
                  && Field(sys.order, page, 8, 4) == FromLinear(addr).xlogid
                  && Field(sys.order, page, 12, 4) == FromLinear(addr).xrecoff
                  && if info < 2 then addr % (16 * 1024 * 1024) != 0
                     else
                       && Field(sys.order, page, 16, 8) == sys.sysid
                       && Field(sys.order, page, 24, 4) == 16 * 1024 * 1024 && Field(sys.order, page, 28, 4) == 8192)
            && (PageHeaderSize(sys, page) == if (info / 2) % 2 == 1 then 32 else 16)
            && (IsContPage(sys, page) <==> info % 2 == 1)
  {
    hide And, Field, FromLinear, Pow2, Bit;
    var info := Field(sys.order, page, 2, 2);
    assert Pow2(0) == 1 && Pow2(1) == 2 && Pow2(2) == 4 by { Pow2Constants(); }
    AndClear(info, 2);
    AndPow2(info, 0);
    AndPow2(info, 1);
    BitIsDigit(info, 0);
    BitIsDigit(info, 1);
  }

  /** A tail of the page that is too short for a record header is skipped. */
  lemma ReaderSkipsTail(pos: nat)
    ensures ReaderPos(pos) == if pos % 8192 > 8192 - 32 then pos - pos % 8192 + 8192 else pos
  {
  }

  /** Where a record must not start: on a page that is not readable, within a page header,
      directly behind the header of a page that continues a record, or at a header that is
      not accepted. */
  lemma NoRecordStarts(sys: System, m: seq<Byte>, pos: nat, prev: RecPtr)
    ensures var p := ReaderPos(pos);
            var base := p - p % 8192;
            ReadRecord(sys, m, pos, prev).Some? ==>
              && PageReadable(sys, m, base)
              && var page := m[base..base + 8192];
                 var h, at := PageHeaderSize(sys, page), ReadRecord(sys, m, pos, prev).value.start - base;
                 && h <= at == (if p == base then h else p - base) && at + 32 <= 8192
                 && !(IsContPage(sys, page) && at == h)
                 && AcceptsHeader(sys, page, at, prev)
  {
    hide PageReadable, IsContPage, AcceptsHeader, MaxAlign, ReadRest, Field, ReaderPos;
  }

  /** And what must not continue it: a page that is not readable or not marked, or whose
      count of remaining bytes is zero or does not add up to the length of the record. */
  lemma NothingContinues(sys: System, m: seq<Byte>, base: nat, got: seq<Byte>, total: nat)
    ensures ReadRest(sys, m, base, got, total).Some? ==>
              && PageReadable(sys, m, base + 8192)
              && var page := m[base + 8192..base + 2 * 8192];
                 var rem := Field(sys.order, page, PageHeaderSize(sys, page), 4);
                 IsContPage(sys, page) && rem != 0 && total == (rem + |got|) % 0x1_0000_0000
  {
    hide PageReadable, IsContPage, MaxAlign, Field;
  }

  // ---------------------------------------------------------------- what a page holds

  /** The page that the last byte of a log of length `n` is on. */
  function LastPage(n: nat): (base: nat)
    requires n > 0
    ensures base % 8192 == 0 && base < n <= base + 8192
  {
    hide PageBase;
    PageBase(n - 1)
  }

  /** The page at `base` begins with its header, and the log has got past what the
      header and a continuation header take. */
  predicate OnPage(sys: System, log: seq<Byte>, base: nat, cont: bool) {
    && base % 8192 == 0 && base < |log| <= base + 8192
    && PageHeader(sys, base, cont) <= log[base..]
    && |log| - base >= HeaderSize(base) + (if cont then SIZE_OF_CONT_RECORD else 0)
  }

  /** Logs that the writer produces: aligned, and with a header on their last page. */
  predicate LogOk(sys: System, log: seq<Byte>) {
    && |log| % 8 == 0
    && (|log| > 0 ==> OnPage(sys, log, LastPage(|log|), true) || OnPage(sys, log, LastPage(|log|), false))
  }

  lemma LastPageUnique(n: nat, base: nat)
    requires base % 8192 == 0 && base < n <= base + 8192
    ensures LastPage(n) == base
  {
  }

  /** A page boundary and a higher multiple of the alignment are 8 apart. */
  lemma EightApart(f: nat, a: nat)
    requires f % 8192 == 0 && a % 8 == 0
    ensures a > f ==> a >= f + 8
    ensures a < f ==> a + 8 <= f
  {
    var i, j := 1024 * (f / 8192), a / 8;
    assert f == 8 * i && a == 8 * j;
  }

  lemma AlignWithinPage(n: nat, f: nat)
    requires f % 8192 == 0 && n <= f
    ensures MaxAlign(n) <= f
  {
    hide MaxAlign;
    EightApart(f, MaxAlign(n));
  }

  lemma OnPageExtends(sys: System, log: seq<Byte>, more: seq<Byte>, base: nat, cont: bool)
    requires OnPage(sys, log, base, cont) && log <= more && |more| <= base + 8192
    ensures OnPage(sys, more, base, cont)
  {
    hide PageHeader, HeaderSize;
    assert log[base..] <= more[base..];
  }

  lemma PageExists(addr: nat, n: nat)
    requires addr % 8192 == 0 && n % 8192 == 0 && addr < n
    ensures addr + 8192 <= n
  {
  }

  /** Reading a page that the log has started, out of any image that extends the log. */
  lemma StartedPage(sys: System, log: seq<Byte>, base: nat, cont: bool, m: seq<Byte>)
    requires ValidSystem(sys) && log <= m && base + 8192 <= |m|
    requires OnPage(sys, log, base, cont)
    ensures PageReadable(sys, m, base)
    ensures var page := m[base..base + 8192];
            && PageHeaderSize(sys, page) == HeaderSize(base)
            && (IsContPage(sys, page) <==> cont)
            && log[base..] <= page
  {
    hide ValidHeader, IsContPage, PageHeaderSize, PageHeader, HeaderSize;
    var page := m[base..base + 8192];
    assert log[base..] <= page;
    assert PageHeader(sys, base, cont) <= page;
    HeaderIsValid(sys, page, base, cont);
  }

  /** A page that belongs to another address, left over in a recycled segment, is not
      taken for the page wanted. */
  lemma StalePageIsRejected(sys: System, m: seq<Byte>, addr: nat, other: nat, cont: bool)
    requires ValidSystem(sys) && addr + 8192 <= |m|
    requires PageHeader(sys, other, cont) <= m[addr..addr + 8192]
    requires other < LOG_SPACE && addr < LOG_SPACE
    ensures PageReadable(sys, m, addr) <==> other == addr
  {
    hide And, Pack, Offset, Field, Pow256, FromLinear;
    var page := m[addr..addr + 8192];
    HeaderIsValid(sys, page, other, cont);
    if PageReadable(sys, m, addr) {
      assert FromLinear(addr) == FromLinear(other);
      LinearInjective(other, addr);
    }
  }

  lemma LinearInjective(a: nat, b: nat)
    requires a < LOG_SPACE && b < LOG_SPACE
    requires FromLinear(a) == FromLinear(b)
    ensures a == b
  {
    hide FromLinear, Linear;
    LinearRoundTrip(FromLinear(a), a);
    LinearRoundTrip(FromLinear(b), b);
  }

  // ---------------------------------------------------------------- continuation pages

  lemma Slices(log: seq<Byte>, p: seq<Byte>, s: seq<Byte>, d: seq<Byte>, m: seq<Byte>, n: nat)
    requires log + p + s + d <= m && |p| + |s| + |d| <= n && |log| + n <= |m|
    ensures var page := m[|log|..|log| + n];
            p <= page && page[|p|..|p| + |s|] == s && page[|p| + |s|..|p| + |s| + |d|] == d
  {
    var all := log + p + s + d;
    var page := m[|log|..|log| + n];
    forall i | 0 <= i < |p| + |s| + |d| ensures page[i] == all[|log| + i] {
    }
    assert p <= page;
    assert page[|p|..|p| + |s|] == s;
    assert page[|p| + |s|..|p| + |s| + |d|] == d;
  }

  lemma ContinueStep(sys: System, log: seq<Byte>, data: seq<Byte>)
    requires |log| % 8192 == 0 && data != []
    ensures var page, room := ContPage(sys, log, |data|), Room(|log|);
            && page <= Continue(sys, log, data)
            && (|data| <= room ==> Continue(sys, log, data) == page + data)
            && (|data| > room ==>
                  && |page + data[..room]| == PageEnd(|page|) == |log| + 8192
                  && Continue(sys, log, data) == Continue(sys, page + data[..room], data[room..]))
  {
    hide ContPage, HeaderSize, FreeSpace;
    var page, room := ContPage(sys, log, |data|), Room(|log|);
    if |data| > room {
      assert page + data[..room] <= Continue(sys, page + data[..room], data[room..]);
    }
  }

  lemma ContPageStarts(sys: System, log: seq<Byte>, rem: nat)
    requires |log| % 8192 == 0
    ensures ContPage(sys, log, rem) == log + PageHeader(sys, |log|, true) + Store(sys.order, rem, SIZE_OF_CONT_RECORD)
    ensures |PageHeader(sys, |log|, true)| == HeaderSize(|log|)
  {
    hide Store, PageHeader, HeaderSize;
    PageHeaderLength(sys, |log|, true);
    assert log + Zeros(0) == log;
  }

  /** What the reader finds on a continuation page. */
  lemma ContPageRead(sys: System, log: seq<Byte>, rem: nat, share: seq<Byte>, m: seq<Byte>)
    requires ValidSystem(sys) && |log| % 8192 == 0 && |share| <= Room(|log|) && 0 < rem < 0x1_0000_0000
    requires ContPage(sys, log, rem) + share <= m && |log| + 8192 <= |m|
    ensures PageReadable(sys, m, |log|)
    ensures var page, h := m[|log|..|log| + 8192], HeaderSize(|log|);
            && PageHeaderSize(sys, page) == h && IsContPage(sys, page)
            && Field(sys.order, page, h, SIZE_OF_CONT_RECORD) == rem
            && page[h + SIZE_OF_CONT_RECORD..h + SIZE_OF_CONT_RECORD + |share|] == share
  {
    hide ValidHeader, IsContPage, PageHeaderSize, PageHeader, Store, Load, ContPage;
    ContPageStarts(sys, log, rem);
    Slices(log, PageHeader(sys, |log|, true), Store(sys.order, rem, SIZE_OF_CONT_RECORD), share, m, 8192);
    HeaderIsValid(sys, m[|log|..|log| + 8192], |log|, true);
    FieldWidths();
    LoadStoreFits(sys.order, rem, SIZE_OF_CONT_RECORD);
  }

  /** Rounding up commutes with adding multiples of the alignment. */
  lemma AlignShift(base: nat, n: nat)
    requires base % 8 == 0
    ensures MaxAlign(base + n) == base + MaxAlign(n)
  {
    hide MaxAlign;
    var a, b := MaxAlign(base + n), base + MaxAlign(n);
    assert a % 8 == 0 && b % 8 == 0;
  }

  /** Record data spread over continuation pages is put together again. */
  lemma {:induction false} ContinueReadBack(sys: System, log: seq<Byte>, data: seq<Byte>, m: seq<Byte>, got: seq<Byte>)
    requires ValidSystem(sys) && |log| % 8192 == 0 && |log| >= 8192 && data != []
    requires Continue(sys, log, data) <= m && |m| % 8192 == 0
    requires |got| + |data| < 0x1_0000_0000
    ensures ReadRest(sys, m, |log| - 8192, got, |got| + |data|)
            == Some((got + data, MaxAlign(|Continue(sys, log, data)|)))
    decreases |data|
  {
    hide PageReadable, IsContPage, PageHeaderSize, MaxAlign, Wrap, Continue, ContPage, Field, HeaderSize;
    var addr, room := |log|, Room(|log|);
    var k := if |data| <= room then |data| else room;
    ContinueStep(sys, log, data);
    PageExists(addr, |m|);
    ContPageRead(sys, log, |data|, data[..k], m);
    var d := HeaderSize(addr) + SIZE_OF_CONT_RECORD;
    var page := m[addr..addr + 8192];
    if |data| > room {
      assert page[d..] == data[..k];
      var filled := ContPage(sys, log, |data|) + data[..k];
      ContinueReadBack(sys, filled, data[k..], m, got + data[..k]);
      assert got + data[..k] + data[k..] == got + data;
    } else {
      assert data[..k] == data;
      PageMultipleOfEight(addr, HeaderSize(addr));
      AlignShift(addr + HeaderSize(addr), SIZE_OF_CONT_RECORD + |data|);
    }
  }

  /** When the pages run out in the middle of a record, the reader gives up. */
  lemma {:induction false} ContinueTruncated(sys: System, log: seq<Byte>, data: seq<Byte>, whole: seq<Byte>,
                                             m: seq<Byte>, f: nat, got: seq<Byte>)
    requires ValidSystem(sys) && |log| % 8192 == 0 && |log| >= 8192 && data != []
    requires |got| + |data| < 0x1_0000_0000
    requires Continue(sys, log, data) <= whole && |log| <= f < |Continue(sys, log, data)|
    requires f % 8192 == 0 && f <= |m| && m[..f] <= whole && !PageReadable(sys, m, f)
    ensures ReadRest(sys, m, |log| - 8192, got, |got| + |data|) == None
    decreases |data|
  {
    hide PageReadable, IsContPage, PageHeaderSize, PageHeader, MaxAlign, Wrap, Store, Load, Continue, ContPage, Field;
    if |log| < f {
      var addr, room := |log|, Room(|log|);
      PageExists(addr, f);
      ContinueStep(sys, log, data);
      var filled := ContPage(sys, log, |data|) + data[..room];
      assert filled <= Continue(sys, log, data) by { ContinueGrows(sys, filled, data[room..]); }
      assert filled <= m by { PrefixWithin(filled, whole, m, f); }
      ContPageRead(sys, log, |data|, data[..room], m);
      assert m[addr..addr + 8192][HeaderSize(addr) + SIZE_OF_CONT_RECORD..] == data[..room];
      ContinueTruncated(sys, filled, data[room..], whole, m, f, got + data[..room]);
    }
  }

  lemma ContinueGrows(sys: System, log: seq<Byte>, data: seq<Byte>)
    requires |log| % 8192 == 0
    ensures log <= Continue(sys, log, data)
  {
  }

  lemma PrefixWithin(s: seq<Byte>, whole: seq<Byte>, m: seq<Byte>, f: nat)
    requires s <= whole && f <= |m| && m[..f] <= whole && |s| <= f
    ensures s <= m
  {
    assert whole[..|s|] == m[..f][..|s|];
  }

  /** Where continued data ends: on a page marked as a continuation. */
  lemma {:induction false} ContinueEnds(sys: System, log: seq<Byte>, data: seq<Byte>)
    requires |log| % 8192 == 0 && data != []
    ensures var c := Continue(sys, log, data);
            |c| > 0 && OnPage(sys, c, LastPage(|c|), true)
    decreases |data|
  {
    hide PageHeader, Store, Continue, ContPage, HeaderSize;
    ContinueStep(sys, log, data);
    var page, room := ContPage(sys, log, |data|), Room(|log|);
    if |data| > room {
      ContinueEnds(sys, page + data[..room], data[room..]);
    } else {
      ContPageStarts(sys, log, |data|);
      LastPageUnique(|page + data|, |log|);
      assert (page + data)[|log|..]
          == PageHeader(sys, |log|, true) + Store(sys.order, |data|, SIZE_OF_CONT_RECORD) + data;
    }
  }

  // ---------------------------------------------------------------- one record

  lemma OffsetZero(fields: seq<(nat, nat)>)
    ensures Offset(fields, 0) == 0
  {
  }

  lemma RecordFieldOffsets(r: Record, prev: RecPtr)
    ensures var f := RecordFields(r, prev);
            && |f| == 9
            && Offset(f, 0) == 0 && Offset(f, 1) == 4 && Offset(f, 2) == 8 && Offset(f, 3) == 12 && Offset(f, 4) == 16
            && Offset(f, 5) == 20 && Offset(f, 6) == 24 && Offset(f, 7) == 25 && Offset(f, 8) == 26
            && Offset(f, 9) == 32
  {
    hide Offset;
    var f := RecordFields(r, prev);
    assert Offset(f, 0) == 0 by { OffsetZero(f); }
    OffsetStep(f, 0); OffsetStep(f, 1); OffsetStep(f, 2); OffsetStep(f, 3); OffsetStep(f, 4);
    OffsetStep(f, 5); OffsetStep(f, 6); OffsetStep(f, 7); OffsetStep(f, 8);
  }

  lemma RecordHeaderLength(sys: System, r: Record, prev: RecPtr)
    ensures |RecordHeader(sys, r, prev)| == SIZE_OF_RECORD
  {
    hide Pack, Offset;
    PackLength(sys.order, RecordFields(r, prev));
    RecordFieldOffsets(r, prev);
  }

  /** The record header, field by field: checksum, link to the record before, transaction,
      length of all and of the resource manager's data, flags, resource manager, padding. */
  lemma RecordHeaderFields(sys: System, r: Record, prev: RecPtr, rest: seq<Byte>)
    requires SIZE_OF_RECORD + |r.data| < 0x1_0000_0000
    ensures var s := RecordHeader(sys, r, prev) + rest;
            && |RecordHeader(sys, r, prev)| == 32
            && Field(sys.order, s, 0, 4) == r.crc
            && Field(sys.order, s, 4, 4) == prev.xlogid && Field(sys.order, s, 8, 4) == prev.xrecoff
            && Field(sys.order, s, 12, 4) == r.xid
            && Field(sys.order, s, 16, 4) == 32 + |r.data| && Field(sys.order, s, 20, 4) == r.len
            && Field(sys.order, s, 24, 1) == r.info && Field(sys.order, s, 25, 1) == r.rmid
            && Field(sys.order, s, 26, 6) == 0
  {
    hide Pack, Offset, Field, Pow256;
    RecordHeaderLength(sys, r, prev);
    FieldWidths();
    RecordFieldOffsets(r, prev);
    var f := RecordFields(r, prev);
    FieldReadBack(sys.order, f, 0, rest);
    FieldReadBack(sys.order, f, 1, rest);
    FieldReadBack(sys.order, f, 2, rest);
    FieldReadBack(sys.order, f, 3, rest);
    FieldReadBack(sys.order, f, 4, rest);
    FieldReadBack(sys.order, f, 5, rest);
    FieldReadBack(sys.order, f, 6, rest);
    FieldReadBack(sys.order, f, 7, rest);
    FieldReadBack(sys.order, f, 8, rest);
  }

  lemma FieldShift(order: ByteOrder, page: seq<Byte>, at: nat, i: nat, width: nat)
    requires at + i + width <= |page|
    ensures Field(order, page, at + i, width) == Field(order, page[at..], i, width)
  {
    hide Load;
    assert page[at + i..at + i + width] == page[at..][i..i + width];
  }

  /** The header that XLogInsert writes passes the checks of ReadRecord. */
  lemma RecordAccepted(sys: System, page: seq<Byte>, at: nat, r: Record, prev: RecPtr)
    requires ValidRecord(r) && at + SIZE_OF_RECORD <= |page| && RecordHeader(sys, r, prev) <= page[at..]
    ensures AcceptsHeader(sys, page, at, prev)
    ensures Field(sys.order, page, at + 16, 4) == SIZE_OF_RECORD + |r.data|
  {
    hide RecordHeader, Field, AcceptsHeader;
    HeaderAcceptedExactly(sys, page, at, r, prev, prev);
    assert page[at..] == RecordHeader(sys, r, prev) + page[at..][|RecordHeader(sys, r, prev)|..];
    RecordHeaderFields(sys, r, prev, page[at..][|RecordHeader(sys, r, prev)|..]);
    FieldShift(sys.order, page, at, 16, 4);
  }

  /** Which record headers are accepted: one with a link to the record before, so that a
      record left over from before is told by its link; with data for the resource manager,
      and no more behind that than three backup blocks take; of a resource manager that
      there is; and no switch record. */
  lemma HeaderAcceptedExactly(sys: System, page: seq<Byte>, at: nat, r: Record, written: RecPtr, prev: RecPtr)
    requires SIZE_OF_RECORD + |r.data| < 0x1_0000_0000
    requires at + SIZE_OF_RECORD <= |page| && RecordHeader(sys, r, written) <= page[at..]
    ensures AcceptsHeader(sys, page, at, prev) <==>
            && prev == written && !(r.rmid == 0 && r.info == 0x40) && r.rmid <= 15
            && 0 < r.len <= |r.data| <= r.len + 3 * (24 + 8192)
  {
    hide RecordHeader, Field;
    var o := sys.order;
    assert page[at..] == RecordHeader(sys, r, written) + page[at..][|RecordHeader(sys, r, written)|..];
    RecordHeaderFields(sys, r, written, page[at..][|RecordHeader(sys, r, written)|..]);
    FieldShift(o, page, at, 4, 4);
    FieldShift(o, page, at, 8, 4);
    FieldShift(o, page, at, 16, 4);
    FieldShift(o, page, at, 20, 4);
    FieldShift(o, page, at, 24, 1);
    FieldShift(o, page, at, 25, 1);
  }

  /** A record may start here, and the reader that is at `p` looks here. */
  predicate StartsAt(sys: System, s: seq<Byte>, p: nat) {
    var base := PageBase(p);
    && base + HeaderSize(base) <= |s| <= base + 8192 - SIZE_OF_RECORD && |s| % 8 == 0
    && |s| == (if p == base then base + HeaderSize(base) else p)
    && (OnPage(sys, s, base, false) || (OnPage(sys, s, base, true) && |s| > base + HeaderSize(base)))
  }

  lemma PageMultipleOfEight(end: nat, h: nat)
    requires end % 8192 == 0 && h % 8 == 0
    ensures (end + h) % 8 == 0
  {
    QuotientUnique(end + h, 8, 1024 * (end / 8192) + h / 8, 0);
  }

  lemma StartOnNewPage(sys: System, log: seq<Byte>)
    ensures StartsAt(sys, NewPage(sys, log, false), PageEnd(|log|))
  {
    hide PageHeader, HeaderSize, PageBase, FreeSpace, PageEnd;
    var end := PageEnd(|log|);
    PageBaseUnique(end, end);
    PageMultipleOfEight(end, HeaderSize(end));
    PageHeaderLength(sys, end, false);
    assert NewPage(sys, log, false)[end..] == PageHeader(sys, end, false);
  }

  lemma StartOnSamePage(sys: System, log: seq<Byte>)
    requires LogOk(sys, log) && FreeSpace(|log|) >= SIZE_OF_RECORD
    ensures StartsAt(sys, log, |log|)
  {
    hide PageHeader, HeaderSize;
    LastPageUnique(|log|, PageBase(|log|));
  }

  function ReaderPage(log: seq<Byte>): (base: nat)
    ensures base % 8192 == 0
  {
    PageBase(ReaderPos(|log|))
  }

  lemma StartFacts(sys: System, log: seq<Byte>)
    requires LogOk(sys, log)
    ensures StartsAt(sys, RecordStart(sys, log), ReaderPos(|log|)) && log <= RecordStart(sys, log)
    ensures PageBase(|log|) <= ReaderPage(log) <= PageEnd(|log|)
  {
    hide StartsAt, LogOk, NewPage;
    if FreeSpace(|log|) < SIZE_OF_RECORD {
      StartOnNewPage(sys, log);
      assert log <= NewPage(sys, log, false) by { NewPageExtends(sys, log); }
    } else {
      StartOnSamePage(sys, log);
    }
  }

  lemma NewPageExtends(sys: System, log: seq<Byte>)
    ensures log <= NewPage(sys, log, false)
  {
  }

  lemma OffsetInPage(a: nat)
    ensures FromLinear(a).xrecoff % 8192 == a % 8192
  {
    assert a == 0x7_F800 * 8192 * (a / 0xFF00_0000) + a % 0xFF00_0000;
    QuotientUnique(a % 0xFF00_0000, 8192, a / 8192 - 0x7_F800 * (a / 0xFF00_0000), a % 8192);
  }

  /** Every record start is one that XRecOffIsValid accepts. */
  lemma RecordStartsAreValid(sys: System, log: seq<Byte>)
    requires LogOk(sys, log)
    ensures var off := FromLinear(StartOf(sys, log)).xrecoff % 8192; off >= 16 && 8192 - off >= 32
  {
    hide PageHeader, RecordStart, OnPage, LogOk, FromLinear;
    StartFacts(sys, log);
    var a, p := StartOf(sys, log), ReaderPos(|log|);
    var base := PageBase(p);
    QuotientUnique(a, 8192, base / 8192, a - base);
    OffsetInPage(a);
  }

  lemma HeaderOnPage(sys: System, log: seq<Byte>, r: Record, prev: RecPtr, m: seq<Byte>)
    requires ValidSystem(sys) && LogOk(sys, log) && ValidRecord(r)
    requires RecordStart(sys, log) + RecordHeader(sys, r, prev) <= m
    requires ReaderPage(log) + 8192 <= |m|
    ensures var s, base := StartOf(sys, log), ReaderPage(log);
            && base + 16 <= s <= base + 8160
            && PageReadable(sys, m, base)
            && var page, h, at := m[base..base + 8192], HeaderSize(base), s - base;
               && PageHeaderSize(sys, page) == h <= at
               && at == (if ReaderPos(|log|) == base then h else ReaderPos(|log|) - base)
               && !(IsContPage(sys, page) && at == h)
               && RecordHeader(sys, r, prev) <= page[at..]
  {
    hide ValidHeader, IsContPage, PageHeaderSize, PageHeader, HeaderSize, RecordHeader, RecordStart, LogOk, OnPage,
         PageReadable;
    StartFacts(sys, log);
    var start, base, s := RecordStart(sys, log), ReaderPage(log), StartOf(sys, log);
    StartedPage(sys, start, base, !OnPage(sys, start, base, false), m);
    assert m[base..base + 8192][s - base..] == m[s..base + 8192];
    RecordHeaderLength(sys, r, prev);
    PrefixAt(start, RecordHeader(sys, r, prev), m, base + 8192);
  }

  lemma SliceOfSlice(m: seq<Byte>, from: nat, i: nat, j: nat, to: nat)
    requires from <= i <= j <= to <= |m|
    ensures m[from..to][i - from..j - from] == m[i..j]
  {
    var a, b := m[from..to][i - from..j - from], m[i..j];
    assert |a| == |b|;
    forall k | 0 <= k < |a| ensures a[k] == b[k] {
      assert a[k] == m[from..to][i - from + k] == m[i + k];
    }
  }

  /** The reader finds the header where the writer put it; what is left to read is the
      data, on this page or on the following ones. */
  lemma HeaderReadBack(sys: System, log: seq<Byte>, r: Record, prev: RecPtr, m: seq<Byte>)
    requires ValidSystem(sys) && LogOk(sys, log) && ValidRecord(r)
    requires RecordStart(sys, log) + RecordHeader(sys, r, prev) <= m
    requires ReaderPage(log) + 8192 <= |m|
    ensures var s, base, total := StartOf(sys, log), ReaderPage(log), SIZE_OF_RECORD + |r.data|;
            && base + 16 <= s <= base + 8160
            && ReadRecord(sys, m, |log|, prev) ==
               if total > base + 8192 - s then
                 match ReadRest(sys, m, base, m[s..base + 8192], total)
                 case None => None
                 case Some(rest) => Some(ReadResult(s, rest.0, rest.1))
               else Some(ReadResult(s, m[s..s + total], s + MaxAlign(total)))
  {
    hide IsContPage, PageHeaderSize, HeaderSize, MaxAlign, RecordHeader, RecordStart, AcceptsHeader, LogOk, ReadRest,
         Field, PageReadable, ReaderPos, PageBase, ReadRecord, ValidRecord, ValidSystem, StartOf;
    HeaderOnPage(sys, log, r, prev, m);
    var s, base := StartOf(sys, log), ReaderPage(log);
    var total := SIZE_OF_RECORD + |r.data|;
    RecordAccepted(sys, m[base..base + 8192], s - base, r, prev);
    ReadRecordOn(sys, m, |log|, prev, s - base, total);
    SliceOfSlice(m, base, s, base + 8192, base + 8192);
    if total <= base + 8192 - s {
      SliceOfSlice(m, base, s, s + total, base + 8192);
    }
  }

  lemma ReadRecordOn(sys: System, m: seq<Byte>, pos: nat, prev: RecPtr, at: nat, total: nat)
    requires PageReadable(sys, m, PageBase(ReaderPos(pos))) && at + SIZE_OF_RECORD <= 8192
    requires var base := PageBase(ReaderPos(pos));
             var page := m[base..base + 8192];
             && at == (if ReaderPos(pos) == base then PageHeaderSize(sys, page) else ReaderPos(pos) - base)
             && at >= PageHeaderSize(sys, page) && !(IsContPage(sys, page) && at == PageHeaderSize(sys, page))
             && AcceptsHeader(sys, page, at, prev) && Field(sys.order, page, at + 16, 4) == total
    ensures var base := PageBase(ReaderPos(pos));
            var page := m[base..base + 8192];
            ReadRecord(sys, m, pos, prev) ==
              if total > 8192 - at then
                match ReadRest(sys, m, base, page[at..], total)
                case None => None
                case Some(rest) => Some(ReadResult(base + at, rest.0, rest.1))
              else Some(ReadResult(base + at, page[at..at + total], base + at + MaxAlign(total)))
  {
    hide IsContPage, PageHeaderSize, MaxAlign, AcceptsHeader, ReadRest, Field, ValidHeader, ReaderPos, PageBase;
  }

  lemma PrefixAt(start: seq<Byte>, next: seq<Byte>, m: seq<Byte>, to: nat)
    requires start + next <= m && |start| + |next| <= to <= |m|
    ensures next <= m[|start|..to]
  {
    assert next == (start + next)[|start|..];
  }

  lemma StartBounds(sys: System, log: seq<Byte>)
    requires LogOk(sys, log)
    ensures var s, base := StartOf(sys, log), ReaderPage(log);
            && base % 8192 == 0 && base + 16 <= s <= base + 8160 && s % 8 == 0
            && PageBase(|log|) <= base <= PageEnd(|log|)
  {
    hide PageHeader, RecordStart, LogOk, OnPage, HeaderSize;
    StartFacts(sys, log);
  }

  /** The two forms of an inserted record, whose header is at the end of `start` and
      leaves `room` on its page. */
  predicate InsertShape(sys: System, log: seq<Byte>, prev: RecPtr, r: Record, start: seq<Byte>, room: nat) {
    hide Insert, Continue, AlignLog;
    && (|r.data| <= room ==> Insert(sys, log, prev, r) == AlignLog(start + r.data))
    && (|r.data| > room ==>
          && |start + r.data[..room]| % 8192 == 0
          && Insert(sys, log, prev, r) == AlignLog(Continue(sys, start + r.data[..room], r.data[room..])))
  }

  lemma InsertForms(sys: System, log: seq<Byte>, prev: RecPtr, r: Record)
    requires LogOk(sys, log)
    ensures var start := RecordStart(sys, log) + RecordHeader(sys, r, prev);
            var room := ReaderPage(log) + 8192 - |start|;
            |start| == StartOf(sys, log) + SIZE_OF_RECORD && room >= 0 && InsertShape(sys, log, prev, r, start, room)
  {
    hide RecordHeader, RecordStart, LogOk, AppendData, AlignLog, ReaderPage, PageBase;
    StartBounds(sys, log);
    RecordHeaderLength(sys, r, prev);
    var start := RecordStart(sys, log) + RecordHeader(sys, r, prev);
    FreeSpaceOnPage(ReaderPage(log), |start|);
    AppendForms(sys, start, r.data);
  }

  lemma FreeSpaceOnPage(base: nat, n: nat)
    requires base % 8192 == 0 && base < n <= base + 8192
    ensures FreeSpace(n) == base + 8192 - n
  {
    if n < base + 8192 { PageBaseUnique(n, base); } else { PageBaseUnique(n, n); }
  }

  lemma AppendForms(sys: System, start: seq<Byte>, data: seq<Byte>)
    ensures var room := FreeSpace(|start|);
            && (|data| <= room ==> AppendData(sys, start, data) == start + data)
            && (|data| > room ==>
                  && |start + data[..room]| == PageEnd(|start|)
                  && AppendData(sys, start, data) == Continue(sys, start + data[..room], data[room..]))
  {
    hide Continue;
  }

  /** A record that was inserted is read back: its bytes, its start, and the place
      where the next record goes. */
  lemma InsertReadBack(sys: System, log: seq<Byte>, prev: RecPtr, r: Record, m: seq<Byte>)
    requires ValidSystem(sys) && LogOk(sys, log) && ValidRecord(r)
    requires Insert(sys, log, prev, r) <= m && |m| % 8192 == 0
    ensures ReadRecord(sys, m, |log|, prev)
            == Some(ReadResult(StartOf(sys, log), RecordBytes(sys, r, prev), |Insert(sys, log, prev, r)|))
  {
    hide MaxAlign, RecordHeader, RecordStart, LogOk, ReadRest, ReadRecord, Continue, Insert, ReaderPage, ValidSystem;
    StartBounds(sys, log);
    InsertForms(sys, log, prev, r);
    var s, base := StartOf(sys, log), ReaderPage(log);
    var start := RecordStart(sys, log) + RecordHeader(sys, r, prev);
    var room := base + 8192 - |start|;
    PageExists(base, |m|);
    if |r.data| <= room {
      ReadOnePage(sys, log, prev, r, m);
    } else {
      var full, rest := start + r.data[..room], r.data[room..];
      ContinueGrows(sys, full, rest);
      HeaderReadBack(sys, log, r, prev, m);
      var got := RecordHeader(sys, r, prev) + r.data[..room];
      assert RecordStart(sys, log) + got == full;
      assert full <= m;
      assert m[s..base + 8192] == got by {
        PrefixAt(RecordStart(sys, log), got, m, base + 8192);
      }
      ContinueReadBack(sys, full, rest, m, got);
      assert got + rest == RecordHeader(sys, r, prev) + r.data;
    }
  }

  /** The case of a record that fits on its page. */
  lemma ReadOnePage(sys: System, log: seq<Byte>, prev: RecPtr, r: Record, m: seq<Byte>)
    requires ValidSystem(sys) && LogOk(sys, log) && ValidRecord(r)
    requires RecordStart(sys, log) + RecordHeader(sys, r, prev) + r.data <= m && ReaderPage(log) + 8192 <= |m|
    requires StartOf(sys, log) + SIZE_OF_RECORD + |r.data| <= ReaderPage(log) + 8192
    ensures ReadRecord(sys, m, |log|, prev)
            == Some(ReadResult(StartOf(sys, log), RecordBytes(sys, r, prev),
                               MaxAlign(|RecordStart(sys, log) + RecordHeader(sys, r, prev) + r.data|)))
  {
    hide MaxAlign, RecordHeader, RecordStart, LogOk, ReadRest, ReadRecord, ReaderPage, ValidRecord, ValidSystem;
    StartBounds(sys, log);
    var s, bytes := StartOf(sys, log), RecordBytes(sys, r, prev);
    RecordHeaderLength(sys, r, prev);
    HeaderReadBack(sys, log, r, prev, m);
    assert RecordStart(sys, log) + bytes == RecordStart(sys, log) + RecordHeader(sys, r, prev) + r.data;
    PrefixAt(RecordStart(sys, log), bytes, m, s + |bytes|);
    assert m[s..s + |bytes|] == bytes;
    assert |RecordStart(sys, log) + RecordHeader(sys, r, prev) + r.data| == s + |bytes|;
    AlignShift(s, |bytes|);
  }

  /** Inserting leaves a log that can be inserted into again. */
  lemma InsertKeepsLogOk(sys: System, log: seq<Byte>, prev: RecPtr, r: Record)
    requires LogOk(sys, log)
    ensures LogOk(sys, Insert(sys, log, prev, r)) && log <= Insert(sys, log, prev, r)
    ensures |Insert(sys, log, prev, r)| >= |log| + SIZE_OF_RECORD
  {
    hide PageHeader, HeaderSize, MaxAlign, RecordHeader, RecordStart, Continue, Insert, OnPage, LogOk;
    InsertForms(sys, log, prev, r);
    StartFacts(sys, log);
    var s, base := StartOf(sys, log), ReaderPage(log);
    var start := RecordStart(sys, log) + RecordHeader(sys, r, prev);
    var room := base + 8192 - |start|;
    if |r.data| <= room {
      var cont := !OnPage(sys, RecordStart(sys, log), base, false);
      OnPageAligned(sys, RecordStart(sys, log), start + r.data, base, cont);
    } else {
      var full, rest := start + r.data[..room], r.data[room..];
      ContinueGrows(sys, full, rest);
      ContinueEnds(sys, full, rest);
      var c := Continue(sys, full, rest);
      OnPageAligned(sys, c, c, LastPage(|c|), true);
    }
  }

  lemma OnPageAligned(sys: System, s: seq<Byte>, more: seq<Byte>, base: nat, cont: bool)
    requires OnPage(sys, s, base, cont) && s <= more && |more| <= base + 8192
    ensures LogOk(sys, AlignLog(more))
  {
    hide PageHeader, HeaderSize, MaxAlign;
    var a := AlignLog(more);
    AlignWithinPage(|more|, base + 8192);
    OnPageExtends(sys, s, a, base, cont);
    LastPageUnique(|a|, base);
  }

  // ---------------------------------------------------------------- the log, byte for byte

  lemma FieldAt(order: ByteOrder, log: seq<Byte>, at: nat, s: seq<Byte>, i: nat, width: nat)
    requires at <= |log| && s <= log[at..] && i + width <= |s|
    ensures at + i + width <= |log| && Field(order, log, at + i, width) == Field(order, s, i, width)
  {
    hide Load;
    assert log[at..][i..i + width] == s[i..i + width];
    assert log[at + i..at + i + width] == log[at..][i..i + width];
  }

  /** The page header that is at `addr` in the log. */
  lemma PageHeaderAt(sys: System, log: seq<Byte>, addr: nat, cont: bool)
    requires ValidSystem(sys) && addr <= |log| && PageHeader(sys, addr, cont) <= log[addr..]
    ensures var first := addr % 0x100_0000 == 0;
            && addr + (if first then 32 else 16) <= |log|
            && Field(sys.order, log, addr, 2) == 0xD066
            && Field(sys.order, log, addr + 2, 2) == (if cont then 1 else 0) + (if first then 2 else 0)
            && Field(sys.order, log, addr + 4, 4) == sys.tli
            && Field(sys.order, log, addr + 8, 4) == FromLinear(addr).xlogid
            && Field(sys.order, log, addr + 12, 4) == FromLinear(addr).xrecoff
            && (first ==> Field(sys.order, log, addr + 16, 8) == sys.sysid
                          && Field(sys.order, log, addr + 24, 4) == 16 * 1024 * 1024
                          && Field(sys.order, log, addr + 28, 4) == 8192)
  {
    hide PageHeader, Field, FromLinear, ValidSystem;
    var h := PageHeader(sys, addr, cont);
    PageHeaderFields(sys, addr, cont, []);
    assert h + [] == h;
    FieldAt(sys.order, log, addr, h, 0, 2);
    FieldAt(sys.order, log, addr, h, 2, 2);
    FieldAt(sys.order, log, addr, h, 4, 4);
    FieldAt(sys.order, log, addr, h, 8, 4);
    FieldAt(sys.order, log, addr, h, 12, 4);
    if addr % 0x100_0000 == 0 {
      FieldAt(sys.order, log, addr, h, 16, 8);
      FieldAt(sys.order, log, addr, h, 24, 4);
      FieldAt(sys.order, log, addr, h, 28, 4);
    }
  }

  /** Where XLogInsert puts a record: at the end of the log when there is room on the page
      for 32 bytes, and otherwise behind the header of the next page, which follows zeros. */
  lemma RecordPlace(sys: System, log: seq<Byte>, s: seq<Byte>)
    requires ValidSystem(sys) && RecordStart(sys, log) <= s
    ensures var n, at := |log|, StartOf(sys, log);
            && log <= s
            && if n % 8192 != 0 && n % 8192 <= 8192 - 32 then at == n
               else
                 var page := if n % 8192 == 0 then n else n - n % 8192 + 8192;
                 var first := page % 0x100_0000 == 0;
                 && at == page + (if first then 32 else 16) <= |s|
                 && (forall k :: n <= k < page ==> s[k] == 0)
                 && Field(sys.order, s, page, 2) == 0xD066
                 && Field(sys.order, s, page + 2, 2) == (if first then 2 else 0)
                 && Field(sys.order, s, page + 4, 4) == sys.tli
                 && Field(sys.order, s, page + 8, 4) == FromLinear(page).xlogid
                 && Field(sys.order, s, page + 12, 4) == FromLinear(page).xrecoff
  {
    hide PageHeader, Field, FromLinear, ValidSystem;
    if FreeSpace(|log|) < SIZE_OF_RECORD {
      var page, start := PageEnd(|log|), RecordStart(sys, log);
      PageHeaderLength(sys, page, false);
      assert start[page..] == PageHeader(sys, page, false);
      assert PageHeader(sys, page, false) <= s[page..] by { PrefixSlice(start, s, page); }
      PageHeaderAt(sys, s, page, false);
      assert start == log + Zeros(page - |log|) + PageHeader(sys, page, false);
      forall k | |log| <= k < page ensures s[k] == 0 {
        assert s[k] == start[k];
      }
    }
  }

  lemma PrefixSlice(s: seq<Byte>, t: seq<Byte>, at: nat)
    requires s <= t && at <= |s|
    ensures s[at..] <= t[at..]
  {
  }

  /** A page that continues a record, byte for byte: its header with the flag, the number of
      bytes that are left, and as many of them as fit; the rest goes to the next page in the
      same way. */
  lemma ContinuedPage(sys: System, log: seq<Byte>, data: seq<Byte>, at: nat, k: nat)
    requires ValidSystem(sys) && |log| % 8192 == 0 && 0 < |data| < 0x1_0000_0000
    requires at == |log| + if |log| % 0x100_0000 == 0 then 32 else 16
    requires k == if at + 4 + |data| <= |log| + 8192 then |data| else |log| + 8192 - at - 4
    ensures var c := Continue(sys, log, data);
            && log <= c && at + 4 + k <= |c|
            && Field(sys.order, c, |log|, 2) == 0xD066
            && Field(sys.order, c, |log| + 2, 2) == (if at == |log| + 32 then 3 else 1)
            && Field(sys.order, c, |log| + 4, 4) == sys.tli
            && Field(sys.order, c, |log| + 8, 4) == FromLinear(|log|).xlogid
            && Field(sys.order, c, |log| + 12, 4) == FromLinear(|log|).xrecoff
            && Field(sys.order, c, at, 4) == |data|
            && c[at + 4..at + 4 + k] == data[..k]
            && if k == |data| then |c| == at + 4 + k
               else
                 var filled := c[..at + 4 + k];
                 && |filled| == |log| + 8192 && |filled| % 8192 == 0
                 && c == Continue(sys, filled, data[k..])
  {
    hide PageHeader, Field, FromLinear, ValidSystem, Store, Continue, ContPage;
    var c, room := Continue(sys, log, data), Room(|log|);
    ContinueStep(sys, log, data);
    ContPageStarts(sys, log, |data|);
    var header, rem := PageHeader(sys, |log|, true), Store(sys.order, |data|, SIZE_OF_CONT_RECORD);
    var filled := ContPage(sys, log, |data|) + data[..k];
    if |data| > room {
      ContinueGrows(sys, filled, data[k..]);
      assert c[..|filled|] == filled;
    } else {
      assert data[..k] == data;
    }
    ContinuedParts(log, header, rem, data[..k], c);
    PageHeaderAt(sys, c, |log|, true);
    StoredField(sys.order, |data|, 4);
    FieldAt(sys.order, c, at, rem, 0, 4);
  }

  lemma StoredField(order: ByteOrder, v: nat, width: nat)
    requires v < Pow256(width)
    ensures Field(order, Store(order, v, width), 0, width) == v
  {
    hide Load, Store;
    var s := Store(order, v, width);
    assert s[0..width] == s;
    LoadStoreFits(order, v, width);
  }

  lemma ContinuedParts(log: seq<Byte>, header: seq<Byte>, rem: seq<Byte>, part: seq<Byte>, c: seq<Byte>)
    requires log + header + rem + part <= c
    ensures log <= c && header <= c[|log|..] && rem <= c[|log| + |header|..]
    ensures c[|log| + |header| + |rem|..|log| + |header| + |rem| + |part|] == part
  {
    var all := log + header + rem + part;
    assert all[|log|..] == header + rem + part;
    assert all[|log| + |header|..] == rem + part;
    assert all[|log| + |header| + |rem|..] == part;
    assert c == all + c[|all|..];
  }

  /** XLogInsert, byte for byte: the record header where RecordPlace says, in one piece and
      with the fields that the caller and the log call for. What was in the log before stays. */
  lemma InsertedHeader(sys: System, log: seq<Byte>, prev: RecPtr, r: Record)
    requires SIZE_OF_RECORD + |r.data| < 0x1_0000_0000
    ensures var l, at := Insert(sys, log, prev, r), StartOf(sys, log);
            && log <= l && RecordStart(sys, log) <= l && at + 32 <= |l|
            && Field(sys.order, l, at, 4) == r.crc
            && Field(sys.order, l, at + 4, 4) == prev.xlogid && Field(sys.order, l, at + 8, 4) == prev.xrecoff
            && Field(sys.order, l, at + 12, 4) == r.xid
            && Field(sys.order, l, at + 16, 4) == 32 + |r.data| && Field(sys.order, l, at + 20, 4) == r.len
            && Field(sys.order, l, at + 24, 1) == r.info && Field(sys.order, l, at + 25, 1) == r.rmid
            && Field(sys.order, l, at + 26, 6) == 0
  {
    hide RecordHeader, Field, Insert, NewPage;
    NewPageExtends(sys, log);
    InsertedPrefix(sys, log, prev, r);
    InsertedFields(sys, Insert(sys, log, prev, r), StartOf(sys, log), r, prev);
  }

  lemma InsertedPrefix(sys: System, log: seq<Byte>, prev: RecPtr, r: Record)
    ensures var l := Insert(sys, log, prev, r);
            RecordStart(sys, log) <= l && RecordHeader(sys, r, prev) <= l[StartOf(sys, log)..]
  {
    hide RecordHeader, RecordStart, AlignLog, AppendData;
    var start, header := RecordStart(sys, log), RecordHeader(sys, r, prev);
    InsertedParts(start, header, [], Insert(sys, log, prev, r)) by {
      assert start + header + [] == start + header;
    }
  }

  /** Behind the header comes as much of the data as fits on the page. The rest is continued
      on the next page, and then there are only zeros, up to the next multiple of MAXALIGN. */
  lemma InsertedPieces(sys: System, log: seq<Byte>, prev: RecPtr, r: Record, page: nat, k: nat)
    requires LogOk(sys, log) && page % 8192 == 0 && page <= StartOf(sys, log) < page + 8192
    requires var at := StartOf(sys, log);
             k == if at + 32 + |r.data| <= page + 8192 then |r.data| else page + 8192 - at - 32
    ensures var l, piece := Insert(sys, log, prev, r), RecordStart(sys, log) + RecordHeader(sys, r, prev) + r.data[..k];
            && piece <= l && |l| % 8 == 0
            && (k == |r.data| ==> |piece| <= |l| < |piece| + 8 && forall i :: |piece| <= i < |l| ==> l[i] == 0)
            && (k < |r.data| ==>
                  && |piece| == page + 8192 && |piece| % 8192 == 0
                  && var c := Continue(sys, piece, r.data[k..]);
                     c <= l && |l| < |c| + 8 && forall i :: |c| <= i < |l| ==> l[i] == 0)
  {
    hide RecordHeader, RecordStart, LogOk, MaxAlign, Continue, Insert, ReaderPage;
    StartBounds(sys, log);
    InsertForms(sys, log, prev, r);
    PageBaseUnique(StartOf(sys, log), page);
    PageBaseUnique(StartOf(sys, log), ReaderPage(log));
    if k < |r.data| {
      ContinueGrows(sys, RecordStart(sys, log) + RecordHeader(sys, r, prev) + r.data[..k], r.data[k..]);
    } else {
      assert r.data[..k] == r.data;
    }
  }

  lemma InsertedParts(before: seq<Byte>, header: seq<Byte>, part: seq<Byte>, l: seq<Byte>)
    requires before + header + part <= l
    ensures before <= l && header <= l[|before|..]
    ensures l[|before| + |header|..|before| + |header| + |part|] == part
  {
    var all := before + header + part;
    assert all[|before|..] == header + part;
    assert all[|before| + |header|..] == part;
    assert l == all + l[|all|..];
  }

  lemma InsertedFields(sys: System, l: seq<Byte>, at: nat, r: Record, prev: RecPtr)
    requires SIZE_OF_RECORD + |r.data| < 0x1_0000_0000 && at <= |l| && RecordHeader(sys, r, prev) <= l[at..]
    ensures && at + 32 <= |l|
            && Field(sys.order, l, at, 4) == r.crc
            && Field(sys.order, l, at + 4, 4) == prev.xlogid && Field(sys.order, l, at + 8, 4) == prev.xrecoff
            && Field(sys.order, l, at + 12, 4) == r.xid
            && Field(sys.order, l, at + 16, 4) == 32 + |r.data| && Field(sys.order, l, at + 20, 4) == r.len
            && Field(sys.order, l, at + 24, 1) == r.info && Field(sys.order, l, at + 25, 1) == r.rmid
            && Field(sys.order, l, at + 26, 6) == 0
  {
    hide RecordHeader, Field;
    var h := RecordHeader(sys, r, prev);
    RecordHeaderFields(sys, r, prev, []);
    assert h + [] == h;
    FieldAt(sys.order, l, at, h, 0, 4);
    FieldAt(sys.order, l, at, h, 4, 4);
    FieldAt(sys.order, l, at, h, 8, 4);
    FieldAt(sys.order, l, at, h, 12, 4);
    FieldAt(sys.order, l, at, h, 16, 4);
    FieldAt(sys.order, l, at, h, 20, 4);
    FieldAt(sys.order, l, at, h, 24, 1);
    FieldAt(sys.order, l, at, h, 25, 1);
    FieldAt(sys.order, l, at, h, 26, 6);
  }

  // ---------------------------------------------------------------- recovery

  /** The log after a run of insertions; each record links back to the one before. */
  function InsertAll(sys: System, log: seq<Byte>, prev: RecPtr, rs: seq<Record>): seq<Byte>
    decreases |rs|
  {
    if rs == [] then log
    else InsertAll(sys, Insert(sys, log, prev, rs[0]), FromLinear(StartOf(sys, log)), rs[1..])
  }

  lemma ReadRestProgress(sys: System, m: seq<Byte>, base: nat, got: seq<Byte>, total: nat)
    ensures var r := ReadRest(sys, m, base, got, total); r.Some? ==> r.value.1 > base + 8192
    decreases |m| - base
  {
    hide ValidHeader, IsContPage, MaxAlign, Field, Wrap;
  }

  lemma ReadProgress(sys: System, m: seq<Byte>, pos: nat, prev: RecPtr)
    ensures var r := ReadRecord(sys, m, pos, prev); r.Some? ==> pos < r.value.next && pos < |m|
  {
    hide ValidHeader, IsContPage, MaxAlign, Field, Wrap, ReadRest;
    var p := ReaderPos(pos);
    var base := PageBase(p);
    if PageReadable(sys, m, base) {
      var page := m[base..base + 8192];
      var at := if p == base then PageHeaderSize(sys, page) else p - base;
      ReadRestProgress(sys, m, base, page[at..], Field(sys.order, page, at + 16, 4));
    }
  }

  /** ReadRecord again and again, as recovery calls it, until it returns nothing. */
  function ReadAll(sys: System, m: seq<Byte>, pos: nat, prev: RecPtr): seq<ReadResult>
    decreases if pos > |m| then 0 else |m| - pos + 1
  {
    match ReadRecord(sys, m, pos, prev)
    case None => []
    case Some(r) =>
      ReadProgress(sys, m, pos, prev);
      [r] + ReadAll(sys, m, r.next, FromLinear(r.start))
  }

  /** The inserted records that lie wholly within the first `f` bytes. */
  function Surviving(sys: System, log: seq<Byte>, prev: RecPtr, rs: seq<Record>, f: nat): seq<ReadResult>
    decreases |rs|
  {
    if rs == [] then []
    else
      var next := Insert(sys, log, prev, rs[0]);
      var start := StartOf(sys, log);
      if |next| > f then []
      else
        var first := ReadResult(start, RecordBytes(sys, rs[0], prev), |next|);
        [first] + Surviving(sys, next, FromLinear(start), rs[1..], f)
  }

  /** Behind the last record there are only zeros, and then a page that is not readable. */
  lemma ReadStops(sys: System, log: seq<Byte>, prev: RecPtr, m: seq<Byte>, f: nat)
    requires ValidSystem(sys) && LogOk(sys, log)
    requires f % 8192 == 0 && |log| <= f <= |m| && m[..f] <= Image(log) && !PageReadable(sys, m, f)
    ensures ReadRecord(sys, m, |log|, prev) == None
  {
    hide IsContPage, PageHeaderSize, HeaderSize, MaxAlign, LogOk, ReadRest, Field, PageReadable;
    assert f == PageEnd(|log|);
    if FreeSpace(|log|) >= SIZE_OF_RECORD {
      var base := PageBase(|log|);
      var page, at := m[base..base + 8192], |log| - base;
      assert m[..f] == Image(log);
      assert page[at + 20..at + 24] == m[..f][|log| + 20..|log| + 24] == Zeros(4);
      ZeroField(sys.order, page, at + 20);
    }
  }

  lemma ZeroField(order: ByteOrder, page: seq<Byte>, at: nat)
    requires at + 4 <= |page| && page[at..at + 4] == Zeros(4)
    ensures Field(order, page, at, 4) == 0
  {
    hide Load;
    FieldWidths();
    LoadStoreFits(order, 0, 4);
    ZeroBytes(order, 4);
  }

  lemma {:induction false} ZeroBytes(order: ByteOrder, n: nat)
    ensures Store(order, 0, n) == Zeros(n)
  {
    if n > 0 { ZeroBytes(order, n - 1); }
  }

  /** A record whose pages are not all there is not returned. */
  lemma TruncatedRecord(sys: System, log: seq<Byte>, prev: RecPtr, r: Record, whole: seq<Byte>, m: seq<Byte>, f: nat)
    requires ValidSystem(sys) && LogOk(sys, log) && ValidRecord(r)
    requires Insert(sys, log, prev, r) <= whole && |log| <= f < |Insert(sys, log, prev, r)|
    requires f % 8192 == 0 && f <= |m| && m[..f] <= whole && !PageReadable(sys, m, f)
    ensures ReadRecord(sys, m, |log|, prev) == None
  {
    hide RecordStart, LogOk, Insert, PageReadable, ReadRecord, ReaderPage, PageEnd;
    var base := ReaderPage(log);
    StartBounds(sys, log);
    BoundaryBelow(base, |log|, f);
    if base == f {
      NothingOnMissingPage(sys, m, log, prev);
    } else {
      TruncatedIsContinued(sys, log, prev, r, f);
      TruncatedData(sys, log, prev, r, base + 8192 - StartOf(sys, log) - SIZE_OF_RECORD, whole, m, f);
    }
  }

  /** A record that reaches beyond its first page has been continued. */
  lemma TruncatedIsContinued(sys: System, log: seq<Byte>, prev: RecPtr, r: Record, f: nat)
    requires ValidSystem(sys) && LogOk(sys, log) && ValidRecord(r)
    requires ReaderPage(log) + 8192 <= f < |Insert(sys, log, prev, r)|
    ensures 0 <= ReaderPage(log) + 8192 - StartOf(sys, log) - SIZE_OF_RECORD < |r.data|
  {
    hide RecordStart, RecordHeader, LogOk, Insert, Continue, ReaderPage, PageEnd, MaxAlign, ValidSystem;
    var base := ReaderPage(log);
    StartBounds(sys, log);
    InsertForms(sys, log, prev, r);
    if |r.data| <= base + 8192 - StartOf(sys, log) - SIZE_OF_RECORD {
      AlignWithinPage(|RecordStart(sys, log) + RecordHeader(sys, r, prev) + r.data|, base + 8192);
      assert false;
    }
  }

  lemma BoundaryBelow(base: nat, n: nat, f: nat)
    requires base % 8192 == 0 && f % 8192 == 0 && base <= PageEnd(n) && n <= f
    ensures base <= f && (base < f ==> base + 8192 <= f)
  {
  }

  lemma TruncatedData(sys: System, log: seq<Byte>, prev: RecPtr, r: Record, room: nat, whole: seq<Byte>, m: seq<Byte>,
                      f: nat)
    requires ValidSystem(sys) && LogOk(sys, log) && ValidRecord(r)
    requires Insert(sys, log, prev, r) <= whole && f < |Insert(sys, log, prev, r)|
    requires f % 8192 == 0 && f <= |m| && m[..f] <= whole && !PageReadable(sys, m, f)
    requires room == ReaderPage(log) + 8192 - StartOf(sys, log) - SIZE_OF_RECORD < |r.data|
    requires ReaderPage(log) + 8192 <= f
    ensures ReadRecord(sys, m, |log|, prev) == None
  {
    hide MaxAlign, RecordHeader, RecordStart, LogOk, ReadRest, Continue, Insert, PageReadable, ReadRecord, ReaderPage,
         ValidRecord, ValidSystem;
    var s, base := StartOf(sys, log), ReaderPage(log);
    StartBounds(sys, log);
    InsertForms(sys, log, prev, r);
    var start := RecordStart(sys, log) + RecordHeader(sys, r, prev);
    var full, rest := start + r.data[..room], r.data[room..];
    ContinueGrows(sys, full, rest);
    PrefixWithin(full, whole, m, f);
    HeaderReadBack(sys, log, r, prev, m);
    DataFits(r);
    AlignedBeyond(|Continue(sys, full, rest)|, f);
    ContinueTruncated(sys, full, rest, whole, m, f, m[s..base + 8192]);
  }

  lemma AlignedBeyond(n: nat, f: nat)
    requires f % 8192 == 0 && MaxAlign(n) > f
    ensures n > f
  {
    hide MaxAlign;
    EightApart(f, MaxAlign(n));
  }

  lemma DataFits(r: Record)
    requires ValidRecord(r)
    ensures SIZE_OF_RECORD + |r.data| < 0x1_0000_0000
  {
  }

  lemma NothingOnMissingPage(sys: System, m: seq<Byte>, log: seq<Byte>, prev: RecPtr)
    requires !PageReadable(sys, m, ReaderPage(log))
    ensures ReadRecord(sys, m, |log|, prev) == None
  {
    hide PageReadable;
  }

  lemma {:induction false} InsertAllExtends(sys: System, log: seq<Byte>, prev: RecPtr, rs: seq<Record>)
    requires LogOk(sys, log)
    ensures LogOk(sys, InsertAll(sys, log, prev, rs)) && log <= InsertAll(sys, log, prev, rs)
    decreases |rs|
  {
    hide LogOk, Insert;
    if rs != [] {
      InsertKeepsLogOk(sys, log, prev, rs[0]);
      InsertAllExtends(sys, Insert(sys, log, prev, rs[0]), FromLinear(StartOf(sys, log)), rs[1..]);
    }
  }

  /** Crash recovery. However many pages of the log have reached the disk, with whatever
      unreadable page after them, reading from the start returns exactly the records that
      lie wholly within those pages: in order, byte for byte, at the addresses that the
      insertions returned. */
  lemma {:induction false} Recovery(sys: System, log: seq<Byte>, prev: RecPtr, rs: seq<Record>, m: seq<Byte>, f: nat)
    requires ValidSystem(sys) && LogOk(sys, log) && forall r | r in rs :: ValidRecord(r)
    requires f % 8192 == 0 && |log| <= f <= |m| && |m| % 8192 == 0
    requires m[..f] <= Image(InsertAll(sys, log, prev, rs)) && !PageReadable(sys, m, f)
    ensures ReadAll(sys, m, |log|, prev) == Surviving(sys, log, prev, rs, f)
    decreases |rs|
  {
    hide LogOk, Insert, ReadRecord, PageReadable;
    if rs == [] {
      ReadStops(sys, log, prev, m, f);
    } else {
      var next, start := Insert(sys, log, prev, rs[0]), FromLinear(StartOf(sys, log));
      var whole := Image(InsertAll(sys, log, prev, rs));
      InsertKeepsLogOk(sys, log, prev, rs[0]);
      InsertAllExtends(sys, next, start, rs[1..]);
      assert next <= whole;
      if |next| <= f {
        PrefixWithin(next, whole, m, f);
        InsertReadBack(sys, log, prev, rs[0], m);
        Recovery(sys, next, start, rs[1..], m, f);
      } else {
        TruncatedRecord(sys, log, prev, rs[0], whole, m, f);
      }
    }
  }

  /** Where reading arrives behind the records that lie wholly within `n` bytes, and the
      start of the last one. */
  function SurvivingEnd(sys: System, log: seq<Byte>, prev: RecPtr, rs: seq<Record>, n: nat): (nat, RecPtr)
    decreases |rs|
  {
    if rs == [] || |Insert(sys, log, prev, rs[0])| > n then (|log|, prev)
    else SurvivingEnd(sys, Insert(sys, log, prev, rs[0]), FromLinear(StartOf(sys, log)), rs[1..], n)
  }

  /** Recovery from a log that breaks off anywhere, within a page or a record, and goes on
      with arbitrary bytes: no record that is wholly there is lost, and what is read after
      those is what the bytes behind the last of them amount to. */
  lemma {:induction false} TornRecovery(sys: System, log: seq<Byte>, prev: RecPtr, rs: seq<Record>, m: seq<Byte>,
                                        n: nat)
    requires ValidSystem(sys) && LogOk(sys, log) && forall r | r in rs :: ValidRecord(r)
    requires |log| <= n <= |m| && |m| % 8192 == 0 && m[..n] <= Image(InsertAll(sys, log, prev, rs))
    ensures var (pos, last) := SurvivingEnd(sys, log, prev, rs, n);
            ReadAll(sys, m, |log|, prev) == Surviving(sys, log, prev, rs, n) + ReadAll(sys, m, pos, last)
    decreases |rs|
  {
    hide LogOk, Insert, ReadRecord;
    if rs != [] && |Insert(sys, log, prev, rs[0])| <= n {
      var next, start := Insert(sys, log, prev, rs[0]), FromLinear(StartOf(sys, log));
      var whole := Image(InsertAll(sys, log, prev, rs));
      InsertKeepsLogOk(sys, log, prev, rs[0]);
      InsertAllExtends(sys, next, start, rs[1..]);
      assert next <= whole;
      PrefixWithin(next, whole, m, n);
      InsertReadBack(sys, log, prev, rs[0], m);
      TornRecovery(sys, next, start, rs[1..], m, n);
    }
  }

  /** With all pages on disk every record comes back, with its data. */
  lemma {:induction false} AllSurvive(sys: System, log: seq<Byte>, prev: RecPtr, rs: seq<Record>, f: nat)
    requires LogOk(sys, log) && |InsertAll(sys, log, prev, rs)| <= f
    ensures var out := Surviving(sys, log, prev, rs, f);
            && |out| == |rs|
            && forall i | 0 <= i < |rs| ::
                 |out[i].bytes| >= SIZE_OF_RECORD && out[i].bytes[SIZE_OF_RECORD..] == rs[i].data
    decreases |rs|
  {
    hide LogOk, Insert, RecordHeader;
    if rs != [] {
      var next, start := Insert(sys, log, prev, rs[0]), FromLinear(StartOf(sys, log));
      InsertKeepsLogOk(sys, log, prev, rs[0]);
      InsertAllExtends(sys, next, start, rs[1..]);
      AllSurvive(sys, next, start, rs[1..], f);
      RecordHeaderLength(sys, rs[0], prev);
    }
  }

  /** What comes back of a record, field by field: its own number, lengths, flags and data,
      and a link to the record that came back before it. */
  lemma {:induction false} RecoveredRecord(sys: System, log: seq<Byte>, prev: RecPtr, rs: seq<Record>, f: nat, k: nat)
    requires k < |Surviving(sys, log, prev, rs, f)|
    requires forall r | r in rs :: SIZE_OF_RECORD + |r.data| < 0x1_0000_0000
    ensures k < |rs|
    ensures var out, r := Surviving(sys, log, prev, rs, f), rs[k];
            var b, before := out[k].bytes, if k == 0 then prev else FromLinear(out[k - 1].start);
            && |b| == 32 + |r.data| && b[32..] == r.data
            && Field(sys.order, b, 0, 4) == r.crc
            && Field(sys.order, b, 4, 4) == before.xlogid && Field(sys.order, b, 8, 4) == before.xrecoff
            && Field(sys.order, b, 12, 4) == r.xid
            && Field(sys.order, b, 16, 4) == |b| && Field(sys.order, b, 20, 4) == r.len
            && Field(sys.order, b, 24, 1) == r.info && Field(sys.order, b, 25, 1) == r.rmid
            && Field(sys.order, b, 26, 6) == 0
    decreases |rs|
  {
    hide Insert, RecordHeader, Field, FromLinear, Surviving;
    SurvivingStep(sys, log, prev, rs, f);
    var next, start := Insert(sys, log, prev, rs[0]), FromLinear(StartOf(sys, log));
    if k == 0 {
      assert rs[0] in rs;
      RecordHeaderFields(sys, rs[0], prev, rs[0].data);
    } else {
      RecoveredRecord(sys, next, start, rs[1..], f, k - 1);
    }
  }

  lemma SurvivingStep(sys: System, log: seq<Byte>, prev: RecPtr, rs: seq<Record>, f: nat)
    requires Surviving(sys, log, prev, rs, f) != []
    ensures rs != []
    ensures var start, next := StartOf(sys, log), Insert(sys, log, prev, rs[0]);
            && |next| <= f
            && Surviving(sys, log, prev, rs, f) == [ReadResult(start, RecordBytes(sys, rs[0], prev), |next|)]
               + Surviving(sys, next, FromLinear(start), rs[1..], f)
  {
    hide Insert, RecordHeader, FromLinear;
  }

  /** Those that come back are the first ones, up to the last that ends within `f` bytes. */
  lemma {:induction false} RecoveredCount(sys: System, log: seq<Byte>, prev: RecPtr, rs: seq<Record>, f: nat, k: nat)
    requires LogOk(sys, log) && 0 < k <= |rs|
    ensures |Surviving(sys, log, prev, rs, f)| >= k <==> |InsertAll(sys, log, prev, rs[..k])| <= f
    decreases |rs|
  {
    hide Insert, LogOk, FromLinear;
    var next, start := Insert(sys, log, prev, rs[0]), FromLinear(StartOf(sys, log));
    InsertKeepsLogOk(sys, log, prev, rs[0]);
    InsertAllExtends(sys, next, start, rs[1..][..k - 1]);
    assert rs[..k][1..] == rs[1..][..k - 1];
    if k > 1 {
      RecoveredCount(sys, next, start, rs[1..], f, k - 1);
    }
  }

  /** Losing more pages only shortens what is read. */
  lemma {:induction false} FewerPagesFewerRecords(sys: System, log: seq<Byte>, prev: RecPtr, rs: seq<Record>, f: nat,
                                                  f': nat)
    requires f <= f'
    ensures Surviving(sys, log, prev, rs, f) <= Surviving(sys, log, prev, rs, f')
    decreases |rs|
  {
    hide Insert;
    if rs != [] {
      FewerPagesFewerRecords(sys, Insert(sys, log, prev, rs[0]), FromLinear(StartOf(sys, log)), rs[1..], f, f');
    }
  }
}
