/** XLogInsert and the WAL buffer it fills (xlog.c), proved to produce the log that
    WalPages specifies. */
module WalInsert {
  import opened Bits
  import opened Bytes
  import opened Wrappers
  import opened WalAddress
  import opened Alignment
  import opened WalPages

  // ---------------------------------------------------------------- addresses

  /** The end of a page is kept as a pointer to one past its last byte; the page at
      linear address `n` then has the address the header says. */
  predicate EndsPage(p: RecPtr, n: nat) {
    XLOG_BLCKSZ <= p.xrecoff <= XLOG_FILE_SIZE && RecPtr(p.xlogid, p.xrecoff - 8192) == FromLinear(n)
  }

  /** The pointer to one past byte `n - 1`, as ReadRecord and XLogInsert return it. */
  function EndPointer(n: nat): RecPtr
    requires n > 0
  {
    RecPtr(Wrap((n - 1) / 0xFF00_0000), (n - 1) % 0xFF00_0000 + 1)
  }

  /** The next page's end, as AdvanceXLInsertBuffer computes it. */
  function NextPageEnd(p: RecPtr): RecPtr {
    if p.xrecoff >= XLOG_FILE_SIZE then RecPtr(Wrap(p.xlogid + 1), XLOG_BLCKSZ)
    else RecPtr(p.xlogid, Wrap(p.xrecoff + XLOG_BLCKSZ))
  }

  lemma NextPageEndEnds(p: RecPtr, n: nat)
    requires EndsPage(p, n) && n % 8192 == 0
    ensures EndsPage(NextPageEnd(p), n + 8192)
  {
    hide Wrap;
    var q, o := n / 0xFF00_0000, n % 0xFF00_0000;
    assert n == 0xFF00_0000 * q + o && p.xrecoff == o + 8192;
    if p.xrecoff >= XLOG_FILE_SIZE {
      QuotientUnique(n + 8192, 0xFF00_0000, q + 1, 0);
      WrapSuccessor(q);
    } else {
      OffsetsArePages(q, o, n);
      QuotientUnique(n + 8192, 0xFF00_0000, q, o + 8192);
    }
  }

  lemma WrapSuccessor(q: nat)
    ensures Wrap(Wrap(q) + 1) == Wrap(q + 1)
  {
    ModSuccessor(q, 0x1_0000_0000);
  }

  lemma OffsetsArePages(q: nat, o: nat, n: nat)
    requires n == 0xFF00_0000 * q + o && n % 8192 == 0 && o + 8192 < 0xFF00_0000
    ensures o + 8192 <= 0xFF00_0000 - 8192
  {
    var k := n / 8192 - 0x7_F800 * q;
    assert o == 8192 * k;
  }

  /** INSERT_RECPTR. */
  function InsertPointer(pageEnd: RecPtr, pos: nat): RecPtr
    requires pageEnd.xrecoff >= XLOG_BLCKSZ && pos <= XLOG_BLCKSZ
  {
    RecPtr(pageEnd.xlogid, pageEnd.xrecoff - (XLOG_BLCKSZ - pos))
  }

  lemma InsertPointerIsLinear(p: RecPtr, n: nat, pos: nat)
    requires EndsPage(p, n) && 0 < pos <= XLOG_BLCKSZ
    ensures pos < XLOG_BLCKSZ ==> InsertPointer(p, pos) == FromLinear(n + pos)
    ensures InsertPointer(p, pos) == EndPointer(n + pos)
  {
    hide Wrap;
    var q, o := n / 0xFF00_0000, n % 0xFF00_0000;
    QuotientUnique(n + pos - 1, 0xFF00_0000, q, o + pos - 1);
    if pos < XLOG_BLCKSZ {
      QuotientUnique(n + pos, 0xFF00_0000, q, o + pos);
    }
  }

  /** The end pointer of a record and the pointer where the reader goes on are the same
      byte: it differs only at the end of a file, where ReadRecord moves on to the next. */
  lemma EndPointerMoves(n: nat)
    requires n > 0
    ensures var p := EndPointer(n);
            FromLinear(n) == if p.xrecoff >= XLOG_FILE_SIZE then RecPtr(Wrap(p.xlogid + 1), 0) else p
  {
    hide Wrap;
    var q, o := (n - 1) / 0xFF00_0000, (n - 1) % 0xFF00_0000;
    if o + 1 == 0xFF00_0000 {
      QuotientUnique(n, 0xFF00_0000, q + 1, 0);
      WrapSuccessor(q);
    } else {
      QuotientUnique(n, 0xFF00_0000, q, o + 1);
    }
  }

  lemma SegmentStart(addr: nat)
    ensures FromLinear(addr).xrecoff % 0x100_0000 == addr % 0x100_0000
  {
    assert addr == 0xFF * 0x100_0000 * (addr / 0xFF00_0000) + addr % 0xFF00_0000;
    QuotientUnique(addr % 0xFF00_0000, 0x100_0000, addr / 0x100_0000 - 0xFF * (addr / 0xFF00_0000), addr % 0x100_0000);
  }

  /** The end of the page that offset `off` is behind. */
  function EndOfPage(off: uint32): (r: nat)
    requires 0 < off <= XLOG_FILE_SIZE
    ensures off <= r <= XLOG_FILE_SIZE && r < off + 8192
  {
    var k := (off - 1) / 8192;
    assert k < 0x7_F800;
    (k + 1) * 8192
  }

  /** The page that startup puts the end of the log on. */
  lemma StartupPage(n: nat)
    requires n > 0
    ensures 0 < EndPointer(n).xrecoff <= XLOG_FILE_SIZE
    ensures var p := EndPointer(n);
            var end := EndOfPage(p.xrecoff);
            && EndsPage(RecPtr(p.xlogid, end), LastPage(n))
            && p.xrecoff + 8192 - end == n - LastPage(n)
  {
    hide Wrap, PageBase;
    var q, o := (n - 1) / 0xFF00_0000, (n - 1) % 0xFF00_0000;
    var k, d := o / 8192, o % 8192;
    var base := n - 1 - d;
    assert base == 8192 * (0x7_F800 * q + k);
    QuotientUnique(base, 8192, 0x7_F800 * q + k, 0);
    LastPageUnique(n, base);
    QuotientUnique(base, 0xFF00_0000, q, 8192 * k);
    assert k < 0x7_F800;
  }

  /** It holds at least its header. */
  lemma StartupLog(sys: System, log: seq<Byte>)
    requires LogOk(sys, log) && |log| > 0
    ensures |log| - LastPage(|log|) >= SIZE_OF_SHORT_PHD
  {
    hide LastPage, PageHeader;
  }

  // ---------------------------------------------------------------- header bytes

  /** The page header with given flags. */
  function HeaderWith(sys: System, addr: nat, info: nat): seq<Byte> {
    Store(sys.order, XLOG_PAGE_MAGIC, 2) + Store(sys.order, info, 2)
      + Pack(sys.order, PageFields(sys, addr, false)[2..])
  }

  lemma HeaderWithIs(sys: System, addr: nat, cont: bool)
    ensures PageHeader(sys, addr, cont) == HeaderWith(sys, addr, PageInfo(addr, cont))
    ensures |HeaderWith(sys, addr, PageInfo(addr, cont))| == HeaderSize(addr)
  {
    hide Store, HeaderSize;
    var f := PageFields(sys, addr, cont);
    assert f[1..][1..] == f[2..] == PageFields(sys, addr, false)[2..];
    PackStep(sys.order, f);
    PackStep(sys.order, f[1..]);
    PageHeaderLength(sys, addr, cont);
  }

  lemma PackStep(order: ByteOrder, f: seq<(nat, nat)>)
    requires f != []
    ensures Pack(order, f) == Store(order, f[0].0, f[0].1) + Pack(order, f[1..])
  {
  }

  lemma {:induction false} PackConcat(order: ByteOrder, f: seq<(nat, nat)>, g: seq<(nat, nat)>)
    ensures Pack(order, f + g) == Pack(order, f) + Pack(order, g)
  {
    if f == [] {
      assert f + g == g;
    } else {
      assert (f + g)[1..] == f[1..] + g;
      PackConcat(order, f[1..], g);
    }
  }

  /** Changing the flags of a header in place. */
  lemma FlagsReplaced(sys: System, addr: nat, info: nat, info': nat, rest: seq<Byte>)
    requires info < 0x1_0000
    ensures Field(sys.order, HeaderWith(sys, addr, info) + rest, 2, 2) == info
    ensures Overlay(HeaderWith(sys, addr, info) + rest, 2, Store(sys.order, info', 2))
            == HeaderWith(sys, addr, info') + rest
  {
    hide Store, Load, Pack, PageFields;
    var s := HeaderWith(sys, addr, info) + rest;
    assert s[2..4] == Store(sys.order, info, 2);
    FieldWidths();
    LoadStoreFits(sys.order, info, 2);
  }

  lemma OrFlags(addr: nat)
    ensures Or(PageInfo(addr, false), XLP_FIRST_IS_CONTRECORD) == PageInfo(addr, true)
    ensures addr % 0x100_0000 == 0 ==> Or(0, XLP_LONG_HEADER) == PageInfo(addr, false)
  {
    OrOne(PageInfo(addr, false));
    OrTwo(0);
  }

  function ShortFields(sys: System, addr: RecPtr): seq<(nat, nat)> {
    [(sys.tli, 4), (addr.xlogid, 4), (addr.xrecoff, 4)]
  }

  function LongFields(sys: System): seq<(nat, nat)> {
    [(sys.sysid, 8), (XLOG_SEG_SIZE, 4), (XLOG_BLCKSZ, 4)]
  }

  lemma FieldGroups(sys: System, addr: nat)
    ensures |Pack(sys.order, ShortFields(sys, FromLinear(addr)))| == 12 && |Pack(sys.order, LongFields(sys))| == 16
    ensures HeaderWith(sys, addr, 0) ==
              Store(sys.order, XLOG_PAGE_MAGIC, 2) + Zeros(2) + Pack(sys.order, ShortFields(sys, FromLinear(addr)))
              + (if addr % 0x100_0000 == 0 then Pack(sys.order, LongFields(sys)) else [])
  {
    hide Store, FromLinear;
    var a, b, f := ShortFields(sys, FromLinear(addr)), LongFields(sys), PageFields(sys, addr, false)[2..];
    PackLength(sys.order, a); OffsetStep(a, 0); OffsetStep(a, 1); OffsetStep(a, 2);
    PackLength(sys.order, b); OffsetStep(b, 0); OffsetStep(b, 1); OffsetStep(b, 2);
    ZeroBytes(sys.order, 2);
    if addr % 0x100_0000 == 0 {
      assert f == a + b;
      PackConcat(sys.order, a, b);
    } else {
      assert f == a;
    }
  }

  /** A zeroed page after the fields have been assigned one group after the other. */
  lemma GroupsFill(a: seq<Byte>, b: seq<Byte>, c: seq<Byte>)
    requires |a| == 2 && |b| == 12 && |c| == 16
    ensures var s := Overlay(Overlay(Zeros(8192), 0, a), 4, b);
            && s == a + Zeros(2) + b + Zeros(8176)
            && Overlay(s, 16, c) == a + Zeros(2) + b + c + Zeros(8160)
  {
  }

  /** xlp_info |= flag, on the bytes of a page. */
  function InfoOr(sys: System, page: seq<Byte>, flag: nat): (r: seq<Byte>)
    requires |page| == 8192
    ensures |r| == 8192
  {
    Overlay(page, 2, Store(sys.order, Or(Field(sys.order, page, 2, 2), flag), 2))
  }

  /** A page as AdvanceXLInsertBuffer leaves it. */
  function FreshPage(sys: System, addr: nat): (r: seq<Byte>)
    ensures |r| == 8192
  {
    PageHeaderLength(sys, addr, false);
    PageHeader(sys, addr, false) + Zeros(8192 - HeaderSize(addr))
  }

  /** The assignments to the header fields build it. */
  lemma FieldsFill(sys: System, addr: nat)
    ensures |Pack(sys.order, ShortFields(sys, FromLinear(addr)))| == 12 && |Pack(sys.order, LongFields(sys))| == 16
    ensures var s := Overlay(Overlay(Zeros(8192), 0, Store(sys.order, XLOG_PAGE_MAGIC, 2)), 4,
                             Pack(sys.order, ShortFields(sys, FromLinear(addr))));
            if addr % 0x100_0000 == 0
            then InfoOr(sys, Overlay(s, 16, Pack(sys.order, LongFields(sys))), XLP_LONG_HEADER) == FreshPage(sys, addr)
            else s == FreshPage(sys, addr)
  {
    hide Store, Pack, Overlay, Or, Field, PageHeader, HeaderWith;
    FieldGroups(sys, addr);
    var c := Pack(sys.order, LongFields(sys));
    GroupsFill(Store(sys.order, XLOG_PAGE_MAGIC, 2), Pack(sys.order, ShortFields(sys, FromLinear(addr))), c);
    HeaderWithIs(sys, addr, false);
    if addr % 0x100_0000 == 0 {
      OrFlags(addr);
      FlagsReplaced(sys, addr, 0, PageInfo(addr, false), Zeros(8160));
    } else {
      assert Zeros(8176) == Zeros(8192 - 16);
    }
  }

  /** And the flag and the length make it a continuation page. */
  lemma ContFill(sys: System, addr: nat, rem: nat)
    ensures var s, len := Overlay(InfoOr(sys, FreshPage(sys, addr), XLP_FIRST_IS_CONTRECORD), HeaderSize(addr),
                                  Store(sys.order, rem, SIZE_OF_CONT_RECORD)), HeaderSize(addr) + SIZE_OF_CONT_RECORD;
            s[..len] == PageHeader(sys, addr, true) + Store(sys.order, rem, SIZE_OF_CONT_RECORD)
              && s[len..] == Zeros(8192 - len)
  {
    hide Store, Or, Field, PageHeader, HeaderWith, HeaderSize, PageInfo;
    HeaderWithIs(sys, addr, false);
    HeaderWithIs(sys, addr, true);
    OrFlags(addr);
    InfoIsSmall(addr);
    FlagsReplaced(sys, addr, PageInfo(addr, false), PageInfo(addr, true), Zeros(8192 - HeaderSize(addr)));
  }

  lemma InfoIsSmall(addr: nat)
    ensures PageInfo(addr, false) < 0x1_0000
  {
  }

  /** The rdata chain: an item without data is one whose buffer is backed up instead. */
  type Chain = seq<Option<seq<Byte>>>

  function ChainData(c: Chain): seq<Byte> {
    if c == [] then [] else (if c[0].Some? then c[0].value else []) + ChainData(c[1..])
  }

  // ---------------------------------------------------------------- the loop, on values

  /** Data that fits on the page can be appended first. */
  lemma AppendSplit(sys: System, log: seq<Byte>, a: seq<Byte>, b: seq<Byte>)
    requires |a| <= FreeSpace(|log|)
    ensures FreeSpace(|log + a|) == FreeSpace(|log|) - |a|
    ensures AppendData(sys, log, a + b) == AppendData(sys, log + a, b)
  {
    hide Continue, PageBase;
    SpaceShrinks(|log|, |a|);
    if |a + b| <= FreeSpace(|log|) {
      assert log + (a + b) == log + a + b;
    } else {
      var room := FreeSpace(|log|);
      assert log + (a + b)[..room] == log + a + b[..room - |a|];
      assert (a + b)[room..] == b[room - |a|..];
    }
  }

  lemma SpaceShrinks(n: nat, k: nat)
    requires k <= FreeSpace(n)
    ensures FreeSpace(n + k) == FreeSpace(n) - k
  {
    if k > 0 { FreeSpaceOnPage(PageBase(n), n + k); }
  }

  /** On a full page, what is left goes behind a continuation header. */
  lemma AppendOnFullPage(sys: System, log: seq<Byte>, data: seq<Byte>)
    requires |log| % 8192 == 0 && data != []
    ensures AppendData(sys, log, data) == AppendData(sys, ContPage(sys, log, |data|), data)
  {
    hide ContPage, Continue, PageBase;
    PageBaseUnique(|log|, |log|);
    assert log + data[..0] == log && data[0..] == data;
    assert AppendData(sys, log, data) == Continue(sys, log, data);
    ContinueUnfold(sys, log, data);
  }

  lemma ContinueUnfold(sys: System, log: seq<Byte>, data: seq<Byte>)
    requires |log| % 8192 == 0 && data != []
    ensures AppendData(sys, ContPage(sys, log, |data|), data) == Continue(sys, log, data)
  {
    hide ContPage, FreeSpace, PageBase;
  }

  // ---------------------------------------------------------------- the insertion state

  lemma WholePages(n: nat)
    requires n % 8192 == 0
    ensures (n + 8192) % 8192 == 0
  {
  }

  /** XLogCtlInsert with the buffer page it fills. Pages before it are in other buffers
      or on disk, and are not touched any more. */
  class Inserter {
    const sys: System
    const page: array<Byte>
    var pos: nat
    var pageEnd: RecPtr
    var prev: RecPtr
    ghost var written: seq<Byte>

    ghost predicate Shape()
      reads this
    {
      && page.Length == 8192 && SIZE_OF_SHORT_PHD <= pos <= 8192
      && |written| % 8192 == 0 && EndsPage(pageEnd, |written|)
    }

    /** Behind the insertion position the page is zero. */
    ghost predicate Valid()
      reads this, page
    {
      Shape() && page[pos..] == Zeros(8192 - pos)
    }

    ghost function Log(): (log: seq<Byte>)
      requires Shape()
      reads this, page
      ensures |log| == |written| + pos > 0
    {
      written + page[..pos]
    }

    /** The log with the whole of the current page. */
    ghost function Pages(): (log: seq<Byte>)
      requires Shape()
      reads this, page
      ensures |log| == |written| + 8192 && |log| % 8192 == 0
    {
      WholePages(|written|);
      written + page[..]
    }

    /** Startup: go on behind the last record, in the page that it ends on. */
    constructor (sys: System, endOfLog: RecPtr, lastRec: RecPtr, readBuf: seq<Byte>, ghost log: seq<Byte>)
      requires |readBuf| == 8192 && LogOk(sys, log) && |log| > 0
      requires endOfLog == EndPointer(|log|) && log[LastPage(|log|)..] <= readBuf
      ensures Valid() && Log() == log && prev == lastRec && this.sys == sys && fresh(page)
    {
      hide EndsPage, LogOk, PageBase, EndOfPage, EndPointer, Overlay;
      this.sys := sys;
      page := new Byte[8192];
      StartupPage(|log|);
      StartupLog(sys, log);
      var end := EndOfPage(endOfLog.xrecoff);
      pageEnd := RecPtr(endOfLog.xlogid, end);
      pos := endOfLog.xrecoff + 8192 - end;
      prev := lastRec;
      written := log[..LastPage(|log|)];
      new;
      OverlayAll(page[..], readBuf);
      CopyBytes(page, 0, readBuf);
      assert page[..pos] == log[LastPage(|log|)..];
      assert written + page[..pos] == log;
      ClearFrom(pos);
    }

    /** MemSet of the rest of the page. */
    method ClearFrom(from: nat)
      requires page.Length == 8192 && from <= 8192
      modifies page
      ensures page[..from] == old(page[..from]) && page[from..] == Zeros(8192 - from)
    {
      forall i | from <= i < 8192 {
        page[i] := 0;
      }
    }

    /** AdvanceXLInsertBuffer. */
    method AdvanceBuffer()
      requires Shape()
      modifies this, page
      ensures Shape() && prev == old(prev) && written == old(Pages())
      ensures page[..] == FreshPage(sys, |written|) && pos == HeaderSize(|written|)
    {
      hide EndsPage, FreshPage, Wrap;
      NextPageEndEnds(pageEnd, |written|);
      ghost var addr := |written| + 8192;
      written := written + page[..];
      if pageEnd.xrecoff >= XLOG_FILE_SIZE {
        pageEnd := RecPtr(Wrap(pageEnd.xlogid + 1), XLOG_BLCKSZ);
      } else {
        pageEnd := RecPtr(pageEnd.xlogid, Wrap(pageEnd.xrecoff + XLOG_BLCKSZ));
      }
      ClearFrom(0);
      FillHeader(addr);
    }

    method FillHeader(ghost addr: nat)
      requires page.Length == 8192 && page[..] == Zeros(8192) && EndsPage(pageEnd, addr)
      modifies `pos, page
      ensures page[..] == FreshPage(sys, addr) && pos == HeaderSize(addr)
    {
      hide FreshPage, FromLinear, Store, Pack, InfoOr, Overlay, ShortFields, LongFields;
      FieldsFill(sys, addr);
      SegmentStart(addr);
      CopyBytes(page, 0, Store(sys.order, XLOG_PAGE_MAGIC, 2));
      CopyBytes(page, 4, Pack(sys.order, ShortFields(sys, RecPtr(pageEnd.xlogid, pageEnd.xrecoff - XLOG_BLCKSZ))));
      pos := SIZE_OF_SHORT_PHD;
      if (pageEnd.xrecoff - XLOG_BLCKSZ) % 0x100_0000 == 0 {
        CopyBytes(page, 16, Pack(sys.order, LongFields(sys)));
        OrInfo(XLP_LONG_HEADER);
        pos := SIZE_OF_LONG_PHD;
      }
    }

    /** xlp_info |= flag. */
    method OrInfo(flag: nat)
      requires page.Length == 8192
      modifies page
      ensures page[..] == InfoOr(sys, old(page[..]), flag)
    {
      hide Overlay, Load, Store, Or;
      CopyBytes(page, 2, Store(sys.order, Or(Load(sys.order, page[2..4]), flag), 2));
    }

    /** The start of a continuation page: AdvanceXLInsertBuffer, the flag and the
        length of what remains. */
    method StartContPage(remaining: nat)
      requires Shape()
      modifies this, page
      ensures Valid() && prev == old(prev)
      ensures Log() == ContPage(sys, old(Pages()), remaining)
    {
      hide EndsPage, FreshPage, InfoOr, Store, ContPage, HeaderSize, Overlay, PageHeader;
      AdvanceBuffer();
      OrInfo(XLP_FIRST_IS_CONTRECORD);
      CopyBytes(page, pos, Store(sys.order, remaining, SIZE_OF_CONT_RECORD));
      pos := pos + SIZE_OF_CONT_RECORD;
      ContFill(sys, |written|, remaining);
      ContPageStarts(sys, written, remaining);
    }

    /** memcpy to the insertion position. */
    method PutBytes(data: seq<Byte>)
      requires Valid() && |data| <= 8192 - pos
      modifies `pos, page
      ensures Valid() && pos == old(pos) + |data| && Log() == old(Log()) + data
    {
      hide EndsPage, Overlay;
      ghost var before := page[..];
      CopyBytes(page, pos, data);
      PutSlices(before, pos, data);
      pos := pos + |data|;
    }

    /** The loop that appends the data, item by item and page by page. */
    method AppendChain(chain: Chain)
      requires Valid()
      modifies this, page
      ensures Valid() && prev == old(prev)
      ensures Log() == AppendData(sys, old(Log()), ChainData(chain))
    {
      hide EndsPage, AppendData, ContPage, FreeSpace;
      var c, writeLen, freespace := chain, |ChainData(chain)|, 8192 - pos;
      while writeLen > 0
        invariant Valid() && prev == old(prev)
        invariant writeLen == |ChainData(c)| && freespace == 8192 - pos
        invariant AppendData(sys, Log(), ChainData(c)) == AppendData(sys, old(Log()), ChainData(chain))
        decreases writeLen, |c|, if freespace == 0 then 1 else 0
      {
        ghost var d := ChainData(c);
        while c[0].None?
          invariant c != [] && ChainData(c) == d
          decreases |c|
        {
          c := c[1..];
        }
        var data := c[0].value;
        ghost var log := Log();
        LogSpace();
        if freespace > 0 {
          if |data| > freespace {
            PutBytes(data[..freespace]);
            c := [Some(data[freespace..])] + c[1..];
            writeLen := writeLen - freespace;
            ChainSplit(data, freespace, c);
            AppendSplit(sys, log, data[..freespace], ChainData(c));
          } else {
            PutBytes(data);
            freespace := freespace - |data|;
            writeLen := writeLen - |data|;
            c := c[1..];
            AppendSplit(sys, log, data, ChainData(c));
            continue;
          }
        }
        PageFull();
        AppendOnFullPage(sys, Log(), ChainData(c));
        StartContPage(writeLen);
        freespace := 8192 - pos;
      }
      AppendNothing(sys, Log());
    }

    lemma LogSpace()
      requires Shape()
      ensures FreeSpace(|Log()|) == 8192 - pos
    {
      hide EndsPage;
      FreeSpaceOnPage(|written|, |written| + pos);
    }

    lemma PageFull()
      requires Shape() && pos == 8192
      ensures Log() == written + page[..] && |Log()| % 8192 == 0
    {
      hide EndsPage;
      assert page[..] == page[..pos];
    }

    /** XLogInsert. The record header goes to a page that has room for all of it; what is
        returned is where the record starts and where the next one may. */
    method Insert(r: Record, chain: Chain) returns (start: RecPtr, end: RecPtr)
      requires Valid() && ChainData(chain) == r.data
      modifies this, page
      ensures Valid() && Log() == WalPages.Insert(sys, old(Log()), old(prev), r)
      ensures start == prev == FromLinear(StartOf(sys, old(Log())))
      ensures end == EndPointer(|Log()|)
    {
      hide AppendData, RecordHeader, EndPointer, FromLinear, RecordStart, AlignLog, EndsPage;
      FindStart();
      RecordHeaderLength(sys, r, prev);
      start := Position();
      PutBytes(RecordHeader(sys, r, prev));
      prev := start;
      AppendChain(chain);
      AlignPosition();
      end := Position();
    }

    method Position() returns (p: RecPtr)
      requires Shape()
      ensures pos < 8192 ==> p == FromLinear(|Log()|)
      ensures p == EndPointer(|Log()|)
    {
      hide EndPointer, FromLinear;
      InsertPointerIsLinear(pageEnd, |written|, pos);
      p := InsertPointer(pageEnd, pos);
    }

    /** To the next page, unless a record header fits on this one. */
    method FindStart()
      requires Valid()
      modifies this, page
      ensures Valid() && prev == old(prev) && pos <= 8192 - SIZE_OF_RECORD
      ensures Log() == RecordStart(sys, old(Log()))
    {
      hide EndsPage, FreshPage, PageHeader;
      LogSpace();
      if 8192 - pos < SIZE_OF_RECORD {
        ghost var log := Log();
        assert written + page[..] == log + Zeros(8192 - pos) by { assert page[..] == page[..pos] + page[pos..]; }
        AdvanceBuffer();
        FreshPageParts(sys, |written|);
      }
    }

    method AlignPosition()
      requires Valid()
      modifies `pos
      ensures Valid() && Log() == AlignLog(old(Log()))
    {
      hide EndsPage, MaxAlign;
      AlignWithinPage(pos, 8192);
      EightDivides(|written|);
      AlignShift(|written|, pos);
      ghost var zeros := page[pos..];
      assert page[pos..MaxAlign(pos)] == Zeros(MaxAlign(pos) - pos);
      pos := MaxAlign(pos);
    }
  }

  lemma OverlayAll(s: seq<Byte>, x: seq<Byte>)
    requires |s| == |x|
    ensures Overlay(s, 0, x) == x
  {
  }

  lemma PutSlices(page: seq<Byte>, pos: nat, data: seq<Byte>)
    requires |page| == 8192 && pos + |data| <= 8192 && page[pos..] == Zeros(8192 - pos)
    ensures var s := Overlay(page, pos, data);
            s[..pos + |data|] == page[..pos] + data && s[pos + |data|..] == Zeros(8192 - pos - |data|)
  {
    assert forall i :: pos <= i < 8192 ==> page[i] == page[pos..][i - pos];
  }

  lemma ChainSplit(data: seq<Byte>, k: nat, c: Chain)
    requires k < |data| && c != [] && c[0] == Some(data[k..])
    ensures data + ChainData(c[1..]) == data[..k] + ChainData(c)
  {
  }

  lemma AppendNothing(sys: System, log: seq<Byte>)
    ensures AppendData(sys, log, []) == log
  {
  }

  lemma FreshPageParts(sys: System, addr: nat)
    ensures HeaderSize(addr) <= 8192 - SIZE_OF_RECORD
    ensures FreshPage(sys, addr)[..HeaderSize(addr)] == PageHeader(sys, addr, false)
    ensures FreshPage(sys, addr)[HeaderSize(addr)..] == Zeros(8192 - HeaderSize(addr))
  {
    hide PageHeader;
    PageHeaderLength(sys, addr, false);
  }

  lemma EightDivides(n: nat)
    requires n % 8192 == 0
    ensures n % 8 == 0
  {
  }
}
