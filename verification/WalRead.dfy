/** ReadRecord (xlog.c), step by step and with record pointers, proved to read what
    WalPages says. */
module WalRead {
  import opened Bits
  import opened Bytes
  import opened Wrappers
  import opened WalAddress
  import opened Alignment
  import opened WalPages
  import opened WalRecord

  /** No file number wraps around in a log of this size. */
  const MAX_LOG := 0xFF00_0000 * 0xFFFF_FFFF

  /** The pointer's offset in its page. */
  lemma PointerInPage(p: RecPtr)
    requires NormalOrEnd(p)
    ensures p.xrecoff % 8192 == Linear(p) - PageBase(Linear(p)) == Linear(p) % 8192
    ensures Linear(p) % 8 == 0 <==> p.xrecoff % 8 == 0
  {
    QuotientUnique(Linear(p), 8192, 0x7_F800 * p.xlogid + p.xrecoff / 8192, p.xrecoff % 8192);
    QuotientUnique(Linear(p), 8, 0x1FE0_0000 * p.xlogid + p.xrecoff / 8, p.xrecoff % 8);
  }

  /** From the end of the previous record to where the next one may start. */
  function NextStart(p: RecPtr): RecPtr {
    var q := if XLOG_BLCKSZ - p.xrecoff % 8192 < SIZE_OF_RECORD then WalAddress.NextLogPage(p) else p;
    if q.xrecoff >= XLOG_FILE_SIZE then RecPtr(Wrap(q.xlogid + 1), 0) else q
  }

  lemma NextStartIsReaderPos(p: RecPtr)
    requires NormalOrEnd(p) && Linear(p) <= MAX_LOG
    ensures Normal(NextStart(p)) && Linear(NextStart(p)) == ReaderPos(Linear(p))
  {
    hide Wrap, PageBase;
    PointerInPage(p);
    if XLOG_BLCKSZ - p.xrecoff % 8192 < SIZE_OF_RECORD {
      NextPageIsEnd(p);
    } else if p.xrecoff >= XLOG_FILE_SIZE {
      assert Linear(RecPtr(p.xlogid + 1, 0)) == Linear(p);
    }
  }

  lemma NextPageIsEnd(p: RecPtr)
    requires Normal(p) && p.xlogid < 0xFFFF_FFFF
    ensures Normal(WalAddress.NextLogPage(p)) && Linear(WalAddress.NextLogPage(p)) == PageEnd(Linear(p))
  {
    hide WalAddress.NextLogPage;
    NextLogPageIsLeast(p, 0);
  }

  /** The address of the next page of a record, in its two parts. */
  function PageAfter(p: RecPtr): RecPtr {
    var off := Wrap(p.xrecoff + XLOG_BLCKSZ);
    if off >= XLOG_FILE_SIZE then RecPtr(Wrap(p.xlogid + 1), 0) else RecPtr(p.xlogid, off)
  }

  lemma PageAfterIsLinear(p: RecPtr)
    requires Normal(p) && Linear(p) % 8192 == 0 && Linear(p) + 8192 <= MAX_LOG
    ensures Normal(PageAfter(p)) && Linear(PageAfter(p)) == Linear(p) + 8192
  {
    hide Wrap;
    PointerInPage(p);
    assert p.xrecoff == 8192 * (p.xrecoff / 8192);
  }

  lemma PagePointer(p: RecPtr)
    requires Normal(p)
    ensures var q := RecPtr(p.xlogid, p.xrecoff / 8192 * 8192);
            Normal(q) && Linear(q) == PageBase(Linear(p))
  {
    hide PageBase;
    PointerInPage(p);
  }

  /** The state of reading: where the last record started and where it ended. */
  class Reader {
    const sys: System
    const crc: Crc
    const file: seq<Byte>
    /** Whatever lies in memory behind the record that is read. */
    const behind: seq<Byte>
    var readRecPtr: RecPtr
    var endRecPtr: RecPtr

    predicate Valid()
      reads this
    {
      && |file| <= MAX_LOG && |file| % 8192 == 0 && |behind| >= MAX_BKP_LEN
      && NormalOrEnd(endRecPtr) && Linear(endRecPtr) <= |file| && Linear(endRecPtr) % 8 == 0
    }

    constructor (sys: System, crc: Crc, file: seq<Byte>, behind: seq<Byte>, endRecPtr: RecPtr, readRecPtr: RecPtr)
      requires |file| <= MAX_LOG && |file| % 8192 == 0 && |behind| >= MAX_BKP_LEN
      requires NormalOrEnd(endRecPtr) && Linear(endRecPtr) <= |file| && Linear(endRecPtr) % 8 == 0
      ensures Valid() && this.sys == sys && this.crc == crc && this.file == file
      ensures this.endRecPtr == endRecPtr && this.readRecPtr == readRecPtr
    {
      this.sys, this.crc, this.file, this.behind := sys, crc, file, behind;
      this.endRecPtr, this.readRecPtr := endRecPtr, readRecPtr;
    }

    /** XLogPageRead: the page that holds `p`, if it is there and its header is valid. */
    method PageRead(p: RecPtr) returns (page: Option<seq<Byte>>)
      requires Normal(p)
      ensures var base := PageBase(Linear(p));
              page == if PageReadable(sys, file, base) then Some(file[base..base + 8192]) else None
      ensures page.Some? ==> |page.value| == 8192 && PageBase(Linear(p)) + 8192 <= |file|
    {
      hide ValidHeader, PageBase;
      PagePointer(p);
      var base := Linear(RecPtr(p.xlogid, p.xrecoff / 8192 * 8192));
      if base + 8192 <= |file| && ValidHeader(sys, file[base..base + 8192], base) {
        page := Some(file[base..base + 8192]);
      } else {
        page := None;
      }
    }

    /** ReadRecord. Nothing changes when there is no valid record. */
    method Next() returns (record: Option<seq<Byte>>)
      requires Valid()
      modifies this
      ensures Valid()
      ensures match ReadValid(sys, crc, file, Linear(old(endRecPtr)), old(readRecPtr))
              case None => record == None && endRecPtr == old(endRecPtr) && readRecPtr == old(readRecPtr)
              case Some(r) => record == Some(r.bytes) && Linear(endRecPtr) == r.next
                              && readRecPtr == FromLinear(r.start)
    {
      hide ReadRecord, RecordIsValid, PageReadable, PageBase, IsContPage, PageHeaderSize, AcceptsHeader, MaxAlign,
           ReadRest, Field, FromLinear, ReaderPos, Linear, OffsetIn, PointerBehind, PageOf;
      var p := Start();
      var recPtr, page := FindHeader(p);
      if page == [] {
        return None;
      }
      var off := OffsetIn(recPtr);
      var total := Field(sys.order, page, off + 16, 4);
      ReadRecordOn(sys, file, Linear(endRecPtr), readRecPtr, off, total);
      LinearRoundTrip(recPtr, 0);
      var end: RecPtr;
      if total > 8192 - off {
        RestLonger(sys, file, PageBase(Linear(recPtr)), page[off..], total);
        record, end := Assemble(PageOf(recPtr), page[off..], total);
        if record == None {
          return None;
        }
      } else {
        TotalLength(sys, page, off, readRecPtr);
        RecordEnd(off, total);
        SumAligned(Linear(recPtr), MaxAlign(total));
        end := PointerBehind(recPtr, MaxAlign(total));
        record := Some(page[off..off + total]);
      }
      RecordInMemory(sys, page, off, readRecPtr, record.value, behind);
      var ok, _ := CheckRecord(sys, crc, record.value + behind, |record.value|);
      if !ok {
        return None;
      }
      endRecPtr, readRecPtr := end, recPtr;
    }

    /** The redo loop: record after record, until there is none. */
    method ReadToEnd() returns (records: seq<seq<Byte>>)
      requires Valid()
      modifies this
      ensures Valid()
      ensures records == BytesOf(ReadAllValid(sys, crc, file, Linear(old(endRecPtr)), old(readRecPtr)))
    {
      hide ReadRecord, RecordIsValid, Linear, FromLinear, ReadValid, ReadAllValid;
      records := [];
      while true
        invariant Valid()
        invariant records + BytesOf(ReadAllValid(sys, crc, file, Linear(endRecPtr), readRecPtr))
                  == BytesOf(ReadAllValid(sys, crc, file, Linear(old(endRecPtr)), old(readRecPtr)))
        decreases |file| - Linear(endRecPtr)
      {
        ReadAllStep(sys, crc, file, Linear(endRecPtr), readRecPtr);
        var record := Next();
        if record == None {
          break;
        }
        records := records + [record.value];
      }
    }

    /** Past the tail of a page that is too short, and past the end of a file. */
    method Start() returns (p: RecPtr)
      requires Valid()
      ensures Normal(p) && Linear(p) == ReaderPos(Linear(endRecPtr)) && Linear(p) % 8 == 0
    {
      hide PageBase, Wrap, WalAddress.NextLogPage, ReaderPos;
      NextStartIsReaderPos(endRecPtr);
      ReaderPosAligned(Linear(endRecPtr));
      p := endRecPtr;
      if XLOG_BLCKSZ - p.xrecoff % 8192 < SIZE_OF_RECORD {
        p := WalAddress.NextLogPage(p);
      }
      if p.xrecoff >= XLOG_FILE_SIZE {
        p := RecPtr(Wrap(p.xlogid + 1), 0);
      }
    }

    /** The page of the record, and where on it the record header is; an empty page
        when there is no acceptable header. */
    method FindHeader(p: RecPtr) returns (recPtr: RecPtr, page: seq<Byte>)
      requires Valid() && Normal(p) && Linear(p) == ReaderPos(Linear(endRecPtr)) && Linear(p) % 8 == 0
      ensures page == [] ==> ReadRecord(sys, file, Linear(endRecPtr), readRecPtr) == None
      ensures page != [] ==>
                var base := PageBase(Linear(p));
                && PageReadable(sys, file, base) && base + 8192 <= |file| && |page| == 8192
                && page == file[base..base + 8192]
                && Normal(recPtr) && PageBase(Linear(recPtr)) == base && Linear(recPtr) % 8 == 0
                && var at := OffsetIn(recPtr);
                   && at % 8 == 0 && at + SIZE_OF_RECORD <= 8192
                   && at == (if Linear(p) == base then PageHeaderSize(sys, page) else Linear(p) - base)
                   && at >= PageHeaderSize(sys, page) && !(IsContPage(sys, page) && at == PageHeaderSize(sys, page))
                   && AcceptsHeader(sys, page, at, readRecPtr)
    {
      hide PageReadable, PageBase, IsContPage, PageHeaderSize, AcceptsHeader, MaxAlign, ReadRest, Field, ReaderPos,
           Linear, OffsetIn, BehindPageHeader;
      recPtr, page := p, [];
      var read := PageRead(p);
      if read == None {
        return;
      }
      HeaderSizeOf(sys, read.value);
      var h := PageHeaderSize(sys, read.value);
      recPtr := BehindPageHeader(p, h);
      var off := OffsetIn(recPtr);
      if off < h {
        return;
      }
      if (IsContPage(sys, read.value) && off == h) || !AcceptsHeader(sys, read.value, off, readRecPtr) {
        return;
      }
      page := read.value;
    }

    /** The loop over continuation pages, behind the page at `first`. */
    method Assemble(first: RecPtr, start: seq<Byte>, total: nat) returns (buffer: Option<seq<Byte>>, end: RecPtr)
      requires Valid() && Normal(first) && Linear(first) % 8192 == 0 && Linear(first) + 8192 <= |file|
      ensures match ReadRest(sys, file, Linear(first), start, total)
              case None => buffer == None
              case Some(r) => buffer == Some(r.0) && Linear(end) == r.1 && NormalOrEnd(end)
                              && Linear(end) <= |file| && Linear(end) % 8 == 0
    {
      hide PageReadable, IsContPage, PageHeaderSize, MaxAlign, Wrap, Field, Linear, OffsetIn, PointerBehind;
      var pagelsn, got := first, start;
      while true
        invariant Normal(pagelsn) && Linear(pagelsn) % 8192 == 0 && Linear(pagelsn) + 8192 <= |file|
        invariant ReadRest(sys, file, Linear(pagelsn), got, total) == ReadRest(sys, file, Linear(first), start, total)
        decreases |file| - Linear(pagelsn)
      {
        var page;
        pagelsn, page := NextPage(pagelsn);
        if page == None {
          return None, pagelsn;
        }
        HeaderSizeOf(sys, page.value);
        var h := PageHeaderSize(sys, page.value);
        var rem, d := Field(sys.order, page.value, h, SIZE_OF_CONT_RECORD), h + SIZE_OF_CONT_RECORD;
        if !IsContPage(sys, page.value) || rem == 0 || total != Wrap(rem + |got|) {
          return None, pagelsn;
        }
        if rem > 8192 - d {
          got := got + page.value[d..];
        } else {
          RestEnd(Linear(pagelsn), h, rem);
          PageBaseUnique(Linear(pagelsn), Linear(pagelsn));
          end := PointerBehind(pagelsn, h + MaxAlign(SIZE_OF_CONT_RECORD + rem));
          return Some(got + page.value[d..d + rem]), end;
        }
      }
    }

    method NextPage(p: RecPtr) returns (next: RecPtr, page: Option<seq<Byte>>)
      requires Valid() && Normal(p) && Linear(p) % 8192 == 0 && Linear(p) + 8192 <= |file|
      ensures Normal(next) && Linear(next) == Linear(p) + 8192 && Linear(next) % 8192 == 0
      ensures page == if PageReadable(sys, file, Linear(next)) then Some(file[Linear(next)..Linear(next) + 8192])
              else None
      ensures page.Some? ==> Linear(next) + 8192 <= |file|
    {
      hide ValidHeader, PageBase, Wrap;
      PageAfterIsLinear(p);
      NextBoundary(Linear(p));
      next := PageAfter(p);
      PageBaseUnique(Linear(next), Linear(next));
      page := PageRead(next);
    }
  }

  /** xrecoff % XLOG_BLCKSZ. */
  function OffsetIn(p: RecPtr): (off: nat)
    requires NormalOrEnd(p)
    ensures off == Linear(p) - PageBase(Linear(p))
  {
    PointerInPage(p);
    p.xrecoff % 8192
  }

  lemma OffsetAligned(p: RecPtr)
    requires NormalOrEnd(p) && Linear(p) % 8 == 0
    ensures OffsetIn(p) % 8 == 0
  {
    hide OffsetIn, PageBase, Linear;
    var a, b := Linear(p), PageBase(Linear(p));
    assert b == 8 * (1024 * (b / 8192)) && a == 8 * (a / 8);
  }

  lemma SumAligned(a: nat, b: nat)
    requires a % 8 == 0 && b % 8 == 0
    ensures (a + b) % 8 == 0
  {
  }

  /** Adding to the offset, within the page. */
  function PointerBehind(p: RecPtr, n: nat): (q: RecPtr)
    requires Normal(p) && OffsetIn(p) + n <= 8192
    ensures NormalOrEnd(q) && Linear(q) == Linear(p) + n && (OffsetIn(p) + n < 8192 ==> Normal(q))
  {
    assert p.xrecoff == 8192 * (p.xrecoff / 8192) + p.xrecoff % 8192;
    RecPtr(p.xlogid, p.xrecoff + n)
  }

  /** A record does not start in the header of its page. */
  function BehindPageHeader(p: RecPtr, h: nat): (q: RecPtr)
    requires Normal(p) && (h == 16 || h == 32) && Linear(p) % 8 == 0 && OffsetIn(p) + SIZE_OF_RECORD <= 8192
    ensures Normal(q) && PageBase(Linear(q)) == PageBase(Linear(p)) && Linear(q) % 8 == 0
    ensures OffsetIn(q) == (if OffsetIn(p) == 0 then h else OffsetIn(p))
    ensures OffsetIn(q) % 8 == 0 && OffsetIn(q) + SIZE_OF_RECORD <= 8192
  {
    hide OffsetIn, PageBase, Linear, PointerBehind;
    OffsetAligned(p);
    if OffsetIn(p) == 0 then
      InHeaderPage(Linear(p), h);
      SumAligned(Linear(p), h);
      PointerBehind(p, h)
    else p
  }

  lemma ReaderPosAligned(pos: nat)
    requires pos % 8 == 0
    ensures ReaderPos(pos) % 8 == 0
  {
    hide PageBase;
    PageMultipleOfEight(PageEnd(pos), 0);
  }

  lemma InHeaderPage(base: nat, h: nat)
    requires base % 8192 == 0 && (h == 16 || h == 32)
    ensures PageBase(base) == base == PageBase(base + h)
  {
    PageBaseUnique(base, base);
    PageBaseUnique(base + h, base);
  }

  function BytesOf(rs: seq<ReadResult>): seq<seq<Byte>> {
    if rs == [] then [] else [rs[0].bytes] + BytesOf(rs[1..])
  }

  lemma ReadAllStep(sys: System, crc: Crc, m: seq<Byte>, pos: nat, prev: RecPtr)
    ensures var r := ReadValid(sys, crc, m, pos, prev);
            r.Some? ==> pos < r.value.next && pos < |m|
    ensures BytesOf(ReadAllValid(sys, crc, m, pos, prev)) ==
              match ReadValid(sys, crc, m, pos, prev)
              case None => []
              case Some(r) => [r.bytes] + BytesOf(ReadAllValid(sys, crc, m, r.next, FromLinear(r.start)))
  {
    hide ReadRecord, RecordIsValid;
    ReadProgress(sys, m, pos, prev);
    var r := ReadValid(sys, crc, m, pos, prev);
    if r.Some? {
      var rest := ReadAllValid(sys, crc, m, r.value.next, FromLinear(r.value.start));
      assert ([r.value] + rest)[1..] == rest;
    }
  }

  /** What has been gathered of a record is its beginning, and in the end all of it. */
  lemma {:induction false} RestLonger(sys: System, m: seq<Byte>, base: nat, got: seq<Byte>, total: nat)
    ensures var r := ReadRest(sys, m, base, got, total); r.Some? ==> got <= r.value.0 && total <= |r.value.0|
    decreases |m| - base
  {
    hide ValidHeader, IsContPage, PageHeaderSize, MaxAlign, Field;
    var addr := base + 8192;
    if PageReadable(sys, m, addr) {
      var page := m[addr..addr + 8192];
      var h := PageHeaderSize(sys, page);
      HeaderSizeOf(sys, page);
      RestLonger(sys, m, addr, got + page[h + SIZE_OF_CONT_RECORD..], total);
    }
  }

  lemma TotalLength(sys: System, page: seq<Byte>, at: nat, prev: RecPtr)
    requires at + SIZE_OF_RECORD <= |page| && AcceptsHeader(sys, page, at, prev)
    ensures Field(sys.order, page, at + 16, 4) >= SIZE_OF_RECORD + Field(sys.order, page, at + 20, 4)
  {
    hide Field;
  }

  lemma SliceOfSlice(s: seq<Byte>, a: nat, b: nat, i: nat, j: nat)
    requires a <= b <= |s| && i <= j <= b - a
    ensures s[a..b][i..j] == s[a + i..a + j]
  {
    var t := s[a..b];
    assert forall k | 0 <= k < j - i :: t[i..j][k] == t[i + k] == s[a + i + k];
  }

  /** A record that begins with an accepted header, and is as long as that says at least,
      contains the data that it says it has. */
  lemma RecordInMemory(sys: System, page: seq<Byte>, at: nat, prev: RecPtr, rec: seq<Byte>, behind: seq<Byte>)
    requires at + SIZE_OF_RECORD <= |page| && AcceptsHeader(sys, page, at, prev)
    requires |rec| >= SIZE_OF_RECORD && rec[..SIZE_OF_RECORD] == page[at..at + SIZE_OF_RECORD]
    requires |rec| >= Field(sys.order, page, at + 16, 4)
    ensures (rec + behind)[..|rec|] == rec && SIZE_OF_RECORD + Field(sys.order, rec + behind, 20, 4) <= |rec|
  {
    hide AcceptsHeader, Load;
    TotalLength(sys, page, at, prev);
    SliceOfSlice(page, at, at + SIZE_OF_RECORD, 20, 24);
    assert (rec + behind)[20..24] == rec[..SIZE_OF_RECORD][20..24];
  }

  /** The start of the page that a pointer is on. */
  function PageOf(p: RecPtr): (q: RecPtr)
    requires Normal(p)
    ensures Normal(q) && Linear(q) == PageBase(Linear(p))
  {
    PagePointer(p);
    RecPtr(p.xlogid, p.xrecoff / 8192 * 8192)
  }

  lemma HeaderSizeOf(sys: System, page: seq<Byte>)
    requires |page| == 8192
    ensures PageHeaderSize(sys, page) == 16 || PageHeaderSize(sys, page) == 32
  {
  }

  lemma NextBoundary(a: nat)
    requires a % 8192 == 0
    ensures (a + 8192) % 8192 == 0
  {
  }

  lemma RecordEnd(off: nat, total: nat)
    requires off % 8 == 0 && off + total <= 8192
    ensures off + MaxAlign(total) <= 8192
  {
    hide MaxAlign;
    AlignShift(off, total);
    AlignWithinPage(off + total, 8192);
  }

  lemma RestEnd(base: nat, h: nat, rem: nat)
    requires base % 8192 == 0 && (h == 16 || h == 32) && h + 4 + rem <= 8192
    ensures h + MaxAlign(4 + rem) <= 8192 && (base + h + MaxAlign(4 + rem)) % 8 == 0
  {
    hide MaxAlign;
    RecordEnd(h, 4 + rem);
    PageMultipleOfEight(base, h + MaxAlign(4 + rem));
  }
}
