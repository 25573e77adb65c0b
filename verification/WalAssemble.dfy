/** How XLogInsert makes a record out of the caller's rdata chain (xlog.c): which data is
    taken, which buffers are backed up instead, and in what order all of it is written. */
module WalAssemble {
  import opened Bits
  import opened Bytes
  import opened WalAddress
  import opened WalInsert
  import opened WalPages
  import opened WalRecord
  import opened Wrappers

  /** An XLogRecData: data that may be NULL, and the buffer it belongs to, if any. */
  datatype Item = Item(data: Option<seq<Byte>>, buffer: Option<nat>)

  /** A verdict on buffers: the backup block of a buffer that needs one. */
  type Verdict = nat -> Option<Backup>

  function Met(bs: seq<nat>, buffer: nat): seq<nat> {
    if buffer in bs then bs else bs + [buffer]
  }

  /** The different buffers of a chain, in the order in which they appear. */
  function Buffers(items: seq<Item>): (bs: seq<nat>)
    ensures forall i, j | 0 <= i < j < |bs| :: bs[i] != bs[j]
  {
    if items == [] then []
    else
      var before, buffer := Buffers(items[..|items| - 1]), items[|items| - 1].buffer;
      if buffer.None? then before else Met(before, buffer.value)
  }

  /** The chain as it is written: what belongs to a buffer that is backed up is left out. */
  function Kept(items: seq<Item>, check: Verdict): Chain {
    seq(|items|, i requires 0 <= i < |items| =>
      if items[i].buffer.Some? && check(items[i].buffer.value).Some? then None else items[i].data)
  }

  function Slots(buffers: seq<nat>): seq<Option<nat>> {
    seq(XLR_MAX_BKP_BLOCKS, i requires 0 <= i => if i < |buffers| then Some(buffers[i]) else None)
  }

  function SlotBackups(buffers: seq<nat>, check: Verdict): seq<Option<Backup>> {
    seq(XLR_MAX_BKP_BLOCKS, i requires 0 <= i => if i < |buffers| then check(buffers[i]) else None)
  }

  /** Exactly the buffers of the chain are found. */
  lemma {:induction false} BuffersComplete(items: seq<Item>, b: nat)
    ensures b in Buffers(items) <==> exists i :: 0 <= i < |items| && items[i].buffer == Some(b)
  {
    if items != [] {
      BuffersComplete(items[..|items| - 1], b);
      assert forall i | 0 <= i < |items| :: i == |items| - 1 || items[..|items| - 1][i] == items[i];
    }
  }

  /** They are listed in the order in which they appear first. */
  lemma {:induction false} BuffersInOrder(items: seq<Item>, j: nat)
    requires j < |Buffers(items)|
    ensures exists p :: 0 <= p < |items| && items[p].buffer == Some(Buffers(items)[j])
                        && forall i :: 0 <= i < p ==>
                             items[i].buffer.None? || items[i].buffer.value in Buffers(items)[..j]
  {
    var n := |items| - 1;
    var bs, before := Buffers(items), Buffers(items[..n]);
    if j < |before| {
      BuffersInOrder(items[..n], j);
      var p :| 0 <= p < n && items[..n][p].buffer == Some(before[j])
               && forall i :: 0 <= i < p ==> items[..n][i].buffer.None? || items[..n][i].buffer.value in before[..j];
      assert bs[..j] == before[..j];
      assert forall i | 0 <= i < p :: items[i] == items[..n][i];
      assert items[p].buffer == Some(bs[j]);
    } else {
      forall i | 0 <= i < n ensures items[i].buffer.None? || items[i].buffer.value in bs[..j] {
        if items[i].buffer.Some? {
          assert items[..n][i].buffer == items[i].buffer;
          BuffersComplete(items[..n], items[i].buffer.value);
          assert bs[..j] == before;
        }
      }
      assert items[n].buffer == Some(bs[j]);
    }
  }

  lemma {:induction false} ChainDataConcat(a: Chain, b: Chain)
    ensures ChainData(a + b) == ChainData(a) + ChainData(b)
    decreases |a|
  {
    if a == [] {
      assert a + b == b;
    } else {
      assert (a + b)[1..] == a[1..] + b;
      ChainDataConcat(a[1..], b);
    }
  }

  /** What is taken from the chain, item by item: the data of each item follows that of the
      items before, unless the item has none or its buffer is backed up. */
  lemma {:induction false} KeptByItem(items: seq<Item>, check: Verdict, i: nat)
    requires i < |items|
    ensures var d := ChainData(Kept(items, check));
            var at, next := |ChainData(Kept(items[..i], check))|, |ChainData(Kept(items[..i + 1], check))|;
            && (i == 0 ==> at == 0) && at <= next <= |d| && (i == |items| - 1 ==> next == |d|)
            && d[at..next] == if items[i].data.Some? && (items[i].buffer.None? || check(items[i].buffer.value).None?)
                              then items[i].data.value else []
  {
    hide Kept, ChainData;
    KeptPrefix(items, check, i);
    KeptPrefix(items, check, i + 1);
    KeptStep(items, check, i);
    assert items[..|items|] == items;
  }

  lemma KeptPrefix(items: seq<Item>, check: Verdict, i: nat)
    requires i <= |items|
    ensures ChainData(Kept(items[..i], check)) <= ChainData(Kept(items, check))
    ensures i == 0 ==> ChainData(Kept(items[..i], check)) == []
  {
    assert Kept(items, check) == Kept(items[..i], check) + Kept(items[i..], check);
    ChainDataConcat(Kept(items[..i], check), Kept(items[i..], check));
  }

  lemma KeptStep(items: seq<Item>, check: Verdict, i: nat)
    requires i < |items|
    ensures ChainData(Kept(items[..i + 1], check))
            == ChainData(Kept(items[..i], check))
               + if items[i].data.Some? && (items[i].buffer.None? || check(items[i].buffer.value).None?)
                 then items[i].data.value else []
  {
    var last := Kept([items[i]], check);
    assert Kept(items[..i + 1], check) == Kept(items[..i], check) + last;
    ChainDataConcat(Kept(items[..i], check), last);
    assert last[1..] == [] && ChainData([]) == [];
  }

  lemma BuffersStep(items: seq<Item>, n: nat)
    requires n < |items|
    ensures var before, buffer := Buffers(items[..n]), items[n].buffer;
            Buffers(items[..n + 1]) == if buffer.None? then before else Met(before, buffer.value)
    ensures |Buffers(items[..n + 1])| <= |Buffers(items)|
  {
    assert items[..n + 1][..n] == items[..n];
    BuffersGrow(items, n + 1);
  }

  lemma {:induction false} BuffersGrow(items: seq<Item>, n: nat)
    requires n <= |items|
    ensures |Buffers(items[..n])| <= |Buffers(items)|
    decreases |items|
  {
    if n < |items| {
      BuffersGrow(items[..|items| - 1], n);
      assert items[..|items| - 1][..n] == items[..n];
    } else {
      assert items[..n] == items;
    }
  }

  /** The first slots hold the buffers met so far, and the verdicts on them. */
  predicate SlotsHold(bs: seq<nat>, check: Verdict, dtbuf: array<Option<nat>>, dtbufBkp: array<Option<Backup>>)
    reads dtbuf, dtbufBkp
  {
    && dtbuf.Length == dtbufBkp.Length == XLR_MAX_BKP_BLOCKS && |bs| <= XLR_MAX_BKP_BLOCKS
    && forall j | 0 <= j < XLR_MAX_BKP_BLOCKS ::
         && dtbuf[j] == (if j < |bs| then Some(bs[j]) else None)
         && dtbufBkp[j] == (if j < |bs| then check(bs[j]) else None)
  }

  /** The slot of a buffer, which may be a new one; none when all belong to others. */
  method FindSlot(buffer: nat, check: Verdict, dtbuf: array<Option<nat>>, dtbufBkp: array<Option<Backup>>,
                  ghost bs: seq<nat>)
    returns (i: nat)
    requires SlotsHold(bs, check, dtbuf, dtbufBkp)
    modifies dtbuf, dtbufBkp
    ensures |Met(bs, buffer)| <= XLR_MAX_BKP_BLOCKS <==> i < XLR_MAX_BKP_BLOCKS
    ensures i < XLR_MAX_BKP_BLOCKS ==>
              SlotsHold(Met(bs, buffer), check, dtbuf, dtbufBkp) && dtbufBkp[i] == check(buffer)
  {
    i := 0;
    while i < XLR_MAX_BKP_BLOCKS && dtbuf[i] != Some(buffer) && dtbuf[i] != None
      invariant i <= XLR_MAX_BKP_BLOCKS && i <= |bs|
      invariant forall j | 0 <= j < i :: bs[j] != buffer
    {
      i := i + 1;
    }
    if i < XLR_MAX_BKP_BLOCKS && dtbuf[i] == None {
      dtbuf[i] := Some(buffer);
      dtbufBkp[i] := check(buffer);
    }
  }

  /** The scan of the chain. It fails when a fourth buffer is met. */
  method Scan(items: seq<Item>, check: Verdict)
    returns (ok: bool, chain: Chain, slots: seq<Option<nat>>, backups: seq<Option<Backup>>)
    ensures ok <==> |Buffers(items)| <= XLR_MAX_BKP_BLOCKS
    ensures ok ==> chain == Kept(items, check)
    ensures ok ==> slots == Slots(Buffers(items)) && backups == SlotBackups(Buffers(items), check)
  {
    hide Buffers;
    var dtbuf := new Option<nat>[XLR_MAX_BKP_BLOCKS](_ => None);
    var dtbufBkp := new Option<Backup>[XLR_MAX_BKP_BLOCKS](_ => None);
    chain, slots, backups := [], [], [];
    NoBuffers(items);
    for n := 0 to |items|
      invariant chain == Kept(items, check)[..n]
      invariant SlotsHold(Buffers(items[..n]), check, dtbuf, dtbufBkp)
    {
      BuffersStep(items, n);
      if items[n].buffer.None? {
        chain := chain + [items[n].data];
      } else {
        var i := FindSlot(items[n].buffer.value, check, dtbuf, dtbufBkp, Buffers(items[..n]));
        if i >= XLR_MAX_BKP_BLOCKS {
          return false, chain, slots, backups;
        }
        chain := chain + [if dtbufBkp[i].Some? then None else items[n].data];
      }
    }
    assert items[..|items|] == items;
    slots, backups := dtbuf[..], dtbufBkp[..];
    ok := true;
  }

  lemma NoBuffers(items: seq<Item>)
    ensures Buffers(items[..0]) == []
  {
  }

  /** The additional chain entries of the backup blocks from the `i`-th on. */
  function BackupItems(order: ByteOrder, bs: seq<Option<Backup>>, i: nat): Chain
    requires ValidBackups(bs) && i <= |bs|
    decreases |bs| - i
  {
    if i == |bs| then []
    else
      (match bs[i]
       case None => []
       case Some(b) =>
         if b.holeLength == 0 then [Some(Pack(order, BackupFields(b))), Some(b.page)]
         else [Some(Pack(order, BackupFields(b))), Some(b.page[..b.holeOffset]),
               Some(b.page[b.holeOffset + b.holeLength..])])
      + BackupItems(order, bs, i + 1)
  }

  lemma {:induction false} BackupItemsData(order: ByteOrder, bs: seq<Option<Backup>>, i: nat)
    requires ValidBackups(bs) && i <= |bs|
    ensures ChainData(BackupItems(order, bs, i)) == BlocksBytes(order, bs, i)
    decreases |bs| - i
  {
    hide Pack;
    if i < |bs| {
      BackupItemsData(order, bs, i + 1);
      var rest := BackupItems(order, bs, i + 1);
      if bs[i].Some? {
        var b := bs[i].value;
        var head := Pack(order, BackupFields(b));
        var left, right := b.page[..b.holeOffset], b.page[b.holeOffset + b.holeLength..];
        if b.holeLength == 0 {
          ChainDataConcat([Some(head), Some(b.page)], rest);
          TwoItems(head, b.page);
          assert left + right == b.page;
        } else {
          ChainDataConcat([Some(head), Some(left), Some(right)], rest);
          ThreeItems(head, left, right);
        }
      } else {
        assert [] + rest == rest;
      }
    }
  }

  lemma TwoItems(a: seq<Byte>, b: seq<Byte>)
    ensures ChainData([Some(a), Some(b)]) == a + b
  {
    assert [Some(a), Some(b)][1..] == [Some(b)] && [Some(b)][1..] == [];
    assert ChainData([Some(b)]) == b + [];
  }

  lemma ThreeItems(a: seq<Byte>, b: seq<Byte>, c: seq<Byte>)
    ensures ChainData([Some(a), Some(b), Some(c)]) == a + (b + c)
  {
    assert [Some(a), Some(b), Some(c)][1..] == [Some(b), Some(c)];
    TwoItems(b, c);
  }

  /** The request that a call of XLogInsert amounts to. */
  function RequestOf(rmid: Byte, info: Byte, xid: uint32, items: seq<Item>, check: Verdict, removable: bool): Request {
    Request(rmid, info, xid, ChainData(Kept(items, check)), SlotBackups(Buffers(items), check), removable)
  }

  // ---------------------------------------------------------------- XLogInsert

  /** The pages in the buffers. */
  type Pages = nat -> BufferPage

  /** XLogCheckBuffer's verdicts, on the pages as they are. */
  function VerdictOf(order: ByteOrder, doPageWrites: bool, redo: RecPtr, pages: Pages): Verdict {
    (b: nat) => CheckBuffer(order, doPageWrites, redo, pages(b))
  }

  /** A buffer is backed up exactly when page writes are on and the LSN that its page starts
      with is not past the redo pointer. */
  lemma VerdictExactly(order: ByteOrder, doPageWrites: bool, redo: RecPtr, pages: Pages, buffer: nat, lsn: RecPtr)
    requires pages(buffer).page[0..4] == Store(order, lsn.xlogid, 4)
    requires pages(buffer).page[4..8] == Store(order, lsn.xrecoff, 4)
    ensures var r := VerdictOf(order, doPageWrites, redo, pages)(buffer);
            && (r.Some? <==> doPageWrites && (lsn.xlogid < redo.xlogid
                                              || (lsn.xlogid == redo.xlogid && lsn.xrecoff <= redo.xrecoff)))
            && (r.Some? ==> r.value == BackupOf(order, pages(buffer)))
  {
    hide Store, BackupOf, PageLSN;
    CheckBufferExactly(order, doPageWrites, redo, pages(buffer), lsn);
  }

  /** Some buffer that has not been backed up would be, by the redo pointer as it is now. */
  method NeedsBackup(order: ByteOrder, redo: RecPtr, pages: Pages, slots: seq<Option<nat>>,
                     backups: seq<Option<Backup>>)
    returns (needed: bool)
    requires |slots| == |backups| == XLR_MAX_BKP_BLOCKS
    ensures needed <==> exists i :: 0 <= i < XLR_MAX_BKP_BLOCKS && slots[i].Some? && backups[i].None?
                                    && ByteLE(PageLSN(order, pages(slots[i].value).page), redo)
  {
    for i := 0 to XLR_MAX_BKP_BLOCKS
      invariant forall j | 0 <= j < i ::
                  !(slots[j].Some? && backups[j].None? && ByteLE(PageLSN(order, pages(slots[j].value).page), redo))
    {
      if slots[i].Some? && backups[i].None? && ByteLE(PageLSN(order, pages(slots[i].value).page), redo) {
        return true;
      }
    }
    needed := false;
  }

  /** Without such a buffer, the verdicts are those of the new redo pointer. */
  lemma SameVerdicts(order: ByteOrder, doPageWrites: bool, before: RecPtr, redo: RecPtr, pages: Pages, items: seq<Item>)
    requires ByteLE(before, redo)
    requires var was, bs := VerdictOf(order, doPageWrites, before, pages), Buffers(items);
             doPageWrites ==>
               forall i | 0 <= i < |bs| :: was(bs[i]).Some? || !ByteLE(PageLSN(order, pages(bs[i]).page), redo)
    ensures var was, now := VerdictOf(order, doPageWrites, before, pages), VerdictOf(order, doPageWrites, redo, pages);
            Kept(items, was) == Kept(items, now) && SlotBackups(Buffers(items), was) == SlotBackups(Buffers(items), now)
  {
    hide PageLSN, BackupOf;
    var was, now := VerdictOf(order, doPageWrites, before, pages), VerdictOf(order, doPageWrites, redo, pages);
    var bs := Buffers(items);
    assert forall i | 0 <= i < |bs| :: was(bs[i]) == now(bs[i]);
    forall i | 0 <= i < |items| && items[i].buffer.Some?
      ensures was(items[i].buffer.value) == now(items[i].buffer.value)
    {
      BuffersComplete(items, items[i].buffer.value);
    }
  }

  /** The first half of XLogInsert. `redoSeen` and `forceSeen` are what was known of the redo
      pointer and of forced page writes before the lock was taken, `redo` and `forced` what
      they are then; the scan starts over when it must. `doPageWrites` and `redoUsed` are
      what the last scan went by; its result is that of the present redo pointer. */
  method Prepare(order: ByteOrder, items: seq<Item>, pages: Pages, fullPageWrites: bool,
                 redoSeen: RecPtr, redo: RecPtr, forceSeen: bool, forced: bool)
    returns (ok: bool, chain: Chain, backups: seq<Option<Backup>>, doPageWrites: bool, redoUsed: RecPtr)
    requires ByteLE(redoSeen, redo)
    ensures redoUsed == redoSeen || redoUsed == redo
    ensures doPageWrites == (fullPageWrites || forceSeen) || doPageWrites == (fullPageWrites || forced)
    ensures ok <==> |Buffers(items)| <= XLR_MAX_BKP_BLOCKS
                    && ChainData(Kept(items, VerdictOf(order, doPageWrites, redoUsed, pages))) != []
    ensures ok ==>
              var check := VerdictOf(order, doPageWrites, redo, pages);
              && (fullPageWrites || forced ==> doPageWrites)
              && chain == Kept(items, check) && ChainData(chain) != [] && backups == SlotBackups(Buffers(items), check)
  {
    hide ChainData, Buffers, Kept, VerdictOf, PageLSN;
    redoUsed, doPageWrites := redoSeen, fullPageWrites || forceSeen;
    while true
      invariant redoUsed == redoSeen || redoUsed == redo
      invariant doPageWrites == (fullPageWrites || forceSeen) || doPageWrites == (fullPageWrites || forced)
      decreases redoUsed != redo, forced && !doPageWrites
    {
      var slots;
      ok, chain, slots, backups := Scan(items, VerdictOf(order, doPageWrites, redoUsed, pages));
      if !ok || |ChainData(chain)| == 0 {
        ok := false;
        return;
      }
      var needed := false;
      if redoUsed != redo && doPageWrites {
        needed := NeedsBackup(order, redo, pages, slots, backups);
      }
      if !needed {
        NotNeeded(order, doPageWrites, redoUsed, redo, pages, items, slots, backups);
        if !forced || doPageWrites {
          return;
        }
      }
      redoUsed, doPageWrites := redo, fullPageWrites || forced;
    }
  }

  lemma NotNeeded(order: ByteOrder, doPageWrites: bool, before: RecPtr, redo: RecPtr, pages: Pages, items: seq<Item>,
                  slots: seq<Option<nat>>, backups: seq<Option<Backup>>)
    requires ByteLE(before, redo) && |Buffers(items)| <= XLR_MAX_BKP_BLOCKS
    requires slots == Slots(Buffers(items))
             && backups == SlotBackups(Buffers(items), VerdictOf(order, doPageWrites, before, pages))
    requires before != redo && doPageWrites ==>
               forall i | 0 <= i < XLR_MAX_BKP_BLOCKS :: slots[i].Some? && backups[i].None? ==>
                 !ByteLE(PageLSN(order, pages(slots[i].value).page), redo)
    ensures var was, now := VerdictOf(order, doPageWrites, before, pages), VerdictOf(order, doPageWrites, redo, pages);
            Kept(items, was) == Kept(items, now) && SlotBackups(Buffers(items), was) == SlotBackups(Buffers(items), now)
  {
    hide PageLSN, Kept, Buffers, VerdictOf;
    if before != redo {
      var was, bs := VerdictOf(order, doPageWrites, before, pages), Buffers(items);
      forall i | 0 <= i < |bs| && doPageWrites
        ensures was(bs[i]).Some? || !ByteLE(PageLSN(order, pages(bs[i]).page), redo)
      {
        assert slots[i] == Some(bs[i]) && backups[i] == was(bs[i]);
      }
      SameVerdicts(order, doPageWrites, before, redo, pages, items);
    }
  }

  /** What XLogInsert returns: nothing, after an error; a made-up pointer, in bootstrap mode;
      or where the record starts and where the next one may. */
  datatype Outcome = Failed | Phony(p: RecPtr) | Inserted(start: RecPtr, end: RecPtr)

  /** XLogInsert for all records but switch records. Nothing changes unless a record is
      inserted, and then its full-page images are those that the present redo pointer calls
      for; the checksum is that of the record as it is written. */
  method XLogInsert(ins: Inserter, crc: Crc, rmid: Byte, info: Byte, xid: uint32, items: seq<Item>, pages: Pages,
                    bootstrap: bool, fullPageWrites: bool, redoSeen: RecPtr, redo: RecPtr,
                    forceSeen: bool, forced: bool)
    returns (r: Outcome, doPageWrites: bool, redoUsed: RecPtr)
    requires ins.Valid() && rmid <= RM_MAX_ID && !(rmid == RM_XLOG_ID && info == XLOG_SWITCH) && ByteLE(redoSeen, redo)
    requires DataLength(items) < 0x8000_0000
    modifies ins, ins.page
    ensures ins.Valid() && (!r.Inserted? ==> ins.Log() == old(ins.Log()) && ins.prev == old(ins.prev))
    ensures redoUsed == redoSeen || redoUsed == redo
    ensures doPageWrites == (fullPageWrites || forceSeen) || doPageWrites == (fullPageWrites || forced)
    ensures r.Phony? <==> info % 16 == 0 && bootstrap && rmid != RM_XLOG_ID
    ensures r.Phony? ==> r.p == RecPtr(0, 32)
    ensures !r.Phony? ==>
              var check := VerdictOf(ins.sys.order, doPageWrites, redoUsed, pages);
              (r.Failed? <==> info % 16 != 0 || |Buffers(items)| > 3 || ChainData(Kept(items, check)) == [])
    ensures r.Inserted? ==>
              var q := RequestOf(rmid, info, xid, items, VerdictOf(ins.sys.order, doPageWrites, redo, pages), !forced);
              && (fullPageWrites || forced ==> doPageWrites)
              && ValidRequest(q)
              && ins.Log() == Insert(ins.sys, old(ins.Log()), old(ins.prev), Assembled(ins.sys, crc, q, old(ins.prev)))
              && r.start == ins.prev && r.end == EndPointer(|ins.Log()|)
    ensures r.Inserted? ==>
              var order, l, at := ins.sys.order, ins.Log(), StartOf(ins.sys, old(ins.Log()));
              var d := ChainData(Kept(items, VerdictOf(order, doPageWrites, redo, pages)));
              && old(ins.Log()) <= l && at + 32 <= |l| && r.start == FromLinear(at)
              && Field(order, l, at + 4, 4) == old(ins.prev).xlogid
              && Field(order, l, at + 8, 4) == old(ins.prev).xrecoff
              && Field(order, l, at + 12, 4) == xid
              && Field(order, l, at + 20, 4) == |d|
              && And(Field(order, l, at + 24, 1), 0xF0) == info && Field(order, l, at + 25, 1) == rmid
  {
    hide Insert, ChainData, Assembled, EndPointer, FromLinear, Buffers, BlocksBytes, Kept, VerdictOf, And, Field,
         StartOf, SlotBackups;
    redoUsed, doPageWrites := redoSeen, fullPageWrites || forceSeen;
    if info % 16 != 0 {
      return Failed, doPageWrites, redoUsed;
    }
    if bootstrap && rmid != RM_XLOG_ID {
      return Phony(RecPtr(0, SIZE_OF_LONG_PHD)), doPageWrites, redoUsed;
    }
    var order := ins.sys.order;
    var ok, chain, backups;
    ok, chain, backups, doPageWrites, redoUsed :=
      Prepare(order, items, pages, fullPageWrites, redoSeen, redo, forceSeen, forced);
    if !ok {
      return Failed, doPageWrites, redoUsed;
    }
    BackupsAreValid(order, doPageWrites, redo, pages, items);
    KeptIsShorter(items, VerdictOf(order, doPageWrites, redo, pages));
    var q := Request(rmid, info, xid, ChainData(chain), backups, !forced);
    var start, end := InsertRequest(ins, crc, q, chain);
    r := Inserted(start, end);
  }

  /** The record as the log holds it, in terms of the request. */
  lemma InsertedRequest(sys: System, crc: Crc, q: Request, log: seq<Byte>, prev: RecPtr)
    requires ValidRequest(q)
    ensures var l, at := Insert(sys, log, prev, Assembled(sys, crc, q, prev)), StartOf(sys, log);
            && log <= l && at + 32 <= |l|
            && Field(sys.order, l, at + 4, 4) == prev.xlogid && Field(sys.order, l, at + 8, 4) == prev.xrecoff
            && Field(sys.order, l, at + 12, 4) == q.xid
            && Field(sys.order, l, at + 20, 4) == |q.data|
            && And(Field(sys.order, l, at + 24, 1), 0xF0) == q.info && Field(sys.order, l, at + 25, 1) == q.rmid
  {
    hide Insert, Assembled, And, Pow2, Field, StartOf;
    var r := Assembled(sys, crc, q, prev);
    AssembledFields(sys, crc, q, prev);
    InsertedHeader(sys, log, prev, r);
    assert Pow2(4) == 16 && Pow2(8) == 256 by { Pow2Constants(); }
    AndHigh(r.info, 4, 8);
  }

  /** All data of a chain together. */
  function DataLength(items: seq<Item>): nat {
    if items == [] then 0
    else (if items[0].data.Some? then |items[0].data.value| else 0) + DataLength(items[1..])
  }

  lemma {:induction false} KeptIsShorter(items: seq<Item>, check: Verdict)
    ensures |ChainData(Kept(items, check))| <= DataLength(items)
    decreases |items|
  {
    if items != [] {
      assert Kept(items, check)[1..] == Kept(items[1..], check);
      KeptIsShorter(items[1..], check);
    }
  }

  lemma BackupsAreValid(order: ByteOrder, doPageWrites: bool, redo: RecPtr, pages: Pages, items: seq<Item>)
    ensures ValidBackups(SlotBackups(Buffers(items), VerdictOf(order, doPageWrites, redo, pages)))
  {
    hide CheckBuffer;
  }

  /** The backup blocks are added to the chain, and the record is sealed and written. */
  method InsertRequest(ins: Inserter, crc: Crc, q: Request, chain: Chain) returns (start: RecPtr, end: RecPtr)
    requires ins.Valid() && ValidRequest(q) && q.data == ChainData(chain)
    modifies ins, ins.page
    ensures ins.Valid() && start == ins.prev && end == EndPointer(|ins.Log()|)
    ensures ins.Log() == Insert(ins.sys, old(ins.Log()), old(ins.prev), Assembled(ins.sys, crc, q, old(ins.prev)))
    ensures var order, l, at := ins.sys.order, ins.Log(), StartOf(ins.sys, old(ins.Log()));
            && old(ins.Log()) <= l && at + 32 <= |l| && start == FromLinear(at)
            && Field(order, l, at + 4, 4) == old(ins.prev).xlogid && Field(order, l, at + 8, 4) == old(ins.prev).xrecoff
            && Field(order, l, at + 12, 4) == q.xid
            && Field(order, l, at + 20, 4) == |q.data|
            && And(Field(order, l, at + 24, 1), 0xF0) == q.info && Field(order, l, at + 25, 1) == q.rmid
  {
    hide Insert, ChainData, Assembled, EndPointer, FromLinear, BlocksBytes, And, Field, StartOf, BackupItems;
    ghost var log, prev := ins.Log(), ins.prev;
    InsertedRequest(ins.sys, crc, q, log, prev);
    var order := ins.sys.order;
    BackupItemsData(order, q.backups, 0);
    ChainDataConcat(chain, BackupItems(order, q.backups, 0));
    AssembledData(ins.sys, crc, q, ins.prev);
    start, end := ins.Insert(Assembled(ins.sys, crc, q, ins.prev), chain + BackupItems(order, q.backups, 0));
  }

  lemma AssembledData(sys: System, crc: Crc, q: Request, prev: RecPtr)
    requires ValidRequest(q)
    ensures Assembled(sys, crc, q, prev).data == q.data + BlocksBytes(sys.order, q.backups, 0)
  {
  }
}
