/** The least-recently-used bookkeeping of SLRU buffers (slru.h, slru.c), with a counter
    that wraps around. */
module Slru {
  import opened Bits
  import opened TransactionIds
  import opened Wrappers

  type int32 = x: int | -0x8000_0000 <= x < 0x8000_0000

  const INT_MAX := 0x7FFF_FFFF

  /** Signed 32-bit arithmetic that wraps around. */
  function Signed(x: int): (r: int32)
    ensures -0x8000_0000 <= x < 0x8000_0000 ==> r == x
  {
    (x + 0x8000_0000) % 0x1_0000_0000 - 0x8000_0000
  }

  lemma SignedUnique(x: int, r: int32, q: int)
    requires x == r + 0x1_0000_0000 * q
    ensures Signed(x) == r
  {
    QuotientUnique(x + 0x8000_0000, 0x1_0000_0000, q, r + 0x8000_0000);
  }

  /** The difference of two wrapped counts, as an int. */
  function Delta(cur: int32, count: int32): int32 {
    Signed(cur - count)
  }

  /** The wrapped difference is the true age exactly as long as that fits an int. */
  lemma DeltaIsAge(cur: nat, touched: nat)
    requires touched <= cur
    ensures Delta(Signed(cur), Signed(touched)) == cur - touched <==> cur - touched <= INT_MAX
    ensures INT_MAX < cur - touched < 0x1_0000_0000 ==> Delta(Signed(cur), Signed(touched)) < 0
  {
    hide Signed;
    var a, b := Quotient(cur), Quotient(touched);
    assert Signed(cur) - Signed(touched) == cur - touched + 0x1_0000_0000 * (b - a);
    if cur - touched <= INT_MAX {
      SignedUnique(Signed(cur) - Signed(touched), cur - touched, b - a);
    } else if cur - touched < 0x1_0000_0000 {
      SignedUnique(Signed(cur) - Signed(touched), cur - touched - 0x1_0000_0000, b - a + 1);
    }
  }

  function Quotient(x: int): (q: int)
    ensures x == Signed(x) + 0x1_0000_0000 * q
  {
    (x + 0x8000_0000) / 0x1_0000_0000
  }

  /** Equal wrapped counts of ages below 2^32 are equal counts. */
  lemma SignedEqual(cur: nat, touched: nat)
    requires touched <= cur < touched + 0x1_0000_0000
    ensures Signed(cur) == Signed(touched) <==> cur == touched
  {
    hide Signed;
    var a, b := Quotient(cur), Quotient(touched);
    if Signed(cur) == Signed(touched) {
      assert cur - touched == 0x1_0000_0000 * (a - b);
    }
  }

  // ---------------------------------------------------------------- true counts

  /** The counts without wrap-around, and when each slot was really last used. `loaded`
      are the slots whose count means something. */
  datatype Lru = Lru(cur: nat, touched: seq<nat>, used: seq<nat>, now: nat, loaded: set<nat>)

  datatype Event = Use(slot: nat) | Select | Load(slot: nat)

  /** SlruRecentlyUsed. */
  function Touch(l: Lru, slot: nat): Lru
    requires slot < |l.touched| == |l.used|
  {
    var cur := if l.cur != l.touched[slot] then l.cur + 1 else l.cur;
    Lru(cur, l.touched[slot := cur], l.used[slot := l.now], l.now + 1, l.loaded + {slot})
  }

  /** A page is put into a slot that a selection has chosen, and used. A selection moves
      the counter beyond all counts. */
  predicate Allowed(l: Lru, e: Event) {
    match e
    case Use(slot) => slot in l.loaded && slot < |l.touched|
    case Select => true
    case Load(slot) => slot < |l.touched| && forall j | j in l.loaded :: j < |l.touched| && l.touched[j] < l.cur
  }

  function Next(l: Lru, e: Event): Lru
    requires |l.touched| == |l.used| && Allowed(l, e)
  {
    match e
    case Use(slot) => Touch(l, slot)
    case Select => l.(cur := l.cur + 1)
    case Load(slot) => Touch(l, slot)
  }

  ghost predicate Inv(l: Lru) {
    && |l.touched| == |l.used|
    && (forall i | i in l.loaded :: i < |l.touched|)
    && (forall i | 0 <= i < |l.touched| :: l.touched[i] <= l.cur)
    && (forall i | 0 <= i < |l.used| && i in l.loaded :: l.used[i] < l.now)
    && (forall i, j | i in l.loaded && j in l.loaded && l.used[i] == l.used[j] :: i == j)
    && (forall i, j | i in l.loaded && j in l.loaded :: l.touched[i] < l.touched[j] <==> l.used[i] < l.used[j])
  }

  function Initial(n: nat): Lru {
    Lru(0, seq(n, _ => 0), seq(n, _ => 0), 0, {})
  }

  lemma NextKeeps(l: Lru, e: Event)
    requires Inv(l) && Allowed(l, e)
    ensures Inv(Next(l, e))
  {
    var t := Next(l, e);
    forall i, j | i in t.loaded && j in t.loaded ensures t.touched[i] < t.touched[j] <==> t.used[i] < t.used[j] {
      if i in l.loaded && j in l.loaded {
        assert l.touched[i] < l.touched[j] <==> l.used[i] < l.used[j];
        assert l.touched[j] < l.touched[i] <==> l.used[j] < l.used[i];
      }
    }
  }

  function Run(l: Lru, events: seq<Event>): Option<Lru>
    requires |l.touched| == |l.used|
    decreases |events|
  {
    if events == [] then Some(l)
    else if Allowed(l, events[0]) then Run(Next(l, events[0]), events[1..])
    else None
  }

  lemma {:induction false} RunKeeps(l: Lru, events: seq<Event>)
    requires Inv(l) && Run(l, events).Some?
    ensures Inv(Run(l, events).value)
    decreases |events|
  {
    hide Inv, Allowed, Next;
    if events != [] {
      LengthsMatch(l);
      NextKeeps(l, events[0]);
      LengthsMatch(Next(l, events[0]));
      RunKeeps(Next(l, events[0]), events[1..]);
    }
  }

  lemma LengthsMatch(l: Lru)
    requires Inv(l)
    ensures |l.touched| == |l.used|
  {
  }

  // ---------------------------------------------------------------- selecting a victim

  /** What the selection loop has found so far. */
  datatype Best = Best(slot: nat, delta: int, page: int)

  /** A count that appears to lie in the future is taken for the present. */
  function Age(cur: int32, count: int32): int {
    if Delta(cur, count) < 0 then 0 else Delta(cur, count)
  }

  /** The loop of SlruSelectLRUPage over slots without an empty one, after `n` slots. */
  function Scan(cur: int32, counts: seq<int32>, pages: seq<int>, latest: int, precedes: (int, int) -> bool,
                n: nat): Best
    requires n <= |counts| == |pages|
  {
    if n == 0 then Best(0, -1, 0)
    else
      var best := Scan(cur, counts, pages, latest, precedes, n - 1);
      var age, page := Age(cur, counts[n - 1]), pages[n - 1];
      if (age > best.delta || (age == best.delta && precedes(page, best.page))) && page != latest
      then Best(n - 1, age, page) else best
  }

  /** The choice: the greatest apparent age among the slots that do not hold the latest
      page. Slot 0 is returned when all of them do. */
  lemma {:induction false} ScanFindsOldest(cur: int32, counts: seq<int32>, pages: seq<int>, latest: int,
                                           precedes: (int, int) -> bool, n: nat)
    requires n <= |counts| == |pages|
    ensures var b := Scan(cur, counts, pages, latest, precedes, n);
            && (forall j | 0 <= j < n && pages[j] != latest :: Age(cur, counts[j]) <= b.delta)
            && ((exists j :: 0 <= j < n && pages[j] != latest) ==>
                  b.slot < n && b.page == pages[b.slot] != latest && b.delta == Age(cur, counts[b.slot]))
            && ((forall j | 0 <= j < n :: pages[j] == latest) ==> b == Best(0, -1, 0))
  {
    hide Delta;
    if n > 0 {
      ScanFindsOldest(cur, counts, pages, latest, precedes, n - 1);
    }
  }

  /** The slot with the latest page is not chosen: no page is in two slots, so another one
      holds a different page. */
  lemma VictimIsNotLatest(cur: int32, counts: seq<int32>, pages: seq<int>, latest: int, precedes: (int, int) -> bool)
    requires 2 <= |counts| == |pages|
    requires forall i, j | 0 <= i < |pages| && 0 <= j < |pages| && pages[i] == pages[j] :: i == j
    ensures var slot := Scan(cur, counts, pages, latest, precedes, |pages|).slot;
            slot < |pages| && pages[slot] != latest
  {
    hide Scan;
    ScanFindsOldest(cur, counts, pages, latest, precedes, |pages|);
    assert pages[0] != latest || pages[1] != latest;
  }

  /** The pages in question are in order. Over all numbers the comparisons that are used
      are no orders: page numbers wrap around. */
  predicate OrderOn(precedes: (int, int) -> bool, pages: seq<int>) {
    && (forall p, q | p in pages && q in pages :: !(precedes(p, q) && precedes(q, p)))
    && (forall p, q | p in pages && q in pages && p != q :: precedes(p, q) || precedes(q, p))
    && (forall p, q, r | p in pages && q in pages && r in pages && precedes(p, q) && precedes(q, r) :: precedes(p, r))
  }

  /** Among equal ages, the page furthest back. */
  lemma {:induction false} ScanBreaksTies(cur: int32, counts: seq<int32>, pages: seq<int>, latest: int,
                                          precedes: (int, int) -> bool, n: nat, j: nat)
    requires n <= |counts| == |pages| && OrderOn(precedes, pages)
    requires j < n && pages[j] != latest && Age(cur, counts[j]) == Scan(cur, counts, pages, latest, precedes, n).delta
    ensures var b := Scan(cur, counts, pages, latest, precedes, n); b.page == pages[j] || precedes(b.page, pages[j])
  {
    hide Delta, Age;
    ScanFindsOldest(cur, counts, pages, latest, precedes, n);
    ScanFindsOldest(cur, counts, pages, latest, precedes, n - 1);
    var before := Scan(cur, counts, pages, latest, precedes, n - 1);
    if j < n - 1 && Age(cur, counts[j]) == before.delta {
      ScanBreaksTies(cur, counts, pages, latest, precedes, n - 1, j);
      assert pages[n - 1] in pages && pages[j] in pages && before.page in pages;
    }
  }

  const CLOG_XACTS_PER_PAGE := 0x8000
  const CLOG_PAGES := 0x2_0000

  /** CLOGPagePrecedes. */
  predicate ClogPagePrecedes(page1: int, page2: int) {
    Precedes(Wrap(page1 * CLOG_XACTS_PER_PAGE + FIRST_NORMAL), Wrap(page2 * CLOG_XACTS_PER_PAGE + FIRST_NORMAL))
  }

  /** The page that comes `i` pages after `base`, page numbers wrapping around. */
  function ClogPage(base: nat, i: nat): nat {
    (base + i) % CLOG_PAGES
  }

  lemma ClogPagePrecedesExact(base: nat, i: nat, j: nat)
    requires i < 0x1_0000 && j < 0x1_0000
    ensures ClogPagePrecedes(ClogPage(base, i), ClogPage(base, j)) <==> i < j
    ensures ClogPage(base, i) == ClogPage(base, j) ==> i == j
  {
    var p, q := ClogPage(base, i), ClogPage(base, j);
    var k := (base + i) / CLOG_PAGES - (base + j) / CLOG_PAGES;
    assert p - q == i - j - CLOG_PAGES * k;
    var x, y := p * CLOG_XACTS_PER_PAGE + FIRST_NORMAL, q * CLOG_XACTS_PER_PAGE + FIRST_NORMAL;
    assert Wrap(x) == x && Wrap(y) == y;
  }

  /** Within half the ring CLOGPagePrecedes is an order. */
  lemma ClogPagesOrdered(base: nat, pages: seq<int>)
    requires forall p | p in pages :: exists i: nat :: i < 0x1_0000 && p == ClogPage(base, i)
    ensures OrderOn(ClogPagePrecedes, pages)
  {
    hide ClogPagePrecedes, ClogPage;
    forall p, q | p in pages && q in pages
      ensures (ClogPagePrecedes(p, q) || ClogPagePrecedes(q, p) <==> p != q)
              && !(ClogPagePrecedes(p, q) && ClogPagePrecedes(q, p))
    {
      var i: nat :| i < 0x1_0000 && p == ClogPage(base, i);
      var j: nat :| j < 0x1_0000 && q == ClogPage(base, j);
      ClogPagePrecedesExact(base, i, j);
      ClogPagePrecedesExact(base, j, i);
    }
    forall p, q, r | p in pages && q in pages && r in pages && ClogPagePrecedes(p, q) && ClogPagePrecedes(q, r)
      ensures ClogPagePrecedes(p, r)
    {
      var i: nat :| i < 0x1_0000 && p == ClogPage(base, i);
      var j: nat :| j < 0x1_0000 && q == ClogPage(base, j);
      var k: nat :| k < 0x1_0000 && r == ClogPage(base, k);
      ClogPagePrecedesExact(base, i, j);
      ClogPagePrecedesExact(base, j, k);
      ClogPagePrecedesExact(base, i, k);
    }
  }

  predicate AgesFit(l: Lru) {
    forall i | 0 <= i < |l.touched| :: l.touched[i] <= l.cur <= l.touched[i] + INT_MAX
  }

  function Wrapped(counts: seq<nat>): seq<int32> {
    seq(|counts|, i requires 0 <= i < |counts| => Signed(counts[i]))
  }

  /** Of the slots that do not hold the latest page, the one that was really used the
      longest time ago is chosen, as long as no age exceeds INT_MAX. */
  lemma VictimOfInv(l: Lru, pages: seq<int>, latest: int, precedes: (int, int) -> bool, j: nat)
    requires Inv(l) && |l.touched| == |pages| && AgesFit(l) && forall i | 0 <= i < |pages| :: i in l.loaded
    requires j < |pages| && pages[j] != latest
    ensures var b := Scan(Signed(l.cur), Wrapped(l.touched), pages, latest, precedes, |pages|);
            |l.used| == |pages| && b.slot < |pages| && pages[b.slot] != latest && l.used[b.slot] <= l.used[j] < l.now
  {
    hide Delta, Signed;
    var counts := Wrapped(l.touched);
    ScanFindsOldest(Signed(l.cur), counts, pages, latest, precedes, |pages|);
    var b := Scan(Signed(l.cur), counts, pages, latest, precedes, |pages|);
    DeltaIsAge(l.cur, l.touched[b.slot]);
    DeltaIsAge(l.cur, l.touched[j]);
    assert l.touched[b.slot] <= l.touched[j];
    assert !(l.used[j] < l.used[b.slot]);
  }

  /** After every run of uses and loads, as long as no age exceeds INT_MAX: of the slots
      that do not hold the latest page, the one that was really used the longest time
      ago is chosen. */
  lemma VictimIsLeastRecentlyUsed(n: nat, events: seq<Event>, pages: seq<int>, latest: int,
                                  precedes: (int, int) -> bool, j: nat)
    requires Run(Initial(n), events).Some?
    requires var l := Run(Initial(n), events).value;
             |l.touched| == |pages| && AgesFit(l) && forall i | 0 <= i < |pages| :: i in l.loaded
    requires j < |pages| && pages[j] != latest
    ensures var l := Run(Initial(n), events).value;
            var b := Scan(Signed(l.cur), Wrapped(l.touched), pages, latest, precedes, |pages|);
            |l.used| == |pages| && b.slot < |pages| && pages[b.slot] != latest && l.used[b.slot] <= l.used[j] < l.now
  {
    hide Run, Scan;
    RunKeeps(Initial(n), events);
    VictimOfInv(Run(Initial(n), events).value, pages, latest, precedes, j);
  }

  /** No count then appears to lie in the future. */
  lemma AgesNotNegative(l: Lru, i: nat)
    requires AgesFit(l) && i < |l.touched|
    ensures Delta(Signed(l.cur), Wrapped(l.touched)[i]) >= 0
  {
    hide Signed, Delta;
    DeltaIsAge(l.cur, l.touched[i]);
  }

  /** One count more, and the slot used the longest time ago appears to be the most
      recently used one. */
  lemma OlderThanIntMaxIsMissed(touched: nat, cur: nat)
    requires touched < cur < touched + 0x1_0000_0000
    ensures Age(Signed(cur), Signed(touched)) == 0 <==> cur - touched > INT_MAX
  {
    hide Signed, Delta;
    DeltaIsAge(cur, touched);
  }

  // ---------------------------------------------------------------- the shared state

  datatype PageStatus = Empty | ReadInProgress | Valid | WriteInProgress

  /** SlruShared: parallel arrays, one element a slot. */
  class Shared {
    const pageStatus: array<PageStatus>
    const pageNumber: array<int>
    const pageLruCount: array<int32>
    var curLruCount: int32
    var latestPageNumber: int

    /** SimpleLruInit: no slot holds a page, and no count differs from another. */
    constructor (nslots: nat)
      ensures Sizes() && pageStatus.Length == nslots && forall i | 0 <= i < nslots :: pageStatus[i] == Empty
      ensures Distinct() && Represents(Initial(nslots)) && AgesFit(Initial(nslots)) && Inv(Initial(nslots))
      ensures fresh(pageStatus) && fresh(pageNumber) && fresh(pageLruCount)
    {
      pageStatus := new PageStatus[nslots](_ => Empty);
      pageNumber := new int[nslots];
      pageLruCount := new int32[nslots](_ => 0);
      curLruCount := 0;
    }

    predicate Sizes() {
      pageNumber.Length == pageStatus.Length && pageLruCount.Length == pageStatus.Length
    }

    /** The wrapped counts are those of `l`. */
    ghost predicate Represents(l: Lru)
      reads this, pageLruCount
    {
      && Sizes() && |l.touched| == pageLruCount.Length
      && curLruCount == Signed(l.cur) && pageLruCount[..] == Wrapped(l.touched)
    }

    /** SlruRecentlyUsed keeps the wrapped counts in step with the true ones, as long as
        the slot's age is below 2^32. */
    method RecentlyUsed(slot: nat, ghost l: Lru)
      requires Represents(l) && |l.used| == |l.touched| && slot < pageLruCount.Length
      requires l.touched[slot] <= l.cur < l.touched[slot] + 0x1_0000_0000
      modifies `curLruCount, pageLruCount
      ensures Represents(Touch(l, slot))
      ensures slot in l.loaded ==> Allowed(l, Use(slot)) && Represents(Next(l, Use(slot)))
      ensures (forall j | j in l.loaded :: j < |l.touched| && l.touched[j] < l.cur) ==>
                Allowed(l, Load(slot)) && Represents(Next(l, Load(slot)))
    {
      hide Signed;
      SignedEqual(l.cur, l.touched[slot]);
      SignedSuccessor(l.cur);
      var newCount: int := curLruCount;
      if newCount != pageLruCount[slot] {
        newCount := Signed(newCount + 1);
        curLruCount := newCount;
        pageLruCount[slot] := newCount;
      }
      assert pageLruCount[..] == Wrapped(Touch(l, slot).touched);
    }

    /** No page is in two slots. */
    predicate Distinct()
      requires Sizes()
      reads pageStatus, pageNumber
    {
      forall i, j | 0 <= i < pageStatus.Length && 0 <= j < pageStatus.Length
                    && pageStatus[i] != Empty && pageStatus[j] != Empty && pageNumber[i] == pageNumber[j] :: i == j
    }

    /** SimpleLruReadPage marks the slot that it was given for a page that is in none. */
    method MarkForRead(slot: nat, pageno: int)
      requires Sizes() && Distinct() && slot < pageStatus.Length
      requires forall j | 0 <= j < pageStatus.Length :: pageNumber[j] != pageno || pageStatus[j] == Empty
      modifies pageStatus, pageNumber
      ensures Distinct() && pageNumber[slot] == pageno && pageStatus[slot] == ReadInProgress
      ensures forall j | 0 <= j < pageStatus.Length && j != slot ::
                pageStatus[j] == old(pageStatus[j]) && pageNumber[j] == old(pageNumber[j])
    {
      pageNumber[slot] := pageno;
      pageStatus[slot] := ReadInProgress;
    }

    /** One pass of SlruSelectLRUPage: a slot that holds the page already, or an empty
        slot, or the one to replace. Counts that appear to lie in the future are set
        back on the way. If they are those of `l`, a state that a run has led to, a search
        is a step of that run, and what is replaced is the page not used for longest. */
    method SelectPage(pageno: int, precedes: (int, int) -> bool, ghost l: Lru) returns (slot: nat)
      requires Sizes() && pageStatus.Length > 0
      modifies `curLruCount, pageLruCount
      ensures slot < pageStatus.Length
      ensures (exists j :: 0 <= j < pageStatus.Length && pageNumber[j] == pageno && pageStatus[j] != Empty) ==>
                && pageNumber[slot] == pageno && pageStatus[slot] != Empty
                && curLruCount == old(curLruCount) && pageLruCount[..] == old(pageLruCount[..])
      ensures (forall j | 0 <= j < pageStatus.Length :: pageNumber[j] != pageno || pageStatus[j] == Empty) ==>
                && curLruCount == Signed(old(curLruCount) + 1)
                && (forall j | 0 <= j < pageStatus.Length ::
                      pageLruCount[j] == old(pageLruCount[j]) ||
                      (Delta(old(curLruCount), old(pageLruCount[j])) < 0 && pageLruCount[j] == old(curLruCount)))
                && if exists j :: 0 <= j < pageStatus.Length && pageStatus[j] == Empty
                   then pageStatus[slot] == Empty && forall j | 0 <= j < slot :: pageStatus[j] != Empty
                   else
                     && slot == Scan(old(curLruCount), old(pageLruCount[..]), pageNumber[..], latestPageNumber,
                                     precedes, pageStatus.Length).slot
                     && (pageStatus.Length >= 2 && Distinct() ==> pageNumber[slot] != latestPageNumber)
                     && forall j | 0 <= j < pageStatus.Length ::
                          pageLruCount[j] == if Delta(old(curLruCount), old(pageLruCount[j])) < 0
                                             then old(curLruCount) else old(pageLruCount[j])
      ensures old(Represents(l)) && AgesFit(l) && |l.used| == |l.touched| ==>
                Represents(if exists j :: 0 <= j < pageStatus.Length
                                          && pageNumber[j] == pageno && pageStatus[j] != Empty
                           then l else Next(l, Select))
      ensures old(Represents(l)) && Inv(l) && AgesFit(l) && (forall i | 0 <= i < pageStatus.Length :: i in l.loaded) ==>
                (forall j | 0 <= j < pageStatus.Length :: pageNumber[j] != pageno && pageStatus[j] != Empty) ==>
                forall j | 0 <= j < pageStatus.Length && pageNumber[j] != latestPageNumber ::
                  pageNumber[slot] != latestPageNumber && l.used[slot] <= l.used[j]
    {
      hide Signed, Delta, Scan, Inv;
      for i := 0 to pageStatus.Length
        invariant forall j | 0 <= j < i :: pageNumber[j] != pageno || pageStatus[j] == Empty
      {
        if pageNumber[i] == pageno && pageStatus[i] != Empty {
          return i;
        }
      }
      var curCount := curLruCount;
      curLruCount := Signed(curLruCount + 1);
      slot := ScanSlots(curCount, precedes);
      if pageStatus.Length >= 2 && Distinct() && forall j | 0 <= j < pageStatus.Length :: pageStatus[j] != Empty {
        VictimIsNotLatest(curCount, old(pageLruCount[..]), pageNumber[..], latestPageNumber, precedes);
      }
      if old(Represents(l)) && AgesFit(l) {
        SignedSuccessor(l.cur);
        forall j | 0 <= j < pageStatus.Length ensures Delta(curCount, old(pageLruCount[j])) >= 0 {
          AgesNotNegative(l, j);
        }
        assert pageLruCount[..] == old(pageLruCount[..]);
        if Inv(l) && forall i | 0 <= i < pageStatus.Length :: i in l.loaded {
          forall j | 0 <= j < pageStatus.Length && pageNumber[j] != latestPageNumber
            ensures var b := Scan(curCount, old(pageLruCount[..]), pageNumber[..], latestPageNumber, precedes,
                                  pageStatus.Length);
                    && |l.used| == pageStatus.Length && b.slot < pageStatus.Length
                    && pageNumber[b.slot] != latestPageNumber && l.used[b.slot] <= l.used[j]
          {
            VictimOfInv(l, pageNumber[..], latestPageNumber, precedes, j);
          }
        }
      }
    }

    /** The second loop. */
    method ScanSlots(curCount: int32, precedes: (int, int) -> bool) returns (slot: nat)
      requires Sizes() && pageStatus.Length > 0
      modifies pageLruCount
      ensures slot < pageStatus.Length
      ensures forall j | 0 <= j < pageStatus.Length ::
                pageLruCount[j] == old(pageLruCount[j]) ||
                (Delta(curCount, old(pageLruCount[j])) < 0 && pageLruCount[j] == curCount)
      ensures if exists j :: 0 <= j < pageStatus.Length && pageStatus[j] == Empty
              then pageStatus[slot] == Empty && forall j | 0 <= j < slot :: pageStatus[j] != Empty
              else
                && slot == Scan(curCount, old(pageLruCount[..]), pageNumber[..], latestPageNumber, precedes,
                                pageStatus.Length).slot
                && forall j | 0 <= j < pageStatus.Length ::
                     pageLruCount[j] == if Delta(curCount, old(pageLruCount[j])) < 0
                                        then curCount else old(pageLruCount[j])
    {
      hide Signed, Delta;
      ghost var counts, pages, n := pageLruCount[..], pageNumber[..], pageStatus.Length;
      var bestSlot, bestDelta: int, bestPageNumber := 0, -1, 0;
      for i := 0 to pageStatus.Length
        invariant bestSlot < n && forall j | 0 <= j < i :: pageStatus[j] != Empty
        invariant Best(bestSlot, bestDelta, bestPageNumber)
                  == Scan(curCount, counts, pages, latestPageNumber, precedes, i)
        invariant forall j | 0 <= j < i ::
                    pageLruCount[j] == if Delta(curCount, counts[j]) < 0 then curCount else counts[j]
        invariant forall j | i <= j < n :: pageLruCount[j] == counts[j]
      {
        if pageStatus[i] == Empty {
          return i;
        }
        var thisDelta := Delta(curCount, pageLruCount[i]);
        if thisDelta < 0 {
          pageLruCount[i] := curCount;
          thisDelta := 0;
        }
        var thisPageNumber := pageNumber[i];
        if (thisDelta > bestDelta || (thisDelta == bestDelta && precedes(thisPageNumber, bestPageNumber)))
           && thisPageNumber != latestPageNumber {
          bestSlot := i;
          bestDelta := thisDelta;
          bestPageNumber := thisPageNumber;
        }
      }
      slot := bestSlot;
    }
  }

  lemma SignedSuccessor(x: nat)
    ensures Signed(Signed(x) + 1) == Signed(x + 1)
  {
    hide Signed;
    var q, r := Quotient(Signed(x) + 1), Signed(Signed(x) + 1);
    assert x + 1 == r + 0x1_0000_0000 * (q + Quotient(x));
    SignedUnique(x + 1, r, q + Quotient(x));
  }
}
