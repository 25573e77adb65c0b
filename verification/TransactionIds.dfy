/** The ring of transaction numbers (transam.h, transam.c): 32-bit counters that skip
    three reserved values when they wrap around. */
module TransactionIds {
  import opened Bits

  const FIRST_NORMAL := 3
  const MAX_XID := 0xFFFF_FFFF

  predicate IsNormal(xid: uint32) {
    xid >= FIRST_NORMAL
  }

  /** The normal number after or before a given number. */
  function After(xid: uint32): uint32 {
    if xid == MAX_XID || xid < FIRST_NORMAL then FIRST_NORMAL else xid + 1
  }

  function Before(xid: uint32): uint32 {
    if xid <= FIRST_NORMAL then MAX_XID else xid - 1
  }

  /** A transaction number that the statement macros update. */
  class Variable {
    var xid: uint32

    /** TransactionIdAdvance. */
    method Advance()
      modifies this
      ensures xid == After(old(xid))
    {
      xid := Wrap(xid + 1);
      if xid < FIRST_NORMAL {
        xid := FIRST_NORMAL;
      }
    }

    /** TransactionIdRetreat. */
    method Retreat()
      modifies this
      ensures xid == Before(old(xid))
    {
      xid := Wrap(xid - 1);
      while xid < FIRST_NORMAL
        invariant if xid >= FIRST_NORMAL then xid == Before(old(xid)) else old(xid) <= FIRST_NORMAL
        decreases if xid < FIRST_NORMAL then xid + 1 else 0
      {
        xid := Wrap(xid - 1);
      }
    }
  }

  /** Neither step yields a reserved number, and each undoes the other on exactly the
      normal numbers. */
  lemma StepsInvert(xid: uint32)
    ensures IsNormal(After(xid)) && IsNormal(Before(xid))
    ensures Before(After(xid)) == xid <==> IsNormal(xid)
    ensures After(Before(xid)) == xid <==> IsNormal(xid)
  {
  }

  function AfterBy(xid: uint32, k: nat): uint32 {
    if k == 0 then xid else After(AfterBy(xid, k - 1))
  }

  /** On the normal numbers, counted from the first one, `k` advances add `k` modulo
      their number, 2^32 - 3. */
  lemma {:induction false} AdvancesAdd(xid: uint32, k: nat)
    requires IsNormal(xid)
    ensures IsNormal(AfterBy(xid, k))
    ensures AfterBy(xid, k) - FIRST_NORMAL == (xid - FIRST_NORMAL + k) % 0xFFFF_FFFD
  {
    if k == 0 {
      QuotientUnique(xid - FIRST_NORMAL, 0xFFFF_FFFD, 0, xid - FIRST_NORMAL);
    } else {
      AdvancesAdd(xid, k - 1);
      ModSuccessor(xid - FIRST_NORMAL + k - 1, 0xFFFF_FFFD);
    }
  }

  /** So the ring closes after 2^32 - 3 advances, and not before. */
  lemma RingCloses(xid: uint32, k: nat)
    requires IsNormal(xid)
    ensures AfterBy(xid, k) == xid <==> k % 0xFFFF_FFFD == 0
  {
    AdvancesAdd(xid, k);
    var p := xid - FIRST_NORMAL;
    var q, r := k / 0xFFFF_FFFD, k % 0xFFFF_FFFD;
    if p + r < 0xFFFF_FFFD {
      QuotientUnique(p + k, 0xFFFF_FFFD, q, p + r);
    } else {
      QuotientUnique(p + k, 0xFFFF_FFFD, q + 1, p + r - 0xFFFF_FFFD);
    }
  }

  // ---------------------------------------------------------------- order

  /** TransactionIdPrecedes: the sign of the 32-bit difference. */
  predicate Precedes(a: uint32, b: uint32) {
    if !IsNormal(a) || !IsNormal(b) then a < b
    else Wrap(a - b) >= 0x8000_0000
  }

  /** How many values, reserved ones included, lie from `xid` up to `k` advances on. */
  function Span(xid: uint32, k: nat): nat {
    if xid + k <= MAX_XID then k else k + 3
  }

  /** A number precedes the ones up to 2^31 values ahead of it, and no others. */
  lemma PrecedesWindow(xid: uint32, k: nat)
    requires IsNormal(xid) && k < 0xFFFF_FFFD
    ensures Precedes(xid, AfterBy(xid, k)) <==> 0 < Span(xid, k) <= 0x8000_0000
  {
    hide Wrap;
    AdvancesAdd(xid, k);
    var p := xid - FIRST_NORMAL;
    if p + k < 0xFFFF_FFFD {
      QuotientUnique(p + k, 0xFFFF_FFFD, 0, p + k);
    } else {
      QuotientUnique(p + k, 0xFFFF_FFFD, 1, p + k - 0xFFFF_FFFD);
    }
  }

  /** Of two different normal numbers exactly one precedes the other, unless they are
      opposite on the ring: then each precedes the other. */
  lemma PrecedesEitherWay(a: uint32, b: uint32)
    requires IsNormal(a) && IsNormal(b)
    ensures !Precedes(a, a)
    ensures a != b ==> Precedes(a, b) || Precedes(b, a)
    ensures Precedes(a, b) && Precedes(b, a) <==> a - b == 0x8000_0000 || b - a == 0x8000_0000
  {
    hide Wrap;
  }

  /** It is transitive among numbers of which the last is within reach of the first. */
  lemma PrecedesWithinWindow(xid: uint32, i: nat, j: nat)
    requires IsNormal(xid) && Span(xid, j) <= 0x8000_0000 && i < j
    ensures Precedes(AfterBy(xid, i), AfterBy(xid, j))
  {
    AfterBySum(xid, i, j - i);
    AdvancesAdd(xid, i);
    var mid := AfterBy(xid, i);
    assert Span(mid, j - i) <= Span(xid, j) by { SpanShrinks(xid, i, j); }
    PrecedesWindow(mid, j - i);
  }

  lemma SpanShrinks(xid: uint32, i: nat, j: nat)
    requires IsNormal(xid) && i <= j < 0xFFFF_FFFD
    ensures 0 <= Span(AfterBy(xid, i), j - i) <= Span(xid, j)
  {
    AdvancesAdd(xid, i);
    var p := xid - FIRST_NORMAL;
    if p + i < 0xFFFF_FFFD {
      QuotientUnique(p + i, 0xFFFF_FFFD, 0, p + i);
    } else {
      QuotientUnique(p + i, 0xFFFF_FFFD, 1, p + i - 0xFFFF_FFFD);
    }
  }

  lemma {:induction false} AfterBySum(xid: uint32, i: nat, k: nat)
    ensures AfterBy(AfterBy(xid, i), k) == AfterBy(xid, i + k)
  {
    if k > 0 { AfterBySum(xid, i, k - 1); }
  }
}
