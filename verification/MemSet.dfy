/** MemSet and its variants, and StrNCpy (c.h). */
module MemSet {
  import opened Bits
  import opened Bytes

  const SIZEOF_LONG := 8
  const LONG_ALIGN_MASK := 7
  const MEMSET_LOOP_LIMIT := 1024

  /** memset: the value is converted to an unsigned char. */
  function Set(mem: seq<Byte>, start: nat, val: int, len: nat): (r: seq<Byte>)
    requires start + len <= |mem|
    ensures |r| == |mem|
  {
    Overlay(mem, start, seq(len, _ => val % 256))
  }

  /** A length in whole words, rounded up. */
  function WordsUp(len: nat): (n: nat)
    ensures n % 8 == 0 && len <= n < len + 8
  {
    if len % 8 == 0 then len else len - len % 8 + 8
  }

  lemma MaskIsRemainder(x: int)
    ensures And(x, LONG_ALIGN_MASK) == x % 8
  {
    Pow2Constants();
    AndMask(x, 3);
  }

  /** MemSetTest. */
  predicate Test(val: int, len: nat) {
    And(len, LONG_ALIGN_MASK) == 0 && len <= MEMSET_LOOP_LIMIT && val == 0
  }

  /** MemSetLoop, for memory whose first byte is at address `addr` and a start that is aligned
      to a word: it zeroes word by word, whatever the value asked for, and past `len` when
      that is not a number of words. */
  method Loop(mem: array<Byte>, addr: nat, start: nat, len: nat)
    requires (addr + start) % 8 == 0 && start + WordsUp(len) <= mem.Length
    modifies mem
    ensures mem[..] == Overlay(old(mem[..]), start, Zeros(WordsUp(len)))
  {
    hide Overlay;
    var p, stop := start, start + len;
    LoopStart(mem[..], start);
    while p < stop
      invariant start <= p <= start + WordsUp(len) && (p - start) % 8 == 0
      invariant mem[..] == Overlay(old(mem[..]), start, Zeros(p - start))
      decreases stop - p
    {
      LoopStep(old(mem[..]), start, p - start);
      NextWord(p - start, len);
      StaysAligned(addr + start, p - start);
      StoreZeroWord(mem, addr, p);
      p := p + SIZEOF_LONG;
    }
    LoopEnd(p - start, len);
  }

  lemma LoopStart(mem: seq<Byte>, start: nat)
    requires start <= |mem|
    ensures Overlay(mem, start, Zeros(0)) == mem
  {
  }

  lemma LoopStep(mem: seq<Byte>, start: nat, n: nat)
    requires start + n + 8 <= |mem|
    ensures Overlay(Overlay(mem, start, Zeros(n)), start + n, Zeros(8)) == Overlay(mem, start, Zeros(n + 8))
  {
  }

  lemma StaysAligned(a: nat, n: nat)
    requires a % 8 == 0 && n % 8 == 0
    ensures (a + n) % 8 == 0
  {
  }

  lemma NextWord(n: nat, len: nat)
    requires n % 8 == 0 && n < len
    ensures n + 8 <= WordsUp(len) && (n + 8) % 8 == 0
  {
  }

  lemma LoopEnd(n: nat, len: nat)
    requires n % 8 == 0 && len <= n <= WordsUp(len)
    ensures n == WordsUp(len)
  {
  }

  /** A store through a pointer to long, which must be aligned. */
  method StoreZeroWord(mem: array<Byte>, addr: nat, p: nat)
    requires (addr + p) % 8 == 0 && p + 8 <= mem.Length
    modifies mem
    ensures mem[..] == Overlay(old(mem[..]), p, Zeros(8))
  {
    CopyBytes(mem, p, Zeros(8));
  }

  /** MemSetLoop agrees with memset under its test; without it, exactly when the length
      is a number of words and the value is zero as a byte, or there is nothing to set. */
  lemma LoopIsMemset(mem: seq<Byte>, start: nat, val: int, len: nat)
    requires start + WordsUp(len) <= |mem|
    ensures Test(val, len) <==> len % 8 == 0 && len <= 1024 && val == 0
    ensures Test(val, len) ==> Overlay(mem, start, Zeros(WordsUp(len))) == Set(mem, start, val, len)
    ensures len % 8 == 0 && (val % 256 == 0 || len == 0) ==>
              Overlay(mem, start, Zeros(WordsUp(len))) == Set(mem, start, val, len)
    ensures !(len % 8 == 0 && (val % 256 == 0 || len == 0)) && (forall i | 0 <= i < |mem| :: mem[i] != 0) ==>
              Overlay(mem, start, Zeros(WordsUp(len))) != Set(mem, start, val, len)
  {
    MaskIsRemainder(len);
    var a, b := Overlay(mem, start, Zeros(WordsUp(len))), Set(mem, start, val, len);
    if len % 8 == 0 && (val % 256 == 0 || len == 0) {
      assert Zeros(len) == seq(len, _ => val % 256);
    } else if len % 8 != 0 {
      assert a[start + len] == 0 && b[start + len] == mem[start + len];
    } else {
      assert a[start] == 0 && b[start] == val % 256;
    }
  }

  /** MemSet, for memory whose first byte is at address `addr`: the same as memset. */
  method MemSet(mem: array<Byte>, addr: nat, start: nat, val: int, len: nat)
    requires start + len <= mem.Length
    modifies mem
    ensures mem[..] == Set(old(mem[..]), start, val, len)
  {
    MaskIsRemainder(len);
    MaskIsRemainder(addr + start);
    if And(addr + start, LONG_ALIGN_MASK) == 0 && And(len, LONG_ALIGN_MASK) == 0
       && val == 0 && len <= MEMSET_LOOP_LIMIT
    {
      LoopIsMemset(mem[..], start, val, len);
      Loop(mem, addr, start, len);
    } else {
      Memset(mem, start, val, len);
    }
  }

  /** MemSetAligned, for a start that is known to be aligned. */
  method MemSetAligned(mem: array<Byte>, addr: nat, start: nat, val: int, len: nat)
    requires (addr + start) % 8 == 0 && start + len <= mem.Length
    modifies mem
    ensures mem[..] == Set(old(mem[..]), start, val, len)
  {
    MaskIsRemainder(len);
    if And(len, LONG_ALIGN_MASK) == 0 && val == 0 && len <= MEMSET_LOOP_LIMIT {
      LoopIsMemset(mem[..], start, val, len);
      Loop(mem, addr, start, len);
    } else {
      Memset(mem, start, val, len);
    }
  }

  method Memset(mem: array<Byte>, start: nat, val: int, len: nat)
    requires start + len <= mem.Length
    modifies mem
    ensures mem[..] == Set(old(mem[..]), start, val, len)
  {
    CopyBytes(mem, start, seq(len, _ => val % 256));
  }

  // ---------------------------------------------------------------- StrNCpy

  /** What strncpy leaves in the buffer: at most `len` characters of the string, padded
      with zeros; and then StrNCpy overwrites the last byte. */
  function Truncated(src: seq<Byte>, len: nat): (r: seq<Byte>)
    requires len > 0
    ensures |r| == len
  {
    if |src| < len then src + Zeros(len - |src|) else src[..len - 1] + [0]
  }

  /** StrNCpy, for a source string without its zero byte. */
  method StrNCpy(mem: array<Byte>, dst: nat, src: seq<Byte>, len: nat)
    requires dst + len <= mem.Length
    modifies mem
    ensures mem[..] == if len == 0 then old(mem[..]) else Overlay(old(mem[..]), dst, Truncated(src, len))
  {
    if len > 0 {
      var n := if |src| < len then |src| else len;
      CopyBytes(mem, dst, src[..n] + Zeros(len - n));
      mem[dst + len - 1] := 0;
    }
  }

  /** The result is always terminated, and keeps as much of the string as fits. */
  lemma TruncatedIsTerminated(src: seq<Byte>, len: nat)
    requires len > 0 && 0 !in src
    ensures var r, n := Truncated(src, len), if |src| < len then |src| else len - 1;
            r[..n] == src[..n] && 0 !in r[..n] && forall i | n <= i < len :: r[i] == 0
  {
    var r, n := Truncated(src, len), if |src| < len then |src| else len - 1;
    assert r[..n] == src[..n];
    assert forall i | 0 <= i < n :: r[..n][i] == src[i];
  }
}
