/** Memory as sequences of bytes, and the machine's integers stored in them in
    either byte order. */
module Bytes {
  import Bits

  type Byte = b: int | 0 <= b < 256

  datatype ByteOrder = LittleEndian | BigEndian

  function Pow256(n: nat): (r: nat)
    ensures r > 0
  {
    if n == 0 then 1 else 256 * Pow256(n - 1)
  }

  /** The `n` bytes of an unsigned integer that is assigned to an `n`-byte field;
      higher bits are lost, as in a C conversion. */
  function Store(order: ByteOrder, v: nat, n: nat): (s: seq<Byte>)
    ensures |s| == n
    decreases n
  {
    if n == 0 then []
    else if order.LittleEndian? then [v % 256] + Store(order, v / 256, n - 1)
    else Store(order, v / 256, n - 1) + [v % 256]
  }

  /** The unsigned integer that the bytes hold. */
  function Load(order: ByteOrder, s: seq<Byte>): (v: nat)
    decreases |s|
  {
    if s == [] then 0
    else if order.LittleEndian? then s[0] + 256 * Load(order, s[1..])
    else 256 * Load(order, s[..|s| - 1]) + s[|s| - 1]
  }

  function Zeros(n: nat): (s: seq<Byte>)
    ensures |s| == n && forall i :: 0 <= i < n ==> s[i] == 0
  {
    seq(n, _ => 0)
  }

  lemma {:induction false} LoadBound(order: ByteOrder, s: seq<Byte>)
    ensures Load(order, s) < Pow256(|s|)
    decreases |s|
  {
    if s != [] {
      LoadBound(order, if order.LittleEndian? then s[1..] else s[..|s| - 1]);
    }
  }

  lemma ModStep(v: nat, m: nat)
    requires m > 0
    ensures v % (256 * m) == v % 256 + 256 * ((v / 256) % m)
  {
    QuotientStep(v, m);
    var q := (v / 256) / m;
    assert v / 256 == q * m + (v / 256) % m;
    assert v == q * (256 * m) + (v % 256 + 256 * ((v / 256) % m));
  }

  lemma QuotientStep(v: nat, m: nat)
    requires m > 0
    ensures v / (256 * m) == (v / 256) / m
  {
    var q := (v / 256) / m;
    assert v / 256 == q * m + (v / 256) % m;
    assert v == q * (256 * m) + (v % 256 + 256 * ((v / 256) % m));
    Bits.QuotientUnique(v, 256 * m, q, v % 256 + 256 * ((v / 256) % m));
  }

  /** Which byte of the integer is stored where: the least significant one first on a
      little-endian machine, and last on a big-endian one. */
  lemma {:induction false} StoredByte(order: ByteOrder, v: nat, n: nat, k: nat)
    requires k < n
    ensures Store(order, v, n)[k] == (v / Pow256(if order.LittleEndian? then k else n - 1 - k)) % 256
    decreases n
  {
    var j := if order.LittleEndian? then k else n - 1 - k;
    if j > 0 {
      StoredByte(order, v / 256, n - 1, if order.LittleEndian? then k - 1 else k);
      QuotientStep(v, Pow256(j - 1));
    }
  }

  lemma {:induction false} LoadStore(order: ByteOrder, v: nat, n: nat)
    ensures Load(order, Store(order, v, n)) == v % Pow256(n)
    decreases n
  {
    if n > 0 {
      var s, t := Store(order, v, n), Store(order, v / 256, n - 1);
      assert if order.LittleEndian? then s[1..] == t else s[..n - 1] == t;
      LoadStore(order, v / 256, n - 1);
      ModStep(v, Pow256(n - 1));
    }
  }

  lemma {:induction false} StoreLoad(order: ByteOrder, s: seq<Byte>)
    ensures Store(order, Load(order, s), |s|) == s
    decreases |s|
  {
    if s != [] {
      if order.LittleEndian? {
        StoreLoad(order, s[1..]);
        assert Load(order, s) / 256 == Load(order, s[1..]) && Load(order, s) % 256 == s[0];
      } else {
        StoreLoad(order, s[..|s| - 1]);
        assert Load(order, s) / 256 == Load(order, s[..|s| - 1]) && Load(order, s) % 256 == s[|s| - 1];
      }
    }
  }

  /** Reading back what was stored, when it fits. */
  lemma LoadStoreFits(order: ByteOrder, v: nat, n: nat)
    requires v < Pow256(n)
    ensures Load(order, Store(order, v, n)) == v
  {
    LoadStore(order, v, n);
    Bits.QuotientUnique(v, Pow256(n), 0, v);
  }

  /** Memory `s` with the bytes `x` written at `at`. */
  function Overlay(s: seq<Byte>, at: nat, x: seq<Byte>): (r: seq<Byte>)
    requires at + |x| <= |s|
    ensures |r| == |s|
    ensures forall k :: 0 <= k < |s| ==> r[k] == if at <= k < at + |x| then x[k - at] else s[k]
  {
    s[..at] + x + s[at + |x|..]
  }

  /** memcpy. */
  method CopyBytes(t: array<Byte>, at: nat, s: seq<Byte>)
    requires at + |s| <= t.Length
    modifies t
    ensures t[..] == Overlay(old(t[..]), at, s)
  {
    forall k | 0 <= k < |s| {
      t[at + k] := s[k];
    }
  }
}
