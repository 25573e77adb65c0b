/** The free-page bitmaps of a hash index (hash.h, hashovfl.c): which overflow pages
    can be used again, and the search for the first of them. */
module HashOverflow {
  import opened Bits
  import opened Wrappers

  const BITS_PER_MAP := 32
  const ALL_SET := 0xFFFF_FFFF
  const HASH_MAX_BITMAPS := 128

  // ---------------------------------------------------------------- bits of a map

  /** ISSET, on the words of all bitmap pages one after the other. */
  predicate IsSet(words: seq<uint32>, n: nat)
    requires n / 32 < |words|
  {
    Bit(words[n / 32], n % 32)
  }

  /** SETBIT and CLRBIT, on a word. */
  function SetWord(w: uint32, k: nat): (r: uint32)
    requires k < 32
    ensures forall j: nat :: Bit(r, j) <==> j == k || Bit(w, j)
  {
    hide Or, Bit, Pow2;
    Pow2Monotone(k, 31);
    assert Pow2(31) == 0x8000_0000 && Pow2(32) == 0x1_0000_0000 by { Pow2Constants(); }
    OrBound(w, Pow2(k), 32);
    OneBit(w, k);
    Or(w, Pow2(k))
  }

  lemma OneBit(w: uint32, k: nat)
    ensures forall j: nat :: Bit(Or(w, Pow2(k)), j) <==> j == k || Bit(w, j)
    ensures forall j: nat :: Bit(And(w, Not(Pow2(k))), j) <==> j != k && Bit(w, j)
  {
    hide Or, And, Bit, Pow2;
    forall j: nat
      ensures Bit(Or(w, Pow2(k)), j) <==> j == k || Bit(w, j)
      ensures Bit(And(w, Not(Pow2(k))), j) <==> j != k && Bit(w, j)
    {
      OrBit(w, Pow2(k), j);
      AndBit(w, Not(Pow2(k)), j);
      NotBit(Pow2(k), j);
      Pow2Bit(k, j);
    }
  }

  function ClearWord(w: uint32, k: nat): (r: uint32)
    requires k < 32
    ensures forall j: nat :: Bit(r, j) <==> j != k && Bit(w, j)
  {
    hide And, Bit, Pow2;
    OneBit(w, k);
    AndAtMost(w, Not(Pow2(k)));
    And(w, Not(Pow2(k)))
  }

  lemma FullWord(w: uint32)
    ensures w == ALL_SET <==> AllOnes(w, 32)
  {
    hide Pow2, AllOnes;
    assert Pow2(32) == 0x1_0000_0000 by { Pow2Constants(); }
    FullMask(w, 32);
  }

  /** _hash_firstfreebit. */
  method FirstFreeBit(word: uint32) returns (i: nat)
    requires word != ALL_SET
    ensures i < 32 && !Bit(word, i) && AllOnes(word, i)
  {
    hide And, Bit, Pow2;
    FullWord(word);
    i := 0;
    var mask := 1;
    assert Pow2(0) == 1 by { Pow2Constants(); }
    while true
      invariant 0 <= i < 32 && mask == Pow2(i)
      invariant AllOnes(word, i) && !AllOnes(word, 32)
      decreases 32 - i
    {
      AndPow2(word, i);
      AndCommutes(mask, word);
      if And(mask, word) == 0 {
        return;
      }
      Pow2Next(i);
      mask := 2 * mask;
      i := i + 1;
    }
  }

  lemma Pow2Next(i: nat)
    ensures Pow2(i + 1) == 2 * Pow2(i) && Pow2(i) > 0
  {
  }

  // ---------------------------------------------------------------- positions

  /** The bitmap page of a bit, and the bit's number there (BMPG_SHIFT, BMPG_MASK). */
  function MapPage(n: nat, shift: nat): nat {
    hide Pow2;
    DivMod(n, Pow2(shift));
    n / Pow2(shift)
  }

  function MapBit(n: nat, shift: nat): (bit: nat)
    ensures bit < Pow2(shift) && MapPage(n, shift) * Pow2(shift) + bit == n
  {
    hide And, Pow2;
    AndMask(n, shift);
    DivMod(n, Pow2(shift));
    And(n, Pow2(shift) - 1)
  }

  /** The word of a bit, by page and in the whole map. */
  lemma WordPosition(n: nat, w: nat, shift: nat)
    requires w > 0 && Pow2(shift) == 32 * w
    ensures MapBit(n, shift) / 32 < w && MapPage(n, shift) * w + MapBit(n, shift) / 32 == n / 32
  {
    hide MapPage, MapBit, Pow2;
    ScaledProduct(MapPage(n, shift), w, Pow2(shift));
    WordOfSum(MapPage(n, shift) * w, MapBit(n, shift), w);
  }

  lemma ScaledProduct(i: nat, w: nat, p: nat)
    requires p == 32 * w
    ensures i * p == 32 * (i * w)
  {
    MulAssoc(i, w);
  }

  lemma WordOfSum(words: nat, bit: nat, w: nat)
    requires bit < 32 * w
    ensures bit / 32 < w && (32 * words + bit) / 32 == words + bit / 32
  {
    QuotientUnique(32 * words + bit, 32, words + bit / 32, bit % 32);
  }

  lemma DivMod(n: nat, p: nat)
    requires p > 0
    ensures (n / p) * p + n % p == n && n % p < p && n / p >= 0
  {
    if n / p < 0 { MulMonotone(n / p, -1, p); }
  }

  lemma MulAssoc(i: nat, w: nat)
    ensures i * (32 * w) == 32 * (i * w)
  {
  }

  /** Everything before bit `n` is in use. */
  predicate FullBefore(words: seq<uint32>, n: nat) {
    forall k: nat | k < n && k / 32 < |words| :: IsSet(words, k)
  }

  lemma FullNextWord(words: seq<uint32>, w: nat)
    requires w < |words| && FullBefore(words, 32 * w) && words[w] == ALL_SET
    ensures FullBefore(words, 32 * w + 32)
  {
    hide Bit;
    FullWord(words[w]);
    forall k: nat | k < 32 * w + 32 && k / 32 < |words| ensures IsSet(words, k) {
      if k >= 32 * w {
        QuotientUnique(k, 32, w, k - 32 * w);
      }
    }
  }

  lemma FirstFreeIs(words: seq<uint32>, w: nat, j: nat)
    requires w < |words| && FullBefore(words, 32 * w) && j < 32 && !Bit(words[w], j) && AllOnes(words[w], j)
    ensures (32 * w + j) / 32 == w && !IsSet(words, 32 * w + j) && FullBefore(words, 32 * w + j)
  {
    hide Bit;
    QuotientUnique(32 * w + j, 32, w, j);
    forall k: nat | k < 32 * w + j && k / 32 < |words| ensures IsSet(words, k) {
      if k >= 32 * w {
        QuotientUnique(k, 32, w, k - 32 * w);
      }
    }
  }

  /** The map with one bit changed. */
  function WithBit(words: seq<uint32>, n: nat, on: bool): (r: seq<uint32>)
    requires n / 32 < |words|
    ensures |r| == |words|
  {
    words[n / 32 := if on then SetWord(words[n / 32], n % 32) else ClearWord(words[n / 32], n % 32)]
  }

  lemma WithBitChanges(words: seq<uint32>, n: nat, on: bool, k: nat)
    requires n / 32 < |words| && k / 32 < |words|
    ensures IsSet(WithBit(words, n, on), k) <==> if k == n then on else IsSet(words, k)
  {
    hide Bit, SetWord, ClearWord;
  }

  /** Overflow page `n` of `total` exists and is free. */
  predicate IsFree(words: seq<uint32>, total: nat, n: nat) {
    n < total && n / 32 < |words| && !IsSet(words, n)
  }

  ghost predicate NoneFree(words: seq<uint32>, total: nat) {
    forall n: nat :: !IsFree(words, total, n)
  }

  /** What does not exist yet counts as in use. */
  ghost predicate TailSet(words: seq<uint32>, total: nat) {
    forall n: nat | total <= n && n / 32 < |words| :: IsSet(words, n)
  }

  ghost predicate AllSet(words: seq<uint32>) {
    forall n: nat | n / 32 < |words| :: IsSet(words, n)
  }

  lemma ClaimKeeps(words: seq<uint32>, total: nat, n: nat)
    requires TailSet(words, total) && IsFree(words, total, n) && FullBefore(words, n)
    ensures var w := WithBit(words, n, true);
            && TailSet(w, total) && FullBefore(w, n + 1) && !IsFree(w, total, n)
            && forall k: nat | k != n :: IsFree(w, total, k) <==> IsFree(words, total, k)
  {
    hide WithBit, IsSet;
    var w := WithBit(words, n, true);
    forall k: nat | k / 32 < |words| ensures IsSet(w, k) <==> k == n || IsSet(words, k) {
      WithBitChanges(words, n, true, k);
    }
  }

  lemma ReleaseKeeps(words: seq<uint32>, total: nat, n: nat, firstfree: nat)
    requires TailSet(words, total) && n < total && n / 32 < |words| && FullBefore(words, firstfree)
    ensures var w := WithBit(words, n, false);
            && TailSet(w, total) && FullBefore(w, if n < firstfree then n else firstfree) && IsFree(w, total, n)
            && forall k: nat | k != n :: IsFree(w, total, k) <==> IsFree(words, total, k)
  {
    hide WithBit, IsSet;
    var w := WithBit(words, n, false);
    forall k: nat | k / 32 < |words| ensures IsSet(w, k) <==> k != n && IsSet(words, k) {
      WithBitChanges(words, n, false, k);
    }
  }

  lemma NoneFreeIsAllSet(words: seq<uint32>, total: nat)
    requires TailSet(words, total)
    ensures NoneFree(words, total) && total <= 32 * |words| <==> AllSet(words) && total <= 32 * |words|
  {
    hide IsSet;
    if NoneFree(words, total) && total <= 32 * |words| {
      forall n: nat | n / 32 < |words| ensures IsSet(words, n) {
        assert !IsFree(words, total, n);
      }
    }
  }

  lemma FullWordsAllSet(words: seq<uint32>, count: nat)
    requires AllSet(words)
    ensures AllSet(words + seq(count, _ => ALL_SET))
  {
    hide Bit;
    var w := words + seq(count, _ => ALL_SET);
    forall n: nat | n / 32 < |w| ensures IsSet(w, n) {
      if n / 32 < |words| {
        assert IsSet(words, n);
      } else {
        OnesIsSet(w, n);
      }
    }
  }

  lemma OnesIsSet(words: seq<uint32>, n: nat)
    requires n / 32 < |words| && words[n / 32] == ALL_SET
    ensures IsSet(words, n)
  {
    FullWord(ALL_SET);
  }

  /** The pages up to the last one are there. */
  lemma PagesOf(total: nat, w: nat, p: nat, nmaps: nat, i: nat, lastPage: nat)
    requires w > 0 && p == 32 * w && lastPage * p < total <= 32 * (nmaps * w) && i <= lastPage
    ensures i * w + w <= nmaps * w
  {
    ScaledProduct(lastPage, w, p);
    if nmaps <= lastPage {
      MulMonotone(nmaps, lastPage, w);
    }
    MulMonotone(i + 1, nmaps, w);
    MulMonotone(i, i + 1, w);
  }

  /** And behind the last one there are no overflow pages. */
  lemma PagesPast(total: nat, w: nat, p: nat, i: nat, lastPage: nat)
    requires p == 32 * w && total <= lastPage * p + p && i > lastPage
    ensures 32 * (i * w) >= total
  {
    MulMonotone(lastPage, lastPage + 1, p);
    MulMonotone(lastPage + 1, i, p);
    ScaledProduct(i, w, p);
  }

  // ---------------------------------------------------------------- the bitmap of an index

  /** The number of overflow pages, which of them are in use, and where the search for
      a free one begins. `words` are the bitmap pages, in the order of hashm_mapp. */
  class FreeMap {
    const shift: nat
    const wordsPerPage: nat
    var words: seq<uint32>
    var nmaps: nat
    var total: nat
    var firstfree: nat

    /** Every page is covered by a bitmap page; what does not exist yet counts as in
        use; and no page before `firstfree` is free. */
    ghost predicate Valid()
      reads this
    {
      && wordsPerPage > 0 && Pow2(shift) == 32 * wordsPerPage
      && |words| == nmaps * wordsPerPage && 0 < nmaps <= HASH_MAX_BITMAPS
      && 0 < total && 32 * (|words| - wordsPerPage) < total <= 32 * |words|
      && TailSet(words, total) && FullBefore(words, firstfree)
    }

    /** _hash_metapinit: one overflow page, which is the first bitmap page, all set. */
    constructor (shift: nat, wordsPerPage: nat)
      requires wordsPerPage > 0 && Pow2(shift) == 32 * wordsPerPage
      ensures Valid() && total == 1 && NoneFree(words, total)
    {
      hide IsSet, Pow2;
      this.shift, this.wordsPerPage := shift, wordsPerPage;
      FullWordsAllSet([], wordsPerPage);
      words := [] + seq(wordsPerPage, _ => ALL_SET);
      nmaps, total, firstfree := 1, 1, 0;
    }

    /** The search of _hash_getovflpage, page by page and word by word: the lowest free
        page, if there is one. */
    method FindFree() returns (r: Option<nat>)
      requires Valid()
      ensures r == None <==> NoneFree(words, total)
      ensures r.Some? ==> IsFree(words, total, r.value) && FullBefore(words, r.value)
    {
      hide MapPage, MapBit, Pow2, FullBefore, TailSet, NoneFree, IsFree;
      WordPosition(firstfree, wordsPerPage, shift);
      FullBelow(words, firstfree, 32 * (firstfree / 32));
      r := SearchPages(MapPage(firstfree, shift), MapBit(firstfree, shift) / 32, MapPage(total - 1, shift),
                       MapBit(total - 1, shift));
    }

    /** The outer loop, from word `start` of page `first` on. */
    method SearchPages(first: nat, start: nat, lastPage: nat, lastBit: nat) returns (r: Option<nat>)
      requires Valid() && start < wordsPerPage && FullBefore(words, 32 * (first * wordsPerPage + start))
      requires lastBit < Pow2(shift) && lastPage * Pow2(shift) + lastBit == total - 1
      ensures r == None <==> NoneFree(words, total)
      ensures r.Some? ==> IsFree(words, total, r.value) && FullBefore(words, r.value)
    {
      hide Pow2, FullBefore, TailSet, NoneFree, IsFree;
      var i, j, perPage := first, start, Pow2(shift);
      while i <= lastPage
        invariant 0 <= i && 0 <= j < wordsPerPage
        invariant FullBefore(words, 32 * (i * wordsPerPage + j))
        decreases lastPage + 1 - i
      {
        PagesOf(total, wordsPerPage, perPage, nmaps, i, lastPage);
        r := SearchPage(i, j, if i == lastPage then lastBit else perPage - 1);
        if r.Some? {
          FoundIsFree(words, total, r.value);
          return;
        }
        NextPageStart(i, wordsPerPage);
        i, j := i + 1, 0;
      }
      PagesPast(total, wordsPerPage, perPage, i, lastPage);
      NothingFound(words, total, 32 * (i * wordsPerPage + j));
      r := None;
    }

    /** One bitmap page, from word `j` to the word of bit `lastInPage`. */
    method SearchPage(i: nat, start: nat, lastInPage: nat) returns (r: Option<nat>)
      requires Valid() && start < wordsPerPage && i * wordsPerPage + wordsPerPage <= |words|
      requires FullBefore(words, 32 * (i * wordsPerPage + start))
      requires lastInPage == Pow2(shift) - 1 || i * Pow2(shift) + lastInPage == total - 1
      requires lastInPage < Pow2(shift)
      ensures r.Some? ==> IsFree(words, total, r.value) && FullBefore(words, r.value)
      ensures r == None ==> FullBefore(words, 32 * (i * wordsPerPage + wordsPerPage))
    {
      hide Bit, Pow2, FullBefore, IsSet, TailSet, IsFree;
      var perPage, base := Pow2(shift), i * wordsPerPage;
      assert i * perPage == 32 * base by { MulAssoc(i, wordsPerPage); }
      var j, bit := start, 32 * start;
      while bit <= lastInPage
        invariant start <= j <= wordsPerPage && bit == 32 * j
        invariant FullBefore(words, 32 * (base + j))
        decreases wordsPerPage - j
      {
        if words[base + j] != ALL_SET {
          var k := FirstFreeBit(words[base + j]);
          FirstFreeIs(words, base + j, k);
          bit := bit + k;
          NotBeyondTotal(words, total, i * perPage + bit);
          return Some(i * perPage + bit);
        }
        FullNextWord(words, base + j);
        j, bit := j + 1, bit + BITS_PER_MAP;
      }
      if j < wordsPerPage {
        FullToEnd(words, total, 32 * (base + j), 32 * (base + wordsPerPage));
      }
      r := None;
    }

    // ---------------------------------------------------------------- allocation

    /** _hash_getovflpage: the lowest free page if there is one, else a new page at the
        end; a bitmap page is added first when the new page would not be covered. The
        page that is returned was not in use; it is now, and nothing else changes. */
    method GetPage() returns (r: Option<nat>)
      requires Valid()
      modifies this
      ensures Valid()
      ensures r == None <==> old(nmaps == 128 && total == 32 * |words| && NoneFree(words, total))
      ensures r == None ==> total == old(total) && words == old(words) && firstfree == old(firstfree)
      ensures r.Some? && !old(NoneFree(words, total)) ==>
                old(IsFree(words, total, r.value) && FullBefore(words, r.value)) && total == old(total)
      ensures r.Some? && old(NoneFree(words, total)) ==>
                var full := old(total) == 32 * old(|words|);
                && r.value == total - 1 == old(total) + (if full then 1 else 0)
                && |words| == old(|words|) + (if full then wordsPerPage else 0)
      ensures r.Some? ==> !IsFree(words, total, r.value) && firstfree == r.value + 1
      ensures r.Some? ==> forall n: nat | n != r.value :: IsFree(words, total, n) <==> old(IsFree(words, total, n))
    {
      hide IsFree, Pow2, FullBefore, TailSet;
      r := FindFree();
      if r.Some? {
        Claim(r.value);
      } else {
        r := Extend();
      }
    }

    /** SETBIT, and the new start of the search. */
    method Claim(n: nat)
      requires Valid() && IsFree(words, total, n) && FullBefore(words, n)
      modifies `words, `firstfree
      ensures Valid() && !IsFree(words, total, n) && firstfree == n + 1
      ensures forall k: nat | k != n :: IsFree(words, total, k) <==> old(IsFree(words, total, k))
    {
      hide Pow2, WithBit, TailSet, FullBefore, IsSet;
      ClaimKeeps(words, total, n);
      words := WithBit(words, n, true);
      firstfree := n + 1;
    }

    /** _hash_freeovflpage: CLRBIT, and the start of the search moves back if need be. */
    method ReleasePage(n: nat)
      requires Valid() && n < total
      modifies `words, `firstfree
      ensures Valid() && IsFree(words, total, n)
      ensures firstfree == if n < old(firstfree) then n else old(firstfree)
      ensures forall k: nat | k != n :: IsFree(words, total, k) <==> old(IsFree(words, total, k))
    {
      hide Pow2, WithBit, TailSet, FullBefore, IsSet, IsFree;
      ReleaseKeeps(words, total, n, firstfree);
      words := WithBit(words, n, false);
      if n < firstfree {
        firstfree := n;
      }
    }

    /** The end of _hash_getovflpage. */
    method Extend() returns (r: Option<nat>)
      requires Valid() && NoneFree(words, total)
      modifies this
      ensures Valid() && NoneFree(words, total)
      ensures r == None <==> old(nmaps == 128 && total == 32 * |words|)
      ensures r == None ==> total == old(total) && words == old(words) && firstfree == old(firstfree)
      ensures r.Some? ==>
                var full := old(total) == 32 * old(|words|);
                && r.value == total - 1 == old(total) + (if full then 1 else 0)
                && |words| == old(|words|) + (if full then wordsPerPage else 0) && firstfree == r.value + 1
    {
      hide IsSet, Pow2, MapBit, MapPage, IsFree;
      LastBitOfPage();
      NoneFreeIsAllSet(words, total);
      if MapBit(total - 1, shift) == Pow2(shift) - 1 {
        if nmaps == HASH_MAX_BITMAPS {
          return None;
        }
        AddMapPage();
      }
      r := Some(total);
      total := total + 1;
      firstfree := r.value + 1;
      NoneFreeIsAllSet(words, total);
    }

    /** _hash_initbitmap: a page with all bits set, which is itself an overflow page. */
    method AddMapPage()
      requires Valid() && total == 32 * |words| && nmaps < HASH_MAX_BITMAPS && AllSet(words)
      modifies `words, `nmaps, `total
      ensures Valid() && total == old(total) + 1 < 32 * |words| && AllSet(words)
      ensures |words| == old(|words|) + wordsPerPage
    {
      hide IsSet, Pow2;
      MulMonotone(nmaps, nmaps + 1, wordsPerPage);
      FullWordsAllSet(words, wordsPerPage);
      words := words + seq(wordsPerPage, _ => ALL_SET);
      nmaps, total := nmaps + 1, total + 1;
    }

    lemma LastBitOfPage()
      requires Valid()
      ensures MapBit(total - 1, shift) == Pow2(shift) - 1 <==> total == 32 * |words|
    {
      hide MapPage, MapBit, Pow2, IsSet, FullBefore, TailSet;
      var q, bit, p := MapPage(total - 1, shift), MapBit(total - 1, shift), Pow2(shift);
      ScaledProduct(nmaps, wordsPerPage, p);
      MulMonotone(nmaps - 1, nmaps, p);
      MulMonotone(q, q + 1, p);
      if q < nmaps - 1 {
        MulMonotone(q + 1, nmaps - 1, p);
      } else if q > nmaps - 1 {
        MulMonotone(nmaps, q, p);
      }
    }
  }

  lemma NotBeyondTotal(words: seq<uint32>, total: nat, n: nat)
    requires TailSet(words, total) && n / 32 < |words| && !IsSet(words, n)
    ensures IsFree(words, total, n)
  {
    hide IsSet;
  }

  lemma FullToEnd(words: seq<uint32>, total: nat, n: nat, m: nat)
    requires TailSet(words, total) && FullBefore(words, n) && n >= total
    ensures FullBefore(words, m)
  {
    hide IsSet;
  }

  lemma FoundIsFree(words: seq<uint32>, total: nat, n: nat)
    requires IsFree(words, total, n)
    ensures !NoneFree(words, total)
  {
    hide IsFree;
  }

  lemma NothingFound(words: seq<uint32>, total: nat, n: nat)
    requires FullBefore(words, n) && n >= total
    ensures NoneFree(words, total)
  {
    hide IsSet;
  }

  lemma FullBelow(words: seq<uint32>, n: nat, m: nat)
    requires FullBefore(words, n) && m <= n
    ensures FullBefore(words, m)
  {
    hide IsSet;
  }

  lemma NextPageStart(i: nat, w: nat)
    ensures i * w + w == (i + 1) * w + 0
  {
  }

  lemma MulMonotone(a: int, b: int, w: nat)
    requires a <= b
    ensures a * w <= b * w
    ensures (a + 1) * w == a * w + w
  {
    assert b * w == a * w + (b - a) * w;
  }
}
