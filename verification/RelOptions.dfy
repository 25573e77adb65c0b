/** Packing parsed relation options into one variable-length struct (reloptions.h,
    reloptions.c): fixed-width members, and strings behind the struct that members
    point to by offset. */
module RelOptions {
  import opened Bytes
  import Varlena
  import opened Wrappers

  const MAX_ALLOC_SIZE := 0x3FFF_FFFF

  /** A parsed option. A string has no zero byte; its default may be NULL. */
  datatype RelOpt =
    | Plain(name: string, isset: bool, value: seq<Byte>, dflt: seq<Byte>)
    | Text(name: string, isset: bool, value: seq<Byte>, textDflt: Option<seq<Byte>>)

  /** A row of the parse table: the member of the struct that an option goes to. */
  datatype Elem = Elem(name: string, offset: nat)

  predicate CString(s: seq<Byte>) {
    0 !in s
  }

  predicate ValidOpt(o: RelOpt) {
    match o
    case Plain(_, _, value, dflt) => |value| == |dflt|
    case Text(_, _, value, dflt) => CString(value) && (dflt.Some? ==> CString(dflt.value))
  }

  /** The string of HANDLE_STRING_RELOPTION; None is NULL. */
  function StringVal(o: RelOpt): Option<seq<Byte>>
    requires o.Text?
  {
    if o.isset then Some(o.value) else o.textDflt
  }

  /** GET_STRING_RELOPTION_LEN; the length of a NULL default is kept as zero. */
  function StringLen(o: RelOpt): nat
    requires o.Text?
  {
    if o.isset then |o.value| else if o.textDflt.Some? then |o.textDflt.value| else 0
  }

  function PlainVal(o: RelOpt): seq<Byte>
    requires o.Plain?
  {
    if o.isset then o.value else o.dflt
  }

  /** The width of the member that the option is stored in. */
  function Width(o: RelOpt): nat {
    if o.Plain? then |o.value| else 4
  }

  function Lower(c: char): char {
    if 'A' <= c <= 'Z' then (c as int - 'A' as int + 'a' as int) as char else c
  }

  /** pg_strcasecmp(a, b) == 0, for names in ASCII. */
  predicate SameName(a: string, b: string) {
    |a| == |b| && forall i | 0 <= i < |a| :: Lower(a[i]) == Lower(b[i])
  }

  /** So names are the same when each two letters are, or differ only in that one is the
      capital of the other. */
  lemma SameNameFolds(a: string, b: string)
    ensures SameName(a, b) <==>
            |a| == |b| && forall i | 0 <= i < |a| ::
              a[i] == b[i] || ('A' <= a[i] <= 'Z' && b[i] as int == a[i] as int + 32)
              || ('A' <= b[i] <= 'Z' && a[i] as int == b[i] as int + 32)
  {
    if |a| == |b| {
      forall i | 0 <= i < |a|
        ensures Lower(a[i]) == Lower(b[i]) <==>
                a[i] == b[i] || ('A' <= a[i] <= 'Z' && b[i] as int == a[i] as int + 32)
                || ('A' <= b[i] <= 'Z' && a[i] as int == b[i] as int + 32)
      {
      }
    }
  }

  /** The first row of the parse table for a name, or the length of the table. */
  function Lookup(elems: seq<Elem>, name: string): (j: nat)
    ensures j <= |elems| && (j < |elems| ==> SameName(name, elems[j].name))
    ensures forall k | 0 <= k < j :: !SameName(name, elems[k].name)
  {
    if elems == [] then 0
    else if SameName(name, elems[0].name) then 0
    else
      var j := 1 + Lookup(elems[1..], name);
      assert forall k | 0 < k < j :: elems[k] == elems[1..][k - 1];
      j
  }

  predicate Found(elems: seq<Elem>, o: RelOpt) {
    Lookup(elems, o.name) < |elems|
  }

  /** Where the option's member is. */
  function Place(elems: seq<Elem>, o: RelOpt): nat
    requires Found(elems, o)
  {
    elems[Lookup(elems, o.name)].offset
  }

  /** A parse table describes members of the struct behind its length word, and no two
      of the options go to overlapping members. */
  predicate TableOk(elems: seq<Elem>, options: seq<RelOpt>, base: nat) {
    && (forall i | 0 <= i < |options| :: ValidOpt(options[i]))
    && (forall i | 0 <= i < |options| && Found(elems, options[i]) ::
          4 <= Place(elems, options[i]) && Place(elems, options[i]) + Width(options[i]) <= base)
    && (forall i, k | 0 <= i < k < |options| && Found(elems, options[i]) && Found(elems, options[k]) ::
          Apart(Place(elems, options[i]), Width(options[i]), Place(elems, options[k]), Width(options[k])))
  }

  predicate Apart(a: nat, m: nat, b: nat, n: nat) {
    a + m <= b || b + n <= a
  }

  // ---------------------------------------------------------------- allocation

  /** The size that allocateReloptStruct computes. */
  function StructSize(options: seq<RelOpt>, base: nat): nat {
    if options == [] then base
    else
      var last := options[|options| - 1];
      StructSize(options[..|options| - 1], base) + if last.Text? then StringLen(last) + 1 else 0
  }

  /** allocateReloptStruct: zeroed memory, or null when palloc0 refuses the size. */
  method Allocate(options: seq<RelOpt>, base: nat) returns (mem: array?<Byte>)
    ensures mem == null <==> StructSize(options, base) > MAX_ALLOC_SIZE
    ensures mem != null ==> fresh(mem) && mem[..] == Zeros(StructSize(options, base))
  {
    var size := base;
    for i := 0 to |options|
      invariant size == StructSize(options[..i], base)
    {
      assert options[..i + 1][..i] == options[..i];
      if options[i].Text? {
        size := size + StringLen(options[i]) + 1;
      }
    }
    assert options[..|options|] == options;
    if size > MAX_ALLOC_SIZE {
      return null;
    }
    mem := new Byte[size](_ => 0);
  }

  // ---------------------------------------------------------------- filling

  /** Where the strings end after `n` options. */
  function OffsetAfter(elems: seq<Elem>, options: seq<RelOpt>, base: nat, n: nat): nat
    requires n <= |options|
  {
    if n == 0 then base
    else
      OffsetAfter(elems, options, base, n - 1)
      + if Found(elems, options[n - 1]) && options[n - 1].Text? && StringVal(options[n - 1]).Some?
        then |StringVal(options[n - 1]).value| + 1 else 0
  }

  /** One option more: its string, or else its default, with the zero byte. A NULL default
      counts one byte for the allocation and none for what is filled in. */
  lemma SizesAdd(elems: seq<Elem>, options: seq<RelOpt>, base: nat, n: nat)
    requires n < |options|
    ensures StructSize([], base) == base == OffsetAfter(elems, options, base, 0)
    ensures var o := options[n];
            && StructSize(options[..n + 1], base) == StructSize(options[..n], base)
               + (if o.Plain? then 0
                  else if o.isset then |o.value| + 1
                  else if o.textDflt.Some? then |o.textDflt.value| + 1 else 1)
            && OffsetAfter(elems, options, base, n + 1) == OffsetAfter(elems, options, base, n)
               + (if o.Plain? || !Found(elems, o) then 0
                  else if o.isset then |o.value| + 1
                  else if o.textDflt.Some? then |o.textDflt.value| + 1 else 0)
  {
    hide Lookup;
    assert options[..n + 1][..n] == options[..n];
  }

  /** The allocation has room for every string with its zero byte. */
  lemma {:induction false} StringsFit(elems: seq<Elem>, options: seq<RelOpt>, base: nat, n: nat)
    requires n <= |options|
    ensures base <= OffsetAfter(elems, options, base, n) <= StructSize(options[..n], base) <= StructSize(options, base)
    decreases |options| - n
  {
    StringsUpTo(elems, options, base, n);
    if n < |options| {
      StringsFit(elems, options, base, n + 1);
      assert options[..n + 1][..n] == options[..n];
    } else {
      assert options[..n] == options;
    }
  }

  lemma {:induction false} StringsUpTo(elems: seq<Elem>, options: seq<RelOpt>, base: nat, n: nat)
    requires n <= |options|
    ensures base <= OffsetAfter(elems, options, base, n) <= StructSize(options[..n], base)
  {
    if n > 0 {
      StringsUpTo(elems, options, base, n - 1);
      assert options[..n][..n - 1] == options[..n - 1];
    }
  }

  /** All the room is used exactly when every string option has a table row and a
      string; a NULL leaves its one byte unused. */
  lemma {:induction false} AllRoomUsed(elems: seq<Elem>, options: seq<RelOpt>, base: nat, n: nat)
    requires n <= |options|
    ensures OffsetAfter(elems, options, base, n) == StructSize(options[..n], base) <==>
              forall i | 0 <= i < n && options[i].Text? :: Found(elems, options[i]) && StringVal(options[i]).Some?
  {
    if n > 0 {
      AllRoomUsed(elems, options, base, n - 1);
      StringsUpTo(elems, options, base, n - 1);
      assert options[..n][..n - 1] == options[..n - 1];
      assert options[..n][n - 1] == options[n - 1];
    }
  }

  /** One option's branch of fillRelOptions, at string offset `offset`. */
  function FillOne(order: ByteOrder, elems: seq<Elem>, o: RelOpt, mem: seq<Byte>, offset: nat): (r: seq<Byte>)
    requires Found(elems, o) && ValidOpt(o) && Place(elems, o) + Width(o) <= |mem|
    requires o.Text? && StringVal(o).Some? ==> offset + |StringVal(o).value| + 1 <= |mem|
    ensures |r| == |mem|
  {
    var at := Place(elems, o);
    if o.Plain? then Overlay(mem, at, PlainVal(o))
    else if StringVal(o).None? then Overlay(mem, at, Store(order, 0, 4))
    else Overlay(Overlay(mem, offset, StringVal(o).value + [0]), at, Store(order, offset, 4))
  }

  /** What the struct says about an option whose string, if it has one, went to `offset`. */
  predicate Holds(order: ByteOrder, elems: seq<Elem>, o: RelOpt, mem: seq<Byte>, offset: nat)
    requires Found(elems, o) && ValidOpt(o) && Place(elems, o) + Width(o) <= |mem|
  {
    var at := Place(elems, o);
    if o.Plain? then mem[at..at + Width(o)] == PlainVal(o)
    else if StringVal(o).None? then Load(order, mem[at..at + 4]) == 0
    else
      var s := StringVal(o).value;
      && Load(order, mem[at..at + 4]) == offset
      && offset + |s| + 1 <= |mem| && mem[offset..offset + |s| + 1] == s + [0]
  }

  lemma FillOneHolds(order: ByteOrder, elems: seq<Elem>, o: RelOpt, mem: seq<Byte>, base: nat, offset: nat)
    requires Found(elems, o) && ValidOpt(o) && Place(elems, o) + Width(o) <= base <= offset <= |mem| <= MAX_ALLOC_SIZE
    requires o.Text? && StringVal(o).Some? ==> offset + |StringVal(o).value| + 1 <= |mem|
    ensures Holds(order, elems, o, FillOne(order, elems, o, mem, offset), offset)
  {
    hide Store, Load, Lookup, Place, Overlay;
    assert Pow256(4) == 0x1_0000_0000;
    LoadStoreFits(order, 0, 4);
    LoadStoreFits(order, offset, 4);
    var at := Place(elems, o);
    if o.Plain? {
      SliceWritten(mem, at, PlainVal(o));
    } else if StringVal(o).None? {
      SliceWritten(mem, at, Store(order, 0, 4));
    } else {
      var x := StringVal(o).value + [0];
      SliceWritten(mem, offset, x);
      SliceWritten(Overlay(mem, offset, x), at, Store(order, offset, 4));
      SliceKept(Overlay(mem, offset, x), at, Store(order, offset, 4), offset, |x|);
    }
  }

  lemma SliceWritten(s: seq<Byte>, at: nat, x: seq<Byte>)
    requires at + |x| <= |s|
    ensures Overlay(s, at, x)[at..at + |x|] == x
  {
  }

  lemma SliceKept(s: seq<Byte>, at: nat, x: seq<Byte>, a: nat, n: nat)
    requires at + |x| <= |s| && a + n <= |s| && Apart(a, n, at, |x|)
    ensures Overlay(s, at, x)[a..a + n] == s[a..a + n]
  {
  }

  /** Filling in another option does not disturb what is there. */
  lemma FillOneKeeps(order: ByteOrder, elems: seq<Elem>, o: RelOpt, mem: seq<Byte>, base: nat, offset: nat, p: RelOpt,
                     pOffset: nat)
    requires Found(elems, o) && ValidOpt(o) && Place(elems, o) + Width(o) <= base <= offset <= |mem|
    requires o.Text? && StringVal(o).Some? ==> offset + |StringVal(o).value| + 1 <= |mem|
    requires Found(elems, p) && ValidOpt(p) && Place(elems, p) + Width(p) <= base <= pOffset
    requires Holds(order, elems, p, mem, pOffset)
    requires p.Text? && StringVal(p).Some? ==> pOffset + |StringVal(p).value| + 1 <= offset
    requires Apart(Place(elems, p), Width(p), Place(elems, o), Width(o))
    ensures Holds(order, elems, p, FillOne(order, elems, o, mem, offset), pOffset)
  {
    hide Store, Load, Lookup, Overlay, Place;
    SlicesKept(order, elems, o, mem, offset, Place(elems, p), Width(p));
    if p.Text? && StringVal(p).Some? {
      SlicesKept(order, elems, o, mem, offset, pOffset, |StringVal(p).value| + 1);
    }
  }

  /** A part of the struct that is apart from the member and the string. */
  lemma SlicesKept(order: ByteOrder, elems: seq<Elem>, o: RelOpt, mem: seq<Byte>, offset: nat, a: nat, n: nat)
    requires Found(elems, o) && ValidOpt(o) && Place(elems, o) + Width(o) <= |mem| && a + n <= |mem|
    requires o.Text? && StringVal(o).Some? ==> offset + |StringVal(o).value| + 1 <= |mem| && a + n <= offset
    requires Apart(a, n, Place(elems, o), Width(o))
    ensures FillOne(order, elems, o, mem, offset)[a..a + n] == mem[a..a + n]
  {
    hide Store, Lookup, Overlay, Place;
    var at := Place(elems, o);
    if o.Plain? {
      SliceKept(mem, at, PlainVal(o), a, n);
    } else if StringVal(o).None? {
      SliceKept(mem, at, Store(order, 0, 4), a, n);
    } else {
      var x := StringVal(o).value + [0];
      SliceKept(mem, offset, x, a, n);
      SliceKept(Overlay(mem, offset, x), at, Store(order, offset, 4), a, n);
    }
  }

  /** All options up to `n` are in the struct, each string in its own place. */
  predicate AllHold(order: ByteOrder, elems: seq<Elem>, options: seq<RelOpt>, base: nat, mem: seq<Byte>, n: nat)
    requires TableOk(elems, options, base) && n <= |options| && base <= |mem|
  {
    forall i | 0 <= i < n && Found(elems, options[i]) ::
      Holds(order, elems, options[i], mem, OffsetAfter(elems, options, base, i))
  }

  lemma {:induction false} OffsetsRise(elems: seq<Elem>, options: seq<RelOpt>, base: nat, i: nat, n: nat)
    requires i <= n <= |options|
    ensures base <= OffsetAfter(elems, options, base, i) <= OffsetAfter(elems, options, base, n)
    ensures i < n && Found(elems, options[i]) && options[i].Text? && StringVal(options[i]).Some? ==>
              OffsetAfter(elems, options, base, i) + |StringVal(options[i]).value| + 1
              <= OffsetAfter(elems, options, base, n)
    decreases n
  {
    hide Lookup;
    if i < n {
      OffsetsRise(elems, options, base, i, n - 1);
    } else if n > 0 {
      OffsetsRise(elems, options, base, n - 1, n - 1);
    }
  }

  lemma StepHolds(order: ByteOrder, elems: seq<Elem>, options: seq<RelOpt>, base: nat, mem: seq<Byte>, n: nat)
    requires TableOk(elems, options, base) && n < |options| && Found(elems, options[n])
    requires base <= |mem| <= MAX_ALLOC_SIZE && StructSize(options, base) <= |mem|
    requires AllHold(order, elems, options, base, mem, n)
    ensures ValidOpt(options[n]) && Place(elems, options[n]) + Width(options[n]) <= base
    ensures var offset := OffsetAfter(elems, options, base, n);
            && (options[n].Text? && StringVal(options[n]).Some? ==> offset + |StringVal(options[n]).value| + 1 <= |mem|)
            && AllHold(order, elems, options, base, FillOne(order, elems, options[n], mem, offset), n + 1)
  {
    hide Holds, FillOne, Lookup, StructSize;
    var o, offset := options[n], OffsetAfter(elems, options, base, n);
    StringsFit(elems, options, base, n);
    StringsFit(elems, options, base, n + 1);
    FillOneHolds(order, elems, o, mem, base, offset);
    forall i | 0 <= i < n && Found(elems, options[i])
      ensures Holds(order, elems, options[i], FillOne(order, elems, o, mem, offset),
                    OffsetAfter(elems, options, base, i))
    {
      OffsetsRise(elems, options, base, i, n);
      FillOneKeeps(order, elems, o, mem, base, offset, options[i], OffsetAfter(elems, options, base, i));
    }
  }

  // ---------------------------------------------------------------- the whole struct

  /** A C string in memory, up to its zero byte. */
  function StringAt(mem: seq<Byte>, at: nat): seq<Byte>
    decreases |mem| - at
  {
    if at >= |mem| || mem[at] == 0 then [] else [mem[at]] + StringAt(mem, at + 1)
  }

  lemma {:induction false} StringReadBack(mem: seq<Byte>, at: nat, s: seq<Byte>)
    requires CString(s) && at + |s| + 1 <= |mem| && mem[at..at + |s| + 1] == s + [0]
    ensures StringAt(mem, at) == s
    decreases |s|
  {
    assert mem[at] == (mem[at..at + |s| + 1])[0];
    if s != [] {
      assert mem[at + 1..at + 1 + |s[1..]| + 1] == mem[at..at + |s| + 1][1..];
      assert (s + [0])[1..] == s[1..] + [0];
      StringReadBack(mem, at + 1, s[1..]);
    }
  }

  /** GET_STRING_RELOPTION, for the member at `at`. */
  function GetString(order: ByteOrder, mem: seq<Byte>, at: nat): Option<seq<Byte>>
    requires at + 4 <= |mem|
  {
    var offset := Load(order, mem[at..at + 4]);
    if offset == 0 then None else Some(StringAt(mem, offset))
  }

  /** What a reader of the struct gets: for every string option that the table knows, its
      own string or NULL; for the others, their value. In both cases it is what was set, or
      else the default. */
  lemma HoldsReadsBack(order: ByteOrder, elems: seq<Elem>, o: RelOpt, mem: seq<Byte>, offset: nat)
    requires Found(elems, o) && ValidOpt(o) && Place(elems, o) + Width(o) <= |mem| && offset > 0
    requires Holds(order, elems, o, mem, offset)
    ensures var at := Place(elems, o);
            && (o.Plain? ==> mem[at..at + |o.value|] == if o.isset then o.value else o.dflt)
            && (o.Text? ==> GetString(order, mem, at) == if o.isset then Some(o.value) else o.textDflt)
  {
    hide Load, Lookup, StringAt;
    if o.Text? && StringVal(o).Some? {
      StringReadBack(mem, offset, StringVal(o).value);
    }
  }

  /** Writing the length word leaves the members alone. */
  lemma LengthWordKeeps(order: ByteOrder, elems: seq<Elem>, o: RelOpt, mem: seq<Byte>, offset: nat, word: seq<Byte>)
    requires Found(elems, o) && ValidOpt(o) && Place(elems, o) + Width(o) <= |mem| && |word| == 4
    requires Place(elems, o) >= 4 && offset >= 4
    requires Holds(order, elems, o, mem, offset)
    ensures Holds(order, elems, o, Overlay(mem, 0, word), offset)
  {
    hide Load, Lookup;
    var at, r := Place(elems, o), Overlay(mem, 0, word);
    assert r[at..at + Width(o)] == mem[at..at + Width(o)];
    if o.Text? && StringVal(o).Some? {
      var n := |StringVal(o).value| + 1;
      assert r[offset..offset + n] == mem[offset..offset + n];
    }
  }

  /** fillRelOptions, for a struct that allocateReloptStruct has allocated: all options
      can be read back, the length word says where the strings end, and no write leaves
      the struct. With `validate` an option that the table does not have is an error. */
  method Fill(order: ByteOrder, mem: array<Byte>, base: nat, options: seq<RelOpt>, validate: bool, elems: seq<Elem>)
    returns (ok: bool)
    requires TableOk(elems, options, base) && base >= 4
    requires mem.Length == StructSize(options, base) <= MAX_ALLOC_SIZE && mem[..] == Zeros(mem.Length)
    modifies mem
    ensures ok <==> (validate ==> forall i | 0 <= i < |options| :: Found(elems, options[i]))
    ensures mem.Length >= base
    ensures ok ==>
              forall i | 0 <= i < |options| && Found(elems, options[i]) ::
                var o, at := options[i], Place(elems, options[i]);
                && (o.Plain? ==> mem[at..at + |o.value|] == if o.isset then o.value else o.dflt)
                && (o.Text? ==> GetString(order, mem[..], at) == if o.isset then Some(o.value) else o.textDflt)
    ensures ok ==> Varlena.VarSizeAny(order, mem[..]) == OffsetAfter(elems, options, base, |options|) <= mem.Length
  {
    hide AllHold, TableOk, Lookup, StructSize, GetString;
    StringsFit(elems, options, base, |options|);
    NoneHold(order, elems, options, base, mem[..]);
    var offset := base;
    for i := 0 to |options|
      invariant offset == OffsetAfter(elems, options, base, i)
      invariant AllHold(order, elems, options, base, mem[..], i)
      invariant validate ==> forall k | 0 <= k < i :: Found(elems, options[k])
    {
      var found;
      found, offset := FillNext(order, mem, base, options, i, elems, offset);
      if validate && !found {
        return false;
      }
    }
    Finish(order, mem, base, options, elems, offset);
    ok := true;
  }

  lemma NoneHold(order: ByteOrder, elems: seq<Elem>, options: seq<RelOpt>, base: nat, mem: seq<Byte>)
    requires TableOk(elems, options, base) && base <= |mem|
    ensures AllHold(order, elems, options, base, mem, 0)
  {
  }

  /** One round of the outer loop. */
  method FillNext(order: ByteOrder, mem: array<Byte>, base: nat, options: seq<RelOpt>, i: nat, elems: seq<Elem>,
                  offset: nat)
    returns (found: bool, next: nat)
    requires TableOk(elems, options, base) && i < |options|
    requires base <= mem.Length <= MAX_ALLOC_SIZE && StructSize(options, base) <= mem.Length
    requires offset == OffsetAfter(elems, options, base, i) && AllHold(order, elems, options, base, mem[..], i)
    modifies mem
    ensures found <==> Found(elems, options[i])
    ensures next == OffsetAfter(elems, options, base, i + 1) && AllHold(order, elems, options, base, mem[..], i + 1)
  {
    hide AllHold, TableOk, FillOne, Lookup, StructSize, Place, ValidOpt;
    var j := FindElem(elems, options[i].name);
    found, next := j < |elems|, offset;
    if found {
      StepHolds(order, elems, options, base, mem[..], i);
      next := PutOption(order, elems, options[i], mem, offset);
    } else {
      StepSkips(order, elems, options, base, mem[..], i);
    }
  }

  lemma StepSkips(order: ByteOrder, elems: seq<Elem>, options: seq<RelOpt>, base: nat, mem: seq<Byte>, n: nat)
    requires TableOk(elems, options, base) && n < |options| && !Found(elems, options[n]) && base <= |mem|
    requires AllHold(order, elems, options, base, mem, n)
    ensures AllHold(order, elems, options, base, mem, n + 1)
  {
    hide Holds, Lookup;
  }

  /** SET_VARSIZE, and what readers of the struct see then. */
  method Finish(order: ByteOrder, mem: array<Byte>, base: nat, options: seq<RelOpt>, elems: seq<Elem>, offset: nat)
    requires TableOk(elems, options, base) && 4 <= base <= mem.Length <= MAX_ALLOC_SIZE
    requires offset == OffsetAfter(elems, options, base, |options|) <= mem.Length
    requires AllHold(order, elems, options, base, mem[..], |options|)
    modifies mem
    ensures forall i | 0 <= i < |options| && Found(elems, options[i]) ::
              var o, at := options[i], Place(elems, options[i]);
              && (o.Plain? ==> mem[at..at + |o.value|] == if o.isset then o.value else o.dflt)
              && (o.Text? ==> GetString(order, mem[..], at) == if o.isset then Some(o.value) else o.textDflt)
    ensures Varlena.VarSizeAny(order, mem[..]) == offset
  {
    hide Holds, Lookup, Apart, GetString;
    ghost var before := mem[..];
    var word := Varlena.SetVarSize4B(order, offset);
    Varlena.Header4BRoundTrip(order, offset, mem[4..]);
    CopyBytes(mem, 0, word);
    assert mem[..] == word + before[4..];
    forall i | 0 <= i < |options| && Found(elems, options[i])
      ensures var o, at := options[i], Place(elems, options[i]);
              && (o.Plain? ==> mem[at..at + |o.value|] == if o.isset then o.value else o.dflt)
              && (o.Text? ==> GetString(order, mem[..], at) == if o.isset then Some(o.value) else o.textDflt)
    {
      var at := OffsetAfter(elems, options, base, i);
      OffsetsRise(elems, options, base, i, |options|);
      LengthWordKeeps(order, elems, options[i], before, at, word);
      HoldsReadsBack(order, elems, options[i], mem[..], at);
    }
  }

  method FindElem(elems: seq<Elem>, name: string) returns (j: nat)
    ensures j == Lookup(elems, name)
  {
    j := 0;
    while j < |elems| && !SameName(name, elems[j].name)
      invariant j <= |elems| && Lookup(elems, name) == j + Lookup(elems[j..], name)
    {
      assert elems[j..][1..] == elems[j + 1..];
      j := j + 1;
    }
  }

  method PutOption(order: ByteOrder, elems: seq<Elem>, o: RelOpt, mem: array<Byte>, offset: nat) returns (next: nat)
    requires Found(elems, o) && ValidOpt(o) && Place(elems, o) + Width(o) <= mem.Length
    requires o.Text? && StringVal(o).Some? ==> offset + |StringVal(o).value| + 1 <= mem.Length
    modifies mem
    ensures mem[..] == FillOne(order, elems, o, old(mem[..]), offset)
    ensures next == offset + if o.Text? && StringVal(o).Some? then |StringVal(o).value| + 1 else 0
  {
    hide Overlay, Lookup, Store;
    var at := Place(elems, o);
    next := offset;
    if o.Plain? {
      CopyBytes(mem, at, if o.isset then o.value else o.dflt);
    } else {
      var s := if o.isset then Some(o.value) else o.textDflt;
      if s == None {
        CopyBytes(mem, at, Store(order, 0, 4));
      } else {
        CopyBytes(mem, offset, s.value + [0]);
        CopyBytes(mem, at, Store(order, offset, 4));
        next := offset + |s.value| + 1;
      }
    }
  }
}
