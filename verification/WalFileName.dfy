/** WAL segment file names (xlog_internal.h): timeline, log file and segment as three
    eight-digit hexadecimal numbers. The conversions are those of section 7.19.6 of
    ISO C99, for the characters that occur in such names. */
module WalFileName {
  import opened Wrappers
  import opened Bits
  import opened WalAddress

  // ---------------------------------------------------------------- hexadecimal digits

  function HexDigit(d: nat): (c: char)
    requires d < 16
    ensures HexValue(c) == Some(d) && UpperHex(c)
  {
    if d < 10 then '0' + d as char else 'A' + (d - 10) as char
  }

  /** A digit that %X reads; it takes either case. */
  function HexValue(c: char): (d: Option<nat>)
    ensures d.Some? ==> d.value < 16
  {
    if '0' <= c <= '9' then Some((c - '0') as nat)
    else if 'A' <= c <= 'F' then Some((c - 'A') as nat + 10)
    else if 'a' <= c <= 'f' then Some((c - 'a') as nat + 10)
    else None
  }

  predicate UpperHex(c: char) {
    '0' <= c <= '9' || 'A' <= c <= 'F'
  }

  predicate IsHex(s: string) {
    forall c | c in s :: HexValue(c).Some?
  }

  predicate IsUpperHex(s: string) {
    forall c | c in s :: UpperHex(c)
  }

  function Pow16(n: nat): (r: nat)
    ensures r > 0
  {
    if n == 0 then 1 else 16 * Pow16(n - 1)
  }

  /** The number that a string of digits denotes. */
  function Value(s: string): nat
    requires IsHex(s)
  {
    if s == "" then 0 else 16 * Value(s[..|s| - 1]) + HexValue(s[|s| - 1]).value
  }

  // ---------------------------------------------------------------- printing and scanning

  function Digits(v: nat): string {
    if v < 16 then [HexDigit(v)] else Digits(v / 16) + [HexDigit(v % 16)]
  }

  /** "%08X": at least eight digits, padded with zeros. */
  function Format08(v: nat): string {
    var d := Digits(v);
    if |d| < 8 then seq(8 - |d|, _ => '0') + d else d
  }

  /** How many digits "%8X" takes. */
  function DigitRun(s: string, width: nat): (n: nat)
    ensures n <= |s| && n <= width && IsHex(s[..n])
  {
    if width == 0 || s == "" || HexValue(s[0]).None? then 0
    else
      var k := DigitRun(s[1..], width - 1);
      assert s[..k + 1] == [s[0]] + s[1..][..k];
      k + 1
  }

  /** One "%08X" of a scan: the value and what is left of the string. */
  function Scan08(s: string): Option<(nat, string)> {
    var n := DigitRun(s, 8);
    if n == 0 then None else Some((Value(s[..n]), s[n..]))
  }

  /** XLogFileName. */
  function FileName(tli: uint32, log: uint32, seg: uint32): string {
    Format08(tli) + Format08(log) + Format08(seg)
  }

  /** XLogFromFileName, with None when a conversion fails. */
  function FromFileName(s: string): Option<(nat, nat, nat)> {
    match Scan08(s)
    case None => None
    case Some((tli, s')) =>
      match Scan08(s')
      case None => None
      case Some((log, s'')) =>
        match Scan08(s'')
        case None => None
        case Some((seg, _)) => Some((tli, log, seg))
  }

  // ---------------------------------------------------------------- eight digits

  lemma {:induction false} DigitsValue(v: nat, n: nat)
    requires n > 0 && v < Pow16(n)
    ensures |Digits(v)| <= n && IsUpperHex(Digits(v)) && IsHex(Digits(v)) && Value(Digits(v)) == v
    decreases v
  {
    if v >= 16 {
      DigitsValue(v / 16, n - 1);
      assert Digits(v)[..|Digits(v)| - 1] == Digits(v / 16);
    }
  }

  lemma {:induction false} LeadingZero(s: string)
    requires IsHex(s)
    ensures IsHex("0" + s) && Value("0" + s) == Value(s)
    decreases |s|
  {
    var t := "0" + s;
    if s != "" {
      assert t[..|t| - 1] == "0" + s[..|s| - 1];
      LeadingZero(s[..|s| - 1]);
    }
  }

  lemma {:induction false} LeadingZeros(k: nat, s: string)
    requires IsHex(s)
    ensures var t := seq(k, _ => '0') + s; IsHex(t) && Value(t) == Value(s)
  {
    if k == 0 {
      assert seq(k, _ => '0') + s == s;
    } else {
      LeadingZeros(k - 1, s);
      LeadingZero(seq(k - 1, _ => '0') + s);
      assert seq(k, _ => '0') + s == "0" + (seq(k - 1, _ => '0') + s);
    }
  }

  /** A 32-bit number prints as exactly eight digits that denote it. */
  lemma FormatFits(v: uint32)
    ensures var s := Format08(v);
            |s| == 8 && IsUpperHex(s) && IsHex(s) && Value(s) == v
  {
    assert Pow16(4) == 0x1_0000 && Pow16(8) == 0x1_0000_0000;
    DigitsValue(v, 8);
    LeadingZeros(8 - |Digits(v)|, Digits(v));
  }

  lemma {:induction false} DigitRunAll(s: string, rest: string)
    requires IsHex(s)
    ensures DigitRun(s + rest, |s|) == |s|
    decreases |s|
  {
    if s != "" {
      assert (s + rest)[1..] == s[1..] + rest;
      DigitRunAll(s[1..], rest);
    }
  }

  lemma ScanFormat(v: uint32, rest: string)
    ensures Scan08(Format08(v) + rest) == Some((v, rest))
  {
    FormatFits(v);
    DigitRunAll(Format08(v), rest);
    assert (Format08(v) + rest)[..8] == Format08(v) && (Format08(v) + rest)[8..] == rest;
  }

  /** A scan fails exactly where there is no digit. */
  lemma ScanFails(s: string)
    ensures Scan08(s) == None <==>
            s == "" || !('0' <= s[0] <= '9' || 'A' <= s[0] <= 'F' || 'a' <= s[0] <= 'f')
  {
  }

  /** Scanning a file name gives back the three numbers it was made of. */
  lemma FileNameRoundTrip(tli: uint32, log: uint32, seg: uint32)
    ensures FromFileName(FileName(tli, log, seg)) == Some((tli, log, seg))
  {
    hide Scan08, Format08;
    assert FileName(tli, log, seg) == Format08(tli) + (Format08(log) + (Format08(seg) + ""));
    ScanFormat(tli, Format08(log) + (Format08(seg) + ""));
    ScanFormat(log, Format08(seg) + "");
    ScanFormat(seg, "");
  }

  lemma {:induction false} DigitOfValue(s: string, j: nat)
    requires IsHex(s) && j < |s|
    ensures HexValue(s[j]).value == (Value(s) / Pow16(|s| - 1 - j)) % 16
    decreases |s|
  {
    hide HexValue;
    var p := s[..|s| - 1];
    assert HexValue(s[|s| - 1]).value < 16;
    if j < |s| - 1 {
      assert Value(s) / 16 == Value(p);
      DigitOfValue(p, j);
      QuotientStep16(Value(s), Pow16(|s| - 2 - j));
    }
  }

  lemma QuotientStep16(v: nat, m: nat)
    requires m > 0
    ensures v / (16 * m) == (v / 16) / m
  {
    var q := (v / 16) / m;
    assert v / 16 == q * m + (v / 16) % m;
    assert v == q * (16 * m) + (v % 16 + 16 * ((v / 16) % m));
    QuotientUnique(v, 16 * m, q, v % 16 + 16 * ((v / 16) % m));
  }

  /** The name, character by character: eight hexadecimal digits for each number, the most
      significant one first, with capital letters. */
  lemma FileNameDigits(tli: uint32, log: uint32, seg: uint32, k: nat)
    requires k < 24
    ensures |FileName(tli, log, seg)| == 24
    ensures var v: nat := if k < 8 then tli else if k < 16 then log else seg;
            var d := (v / Pow16(7 - k % 8)) % 16;
            FileName(tli, log, seg)[k] == if d < 10 then '0' + d as char else 'A' + (d - 10) as char
  {
    hide Format08, Pow16;
    var v: uint32 := if k < 8 then tli else if k < 16 then log else seg;
    FormatFits(tli); FormatFits(log); FormatFits(seg);
    FormatDigit(v, k % 8);
    InThirds(Format08(tli), Format08(log), Format08(seg), k);
  }

  lemma InThirds(a: string, b: string, c: string, k: nat)
    requires |a| == |b| == |c| == 8 && k < 24
    ensures (a + b + c)[k] == if k < 8 then a[k % 8] else if k < 16 then b[k % 8] else c[k % 8]
  {
    if k >= 8 {
      assert k % 8 == if k < 16 then k - 8 else k - 16;
    }
  }

  lemma FormatDigit(v: uint32, j: nat)
    requires j < 8
    ensures |Format08(v)| == 8
    ensures var d := (v / Pow16(7 - j)) % 16;
            Format08(v)[j] == if d < 10 then '0' + d as char else 'A' + (d - 10) as char
  {
    hide Format08, Pow16;
    FormatFits(v);
    DigitOfValue(Format08(v), j);
    assert Format08(v)[j] in Format08(v);
  }

  // ---------------------------------------------------------------- order

  /** strcmp(s, t) < 0. */
  predicate Before(s: string, t: string) {
    t != "" && (s == "" || s[0] < t[0] || (s[0] == t[0] && Before(s[1..], t[1..])))
  }

  lemma {:induction false} ValueFromFront(s: string)
    requires IsHex(s) && s != ""
    ensures Value(s) == HexValue(s[0]).value * Pow16(|s| - 1) + Value(s[1..])
    decreases |s|
  {
    if |s| > 1 {
      var p := s[..|s| - 1];
      ValueFromFront(p);
      assert s[1..][..|s| - 2] == p[1..];
      MulShift(HexValue(s[0]).value, Pow16(|s| - 2));
    }
  }

  lemma MulShift(d: nat, p: nat)
    ensures 16 * (d * p) == d * (16 * p)
  {
  }

  lemma {:induction false} ValueBound(s: string)
    requires IsHex(s)
    ensures Value(s) < Pow16(|s|)
    decreases |s|
  {
    if s != "" { ValueBound(s[..|s| - 1]); }
  }

  lemma DigitDominates(a: nat, b: nat, p: nat, x: nat, y: nat)
    requires a < b && x < p
    ensures a * p + x < b * p + y
  {
    MulAtLeast(b - a, p);
    assert b * p == a * p + (b - a) * p;
  }

  /** The first digit decides, and then the rest. */
  lemma DigitOrder(a: nat, b: nat, p: nat, x: nat, y: nat)
    requires x < p && y < p
    ensures a * p + x < b * p + y <==> a < b || (a == b && x < y)
    ensures a * p + x == b * p + y <==> a == b && x == y
  {
    if a < b {
      DigitDominates(a, b, p, x, y);
    } else if b < a {
      DigitDominates(b, a, p, y, x);
    }
  }

  lemma UpperDigits(c: char, d: char)
    requires UpperHex(c) && UpperHex(d)
    ensures HexValue(c).Some? && HexValue(d).Some?
    ensures HexValue(c).value < HexValue(d).value <==> c < d
    ensures HexValue(c).value == HexValue(d).value <==> c == d
  {
  }

  lemma UpperIsHex(s: string)
    requires IsUpperHex(s)
    ensures IsHex(s)
  {
  }

  /** Names of one length sort as the numbers do. */
  lemma {:induction false} OrderIsNumeric(s: string, t: string)
    requires IsUpperHex(s) && IsUpperHex(t) && |s| == |t|
    ensures IsHex(s) && IsHex(t)
    ensures Before(s, t) <==> Value(s) < Value(t)
    ensures s == t <==> Value(s) == Value(t)
    decreases |s|
  {
    hide HexValue, UpperHex;
    UpperIsHex(s);
    UpperIsHex(t);
    if s != "" {
      OrderIsNumeric(s[1..], t[1..]);
      ValueFromFront(s);
      ValueFromFront(t);
      ValueBound(s[1..]);
      ValueBound(t[1..]);
      UpperDigits(s[0], t[0]);
      DigitOrder(HexValue(s[0]).value, HexValue(t[0]).value, Pow16(|s| - 1), Value(s[1..]), Value(t[1..]));
      assert s == [s[0]] + s[1..] && t == [t[0]] + t[1..];
    }
  }

  lemma {:induction false} BeforeConcat(a: string, b: string, s: string, t: string)
    requires |a| == |b|
    ensures Before(a + s, b + t) <==> Before(a, b) || (a == b && Before(s, t))
    decreases |a|
  {
    if a == "" {
      assert a + s == s && b + t == t;
    } else {
      assert (a + s)[1..] == a[1..] + s && (b + t)[1..] == b[1..] + t;
      BeforeConcat(a[1..], b[1..], s, t);
      assert a == [a[0]] + a[1..] && b == [b[0]] + b[1..];
    }
  }

  /** File names sort by timeline, then log file, then segment. */
  lemma FileNameOrder(tli: uint32, log: uint32, seg: uint32, tli': uint32, log': uint32, seg': uint32)
    ensures Before(FileName(tli, log, seg), FileName(tli', log', seg')) <==>
              tli < tli' || (tli == tli' && (log < log' || (log == log' && seg < seg')))
  {
    hide Format08, Before;
    FormatOrder(tli, tli');
    FormatOrder(log, log');
    FormatOrder(seg, seg');
    assert FileName(tli, log, seg) == Format08(tli) + (Format08(log) + Format08(seg));
    assert FileName(tli', log', seg') == Format08(tli') + (Format08(log') + Format08(seg'));
    BeforeConcat(Format08(tli), Format08(tli'), Format08(log) + Format08(seg), Format08(log') + Format08(seg'));
    BeforeConcat(Format08(log), Format08(log'), Format08(seg), Format08(seg'));
  }

  lemma FormatOrder(v: uint32, w: uint32)
    ensures |Format08(v)| == |Format08(w)| == 8
    ensures Before(Format08(v), Format08(w)) <==> v < w
    ensures Format08(v) == Format08(w) <==> v == w
  {
    hide Format08;
    FormatFits(v);
    FormatFits(w);
    OrderIsNumeric(Format08(v), Format08(w));
  }

  // ---------------------------------------------------------------- old segments

  /** The directory entries that RemoveOldXlogFiles takes for segments. */
  predicate IsSegmentName(s: string) {
    |s| == 24 && IsUpperHex(s)
  }

  /** Every such name is the name of one segment, the one that scanning yields. */
  lemma SegmentNamesScan(s: string)
    requires IsSegmentName(s)
    ensures var r := FromFileName(s);
            && r.Some? && r.value.0 < 0x1_0000_0000 && r.value.1 < 0x1_0000_0000 && r.value.2 < 0x1_0000_0000
            && FileName(r.value.0, r.value.1, r.value.2) == s
  {
    hide Scan08, Format08;
    var a, b, c := s[..8], s[8..16], s[16..];
    EightDigits(a); EightDigits(b); EightDigits(c);
    FileNameRoundTrip(Value(a), Value(b), Value(c));
    assert s == a + b + c;
  }

  lemma EightDigits(s: string)
    requires |s| == 8 && IsUpperHex(s)
    ensures IsHex(s) && Value(s) < 0x1_0000_0000 && Format08(Value(s)) == s
  {
    hide Format08;
    OrderIsNumeric(s, s);
    ValueBound(s);
    assert Pow16(4) == 0x1_0000 && Pow16(8) == 0x1_0000_0000;
    FormatFits(Value(s));
    OrderIsNumeric(s, Format08(Value(s)));
  }

  /** The test for a removable segment leaves out the timeline: it holds for exactly the
      segments that are not after the given one in the log, whatever their timeline. */
  lemma OldSegmentTest(tli: uint32, log: uint32, seg: uint32, tli': uint32, log': uint32, seg': uint32)
    requires seg < XLOG_SEGS_PER_FILE && seg' < XLOG_SEGS_PER_FILE
    ensures IsSegmentName(FileName(tli, log, seg))
    ensures !Before(FileName(tli', log', seg')[8..], FileName(tli, log, seg)[8..]) <==>
              SegLinear(LogSeg(log, seg)) <= SegLinear(LogSeg(log', seg'))
  {
    hide Format08, Before;
    FormatFits(tli); FormatFits(log); FormatFits(seg); FormatFits(tli'); FormatFits(log'); FormatFits(seg');
    FormatOrder(log', log);
    FormatOrder(seg', seg);
    assert FileName(tli, log, seg)[8..] == Format08(log) + Format08(seg);
    assert FileName(tli', log', seg')[8..] == Format08(log') + Format08(seg');
    BeforeConcat(Format08(log'), Format08(log), Format08(seg'), Format08(seg));
  }
}
