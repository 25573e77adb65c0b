/** The st_changecount protocol of the backend status array (pgstat.h, pgstat.c). One
    backend writes its entry without a lock; others copy it cell by cell and keep the
    copy only when the counter tells that nothing was modified meanwhile. Memory
    operations are atomic cells in one total order. */
module BackendStatus {
  import opened Bits
  import opened Wrappers

  const NAMEDATALEN := 64
  const PROCPID := 0
  const PROC_START_TIMESTAMP := 1
  const XACT_START_TIMESTAMP := 2
  const ACTIVITY_START_TIMESTAMP := 3
  const DATABASEID := 4
  const USERID := 5
  const CLIENTADDR := 6
  const WAITING := 7
  const APPNAME := 8
  const CLIENTHOSTNAME := 72
  const ACTIVITY := 136

  predicate InHostName(k: nat) {
    CLIENTHOSTNAME <= k < ACTIVITY
  }

  /** The cells that are written outside the protocol: st_waiting, and the host name
      that is filled in after pgstat_bestart has closed its modification. */
  predicate Unguarded(k: nat) {
    k == WAITING || InHostName(k)
  }

  /** A reader that has accepted its copy is `Done`, with the numbers of increments at
      the first and the last look at the counter. The copy has no host name, only the
      pointer to it: that string is read later, from the entry itself, into `host`. */
  datatype Reader =
    | Idle
    | Copying(save: uint32, start: nat, since: nat, copy: map<nat, int>)
    | Done(start: nat, end: nat, since: nat, copy: map<nat, int>, host: map<nat, int>)

  /** The entry at one instant. */
  datatype Snapshot = Snapshot(cells: seq<int>, count: nat)

  /** `count` is the number of increments so far, of which the counter holds the low 32
      bits. `past` lists the entry after every step, the present one last. */
  datatype State = State(cells: seq<int>, count: nat, readers: seq<Reader>, past: seq<Snapshot>)

  datatype Step =
    | Bump
    | Write(cell: nat, value: int)
    | Start(reader: nat)
    | Copy(reader: nat, cell: nat)
    | Finish(reader: nat)
    | FetchHost(reader: nat, cell: nat)

  function Counter(count: nat): uint32 {
    count % 0x1_0000_0000
  }

  function Present(s: State): Snapshot {
    Snapshot(s.cells, s.count)
  }

  /** One atomic step; None when the code does not take it here. A writer modifies
      guarded cells between its two increments only. */
  function Apply(s: State, step: Step): Option<State> {
    match step
    case Bump =>
      var t := s.(count := s.count + 1);
      Some(t.(past := t.past + [Present(t)]))
    case Write(k, v) =>
      if k < |s.cells| && (Unguarded(k) || s.count % 2 == 1) then
        var t := s.(cells := s.cells[k := v]);
        Some(t.(past := t.past + [Present(t)]))
      else None
    case Start(r) =>
      if r < |s.readers| && s.past != [] then
        Some(s.(readers := s.readers[r := Copying(Counter(s.count), s.count, |s.past| - 1, map[])]))
      else None
    case Copy(r, k) =>
      if r < |s.readers| && s.readers[r].Copying? && k < |s.cells| && !InHostName(k) then
        var reader := s.readers[r];
        var next := Copying(reader.save, reader.start, reader.since, reader.copy[k := s.cells[k]]);
        Some(s.(readers := s.readers[r := next]))
      else None
    case Finish(r) =>
      if r < |s.readers| && s.readers[r].Copying? then
        var reader := s.readers[r];
        var accept := reader.save == Counter(s.count) && reader.save % 2 == 0;
        var next := if accept then Done(reader.start, s.count, reader.since, reader.copy, map[]) else Idle;
        Some(s.(readers := s.readers[r := next]))
      else None
    case FetchHost(r, k) =>
      if r < |s.readers| && s.readers[r].Done? && k < |s.cells| && InHostName(k) then
        var reader := s.readers[r];
        Some(s.(readers := s.readers[r := reader.(host := reader.host[k := s.cells[k]])]))
      else None
  }

  function Initial(cells: seq<int>, readers: nat): State {
    State(cells, 0, seq(readers, _ => Idle), [Snapshot(cells, 0)])
  }

  function Run(s: State, steps: seq<Step>): Option<State>
    decreases |steps|
  {
    if steps == [] then Some(s)
    else
      match Apply(s, steps[0])
      case None => None
      case Some(t) => Run(t, steps[1..])
  }

  /** The counter's parity is the parity of the number of increments. */
  lemma CounterParity(count: nat)
    ensures Counter(count) % 2 == count % 2
  {
    var q, c := count / 0x1_0000_0000, Counter(count);
    QuotientUnique(count, 2, 0x8000_0000 * q + c / 2, c % 2);
  }

  /** What the comparison decides: the increments during the read are a multiple of
      2^32, which below 2^32 means none. */
  lemma CounterEqual(start: nat, count: nat)
    requires start <= count
    ensures Counter(start) == Counter(count) <==> (count - start) % 0x1_0000_0000 == 0
    ensures count - start < 0x1_0000_0000 ==> (Counter(start) == Counter(count) <==> start == count)
  {
    var q, d := start / 0x1_0000_0000, count - start;
    if d % 0x1_0000_0000 == 0 {
      QuotientUnique(count, 0x1_0000_0000, q + d / 0x1_0000_0000, Counter(start));
    }
    if Counter(start) == Counter(count) {
      QuotientUnique(d, 0x1_0000_0000, count / 0x1_0000_0000 - q, 0);
    }
  }

  // ---------------------------------------------------------------- the invariant

  predicate WasThere(s: State, since: nat, k: nat, v: int) {
    exists j :: since <= j < |s.past| && k < |s.past[j].cells| && s.past[j].cells[k] == v
  }

  predicate SameGuarded(a: seq<int>, b: seq<int>) {
    |a| == |b| && forall k: nat | k < |a| && !Unguarded(k) :: a[k] == b[k]
  }

  /** Since instant `since` the guarded cells have been what they are now. */
  ghost predicate Quiet(s: State, since: nat) {
    forall j | since <= j < |s.past| :: SameGuarded(s.past[j].cells, s.cells)
  }

  predicate CopyCurrent(s: State, copy: map<nat, int>) {
    forall k | k in copy && !Unguarded(k) :: k < |s.cells| && copy[k] == s.cells[k]
  }

  /** All that was copied is the entry as it was at instant `j`. */
  predicate CopiedAt(s: State, copy: map<nat, int>, j: nat)
    requires j < |s.past|
  {
    forall k | k in copy :: k < |s.past[j].cells| && s.past[j].cells[k] == copy[k]
  }

  /** What was copied is a complete state of the entry: what it was at one instant since
      `since` at which `start` increments, an even number, had been made, so that no
      modification was under way. */
  ghost predicate Complete(s: State, since: nat, start: nat, copy: map<nat, int>) {
    start % 2 == 0 && exists j :: since <= j < |s.past| && s.past[j].count == start && CopiedAt(s, copy, j)
  }

  /** The counter did not go all the way round during the read. */
  predicate NoWrap(r: Reader)
    requires r.Done?
  {
    r.end < r.start + 0x1_0000_0000
  }

  /** Everything that a reader has copied so far was in the entry at some instant since
      it started; and guarded cells are as they were at each of these instants, unless
      the counter has moved or was odd. */
  ghost predicate CopyingOk(s: State, r: Reader)
    requires r.Copying?
  {
    && r.save == Counter(r.start) && r.start <= s.count
    && r.since < |s.past| && s.past[r.since].count == r.start
    && (forall k | k in r.copy :: k < |s.cells| && !InHostName(k) && WasThere(s, r.since, k, r.copy[k]))
    && (r.start == s.count && s.count % 2 == 0 ==> Quiet(s, r.since) && CopyCurrent(s, r.copy))
  }

  /** An accepted copy stays what it was; the host name may be from any later instant. */
  ghost predicate DoneOk(s: State, r: Reader)
    requires r.Done?
  {
    && (NoWrap(r) ==> Complete(s, r.since, r.start, r.copy))
    && (forall k | k in r.copy :: !InHostName(k))
    && (forall k | k in r.host :: InHostName(k) && WasThere(s, r.since, k, r.host[k]))
  }

  ghost predicate ReaderOk(s: State, r: Reader) {
    (r.Copying? ==> CopyingOk(s, r)) && (r.Done? ==> DoneOk(s, r) && r.since < |s.past|)
  }

  ghost predicate Inv(s: State) {
    && s.past != [] && s.past[|s.past| - 1] == Present(s)
    && (forall i, j | 0 <= i <= j < |s.past| :: s.past[i].count <= s.past[j].count)
    && forall r | 0 <= r < |s.readers| :: ReaderOk(s, s.readers[r])
  }

  lemma WasThereStays(s: State, t: State, since: nat, k: nat, v: int)
    requires s.past <= t.past && WasThere(s, since, k, v)
    ensures WasThere(t, since, k, v)
  {
    var j :| since <= j < |s.past| && k < |s.past[j].cells| && s.past[j].cells[k] == v;
    assert t.past[j] == s.past[j];
  }

  lemma CompleteStays(s: State, t: State, since: nat, start: nat, copy: map<nat, int>)
    requires s.past <= t.past && Complete(s, since, start, copy)
    ensures Complete(t, since, start, copy)
  {
    var j :| since <= j < |s.past| && s.past[j].count == start && CopiedAt(s, copy, j);
    assert t.past[j] == s.past[j] && CopiedAt(t, copy, j);
  }

  lemma DoneStays(s: State, t: State, r: Reader)
    requires s.past <= t.past && r.Done? && DoneOk(s, r)
    ensures DoneOk(t, r)
  {
    hide Complete, WasThere;
    if NoWrap(r) { CompleteStays(s, t, r.since, r.start, r.copy); }
    forall k | k in r.host ensures WasThere(t, r.since, k, r.host[k]) {
      WasThereStays(s, t, r.since, k, r.host[k]);
    }
  }

  lemma WriterStepKeeps(s: State, t: State, r: Reader)
    requires Inv(s) && r.Copying? && CopyingOk(s, r)
    requires t.past == s.past + [Present(t)] && |t.cells| == |s.cells|
    requires t.count == s.count + 1 || (t.count == s.count && (s.count % 2 == 1 || SameGuarded(s.cells, t.cells)))
    ensures CopyingOk(t, r)
  {
    hide WasThere;
    forall k | k in r.copy ensures WasThere(t, r.since, k, r.copy[k]) {
      WasThereStays(s, t, r.since, k, r.copy[k]);
    }
    if r.start == t.count && t.count % 2 == 0 {
      forall j | r.since <= j < |t.past| ensures SameGuarded(t.past[j].cells, t.cells) {
        if j < |s.past| {
          assert SameGuarded(s.past[j].cells, s.cells);
        }
      }
    }
  }

  lemma ApplyKeeps(s: State, step: Step)
    requires Inv(s) && Apply(s, step).Some?
    ensures var t := Apply(s, step).value;
            Inv(t) && |t.cells| == |s.cells| && s.past <= t.past && |t.readers| == |s.readers|
  {
    hide CopyingOk, DoneOk;
    var t := Apply(s, step).value;
    forall r | 0 <= r < |t.readers| ensures ReaderOk(t, t.readers[r]) {
      assert ReaderOk(s, s.readers[r]);
      if step.Bump? || step.Write? {
        if s.readers[r].Copying? { WriterStepKeeps(s, t, s.readers[r]); }
        if s.readers[r].Done? { DoneStays(s, t, s.readers[r]); }
      } else if step.reader == r {
        ReaderStepKeeps(s, t, step);
      } else {
        assert t.readers[r] == s.readers[r];
        if s.readers[r].Copying? { OtherReaderKeeps(s, t, s.readers[r]); }
        if s.readers[r].Done? { DoneStays(s, t, s.readers[r]); }
      }
    }
  }

  lemma OtherReaderKeeps(s: State, t: State, r: Reader)
    requires r.Copying? && CopyingOk(s, r) && t.past == s.past && t.cells == s.cells && t.count == s.count
    ensures CopyingOk(t, r)
  {
    hide WasThere;
    forall k | k in r.copy ensures WasThere(t, r.since, k, r.copy[k]) {
      WasThereStays(s, t, r.since, k, r.copy[k]);
    }
    if r.start == t.count && t.count % 2 == 0 {
      forall j | r.since <= j < |t.past| ensures SameGuarded(t.past[j].cells, t.cells) {
        assert SameGuarded(s.past[j].cells, s.cells);
      }
    }
  }

  /** What a reader's own step does to it. */
  lemma ReaderStepKeeps(s: State, t: State, step: Step)
    requires Inv(s) && Apply(s, step) == Some(t)
    requires step.Start? || step.Copy? || step.Finish? || step.FetchHost?
    ensures ReaderOk(t, t.readers[step.reader])
  {
    var before, last := s.readers[step.reader], |s.past| - 1;
    assert ReaderOk(s, before);
    match step
    case Start(r) =>
      assert SameGuarded(s.past[last].cells, s.cells);
    case Copy(r, k) =>
      OtherReaderKeeps(s, t, before);
      assert s.past[last].cells[k] == s.cells[k];
      assert WasThere(t, before.since, k, s.cells[k]);
    case Finish(r) =>
      if t.readers[r].Done? && NoWrap(t.readers[r]) {
        CounterEqual(before.start, s.count);
        CounterParity(s.count);
        OneInstant(s, before);
        CompleteStays(s, t, before.since, before.start, before.copy);
      }
    case FetchHost(r, k) =>
      DoneStays(s, t, before);
      assert s.past[last].cells[k] == s.cells[k];
      assert WasThere(t, before.since, k, s.cells[k]);
  }

  /** Of what a reader copies only st_waiting is written outside the protocol; so the
      instant at which that one cell was read will do for all. */
  lemma OneInstant(s: State, r: Reader)
    requires Inv(s) && r.Copying? && CopyingOk(s, r) && r.start == s.count && s.count % 2 == 0
    ensures Complete(s, r.since, r.start, r.copy)
  {
    var last := |s.past| - 1;
    if WAITING in r.copy {
      assert WasThere(s, r.since, WAITING, r.copy[WAITING]);
      var j :| r.since <= j < |s.past| && WAITING < |s.past[j].cells| && s.past[j].cells[WAITING] == r.copy[WAITING];
      assert SameGuarded(s.past[j].cells, s.cells);
      assert s.past[r.since].count <= s.past[j].count <= s.past[last].count;
      assert CopiedAt(s, r.copy, j);
    } else {
      assert CopiedAt(s, r.copy, last);
    }
  }

  lemma {:induction false} RunKeeps(s: State, steps: seq<Step>)
    requires Inv(s) && Run(s, steps).Some?
    ensures Inv(Run(s, steps).value)
    decreases |steps|
  {
    hide Inv, Apply;
    if steps != [] {
      ApplyKeeps(s, steps[0]);
      RunKeeps(Apply(s, steps[0]).value, steps[1..]);
    }
  }

  lemma InitialInv(cells: seq<int>, readers: nat)
    ensures Inv(Initial(cells, readers))
  {
  }

  // ---------------------------------------------------------------- what a reader gets

  /** In every run, whatever the writer and the other readers do meanwhile and later: a
      copy that passed the check is one complete state of the entry, from the time of
      the read and from between two modifications, never a mixture of two states. */
  lemma AcceptedCopyIsComplete(cells: seq<int>, readers: nat, steps: seq<Step>, r: nat)
    requires Run(Initial(cells, readers), steps).Some?
    requires var s := Run(Initial(cells, readers), steps).value;
             r < |s.readers| && s.readers[r].Done? && s.readers[r].end < s.readers[r].start + 0x1_0000_0000
    ensures var s := Run(Initial(cells, readers), steps).value;
            Complete(s, s.readers[r].since, s.readers[r].start, s.readers[r].copy)
  {
    hide Run, Initial, Complete;
    InitialInv(cells, readers);
    RunKeeps(Initial(cells, readers), steps);
    var s := Run(Initial(cells, readers), steps).value;
    assert ReaderOk(s, s.readers[r]);
  }

  predicate SameHost(a: seq<int>, b: seq<int>) {
    |a| == |b| && forall k: nat | k < |a| && InHostName(k) :: a[k] == b[k]
  }

  /** No host name has been written since instant `since`. */
  ghost predicate HostQuiet(s: State, since: nat) {
    forall j | since <= j < |s.past| :: SameHost(s.past[j].cells, s.cells)
  }

  /** The host name is read without any check. It belongs to the copy as long as no host
      name has been written since the read began. */
  lemma HostNameBelongs(cells: seq<int>, readers: nat, steps: seq<Step>, r: nat)
    requires Run(Initial(cells, readers), steps).Some?
    requires var s := Run(Initial(cells, readers), steps).value;
             && r < |s.readers| && s.readers[r].Done? && s.readers[r].end < s.readers[r].start + 0x1_0000_0000
             && HostQuiet(s, s.readers[r].since)
    ensures var s := Run(Initial(cells, readers), steps).value;
            Complete(s, s.readers[r].since, s.readers[r].start, s.readers[r].copy + s.readers[r].host)
  {
    hide Run, Initial;
    InitialInv(cells, readers);
    RunKeeps(Initial(cells, readers), steps);
    var s := Run(Initial(cells, readers), steps).value;
    var reader := s.readers[r];
    assert ReaderOk(s, reader);
    var j :| reader.since <= j < |s.past| && s.past[j].count == reader.start && CopiedAt(s, reader.copy, j);
    assert SameHost(s.past[j].cells, s.cells);
    forall k | k in reader.host ensures k < |s.past[j].cells| && s.past[j].cells[k] == reader.host[k] {
      assert WasThere(s, reader.since, k, reader.host[k]);
      var i :| reader.since <= i < |s.past| && k < |s.past[i].cells| && s.past[i].cells[k] == reader.host[k];
      assert SameHost(s.past[i].cells, s.cells);
    }
    assert CopiedAt(s, reader.copy + reader.host, j);
  }

  /** A backend ends, and another one takes its entry: pgstat_beshutdown_hook, then
      pgstat_bestart with a host name that begins with `c`. */
  function Successor(pid: int, c: int, rest: seq<Step>): seq<Step> {
    [Bump] + ([Write(PROCPID, 0)] + ([Bump]
      + ([Bump] + ([Write(PROCPID, pid)]
                   + ([Write(CLIENTHOSTNAME, 0)] + ([Bump] + ([Write(CLIENTHOSTNAME, c)] + rest)))))))
  }

  lemma RunStep(s: State, step: Step, rest: seq<Step>)
    requires Apply(s, step).Some?
    ensures Run(s, [step] + rest) == Run(Apply(s, step).value, rest)
  {
    hide Apply;
    assert ([step] + rest)[1..] == rest;
  }

  lemma RunSuccessor(s: State, pid: int, c: int, rest: seq<Step>) returns (t: State)
    requires s.count % 2 == 0 && |s.cells| > ACTIVITY
    ensures Run(s, Successor(pid, c, rest)) == Run(t, rest) && t.readers == s.readers
    ensures var gone := s.cells[PROCPID := 0];
            var next := gone[PROCPID := pid];
            var empty := next[CLIENTHOSTNAME := 0];
            && t.cells == empty[CLIENTHOSTNAME := c]
            && t.past == s.past + [Snapshot(s.cells, s.count + 1), Snapshot(gone, s.count + 1),
                                   Snapshot(gone, s.count + 2), Snapshot(gone, s.count + 3),
                                   Snapshot(next, s.count + 3), Snapshot(empty, s.count + 3),
                                   Snapshot(empty, s.count + 4), Snapshot(t.cells, s.count + 4)]
  {
    hide Run;
    var s1 := Apply(s, Bump).value;
    var s2 := Apply(s1, Write(PROCPID, 0)).value;
    var s3 := Apply(s2, Bump).value;
    var s4 := Apply(s3, Bump).value;
    var s5 := Apply(s4, Write(PROCPID, pid)).value;
    var s6 := Apply(s5, Write(CLIENTHOSTNAME, 0)).value;
    var s7 := Apply(s6, Bump).value;
    t := Apply(s7, Write(CLIENTHOSTNAME, c)).value;
    var r7 := [Write(CLIENTHOSTNAME, c)] + rest;
    var r6 := [Bump] + r7;
    var r5 := [Write(CLIENTHOSTNAME, 0)] + r6;
    var r4 := [Write(PROCPID, pid)] + r5;
    var r3 := [Bump] + r4;
    var r2 := [Bump] + r3;
    var r1 := [Write(PROCPID, 0)] + r2;
    RunStep(s, Bump, r1);
    RunStep(s1, Write(PROCPID, 0), r2);
    RunStep(s2, Bump, r3);
    RunStep(s3, Bump, r4);
    RunStep(s4, Write(PROCPID, pid), r5);
    RunStep(s5, Write(CLIENTHOSTNAME, 0), r6);
    RunStep(s6, Bump, r7);
    RunStep(s7, Write(CLIENTHOSTNAME, c), rest);
  }

  /** When a host name has been written since, it need not belong: from every state, what
      a reader has accepted as the entry of one process can be completed by the host name
      of the next one, and no instant ever had the two together. */
  lemma HostNameOfSuccessor(s: State, r: nat, pid: int, c: int)
    requires Inv(s) && |s.cells| > ACTIVITY && s.count % 2 == 0 && r < |s.readers| && s.readers[r].Done?
    requires PROCPID in s.readers[r].copy && s.readers[r].copy[PROCPID] != 0 && s.readers[r].copy[PROCPID] != pid
    requires forall j | s.readers[r].since <= j < |s.past| ::
               |s.past[j].cells| > ACTIVITY && s.past[j].cells[CLIENTHOSTNAME] != c
    ensures var t := Run(s, Successor(pid, c, [FetchHost(r, CLIENTHOSTNAME)]));
            && t.Some? && r < |t.value.readers| && t.value.readers[r].Done?
            && t.value.readers[r] == s.readers[r].(host := t.value.readers[r].host)
            && forall j | s.readers[r].since <= j < |t.value.past| ::
                 !CopiedAt(t.value, t.value.readers[r].copy + t.value.readers[r].host, j)
  {
    hide Run, Inv;
    var u := RunSuccessor(s, pid, c, [FetchHost(r, CLIENTHOSTNAME)]);
    RunOne(u, FetchHost(r, CLIENTHOSTNAME));
    var t := Apply(u, FetchHost(r, CLIENTHOSTNAME)).value;
    var all := t.readers[r].copy + t.readers[r].host;
    NotInHost(s, r);
    assert PROCPID in all && all[PROCPID] == s.readers[r].copy[PROCPID];
    assert CLIENTHOSTNAME in all && all[CLIENTHOSTNAME] == c;
    LastIsPresent(s);
    forall j | s.readers[r].since <= j < |t.past| ensures !CopiedAt(t, all, j) {
      if j < |s.past| {
        assert t.past[j] == s.past[j];
      } else if j == |s.past| {
        assert s.past[|s.past| - 1].cells[CLIENTHOSTNAME] != c;
      }
    }
  }

  lemma NotInHost(s: State, r: nat)
    requires Inv(s) && r < |s.readers| && s.readers[r].Done?
    ensures s.readers[r].since < |s.past| && PROCPID !in s.readers[r].host
  {
    assert ReaderOk(s, s.readers[r]);
  }

  lemma LastIsPresent(s: State)
    requires Inv(s)
    ensures s.past != [] && s.past[|s.past| - 1] == Present(s)
  {
  }

  /** Steps in which no host name is written. */
  predicate HostUntouched(steps: seq<Step>) {
    forall step | step in steps && step.Write? :: !InHostName(step.cell)
  }

  /** Steps in which the reader keeps its copy. */
  predicate KeepsCopy(steps: seq<Step>, r: nat) {
    Start(r) !in steps
  }

  lemma StepKeepsHost(s: State, step: Step, since: nat, r: nat)
    requires Apply(s, step).Some? && HostQuiet(s, since) && (step.Write? ==> !InHostName(step.cell))
    requires r < |s.readers| && s.readers[r].Done? && step != Start(r)
    ensures var t := Apply(s, step).value;
            && HostQuiet(t, since) && r < |t.readers| && t.readers[r].Done?
            && t.readers[r] == s.readers[r].(host := t.readers[r].host)
  {
    var t := Apply(s, step).value;
    forall j | since <= j < |t.past| ensures SameHost(t.past[j].cells, t.cells) {
      if j < |s.past| { assert SameHost(s.past[j].cells, s.cells); }
    }
  }

  lemma {:induction false} RunKeepsHost(s: State, steps: seq<Step>, since: nat, r: nat)
    requires Run(s, steps).Some? && HostQuiet(s, since) && HostUntouched(steps)
    requires r < |s.readers| && s.readers[r].Done? && KeepsCopy(steps, r)
    ensures var t := Run(s, steps).value;
            && HostQuiet(t, since) && r < |t.readers| && t.readers[r].Done?
            && t.readers[r] == s.readers[r].(host := t.readers[r].host)
    decreases |steps|
  {
    hide Apply, HostQuiet;
    if steps != [] {
      assert steps[0] in steps && forall step | step in steps[1..] :: step in steps;
      StepKeepsHost(s, steps[0], since, r);
      RunKeepsHost(Apply(s, steps[0]).value, steps[1..], since, r);
    }
  }

  /** Whatever host name the reader goes on to read, it belongs to the copy. */
  ghost predicate HostAlwaysBelongs(s: State, r: nat, mayWrite: bool)
    requires r < |s.readers| && s.readers[r].Done?
  {
    forall steps | KeepsCopy(steps, r) && (mayWrite || HostUntouched(steps)) && Run(s, steps).Some? ::
      var t := Run(s, steps).value;
      r < |t.readers| && t.readers[r].Done?
      && Complete(t, t.readers[r].since, t.readers[r].start, t.readers[r].copy + t.readers[r].host)
  }

  /** So the missing check is harmless exactly when no host name may be written between
      the beginning of the read and its end; it is written whenever an entry changes hands. */
  lemma HostNameExactly(cells: seq<int>, readers: nat, before: seq<Step>, r: nat, mayWrite: bool)
    requires Run(Initial(cells, readers), before).Some?
    requires var s := Run(Initial(cells, readers), before).value;
             && |s.cells| > ACTIVITY && s.count % 2 == 0 && r < |s.readers| && s.readers[r].Done?
             && NoWrap(s.readers[r])
             && PROCPID in s.readers[r].copy && s.readers[r].copy[PROCPID] != 0 && HostQuiet(s, s.readers[r].since)
    ensures HostAlwaysBelongs(Run(Initial(cells, readers), before).value, r, mayWrite) <==> !mayWrite
  {
    hide Run, Initial, Complete, HostQuiet, Inv, Successor;
    var s := Run(Initial(cells, readers), before).value;
    InitialInv(cells, readers);
    RunKeeps(Initial(cells, readers), before);
    if mayWrite {
      var pid := s.readers[r].copy[PROCPID] + 1;
      var c := s.cells[CLIENTHOSTNAME] + 1;
      HostQuietCell(s, s.readers[r].since);
      HostNameOfSuccessor(s, r, pid, c);
      SuccessorKeepsCopy(r, pid, c);
      var steps := Successor(pid, c, [FetchHost(r, CLIENTHOSTNAME)]);
      assert !Complete(Run(s, steps).value, s.readers[r].since, s.readers[r].start,
                       Run(s, steps).value.readers[r].copy + Run(s, steps).value.readers[r].host) by {
        NotComplete(Run(s, steps).value, s.readers[r].since, s.readers[r].start,
                    Run(s, steps).value.readers[r].copy + Run(s, steps).value.readers[r].host);
      }
    } else {
      forall steps | KeepsCopy(steps, r) && HostUntouched(steps) && Run(s, steps).Some?
        ensures var t := Run(s, steps).value;
                r < |t.readers| && t.readers[r].Done?
                && Complete(t, t.readers[r].since, t.readers[r].start, t.readers[r].copy + t.readers[r].host)
      {
        RunKeepsHost(s, steps, s.readers[r].since, r);
        RunConcat(Initial(cells, readers), before, steps);
        HostNameBelongs(cells, readers, before + steps, r);
      }
    }
  }

  lemma NotComplete(s: State, since: nat, start: nat, copy: map<nat, int>)
    requires forall j | since <= j < |s.past| :: !CopiedAt(s, copy, j)
    ensures !Complete(s, since, start, copy)
  {
  }

  lemma HostQuietCell(s: State, since: nat)
    requires HostQuiet(s, since) && |s.cells| > ACTIVITY
    ensures forall j | since <= j < |s.past| ::
              |s.past[j].cells| > ACTIVITY && s.past[j].cells[CLIENTHOSTNAME] == s.cells[CLIENTHOSTNAME]
  {
    forall j | since <= j < |s.past|
      ensures |s.past[j].cells| > ACTIVITY && s.past[j].cells[CLIENTHOSTNAME] == s.cells[CLIENTHOSTNAME]
    {
      assert SameHost(s.past[j].cells, s.cells);
    }
  }

  lemma SuccessorKeepsCopy(r: nat, pid: int, c: int)
    ensures KeepsCopy(Successor(pid, c, [FetchHost(r, CLIENTHOSTNAME)]), r)
  {
  }

  // ---------------------------------------------------------------- reading alone

  function CopySteps(r: nat, ks: seq<nat>): seq<Step> {
    if ks == [] then [] else [Copy(r, ks[0])] + CopySteps(r, ks[1..])
  }

  predicate MayBeCopied(ks: seq<nat>, n: nat) {
    forall i | 0 <= i < |ks| :: ks[i] < n && !InHostName(ks[i])
  }

  function CopyOf(cells: seq<int>, ks: seq<nat>): map<nat, int>
    requires MayBeCopied(ks, |cells|)
  {
    map k | k in ks :: cells[k]
  }

  lemma CopyOfNothing(copy: map<nat, int>, cells: seq<int>)
    ensures copy + CopyOf(cells, []) == copy
  {
  }

  lemma CopyOfHead(copy: map<nat, int>, cells: seq<int>, ks: seq<nat>)
    requires MayBeCopied(ks, |cells|) && ks != []
    ensures copy[ks[0] := cells[ks[0]]] + CopyOf(cells, ks[1..]) == copy + CopyOf(cells, ks)
  {
    assert forall k :: k in ks <==> k == ks[0] || k in ks[1..];
  }

  lemma {:induction false} CopyAlone(s: State, r: nat, ks: seq<nat>)
    requires r < |s.readers| && s.readers[r].Copying? && MayBeCopied(ks, |s.cells|)
    ensures var reader := s.readers[r];
            var copying := Copying(reader.save, reader.start, reader.since, reader.copy + CopyOf(s.cells, ks));
            Run(s, CopySteps(r, ks)) == Some(s.(readers := s.readers[r := copying]))
    decreases |ks|
  {
    hide CopyOf;
    var reader := s.readers[r];
    if ks == [] {
      CopyOfNothing(reader.copy, s.cells);
      assert s.readers[r := reader] == s.readers;
    } else {
      var step, rest := Copy(r, ks[0]), CopySteps(r, ks[1..]);
      var t := Apply(s, step).value;
      RunStep(s, step, rest);
      CopyAlone(t, r, ks[1..]);
      CopyOfHead(reader.copy, s.cells, ks);
      var last := Copying(reader.save, reader.start, reader.since, reader.copy + CopyOf(s.cells, ks));
      assert t.readers[r := last] == s.readers[r := last];
    }
  }

  lemma {:induction false} RunConcat(s: State, a: seq<Step>, b: seq<Step>)
    ensures Run(s, a + b) ==
              match Run(s, a)
              case None => None
              case Some(t) => Run(t, b)
    decreases |a|
  {
    hide Apply;
    if a == [] {
      assert a + b == b;
    } else {
      assert (a + b)[1..] == a[1..] + b;
      var t := Apply(s, a[0]);
      if t.Some? { RunConcat(t.value, a[1..], b); }
    }
  }

  /** A read that nobody disturbs succeeds exactly when no modification is under way,
      and then yields the entry. */
  lemma UndisturbedRead(s: State, r: nat, ks: seq<nat>)
    requires r < |s.readers| && s.past != [] && MayBeCopied(ks, |s.cells|)
    ensures var done := Done(s.count, s.count, |s.past| - 1, CopyOf(s.cells, ks), map[]);
            Run(s, [Start(r)] + CopySteps(r, ks) + [Finish(r)]) ==
              Some(s.(readers := s.readers[r := if s.count % 2 == 0 then done else Idle]))
  {
    hide Run;
    CounterParity(s.count);
    var t := Apply(s, Start(r)).value;
    RunOne(s, Start(r));
    RunConcat(s, [Start(r)], CopySteps(r, ks));
    RunConcat(s, [Start(r)] + CopySteps(r, ks), [Finish(r)]);
    CopyAlone(t, r, ks);
    var u := Run(t, CopySteps(r, ks)).value;
    assert t.readers[r := u.readers[r]] == s.readers[r := u.readers[r]];
    var result := if s.count % 2 == 0 then Done(s.count, s.count, |s.past| - 1, CopyOf(s.cells, ks), map[]) else Idle;
    assert u.readers[r := result] == s.readers[r := result];
    assert map[] + CopyOf(s.cells, ks) == CopyOf(s.cells, ks);
    RunOne(u, Finish(r));
  }

  lemma RunOne(s: State, step: Step)
    ensures Run(s, [step]) == Apply(s, step)
  {
    assert [step][1..] == [];
  }

  // ---------------------------------------------------------------- the writer's functions

  lemma {:induction false} RunSnoc(s: State, steps: seq<Step>, step: Step)
    requires Run(s, steps).Some?
    ensures Run(s, steps + [step]) == Apply(Run(s, steps).value, step)
  {
    hide Apply;
    RunConcat(s, steps, [step]);
    RunOne(Run(s, steps).value, step);
  }

  /** A backend's own entry. `entry` is the entry with its history, as the steps see it. */
  class Backend {
    const querySize: nat
    const cells: array<int>
    var changecount: uint32
    ghost var entry: State

    ghost predicate Valid()
      reads this, cells
    {
      && querySize > 0 && cells.Length == ACTIVITY + querySize
      && entry.cells == cells[..] && changecount == Counter(entry.count)
    }

    /** The entry in newly created shared memory. */
    constructor (querySize: nat)
      requires querySize > 0
      ensures Valid() && Even() && this.querySize == querySize && fresh(cells)
      ensures entry == Initial(cells[..], 0) && forall k | 0 <= k < cells.Length :: cells[k] == 0
    {
      this.querySize := querySize;
      cells := new int[ACTIVITY + querySize](_ => 0);
      changecount := 0;
      entry := Initial(seq(ACTIVITY + querySize, _ => 0), 0);
      new;
      assert cells[..] == seq(ACTIVITY + querySize, _ => 0);
    }

    predicate Even()
      reads this
    {
      changecount % 2 == 0
    }

    /** st_changecount++. */
    method Increment()
      requires Valid()
      modifies this
      ensures Valid() && Some(entry) == Apply(old(entry), Bump)
      ensures Even() <==> !old(Even())
    {
      CounterParity(entry.count);
      CounterParity(entry.count + 1);
      ModSuccessor(entry.count, 0x1_0000_0000);
      changecount := Wrap(changecount + 1);
      entry := Apply(entry, Bump).value;
    }

    method Assign(cell: nat, value: int)
      requires Valid() && cell < cells.Length && (Unguarded(cell) || !Even())
      modifies `entry, cells
      ensures Valid() && cells[..] == old(cells[..])[cell := value]
      ensures Some(entry) == Apply(old(entry), Write(cell, value))
    {
      CounterParity(entry.count);
      cells[cell] := value;
      entry := Apply(entry, Write(cell, value)).value;
    }

    /** memcpy of a string into a field, and the zero byte behind it. */
    method AssignString(field: nat, s: seq<int>) returns (ghost steps: seq<Step>)
      requires Valid() && field + |s| < cells.Length
      requires !Even() || forall k: nat | field <= k <= field + |s| :: Unguarded(k)
      modifies `entry, cells
      ensures Valid() && Run(old(entry), steps) == Some(entry)
      ensures cells[field..field + |s| + 1] == s + [0]
      ensures forall k | 0 <= k < cells.Length && !(field <= k <= field + |s|) :: cells[k] == old(cells[k])
    {
      hide Apply;
      steps := [];
      for i := 0 to |s|
        invariant Valid() && changecount == old(changecount) && Run(old(entry), steps) == Some(entry)
        invariant cells[field..field + i] == s[..i]
        invariant forall k | 0 <= k < cells.Length && !(field <= k < field + i) :: cells[k] == old(cells[k])
      {
        RunSnoc(old(entry), steps, Write(field + i, s[i]));
        Assign(field + i, s[i]);
        steps := steps + [Write(field + i, s[i])];
      }
      RunSnoc(old(entry), steps, Write(field + |s|, 0));
      Assign(field + |s|, 0);
      steps := steps + [Write(field + |s|, 0)];
    }

    /** pgstat_report_activity, with the string already clipped. */
    method ReportActivity(cmd: seq<int>, timestamp: int) returns (ghost steps: seq<Step>)
      requires Valid() && Even() && |cmd| < querySize
      modifies this, cells
      ensures Valid() && Even() && Run(old(entry), steps) == Some(entry)
      ensures cells[ACTIVITY_START_TIMESTAMP] == timestamp && cells[ACTIVITY..ACTIVITY + |cmd| + 1] == cmd + [0]
      ensures cells[XACT_START_TIMESTAMP] == old(cells[XACT_START_TIMESTAMP])
      ensures forall k | 0 <= k < cells.Length && k != ACTIVITY_START_TIMESTAMP
                         && !(ACTIVITY <= k <= ACTIVITY + |cmd|) ::
                cells[k] == old(cells[k])
    {
      hide Apply;
      RunOne(entry, Bump);
      Increment();
      steps := [Bump];
      RunSnoc(old(entry), steps, Write(ACTIVITY_START_TIMESTAMP, timestamp));
      Assign(ACTIVITY_START_TIMESTAMP, timestamp);
      steps := steps + [Write(ACTIVITY_START_TIMESTAMP, timestamp)];
      ghost var more := AssignString(ACTIVITY, cmd);
      RunConcat(old(entry), steps, more);
      steps := steps + more;
      RunSnoc(old(entry), steps, Bump);
      Increment();
      steps := steps + [Bump];
    }

    /** pgstat_report_appname, with the string already clipped. */
    method ReportAppname(appname: seq<int>) returns (ghost steps: seq<Step>)
      requires Valid() && Even() && |appname| < NAMEDATALEN
      modifies this, cells
      ensures Valid() && Even() && Run(old(entry), steps) == Some(entry)
      ensures cells[APPNAME..APPNAME + |appname| + 1] == appname + [0]
      ensures forall k | 0 <= k < cells.Length && !(APPNAME <= k <= APPNAME + |appname|) :: cells[k] == old(cells[k])
    {
      hide Apply;
      RunOne(entry, Bump);
      Increment();
      steps := [Bump];
      ghost var more := AssignString(APPNAME, appname);
      RunConcat(old(entry), steps, more);
      steps := steps + more;
      RunSnoc(old(entry), steps, Bump);
      Increment();
      steps := steps + [Bump];
    }

    /** pgstat_report_waiting: a single cell, without the protocol. */
    method ReportWaiting(waiting: int) returns (ghost steps: seq<Step>)
      requires Valid()
      modifies `entry, cells
      ensures Valid() && steps == [Write(WAITING, waiting)] && Run(old(entry), steps) == Some(entry)
      ensures cells[..] == old(cells[..])[WAITING := waiting]
    {
      hide Apply;
      steps := [Write(WAITING, waiting)];
      RunOne(entry, Write(WAITING, waiting));
      Assign(WAITING, waiting);
    }

    /** The entry of pgstat_bestart: increment until the counter is odd, which takes two
        increments when a predecessor died in the middle of a modification. */
    method OpenModification() returns (ghost steps: seq<Step>)
      requires Valid()
      modifies this
      ensures Valid() && !Even() && Run(old(entry), steps) == Some(entry)
      ensures cells[..] == old(cells[..])
      ensures steps == if old(Even()) then [Bump] else [Bump, Bump]
    {
      hide Apply;
      RunOne(entry, Bump);
      Increment();
      steps := [Bump];
      while Even()
        invariant Valid() && Run(old(entry), steps) == Some(entry) && cells[..] == old(cells[..])
        invariant steps == if Even() || old(Even()) then [Bump] else [Bump, Bump]
        invariant Even() ==> !old(Even())
        decreases Even()
      {
        RunSnoc(old(entry), steps, Bump);
        Increment();
        steps := steps + [Bump];
      }
    }

    predicate Filled(pid: int, start: int, database: int, user: int, addr: int)
      requires cells.Length == ACTIVITY + querySize && querySize > 0
      reads cells
    {
      && cells[PROCPID] == pid && cells[PROC_START_TIMESTAMP] == start && cells[XACT_START_TIMESTAMP] == 0
      && cells[ACTIVITY_START_TIMESTAMP] == 0 && cells[DATABASEID] == database && cells[USERID] == user
      && cells[CLIENTADDR] == addr && cells[WAITING] == 0 && cells[ACTIVITY] == 0
      && cells[APPNAME + NAMEDATALEN - 1] == 0 && cells[ACTIVITY + querySize - 1] == 0
    }

    predicate HasString(field: nat, s: seq<int>)
      requires field + |s| < cells.Length
      reads cells
    {
      cells[field..field + |s| + 1] == s + [0]
    }

    /** pgstat_bestart: all fields within one modification, the host name after it, and
        the application name in a modification of its own. */
    method BeStart(pid: int, start: int, database: int, user: int, addr: int, hostname: Option<seq<int>>,
                   appname: Option<seq<int>>)
      returns (ghost steps: seq<Step>)
      requires Valid() && (appname.Some? ==> |appname.value| < NAMEDATALEN)
      modifies this, cells
      ensures Valid() && Even() && Run(old(entry), steps) == Some(entry)
      ensures cells[PROCPID] == pid && cells[PROC_START_TIMESTAMP] == start && cells[DATABASEID] == database
              && cells[USERID] == user && cells[CLIENTADDR] == addr && cells[XACT_START_TIMESTAMP] == 0
              && cells[ACTIVITY_START_TIMESTAMP] == 0 && cells[WAITING] == 0 && cells[ACTIVITY] == 0
              && cells[APPNAME + NAMEDATALEN - 1] == 0 && cells[ACTIVITY + querySize - 1] == 0
      ensures var host := if hostname.Some? then Clipped(hostname.value) else [];
              cells[CLIENTHOSTNAME..CLIENTHOSTNAME + |host| + 1] == host + [0]
      ensures var app := if appname.Some? then appname.value else [];
              cells[APPNAME..APPNAME + |app| + 1] == app + [0]
    {
      hide Run, Apply, Assigned;
      steps := OpenModification();
      ghost var more := FillFields(pid, start, database, user, addr);
      RunConcat(old(entry), steps, more);
      steps := steps + more;
      RunSnoc(old(entry), steps, Bump);
      Increment();
      steps := steps + [Bump];
      more := FillNames(hostname, appname);
      RunConcat(old(entry), steps, more);
      steps := steps + more;
    }

    /** The two names, which are filled in when the entry has been closed. */
    method FillNames(hostname: Option<seq<int>>, appname: Option<seq<int>>) returns (ghost steps: seq<Step>)
      requires Valid() && Even() && (appname.Some? ==> |appname.value| < NAMEDATALEN)
      requires HasString(CLIENTHOSTNAME, []) && HasString(APPNAME, []) && cells[APPNAME + NAMEDATALEN - 1] == 0
      modifies this, cells
      ensures Valid() && Even() && Run(old(entry), steps) == Some(entry)
      ensures HasString(CLIENTHOSTNAME, if hostname.Some? then Clipped(hostname.value) else [])
      ensures HasString(APPNAME, if appname.Some? then appname.value else []) && cells[APPNAME + NAMEDATALEN - 1] == 0
      ensures forall k | 0 <= k < cells.Length && !(APPNAME <= k < ACTIVITY) :: cells[k] == old(cells[k])
    {
      hide Apply;
      steps := [];
      if hostname.Some? {
        steps := AssignString(CLIENTHOSTNAME, Clipped(hostname.value));
      }
      if appname.Some? {
        ghost var more := ReportAppname(appname.value);
        RunConcat(old(entry), steps, more);
        steps := steps + more;
        assert cells[APPNAME..APPNAME + |appname.value| + 1][|appname.value|] == 0;
      }
    }

    method FillFields(pid: int, start: int, database: int, user: int, addr: int) returns (ghost steps: seq<Step>)
      requires Valid() && !Even()
      modifies `entry, cells
      ensures Valid() && Run(old(entry), steps) == Some(entry)
      ensures Filled(pid, start, database, user, addr) && HasString(CLIENTHOSTNAME, []) && HasString(APPNAME, [])
      ensures changecount == old(changecount)
    {
      hide Run, Assigned;
      var writes := [(PROCPID, pid), (PROC_START_TIMESTAMP, start), (ACTIVITY_START_TIMESTAMP, 0),
                     (XACT_START_TIMESTAMP, 0), (DATABASEID, database), (USERID, user), (CLIENTADDR, addr),
                     (CLIENTHOSTNAME, 0), (WAITING, 0), (APPNAME, 0), (ACTIVITY, 0),
                     (CLIENTHOSTNAME + NAMEDATALEN - 1, 0), (APPNAME + NAMEDATALEN - 1, 0),
                     (ACTIVITY + querySize - 1, 0)];
      FieldsAssigned(cells[..], writes);
      steps := AssignAll(writes);
    }

    lemma FieldsAssigned(before: seq<int>, writes: seq<(nat, int)>)
      requires |before| == ACTIVITY + querySize && querySize > 0
      requires |writes| == 14 && writes[0].0 == PROCPID && writes[1].0 == PROC_START_TIMESTAMP
      requires writes[2] == (ACTIVITY_START_TIMESTAMP, 0) && writes[3] == (XACT_START_TIMESTAMP, 0)
      requires writes[4].0 == DATABASEID && writes[5].0 == USERID && writes[6].0 == CLIENTADDR
      requires writes[7] == (CLIENTHOSTNAME, 0) && writes[8] == (WAITING, 0) && writes[9] == (APPNAME, 0)
      requires writes[10] == (ACTIVITY, 0) && writes[11] == (CLIENTHOSTNAME + NAMEDATALEN - 1, 0)
      requires writes[12] == (APPNAME + NAMEDATALEN - 1, 0) && writes[13] == (ACTIVITY + querySize - 1, 0)
      ensures forall i | 0 <= i < 14 :: Assigned(before, writes)[writes[i].0] == writes[i].1
    {
      hide Assigned;
      forall i | 0 <= i < 14 ensures Assigned(before, writes)[writes[i].0] == writes[i].1 {
        assert forall j | i <= j < 14 && writes[j].0 == writes[i].0 :: writes[j].1 == writes[i].1;
        AssignedAt(before, writes, i);
      }
    }

    /** Assignments to single cells, one after the other. */
    method AssignAll(writes: seq<(nat, int)>) returns (ghost steps: seq<Step>)
      requires Valid() && !Even() && forall i | 0 <= i < |writes| :: writes[i].0 < cells.Length
      modifies `entry, cells
      ensures Valid() && Run(old(entry), steps) == Some(entry)
      ensures cells[..] == Assigned(old(cells[..]), writes)
    {
      hide Apply;
      steps := [];
      for i := 0 to |writes|
        invariant Valid() && changecount == old(changecount) && Run(old(entry), steps) == Some(entry)
        invariant Assigned(cells[..], writes[i..]) == Assigned(old(cells[..]), writes)
      {
        RunSnoc(old(entry), steps, Write(writes[i].0, writes[i].1));
        Assign(writes[i].0, writes[i].1);
        steps := steps + [Write(writes[i].0, writes[i].1)];
      }
    }
  }

  /** What strlcpy keeps of a string in a field of NAMEDATALEN bytes. */
  function Clipped(s: seq<int>): (r: seq<int>)
    ensures |r| < NAMEDATALEN && r <= s && (r == s || |r| == NAMEDATALEN - 1)
  {
    if |s| < NAMEDATALEN then s else s[..NAMEDATALEN - 1]
  }

  function Assigned(cells: seq<int>, writes: seq<(nat, int)>): (r: seq<int>)
    requires forall i | 0 <= i < |writes| :: writes[i].0 < |cells|
    ensures |r| == |cells|
    decreases |writes|
  {
    if writes == [] then cells else Assigned(cells[writes[0].0 := writes[0].1], writes[1..])
  }

  /** A cell has what was last assigned to it. */
  lemma {:induction false} AssignedAt(cells: seq<int>, writes: seq<(nat, int)>, i: nat)
    requires (forall j | 0 <= j < |writes| :: writes[j].0 < |cells|) && i < |writes|
    requires forall j | i <= j < |writes| && writes[j].0 == writes[i].0 :: writes[j].1 == writes[i].1
    ensures Assigned(cells, writes)[writes[i].0] == writes[i].1
    decreases |writes|
  {
    var next := cells[writes[0].0 := writes[0].1];
    if i > 0 {
      AssignedAt(next, writes[1..], i - 1);
    } else {
      AssignedElsewhere(next, writes[1..], writes[0].0, writes[0].1);
    }
  }

  lemma {:induction false} AssignedElsewhere(cells: seq<int>, writes: seq<(nat, int)>, k: nat, v: int)
    requires (forall j | 0 <= j < |writes| :: writes[j].0 < |cells|) && k < |cells| && cells[k] == v
    requires forall j | 0 <= j < |writes| && writes[j].0 == k :: writes[j].1 == v
    ensures Assigned(cells, writes)[k] == v
    decreases |writes|
  {
    if writes != [] {
      AssignedElsewhere(cells[writes[0].0 := writes[0].1], writes[1..], k, v);
    }
  }
}
