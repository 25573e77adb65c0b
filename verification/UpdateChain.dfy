/** Following t_ctid links while slots are freed and reused (htup.h, heapam.c). A link
    says where the next version of a row was put; a reader accepts what it finds there
    only if it was inserted by the transaction that replaced the version it came from. */
module UpdateChain {
  import opened Wrappers

  type Xid = nat
  type Tid = nat
  const FROZEN: Xid := 2

  datatype Status = InProgress | Committed | Aborted

  /** A heap tuple header. `row` and `serial` are not stored: they tell which row this is
      a version of, and number all versions in the order of their creation. */
  datatype Version = Version(xmin: Xid, xmax: Xid, xmaxInvalid: bool, locked: bool, ctid: Tid, row: nat, serial: nat)

  /** An update that took place: transaction `xmax` replaced version `source` of `row` by
      version `serial`, which it put at `tid`. */
  datatype Link = Link(source: nat, xmax: Xid, tid: Tid, row: nat, serial: nat)

  /** `made` lists the transactions that have made the versions, in the order of their
      creation. `pending` holds the tuples that an update has marked but not linked yet; `snap` is
      the state of transactions that one reader's snapshot has recorded. No transaction
      below `oldestXmin` was running when it was taken. */
  datatype State = State(slots: map<Tid, Version>, status: map<Xid, Status>, nextXid: Xid, made: seq<Xid>, nextRow: nat,
                         oldestXmin: Xid, pending: map<Xid, Tid>, links: set<Link>, snap: Option<map<Xid, Status>>)

  datatype Step =
    | Begin
    | Commit(x: Xid)
    | Abort(x: Xid)
    | Insert(x: Xid, tid: Tid)
    | Update(x: Xid, tid: Tid, to: Tid)
    | MarkUpdate(x: Xid, tid: Tid)
    | FinishUpdate(x: Xid, to: Tid)
    | Delete(x: Xid, tid: Tid)
    | Lock(x: Xid, tid: Tid)
    | HintXmaxInvalid(tid: Tid)
    | Vacuum(tid: Tid)
    | Freeze(tid: Tid)
    | TakeSnapshot
    | AdvanceHorizon(xid: Xid)

  predicate Is(s: State, x: Xid, st: Status) {
    x in s.status && s.status[x] == st
  }

  /** HeapTupleSatisfiesUpdate says that the tuple may be updated. */
  predicate MayBeUpdated(s: State, x: Xid, v: Version) {
    && (v.xmin == x || Is(s, v.xmin, Committed))
    && (v.xmaxInvalid || Is(s, v.xmax, Aborted) || (v.locked && (v.xmax == x || Is(s, v.xmax, Committed))))
  }

  /** HeapTupleSatisfiesVacuum says that the tuple is dead. */
  predicate Dead(s: State, v: Version) {
    || Is(s, v.xmin, Aborted)
    || (Is(s, v.xmin, Committed) && !v.xmaxInvalid && !v.locked && Is(s, v.xmax, Committed) && v.xmax < s.oldestXmin)
  }

  function NewVersion(s: State, x: Xid, tid: Tid, row: nat): Version {
    Version(x, 0, true, false, tid, row, |s.made|)
  }

  /** A new version of the row of `v`, put at `to`; the old tuple at `tid` points to it. */
  function LinkedUpdate(s: State, x: Xid, tid: Tid, v: Version, to: Tid): State {
    var replaced := v.(xmax := x, xmaxInvalid := false, locked := false, ctid := to);
    s.(slots := s.slots[to := NewVersion(s, x, to, v.row)][tid := replaced], made := s.made + [x],
       links := s.links + {Link(v.serial, x, to, v.row, |s.made|)}, pending := s.pending - {x})
  }

  function Apply(s: State, step: Step): Option<State> {
    match step
    case Begin =>
      Some(s.(status := s.status[s.nextXid := InProgress], nextXid := s.nextXid + 1))
    case Commit(x) =>
      if Is(s, x, InProgress) && x !in s.pending then Some(s.(status := s.status[x := Committed])) else None
    case Abort(x) =>
      if Is(s, x, InProgress) then Some(s.(status := s.status[x := Aborted], pending := s.pending - {x})) else None
    case Insert(x, tid) =>
      if Is(s, x, InProgress) && tid !in s.slots then
        var v := NewVersion(s, x, tid, s.nextRow);
        Some(s.(slots := s.slots[tid := v], made := s.made + [x], nextRow := s.nextRow + 1))
      else None
    case Update(x, tid, to) =>
      if Is(s, x, InProgress) && x !in s.pending && tid in s.slots && to !in s.slots
         && MayBeUpdated(s, x, s.slots[tid]) then
        Some(LinkedUpdate(s, x, tid, s.slots[tid], to))
      else None
    case MarkUpdate(x, tid) =>
      if Is(s, x, InProgress) && x !in s.pending && tid in s.slots && MayBeUpdated(s, x, s.slots[tid]) then
        Some(s.(slots := s.slots[tid := s.slots[tid].(xmax := x, xmaxInvalid := false, locked := false, ctid := tid)],
                pending := s.pending[x := tid]))
      else None
    case FinishUpdate(x, to) =>
      if x in s.pending && s.pending[x] in s.slots && to !in s.slots then
        Some(LinkedUpdate(s, x, s.pending[x], s.slots[s.pending[x]], to))
      else None
    case Delete(x, tid) =>
      if Is(s, x, InProgress) && tid in s.slots && MayBeUpdated(s, x, s.slots[tid]) then
        Some(s.(slots := s.slots[tid := s.slots[tid].(xmax := x, xmaxInvalid := false, locked := false, ctid := tid)]))
      else None
    case Lock(x, tid) =>
      if Is(s, x, InProgress) && tid in s.slots && MayBeUpdated(s, x, s.slots[tid]) then
        Some(s.(slots := s.slots[tid := s.slots[tid].(xmax := x, xmaxInvalid := false, locked := true, ctid := tid)]))
      else None
    case HintXmaxInvalid(tid) =>
      if tid in s.slots && (Is(s, s.slots[tid].xmax, Aborted)
                            || (s.slots[tid].locked && Is(s, s.slots[tid].xmax, Committed))) then
        Some(s.(slots := s.slots[tid := s.slots[tid].(xmaxInvalid := true)]))
      else None
    case Vacuum(tid) =>
      if tid in s.slots && Dead(s, s.slots[tid]) then Some(s.(slots := s.slots - {tid})) else None
    case Freeze(tid) =>
      if tid in s.slots && Is(s, s.slots[tid].xmin, Committed) && s.slots[tid].xmin < s.oldestXmin then
        Some(s.(slots := s.slots[tid := s.slots[tid].(xmin := FROZEN)]))
      else None
    case TakeSnapshot =>
      Some(s.(snap := Some(s.status)))
    case AdvanceHorizon(xid) =>
      if s.oldestXmin <= xid <= s.nextXid && AllEnded(s.status, xid)
         && (s.snap.Some? ==> AllEnded(s.snap.value, xid)) then
        Some(s.(oldestXmin := xid))
      else None
  }

  /** No transaction below `xid` is running. */
  predicate AllEnded(status: map<Xid, Status>, xid: Xid) {
    forall x | FROZEN <= x < xid :: x in status && status[x] != InProgress
  }

  const INITIAL := State(map[], map[FROZEN := Committed], FROZEN + 1, [], 0, FROZEN, map[], {}, None)

  function Run(s: State, steps: seq<Step>): Option<State>
    decreases |steps|
  {
    if steps == [] then Some(s)
    else
      match Apply(s, steps[0])
      case None => None
      case Some(t) => Run(t, steps[1..])
  }

  // ---------------------------------------------------------------- the invariant

  predicate Forward(tid: Tid, v: Version) {
    !v.xmaxInvalid && !v.locked && v.ctid != tid
  }

  ghost predicate VersionOk(s: State, tid: Tid, v: Version) {
    && v.xmin in s.status && v.serial < |s.made| && v.row < s.nextRow
    && (!v.xmaxInvalid ==> v.xmax in s.status && v.xmax != FROZEN)
    && (!v.xmaxInvalid ==> v.xmin == v.xmax || Is(s, v.xmin, Committed))
    && (Forward(tid, v) ==> exists l :: l in s.links && LinkOf(v, l))
    && (s.snap.Some? && !v.xmaxInvalid && !v.locked && SnapCommitted(s, v.xmax) ==> SnapCommitted(s, v.xmin))
  }

  /** `l` is the link that `v` holds; it leads to a later version of the same row. */
  predicate LinkOf(v: Version, l: Link) {
    l.source == v.serial && l.xmax == v.xmax && l.tid == v.ctid && l.row == v.row && l.serial > v.serial
  }

  predicate SnapCommitted(s: State, x: Xid)
    requires s.snap.Some?
  {
    x in s.snap.value && s.snap.value[x] == Committed
  }

  /** The slot still holds the version that the link was made for. */
  predicate Holds(s: State, l: Link) {
    && l.tid in s.slots && s.slots[l.tid].xmin == l.xmax
    && s.slots[l.tid].serial == l.serial && s.slots[l.tid].row == l.row
  }

  /** The test that readers make. */
  predicate Matches(s: State, l: Link) {
    l.tid in s.slots && s.slots[l.tid].xmin == l.xmax
  }

  predicate LinkOk(s: State, l: Link) {
    && l.xmax in s.status && l.xmax != FROZEN && l.serial < |s.made|
    && (Is(s, l.xmax, InProgress) ==> Holds(s, l))
    && (Matches(s, l) ==> Holds(s, l))
    && (s.snap.Some? && !SnapCommitted(s, l.xmax) ==> Is(s, l.xmax, Aborted) || Holds(s, l))
  }

  predicate PendingOk(s: State, x: Xid, tid: Tid) {
    && Is(s, x, InProgress) && tid in s.slots
    && var v := s.slots[tid]; v.xmax == x && !v.xmaxInvalid && !v.locked && v.ctid == tid
  }

  predicate StatusOk(s: State) {
    && s.nextXid > FROZEN && Is(s, FROZEN, Committed)
    && (forall x | x in s.status :: FROZEN <= x < s.nextXid)
    && s.oldestXmin <= s.nextXid && AllEnded(s.status, s.oldestXmin)
    && (s.snap.Some? ==>
          && AllEnded(s.snap.value, s.oldestXmin)
          && SnapCommitted(s, FROZEN)
          && forall x | x in s.snap.value ::
               x in s.status && (s.snap.value[x] != InProgress ==> s.status[x] == s.snap.value[x]))
  }

  ghost predicate Inv(s: State) {
    && StatusOk(s)
    && (forall tid | tid in s.slots :: VersionOk(s, tid, s.slots[tid]))
    && (forall l | l in s.links :: LinkOk(s, l))
    && (forall x | x in s.pending :: PendingOk(s, x, s.pending[x]))
  }

  lemma InitialInv()
    ensures Inv(INITIAL)
  {
  }

  // ---------------------------------------------------------------- every step keeps it

  /** Transactions begin and end. */
  lemma XactKeeps(s: State, step: Step)
    requires Inv(s) && Apply(s, step).Some? && (step.Begin? || step.Commit? || step.Abort? || step.AdvanceHorizon?)
    ensures Inv(Apply(s, step).value)
  {
    var t := Apply(s, step).value;
    forall tid | tid in t.slots ensures VersionOk(t, tid, t.slots[tid]) {
      assert VersionOk(s, tid, s.slots[tid]);
    }
    forall l | l in t.links ensures LinkOk(t, l) {
      assert LinkOk(s, l);
    }
    forall x | x in t.pending ensures PendingOk(t, x, t.pending[x]) {
      assert PendingOk(s, x, s.pending[x]);
    }
  }

  lemma SnapshotKeeps(s: State)
    requires Inv(s)
    ensures Inv(Apply(s, TakeSnapshot).value)
  {
    var t := Apply(s, TakeSnapshot).value;
    forall tid | tid in t.slots ensures VersionOk(t, tid, t.slots[tid]) {
      assert VersionOk(s, tid, s.slots[tid]);
    }
    forall l | l in t.links ensures LinkOk(t, l) {
      assert LinkOk(s, l);
    }
    forall x | x in t.pending ensures PendingOk(t, x, t.pending[x]) {
      assert PendingOk(s, x, s.pending[x]);
    }
  }

  lemma InsertKeeps(s: State, step: Step)
    requires Inv(s) && Apply(s, step).Some? && step.Insert?
    ensures Inv(Apply(s, step).value)
  {
    var t := Apply(s, step).value;
    forall tid | tid in t.slots ensures VersionOk(t, tid, t.slots[tid]) {
      if tid != step.tid { assert VersionOk(s, tid, s.slots[tid]); }
    }
    forall l | l in t.links ensures LinkOk(t, l) {
      assert LinkOk(s, l);
    }
    forall x | x in t.pending ensures PendingOk(t, x, t.pending[x]) {
      assert PendingOk(s, x, s.pending[x]);
    }
  }

  /** Delete, lock and the mark of an update: a tuple that may be updated gets a new
      xmax and points to itself. */
  lemma SetXmaxKeeps(s: State, step: Step)
    requires Inv(s) && Apply(s, step).Some? && (step.Delete? || step.Lock? || step.MarkUpdate?)
    ensures Inv(Apply(s, step).value)
  {
    hide VersionOk, LinkOk, PendingOk;
    var t := Apply(s, step).value;
    forall tid | tid in t.slots ensures VersionOk(t, tid, t.slots[tid]) {
      SetXmaxVersion(s, step, tid);
    }
    forall l | l in t.links ensures LinkOk(t, l) {
      SetXmaxLink(s, step, l);
    }
    forall x | x in t.pending ensures PendingOk(t, x, t.pending[x]) {
      SetXmaxPending(s, step, x);
    }
  }

  lemma SetXmaxVersion(s: State, step: Step, tid: Tid)
    requires Inv(s) && Apply(s, step).Some? && (step.Delete? || step.Lock? || step.MarkUpdate?)
    requires tid in s.slots
    ensures VersionOk(Apply(s, step).value, tid, Apply(s, step).value.slots[tid])
  {
    hide LinkOk, PendingOk;
    assert VersionOk(s, tid, s.slots[tid]);
  }

  lemma SetXmaxLink(s: State, step: Step, l: Link)
    requires Inv(s) && Apply(s, step).Some? && (step.Delete? || step.Lock? || step.MarkUpdate?)
    requires l in s.links
    ensures LinkOk(Apply(s, step).value, l)
  {
    hide VersionOk, PendingOk;
    assert LinkOk(s, l);
  }

  lemma SetXmaxPending(s: State, step: Step, x: Xid)
    requires Inv(s) && Apply(s, step).Some? && (step.Delete? || step.Lock? || step.MarkUpdate?)
    requires x in Apply(s, step).value.pending
    ensures PendingOk(Apply(s, step).value, x, Apply(s, step).value.pending[x])
  {
    hide LinkOk, VersionOk;
    if x in s.pending { assert PendingOk(s, x, s.pending[x]); }
  }

  lemma HintKeeps(s: State, step: Step)
    requires Inv(s) && Apply(s, step).Some? && step.HintXmaxInvalid?
    ensures Inv(Apply(s, step).value)
  {
    var t := Apply(s, step).value;
    forall tid | tid in t.slots ensures VersionOk(t, tid, t.slots[tid]) {
      assert VersionOk(s, tid, s.slots[tid]);
    }
    forall l | l in t.links ensures LinkOk(t, l) {
      assert LinkOk(s, l);
    }
    forall x | x in t.pending ensures PendingOk(t, x, t.pending[x]) {
      assert PendingOk(s, x, s.pending[x]);
    }
  }

  lemma VacuumKeeps(s: State, step: Step)
    requires Inv(s) && Apply(s, step).Some? && step.Vacuum?
    ensures Inv(Apply(s, step).value)
  {
    var t := Apply(s, step).value;
    assert VersionOk(s, step.tid, s.slots[step.tid]);
    forall tid | tid in t.slots ensures VersionOk(t, tid, t.slots[tid]) {
      assert VersionOk(s, tid, s.slots[tid]);
    }
    forall l | l in t.links ensures LinkOk(t, l) {
      assert LinkOk(s, l);
    }
    forall x | x in t.pending ensures PendingOk(t, x, t.pending[x]) {
      assert PendingOk(s, x, s.pending[x]);
    }
  }

  lemma FreezeKeeps(s: State, step: Step)
    requires Inv(s) && Apply(s, step).Some? && step.Freeze?
    ensures Inv(Apply(s, step).value)
  {
    var t := Apply(s, step).value;
    assert VersionOk(s, step.tid, s.slots[step.tid]);
    forall tid | tid in t.slots ensures VersionOk(t, tid, t.slots[tid]) {
      assert VersionOk(s, tid, s.slots[tid]);
    }
    forall l | l in t.links ensures LinkOk(t, l) {
      assert LinkOk(s, l);
    }
    forall x | x in t.pending ensures PendingOk(t, x, t.pending[x]) {
      assert PendingOk(s, x, s.pending[x]);
    }
  }

  lemma LinkedUpdateKeeps(s: State, x: Xid, tid: Tid, to: Tid)
    requires Inv(s) && Is(s, x, InProgress) && tid in s.slots && to !in s.slots
    requires s.slots[tid].xmin == x || Is(s, s.slots[tid].xmin, Committed)
    requires forall y | y in s.pending && y != x :: s.pending[y] != tid
    ensures Inv(LinkedUpdate(s, x, tid, s.slots[tid], to))
  {
    var t := LinkedUpdate(s, x, tid, s.slots[tid], to);
    var made := Link(s.slots[tid].serial, x, to, s.slots[tid].row, |s.made|);
    assert VersionOk(s, tid, s.slots[tid]);
    forall i | i in t.slots ensures VersionOk(t, i, t.slots[i]) {
      if i == tid {
        assert made in t.links && LinkOf(t.slots[tid], made);
      } else if i != to {
        assert VersionOk(s, i, s.slots[i]);
      }
    }
    forall l | l in t.links ensures LinkOk(t, l) {
      if l in s.links {
        assert LinkOk(s, l);
      } else {
        assert l == made;
      }
    }
    forall y | y in t.pending ensures PendingOk(t, y, t.pending[y]) {
      assert PendingOk(s, y, s.pending[y]);
    }
  }

  lemma UpdateKeeps(s: State, step: Step)
    requires Inv(s) && Apply(s, step).Some? && (step.Update? || step.FinishUpdate?)
    ensures Inv(Apply(s, step).value)
  {
    var tid := if step.Update? then step.tid else s.pending[step.x];
    assert VersionOk(s, tid, s.slots[tid]);
    if step.FinishUpdate? { assert PendingOk(s, step.x, tid); }
    forall y | y in s.pending && y != step.x ensures s.pending[y] != tid {
      assert PendingOk(s, y, s.pending[y]);
    }
    LinkedUpdateKeeps(s, step.x, tid, step.to);
  }

  lemma ApplyKeeps(s: State, step: Step)
    requires Inv(s) && Apply(s, step).Some?
    ensures Inv(Apply(s, step).value)
  {
    hide Inv, Apply;
    match step
    case Begin => XactKeeps(s, step);
    case Commit(_) => XactKeeps(s, step);
    case Abort(_) => XactKeeps(s, step);
    case AdvanceHorizon(_) => XactKeeps(s, step);
    case TakeSnapshot => SnapshotKeeps(s);
    case Insert(_, _) => InsertKeeps(s, step);
    case Update(_, _, _) => UpdateKeeps(s, step);
    case FinishUpdate(_, _) => UpdateKeeps(s, step);
    case MarkUpdate(_, _) => SetXmaxKeeps(s, step);
    case Delete(_, _) => SetXmaxKeeps(s, step);
    case Lock(_, _) => SetXmaxKeeps(s, step);
    case HintXmaxInvalid(_) => HintKeeps(s, step);
    case Vacuum(_) => VacuumKeeps(s, step);
    case Freeze(_) => FreezeKeeps(s, step);
  }

  // ---------------------------------------------------------------- what steps do

  /** The transaction that takes a step on a table row, if any. */
  function Actor(step: Step): Option<Xid> {
    match step
    case Insert(x, _) => Some(x)
    case Update(x, _, _) => Some(x)
    case MarkUpdate(x, _) => Some(x)
    case FinishUpdate(x, _) => Some(x)
    case Delete(x, _) => Some(x)
    case Lock(x, _) => Some(x)
    case _ => None
  }

  /** What a running transaction has set on a tuple, a lock, a deletion or a link, stays as
      long as no step of its own changes it: others cannot take the tuple over, clear its
      xmax or remove it. */
  lemma RunningXmaxStays(s: State, step: Step, tid: Tid)
    requires Inv(s) && Apply(s, step).Some? && tid in s.slots && Is(s, s.slots[tid].xmax, InProgress)
    requires !s.slots[tid].xmaxInvalid && Actor(step) != Some(s.slots[tid].xmax)
    ensures var t := Apply(s, step).value;
            && tid in t.slots && t.slots[tid].xmax == s.slots[tid].xmax && !t.slots[tid].xmaxInvalid
            && t.slots[tid].locked == s.slots[tid].locked && t.slots[tid].ctid == s.slots[tid].ctid
  {
    hide LinkOk, AllEnded;
    assert VersionOk(s, tid, s.slots[tid]);
    if step.FinishUpdate? {
      assert PendingOk(s, step.x, s.pending[step.x]);
    }
  }

  /** A tuple is removed only if its inserter has aborted, or it was deleted or replaced by a
      transaction that has committed and that no running transaction is older than. */
  lemma LiveTupleStays(s: State, step: Step, tid: Tid)
    requires Apply(s, step).Some? && tid in s.slots
    requires var v := s.slots[tid];
             && (v.xmin in s.status ==> s.status[v.xmin] != Aborted)
             && (v.xmaxInvalid || v.locked || v.xmax !in s.status || s.status[v.xmax] != Committed
                 || v.xmax >= s.oldestXmin)
    ensures var t := Apply(s, step).value;
            && tid in t.slots && t.slots[tid].row == s.slots[tid].row && t.slots[tid].serial == s.slots[tid].serial
            && (t.slots[tid].xmin == s.slots[tid].xmin
                || (step.Freeze? && t.slots[tid].xmin == 2 && s.slots[tid].xmin < s.oldestXmin))
  {
    hide AllEnded;
  }

  /** What an update does, and when it can be done: by a running transaction, to a tuple that
      is its own or a committed one's, and that nobody has deleted, replaced or locked, unless
      the one who did has aborted, or was a locker that has committed or is the updater. The
      new version goes to a free slot; the old one gets the updater's number and points there. */
  lemma UpdateExactly(s: State, x: Xid, tid: Tid, to: Tid)
    requires x in s.status && s.status[x] == InProgress && x !in s.pending && tid in s.slots && to !in s.slots
    ensures var v, r := s.slots[tid], Apply(s, Update(x, tid, to));
            && (r.Some? <==>
                  && (v.xmin == x || (v.xmin in s.status && s.status[v.xmin] == Committed))
                  && (v.xmaxInvalid || (v.xmax in s.status && s.status[v.xmax] == Aborted)
                      || (v.locked && (v.xmax == x || (v.xmax in s.status && s.status[v.xmax] == Committed)))))
            && (r.Some? ==>
                  var t := r.value;
                  && t.slots.Keys == s.slots.Keys + {to}
                  && t.slots[tid] == v.(xmax := x, xmaxInvalid := false, locked := false, ctid := to)
                  && t.slots[to].xmin == x && t.slots[to].xmaxInvalid && t.slots[to].ctid == to
                  && t.slots[to].row == v.row && t.slots[to].serial == |s.made|
                  && (forall i | i in s.slots && i != tid :: t.slots[i] == s.slots[i])
                  && t.status == s.status && t.made == s.made + [x])
  {
  }

  /** Deleting and locking are possible in the same cases, and change that tuple only; a
      deleted tuple points to itself. An update in two steps comes to the same as one. */
  lemma DeleteAndLockExactly(s: State, x: Xid, tid: Tid, to: Tid)
    requires x in s.status && s.status[x] == InProgress && x !in s.pending && tid in s.slots && to !in s.slots
    ensures var v, can := s.slots[tid], Apply(s, Update(x, tid, to)).Some?;
            && Apply(s, Delete(x, tid)) ==
               (if can then
                  Some(s.(slots := s.slots[tid := v.(xmax := x, xmaxInvalid := false, locked := false, ctid := tid)]))
                else None)
            && Apply(s, Lock(x, tid)) ==
               (if can then
                  Some(s.(slots := s.slots[tid := v.(xmax := x, xmaxInvalid := false, locked := true, ctid := tid)]))
                else None)
            && (Apply(s, MarkUpdate(x, tid)).Some? <==> can)
            && (can ==> Apply(Apply(s, MarkUpdate(x, tid)).value, FinishUpdate(x, to)) == Apply(s, Update(x, tid, to)))
  {
    if Apply(s, Update(x, tid, to)).Some? {
      var a, b := Apply(Apply(s, MarkUpdate(x, tid)).value, FinishUpdate(x, to)), Apply(s, Update(x, tid, to));
      assert a.value.slots == b.value.slots;
      assert a.value.pending == b.value.pending;
    }
  }

  // ---------------------------------------------------------------- following links

  lemma {:induction false} RunKeeps(s: State, steps: seq<Step>)
    requires Inv(s) && Run(s, steps).Some?
    ensures Inv(Run(s, steps).value)
    decreases |steps|
  {
    hide Inv, Apply;
    if steps != [] {
      ApplyKeeps(s, steps[0]);
      RunKeeps(Apply(s, steps[0]).value, steps[1..]);
    }
  }

  lemma {:induction false} LinksStay(s: State, steps: seq<Step>)
    requires Run(s, steps).Some?
    ensures s.links <= Run(s, steps).value.links
    decreases |steps|
  {
    if steps != [] {
      LinksStay(Apply(s, steps[0]).value, steps[1..]);
    }
  }

  /** The test that is to be made before a link is followed. */
  predicate CheckFails(t: State, v: Version) {
    !(v.ctid in t.slots && t.slots[v.ctid].xmin == v.xmax)
  }

  /** What a reader gets from a tuple that it read, looking at the link's target at any
      later time: if the target's xmin is the xmax it has read, then the target is the
      very version that replaced the tuple. It is never an unrelated tuple in a reused
      slot, whatever has been inserted, updated, removed or frozen in between. */
  lemma AcceptedTargetIsSuccessor(before: seq<Step>, meanwhile: seq<Step>, tid: Tid)
    requires Run(INITIAL, before).Some? && Run(Run(INITIAL, before).value, meanwhile).Some?
    requires var s := Run(INITIAL, before).value; tid in s.slots && Forward(tid, s.slots[tid])
    ensures var v := Run(INITIAL, before).value.slots[tid];
            var t := Run(Run(INITIAL, before).value, meanwhile).value;
            !CheckFails(t, v) ==>
              && t.slots[v.ctid].row == v.row && t.slots[v.ctid].serial > v.serial
              && exists l :: l in t.links && LinkOf(v, l) && Holds(t, l)
  {
    hide Inv, Run;
    var s := Run(INITIAL, before).value;
    InitialInv();
    RunKeeps(INITIAL, before);
    RunKeeps(s, meanwhile);
    LinksStay(s, meanwhile);
    LinkExists(s, tid);
    var v := s.slots[tid];
    var l :| l in s.links && LinkOf(v, l);
    LinkIsOk(Run(s, meanwhile).value, l);
  }

  lemma LinkExists(s: State, tid: Tid)
    requires Inv(s) && tid in s.slots && Forward(tid, s.slots[tid])
    ensures exists l :: l in s.links && LinkOf(s.slots[tid], l)
  {
    assert VersionOk(s, tid, s.slots[tid]);
  }

  lemma LinkIsOk(s: State, l: Link)
    requires Inv(s) && l in s.links
    ensures LinkOk(s, l)
  {
  }

  /** The other direction, for a reader whose snapshot does not have the updating
      transaction as committed: the test fails only if that transaction has aborted. */
  lemma RejectedTargetWasAborted(before: seq<Step>, meanwhile: seq<Step>, tid: Tid)
    requires Run(INITIAL, before).Some? && Run(Run(INITIAL, before).value, meanwhile).Some?
    requires var s := Run(INITIAL, before).value; tid in s.slots && Forward(tid, s.slots[tid])
    requires var x, t := Run(INITIAL, before).value.slots[tid].xmax, Run(Run(INITIAL, before).value, meanwhile).value;
             t.snap.Some? && !SnapCommitted(t, x)
    ensures var v := Run(INITIAL, before).value.slots[tid];
            var t := Run(Run(INITIAL, before).value, meanwhile).value;
            CheckFails(t, v) ==> Is(t, v.xmax, Aborted)
  {
    hide Inv, Run;
    var s := Run(INITIAL, before).value;
    InitialInv();
    RunKeeps(INITIAL, before);
    RunKeeps(s, meanwhile);
    LinksStay(s, meanwhile);
    LinkExists(s, tid);
    var l :| l in s.links && LinkOf(s.slots[tid], l);
    LinkIsOk(Run(s, meanwhile).value, l);
  }

  // ---------------------------------------------------------------- heap_get_latest_tid

  /** The later state is one that the table can come to from the earlier one. */
  ghost predicate Later(s: State, t: State) {
    exists steps :: Run(s, steps) == Some(t)
  }

  /** What a reader sees that looks at the table again and again. */
  ghost predicate Sights(tables: seq<State>) {
    tables != [] && Later(INITIAL, tables[0]) && forall i | 0 < i < |tables| :: Later(tables[i - 1], tables[i])
  }

  /** They may be any states of a run, one after the other. */
  lemma RunsAreSights(before: seq<Step>, meanwhile: seq<Step>)
    requires Run(INITIAL, before).Some? && Run(Run(INITIAL, before).value, meanwhile).Some?
    ensures Sights([Run(INITIAL, before).value, Run(Run(INITIAL, before).value, meanwhile).value])
  {
    hide Run;
    var s := Run(INITIAL, before).value;
    assert Later(INITIAL, s);
    assert Later(s, Run(s, meanwhile).value);
  }

  lemma {:induction false} SightsOk(tables: seq<State>, i: nat)
    requires Sights(tables) && i < |tables|
    ensures Inv(tables[i]) && (i > 0 ==> tables[i - 1].links <= tables[i].links)
    decreases i
  {
    hide Inv, Run;
    var s := if i > 0 then tables[i - 1] else INITIAL;
    if i > 0 {
      SightsOk(tables, i - 1);
    } else {
      InitialInv();
    }
    assert Later(s, tables[i]);
    var steps :| Run(s, steps) == Some(tables[i]);
    RunKeeps(s, steps);
    LinksStay(s, steps);
  }

  /** The tuple at `tid` is the one looked for. */
  predicate Accepted(s: State, tid: Tid, priorXmax: Xid) {
    tid in s.slots && (priorXmax == 0 || s.slots[tid].xmin == priorXmax)
  }

  lemma FollowsForward(s: State, t: State, tid: Tid)
    requires Inv(s) && Inv(t) && s.links <= t.links && tid in s.slots && Forward(tid, s.slots[tid])
    requires Accepted(t, s.slots[tid].ctid, s.slots[tid].xmax)
    ensures var v, w := s.slots[tid], t.slots[s.slots[tid].ctid];
            w.row == v.row && v.serial < w.serial < |t.made|
            && exists l :: l in t.links && LinkOf(v, l) && l.serial == w.serial
  {
    SerialBound(s, tid);
    LinkExists(s, tid);
    var l :| l in s.links && LinkOf(s.slots[tid], l);
    LinkIsOk(t, l);
  }

  lemma SerialBound(s: State, tid: Tid)
    requires Inv(s) && tid in s.slots
    ensures s.slots[tid].serial < |s.made| && (!s.slots[tid].xmaxInvalid ==> s.slots[tid].xmax > 0)
  {
    assert VersionOk(s, tid, s.slots[tid]);
  }

  /** A tuple that the loop has looked at. */
  datatype Seen = Seen(tid: Tid, version: Version)

  /** The sight after the i-th; the table is as in the last one from then on. */
  function After(tables: seq<State>, i: nat): nat
    requires i < |tables|
  {
    if i + 1 < |tables| then i + 1 else i
  }

  /** What remains to be looked at in a table that no longer changes. */
  function Ahead(s: State, tid: Tid, priorXmax: Xid): int {
    if Accepted(s, tid, priorXmax) then |s.made| - s.slots[tid].serial else 0
  }

  lemma AheadFalls(tables: seq<State>, i: nat, tid: Tid, priorXmax: Xid)
    requires Sights(tables) && i < |tables| && Accepted(tables[i], tid, priorXmax) && Forward(tid, tables[i].slots[tid])
    ensures var v, k := tables[i].slots[tid], After(tables, i);
            0 < v.xmax && i <= k < |tables|
            && 0 < Ahead(tables[i], tid, priorXmax) && 0 <= Ahead(tables[k], v.ctid, v.xmax)
            && (k == i ==> Ahead(tables[k], v.ctid, v.xmax) < Ahead(tables[i], tid, priorXmax))
  {
    hide Inv, Sights;
    var v, k := tables[i].slots[tid], After(tables, i);
    SightsOk(tables, i);
    SightsOk(tables, k);
    SerialBound(tables[i], tid);
    if Accepted(tables[k], v.ctid, v.xmax) {
      FollowsForward(tables[i], tables[k], tid);
    }
  }

  /** The versions that are found by following links from `tid`, each in its own sight. */
  ghost function Walk(tables: seq<State>, i: nat, tid: Tid, priorXmax: Xid): seq<Seen>
    requires Sights(tables) && i < |tables|
    decreases |tables| - i, Ahead(tables[i], tid, priorXmax)
  {
    hide Sights;
    if !Accepted(tables[i], tid, priorXmax) then []
    else
      var v := tables[i].slots[tid];
      if !Forward(tid, v) then [Seen(tid, v)]
      else
        AheadFalls(tables, i, tid, priorXmax);
        [Seen(tid, v)] + Walk(tables, After(tables, i), v.ctid, v.xmax)
  }

  lemma WalkStep(tables: seq<State>, i: nat, tid: Tid, priorXmax: Xid)
    requires Sights(tables) && i < |tables|
    ensures var s, w := tables[i], Walk(tables, i, tid, priorXmax);
            if !Accepted(s, tid, priorXmax) then w == []
            else
              w == [Seen(tid, s.slots[tid])]
                   + if Forward(tid, s.slots[tid])
                     then Walk(tables, After(tables, i), s.slots[tid].ctid, s.slots[tid].xmax) else []
  {
    hide Sights, Ahead;
  }

  /** `b` is the version that replaced `a`, as one of the tables has it on record. */
  ghost predicate Replaces(tables: seq<State>, a: Seen, b: Seen) {
    && b.tid == a.version.ctid && b.version.xmin == a.version.xmax
    && b.version.row == a.version.row && b.version.serial > a.version.serial
    && exists t, l :: t in tables && l in t.links && LinkOf(a.version, l) && l.serial == b.version.serial
  }

  lemma FollowedReplaces(tables: seq<State>, i: nat, tid: Tid)
    requires Sights(tables) && i < |tables| && tid in tables[i].slots && Forward(tid, tables[i].slots[tid])
    requires var v := tables[i].slots[tid]; Accepted(tables[After(tables, i)], v.ctid, v.xmax)
    ensures var v, t := tables[i].slots[tid], tables[After(tables, i)];
            Replaces(tables, Seen(tid, v), Seen(v.ctid, t.slots[v.ctid]))
  {
    hide Inv, Sights;
    var t := tables[After(tables, i)];
    SightsOk(tables, i);
    SightsOk(tables, After(tables, i));
    SerialBound(tables[i], tid);
    FollowsForward(tables[i], t, tid);
    assert t in tables;
  }

  lemma {:induction false} WalkReplaces(tables: seq<State>, i: nat, tid: Tid, priorXmax: Xid)
    requires Sights(tables) && i < |tables|
    ensures var w := Walk(tables, i, tid, priorXmax);
            && (if Accepted(tables[i], tid, priorXmax)
                then w != [] && w[0] == Seen(tid, tables[i].slots[tid]) else w == [])
            && forall k | 0 < k < |w| :: Replaces(tables, w[k - 1], w[k])
    decreases |tables| - i, Ahead(tables[i], tid, priorXmax)
  {
    hide Sights, Replaces, Walk;
    WalkStep(tables, i, tid, priorXmax);
    var w := Walk(tables, i, tid, priorXmax);
    if Accepted(tables[i], tid, priorXmax) && Forward(tid, tables[i].slots[tid]) {
      var v, j := tables[i].slots[tid], After(tables, i);
      AheadFalls(tables, i, tid, priorXmax);
      WalkReplaces(tables, j, v.ctid, v.xmax);
      var rest := Walk(tables, j, v.ctid, v.xmax);
      if rest != [] {
        FollowedReplaces(tables, i, tid);
      }
      forall k | 0 < k < |w| ensures Replaces(tables, w[k - 1], w[k]) {
        if k > 1 { assert w[k] == rest[k - 1] && w[k - 1] == rest[k - 2]; }
      }
    }
  }

  /** However the table changes meanwhile, each version found is the one that replaced the
      version before it, as one of the tables has it on record; so all belong to one row. */
  lemma WalkIsOneRow(tables: seq<State>, i: nat, tid: Tid, priorXmax: Xid, k: nat)
    requires Sights(tables) && i < |tables| && 0 < k < |Walk(tables, i, tid, priorXmax)|
    ensures var w := Walk(tables, i, tid, priorXmax);
            var a, b := w[k - 1], w[k];
            && b.tid == a.version.ctid && b.version.xmin == a.version.xmax
            && b.version.row == a.version.row && b.version.serial > a.version.serial
            && exists t, l :: t in tables && l in t.links && l.source == a.version.serial && l.tid == b.tid
                              && l.xmax == a.version.xmax && l.serial == b.version.serial
  {
    hide Sights, Walk;
    WalkReplaces(tables, i, tid, priorXmax);
    var w := Walk(tables, i, tid, priorXmax);
    assert Replaces(tables, w[k - 1], w[k]);
  }

  /** The walk goes on as long as there is a link and the version it leads to is accepted,
      and no longer: each version is what the slot holds at that time, and behind the last
      one there is no link, or nothing at its end, or a version of another inserter. */
  lemma {:induction false} WalkTakesEveryLink(tables: seq<State>, i: nat, tid: Tid, priorXmax: Xid)
    requires Sights(tables) && i < |tables|
    ensures var w := Walk(tables, i, tid, priorXmax);
            && (w == [] <==> !(tid in tables[i].slots && (priorXmax == 0 || tables[i].slots[tid].xmin == priorXmax)))
            && (w != [] ==> w[0].tid == tid)
            && (forall k | 0 <= k < |w| ::
                  var s := tables[if i + k < |tables| then i + k else |tables| - 1];
                  w[k].tid in s.slots && w[k].version == s.slots[w[k].tid])
            && (forall k | 0 <= k < |w| - 1 ::
                  var v := w[k].version;
                  !v.xmaxInvalid && !v.locked && v.ctid != w[k].tid
                  && w[k + 1].tid == v.ctid && w[k + 1].version.xmin == v.xmax)
            && (w != [] ==>
                  var k := |w| - 1;
                  var v, s := w[k].version, tables[if i + k + 1 < |tables| then i + k + 1 else |tables| - 1];
                  v.xmaxInvalid || v.locked || v.ctid == w[k].tid
                  || v.ctid !in s.slots || s.slots[v.ctid].xmin != v.xmax)
    decreases |tables| - i, Ahead(tables[i], tid, priorXmax)
  {
    hide Sights, Ahead;
    var w := Walk(tables, i, tid, priorXmax);
    if Accepted(tables[i], tid, priorXmax) && Forward(tid, tables[i].slots[tid]) {
      var v, j := tables[i].slots[tid], After(tables, i);
      AheadFalls(tables, i, tid, priorXmax);
      WalkTakesEveryLink(tables, j, v.ctid, v.xmax);
      var rest := Walk(tables, j, v.ctid, v.xmax);
      assert w == [Seen(tid, v)] + rest;
      assert forall k | 0 < k < |w| :: w[k] == rest[k - 1];
      forall k | 0 <= k < |w| - 1
        ensures !w[k].version.xmaxInvalid && !w[k].version.locked && w[k].version.ctid != w[k].tid
                && w[k + 1].tid == w[k].version.ctid && w[k + 1].version.xmin == w[k].version.xmax
      {
        if k > 0 {
          assert w[k] == rest[k - 1] && w[k + 1] == rest[k];
        } else {
          assert w[1] == rest[0];
        }
      }
    }
  }

  /** `tid` is where the last visible one of the versions is, or `start` if none is visible. */
  ghost predicate IsLatest(w: seq<Seen>, visible: Version -> bool, start: Tid, tid: Tid) {
    if forall k :: 0 <= k < |w| ==> !visible(w[k].version) then tid == start
    else exists k :: 0 <= k < |w| && tid == w[k].tid && visible(w[k].version)
                     && forall j :: k < j < |w| ==> !visible(w[j].version)
  }

  lemma LatestStep(w: seq<Seen>, visible: Version -> bool, start: Tid, tid: Tid, x: Seen)
    requires IsLatest(w, visible, start, tid)
    ensures IsLatest(w + [x], visible, start, if visible(x.version) then x.tid else tid)
  {
    var w' := w + [x];
    assert w'[|w|] == x && forall k | 0 <= k < |w| :: w'[k] == w[k];
    if !visible(x.version) && exists k :: 0 <= k < |w| && visible(w[k].version) {
      var k :| 0 <= k < |w| && tid == w[k].tid && visible(w[k].version)
               && forall j :: k < j < |w| ==> !visible(w[j].version);
      assert visible(w'[k].version);
    }
  }

  /** heap_get_latest_tid: the loop looks at one table after the other, as others change
      the table between its steps. When they are through, it ends. It returns the place of
      the last visible version that it finds, or the one it was given. */
  method GetLatestTid(tables: seq<State>, start: Tid, visible: Version -> bool) returns (tid: Tid)
    requires tables != [] && Sights(tables)
    ensures var w := Walk(tables, 0, start, 0);
            if forall k :: 0 <= k < |w| ==> !visible(w[k].version) then tid == start
            else exists k :: 0 <= k < |w| && tid == w[k].tid && visible(w[k].version)
                             && forall j :: k < j < |w| ==> !visible(w[j].version)
  {
    hide Inv, Sights, IsLatest, Ahead, Walk, After;
    tid := start;
    var i, ctid, priorXmax := 0, start, 0;
    ghost var path: seq<Seen> := [];
    NoneYet(visible, start);
    while true
      invariant i < |tables|
      invariant Walk(tables, 0, start, 0) == path + Walk(tables, i, ctid, priorXmax)
      invariant IsLatest(path, visible, start, tid)
      decreases |tables| - i, Ahead(tables[i], ctid, priorXmax)
    {
      WalkStep(tables, i, ctid, priorXmax);
      if ctid !in tables[i].slots {
        break;
      }
      var tp := tables[i].slots[ctid];
      if priorXmax != 0 && priorXmax != tp.xmin {
        break;
      }
      LatestStep(path, visible, start, tid, Seen(ctid, tp));
      path := path + [Seen(ctid, tp)];
      if visible(tp) {
        tid := ctid;
      }
      if tp.xmaxInvalid || tp.locked || ctid == tp.ctid {
        break;
      }
      AheadFalls(tables, i, ctid, priorXmax);
      i := After(tables, i);
      ctid := tp.ctid;
      priorXmax := tp.xmax;
    }
    assert Walk(tables, 0, start, 0) == path;
    LatestMeans(path, visible, start, tid);
  }

  lemma NoneYet(visible: Version -> bool, start: Tid)
    ensures IsLatest([], visible, start, start)
  {
  }

  lemma LatestMeans(w: seq<Seen>, visible: Version -> bool, start: Tid, tid: Tid)
    requires IsLatest(w, visible, start, tid)
    ensures if forall k :: 0 <= k < |w| ==> !visible(w[k].version) then tid == start
            else exists k :: 0 <= k < |w| && tid == w[k].tid && visible(w[k].version)
                             && forall j :: k < j < |w| ==> !visible(w[j].version)
  {
  }
}
