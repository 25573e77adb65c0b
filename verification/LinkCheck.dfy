/** What may be concluded when the check of a t_ctid link fails (htup.h): whether a live
    version can still be descended from the tuple whose link was followed. */
module LinkCheck {
  import opened UpdateChain
  import opened Wrappers

  // ---------------------------------------------------------------- descent

  /** `p` is a chain of updates that leads from version `a` to version `b`. */
  predicate Path(links: set<Link>, a: nat, p: seq<Link>, b: nat)
    decreases |p|
  {
    if p == [] then a == b
    else p[0] in links && p[0].source == a && Path(links, p[0].serial, p[1..], b)
  }

  ghost predicate Descends(links: set<Link>, a: nat, b: nat) {
    exists p :: p != [] && Path(links, a, p, b)
  }

  /** Inserted by a transaction that has committed, and not deleted or replaced by one. */
  predicate Live(s: State, v: Version) {
    Is(s, v.xmin, Committed) && (v.xmaxInvalid || v.locked || !Is(s, v.xmax, Committed))
  }

  ghost predicate LiveDescendant(s: State, v: Version, tid: Tid) {
    tid in s.slots && Live(s, s.slots[tid]) && Descends(s.links, v.serial, s.slots[tid].serial)
  }

  // ---------------------------------------------------------------- the history of versions

  /** The tuple is one that `x` has updated or deleted. */
  predicate Carries(v: Version, x: Xid) {
    v.xmax == x && !v.xmaxInvalid && !v.locked
  }

  predicate MadeOk(s: State, v: Version) {
    v.serial < |s.made| && (v.xmin == s.made[v.serial] || (v.xmin == FROZEN && Is(s, s.made[v.serial], Committed)))
  }

  /** Of the updates of one version, at most the last one has not aborted, and as long as
      the replaced tuple exists it carries that one's number. */
  ghost predicate SourceOk(s: State, l: Link) {
    forall tid | tid in s.slots && s.slots[tid].serial == l.source ::
      Is(s, l.xmax, Aborted) || Carries(s.slots[tid], l.xmax)
  }

  ghost predicate LinkHistory(s: State, l: Link) {
    && l.source < l.serial < |s.made| && s.made[l.serial] == l.xmax && l.xmax in s.status
    && (l.xmax == s.made[l.source] || Is(s, s.made[l.source], Committed))
    && SourceOk(s, l)
  }

  ghost predicate History(s: State) {
    && (forall a, b | a in s.slots && b in s.slots && s.slots[a].serial == s.slots[b].serial :: a == b)
    && (forall tid | tid in s.slots :: MadeOk(s, s.slots[tid]))
    && (forall l | l in s.links :: LinkHistory(s, l))
  }

  lemma InitialHistory()
    ensures History(INITIAL)
  {
  }

  /** Every step but an insertion or an update leaves the versions where they are. */
  predicate AddsVersion(step: Step) {
    step.Insert? || step.Update? || step.FinishUpdate?
  }

  lemma OldLinkKeeps(s: State, step: Step, l: Link)
    requires Inv(s) && History(s) && Apply(s, step).Some? && l in s.links && !AddsVersion(step)
    ensures LinkHistory(Apply(s, step).value, l)
  {
    hide Inv;
    var t := Apply(s, step).value;
    assert LinkHistory(s, l);
    forall tid | tid in t.slots && t.slots[tid].serial == l.source
      ensures Is(t, l.xmax, Aborted) || Carries(t.slots[tid], l.xmax)
    {
      assert s.slots[tid].serial == l.source;
      if step.Begin? { NextXidIsNew(s, l.xmax); }
    }
    if step.Begin? { NextXidIsNew(s, s.made[l.source]); }
  }

  lemma NextXidIsNew(s: State, x: Xid)
    requires Inv(s)
    ensures x in s.status ==> x != s.nextXid
  {
  }

  lemma OldVersionKeeps(s: State, step: Step, tid: Tid)
    requires Inv(s) && History(s) && Apply(s, step).Some? && !AddsVersion(step) && tid in Apply(s, step).value.slots
    ensures var t := Apply(s, step).value;
            tid in s.slots && t.slots[tid].serial == s.slots[tid].serial && MadeOk(t, t.slots[tid])
  {
    hide Inv, LinkHistory;
    var v := s.slots[tid];
    assert MadeOk(s, v);
    if step.Begin? { NextXidIsNew(s, s.made[v.serial]); }
  }

  lemma KeepsWithoutNewVersion(s: State, step: Step)
    requires Inv(s) && History(s) && Apply(s, step).Some? && !AddsVersion(step)
    ensures History(Apply(s, step).value)
  {
    hide Inv, LinkHistory, Apply, MadeOk;
    var t := Apply(s, step).value;
    SameLinks(s, step);
    forall l | l in t.links ensures LinkHistory(t, l) {
      OldLinkKeeps(s, step, l);
    }
    forall tid | tid in t.slots
      ensures tid in s.slots && t.slots[tid].serial == s.slots[tid].serial && MadeOk(t, t.slots[tid])
    {
      OldVersionKeeps(s, step, tid);
    }
  }

  lemma SameLinks(s: State, step: Step)
    requires Apply(s, step).Some? && !AddsVersion(step)
    ensures Apply(s, step).value.links == s.links
  {
  }

  lemma InsertKeepsHistory(s: State, step: Step)
    requires Inv(s) && History(s) && Apply(s, step).Some? && step.Insert?
    ensures History(Apply(s, step).value)
  {
    hide Inv;
    var t := Apply(s, step).value;
    forall tid | tid in t.slots ensures MadeOk(t, t.slots[tid]) {
      if tid != step.tid { assert MadeOk(s, s.slots[tid]); }
    }
    forall l | l in t.links ensures LinkHistory(t, l) {
      assert LinkHistory(s, l);
    }
  }

  /** The tuple may be updated, or the transaction has marked it already. */
  lemma UpdateKeepsHistory(s: State, x: Xid, tid: Tid, to: Tid)
    requires History(s) && Is(s, x, InProgress) && tid in s.slots && to !in s.slots
    requires s.slots[tid].xmin == x || Is(s, s.slots[tid].xmin, Committed)
    requires MayBeUpdated(s, x, s.slots[tid]) || Carries(s.slots[tid], x)
    ensures History(LinkedUpdate(s, x, tid, s.slots[tid], to))
  {
    hide MayBeUpdated, LinkHistory;
    var t := LinkedUpdate(s, x, tid, s.slots[tid], to);
    forall i | i in t.slots ensures MadeOk(t, t.slots[i]) {
      if i != to { assert MadeOk(s, s.slots[i]); }
    }
    forall a, b | a in t.slots && b in t.slots && t.slots[a].serial == t.slots[b].serial ensures a == b {
      if a != to { assert MadeOk(s, s.slots[a]); }
      if b != to { assert MadeOk(s, s.slots[b]); }
    }
    forall l | l in t.links ensures LinkHistory(t, l) {
      if l in s.links {
        UpdateKeepsLink(s, x, tid, to, l);
      } else {
        UpdateMakesLink(s, x, tid, to);
      }
    }
  }

  lemma UpdateKeepsLink(s: State, x: Xid, tid: Tid, to: Tid, l: Link)
    requires History(s) && Is(s, x, InProgress) && tid in s.slots && to !in s.slots && l in s.links
    requires MayBeUpdated(s, x, s.slots[tid]) || Carries(s.slots[tid], x)
    ensures LinkHistory(LinkedUpdate(s, x, tid, s.slots[tid], to), l)
  {
    var t := LinkedUpdate(s, x, tid, s.slots[tid], to);
    assert LinkHistory(s, l);
    forall i | i in t.slots && t.slots[i].serial == l.source
      ensures Is(t, l.xmax, Aborted) || Carries(t.slots[i], l.xmax)
    {
      assert i != to;
      assert s.slots[i].serial == l.source;
    }
  }

  lemma UpdateMakesLink(s: State, x: Xid, tid: Tid, to: Tid)
    requires History(s) && Is(s, x, InProgress) && tid in s.slots && to !in s.slots
    requires s.slots[tid].xmin == x || Is(s, s.slots[tid].xmin, Committed)
    ensures LinkHistory(LinkedUpdate(s, x, tid, s.slots[tid], to),
                        Link(s.slots[tid].serial, x, to, s.slots[tid].row, |s.made|))
  {
    var t := LinkedUpdate(s, x, tid, s.slots[tid], to);
    var l := Link(s.slots[tid].serial, x, to, s.slots[tid].row, |s.made|);
    assert MadeOk(s, s.slots[tid]);
    assert LinkHistory(t, l) by {
      forall i | i in t.slots && t.slots[i].serial == l.source ensures Carries(t.slots[i], x) {
        assert i != to;
        assert i == tid;
      }
    }
  }

  lemma ApplyKeepsHistory(s: State, step: Step)
    requires Inv(s) && History(s) && Apply(s, step).Some?
    ensures History(Apply(s, step).value)
  {
    hide History;
    if step.Insert? {
      InsertKeepsHistory(s, step);
    } else if step.Update? {
      UpdateKeepsHistory(s, step.x, step.tid, step.to);
    } else if step.FinishUpdate? {
      assert PendingOk(s, step.x, s.pending[step.x]);
      assert VersionOk(s, s.pending[step.x], s.slots[s.pending[step.x]]);
      UpdateKeepsHistory(s, step.x, s.pending[step.x], step.to);
    } else {
      KeepsWithoutNewVersion(s, step);
    }
  }

  lemma {:induction false} RunKeepsHistory(s: State, steps: seq<Step>)
    requires Inv(s) && History(s) && Run(s, steps).Some?
    ensures History(Run(s, steps).value) && s.made <= Run(s, steps).value.made
    decreases |steps|
  {
    hide Inv, History;
    if steps != [] {
      ApplyKeeps(s, steps[0]);
      ApplyKeepsHistory(s, steps[0]);
      MadeGrows(s, steps[0]);
      RunKeepsHistory(Apply(s, steps[0]).value, steps[1..]);
    }
  }

  lemma MadeGrows(s: State, step: Step)
    requires Apply(s, step).Some?
    ensures s.made <= Apply(s, step).value.made
  {
  }

  // ---------------------------------------------------------------- what a failed check means

  /** A chain of updates that begins with one that has aborted does not go on with one that
      has not: only the same transaction could replace what it had made. */
  lemma {:induction false} AbortedPath(s: State, a: nat, p: seq<Link>, b: nat)
    requires History(s) && p != [] && Path(s.links, a, p, b) && Is(s, p[0].xmax, Aborted)
    ensures b < |s.made| && Is(s, s.made[b], Aborted)
    decreases |p|
  {
    assert LinkHistory(s, p[0]);
    if p[1..] == [] {
    } else {
      assert LinkHistory(s, p[1]);
      AbortedPath(s, p[0].serial, p[1..], b);
    }
  }

  /** If every update of the version `a` has aborted, so has every transaction that made a
      version descended from it. */
  lemma DescendantsAborted(s: State, a: nat, tid: Tid)
    requires Inv(s) && History(s) && tid in s.slots && Descends(s.links, a, s.slots[tid].serial)
    requires forall l | l in s.links && l.source == a :: Is(s, l.xmax, Aborted)
    ensures Is(s, s.slots[tid].xmin, Aborted)
  {
    var p :| p != [] && Path(s.links, a, p, s.slots[tid].serial);
    AbortedPath(s, a, p, s.slots[tid].serial);
    assert MadeOk(s, s.slots[tid]);
  }

  lemma RunInvariants(steps: seq<Step>)
    requires Run(INITIAL, steps).Some?
    ensures Inv(Run(INITIAL, steps).value) && History(Run(INITIAL, steps).value)
  {
    hide Inv, History, Run;
    InitialInv();
    InitialHistory();
    RunKeeps(INITIAL, steps);
    RunKeepsHistory(INITIAL, steps);
  }

  /** The comment's claim, for a reader whose snapshot does not have the updating
      transaction as committed and who finds the tuple as it was: when the check fails,
      there is no descendant but those made by transactions that have aborted. */
  lemma FailedCheckExcludesDescendants(before: seq<Step>, meanwhile: seq<Step>, tid: Tid, other: Tid)
    requires Run(INITIAL, before).Some? && Run(Run(INITIAL, before).value, meanwhile).Some?
    requires var s := Run(INITIAL, before).value; tid in s.slots && Forward(tid, s.slots[tid])
    requires var v, t := Run(INITIAL, before).value.slots[tid], Run(Run(INITIAL, before).value, meanwhile).value;
             && t.snap.Some? && !SnapCommitted(t, v.xmax) && CheckFails(t, v)
             && tid in t.slots && t.slots[tid].serial == v.serial && t.slots[tid].xmax == v.xmax
             && other in t.slots && Descends(t.links, v.serial, t.slots[other].serial)
    ensures var t := Run(Run(INITIAL, before).value, meanwhile).value; Is(t, t.slots[other].xmin, Aborted)
  {
    hide Run, Inv, Descends;
    var s := Run(INITIAL, before).value;
    var v, t := s.slots[tid], Run(s, meanwhile).value;
    RunInvariants(before);
    RunKeeps(s, meanwhile);
    RunKeepsHistory(s, meanwhile);
    RejectedTargetWasAborted(before, meanwhile, tid);
    forall l | l in t.links && l.source == v.serial ensures Is(t, l.xmax, Aborted) {
      assert LinkHistory(t, l);
    }
    DescendantsAborted(t, v.serial, other);
  }

  // ---------------------------------------------------------------- when the claim holds

  predicate KeepsSnapshot(steps: seq<Step>) {
    TakeSnapshot !in steps
  }

  /** After `meanwhile` the check fails, and yet a live version is descended from the tuple. */
  ghost predicate Misleads(s: State, tid: Tid, meanwhile: seq<Step>)
    requires tid in s.slots
  {
    var r := Run(s, meanwhile);
    r.Some? && CheckFails(r.value, s.slots[tid]) && exists other :: LiveDescendant(r.value, s.slots[tid], other)
  }

  lemma StepKeepsEnded(s: State, step: Step, x: Xid)
    requires Inv(s) && Apply(s, step).Some?
    ensures var t := Apply(s, step).value;
            (Is(s, x, Committed) ==> Is(t, x, Committed)) && (!step.TakeSnapshot? ==> t.snap == s.snap)
  {
    hide Inv;
    NextXidIsNew(s, x);
  }

  lemma {:induction false} EndedStays(s: State, steps: seq<Step>, x: Xid)
    requires Inv(s) && Run(s, steps).Some?
    ensures var t := Run(s, steps).value;
            && (Is(s, x, Committed) ==> Is(t, x, Committed)) && (KeepsSnapshot(steps) ==> t.snap == s.snap)
    decreases |steps|
  {
    hide Inv, Apply;
    if steps != [] {
      ApplyKeeps(s, steps[0]);
      StepKeepsEnded(s, steps[0], x);
      EndedStays(Apply(s, steps[0]).value, steps[1..], x);
    }
  }

  lemma TupleOk(s: State, tid: Tid)
    requires Inv(s) && History(s) && tid in s.slots && Forward(tid, s.slots[tid])
    ensures var v := s.slots[tid];
            && v.serial < |s.made| && v.xmax in s.status && v.xmax != FROZEN
            && (v.xmin == v.xmax || Is(s, v.xmin, Committed)) && (v.xmin == v.xmax ==> s.made[v.serial] == v.xmax)
  {
    assert VersionOk(s, tid, s.slots[tid]);
    assert MadeOk(s, s.slots[tid]);
  }

  /** The check misleads nobody who has seen the updating transaction commit after the
      snapshot was taken, nor about a tuple whose inserter has itself updated it. */
  lemma NotMisled(before: seq<Step>, meanwhile: seq<Step>, tid: Tid)
    requires Run(INITIAL, before).Some? && KeepsSnapshot(meanwhile)
    requires var s := Run(INITIAL, before).value;
             && tid in s.slots && Forward(tid, s.slots[tid]) && s.snap.Some? && !SnapCommitted(s, s.slots[tid].xmax)
             && (Is(s, s.slots[tid].xmax, Committed) || s.slots[tid].xmin == s.slots[tid].xmax)
    ensures !Misleads(Run(INITIAL, before).value, tid, meanwhile)
  {
    hide Run, Inv, History, Descends;
    var s := Run(INITIAL, before).value;
    var v := s.slots[tid];
    RunInvariants(before);
    if Misleads(s, tid, meanwhile) {
      var t := Run(s, meanwhile).value;
      RunKeeps(s, meanwhile);
      RunKeepsHistory(s, meanwhile);
      EndedStays(s, meanwhile, v.xmax);
      RejectedTargetWasAborted(before, meanwhile, tid);
      var other :| LiveDescendant(t, v, other);
      TupleOk(s, tid);
      forall l | l in t.links && l.source == v.serial ensures Is(t, l.xmax, Aborted) {
        LinkHistoryOf(t, l);
      }
      DescendantsAborted(t, v.serial, other);
    }
  }

  lemma LinkHistoryOf(s: State, l: Link)
    requires History(s) && l in s.links
    ensures l.source < |s.made| && (l.xmax == s.made[l.source] || Is(s, s.made[l.source], Committed))
  {
    assert LinkHistory(s, l);
  }

  lemma {:induction false} RunConcat(s: State, a: seq<Step>, b: seq<Step>)
    requires Run(s, a).Some?
    ensures Run(s, a + b) == Run(Run(s, a).value, b)
    decreases |a|
  {
    hide Apply;
    if a == [] {
      assert a + b == b;
    } else {
      assert (a + b)[1..] == a[1..] + b;
      RunConcat(Apply(s, a[0]).value, a[1..], b);
    }
  }

  lemma RunOne(s: State, step: Step)
    ensures Run(s, [step]) == Apply(s, step)
  {
    hide Apply;
    assert [step][1..] == [];
  }

  lemma RunNil(s: State)
    ensures Run(s, []) == Some(s)
  {
  }

  lemma RunStep(s: State, step: Step, rest: seq<Step>)
    requires Apply(s, step).Some?
    ensures Run(s, [step] + rest) == Run(Apply(s, step).value, rest)
  {
    hide Apply;
    assert ([step] + rest)[1..] == rest;
  }

  /** One transaction that does one thing. */
  lemma RunTransaction(s: State, x: Xid, work: Step, rest: seq<Step>)
    requires x == s.nextXid && Apply(Apply(s, Begin).value, work).Some?
    requires var t := Apply(Apply(s, Begin).value, work).value; Is(t, x, InProgress) && x !in t.pending
    ensures var t := Apply(Apply(s, Begin).value, work).value;
            Run(s, [Begin] + ([work] + ([Commit(x)] + rest))) == Run(t.(status := t.status[x := Committed]), rest)
  {
    hide Run;
    var b := Apply(s, Begin).value;
    var t := Apply(b, work).value;
    RunStep(s, Begin, [work] + ([Commit(x)] + rest));
    RunStep(b, work, [Commit(x)] + rest);
    RunStep(t, Commit(x), rest);
  }

  lemma FreeSlot(slots: map<Tid, Version>) returns (tid: Tid)
    ensures tid !in slots
  {
    tid := Above(slots.Keys);
  }

  lemma {:induction false} Above(tids: set<Tid>) returns (tid: Tid)
    ensures forall x | x in tids :: x < tid
    decreases |tids|
  {
    if tids == {} {
      tid := 0;
    } else {
      var y :| y in tids;
      var below := Above(tids - {y});
      assert forall x | x in tids :: x == y || x in tids - {y};
      tid := if below > y then below else y + 1;
    }
  }

  /** The updating transaction aborts, if it has not done so, and the target is vacuumed. */
  lemma RemoveTarget(s: State, tid: Tid) returns (steps: seq<Step>, t: State)
    requires Inv(s) && tid in s.slots && Forward(tid, s.slots[tid])
    requires Is(s, s.slots[tid].xmax, InProgress) || Is(s, s.slots[tid].xmax, Aborted)
    ensures Run(s, steps) == Some(t) && KeepsSnapshot(steps) && Inv(t)
    ensures tid in t.slots && t.slots[tid] == s.slots[tid] && Is(t, s.slots[tid].xmax, Aborted)
            && CheckFails(t, s.slots[tid])
    ensures t.links == s.links && forall x | Is(s, x, Committed) :: Is(t, x, Committed)
  {
    hide Run, Inv;
    var v := s.slots[tid];
    RunNil(s);
    steps, t := [], s;
    if Is(s, v.xmax, InProgress) {
      RunOne(s, Abort(v.xmax));
      ApplyKeeps(s, Abort(v.xmax));
      steps, t := [Abort(v.xmax)], Apply(s, Abort(v.xmax)).value;
    }
    if !CheckFails(t, v) {
      RunConcat(s, steps, [Vacuum(v.ctid)]);
      RunOne(t, Vacuum(v.ctid));
      ApplyKeeps(t, Vacuum(v.ctid));
      steps, t := steps + [Vacuum(v.ctid)], Apply(t, Vacuum(v.ctid)).value;
    }
  }

  /** Another transaction updates the tuple and commits. */
  lemma UpdateAgain(s: State, tid: Tid) returns (steps: seq<Step>, to: Tid)
    requires Inv(s) && tid in s.slots && Is(s, s.slots[tid].xmin, Committed) && Is(s, s.slots[tid].xmax, Aborted)
    requires CheckFails(s, s.slots[tid])
    ensures KeepsSnapshot(steps) && Run(s, steps).Some?
    ensures CheckFails(Run(s, steps).value, s.slots[tid]) && LiveDescendant(Run(s, steps).value, s.slots[tid], to)
  {
    hide Run, Inv;
    var v, x := s.slots[tid], s.nextXid;
    to := FreeSlot(s.slots);
    var work := Update(x, tid, to);
    NextXidIsNew(s, v.xmin);
    NextXidIsNew(s, v.xmax);
    NotPending(s);
    var u := Apply(Apply(s, Begin).value, work).value;
    var t := u.(status := u.status[x := Committed]);
    RunTransaction(s, x, work, []);
    RunNil(t);
    steps := [Begin] + ([work] + ([Commit(x)] + []));
    var l := Link(v.serial, x, to, v.row, |s.made|);
    assert Path(t.links, v.serial, [l], |s.made|) by {
      assert [l][1..] == [];
    }
  }

  lemma NotPending(s: State)
    requires Inv(s)
    ensures s.nextXid !in s.pending
  {
    forall x | x in s.pending ensures x < s.nextXid {
      assert PendingOk(s, x, s.pending[x]);
    }
  }

  /** Exactly when the claim may fail for a reader whose snapshot does not have the updating
      transaction as committed: when that transaction has not committed at the time the
      tuple is read, and is not the one that inserted it. */
  lemma MisleadsExactly(before: seq<Step>, tid: Tid)
    requires Run(INITIAL, before).Some?
    requires var s := Run(INITIAL, before).value;
             tid in s.slots && Forward(tid, s.slots[tid]) && s.snap.Some? && !SnapCommitted(s, s.slots[tid].xmax)
    ensures var s := Run(INITIAL, before).value;
            (exists meanwhile :: KeepsSnapshot(meanwhile) && Misleads(s, tid, meanwhile)) <==>
              !Is(s, s.slots[tid].xmax, Committed) && s.slots[tid].xmin != s.slots[tid].xmax
  {
    hide Run, Inv, History, LiveDescendant;
    var s := Run(INITIAL, before).value;
    var v := s.slots[tid];
    RunInvariants(before);
    TupleOk(s, tid);
    if !Is(s, v.xmax, Committed) && v.xmin != v.xmax {
      var a, t := RemoveTarget(s, tid);
      var b, other := UpdateAgain(t, tid);
      RunConcat(s, a, b);
      assert KeepsSnapshot(a + b) && Misleads(s, tid, a + b);
    } else {
      forall meanwhile | KeepsSnapshot(meanwhile) ensures !Misleads(s, tid, meanwhile) {
        NotMisled(before, meanwhile, tid);
      }
    }
  }

  // ---------------------------------------------------------------- snapshots that have it as committed

  /** For a snapshot that has the updating transaction as committed nothing follows: once
      the horizon has passed that transaction, the target itself, live or not, may be given
      another xmin, so that the check fails. */
  lemma FrozenTarget(before: seq<Step>, tid: Tid)
    requires Run(INITIAL, before).Some?
    requires var s := Run(INITIAL, before).value;
             && tid in s.slots && Forward(tid, s.slots[tid]) && !CheckFails(s, s.slots[tid])
             && Is(s, s.slots[tid].xmax, Committed) && s.slots[tid].xmax < s.oldestXmin
             && Live(s, s.slots[s.slots[tid].ctid])
    ensures var s := Run(INITIAL, before).value;
            Misleads(s, tid, [Freeze(s.slots[tid].ctid)])
  {
    hide Run, Inv, History;
    var s := Run(INITIAL, before).value;
    var v := s.slots[tid];
    var c := v.ctid;
    RunInvariants(before);
    TupleOk(s, tid);
    RunOne(s, Freeze(c));
    FrozenCommitted(s);
    var t := Apply(s, Freeze(c)).value;
    LinkExists(s, tid);
    var l :| l in s.links && LinkOf(v, l);
    LinkIsOk(s, l);
    assert Path(t.links, v.serial, [l], t.slots[c].serial) by {
      assert [l][1..] == [];
    }
    assert LiveDescendant(t, v, c);
  }

  lemma FrozenCommitted(s: State)
    requires Inv(s)
    ensures Is(s, FROZEN, Committed)
  {
  }

  /** Or the target may be vacuumed when it has been replaced in turn. */
  lemma VacuumedTarget(before: seq<Step>, tid: Tid)
    requires Run(INITIAL, before).Some?
    requires var s := Run(INITIAL, before).value;
             && tid in s.slots && Forward(tid, s.slots[tid]) && !CheckFails(s, s.slots[tid])
             && var c := s.slots[tid].ctid;
                && Dead(s, s.slots[c]) && Forward(c, s.slots[c]) && !CheckFails(s, s.slots[c])
                && Live(s, s.slots[s.slots[c].ctid])
    ensures var s := Run(INITIAL, before).value;
            Misleads(s, tid, [Vacuum(s.slots[tid].ctid)])
  {
    hide Run, Inv, History, Dead, Live;
    var s := Run(INITIAL, before).value;
    var v := s.slots[tid];
    var c := s.slots[v.ctid];
    RunInvariants(before);
    TupleOk(s, v.ctid);
    RunOne(s, Vacuum(v.ctid));
    var t := Apply(s, Vacuum(v.ctid)).value;
    LinkExists(s, tid);
    var l :| l in s.links && LinkOf(v, l);
    LinkIsOk(s, l);
    LinkExists(s, v.ctid);
    var m :| m in s.links && LinkOf(c, m);
    LinkIsOk(s, m);
    assert Path(t.links, v.serial, [l, m], t.slots[c.ctid].serial) by {
      assert [l, m][1..] == [m] && [m][1..] == [];
      assert Path(t.links, l.serial, [m], m.serial);
    }
    assert Live(t, t.slots[c.ctid]) by { LiveDependsOn(s, t, t.slots[c.ctid]); }
    assert LiveDescendant(t, v, c.ctid);
  }

  lemma LiveDependsOn(s: State, t: State, v: Version)
    requires Live(s, v) && t.status == s.status
    ensures Live(t, v)
  {
  }

  /** The target of link `l` is there, and not deleted or replaced by a transaction that
      the snapshot has as committed. */
  predicate TargetKept(s: State, l: Link) {
    && Holds(s, l) && s.snap.Some?
    && var w := s.slots[l.tid]; (!w.xmaxInvalid && !w.locked ==> !SnapCommitted(s, w.xmax))
  }

  /** As long as the horizon cannot pass the updater, the target can be neither frozen nor
      vacuumed. */
  lemma TargetStays(s: State, step: Step, l: Link)
    requires Inv(s) && Apply(s, step).Some? && !step.TakeSnapshot? && TargetKept(s, l)
    requires SnapCommitted(s, l.xmax) && !AllEnded(s.snap.value, l.xmax + 1)
    ensures var t := Apply(s, step).value; t.snap == s.snap && TargetKept(t, l)
  {
    hide VersionOk, LinkOk, PendingOk;
    SnapshotIsPast(s, l.xmax);
    match step
    case Vacuum(tid) => SnapshotIsPast(s, s.slots[tid].xmax);
    case Update(x, _, _) => SnapshotIsPast(s, x);
    case MarkUpdate(x, _) => SnapshotIsPast(s, x);
    case FinishUpdate(x, _) => PendingRuns(s, x); SnapshotIsPast(s, x);
    case Delete(x, _) => SnapshotIsPast(s, x);
    case _ =>
  }

  lemma PendingRuns(s: State, x: Xid)
    requires Inv(s) && x in s.pending
    ensures Is(s, x, InProgress)
  {
    assert PendingOk(s, x, s.pending[x]);
  }

  /** Whatever the snapshot has as ended is so now; and what is below the horizon is. */
  lemma SnapshotIsPast(s: State, x: Xid)
    requires Inv(s) && s.snap.Some?
    ensures SnapCommitted(s, x) ==> Is(s, x, Committed)
    ensures Is(s, x, Committed) && FROZEN <= x < s.oldestXmin ==> SnapCommitted(s, x)
    ensures !AllEnded(s.snap.value, x + 1) ==> s.oldestXmin <= x
    ensures AllEnded(s.snap.value, x + 1) && x in s.status ==> AllEnded(s.status, x + 1) && x + 1 <= s.nextXid
  {
    hide VersionOk, LinkOk, PendingOk;
  }

  lemma {:induction false} TargetStaysLong(s: State, steps: seq<Step>, l: Link)
    requires Inv(s) && Run(s, steps).Some? && KeepsSnapshot(steps) && TargetKept(s, l)
    requires SnapCommitted(s, l.xmax) && !AllEnded(s.snap.value, l.xmax + 1)
    ensures TargetKept(Run(s, steps).value, l)
    decreases |steps|
  {
    hide Inv, Apply, TargetKept;
    if steps != [] {
      assert steps[0] in steps;
      SnapshotThere(s, l);
      ApplyKeeps(s, steps[0]);
      TargetStays(s, steps[0], l);
      TargetStaysLong(Apply(s, steps[0]).value, steps[1..], l);
    }
  }

  lemma SnapshotThere(s: State, l: Link)
    requires TargetKept(s, l)
    ensures s.snap.Some?
  {
  }

  /** For a reader whose snapshot has the updating transaction as committed, and who reads
      the tuple while its target is live, the claim may fail later exactly when no
      transaction up to that one was running for the snapshot. */
  lemma LiveTargetMisleadsExactly(before: seq<Step>, tid: Tid)
    requires Run(INITIAL, before).Some?
    requires var s := Run(INITIAL, before).value;
             && tid in s.slots && Forward(tid, s.slots[tid]) && s.snap.Some? && SnapCommitted(s, s.slots[tid].xmax)
             && !CheckFails(s, s.slots[tid]) && Live(s, s.slots[s.slots[tid].ctid])
    ensures var s := Run(INITIAL, before).value;
            (exists meanwhile :: KeepsSnapshot(meanwhile) && Misleads(s, tid, meanwhile)) <==>
              AllEnded(s.snap.value, s.slots[tid].xmax + 1)
  {
    hide Run, Inv, History, LiveDescendant, AllEnded;
    var s := Run(INITIAL, before).value;
    var v := s.slots[tid];
    RunInvariants(before);
    TupleOk(s, tid);
    SnapshotIsPast(s, v.xmax);
    if AllEnded(s.snap.value, v.xmax + 1) {
      PassHorizon(before, tid);
    } else {
      LinkExists(s, tid);
      var l :| l in s.links && LinkOf(v, l);
      LinkIsOk(s, l);
      SnapshotIsPast(s, s.slots[v.ctid].xmax);
      forall meanwhile | KeepsSnapshot(meanwhile) ensures !Misleads(s, tid, meanwhile) {
        if Run(s, meanwhile).Some? { TargetStaysLong(s, meanwhile, l); }
      }
    }
  }

  /** The horizon moves behind the updater, and the target is frozen. */
  lemma PassHorizon(before: seq<Step>, tid: Tid)
    requires Run(INITIAL, before).Some?
    requires var s := Run(INITIAL, before).value;
             && tid in s.slots && Forward(tid, s.slots[tid]) && s.snap.Some? && SnapCommitted(s, s.slots[tid].xmax)
             && !CheckFails(s, s.slots[tid]) && Live(s, s.slots[s.slots[tid].ctid])
             && AllEnded(s.snap.value, s.slots[tid].xmax + 1)
    ensures var s := Run(INITIAL, before).value;
            exists meanwhile :: KeepsSnapshot(meanwhile) && Misleads(s, tid, meanwhile)
  {
    hide Run, Inv, History, LiveDescendant, AllEnded, Live;
    var s := Run(INITIAL, before).value;
    var v := s.slots[tid];
    RunInvariants(before);
    TupleOk(s, tid);
    SnapshotIsPast(s, v.xmax);
    var freeze := [Freeze(v.ctid)];
    if v.xmax < s.oldestXmin {
      FrozenTarget(before, tid);
      assert KeepsSnapshot(freeze) && Misleads(s, tid, freeze);
    } else {
      var advance := AdvanceHorizon(v.xmax + 1);
      var u := Apply(s, advance).value;
      RunConcat(INITIAL, before, [advance]);
      RunOne(s, advance);
      LiveDependsOn(s, u, s.slots[v.ctid]);
      FrozenTarget(before + [advance], tid);
      RunConcat(s, [advance], freeze);
      assert KeepsSnapshot([advance] + freeze) && Misleads(s, tid, [advance] + freeze);
    }
  }

  // Both happen, to a reader whose snapshot has all three transactions as committed.

  const ROW_INSERTED :=
    State(map[10 := Version(3, 0, true, false, 10, 0, 0)],
          map[2 := Committed, 3 := Committed],
          4, [3], 1, 2, map[], {}, None)
  const FIRST_UPDATE :=
    State(map[10 := Version(3, 4, false, false, 11, 0, 0), 11 := Version(4, 0, true, false, 11, 0, 1)],
          map[2 := Committed, 3 := Committed, 4 := Committed],
          5, [3, 4], 1, 2, map[], {Link(0, 4, 11, 0, 1)}, None)
  const SECOND_UPDATE :=
    State(map[10 := Version(3, 4, false, false, 11, 0, 0), 11 := Version(4, 5, false, false, 12, 0, 1),
              12 := Version(5, 0, true, false, 12, 0, 2)],
          map[2 := Committed, 3 := Committed, 4 := Committed, 5 := Committed],
          6, [3, 4, 5], 1, 2, map[], {Link(0, 4, 11, 0, 1), Link(1, 5, 12, 0, 2)}, None)

  lemma FirstVersion(rest: seq<Step>)
    ensures Run(INITIAL, [Begin] + ([Insert(3, 10)] + ([Commit(3)] + rest))) == Run(ROW_INSERTED, rest)
  {
    hide Run;
    RunTransaction(INITIAL, 3, Insert(3, 10), rest);
    var t := Apply(Apply(INITIAL, Begin).value, Insert(3, 10)).value;
    assert t.(status := t.status[3 := Committed]) == ROW_INSERTED;
  }

  lemma SecondVersion(rest: seq<Step>)
    ensures Run(ROW_INSERTED, [Begin] + ([Update(4, 10, 11)] + ([Commit(4)] + rest))) == Run(FIRST_UPDATE, rest)
  {
    hide Run;
    RunTransaction(ROW_INSERTED, 4, Update(4, 10, 11), rest);
    var t := Apply(Apply(ROW_INSERTED, Begin).value, Update(4, 10, 11)).value;
    assert t.(status := t.status[4 := Committed]) == FIRST_UPDATE;
  }

  lemma ThirdVersion(rest: seq<Step>)
    ensures Run(FIRST_UPDATE, [Begin] + ([Update(5, 11, 12)] + ([Commit(5)] + rest))) == Run(SECOND_UPDATE, rest)
  {
    hide Run;
    RunTransaction(FIRST_UPDATE, 5, Update(5, 11, 12), rest);
    var t := Apply(Apply(FIRST_UPDATE, Begin).value, Update(5, 11, 12)).value;
    assert t.(status := t.status[5 := Committed]) == SECOND_UPDATE;
  }

  /** A row with two versions, then a snapshot that sees both transactions. */
  function TwoVersions(rest: seq<Step>): seq<Step> {
    [Begin] + ([Insert(3, 10)] + ([Commit(3)] + ([Begin] + ([Update(4, 10, 11)] + ([Commit(4)] + rest)))))
  }

  function ThreeVersions(rest: seq<Step>): seq<Step> {
    TwoVersions([Begin] + ([Update(5, 11, 12)] + ([Commit(5)] + rest)))
  }

  lemma SnapshotAndHorizon(s: State, xid: Xid)
    requires s.oldestXmin <= xid <= s.nextXid && AllEnded(s.status, xid)
    ensures Run(s, [TakeSnapshot] + ([AdvanceHorizon(xid)] + [])) == Some(s.(snap := Some(s.status), oldestXmin := xid))
  {
    hide Run;
    RunStep(s, TakeSnapshot, [AdvanceHorizon(xid)] + []);
    RunStep(s.(snap := Some(s.status)), AdvanceHorizon(xid), []);
    RunNil(s.(snap := Some(s.status), oldestXmin := xid));
  }

  lemma FrozenTargetHappens()
    ensures var r := Run(INITIAL, TwoVersions([TakeSnapshot] + ([AdvanceHorizon(5)] + [])));
            && r.Some? && 10 in r.value.slots && r.value.snap.Some? && SnapCommitted(r.value, r.value.slots[10].xmax)
            && Misleads(r.value, 10, [Freeze(11)])
  {
    hide Run, Misleads;
    var rest := [TakeSnapshot] + ([AdvanceHorizon(5)] + []);
    FirstVersion([Begin] + ([Update(4, 10, 11)] + ([Commit(4)] + rest)));
    SecondVersion(rest);
    SnapshotAndHorizon(FIRST_UPDATE, 5);
    FrozenTarget(TwoVersions(rest), 10);
  }

  lemma VacuumedTargetHappens()
    ensures var r := Run(INITIAL, ThreeVersions([TakeSnapshot] + ([AdvanceHorizon(6)] + [])));
            && r.Some? && 10 in r.value.slots && r.value.snap.Some? && SnapCommitted(r.value, r.value.slots[10].xmax)
            && Misleads(r.value, 10, [Vacuum(11)])
  {
    hide Run, Misleads;
    var rest := [TakeSnapshot] + ([AdvanceHorizon(6)] + []);
    var third := [Begin] + ([Update(5, 11, 12)] + ([Commit(5)] + rest));
    FirstVersion([Begin] + ([Update(4, 10, 11)] + ([Commit(4)] + third)));
    SecondVersion(third);
    ThirdVersion(rest);
    SnapshotAndHorizon(SECOND_UPDATE, 6);
    VacuumedTarget(ThreeVersions(rest), 10);
  }
}
