/**
 The change-approval protocol. The governed tables, the edits to them, the comparator and the notion of
 widening access are left abstract; the mode switch, the proposals and every decision are the service's own.
 Each service method is one atomic step.
 */
module Approvals {
  import opened Common

  datatype Class = Tightening | Loosening

  datatype Diff<D> = Diff(class_: Class, detail: D)

  /** A governed change: an edit of the tables, or the second-approver switch itself. */
  datatype Change<E> = Governance(edit: E) | Settings(requireSecond: bool)

  /**
   What lies outside the protocol: the comparator's verdict, what an edit does to the tables (and whether it
   completed or raised part-way), the verdicts on the switch, and whether access widened.
   */
  datatype Rules<!T, !E, D> = Rules(
    classify: (T, E) -> Diff<D>,
    perform: (T, E) -> (T, bool),
    switchDetail: bool -> D,
    widens: (T, T) -> bool)

  datatype Verdict = Pending | Approved | Rejected | Withdrawn | Superseded

  datatype Ticket = NoTicket | ByTightening | ByLocal | BySelf | BySecond

  datatype Proposal<E, D> = Proposal(
    change: Change<E>, diff: Diff<D>, proposer: string, proposerId: string,
    state: Verdict, decidedBy: string, ticket: Ticket, applied: bool)

  datatype World<T, E, D> = World(tables: T, second: bool, proposals: map<nat, Proposal<E, D>>, nextId: nat)

  datatype Outcome = Applied(id: nat) | Queued(id: nat) | Done | Refused | Raised

  datatype Step<E> =
    | Submit(local: bool, change: Change<E>, actor: string, actorId: string)
    | Approve(id: nat, approver: string, approverId: string)
    | Reject(id: nat, approver: string)
    | Withdraw(id: nat, actor: string, actorId: string)
    | SetSecondApprover(local: bool, enable: bool, actor: string, actorId: string, activeAdmins: nat)

  // ----- the service, one method at a time -----

  function Classify<T, E, D>(r: Rules<T, E, D>, w: World<T, E, D>, c: Change<E>): Diff<D> {
    match c
    case Governance(e) => r.classify(w.tables, e)
    case Settings(on) => Diff(if on then Tightening else Loosening, r.switchDetail(on))
  }

  /** `_apply`: the one dispatch from a change to its store write. */
  function Perform<T, E, D>(r: Rules<T, E, D>, w: World<T, E, D>, c: Change<E>): (World<T, E, D>, bool) {
    match c
    case Governance(e) => var (t, ok) := r.perform(w.tables, e); (w.(tables := t), ok)
    case Settings(on) => (w.(second := on), true)
  }

  function Decide<T, E, D>(w: World<T, E, D>, id: nat, p: Proposal<E, D>): World<T, E, D> {
    w.(proposals := w.proposals[id := p])
  }

  function Filed<T, E, D>(w: World<T, E, D>, p: Proposal<E, D>): World<T, E, D> {
    w.(proposals := w.proposals[w.nextId := p], nextId := w.nextId + 1)
  }

  function TicketFor<D>(d: Diff<D>, local: bool, second: bool): Ticket {
    if d.class_ == Tightening then ByTightening
    else if local then ByLocal
    else if second then NoTicket
    else BySelf
  }

  ghost function DoSubmit<T, E, D>(r: Rules<T, E, D>, w: World<T, E, D>, local: bool, c: Change<E>, actor: string,
                                   actorId: string): (World<T, E, D>, Outcome)
  {
    var d := Classify(r, w, c);
    var ticket := TicketFor(d, local, w.second);
    var p := Proposal(c, d, actor, actorId, Pending, "", NoTicket, false);
    var filed := Filed(w, p);
    if ticket == NoTicket then (filed, Queued(w.nextId))
    else
      var (after, ok) := Perform(r, filed, c);
      if !ok then (after, Raised)
      else (Decide(after, w.nextId, p.(state := Approved, decidedBy := actor, ticket := ticket, applied := true)),
            Applied(w.nextId))
  }

  predicate MayApprove<E, D>(p: Proposal<E, D>, approverId: string) {
    !(p.proposerId != "" && approverId == p.proposerId)
  }

  ghost function DoApprove<T, E, D>(r: Rules<T, E, D>, w: World<T, E, D>, id: nat, approver: string,
                                    approverId: string): (World<T, E, D>, Outcome)
  {
    if id !in w.proposals || w.proposals[id].state != Pending || !MayApprove(w.proposals[id], approverId) then
      (w, Refused)
    else
      var p := w.proposals[id];
      var now := Classify(r, w, p.change);
      if now != p.diff then (Decide(w, id, p.(state := Superseded, decidedBy := approver, diff := now)), Refused)
      else
        var (after, ok) := Perform(r, w, p.change);
        if !ok then (after, Raised)
        else (Decide(after, id, p.(state := Approved, decidedBy := approver, ticket := BySecond, applied := true)),
              Applied(id))
  }

  ghost function DoReject<T, E, D>(w: World<T, E, D>, id: nat, approver: string): (World<T, E, D>, Outcome) {
    if id !in w.proposals || w.proposals[id].state != Pending then (w, Refused)
    else (Decide(w, id, w.proposals[id].(state := Rejected, decidedBy := approver)), Done)
  }

  ghost function DoWithdraw<T, E, D>(w: World<T, E, D>, id: nat, actor: string,
                                     actorId: string): (World<T, E, D>, Outcome)
  {
    if id !in w.proposals || w.proposals[id].state != Pending then (w, Refused)
    else if w.proposals[id].proposerId != "" && actorId != w.proposals[id].proposerId then (w, Refused)
    else (Decide(w, id, w.proposals[id].(state := Withdrawn, decidedBy := actor)), Done)
  }

  ghost function DoStep<T, E, D>(r: Rules<T, E, D>, w: World<T, E, D>, s: Step<E>): (World<T, E, D>, Outcome) {
    match s
    case Submit(local, c, actor, actorId) => DoSubmit(r, w, local, c, actor, actorId)
    case Approve(id, approver, approverId) => DoApprove(r, w, id, approver, approverId)
    case Reject(id, approver) => DoReject(w, id, approver)
    case Withdraw(id, actor, actorId) => DoWithdraw(w, id, actor, actorId)
    case SetSecondApprover(local, enable, actor, actorId, admins) =>
      if enable && admins < 2 then (w, Refused) else DoSubmit(r, w, local, Settings(enable), actor, actorId)
  }

  ghost function After<T, E, D>(r: Rules<T, E, D>, w: World<T, E, D>, s: Step<E>): World<T, E, D> {
    DoStep(r, w, s).0
  }

  ghost function Run<T, E, D>(r: Rules<T, E, D>, w: World<T, E, D>, steps: seq<Step<E>>): World<T, E, D> {
    if steps == [] then w else After(r, Run(r, w, steps[..|steps| - 1]), steps[|steps| - 1])
  }

  // ----- what is assumed of the comparator -----

  /** "Tightening" never widens effective access, even when the write raises part-way. */
  ghost predicate ComparatorSound<T(!new), E(!new), D>(r: Rules<T, E, D>) {
    && (forall t, e :: r.classify(t, e).class_ == Tightening ==> !r.widens(t, r.perform(t, e).0))
    && forall t :: !r.widens(t, t)
  }

  /** Freshly filed ids are new. */
  ghost predicate IdsBehind<T, E, D>(w: World<T, E, D>) {
    forall id :: id in w.proposals ==> id < w.nextId
  }

  lemma IdsStayBehind<T, E, D>(r: Rules<T, E, D>, w: World<T, E, D>, s: Step<E>)
    requires IdsBehind(w)
    ensures IdsBehind(After(r, w, s))
  {
  }

  // ----- decisions are final -----

  /** What a step may do to the record of a proposal: nothing once decided; never to who asked for what. */
  lemma DecidedIsFinal<T, E, D>(r: Rules<T, E, D>, w: World<T, E, D>, s: Step<E>, id: nat)
    requires IdsBehind(w) && id in w.proposals
    ensures var v := After(r, w, s);
            && id in v.proposals
            && (w.proposals[id].state != Pending ==> v.proposals[id] == w.proposals[id])
            && v.proposals[id].change == w.proposals[id].change
            && v.proposals[id].proposer == w.proposals[id].proposer
            && v.proposals[id].proposerId == w.proposals[id].proposerId
  {
  }

  /** Over every run, a decided proposal never changes again and no record disappears or changes author. */
  lemma {:induction false} RunsKeepDecisions<T, E, D>(r: Rules<T, E, D>, w: World<T, E, D>, steps: seq<Step<E>>,
      id: nat)
    requires IdsBehind(w) && id in w.proposals
    ensures var v := Run(r, w, steps);
            && IdsBehind(v) && id in v.proposals
            && (w.proposals[id].state != Pending ==> v.proposals[id] == w.proposals[id])
            && v.proposals[id].change == w.proposals[id].change
            && v.proposals[id].proposerId == w.proposals[id].proposerId
  {
    if steps != [] {
      var k := |steps| - 1;
      RunsKeepDecisions(r, w, steps[..k], id);
      DecidedIsFinal(r, Run(r, w, steps[..k]), steps[k], id);
      IdsStayBehind(r, Run(r, w, steps[..k]), steps[k]);
    }
  }

  // ----- four eyes -----

  predicate IsLocal<E>(s: Step<E>) {
    (s.Submit? || s.SetSecondApprover?) && s.local
  }

  /** A step that widens effective access or switches the mode off. */
  predicate Loosens<T, E, D>(r: Rules<T, E, D>, w: World<T, E, D>, v: World<T, E, D>) {
    r.widens(w.tables, v.tables) || (w.second && !v.second)
  }

  /**
   The step approves a pending proposal whose recorded diff is what the comparator says right now, and not by its
   proposer.
   */
  ghost predicate SecondPairOfEyes<T, E, D>(r: Rules<T, E, D>, w: World<T, E, D>, s: Step<E>) {
    && s.Approve? && s.id in w.proposals
    && var p := w.proposals[s.id];
       && p.state == Pending
       && Classify(r, w, p.change) == p.diff
       && (p.proposerId != "" ==> s.approverId != p.proposerId)
       && DoStep(r, w, s).1 != Refused
  }

  lemma LooseningNeedsApproval<T(!new), E(!new), D>(r: Rules<T, E, D>, w: World<T, E, D>, s: Step<E>)
    requires ComparatorSound(r) && w.second && !IsLocal(s)
    requires Loosens(r, w, After(r, w, s))
    ensures SecondPairOfEyes(r, w, s)
  {
  }

  /**
   Four eyes over whole runs. From any state with second-approver mode on, along any run of non-local steps,
   the first step that widens effective access or turns the mode off is an approval by somebody other than the
   recorded proposer, of a diff that still holds.
   */
  lemma {:induction false} FourEyes<T(!new), E(!new), D>(r: Rules<T, E, D>, w: World<T, E, D>, steps: seq<Step<E>>,
      i: nat)
    requires ComparatorSound(r) && w.second && i < |steps|
    requires forall s :: s in steps ==> !IsLocal(s)
    requires forall j :: 0 <= j < i ==> !Loosens(r, Run(r, w, steps[..j]), Run(r, w, steps[..j + 1]))
    requires Loosens(r, Run(r, w, steps[..i]), Run(r, w, steps[..i + 1]))
    ensures SecondPairOfEyes(r, Run(r, w, steps[..i]), steps[i])
  {
    ModeStaysOn(r, w, steps, i);
    assert steps[..i + 1][..i] == steps[..i];
    LooseningNeedsApproval(r, Run(r, w, steps[..i]), steps[i]);
  }

  lemma {:induction false} ModeStaysOn<T, E, D>(r: Rules<T, E, D>, w: World<T, E, D>, steps: seq<Step<E>>, i: nat)
    requires w.second && i <= |steps|
    requires forall j :: 0 <= j < i ==> !Loosens(r, Run(r, w, steps[..j]), Run(r, w, steps[..j + 1]))
    ensures Run(r, w, steps[..i]).second
  {
    if i > 0 {
      ModeStaysOn(r, w, steps, i - 1);
      assert !Loosens(r, Run(r, w, steps[..i - 1]), Run(r, w, steps[..i - 1 + 1]));
    }
  }

  /** Four eyes, as a property of the rules: it holds at the first loosening of every run. */
  ghost predicate FourEyesHold<T(!new), E(!new), D(!new)>(r: Rules<T, E, D>) {
    forall w: World<T, E, D>, steps: seq<Step<E>>, i: nat ::
      FirstLoosening(r, w, steps, i) ==> SecondPairOfEyes(r, Run(r, w, steps[..i]), steps[i])
  }

  /** Step i is the first of a run of non-local steps, begun with the mode on, that loosens anything. */
  ghost predicate FirstLoosening<T, E, D>(r: Rules<T, E, D>, w: World<T, E, D>, steps: seq<Step<E>>, i: nat) {
    && w.second && i < |steps|
    && (forall s :: s in steps ==> !IsLocal(s))
    && (forall j :: 0 <= j < i ==> !Loosens(r, Run(r, w, steps[..j]), Run(r, w, steps[..j + 1])))
    && Loosens(r, Run(r, w, steps[..i]), Run(r, w, steps[..i + 1]))
  }

  /** A tightening that widens is applied at once, by one person and with the mode on. */
  lemma {:induction false} UnsoundEditSlipsThrough<T, E, D>(r: Rules<T, E, D>, t: T, e: E, actor: string,
      actorId: string)
    requires r.classify(t, e).class_ == Tightening && r.widens(t, r.perform(t, e).0)
    ensures var w := World(t, true, map[], 0);
            var steps := [Submit(false, Governance(e), actor, actorId)];
            FirstLoosening(r, w, steps, 0) && !SecondPairOfEyes(r, w, steps[0]) && Run(r, w, steps[..0]) == w
  {
    var w := World(t, true, map[], 0);
    var steps := [Submit(false, Governance(e), actor, actorId)];
    assert steps[..1] == steps && steps[..0] == [];
    assert Run(r, w, steps) == After(r, w, steps[0]);
    assert After(r, w, steps[0]).tables == r.perform(t, e).0;
  }

  /** Four eyes holds on every run if and only if no edit the comparator calls tightening ever widens access. */
  lemma FourEyesExactly<T(!new), E(!new), D(!new)>(r: Rules<T, E, D>)
    requires forall t :: !r.widens(t, t)
    ensures FourEyesHold(r) <==> ComparatorSound(r)
  {
    if ComparatorSound(r) {
      forall w: World<T, E, D>, steps: seq<Step<E>>, i: nat | FirstLoosening(r, w, steps, i)
        ensures SecondPairOfEyes(r, Run(r, w, steps[..i]), steps[i])
      {
        FourEyes(r, w, steps, i);
      }
    }
    if FourEyesHold(r) {
      forall t, e | r.classify(t, e).class_ == Tightening
        ensures !r.widens(t, r.perform(t, e).0)
      {
        if r.widens(t, r.perform(t, e).0) {
          UnsoundEditSlipsThrough(r, t, e, "", "");
        }
      }
    }
  }

  /** The change a submission asks for, whichever door it came through. */
  ghost predicate Asks<E>(s: Step<E>, c: Change<E>, actorId: string) {
    || (s.Submit? && s.change == c && s.actorId == actorId)
    || (s.SetSecondApprover? && c == Settings(s.enable) && s.actorId == actorId)
  }

  /** Every record in a run was there at the start or was filed by a step of the run asking for exactly that. */
  lemma {:induction false} RecordsHaveAuthors<T, E, D>(r: Rules<T, E, D>, w: World<T, E, D>, steps: seq<Step<E>>,
      id: nat)
    requires IdsBehind(w) && id in Run(r, w, steps).proposals
    ensures var p := Run(r, w, steps).proposals[id];
            || (id in w.proposals && p.change == w.proposals[id].change && p.proposerId == w.proposals[id].proposerId)
            || exists j :: 0 <= j < |steps| && Asks(steps[j], p.change, p.proposerId)
  {
    if steps != [] {
      var k := |steps| - 1;
      var before := Run(r, w, steps[..k]);
      RunIdsBehind(r, w, steps[..k]);
      if id in before.proposals {
        RecordsHaveAuthors(r, w, steps[..k], id);
        DecidedIsFinal(r, before, steps[k], id);
        if exists j :: 0 <= j < k && Asks(steps[..k][j], before.proposals[id].change, before.proposals[id].proposerId) {
          var j :| 0 <= j < k && Asks(steps[..k][j], before.proposals[id].change, before.proposals[id].proposerId);
          assert steps[j] == steps[..k][j];
        }
      } else {
        NewRecordIsAsked(r, before, steps[k], id);
      }
    }
  }

  lemma NewRecordIsAsked<T, E, D>(r: Rules<T, E, D>, w: World<T, E, D>, s: Step<E>, id: nat)
    requires id !in w.proposals && id in After(r, w, s).proposals
    ensures var p := After(r, w, s).proposals[id]; Asks(s, p.change, p.proposerId)
  {
  }

  lemma {:induction false} RunIdsBehind<T, E, D>(r: Rules<T, E, D>, w: World<T, E, D>, steps: seq<Step<E>>)
    requires IdsBehind(w)
    ensures IdsBehind(Run(r, w, steps))
  {
    if steps != [] {
      RunIdsBehind(r, w, steps[..|steps| - 1]);
      IdsStayBehind(r, Run(r, w, steps[..|steps| - 1]), steps[|steps| - 1]);
    }
  }

  predicate Attributed<E>(s: Step<E>) {
    (s.Submit? || s.SetSecondApprover?) ==> s.actorId != ""
  }

  /**
   Two people, always: when nothing is pending at the start and every submission carries its actor's id, the
   first loosening of a run is the approval, by one id, of a change that a different id submitted earlier in it.
   */
  lemma {:induction false} TwoPeople<T(!new), E(!new), D>(r: Rules<T, E, D>, w: World<T, E, D>, steps: seq<Step<E>>,
      i: nat)
    requires ComparatorSound(r) && w.second && IdsBehind(w) && i < |steps|
    requires forall id :: id in w.proposals ==> w.proposals[id].state != Pending
    requires forall s :: s in steps ==> !IsLocal(s) && Attributed(s)
    requires forall j :: 0 <= j < i ==> !Loosens(r, Run(r, w, steps[..j]), Run(r, w, steps[..j + 1]))
    requires Loosens(r, Run(r, w, steps[..i]), Run(r, w, steps[..i + 1]))
    ensures steps[i].Approve? && steps[i].id in Run(r, w, steps[..i]).proposals
    ensures exists j, who :: 0 <= j < i && who != steps[i].approverId
              && Asks(steps[j], Run(r, w, steps[..i]).proposals[steps[i].id].change, who)
  {
    FourEyes(r, w, steps, i);
    var before := Run(r, w, steps[..i]);
    var id := steps[i].id;
    var p := before.proposals[id];
    if id in w.proposals {
      RunsKeepDecisions(r, w, steps[..i], id);
    }
    RecordsHaveAuthors(r, w, steps[..i], id);
    var j :| 0 <= j < i && Asks(steps[..i][j], p.change, p.proposerId);
    assert steps[..i][j] == steps[j] && steps[j] in steps;
  }

  // ----- every change applied once, and a record for everything -----

  ghost predicate AppliedAt<T, E, D>(r: Rules<T, E, D>, w: World<T, E, D>, steps: seq<Step<E>>, i: nat, id: nat) {
    i < |steps| && DoStep(r, Run(r, w, steps[..i]), steps[i]).1 == Applied(id)
  }

  ghost predicate IsApproved<T, E, D>(w: World<T, E, D>, id: nat) {
    id in w.proposals && w.proposals[id].state == Approved
  }

  /** One step approves a record exactly when it reports having applied it, and only from pending or from nothing. */
  lemma StepApproves<T, E, D>(r: Rules<T, E, D>, w: World<T, E, D>, s: Step<E>, id: nat)
    requires IdsBehind(w)
    ensures IsApproved(After(r, w, s), id) <==> IsApproved(w, id) || DoStep(r, w, s).1 == Applied(id)
    ensures DoStep(r, w, s).1 == Applied(id) ==> !IsApproved(w, id)
  {
  }

  /**
   Over every run, a record ends up approved if and only if some step of the run applied its change, and then
   exactly one did: no change takes effect twice, and none is recorded as approved without taking effect.
   */
  lemma {:induction false} AppliedExactlyOnce<T, E, D>(r: Rules<T, E, D>, w: World<T, E, D>, steps: seq<Step<E>>,
      id: nat)
    requires IdsBehind(w) && !IsApproved(w, id)
    ensures IsApproved(Run(r, w, steps), id) <==> exists i :: AppliedAt(r, w, steps, i, id)
    ensures forall i, j :: AppliedAt(r, w, steps, i, id) && AppliedAt(r, w, steps, j, id) ==> i == j
  {
    if steps != [] {
      var k := |steps| - 1;
      AppliedExactlyOnce(r, w, steps[..k], id);
      AppliedBefore(r, w, steps, id);
      LastStepApproves(r, w, steps, id);
      AppliedOnceMore(r, w, steps, steps[..k], k, id);
    }
  }

  /** The last step adds itself, or nothing, to what the steps before it applied. */
  lemma AppliedOnceMore<T, E, D>(r: Rules<T, E, D>, w: World<T, E, D>, steps: seq<Step<E>>, front: seq<Step<E>>,
                                 k: nat, id: nat)
    requires forall i :: i != k ==> AppliedAt(r, w, steps, i, id) == AppliedAt(r, w, front, i, id)
    requires forall i, j :: AppliedAt(r, w, front, i, id) && AppliedAt(r, w, front, j, id) ==> i == j
    requires AppliedAt(r, w, steps, k, id) ==> forall i :: !AppliedAt(r, w, front, i, id)
    ensures forall i, j :: AppliedAt(r, w, steps, i, id) && AppliedAt(r, w, steps, j, id) ==> i == j
  {
  }

  lemma {:induction false} LastStepApproves<T, E, D>(r: Rules<T, E, D>, w: World<T, E, D>, steps: seq<Step<E>>, id: nat)
    requires IdsBehind(w) && steps != []
    ensures var k := |steps| - 1;
            && (IsApproved(Run(r, w, steps), id)
                <==> IsApproved(Run(r, w, steps[..k]), id) || AppliedAt(r, w, steps, k, id))
            && (AppliedAt(r, w, steps, k, id) ==> !IsApproved(Run(r, w, steps[..k]), id))
  {
    var k := |steps| - 1;
    RunIdsBehind(r, w, steps[..k]);
    StepApproves(r, Run(r, w, steps[..k]), steps[k], id);
  }

  lemma AppliedBefore<T, E, D>(r: Rules<T, E, D>, w: World<T, E, D>, steps: seq<Step<E>>, id: nat)
    requires steps != []
    ensures var k := |steps| - 1;
            && (forall i :: i != k ==> AppliedAt(r, w, steps, i, id) == AppliedAt(r, w, steps[..k], i, id))
            && ((exists i :: AppliedAt(r, w, steps, i, id)) <==>
                  (exists i :: AppliedAt(r, w, steps[..k], i, id)) || AppliedAt(r, w, steps, k, id))
  {
    var k := |steps| - 1;
    var front := steps[..k];
    forall i: nat | i != k
      ensures AppliedAt(r, w, steps, i, id) == AppliedAt(r, w, front, i, id)
    {
      if i < k {
        assert front[..i] == steps[..i];
      }
    }
    if i :| AppliedAt(r, w, front, i, id) {
      assert AppliedAt(r, w, steps, i, id);
    }
    if i :| AppliedAt(r, w, steps, i, id) && i != k {
      assert AppliedAt(r, w, front, i, id);
    }
  }

  /**
   The record is the product: whenever a step that does not raise changes the tables or the mode, exactly one
   record became approved in that step, and the new tables and mode are what its change makes of the old ones.
   */
  lemma ChangesAreRecorded<T, E, D>(r: Rules<T, E, D>, w: World<T, E, D>, s: Step<E>) returns (id: nat)
    requires IdsBehind(w) && DoStep(r, w, s).1 != Raised
    requires var v := After(r, w, s); v.tables != w.tables || v.second != w.second
    ensures var v := After(r, w, s);
            && id in v.proposals && v.proposals[id].state == Approved && v.proposals[id].applied
            && (id in w.proposals ==> w.proposals[id].state == Pending)
            && v.tables == Perform(r, w, v.proposals[id].change).0.tables
            && v.second == Perform(r, w, v.proposals[id].change).0.second
            && forall other :: other in w.proposals && other != id ==>
                 other in v.proposals && v.proposals[other] == w.proposals[other]
  {
    id := if s.Approve? then s.id else w.nextId;
  }

  // ----- what each outcome means for the tables and for the record -----

  /** The verdict on a change as the comparator, or the switch, gives it right now. */
  ghost predicate Judged<T, E, D>(r: Rules<T, E, D>, w: World<T, E, D>, c: Change<E>, d: Diff<D>) {
    (c.Governance? ==> d == r.classify(w.tables, c.edit))
    && (c.Settings? ==> d.detail == r.switchDetail(c.requireSecond) && (d.class_ == Tightening <==> c.requireSecond))
  }

  /** The change was carried out: the edit on the tables and nothing else, or the switch and nothing else. */
  ghost predicate Written<T, E, D>(r: Rules<T, E, D>, w: World<T, E, D>, c: Change<E>, v: World<T, E, D>, ok: bool) {
    (c.Governance? ==> (v.tables, ok) == r.perform(w.tables, c.edit) && v.second == w.second)
    && (c.Settings? ==> v.second == c.requireSecond && v.tables == w.tables && ok)
  }

  ghost predicate OthersKept<T, E, D>(w: World<T, E, D>, v: World<T, E, D>, id: nat) {
    forall other :: other != id ==>
      && (other in v.proposals <==> other in w.proposals)
      && (other in w.proposals ==> v.proposals[other] == w.proposals[other])
  }

  /** The change a step asks to be carried out: the submitted one, or the approved record's. */
  ghost predicate AsksFor<T, E, D>(w: World<T, E, D>, s: Step<E>, c: Change<E>) {
    match s
    case Submit(_, asked, _, _) => c == asked
    case SetSecondApprover(_, enable, _, _, _) => c == Settings(enable)
    case Approve(id, _, _) => id in w.proposals && c == w.proposals[id].change
    case _ => false
  }

  /**
   What every outcome means: applied, the change asked for was written and its record says so; raised, it was begun
   and no record claims it; queued, done or refused, neither the tables nor the mode moved.
   */
  lemma OutcomeMeans<T, E, D>(r: Rules<T, E, D>, w: World<T, E, D>, s: Step<E>)
    requires IdsBehind(w)
    ensures var (v, out) := DoStep(r, w, s);
            match out
            case Applied(id) =>
              && id in v.proposals && v.proposals[id].state == Approved && v.proposals[id].applied
              && AsksFor(w, s, v.proposals[id].change) && Written(r, w, v.proposals[id].change, v, true)
              && OthersKept(w, v, id)
            case Raised =>
              && (exists c :: AsksFor(w, s, c) && Written(r, w, c, v, false))
              && forall id :: id in w.proposals ==> id in v.proposals && v.proposals[id] == w.proposals[id]
            case _ => v.tables == w.tables && v.second == w.second
  {
    var (v, out) := DoStep(r, w, s);
    if out.Raised? {
      var c := if s.Submit? then s.change else w.proposals[s.id].change;
      assert AsksFor(w, s, c) && Written(r, w, c, v, false);
    }
  }

  /**
   An approval, exactly. It is refused and changes nothing unless the record is pending and not the approver's own;
   it closes the record as superseded, with the verdict of now, if that is no longer the recorded one; and otherwise
   it writes the change, and approves the record if the write completes.
   */
  lemma ApproveExactly<T, E, D>(r: Rules<T, E, D>, w: World<T, E, D>, id: nat, approver: string, approverId: string,
                                now: Diff<D>)
    requires id in w.proposals ==> Judged(r, w, w.proposals[id].change, now)
    ensures var (v, out) := DoStep(r, w, Approve(id, approver, approverId));
            if id !in w.proposals then v == w && out == Refused
            else
              var p := w.proposals[id];
              if p.state != Pending || (p.proposerId != "" && p.proposerId == approverId) then v == w && out == Refused
              else
                && OthersKept(w, v, id) && v.nextId == w.nextId && id in v.proposals
                && var q := v.proposals[id];
                   if now != p.diff then
                     && out == Refused && v.tables == w.tables && v.second == w.second
                     && q == Proposal(p.change, now, p.proposer, p.proposerId, Superseded, approver, p.ticket,
                                      p.applied)
                   else if out == Applied(id) then
                     && Written(r, w, p.change, v, true)
                     && q == Proposal(p.change, p.diff, p.proposer, p.proposerId, Approved, approver, BySecond, true)
                   else out == Raised && Written(r, w, p.change, v, false) && q == p
  {
  }

  /**
   A submission, exactly. A loosening under the second-approver mode, not made locally, is filed as pending and waits;
   anything else is written at once, under the ticket that says why, and stays pending only if the write raises.
   */
  lemma SubmitExactly<T, E, D>(r: Rules<T, E, D>, w: World<T, E, D>, local: bool, c: Change<E>, actor: string,
                               actorId: string, d: Diff<D>)
    requires Judged(r, w, c, d)
    ensures var (v, out) := DoStep(r, w, Submit(local, c, actor, actorId));
            && v.nextId == w.nextId + 1 && OthersKept(w, v, w.nextId) && w.nextId in v.proposals
            && var q := v.proposals[w.nextId];
               var pending := Proposal(c, d, actor, actorId, Pending, "", NoTicket, false);
               if d.class_ == Loosening && !local && w.second then
                 out == Queued(w.nextId) && v.tables == w.tables && v.second == w.second && q == pending
               else if out == Applied(w.nextId) then
                 && Written(r, w, c, v, true)
                 && q.ticket == (if d.class_ == Tightening then ByTightening else if local then ByLocal else BySelf)
                 && q == Proposal(c, d, actor, actorId, Approved, actor, q.ticket, true)
               else out == Raised && Written(r, w, c, v, false) && q == pending
  {
  }

  /** Rejecting is for any pending record, withdrawing for one's own or nobody's; both close it and nothing else. */
  lemma ClosingExactly<T, E, D>(r: Rules<T, E, D>, w: World<T, E, D>, s: Step<E>)
    requires s.Reject? || s.Withdraw?
    ensures var (v, out) := DoStep(r, w, s);
            && v.tables == w.tables && v.second == w.second && v.nextId == w.nextId
            && (out == Done <==>
                  && s.id in w.proposals && w.proposals[s.id].state == Pending
                  && (s.Withdraw? ==> w.proposals[s.id].proposerId == "" || w.proposals[s.id].proposerId == s.actorId))
            && (out != Done ==> out == Refused && v == w)
            && (out == Done ==>
                  && OthersKept(w, v, s.id) && s.id in v.proposals
                  && var p := w.proposals[s.id];
                     v.proposals[s.id] == Proposal(p.change, p.diff, p.proposer, p.proposerId,
                                                   if s.Reject? then Rejected else Withdrawn,
                                                   if s.Reject? then s.approver else s.actor, p.ticket, p.applied))
  {
  }

  /** The switch is a submission like any other, except that it is not turned on where fewer than two could approve. */
  lemma SwitchExactly<T, E, D>(r: Rules<T, E, D>, w: World<T, E, D>, s: Step<E>)
    requires s.SetSecondApprover?
    ensures DoStep(r, w, s) == if s.enable && s.activeAdmins < 2 then (w, Refused)
                               else DoStep(r, w, Submit(s.local, Settings(s.enable), s.actor, s.actorId))
  {
  }

  // ----- over runs, the tables are the applied changes replayed -----

  /** What the step wrote, if its outcome says that it applied something. */
  ghost function Wrote<T, E, D>(r: Rules<T, E, D>, w: World<T, E, D>, s: Step<E>): seq<Change<E>> {
    match DoStep(r, w, s).1
    case Applied(id) => if id in After(r, w, s).proposals then [After(r, w, s).proposals[id].change] else []
    case _ => []
  }

  /** The changes that a run reports as applied, oldest first, as its records name them. */
  ghost function AllWritten<T, E, D>(r: Rules<T, E, D>, w: World<T, E, D>, steps: seq<Step<E>>): seq<Change<E>> {
    if steps == [] then []
    else
      var front := steps[..|steps| - 1];
      AllWritten(r, w, front) + Wrote(r, Run(r, w, front), steps[|steps| - 1])
  }

  ghost predicate NoneRaised<T, E, D>(r: Rules<T, E, D>, w: World<T, E, D>, steps: seq<Step<E>>) {
    forall k :: 0 <= k < |steps| ==> DoStep(r, Run(r, w, steps[..k]), steps[k]).1 != Raised
  }

  /** Carrying the changes out one after the other, with nobody in between. */
  function Replay<T, E, D>(r: Rules<T, E, D>, tables: T, second: bool, changes: seq<Change<E>>): (T, bool) {
    if changes == [] then (tables, second)
    else
      var k := |changes| - 1;
      var (t, on) := Replay(r, tables, second, changes[..k]);
      if changes[k].Governance? then (r.perform(t, changes[k].edit).0, on) else (t, changes[k].requireSecond)
  }

  /**
   Over every run in which no write raised, the tables and the mode are the changes of the approved records, carried
   out in the order in which they were approved: no approval is without its write, and no write without its approval.
   */
  lemma {:induction false} RunIsReplay<T, E, D>(r: Rules<T, E, D>, w: World<T, E, D>, steps: seq<Step<E>>)
    requires IdsBehind(w) && NoneRaised(r, w, steps)
    ensures (Run(r, w, steps).tables, Run(r, w, steps).second)
            == Replay(r, w.tables, w.second, AllWritten(r, w, steps))
  {
    if steps != [] {
      var k := |steps| - 1;
      var front := steps[..k];
      assert forall i :: 0 <= i < k ==> front[..i] == steps[..i] && front[i] == steps[i];
      RunIsReplay(r, w, front);
      RunIdsBehind(r, w, front);
      OutcomeMeans(r, Run(r, w, front), steps[k]);
      ReplayOnward(r, w.tables, w.second, AllWritten(r, w, front), Wrote(r, Run(r, w, front), steps[k]));
    }
  }

  lemma {:induction false} ReplayOnward<T, E, D>(r: Rules<T, E, D>, tables: T, second: bool, changes: seq<Change<E>>,
      more: seq<Change<E>>)
    requires |more| <= 1
    ensures var (t, on) := Replay(r, tables, second, changes);
            Replay(r, tables, second, changes + more)
            == if more == [] then (t, on)
               else if more[0].Governance? then (r.perform(t, more[0].edit).0, on) else (t, more[0].requireSecond)
  {
    if more == [] {
      assert changes + more == changes;
    } else {
      assert (changes + more)[..|changes|] == changes;
    }
  }

  // ----- the service as it runs -----

  class ApprovalService<T, E, D(==)> {
    const rules: Rules<T, E, D>
    const local: bool
    var tables: T
    var second: bool
    var proposals: map<nat, Proposal<E, D>>
    var nextId: nat

    constructor (rules: Rules<T, E, D>, local: bool, w: World<T, E, D>)
      ensures this.rules == rules && this.local == local && Now() == w
    {
      this.rules, this.local := rules, local;
      tables, second, proposals, nextId := w.tables, w.second, w.proposals, w.nextId;
    }

    function Now(): World<T, E, D>
      reads this
    {
      World(tables, second, proposals, nextId)
    }

    method FileRecord(c: Change<E>, d: Diff<D>, proposer: string, proposerId: string) returns (id: nat)
      modifies `proposals, `nextId
      ensures id == old(nextId)
      ensures Now() == Filed(old(Now()), Proposal(c, d, proposer, proposerId, Pending, "", NoTicket, false))
    {
      id := nextId;
      proposals := proposals[id := Proposal(c, d, proposer, proposerId, Pending, "", NoTicket, false)];
      nextId := nextId + 1;
    }

    /** The UPDATE that only a pending row satisfies; a ticket comes with the time of application. */
    method DecideProposal(id: nat, state: Verdict, decider: string, ticket: Option<Ticket>, diff: Option<Diff<D>>)
      returns (won: bool)
      modifies `proposals
      ensures won == (id in old(proposals) && old(proposals)[id].state == Pending)
      ensures proposals == if won then old(proposals)[id := old(proposals)[id].(
                state := state, decidedBy := decider,
                ticket := if ticket.Some? then ticket.value else old(proposals)[id].ticket,
                applied := ticket.Some? || old(proposals)[id].applied,
                diff := if diff.Some? then diff.value else old(proposals)[id].diff)] else old(proposals)
    {
      won := id in proposals && proposals[id].state == Pending;
      if won {
        var p := proposals[id].(state := state, decidedBy := decider);
        if ticket.Some? {
          p := p.(ticket := ticket.value, applied := true);
        }
        if diff.Some? {
          p := p.(diff := diff.value);
        }
        proposals := proposals[id := p];
      }
    }

    method Apply(c: Change<E>) returns (ok: bool)
      modifies `tables, `second
      ensures (Now(), ok) == Perform(rules, old(Now()), c)
    {
      match c
      case Governance(e) =>
        var r := rules.perform(tables, e);
        tables, ok := r.0, r.1;
      case Settings(on) =>
        second, ok := on, true;
    }

    method SubmitChange(c: Change<E>, actor: string, actorId: string) returns (out: Outcome)
      modifies this
      ensures (Now(), out) == DoSubmit(rules, old(Now()), local, c, actor, actorId)
    {
      var diff := Classify(rules, Now(), c);
      var ticket := TicketFor(diff, local, second);
      var id := FileRecord(c, diff, actor, actorId);
      if ticket == NoTicket {
        return Queued(id);
      }
      var ok := Apply(c);
      if !ok {
        return Raised;
      }
      var won := DecideProposal(id, Approved, actor, Some(ticket), None);
      return Applied(id);
    }

    method ApproveProposal(id: nat, approver: string, approverId: string) returns (out: Outcome)
      modifies this
      ensures (Now(), out) == DoApprove(rules, old(Now()), id, approver, approverId)
    {
      if id !in proposals || proposals[id].state != Pending {
        return Refused;
      }
      var p := proposals[id];
      if p.proposerId != "" && approverId == p.proposerId {
        return Refused;
      }
      var now := Classify(rules, Now(), p.change);
      if now != p.diff {
        var won := DecideProposal(id, Superseded, approver, None, Some(now));
        return Refused;
      }
      var ok := Apply(p.change);
      if !ok {
        return Raised;
      }
      var won := DecideProposal(id, Approved, approver, Some(BySecond), None);
      return Applied(id);
    }

    method RejectProposal(id: nat, approver: string) returns (out: Outcome)
      modifies this
      ensures (Now(), out) == DoReject(old(Now()), id, approver)
    {
      if id !in proposals || proposals[id].state != Pending {
        return Refused;
      }
      var won := DecideProposal(id, Rejected, approver, None, None);
      return Done;
    }

    method WithdrawProposal(id: nat, actor: string, actorId: string) returns (out: Outcome)
      modifies this
      ensures (Now(), out) == DoWithdraw(old(Now()), id, actor, actorId)
    {
      if id !in proposals || proposals[id].state != Pending {
        return Refused;
      }
      if proposals[id].proposerId != "" && actorId != proposals[id].proposerId {
        return Refused;
      }
      var won := DecideProposal(id, Withdrawn, actor, None, None);
      return Done;
    }

    method SetSecondApproverMode(enable: bool, actor: string, actorId: string, activeAdmins: nat) returns (out: Outcome)
      modifies this
      ensures (Now(), out) == DoStep(rules, old(Now()), SetSecondApprover(local, enable, actor, actorId, activeAdmins))
    {
      if enable && activeAdmins < 2 {
        return Refused;
      }
      out := SubmitChange(Settings(enable), actor, actorId);
    }
  }
}
