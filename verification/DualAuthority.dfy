/**
 vm4, the second authority of `dual_authority/mod.rs`: concurrent vm0 requests share one
 mutex-guarded pending slot with operator B's commands; each request waits on its own
 one-shot channel with a timeout. A step is what one task does between two points where
 another may run; operator B's credential check holds the mutex across such a point, so it
 is two steps.
 */
module DualAuthority {
  import opened Prelude

  type Id = nat

  /** A request's one-shot channel as its waiting handler sees it. */
  datatype Channel = Empty | Sent(approve: bool) | SenderGone

  /** Where a request's handler is. `TimedOut` has dropped its receiver but not yet cleaned up. */
  datatype Phase = Verified | Waiting(channel: Channel) | TimedOut | Decided(approved: bool)

  datatype Request = Request(vm0Attested: bool, vm0Approved: bool, phase: Phase)

  datatype State = State(requests: map<Id, Request>, slot: Option<Id>, validating: bool)

  datatype Event =
    | Arrive(id: Id, vm0Attested: bool, vm0Approved: bool)
    | Store(id: Id)
    | Receive(id: Id)
    | Timeout(id: Id)
    | CleanUp(id: Id)
    | AuthenticateBegin
    | AuthenticateEnd(valid: bool)
    | Revoke
    | Status

  const INITIAL := State(map[], None, false)

  predicate InPhase(st: State, id: Id, phase: Phase) {
    id in st.requests && st.requests[id].phase == phase
  }

  function SetPhase(st: State, id: Id, phase: Phase): State
    requires id in st.requests
  {
    st.(requests := st.requests[id := st.requests[id].(phase := phase)])
  }

  /** Empty the slot, sending `answer` on the channel of the request in it or just dropping it. */
  function TakeSlot(st: State, answer: Channel): State {
    var cleared := st.(slot := None);
    if st.slot.Some? && InPhase(st, st.slot.value, Waiting(Empty))
    then SetPhase(cleared, st.slot.value, Waiting(answer))
    else cleared
  }

  /** The steps that take the mutex wait while a credential check holds it. */
  predicate Enabled(st: State, ev: Event) {
    match ev
    case Arrive(id, _, _) => id !in st.requests
    case Store(id) => InPhase(st, id, Verified) && !st.validating
    case Receive(id) => InPhase(st, id, Waiting(Sent(true))) || InPhase(st, id, Waiting(Sent(false)))
                        || InPhase(st, id, Waiting(SenderGone))
    case Timeout(id) => InPhase(st, id, Waiting(Empty))
    case CleanUp(id) => InPhase(st, id, TimedOut) && !st.validating
    case AuthenticateBegin => !st.validating
    case AuthenticateEnd(_) => st.validating
    case Revoke => !st.validating
    case Status => !st.validating
  }

  function Step(st: State, ev: Event): State
    requires Enabled(st, ev)
  {
    match ev
    case Arrive(id, attested, approved) =>
      st.(requests := st.requests[id := Request(attested, approved,
                                                if attested && approved then Verified else Decided(false))])
    case Store(id) => SetPhase(TakeSlot(st, SenderGone), id, Waiting(Empty)).(slot := Some(id))
    case Receive(id) =>
      SetPhase(st, id, Decided(st.requests[id].phase.channel == Sent(true)))
    case Timeout(id) => SetPhase(st, id, TimedOut)
    case CleanUp(id) => SetPhase(TakeSlot(st, SenderGone), id, Decided(false))
    case AuthenticateBegin => st.(validating := st.slot.Some?)
    case AuthenticateEnd(valid) => TakeSlot(st, Sent(valid)).(validating := false)
    case Revoke => TakeSlot(st, Sent(false))
    case Status => st
  }

  // --- runs: every interleaving of the steps ---

  ghost predicate Run(sts: seq<State>, evs: seq<Event>) {
    && |sts| == |evs| + 1 && sts[0] == INITIAL
    && forall i :: 0 <= i < |evs| ==> Enabled(sts[i], evs[i]) && sts[i + 1] == Step(sts[i], evs[i])
  }

  /**
   The slot holds a request that waits or has just timed out; a waiting request outside the
   slot has been answered or dropped; only verified requests get past arrival.
   */
  ghost predicate Inv(st: State) {
    && (st.slot.Some? ==> InPhase(st, st.slot.value, Waiting(Empty)) || InPhase(st, st.slot.value, TimedOut))
    && (st.validating ==> st.slot.Some?)
    && (forall id :: id in st.requests ==>
          && (st.requests[id].phase == Waiting(Empty) ==> st.slot == Some(id))
          && (st.requests[id].phase != Decided(false) ==> st.requests[id].vm0Attested && st.requests[id].vm0Approved))
  }

  lemma StepKeepsInv(st: State, ev: Event)
    requires Inv(st) && Enabled(st, ev)
    ensures Inv(Step(st, ev))
  {}

  lemma {:induction false} ReachableInv(sts: seq<State>, evs: seq<Event>, i: nat)
    requires Run(sts, evs) && i <= |evs|
    ensures Inv(sts[i])
  {
    if i > 0 {
      ReachableInv(sts, evs, i - 1);
      StepKeepsInv(sts[i - 1], evs[i - 1]);
    }
  }

  /** A decision, once taken, is never taken again or changed. */
  lemma {:induction false} DecisionsAreFinal(sts: seq<State>, evs: seq<Event>, i: nat, j: nat, id: Id, b: bool)
    requires Run(sts, evs) && i <= j <= |evs| && InPhase(sts[i], id, Decided(b))
    ensures InPhase(sts[j], id, Decided(b))
  {
    if i < j {
      DecisionsAreFinal(sts, evs, i, j - 1, id, b);
      ReachableInv(sts, evs, j - 1);
    }
  }

  /** Approved, or about to be: the approval is in the channel. */
  predicate Approving(st: State, id: Id) {
    InPhase(st, id, Waiting(Sent(true))) || InPhase(st, id, Decided(true))
  }

  /** Operator B validated at step `k`, while this request was the one in the slot and waiting. */
  ghost predicate ValidatedAt(sts: seq<State>, evs: seq<Event>, k: nat, id: Id)
    requires |sts| == |evs| + 1
  {
    k < |evs| && evs[k] == AuthenticateEnd(true) && sts[k].validating && sts[k].slot == Some(id)
    && InPhase(sts[k], id, Waiting(Empty))
  }

  /** A step that approves a request is a validation with the request in the slot. */
  lemma ApprovingStep(st: State, ev: Event, id: Id)
    requires Inv(st) && Enabled(st, ev) && !Approving(st, id) && Approving(Step(st, ev), id)
    ensures ev == AuthenticateEnd(true) && st.validating && st.slot == Some(id) && InPhase(st, id, Waiting(Empty))
  {}

  /**
   Approval safety: an approved request passed attestation, was pre-approved by vm0, and was
   in the slot when operator B validated.
   */
  lemma {:induction false} ApprovalIsAuthorized(sts: seq<State>, evs: seq<Event>, n: nat, id: Id) returns (k: nat)
    requires Run(sts, evs) && n <= |evs| && Approving(sts[n], id)
    ensures k < n && ValidatedAt(sts, evs, k, id)
    ensures sts[n].requests[id].vm0Attested && sts[n].requests[id].vm0Approved
  {
    ReachableInv(sts, evs, n);
    if Approving(sts[n - 1], id) {
      k := ApprovalIsAuthorized(sts, evs, n - 1, id);
    } else {
      ReachableInv(sts, evs, n - 1);
      ApprovingStep(sts[n - 1], evs[n - 1], id);
      k := n - 1;
    }
  }

  /** A request that can no longer be approved. */
  predicate Doomed(st: State, id: Id) {
    InPhase(st, id, Waiting(Sent(false))) || InPhase(st, id, Waiting(SenderGone))
    || InPhase(st, id, TimedOut) || InPhase(st, id, Decided(false))
  }

  /**
   How a request can lose: refused on arrival, displaced by a newer one, refused by a failed
   credential check, revoked, timed out, or dropped from the slot by the clean-up of another.
   */
  predicate Loses(st: State, ev: Event, id: Id) {
    match ev
    case Arrive(i, attested, approved) => i == id && !(attested && approved)
    case Timeout(i) => i == id
    case Store(_) => InSlot(st, id)
    case CleanUp(_) => InSlot(st, id)
    case AuthenticateEnd(valid) => !valid && InSlot(st, id)
    case Revoke => InSlot(st, id)
    case _ => false
  }

  predicate InSlot(st: State, id: Id) {
    st.slot == Some(id) && InPhase(st, id, Waiting(Empty))
  }

  /** A step dooms a request exactly if the request loses in it, or is doomed already. */
  lemma LosersAreDoomed(st: State, ev: Event, id: Id)
    requires Inv(st) && Enabled(st, ev)
    ensures Doomed(Step(st, ev), id) <==> Doomed(st, id) || Loses(st, ev, id)
  {}

  /** Every denial has a cause: some earlier step in which the request lost. */
  lemma {:induction false} DenialHasACause(sts: seq<State>, evs: seq<Event>, n: nat, id: Id) returns (k: nat)
    requires Run(sts, evs) && n <= |evs| && Doomed(sts[n], id)
    ensures k < n && Loses(sts[k], evs[k], id)
  {
    ReachableInv(sts, evs, n - 1);
    LosersAreDoomed(sts[n - 1], evs[n - 1], id);
    if Doomed(sts[n - 1], id) {
      k := DenialHasACause(sts, evs, n - 1, id);
    } else {
      k := n - 1;
    }
  }

  /** The clean-up after a timeout empties the slot: it denies another request exactly if that one waits there. */
  lemma CleanUpDeniesExactlyTheSlot(st: State, i: Id, id: Id)
    requires Inv(st) && Enabled(st, CleanUp(i)) && !Doomed(st, id)
    ensures Doomed(Step(st, CleanUp(i)), id) <==> st.slot == Some(id)
    ensures st.slot == Some(id) ==> id != i && InSlot(st, id)
  {
    LosersAreDoomed(st, CleanUp(i), id);
  }

  /** A request that waits in the slot has been there since it was stored. */
  lemma {:induction false} InSlotSince(sts: seq<State>, evs: seq<Event>, k: nat, id: Id) returns (s: nat)
    requires Run(sts, evs) && k <= |evs| && InSlot(sts[k], id)
    ensures s < k && evs[s] == Store(id) && forall j :: s < j <= k ==> sts[j].slot == Some(id)
  {
    var st, ev := sts[k - 1], evs[k - 1];
    assert Enabled(st, ev) && sts[k] == Step(st, ev);
    ReachableInv(sts, evs, k - 1);
    SlotStep(st, ev, id);
    if InSlot(st, id) {
      s := InSlotSince(sts, evs, k - 1, id);
    } else {
      s := k - 1;
    }
  }

  lemma SlotStep(st: State, ev: Event, id: Id)
    requires Inv(st) && Enabled(st, ev) && InSlot(Step(st, ev), id)
    ensures InSlot(st, id) || ev == Store(id)
  {}

  lemma {:induction false} TimedOutSince(sts: seq<State>, evs: seq<Event>, k: nat, i: Id) returns (t: nat)
    requires Run(sts, evs) && k <= |evs| && InPhase(sts[k], i, TimedOut)
    ensures t < k && evs[t] == Timeout(i)
  {
    var st, ev := sts[k - 1], evs[k - 1];
    assert Enabled(st, ev) && sts[k] == Step(st, ev);
    TimedOutStep(st, ev, i);
    if InPhase(st, i, TimedOut) {
      t := TimedOutSince(sts, evs, k - 1, i);
    } else {
      t := k - 1;
    }
  }

  lemma TimedOutStep(st: State, ev: Event, i: Id)
    requires Enabled(st, ev) && InPhase(Step(st, ev), i, TimedOut)
    ensures InPhase(st, i, TimedOut) || ev == Timeout(i)
  {}

  /** Over runs: a request that a clean-up denies was stored between the timeout and that clean-up. */
  lemma DeniedWasStoredBetween(sts: seq<State>, evs: seq<Event>, k: nat, i: Id, id: Id) returns (t: nat, s: nat)
    requires Run(sts, evs) && k < |evs| && evs[k] == CleanUp(i)
    requires !Doomed(sts[k], id) && Doomed(sts[k + 1], id)
    ensures t < s < k && evs[t] == Timeout(i) && evs[s] == Store(id) && id != i
    ensures forall j :: s < j <= k ==> sts[j].slot == Some(id)
  {
    ReachableInv(sts, evs, k);
    assert Enabled(sts[k], evs[k]) && sts[k + 1] == Step(sts[k], evs[k]);
    CleanUpDeniesExactlyTheSlot(sts[k], i, id);
    t := TimedOutSince(sts, evs, k, i);
    s := InSlotSince(sts, evs, k, id);
    assert Enabled(sts[t], evs[t]);
    ReachableInv(sts, evs, t);
    assert sts[t].slot == Some(i);
  }

  lemma RunExtends(sts: seq<State>, evs: seq<Event>, ev: Event)
    requires Run(sts, evs) && Enabled(sts[|evs|], ev)
    ensures Run(sts + [Step(sts[|evs|], ev)], evs + [ev])
  {
  }

  /** Request 0 times out; before its clean-up, request 1 is stored. */
  lemma StoredBeforeCleanUp() returns (sts: seq<State>, evs: seq<Event>)
    ensures Run(sts, evs) && sts[|evs|].slot == Some(1) && !sts[|evs|].validating
    ensures InPhase(sts[|evs|], 0, TimedOut) && InPhase(sts[|evs|], 1, Waiting(Empty))
    ensures forall k :: 0 <= k < |evs| ==> !Loses(sts[k], evs[k], 1)
  {
    evs := [Arrive(0, true, true), Store(0), Timeout(0), Arrive(1, true, true), Store(1)];
    var s1 := Step(INITIAL, evs[0]);
    var s2 := Step(s1, evs[1]);
    var s3 := Step(s2, evs[2]);
    var s4 := Step(s3, evs[3]);
    sts := [INITIAL, s1, s2, s3, s4, Step(s4, evs[4])];
  }

  /** A run that denies request 1 although nobody refused, displaced, revoked or timed it out. */
  lemma DeniedByAnothersCleanUp() returns (sts: seq<State>, evs: seq<Event>)
    ensures Run(sts, evs) && InPhase(sts[|evs|], 1, Decided(false))
    ensures forall k :: 0 <= k < |evs| && Loses(sts[k], evs[k], 1) ==> evs[k] == CleanUp(0)
  {
    sts, evs := StoredBeforeCleanUp();
    RunExtends(sts, evs, CleanUp(0));
    sts, evs := sts + [Step(sts[|evs|], CleanUp(0))], evs + [CleanUp(0)];
    RunExtends(sts, evs, Receive(1));
    sts, evs := sts + [Step(sts[|evs|], Receive(1))], evs + [Receive(1)];
  }

  lemma DoomedIsNotApproving(st: State, id: Id)
    requires Doomed(st, id)
    ensures !Approving(st, id)
  {}

  /** A doomed request stays doomed, so the only decision it can ever get is a denial. */
  lemma {:induction false} DoomedIsNeverApproved(sts: seq<State>, evs: seq<Event>, i: nat, j: nat, id: Id)
    requires Run(sts, evs) && i <= j <= |evs| && Doomed(sts[i], id)
    ensures Doomed(sts[j], id) && !Approving(sts[j], id)
  {
    if i < j {
      DoomedIsNeverApproved(sts, evs, i, j - 1, id);
      ReachableInv(sts, evs, j - 1);
      var st, ev := sts[j - 1], evs[j - 1];
      assert Enabled(st, ev) && sts[j] == Step(st, ev);
      LosersAreDoomed(st, ev, id);
    }
    DoomedIsNotApproving(sts[j], id);
  }

  // --- what is still possible ---

  /** These events, one after the other, lead from `st` to `st'`. */
  ghost predicate Leads(st: State, evs: seq<Event>, st': State)
    decreases |evs|
  {
    if evs == [] then st == st'
    else Enabled(st, evs[0]) && Leads(Step(st, evs[0]), evs[1..], st')
  }

  lemma {:induction false} LeadsAppend(st: State, evs: seq<Event>, mid: State, ev: Event)
    requires Leads(st, evs, mid) && Enabled(mid, ev)
    ensures Leads(st, evs + [ev], Step(mid, ev))
    decreases |evs|
  {
    if evs == [] {
      assert evs + [ev] == [ev] && [ev][1..] == [];
    } else {
      assert (evs + [ev])[1..] == evs[1..] + [ev];
      LeadsAppend(Step(st, evs[0]), evs[1..], mid, ev);
    }
  }

  /** A running credential check can end without harm to a request outside the slot. */
  lemma FreeTheMutex(st: State) returns (evs: seq<Event>, st': State)
    requires Inv(st)
    ensures |evs| <= 1 && Leads(st, evs, st') && Inv(st') && !st'.validating
    ensures forall id :: id in st.requests && st.slot != Some(id) ==>
              id in st'.requests && st'.requests[id] == st.requests[id]
    ensures forall id :: InPhase(st, id, TimedOut) ==> InPhase(st', id, TimedOut)
  {
    if st.validating {
      evs, st' := [AuthenticateEnd(false)], Step(st, AuthenticateEnd(false));
      StepKeepsInv(st, AuthenticateEnd(false));
      assert evs[1..] == [];
    } else {
      evs, st' := [], st;
    }
  }

  /** A request in the slot that waits can be approved in at most three steps. */
  lemma ApproveFromSlot(st: State, id: Id) returns (evs: seq<Event>, st': State)
    requires Inv(st) && InSlot(st, id)
    ensures |evs| <= 3 && Leads(st, evs, st') && InPhase(st', id, Decided(true))
  {
    evs, st' := [], st;
    if !st.validating {
      LeadsAppend(st, evs, st', AuthenticateBegin);
      evs, st' := evs + [AuthenticateBegin], Step(st', AuthenticateBegin);
    }
    LeadsAppend(st, evs, st', AuthenticateEnd(true));
    evs, st' := evs + [AuthenticateEnd(true)], Step(st', AuthenticateEnd(true));
    LeadsAppend(st, evs, st', Receive(id));
    evs, st' := evs + [Receive(id)], Step(st', Receive(id));
  }

  lemma {:induction false} LeadsConcat(st: State, a: seq<Event>, mid: State, b: seq<Event>, st': State)
    requires Leads(st, a, mid) && Leads(mid, b, st')
    ensures Leads(st, a + b, st')
    decreases |a|
  {
    if a == [] {
      assert a + b == b;
    } else {
      assert (a + b)[1..] == a[1..] + b;
      LeadsConcat(Step(st, a[0]), a[1..], mid, b, st');
    }
  }

  /** As long as a request is not doomed, five steps can approve it. */
  lemma ApprovableUntilDoomed(st: State, id: Id) returns (evs: seq<Event>, st': State)
    requires Inv(st) && id in st.requests && !Doomed(st, id)
    ensures |evs| <= 5 && Leads(st, evs, st') && InPhase(st', id, Decided(true))
  {
    match st.requests[id].phase
    case Decided(_) => evs, st' := [], st;
    case Waiting(Sent(_)) =>
      evs, st' := [Receive(id)], Step(st, Receive(id));
      assert evs[1..] == [];
    case Waiting(Empty) => evs, st' := ApproveFromSlot(st, id);
    case Verified =>
      var first, free := FreeTheMutex(st);
      assert InPhase(free, id, Verified);
      LeadsAppend(st, first, free, Store(id));
      var mid := Step(free, Store(id));
      StepKeepsInv(free, Store(id));
      var rest;
      rest, st' := ApproveFromSlot(mid, id);
      LeadsConcat(st, first + [Store(id)], mid, rest, st');
      evs := first + [Store(id)] + rest;
  }

  /** No request is forgotten: from every reachable state at most five steps decide it. */
  lemma EveryRequestCanBeDecided(sts: seq<State>, evs: seq<Event>, i: nat, id: Id)
    returns (more: seq<Event>, st': State, approved: bool)
    requires Run(sts, evs) && i <= |evs| && id in sts[i].requests
    ensures |more| <= 5 && Leads(sts[i], more, st') && InPhase(st', id, Decided(approved))
    ensures approved <==> !Doomed(sts[i], id)
  {
    var st := sts[i];
    ReachableInv(sts, evs, i);
    approved := !Doomed(st, id);
    if approved {
      more, st' := ApprovableUntilDoomed(st, id);
    } else {
      more, st' := DenyDoomed(st, id);
    }
  }

  lemma DenyDoomed(st: State, id: Id) returns (evs: seq<Event>, st': State)
    requires Inv(st) && Doomed(st, id)
    ensures |evs| <= 2 && Leads(st, evs, st') && InPhase(st', id, Decided(false))
  {
    match st.requests[id].phase
    case Decided(_) => evs, st' := [], st;
    case Waiting(_) =>
      evs, st' := [Receive(id)], Step(st, Receive(id));
      assert evs[1..] == [];
    case TimedOut =>
      var first, free := FreeTheMutex(st);
      LeadsAppend(st, first, free, CleanUp(id));
      evs, st' := first + [CleanUp(id)], Step(free, CleanUp(id));
  }

  // --- one validation approves at most one request ---

  ghost function Validations(evs: seq<Event>): nat {
    if evs == [] then 0
    else Validations(evs[..|evs| - 1]) + if evs[|evs| - 1] == AuthenticateEnd(true) then 1 else 0
  }

  ghost function ApprovingIds(st: State): set<Id> {
    set id | id in st.requests && Approving(st, id)
  }

  lemma StepApprovesAtMostOne(st: State, ev: Event)
    requires Inv(st) && Enabled(st, ev)
    ensures |ApprovingIds(Step(st, ev))| <= |ApprovingIds(st)| + if ev == AuthenticateEnd(true) then 1 else 0
  {
    var before, after := ApprovingIds(st), ApprovingIds(Step(st, ev));
    if ev == AuthenticateEnd(true) {
      assert after <= before + {st.slot.value};
      CardinalityMonotone(after, before + {st.slot.value});
    } else {
      assert after <= before;
      CardinalityMonotone(after, before);
    }
  }

  lemma {:induction false} CardinalityMonotone(a: set<Id>, b: set<Id>)
    requires a <= b
    ensures |a| <= |b|
  {
    if a != {} {
      var x :| x in a;
      CardinalityMonotone(a - {x}, b - {x});
    }
  }

  /** Approvals never outnumber operator B's successful validations. */
  lemma {:induction false} ApprovalsAreCounted(sts: seq<State>, evs: seq<Event>, n: nat)
    requires Run(sts, evs) && n <= |evs|
    ensures |ApprovingIds(sts[n])| <= Validations(evs[..n])
  {
    if n > 0 {
      ApprovalsAreCounted(sts, evs, n - 1);
      ReachableInv(sts, evs, n - 1);
      StepApprovesAtMostOne(sts[n - 1], evs[n - 1]);
      assert evs[..n][..n - 1] == evs[..n - 1];
    }
  }

  // --- what operator B and vm0 are told ---

  /** Operator B's command-line reply to a finished credential check depends on nothing else. */
  predicate OperatorToldAuthorized(ev: Event) {
    ev == AuthenticateEnd(true)
  }

  /**
   "Authorized" on operator B's terminal means the request is approved exactly when its
   handler had not timed out while the credentials were being checked.
   */
  lemma AuthorizedMeansApproved(sts: seq<State>, evs: seq<Event>, k: nat)
    requires Run(sts, evs) && k < |evs| && OperatorToldAuthorized(evs[k])
    ensures sts[k].slot.Some?
    ensures Approving(sts[k + 1], sts[k].slot.value) <==> !InPhase(sts[k], sts[k].slot.value, TimedOut)
    ensures InPhase(sts[k], sts[k].slot.value, TimedOut) ==> Doomed(sts[k + 1], sts[k].slot.value)
  {
    ReachableInv(sts, evs, k);
  }

  /** A run in which operator B is told "Authorized" for a request that ends denied. */
  lemma AuthorizedYetDenied() returns (sts: seq<State>, evs: seq<Event>)
    ensures Run(sts, evs) && (exists k :: 0 <= k < |evs| && OperatorToldAuthorized(evs[k]))
    ensures sts[|evs|].requests.Keys == {0} && InPhase(sts[|evs|], 0, Decided(false))
  {
    evs := [Arrive(0, true, true), Store(0), AuthenticateBegin, Timeout(0), AuthenticateEnd(true), CleanUp(0)];
    var s1 := Step(INITIAL, evs[0]);
    var s2 := Step(s1, evs[1]);
    var s3 := Step(s2, evs[2]);
    var s4 := Step(s3, evs[3]);
    var s5 := Step(s4, evs[4]);
    sts := [INITIAL, s1, s2, s3, s4, s5, Step(s5, evs[5])];
    assert OperatorToldAuthorized(evs[4]);
  }

  /** `vm0_mutual_attest_vm4`: vm0 goes on only if vm4's attestation passed and vm4 answered yes. */
  function Vm0Proceeds(vm4Attested: bool, vm4Decision: bool): bool {
    vm4Decision && vm4Attested
  }

  /** The last step of `vm0_mutual_attest_vm4`. */
  method Vm0MutualAttest(vm4Attested: bool, vm4Decision: bool) returns (ok: bool)
    ensures ok <==> vm4Attested && vm4Decision
    ensures ok == Vm0Proceeds(vm4Attested, vm4Decision)
  {
    if vm4Decision && vm4Attested {
      ok := true;
    } else {
      ok := false;
    }
  }

  /**
   Both authorities: vm0 pre-approves what it found of vm4's attestation, so when it goes on,
   each side attested the other and operator B validated with this request in the slot.
   */
  lemma BothAuthoritiesAgreed(sts: seq<State>, evs: seq<Event>, n: nat, id: Id, vm4Attested: bool, decision: bool)
    returns (k: nat)
    requires Run(sts, evs) && n <= |evs| && InPhase(sts[n], id, Decided(decision))
    requires sts[n].requests[id].vm0Approved == vm4Attested
    requires Vm0Proceeds(vm4Attested, decision)
    ensures vm4Attested && decision && sts[n].requests[id].vm0Attested && k < n && ValidatedAt(sts, evs, k, id)
  {
    k := ApprovalIsAuthorized(sts, evs, n, id);
  }
}
