/**
 vm0's session of `main.rs`: the command loop checks, installs and revokes sessions while
 the heartbeat driver spawned for each session runs beside it, sharing two atomic flags.
 A step is what the command loop or one driver does between two await points. The wall
 clock never goes back.
 */
module OrchestratorSession {
  import opened Prelude

  const U64_MAX := 0xFFFF_FFFF_FFFF_FFFF

  /** Where a driver is: about to test the revoke flag, in its select, waiting for a result, leaving, gone. */
  datatype Driver = Top | Selecting | AwaitingResult | Leaving | Gone

  datatype Session = Session(
    expiry: nat,
    revokeFlag: bool,
    ended: bool,
    driver: Driver,
    sequence: nat,
    pings: seq<nat>,
    failed: bool)

  datatype State = State(sessions: seq<Session>, active: Option<nat>, authenticating: bool, now: nat)

  const INITIAL := State([], None, false, 0)

  /** What answers a ping. */
  datatype Answer = ChainOk | ChainFailed | VmEnded | Unexpected | ReceiveError | NoAnswer

  datatype Event =
    | AuthenticateBegin
    | AuthenticateFails
    | Install(expiry: nat)
    | CliRevoke
    | CliStatus
    | TestRevoke(k: nat)
    | PingTick(k: nat, sendOk: bool)
    | TtlExpires(k: nat)
    | Result(k: nat, answer: Answer)
    | Exit(k: nat)
    | Clock(now: nat)

  predicate DriverAt(st: State, k: nat, d: Driver) {
    k < |st.sessions| && st.sessions[k].driver == d
  }

  /** The condition under which `build_status_response` reports an active session. */
  predicate ReportsActive(st: State) {
    st.active.Some? && st.active.value < |st.sessions|
    && !st.sessions[st.active.value].ended && st.sessions[st.active.value].expiry > st.now
  }

  predicate Enabled(st: State, ev: Event) {
    match ev
    case AuthenticateBegin => !st.authenticating
    case AuthenticateFails => st.authenticating
    case Install(_) => st.authenticating
    case CliRevoke => !st.authenticating
    case CliStatus => !st.authenticating
    case TestRevoke(k) => DriverAt(st, k, Top)
    case PingTick(k, _) => DriverAt(st, k, Selecting)
    case TtlExpires(k) => DriverAt(st, k, Selecting)
    case Result(k, _) => DriverAt(st, k, AwaitingResult)
    case Exit(k) => DriverAt(st, k, Leaving)
    case Clock(now) => st.now <= now
  }

  function SaturatingSucc(n: nat): nat {
    if n < U64_MAX then n + 1 else U64_MAX
  }

  function Update(st: State, k: nat, s: Session): State
    requires k < |st.sessions|
  {
    st.(sessions := st.sessions[k := s])
  }

  function Step(st: State, ev: Event): State
    requires Enabled(st, ev)
  {
    match ev
    case AuthenticateBegin =>
      // refused at once while a session is stored, not ended and not expired
      st.(authenticating := !ReportsActive(st))
    case AuthenticateFails => st.(authenticating := false)
    case Install(expiry) =>
      State(st.sessions + [Session(expiry, false, false, Top, 0, [], false)], Some(|st.sessions|), false, st.now)
    case CliRevoke =>
      if st.active.None? || st.active.value >= |st.sessions| then st
      else
        var s := st.sessions[st.active.value];
        if s.ended then st.(active := None) else Update(st, st.active.value, s.(revokeFlag := true))
    case CliStatus => st
    case TestRevoke(k) =>
      Update(st, k, st.sessions[k].(driver := if st.sessions[k].revokeFlag then Leaving else Selecting))
    case PingTick(k, sendOk) =>
      var s := st.sessions[k];
      var seqNo := SaturatingSucc(s.sequence);
      var driver := if sendOk then AwaitingResult else Leaving;
      Update(st, k, s.(sequence := seqNo, pings := s.pings + [seqNo], driver := driver))
    case TtlExpires(k) => Update(st, k, st.sessions[k].(driver := Leaving))
    case Result(k, answer) =>
      Update(st, k, st.sessions[k].(
        driver := if answer == ChainOk || answer == Unexpected then Top else Leaving,
        failed := st.sessions[k].failed || answer == ChainFailed))
    case Exit(k) => Update(st, k, st.sessions[k].(driver := Gone, ended := true))
    case Clock(now) => st.(now := now)
  }

  ghost predicate Run(sts: seq<State>, evs: seq<Event>) {
    && |sts| == |evs| + 1 && sts[0] == INITIAL
    && forall i :: 0 <= i < |evs| ==> Enabled(sts[i], evs[i]) && sts[i + 1] == Step(sts[i], evs[i])
  }

  /** A session that no longer stands in the way of a new one. */
  predicate Over(st: State, k: nat)
    requires k < |st.sessions|
  {
    st.sessions[k].ended || st.sessions[k].expiry <= st.now
  }

  ghost predicate SessionInv(s: Session) {
    && (s.ended <==> s.driver == Gone)
    && (s.failed ==> s.driver == Leaving || s.driver == Gone)
    && s.sequence <= U64_MAX
    && s.sequence == (if |s.pings| < U64_MAX then |s.pings| else U64_MAX)
    && (forall i :: 0 <= i < |s.pings| ==> s.pings[i] == if i + 1 < U64_MAX then i + 1 else U64_MAX)
  }

  ghost predicate Inv(st: State) {
    && (st.active.Some? ==> st.active.value < |st.sessions|)
    && (forall k :: 0 <= k < |st.sessions| ==> SessionInv(st.sessions[k]))
    && (forall k :: 0 <= k < |st.sessions| && (st.active != Some(k) || st.authenticating) ==> Over(st, k))
  }

  lemma StepKeepsInv(st: State, ev: Event)
    requires Inv(st) && Enabled(st, ev)
    ensures Inv(Step(st, ev))
  {
    var st' := Step(st, ev);
    forall k | 0 <= k < |st'.sessions| && (st'.active != Some(k) || st'.authenticating)
      ensures Over(st', k)
    {
      if k < |st.sessions| && (st.active != Some(k) || st.authenticating) {
        assert Over(st, k);
      }
    }
  }

  lemma {:induction false} ReachableInv(sts: seq<State>, evs: seq<Event>, i: nat)
    requires Run(sts, evs) && i <= |evs|
    ensures Inv(sts[i])
  {
    if i > 0 {
      ReachableInv(sts, evs, i - 1);
      StepKeepsInv(sts[i - 1], evs[i - 1]);
    }
  }

  /** Ping numbers are 1, 2, 3, ... in order, up to the saturation of the 64-bit counter. */
  lemma PingsAreNumbered(sts: seq<State>, evs: seq<Event>, i: nat, k: nat, n: nat)
    requires Run(sts, evs) && i <= |evs| && k < |sts[i].sessions| && n < |sts[i].sessions[k].pings|
    ensures sts[i].sessions[k].pings[n] == if n + 1 < 0xFFFF_FFFF_FFFF_FFFF then n + 1 else 0xFFFF_FFFF_FFFF_FFFF
  {
    ReachableInv(sts, evs, i);
  }

  /** How many more pings a session may send, as far as its flags tell. */
  function PingsLeftAfterRevoke(s: Session): nat {
    if s.driver == Selecting then 1 else 0
  }

  /** A revoked session sends nothing more once its select is over. */
  lemma StepAfterRevoke(st: State, ev: Event, k: nat)
    requires Enabled(st, ev) && k < |st.sessions| && st.sessions[k].revokeFlag
    ensures k < |Step(st, ev).sessions| && Step(st, ev).sessions[k].revokeFlag
    ensures |Step(st, ev).sessions[k].pings| + PingsLeftAfterRevoke(Step(st, ev).sessions[k])
            <= |st.sessions[k].pings| + PingsLeftAfterRevoke(st.sessions[k])
  {}

  /** At most one ping follows a set revoke flag, in every interleaving. */
  lemma {:induction false} AtMostOnePingAfterRevoke(sts: seq<State>, evs: seq<Event>, i: nat, j: nat, k: nat)
    requires Run(sts, evs) && i <= j <= |evs| && k < |sts[i].sessions| && sts[i].sessions[k].revokeFlag
    ensures k < |sts[j].sessions| && sts[j].sessions[k].revokeFlag
    ensures |sts[j].sessions[k].pings| + PingsLeftAfterRevoke(sts[j].sessions[k])
            <= |sts[i].sessions[k].pings| + PingsLeftAfterRevoke(sts[i].sessions[k])
    ensures |sts[j].sessions[k].pings| <= |sts[i].sessions[k].pings| + 1
  {
    if i < j {
      AtMostOnePingAfterRevoke(sts, evs, i, j - 1, k);
      StepAfterRevoke(sts[j - 1], evs[j - 1], k);
    }
  }

  lemma StepRaisesFlags(st: State, ev: Event, k: nat)
    requires Inv(st) && Enabled(st, ev) && k < |st.sessions|
    ensures k < |Step(st, ev).sessions|
    ensures st.sessions[k].revokeFlag ==> Step(st, ev).sessions[k].revokeFlag
    ensures st.sessions[k].ended ==> Step(st, ev).sessions[k].ended
    ensures st.sessions[k].failed ==> Step(st, ev).sessions[k].failed
    ensures st.sessions[k].failed || st.sessions[k].ended ==>
              Step(st, ev).sessions[k].pings == st.sessions[k].pings
  {
    assert SessionInv(st.sessions[k]);
  }

  /** Both flags only go from false to true, and no ping follows a failed heartbeat or an end. */
  lemma {:induction false} FlagsOnlyRise(sts: seq<State>, evs: seq<Event>, i: nat, j: nat, k: nat)
    requires Run(sts, evs) && i <= j <= |evs| && k < |sts[i].sessions|
    ensures k < |sts[j].sessions|
    ensures sts[i].sessions[k].revokeFlag ==> sts[j].sessions[k].revokeFlag
    ensures sts[i].sessions[k].ended ==> sts[j].sessions[k].ended
    ensures sts[i].sessions[k].failed ==> sts[j].sessions[k].failed
    ensures sts[i].sessions[k].failed || sts[i].sessions[k].ended ==>
              sts[j].sessions[k].pings == sts[i].sessions[k].pings
  {
    if i < j {
      FlagsOnlyRise(sts, evs, i, j - 1, k);
      ReachableInv(sts, evs, j - 1);
      StepRaisesFlags(sts[j - 1], evs[j - 1], k);
    }
  }

  /** When a session is installed, every earlier one has ended or expired. */
  lemma InstallIsExclusive(sts: seq<State>, evs: seq<Event>, i: nat, k: nat)
    requires Run(sts, evs) && i < |evs| && evs[i].Install? && k < |sts[i].sessions|
    ensures Over(sts[i], k) && Over(sts[i + 1], k)
  {
    ReachableInv(sts, evs, i);
  }

  /**
   At most one session is ever both unended and unexpired, and `Authenticate` is refused
   exactly while there is one: the same condition under which `Status` reports it.
   */
  lemma RefusedExactlyWhileActive(sts: seq<State>, evs: seq<Event>, i: nat)
    requires Run(sts, evs) && i < |evs| && evs[i] == AuthenticateBegin
    ensures !sts[i + 1].authenticating <==> ReportsActive(sts[i])
    ensures ReportsActive(sts[i]) <==> exists k :: 0 <= k < |sts[i].sessions| && !Over(sts[i], k)
    ensures forall k, l | 0 <= k < |sts[i].sessions| && 0 <= l < |sts[i].sessions| ::
              !Over(sts[i], k) && !Over(sts[i], l) ==> k == l
  {
    ReachableInv(sts, evs, i);
    if ReportsActive(sts[i]) {
      assert !Over(sts[i], sts[i].active.value);
    }
  }

  // --- what each event does, over whole runs ---

  /** A revoke of the active session, if it has not ended, sets its flag, and then at most one more ping is sent. */
  lemma RevokeStopsTheSession(sts: seq<State>, evs: seq<Event>, i: nat, j: nat, k: nat)
    requires Run(sts, evs) && i < j <= |evs| && evs[i] == CliRevoke
    requires sts[i].active == Some(k) && k < |sts[i].sessions| && !sts[i].sessions[k].ended
    ensures k < |sts[j].sessions| && sts[j].sessions[k].revokeFlag
    ensures |sts[j].sessions[k].pings| <= |sts[i].sessions[k].pings| + 1
  {
    var st, ev := sts[i], evs[i];
    assert Enabled(st, ev) && sts[i + 1] == Step(st, ev);
    AtMostOnePingAfterRevoke(sts, evs, i + 1, j, k);
  }

  /** Only a revoke of that session while it was active and had not ended sets its flag. */
  lemma {:induction false} RevokedHasACause(sts: seq<State>, evs: seq<Event>, n: nat, k: nat) returns (i: nat)
    requires Run(sts, evs) && n <= |evs| && k < |sts[n].sessions| && sts[n].sessions[k].revokeFlag
    ensures i < n && evs[i] == CliRevoke && sts[i].active == Some(k)
    ensures k < |sts[i].sessions| && !sts[i].sessions[k].ended
  {
    var st, ev := sts[n - 1], evs[n - 1];
    assert Enabled(st, ev) && sts[n] == Step(st, ev);
    if k < |st.sessions| && st.sessions[k].revokeFlag {
      i := RevokedHasACause(sts, evs, n - 1, k);
    } else {
      i := n - 1;
    }
  }

  /** The events after which a driver leaves its loop. */
  predicate Stops(st: State, ev: Event, k: nat)
    requires k < |st.sessions|
  {
    match ev
    case TestRevoke(l) => l == k && st.sessions[k].revokeFlag
    case TtlExpires(l) => l == k
    case PingTick(l, sendOk) => l == k && !sendOk
    case Result(l, answer) => l == k && answer in {ChainFailed, VmEnded, ReceiveError, NoAnswer}
    case _ => false
  }

  predicate Stopped(st: State, k: nat) {
    DriverAt(st, k, Leaving) || DriverAt(st, k, Gone)
  }

  /** A driver stops exactly on a seen revoke, its deadline, a failed send, a failed heartbeat, an end or no answer. */
  lemma StopsExactlyOn(st: State, ev: Event, k: nat)
    requires Enabled(st, ev) && k < |st.sessions|
    ensures k < |Step(st, ev).sessions|
    ensures Stopped(Step(st, ev), k) <==> Stopped(st, k) || Stops(st, ev, k)
    ensures Step(st, ev).sessions[k].failed <==> st.sessions[k].failed || ev == Result(k, ChainFailed)
    ensures Step(st, ev).sessions[k].ended <==> st.sessions[k].ended || ev == Exit(k)
  {
  }

  /** Once stopped, for good: no ping follows. */
  lemma {:induction false} StoppedForGood(sts: seq<State>, evs: seq<Event>, i: nat, j: nat, k: nat)
    requires Run(sts, evs) && i <= j <= |evs| && k < |sts[i].sessions| && Stopped(sts[i], k)
    ensures k < |sts[j].sessions| && Stopped(sts[j], k) && sts[j].sessions[k].pings == sts[i].sessions[k].pings
  {
    if i < j {
      StoppedForGood(sts, evs, i, j - 1, k);
      var st, ev := sts[j - 1], evs[j - 1];
      assert Enabled(st, ev) && sts[j] == Step(st, ev);
    }
  }

  /** A ping is sent exactly by a tick of that session's timer, and then answered before the next one. */
  lemma PingsExactlyOnTicks(st: State, ev: Event, k: nat)
    requires Enabled(st, ev) && k < |st.sessions|
    ensures var n := if ev.PingTick? && ev.k == k then 1 else 0;
            k < |Step(st, ev).sessions| && |Step(st, ev).sessions[k].pings| == |st.sessions[k].pings| + n
    ensures ev.PingTick? && ev.k == k && ev.sendOk ==> DriverAt(Step(st, ev), k, AwaitingResult)
    ensures DriverAt(st, k, AwaitingResult) && !DriverAt(Step(st, ev), k, AwaitingResult) ==>
              ev.Result? && ev.k == k
  {
  }

  /** An installed session is the active one, unrevoked and unended, with its own expiry. */
  lemma InstallStores(sts: seq<State>, evs: seq<Event>, i: nat)
    requires Run(sts, evs) && i < |evs| && evs[i].Install?
    ensures var k := |sts[i].sessions|;
            && sts[i + 1].active == Some(k) && |sts[i + 1].sessions| == k + 1 && !sts[i + 1].authenticating
            && sts[i + 1].sessions[k].expiry == evs[i].expiry && sts[i + 1].sessions[k].pings == []
            && !sts[i + 1].sessions[k].revokeFlag && !sts[i + 1].sessions[k].ended
            && (ReportsActive(sts[i + 1]) <==> evs[i].expiry > sts[i].now)
  {
    var st, ev := sts[i], evs[i];
    assert Enabled(st, ev) && sts[i + 1] == Step(st, ev);
  }

  /** No event changes an expiry, and only another session or a revoke after the end replaces the active one. */
  lemma ActiveStays(st: State, ev: Event, k: nat)
    requires Enabled(st, ev) && k < |st.sessions|
    ensures k < |Step(st, ev).sessions| && Step(st, ev).sessions[k].expiry == st.sessions[k].expiry
    ensures st.active == Some(k) && Step(st, ev).active != Some(k) ==>
              ev.Install? || (ev == CliRevoke && st.sessions[k].ended)
    ensures ev.Clock? ==> Step(st, ev).now == ev.now
  {
  }

  /** An authentication under way ends exactly by failing or by installing a session. */
  lemma AuthenticatingExactlyUntil(st: State, ev: Event)
    requires Enabled(st, ev)
    ensures st.authenticating ==> (Step(st, ev).authenticating <==> !ev.AuthenticateFails? && !ev.Install?)
    ensures !st.authenticating ==> (Step(st, ev).authenticating <==> ev.AuthenticateBegin? && !ReportsActive(st))
    ensures ev.AuthenticateFails? ==> Step(st, ev).sessions == st.sessions && Step(st, ev).active == st.active
  {
  }
}
