/** What the entries of a session say: the active session's running summary and the report stored at its end. */
module SessionReport {
  import opened Prelude
  import opened SessionSplit

  datatype ActiveSession = ActiveSession(
    source: string, startTime: nat, lastTime: nat, lastHeartbeat: nat, allAuthorized: bool,
    entries: seq<Record>, prevHashes: seq<string>, nodesSeen: seq<string>,
    forensicCount: nat, checkpointCount: nat, verificationTimes: seq<nat>, totalNodes: nat,
    denialReason: Option<string>)

  datatype CompletedSession = CompletedSession(
    source: string, startTime: nat, endTime: nat, durationSecs: nat, heartbeatCount: nat, allAuthorized: bool,
    totalNodesVerified: nat, firstHash: string, lastHash: string, entries: seq<Record>,
    allHashesValid: bool, nodesSeen: seq<string>, failingNodes: seq<string>, forensicCaptures: nat, tpmCheckpoints: nat,
    avgVerificationMs: nat, maxVerificationMs: nat, denialReason: Option<string>)

  // --- what the entries of a session determine ---

  /** A list without its repetitions, in order of first appearance. */
  function Dedup(names: seq<string>): seq<string> {
    if names == [] then []
    else
      var d := Dedup(names[..|names| - 1]);
      if names[|names| - 1] in d then d else d + [names[|names| - 1]]
  }

  lemma {:induction false} DedupIsTheSet(names: seq<string>)
    ensures forall x :: x in Dedup(names) <==> x in names
    ensures forall i, j :: 0 <= i < j < |Dedup(names)| ==> Dedup(names)[i] != Dedup(names)[j]
  {
    if names != [] {
      var init, last := names[..|names| - 1], names[|names| - 1];
      DedupIsTheSet(init);
      assert names == init + [last];
    }
  }

  lemma DedupPush(names: seq<string>, x: string)
    ensures Dedup(names + [x]) == if x in Dedup(names) then Dedup(names) else Dedup(names) + [x]
  {
    assert (names + [x])[..|names|] == names;
  }

  function Names(nodes: seq<NodeVerdict>): seq<string> {
    if nodes == [] then []
    else
      var last := nodes[|nodes| - 1];
      Names(nodes[..|nodes| - 1]) + if last.name.Some? then [last.name.value] else []
  }

  function FailingIn(nodes: seq<NodeVerdict>): seq<string> {
    if nodes == [] then []
    else
      var last := nodes[|nodes| - 1];
      FailingIn(nodes[..|nodes| - 1]) +
      if last.pass then [] else [if last.name.Some? then last.name.value else "?"]
  }

  lemma FailingPush(nodes: seq<NodeVerdict>, j: nat)
    requires j < |nodes|
    ensures nodes[j].pass ==> FailingIn(nodes[..j + 1]) == FailingIn(nodes[..j])
    ensures var name := if nodes[j].name.Some? then nodes[j].name.value else "?";
            !nodes[j].pass ==> FailingIn(nodes[..j + 1]) == FailingIn(nodes[..j]) + [name]
  {
    assert nodes[..j + 1][..j] == nodes[..j];
  }

  function AllNames(es: seq<Record>): seq<string> {
    if es == [] then [] else AllNames(es[..|es| - 1]) + Names(es[|es| - 1].nodes)
  }

  function AllFailing(es: seq<Record>): seq<string> {
    if es == [] then [] else AllFailing(es[..|es| - 1]) + FailingIn(es[|es| - 1].nodes)
  }

  /** Each entry carries the hash of the entry before it, as the JSON library prints that one again. */
  predicate LinksHold(es: seq<Record>) {
    forall i :: 0 < i < |es| ==> es[i].prevHash == es[i - 1].reprintHash
  }

  predicate AllAuthorized(es: seq<Record>) {
    forall i :: 0 <= i < |es| ==> es[i].authorized
  }

  function FirstDenial(es: seq<Record>): Option<string> {
    if es == [] then None
    else if !es[0].authorized then Some(es[0].status)
    else FirstDenial(es[1..])
  }

  function PrevHashes(es: seq<Record>): seq<string> {
    if es == [] then [] else PrevHashes(es[..|es| - 1]) + [es[|es| - 1].prevHash]
  }

  function Durations(es: seq<Record>): seq<nat> {
    if es == [] then []
    else
      var last := es[|es| - 1].duration;
      Durations(es[..|es| - 1]) + if last.Some? then [last.value] else []
  }

  function Forensics(es: seq<Record>): nat {
    if es == [] then 0 else Forensics(es[..|es| - 1]) + if es[|es| - 1].forensic then 1 else 0
  }

  function Checkpoints(es: seq<Record>): nat {
    if es == [] then 0 else Checkpoints(es[..|es| - 1]) + if es[|es| - 1].checkpoint then 1 else 0
  }

  function MaxNodes(es: seq<Record>): nat {
    if es == [] then 0
    else
      var before := MaxNodes(es[..|es| - 1]);
      if es[|es| - 1].totalNodes > before then es[|es| - 1].totalNodes else before
  }

  function Max(times: seq<nat>): nat {
    if times == [] then 0
    else
      var before := Max(times[1..]);
      if times[0] > before then times[0] else before
  }

  function Sum(times: seq<nat>): nat {
    if times == [] then 0 else times[0] + Sum(times[1..])
  }

  function Average(times: seq<nat>): nat {
    if times == [] then 0 else Sum(times) / |times|
  }

  lemma {:induction false} MaxIsTheLargest(times: seq<nat>)
    ensures forall t :: t in times ==> t <= Max(times)
    ensures if times == [] then Max(times) == 0 else Max(times) in times
  {
    if times != [] {
      MaxIsTheLargest(times[1..]);
      assert times == [times[0]] + times[1..];
    }
  }

  lemma {:induction false} MaxNodesIsTheLargest(es: seq<Record>)
    ensures forall i :: 0 <= i < |es| ==> es[i].totalNodes <= MaxNodes(es)
    ensures es != [] ==> exists i :: 0 <= i < |es| && es[i].totalNodes == MaxNodes(es)
  {
    if es != [] {
      var n := |es| - 1;
      MaxNodesIsTheLargest(es[..n]);
      if es[n].totalNodes < MaxNodes(es) {
        assert MaxNodes(es) == MaxNodes(es[..n]) > 0 && es[..n] != [];
        var i :| 0 <= i < |es[..n]| && es[..n][i].totalNodes == MaxNodes(es[..n]);
        assert es[i].totalNodes == MaxNodes(es);
      } else {
        assert es[n].totalNodes == MaxNodes(es);
      }
    }
  }

  /** An active session as its entries determine it. */
  ghost function Summary(source: string, es: seq<Record>): ActiveSession
    requires es != []
  {
    var last := es[|es| - 1];
    ActiveSession(
      source, es[0].timestamp, last.timestamp, last.heartbeat, AllAuthorized(es), es, PrevHashes(es),
      Dedup(AllNames(es)), Forensics(es), Checkpoints(es), Durations(es), MaxNodes(es), FirstDenial(es))
  }

  /** A stored report as its entries determine it. */
  ghost function Report(source: string, es: seq<Record>): CompletedSession
    requires es != []
  {
    var start, end := es[0].timestamp, es[|es| - 1].timestamp;
    CompletedSession(
      source, start, end, if end >= start then end - start else 0, es[|es| - 1].heartbeat, AllAuthorized(es),
      MaxNodes(es), es[0].prevHash, es[|es| - 1].prevHash, es, LinksHold(es),
      Dedup(AllNames(es)), Dedup(AllFailing(es)), Forensics(es),
      Checkpoints(es), Average(Durations(es)), Max(Durations(es)), FirstDenial(es))
  }

  lemma {:induction false} PrevHashesEnds(es: seq<Record>)
    requires es != []
    ensures |PrevHashes(es)| == |es|
    ensures PrevHashes(es)[0] == es[0].prevHash && PrevHashes(es)[|es| - 1] == es[|es| - 1].prevHash
  {
    if |es| > 1 {
      PrevHashesEnds(es[..|es| - 1]);
    }
  }

  lemma {:induction false} DenialExplainsVerdict(es: seq<Record>)
    ensures FirstDenial(es) == None <==> AllAuthorized(es)
  {
    if es != [] {
      DenialExplainsVerdict(es[1..]);
      assert es == [es[0]] + es[1..];
    }
  }

  lemma {:induction false} FirstDenialAppend(es: seq<Record>, r: Record)
    ensures FirstDenial(es + [r]) ==
            if FirstDenial(es).Some? then FirstDenial(es) else if r.authorized then None else Some(r.status)
  {
    if es == [] {
      assert es + [r] == [r];
    } else {
      assert (es + [r])[1..] == es[1..] + [r];
      FirstDenialAppend(es[1..], r);
    }
  }

  // --- the updates ---

  method AddNodes(seen: seq<string>, nodes: seq<NodeVerdict>, ghost names: seq<string>) returns (all: seq<string>)
    requires seen == Dedup(names)
    ensures all == Dedup(names + Names(nodes))
  {
    var entryNodes := [];
    for i := 0 to |nodes|
      invariant entryNodes == Names(nodes[..i])
    {
      assert nodes[..i + 1][..i] == nodes[..i];
      if nodes[i].name.Some? {
        entryNodes := entryNodes + [nodes[i].name.value];
      }
    }
    assert nodes[..|nodes|] == nodes;
    all := AddNames(seen, entryNodes, names);
  }

  method AddNames(seen: seq<string>, more: seq<string>, ghost names: seq<string>) returns (all: seq<string>)
    requires seen == Dedup(names)
    ensures all == Dedup(names + more)
  {
    all := seen;
    assert names + more[..0] == names;
    for i := 0 to |more|
      invariant all == Dedup(names + more[..i])
    {
      assert (names + more[..i + 1])[..|names| + i] == names + more[..i];
      if more[i] !in all {
        all := all + [more[i]];
      }
    }
    assert more[..|more|] == more;
  }

  /** `or_insert_with`: a session about to receive its first entry. */
  function Begun(source: string, timestamp: nat): ActiveSession {
    ActiveSession(source, timestamp, timestamp, 0, true, [], [], [], 0, 0, [], 0, None)
  }

  lemma SummaryPush(source: string, es: seq<Record>, r: Record)
    ensures Summary(source, es + [r]) ==
            ActiveSession(
              source, if es == [] then r.timestamp else es[0].timestamp, r.timestamp, r.heartbeat,
              AllAuthorized(es) && r.authorized, es + [r], PrevHashes(es) + [r.prevHash],
              Dedup(AllNames(es) + Names(r.nodes)),
              Forensics(es) + (if r.forensic then 1 else 0),
              Checkpoints(es) + (if r.checkpoint then 1 else 0),
              Durations(es) + (if r.duration.Some? then [r.duration.value] else []),
              if r.totalNodes > MaxNodes(es) then r.totalNodes else MaxNodes(es),
              if FirstDenial(es).Some? then FirstDenial(es) else if r.authorized then None else Some(r.status))
  {
    assert (es + [r])[..|es|] == es;
    FirstDenialAppend(es, r);
    DenialExplainsVerdict(es);
    DenialExplainsVerdict(es + [r]);
  }

  method ExtendSession(s: ActiveSession, r: Record) returns (t: ActiveSession)
    requires if s.entries == [] then s == Begun(s.source, r.timestamp) else s == Summary(s.source, s.entries)
    ensures t == Summary(s.source, s.entries + [r])
  {
    SummaryPush(s.source, s.entries, r);
    t := s.(lastTime := r.timestamp, lastHeartbeat := r.heartbeat);
    t := JudgeEntry(t, r);
    t := CountEntry(t, r);
    var seen := AddNodes(t.nodesSeen, r.nodes, AllNames(s.entries));
    t := t.(nodesSeen := seen, entries := t.entries + [r]);
  }

  method JudgeEntry(s: ActiveSession, r: Record) returns (t: ActiveSession)
    ensures t == s.(allAuthorized := s.allAuthorized && r.authorized,
                    denialReason := if !r.authorized && s.denialReason.None? then Some(r.status) else s.denialReason)
  {
    t := s;
    if !r.authorized {
      t := t.(allAuthorized := false);
      if t.denialReason.None? {
        t := t.(denialReason := Some(r.status));
      }
    }
  }

  method CountEntry(s: ActiveSession, r: Record) returns (t: ActiveSession)
    ensures t == s.(prevHashes := s.prevHashes + [r.prevHash],
                    forensicCount := s.forensicCount + (if r.forensic then 1 else 0),
                    checkpointCount := s.checkpointCount + (if r.checkpoint then 1 else 0),
                    verificationTimes := s.verificationTimes + (if r.duration.Some? then [r.duration.value] else []),
                    totalNodes := if r.totalNodes > s.totalNodes then r.totalNodes else s.totalNodes)
  {
    t := s.(prevHashes := s.prevHashes + [r.prevHash]);
    if r.forensic {
      t := t.(forensicCount := t.forensicCount + 1);
    }
    if r.checkpoint {
      t := t.(checkpointCount := t.checkpointCount + 1);
    }
    if r.duration.Some? {
      t := t.(verificationTimes := t.verificationTimes + [r.duration.value]);
    }
    if r.totalNodes > t.totalNodes {
      t := t.(totalNodes := r.totalNodes);
    }
  }

  method FindFailing(es: seq<Record>) returns (failing: seq<string>)
    ensures failing == Dedup(AllFailing(es))
  {
    failing := [];
    for i := 0 to |es|
      invariant failing == Dedup(AllFailing(es[..i]))
    {
      assert es[..i + 1][..i] == es[..i];
      failing := AddFailing(failing, es[i].nodes, AllFailing(es[..i]));
    }
    assert es[..|es|] == es;
  }

  method AddFailing(failing: seq<string>, nodes: seq<NodeVerdict>, ghost names: seq<string>)
    returns (all: seq<string>)
    requires failing == Dedup(names)
    ensures all == Dedup(names + FailingIn(nodes))
  {
    all := failing;
    assert names + FailingIn(nodes[..0]) == names;
    for j := 0 to |nodes|
      invariant all == Dedup(names + FailingIn(nodes[..j]))
    {
      FailingPush(nodes, j);
      if !nodes[j].pass {
        var name := if nodes[j].name.Some? then nodes[j].name.value else "?";
        DedupPush(names + FailingIn(nodes[..j]), name);
        Regroup(names, FailingIn(nodes[..j]), [name]);
        if name !in all {
          all := all + [name];
        }
      }
    }
    assert nodes[..|nodes|] == nodes;
  }

  /** `verify_internal_chain`. */
  method VerifyInternalChain(es: seq<Record>) returns (ok: bool)
    ensures ok <==> LinksHold(es)
  {
    if |es| <= 1 {
      return true;
    }
    for i := 1 to |es|
      invariant forall j :: 0 < j < i ==> es[j].prevHash == es[j - 1].reprintHash
    {
      if es[i].prevHash != es[i - 1].reprintHash {
        return false;
      }
    }
    ok := true;
  }

  method BuildReport(s: ActiveSession) returns (c: CompletedSession)
    requires s.entries != [] && s == Summary(s.source, s.entries)
    ensures c == Report(s.source, s.entries) && c.source == s.source && c.entries == s.entries
  {
    var endTime := s.lastTime;
    var duration := if endTime >= s.startTime then endTime - s.startTime else 0;
    PrevHashesEnds(s.entries);
    var firstHash := if s.prevHashes == [] then "" else s.prevHashes[0];
    var lastHash := if s.prevHashes == [] then "" else s.prevHashes[|s.prevHashes| - 1];
    var times := s.verificationTimes;
    var chainOk := VerifyInternalChain(s.entries);
    var failing := FindFailing(s.entries);
    c := CompletedSession(
      s.source, s.startTime, endTime, duration, s.lastHeartbeat, s.allAuthorized, s.totalNodes,
      firstHash, lastHash, s.entries, chainOk, s.nodesSeen, failing, s.forensicCount, s.checkpointCount,
      Average(times), Max(times), s.denialReason);
  }

  // --- lists of reports ---

  /** Every stored report is the one its own entries determine. */
  ghost predicate AllReport(stored: seq<CompletedSession>) {
    stored == [] ||
    (var last := stored[|stored| - 1];
     AllReport(stored[..|stored| - 1]) && last.entries != [] && last == Report(last.source, last.entries))
  }

  lemma AllReportPush(stored: seq<CompletedSession>, c: CompletedSession)
    requires AllReport(stored) && c.entries != [] && c == Report(c.source, c.entries)
    ensures AllReport(stored + [c])
  {
    assert (stored + [c])[..|stored|] == stored;
  }

  lemma {:induction false} StoredIsReport(stored: seq<CompletedSession>, i: nat)
    requires AllReport(stored) && i < |stored|
    ensures stored[i].entries != [] && stored[i] == Report(stored[i].source, stored[i].entries)
  {
    if i < |stored| - 1 {
      StoredIsReport(stored[..|stored| - 1], i);
    }
  }

  /** What a stored report says is true of the entries stored with it. */
  lemma StoredReportIsTrue(stored: seq<CompletedSession>, i: nat)
    requires AllReport(stored) && i < |stored|
    ensures var c := stored[i];
            && (c.allAuthorized <==> forall k :: 0 <= k < |c.entries| ==> c.entries[k].authorized)
            && (c.denialReason == None <==> c.allAuthorized)
            && (forall x :: x in c.nodesSeen <==> x in AllNames(c.entries))
            && (forall a, b :: 0 <= a < b < |c.nodesSeen| ==> c.nodesSeen[a] != c.nodesSeen[b])
            && (forall x :: x in c.failingNodes <==> x in AllFailing(c.entries))
            && (forall a, b :: 0 <= a < b < |c.failingNodes| ==> c.failingNodes[a] != c.failingNodes[b])
  {
    StoredIsReport(stored, i);
    var es := stored[i].entries;
    DenialExplainsVerdict(es);
    DedupIsTheSet(AllNames(es));
    DedupIsTheSet(AllFailing(es));
  }

  /** The maxima in a stored report are attained by its entries and exceeded by none. */
  lemma StoredMaximaAreTrue(stored: seq<CompletedSession>, i: nat)
    requires AllReport(stored) && i < |stored|
    ensures var c := stored[i];
            && (forall t :: t in Durations(c.entries) ==> t <= c.maxVerificationMs)
            && (if Durations(c.entries) == [] then c.maxVerificationMs == 0
                else c.maxVerificationMs in Durations(c.entries))
    ensures var c := stored[i];
            && (forall k :: 0 <= k < |c.entries| ==> c.entries[k].totalNodes <= c.totalNodesVerified)
            && (exists k :: 0 <= k < |c.entries| && c.entries[k].totalNodes == c.totalNodesVerified)
  {
    StoredMaxima(stored, i);
    MaxIsTheLargest(Durations(stored[i].entries));
    MaxNodesIsTheLargest(stored[i].entries);
  }

  lemma StoredMaxima(stored: seq<CompletedSession>, i: nat)
    requires AllReport(stored) && i < |stored|
    ensures var c := stored[i];
            && c.entries != []
            && c.maxVerificationMs == Max(Durations(c.entries)) && c.totalNodesVerified == MaxNodes(c.entries)
  {
    StoredIsReport(stored, i);
  }

  // --- the counts and lists, entry by entry ---

  /** Captures and checkpoints are counted entry by entry. */
  lemma CountsGrowByEntry(es: seq<Record>, r: Record)
    ensures Forensics([]) == 0 && Forensics(es + [r]) == Forensics(es) + if r.forensic then 1 else 0
    ensures Checkpoints([]) == 0 && Checkpoints(es + [r]) == Checkpoints(es) + if r.checkpoint then 1 else 0
  {
    assert (es + [r])[..|es|] == es;
  }

  /** The average is the sum divided by the number, rounded down, and zero of nothing. */
  lemma AverageIsRoundedDown(times: seq<nat>)
    ensures times == [] ==> Average(times) == 0
    ensures times != [] ==> Average(times) * |times| <= Sum(times) < (Average(times) + 1) * |times|
  {
  }

  lemma {:induction false} SumAdds(a: seq<nat>, b: seq<nat>, t: nat)
    ensures Sum([]) == 0 && Sum([t]) == t && Sum(a + b) == Sum(a) + Sum(b)
  {
    if a == [] {
      assert a + b == b;
    } else {
      assert (a + b)[0] == a[0] && (a + b)[1..] == a[1..] + b;
      SumAdds(a[1..], b, t);
    }
  }

  /** Lists made entry by entry: one more entry adds its own part at the end. */
  lemma ListsGrowByEntry(es: seq<Record>, r: Record)
    ensures Durations(es + [r]) == Durations(es) + if r.duration.Some? then [r.duration.value] else []
    ensures PrevHashes(es + [r]) == PrevHashes(es) + [r.prevHash]
    ensures AllNames(es + [r]) == AllNames(es) + Names(r.nodes)
    ensures AllFailing(es + [r]) == AllFailing(es) + FailingIn(r.nodes)
  {
    assert (es + [r])[..|es|] == es;
  }

  /** One more node adds its name, if it has one, and "?" or its name if it fails. */
  lemma NamesGrowByNode(nodes: seq<NodeVerdict>, v: NodeVerdict)
    ensures Names(nodes + [v]) == Names(nodes) + if v.name.Some? then [v.name.value] else []
    ensures FailingIn(nodes + [v]) ==
            FailingIn(nodes) + if v.pass then [] else [if v.name.Some? then v.name.value else "?"]
  {
    assert (nodes + [v])[..|nodes|] == nodes;
  }

  /** Names keep the order of their first appearance: more names never change what is there. */
  lemma {:induction false} DedupGrows(names: seq<string>, more: seq<string>)
    ensures Dedup(names) <= Dedup(names + more)
  {
    if more == [] {
      assert names + more == names;
    } else {
      var init := more[..|more| - 1];
      DedupGrows(names, init);
      assert names + more == (names + init) + [more[|more| - 1]];
      DedupPush(names + init, more[|more| - 1]);
    }
  }

  /** The reason for a denial is the status of the first entry that is not authorised. */
  lemma {:induction false} DenialIsTheFirst(es: seq<Record>, i: nat)
    requires i < |es| && !es[i].authorized && forall j :: 0 <= j < i ==> es[j].authorized
    ensures FirstDenial(es) == Some(es[i].status)
  {
    if i > 0 {
      DenialIsTheFirst(es[1..], i - 1);
    }
  }

  /** The plain fields of a report are those of its first and last entries. */
  predicate FieldsAreTrue(c: CompletedSession) {
    var n := |c.entries| - 1;
    && n >= 0 && c.startTime == c.entries[0].timestamp && c.endTime == c.entries[n].timestamp
    && c.durationSecs == (if c.endTime < c.startTime then 0 else c.endTime - c.startTime)
    && c.heartbeatCount == c.entries[n].heartbeat
    && c.firstHash == c.entries[0].prevHash && c.lastHash == c.entries[n].prevHash
  }

  lemma PlainFields(source: string, es: seq<Record>)
    requires es != []
    ensures FieldsAreTrue(Report(source, es))
  {
  }

  lemma {:induction false} StoredFieldsAreTrue(stored: seq<CompletedSession>, i: nat)
    requires AllReport(stored) && i < |stored|
    ensures FieldsAreTrue(stored[i])
  {
    if i < |stored| - 1 {
      StoredFieldsAreTrue(stored[..|stored| - 1], i);
    } else {
      PlainFields(stored[i].source, stored[i].entries);
    }
  }

  /** The counted fields of a stored report, and its flag for the chain within it. */
  lemma StoredCountsAreTrue(stored: seq<CompletedSession>, i: nat)
    requires AllReport(stored) && i < |stored|
    ensures var c := stored[i];
            && c.forensicCaptures == Forensics(c.entries) && c.tpmCheckpoints == Checkpoints(c.entries)
            && c.avgVerificationMs == Average(Durations(c.entries))
            && (c.allHashesValid <==>
                  forall j :: 0 < j < |c.entries| ==> c.entries[j].prevHash == c.entries[j - 1].reprintHash)
  {
    StoredIsReport(stored, i);
    var c := stored[i];
    CountedFields(c.source, c.entries);
  }

  lemma CountedFields(source: string, es: seq<Record>)
    requires es != []
    ensures var c := Report(source, es);
            && c.forensicCaptures == Forensics(es) && c.tpmCheckpoints == Checkpoints(es)
            && c.avgVerificationMs == Average(Durations(es)) && c.allHashesValid == LinksHold(es)
  {
  }
}
