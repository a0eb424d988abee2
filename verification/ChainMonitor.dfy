/** The monitor's hash-chain check over the entries that each source delivers. */
module ChainMonitor {
  import opened Prelude
  import opened AuditLog

  datatype SourceState = SourceState(
    connected: bool, lastSeq: nat, lastHeartbeat: nat, prevHash: string, received: nat, chainIntact: bool)

  datatype Event = Connect(node: string) | Deliver(node: string, json: string) | Disconnect(node: string)

  // --- what each connection has delivered ---

  predicate Known(h: seq<Event>, node: string) {
    exists i :: 0 <= i < |h| && h[i] == Connect(node)
  }

  predicate Connected(h: seq<Event>, node: string) {
    h != [] &&
    match h[|h| - 1]
    case Connect(n) => n == node || Connected(h[..|h| - 1], node)
    case Disconnect(n) => n != node && Connected(h[..|h| - 1], node)
    case Deliver(_, _) => Connected(h[..|h| - 1], node)
  }

  /** The entries accepted from a source since it last connected. */
  function Stream(c: Codec, h: seq<Event>, node: string): seq<string> {
    if h == [] then []
    else
      var soFar := Stream(c, h[..|h| - 1], node);
      match h[|h| - 1]
      case Connect(n) => if n == node then [] else soFar
      case Deliver(n, json) => if n == node && c.parse(json).Some? then soFar + [json] else soFar
      case Disconnect(_) => soFar
  }

  /** `next` carries the hash of `line`. */
  predicate Linked(c: Codec, line: string, next: string) {
    c.parse(next).Some? && c.parse(next).value.prevHash == c.hash(line)
  }

  /** The unlinked adjacent pairs of a stream. */
  function Breaks(c: Codec, stream: seq<string>): nat {
    if |stream| < 2 then 0
    else Breaks(c, stream[..|stream| - 1]) + if Linked(c, stream[|stream| - 2], stream[|stream| - 1]) then 0 else 1
  }

  /** What an event adds to the break count: one for an entry that does not link to its source's last one. */
  function BreakAdded(c: Codec, h: seq<Event>, e: Event): nat {
    match e
    case Deliver(n, json) =>
      var stream := Stream(c, h, n);
      if c.parse(json).Some? && Known(h, n) && stream != [] && !Linked(c, stream[|stream| - 1], json) then 1 else 0
    case _ => 0
  }

  /** The breaks of every connection there has been. */
  function TotalBreaks(c: Codec, h: seq<Event>): nat {
    if h == [] then 0 else TotalBreaks(c, h[..|h| - 1]) + BreakAdded(c, h[..|h| - 1], h[|h| - 1])
  }

  /** One source's share of them. */
  function Share(c: Codec, h: seq<Event>, node: string): nat {
    if h == [] then 0
    else Share(c, h[..|h| - 1], node) + if h[|h| - 1].node == node then BreakAdded(c, h[..|h| - 1], h[|h| - 1]) else 0
  }

  /** The state of a source, as far as its stream determines it. */
  ghost predicate Reflects(c: Codec, s: SourceState, stream: seq<string>, connected: bool) {
    && s.connected == connected
    && s.received == |stream|
    && (s.chainIntact <==> Breaks(c, stream) == 0)
    && (stream != [] ==> s.prevHash == c.hash(stream[|stream| - 1]))
    && (stream != [] ==>
          var last := c.parse(stream[|stream| - 1]);
          last.Some? && s.lastSeq == last.value.seqNo && s.lastHeartbeat == last.value.heartbeat)
  }

  ghost predicate TracksNode(c: Codec, sources: map<string, SourceState>, h: seq<Event>, n: string) {
    && (n in sources <==> Known(h, n))
    && (n in sources ==> Reflects(c, sources[n], Stream(c, h, n), Connected(h, n)))
  }

  class Monitor {
    var sources: map<string, SourceState>
    var totalChainBreaks: nat
    var crossVerified: bool
    var totalCrossMismatches: nat

    constructor (c: Codec)
      ensures Tracks(c, []) && !crossVerified && totalCrossMismatches == 0
    {
      sources, totalChainBreaks, crossVerified, totalCrossMismatches := map[], 0, false, 0;
    }

    ghost predicate Tracks(c: Codec, h: seq<Event>)
      reads this
    {
      (forall n :: TracksNode(c, sources, h, n)) && totalChainBreaks == TotalBreaks(c, h)
    }

    method HandleConnect(c: Codec, node: string, ghost h: seq<Event>)
      requires Tracks(c, h)
      modifies this
      ensures Tracks(c, h + [Connect(node)])
      ensures crossVerified == old(crossVerified) && totalCrossMismatches == old(totalCrossMismatches)
    {
      assert TracksNode(c, sources, h, node);
      KnownStep(h, Connect(node), node);
      sources := sources[node := SourceState(true, 0, 0, "", 0, true)];
      TrackStep(c, old(sources), sources, h, Connect(node));
    }

    method HandleDisconnect(c: Codec, node: string, ghost h: seq<Event>)
      requires Tracks(c, h)
      modifies this
      ensures Tracks(c, h + [Disconnect(node)])
      ensures crossVerified == old(crossVerified) && totalCrossMismatches == old(totalCrossMismatches)
    {
      assert TracksNode(c, sources, h, node);
      KnownStep(h, Disconnect(node), node);
      if node in sources {
        sources := sources[node := sources[node].(connected := false)];
      }
      TrackStep(c, old(sources), sources, h, Disconnect(node));
    }

    /** One `Entry` message; the answer is `Ack` or, for text that does not parse, `Reject`. */
    method HandleEntry(c: Codec, node: string, json: string, crossVerify: bool, ghost h: seq<Event>)
      returns (ack: bool)
      requires Tracks(c, h)
      modifies this
      ensures Tracks(c, h + [Deliver(node, json)])
      ensures ack <==> c.parse(json).Some?
      ensures ack && crossVerify && |sources| >= 2 ==>
                && (crossVerified <==> Agree(sources))
                && totalCrossMismatches == old(totalCrossMismatches) + if OneBroken(sources) then 1 else 0
      ensures !(ack && crossVerify && |sources| >= 2) ==>
                crossVerified == old(crossVerified) && totalCrossMismatches == old(totalCrossMismatches)
    {
      match c.parse(json)
      case None =>
        assert TracksNode(c, sources, h, node);
        KnownStep(h, Deliver(node, json), node);
        TrackStep(c, sources, sources, h, Deliver(node, json));
        ack := false;
      case Some(entry) =>
        RecordEntry(c, node, json, entry, h);
        if crossVerify && |sources| >= 2 {
          CrossVerifySources();
        }
        ack := true;
    }

    /** The chain check and the source-state update for an entry that parsed. */
    method RecordEntry(c: Codec, node: string, json: string, entry: Entry, ghost h: seq<Event>)
      requires Tracks(c, h) && c.parse(json) == Some(entry)
      modifies this`sources, this`totalChainBreaks
      ensures Tracks(c, h + [Deliver(node, json)])
    {
      assert TracksNode(c, sources, h, node);
      KnownStep(h, Deliver(node, json), node);
      var chainOk := node in sources ==> sources[node].received == 0 || entry.prevHash == sources[node].prevHash;
      if !chainOk {
        totalChainBreaks := totalChainBreaks + 1;
        if node in sources {
          sources := sources[node := sources[node].(chainIntact := false)];
        }
      }
      var entryHash := c.hash(json);
      if node in sources {
        ReflectsNext(c, old(sources)[node], Stream(c, h, node), Connected(h, node), json, entry);
        var s := sources[node];
        sources := sources[node := s.(lastSeq := entry.seqNo, lastHeartbeat := entry.heartbeat,
                                      prevHash := entryHash, received := s.received + 1)];
      }
      TrackStep(c, old(sources), sources, h, Deliver(node, json));
    }

    method CrossVerifySources()
      modifies this`crossVerified, this`totalCrossMismatches
      ensures crossVerified <==> Agree(sources)
      ensures crossVerified <==>
                && "vm2" in sources && sources["vm2"].connected && sources["vm2"].chainIntact
                && "vm3" in sources && sources["vm3"].connected && sources["vm3"].chainIntact
                && -2 <= sources["vm2"].lastHeartbeat - sources["vm3"].lastHeartbeat <= 2
      ensures totalCrossMismatches == old(totalCrossMismatches) + if OneBroken(sources) then 1 else 0
      ensures totalCrossMismatches > old(totalCrossMismatches) <==>
                && "vm2" in sources && sources["vm2"].connected && "vm3" in sources && sources["vm3"].connected
                && (!sources["vm2"].chainIntact || !sources["vm3"].chainIntact)
    {
      if "vm2" !in sources || "vm3" !in sources {
        crossVerified := false;
        return;
      }
      var s2, s3 := sources["vm2"], sources["vm3"];
      if !s2.connected || !s3.connected {
        crossVerified := false;
        return;
      }
      if !s2.chainIntact || !s3.chainIntact {
        crossVerified := false;
        totalCrossMismatches := totalCrossMismatches + 1;
        return;
      }
      var gap := s2.lastHeartbeat - s3.lastHeartbeat;
      crossVerified := (if gap < 0 then -gap else gap) <= 2;
    }
  }

  predicate BothConnected(sources: map<string, SourceState>) {
    "vm2" in sources && "vm3" in sources && sources["vm2"].connected && sources["vm3"].connected
  }

  /** Both verifiers are connected, and the chain of one of them is broken. */
  predicate OneBroken(sources: map<string, SourceState>) {
    BothConnected(sources) && !(sources["vm2"].chainIntact && sources["vm3"].chainIntact)
  }

  /** Both verifiers are connected, unbroken and at most two heartbeats apart. */
  predicate Agree(sources: map<string, SourceState>) {
    && BothConnected(sources)
    && sources["vm2"].chainIntact && sources["vm3"].chainIntact
    && sources["vm2"].lastHeartbeat <= sources["vm3"].lastHeartbeat + 2
    && sources["vm3"].lastHeartbeat <= sources["vm2"].lastHeartbeat + 2
  }

  /** The two maps hold the same of every node but one. */
  ghost predicate SameBut(before: map<string, SourceState>, after: map<string, SourceState>, node: string) {
    after - {node} == before - {node}
  }

  /** An event about one node leaves what is tracked of every other node as it was. */
  lemma TrackStep(c: Codec, before: map<string, SourceState>, after: map<string, SourceState>, h: seq<Event>, e: Event)
    requires forall n :: TracksNode(c, before, h, n)
    requires SameBut(before, after, e.node) && TracksNode(c, after, h + [e], e.node)
    ensures forall n :: TracksNode(c, after, h + [e], n)
  {
    forall n | n != e.node
      ensures TracksNode(c, after, h + [e], n)
    {
      OtherNode(c, before, after, h, e, n);
    }
  }

  lemma OtherNode(c: Codec, before: map<string, SourceState>, after: map<string, SourceState>,
                  h: seq<Event>, e: Event, n: string)
    requires TracksNode(c, before, h, n) && SameBut(before, after, e.node) && n != e.node
    ensures TracksNode(c, after, h + [e], n)
  {
    KnownStep(h, e, n);
    assert n in after <==> n in after - {e.node};
    assert n in before <==> n in before - {e.node};
    if n in before {
      assert (before - {e.node})[n] == before[n];
      assert (after - {e.node})[n] == after[n];
    }
  }

  lemma KnownStep(h: seq<Event>, e: Event, n: string)
    ensures Known(h + [e], n) <==> Known(h, n) || e == Connect(n)
    ensures (h + [e])[..|h|] == h && (h + [e])[|h|] == e
  {
    assert (h + [e])[|h|] == e;
    if Known(h, n) {
      var i :| 0 <= i < |h| && h[i] == Connect(n);
      assert (h + [e])[i] == Connect(n);
    }
  }

  /** The update of a source keeps its state in step with its longer stream. */
  lemma ReflectsNext(c: Codec, s: SourceState, stream: seq<string>, connected: bool, json: string, entry: Entry)
    requires Reflects(c, s, stream, connected) && c.parse(json) == Some(entry)
    ensures var ok := s.received == 0 || entry.prevHash == s.prevHash;
            && Reflects(c, SourceState(s.connected, entry.seqNo, entry.heartbeat, c.hash(json), s.received + 1,
                                       s.chainIntact && ok), stream + [json], connected)
            && (ok <==> stream == [] || Linked(c, stream[|stream| - 1], json))
  {
    assert (stream + [json])[..|stream|] == stream;
  }

  // --- whole runs ---

  /** Any interleaving of connections, and at any moment of it. */
  method RunMonitor(c: Codec, events: seq<Event>, crossVerify: bool) returns (m: Monitor)
    ensures fresh(m) && m.Tracks(c, events)
  {
    m := new Monitor(c);
    for k := 0 to |events|
      invariant fresh(m) && m.Tracks(c, events[..k])
    {
      assert events[..k + 1] == events[..k] + [events[k]];
      match events[k]
      case Connect(node) => m.HandleConnect(c, node, events[..k]);
      case Disconnect(node) => m.HandleDisconnect(c, node, events[..k]);
      case Deliver(node, json) => var _ := m.HandleEntry(c, node, json, crossVerify, events[..k]);
    }
    assert events[..|events|] == events;
  }

  /** Within a connection a stream only grows, so its breaks never go away and `chainIntact` never recovers. */
  lemma {:induction false} IntactNeverRecovers(c: Codec, h: seq<Event>, more: seq<Event>, node: string)
    requires forall i :: 0 <= i < |more| ==> more[i] != Connect(node)
    ensures Stream(c, h, node) <= Stream(c, h + more, node)
    ensures Breaks(c, Stream(c, h, node)) <= Breaks(c, Stream(c, h + more, node))
  {
    if more == [] {
      assert h + more == h;
    } else {
      var init, last := more[..|more| - 1], more[|more| - 1];
      assert last in more;
      assert (h + more)[..|h + more| - 1] == h + init;
      IntactNeverRecovers(c, h, init, node);
      var s := Stream(c, h + init, node);
      if last.Deliver? {
        assert (s + [last.json])[..|s|] == s;
      }
    }
  }

  /**
   What a connection adds to its source's share is the number of unlinked pairs it delivered,
   whatever other sources do meanwhile.
   */
  lemma {:induction false} ConnectionAddsItsBreaks(c: Codec, h: seq<Event>, node: string, more: seq<Event>)
    requires forall i :: 0 <= i < |more| ==> more[i] != Connect(node)
    ensures var all := h + [Connect(node)] + more;
            Share(c, all, node) == Share(c, h, node) + Breaks(c, Stream(c, all, node))
  {
    KnownStep(h, Connect(node), node);
    var start := h + [Connect(node)];
    if more == [] {
      assert start + more == start;
    } else {
      var init, last := more[..|more| - 1], more[|more| - 1];
      var all := start + more;
      assert all[..|all| - 1] == start + init;
      ConnectionAddsItsBreaks(c, h, node, init);
      assert (start + init)[|h|] == Connect(node);
      var s := Stream(c, start + init, node);
      if last.Deliver? {
        assert (s + [last.json])[..|s|] == s;
      }
    }
  }

  /** The shares of some sources, added up. */
  function ShareSum(c: Codec, h: seq<Event>, nodes: seq<string>): nat {
    if nodes == [] then 0 else Share(c, h, nodes[0]) + ShareSum(c, h, nodes[1..])
  }

  predicate Distinct(nodes: seq<string>) {
    forall i, j :: 0 <= i < j < |nodes| ==> nodes[i] != nodes[j]
  }

  lemma {:induction false} ShareSumStep(c: Codec, h: seq<Event>, e: Event, nodes: seq<string>)
    requires Distinct(nodes)
    ensures ShareSum(c, h + [e], nodes) ==
            ShareSum(c, h, nodes) + if e.node in nodes then BreakAdded(c, h, e) else 0
  {
    if nodes != [] {
      assert (h + [e])[..|h|] == h;
      ShareSumStep(c, h, e, nodes[1..]);
      assert nodes == [nodes[0]] + nodes[1..];
    }
  }

  /** The shares of the sources there are make up the total, in any interleaving. */
  lemma {:induction false} SharesMakeTheTotal(c: Codec, h: seq<Event>, nodes: seq<string>)
    requires Distinct(nodes) && forall i :: 0 <= i < |h| ==> h[i].node in nodes
    ensures TotalBreaks(c, h) == ShareSum(c, h, nodes)
  {
    if h == [] {
      NoShares(c, nodes);
    } else {
      var init, last := h[..|h| - 1], h[|h| - 1];
      assert h == init + [last];
      SharesMakeTheTotal(c, init, nodes);
      ShareSumStep(c, init, last, nodes);
    }
  }

  lemma {:induction false} NoShares(c: Codec, nodes: seq<string>)
    ensures ShareSum(c, [], nodes) == 0
  {
    if nodes != [] {
      NoShares(c, nodes[1..]);
    }
  }

  // --- exactness against a written log ---

  /** The lines are entries of the log, by position. */
  ghost predicate Quotes(c: Codec, log: seq<Entry>, ks: seq<nat>, lines: seq<string>) {
    |lines| == |ks| && forall i :: 0 <= i < |ks| ==> ks[i] < |log| && lines[i] == c.render(log[ks[i]])
  }

  /** The places where a sequence of positions does not step by one. */
  function Gaps(ks: seq<nat>): nat {
    if |ks| < 2 then 0 else Gaps(ks[..|ks| - 1]) + if ks[|ks| - 1] == ks[|ks| - 2] + 1 then 0 else 1
  }

  predicate Contiguous(ks: seq<nat>) {
    forall i :: 0 <= i < |ks| ==> ks[i] == ks[0] + i
  }

  /** Of a chain's entries, one links to another exactly if it directly follows it. */
  lemma LinkedIffAdjacent(c: Codec, log: seq<Entry>, j: nat, k: nat)
    requires c.Lawful() && IsChain(c, log) && j < |log| && k < |log|
    ensures Linked(c, c.render(log[j]), c.render(log[k])) <==> k == j + 1
  {
    ChainAt(c, log, k);
    assert c.parse(c.render(log[k])) == Some(log[k]);
    if k == 0 {
      GenesisIsNoEntry(c, log[j]);
    } else {
      assert log[..k][k - 1] == log[k - 1];
      assert log[k].prevHash == c.hash(c.render(log[k - 1]));
      SameHashSameEntry(c, log[k - 1], log[j]);
      ChainAt(c, log, k - 1);
      ChainAt(c, log, j);
    }
  }

  lemma SameHashSameEntry(c: Codec, a: Entry, b: Entry)
    requires c.Lawful()
    ensures c.hash(c.render(a)) == c.hash(c.render(b)) ==> a == b
  {
    assert c.parse(c.render(a)) == Some(a);
    assert c.parse(c.render(b)) == Some(b);
  }

  /** Every break is a gap and every gap a break. */
  lemma {:induction false} BreaksAreGaps(c: Codec, log: seq<Entry>, ks: seq<nat>, lines: seq<string>)
    requires c.Lawful() && IsChain(c, log) && Quotes(c, log, ks, lines)
    ensures Breaks(c, lines) == Gaps(ks)
  {
    var n := |ks|;
    if n >= 2 {
      BreaksAreGaps(c, log, ks[..n - 1], lines[..n - 1]);
      LinkedIffAdjacent(c, log, ks[n - 2], ks[n - 1]);
    }
  }

  lemma {:induction false} NoGapIffContiguous(ks: seq<nat>)
    ensures Gaps(ks) == 0 <==> Contiguous(ks)
  {
    var n := |ks|;
    if n >= 2 {
      var init := ks[..n - 1];
      NoGapIffContiguous(init);
      if Contiguous(ks) {
        assert ks[n - 1] == ks[0] + n - 1 && ks[n - 2] == ks[0] + n - 2;
        assert Contiguous(init);
      } else if Gaps(ks) == 0 {
        forall i | 0 <= i < n
          ensures ks[i] == ks[0] + i
        {
          assert i < n - 1 ==> init[i] == ks[i];
          assert init[n - 2] == init[0] + (n - 2);
        }
      }
    }
  }

  /** The monitor sees no break exactly if what it was delivered is a contiguous, in-order piece of the log. */
  lemma DetectionIsExact(c: Codec, log: seq<Entry>, ks: seq<nat>, h: seq<Event>, node: string, s: SourceState)
    requires c.Lawful() && IsChain(c, log) && Quotes(c, log, ks, Stream(c, h, node))
    requires Reflects(c, s, Stream(c, h, node), Connected(h, node))
    ensures s.chainIntact <==> Contiguous(ks)
    ensures Breaks(c, Stream(c, h, node)) == Gaps(ks)
  {
    BreaksAreGaps(c, log, ks, Stream(c, h, node));
    NoGapIffContiguous(ks);
  }

  /** A source is connected exactly if it connected and has not disconnected since. */
  lemma {:induction false} ConnectedExactlyIf(h: seq<Event>, node: string)
    ensures Connected(h, node) <==>
            exists i :: 0 <= i < |h| && h[i] == Connect(node) && forall j :: i < j < |h| ==> h[j] != Disconnect(node)
  {
    if h != [] {
      var n := |h| - 1;
      var init := h[..n];
      ConnectedExactlyIf(init, node);
      if h[n] == Connect(node) {
        assert h[n] == Connect(node);
      } else if h[n] != Disconnect(node) {
        if i :| 0 <= i < n && init[i] == Connect(node) && forall j :: i < j < n ==> init[j] != Disconnect(node) {
          assert h[i] == Connect(node) && forall j :: i < j < |h| ==> h[j] != Disconnect(node);
        }
        if i :| 0 <= i < |h| && h[i] == Connect(node) && forall j :: i < j < |h| ==> h[j] != Disconnect(node) {
          assert init[i] == Connect(node) && forall j :: i < j < n ==> init[j] != Disconnect(node);
        }
      }
    }
  }
}
