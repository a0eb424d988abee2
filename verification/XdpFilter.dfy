/**
 The packet filter of `xdp-entropy.c`: header parsing (section 3.1 of RFC 791, section 3.1
 of RFC 9293), the port policy of each role, the verdict and every counter it moves.
 Counters are unbounded here.
 */
module XdpFilter {
  import opened Prelude
  import opened ByteDiversity
  import opened FlowTable

  datatype Role =
    | CircuitNode | VerifiedClient | VerifierNode | MonitorNode | OrchestratorNode | WebServer | DualAuthorityNode

  datatype Verdict = XdpDrop | XdpPass

  const MFA_PORT := 9001
  const SSH_PORT := 22

  predicate CheckDp(role: Role, dp: nat) {
    match role
    case CircuitNode => false
    case VerifiedClient => dp == 9003
    case VerifierNode => dp == 9005
    case MonitorNode => dp == 9100
    case OrchestratorNode => dp == 9003 || dp == 9004
    case WebServer => dp == 8080
    case DualAuthorityNode => dp == 9004 || dp == 9005
  }

  predicate CheckSp(role: Role, sp: nat) {
    match role
    case CircuitNode => false
    case VerifiedClient => sp == 9003
    case VerifierNode => sp == 9100 || sp == 9005
    case MonitorNode => sp == 9100
    case OrchestratorNode => sp == 9003 || sp == 9004
    case WebServer => sp == 8080
    case DualAuthorityNode => sp == 9004 || sp == 9005
  }

  predicate Bypass(role: Role, dp: nat, sp: nat) {
    role == MonitorNode && (dp == 8443 || sp == 8443)
  }

  // --- header fields ---

  function U8(p: Bytes, i: nat): nat
    requires i < |p|
  {
    p[i] as nat
  }

  /** A 16-bit field in network byte order. */
  function U16(p: Bytes, i: nat): nat
    requires i + 1 < |p|
  {
    U8(p, i) * 256 + U8(p, i + 1)
  }

  const ETH_HLEN := 14
  const IP_HLEN := 20
  const TCP_HLEN := 20

  /** The source address word and the two ports of a packet, as `conn_key` gets them. */
  function FlowOf(p: Bytes, tcp: nat): Key
    requires ETH_HLEN + IP_HLEN <= |p| && tcp + TCP_HLEN <= |p|
  {
    FlowKey(p[26], p[27], p[28], p[29], p[tcp], p[tcp + 1], p[tcp + 2], p[tcp + 3])
  }

  function Word32(a: bv8, b: bv8, c: bv8, d: bv8): bv32 {
    (a as bv32) | ((b as bv32) << 8) | ((c as bv32) << 16) | ((d as bv32) << 24)
  }

  function Word16(hi: bv8, lo: bv8): bv16 {
    ((hi as bv16) << 8) | (lo as bv16)
  }

  /** The key of four address bytes as loaded from memory and two ports in network order. */
  function FlowKey(a: bv8, b: bv8, c: bv8, d: bv8, s: bv8, s1: bv8, r: bv8, r1: bv8): Key {
    ConnKey(Word32(a, b, c, d), Word16(s, s1), Word16(r, r1))
  }

  // --- what a packet is, independently of the order of the checks ---

  datatype Class =
    | Arp
    | BadProtocol
    | Ssh
    | Bypassed
    | WrongPort
    | EmptyPayload
    | SmallPayload(plen: nat)
    | Measured(flow: Key, off: nat, plen: nat)

  predicate HasTcp(p: Bytes) {
    && |p| >= ETH_HLEN + IP_HLEN && U16(p, 12) == 0x0800 && U8(p, 14) / 16 == 4 && U8(p, 23) == 6
    && U8(p, 14) % 16 >= 5 && TcpStart(p) + TCP_HLEN <= |p|
  }

  function TcpStart(p: Bytes): nat
    requires |p| > ETH_HLEN
  {
    ETH_HLEN + U8(p, 14) % 16 * 4
  }

  function PayloadStart(p: Bytes): nat
    requires HasTcp(p)
  {
    TcpStart(p) + U8(p, TcpStart(p) + 12) / 16 * 4
  }

  /** A TCP packet on an entropy-checked port. */
  function ClassifyAllowed(p: Bytes): (c: Class)
    requires HasTcp(p)
    ensures c.Measured? ==> c.plen >= MIN_PAYLOAD && c.off + c.plen == |p|
    ensures c.SmallPayload? ==> 0 < c.plen < MIN_PAYLOAD
  {
    if U8(p, TcpStart(p) + 12) / 16 < 5 then BadProtocol
    else if PayloadStart(p) >= |p| then EmptyPayload
    else if |p| - PayloadStart(p) < MIN_PAYLOAD then SmallPayload(|p| - PayloadStart(p))
    else Measured(FlowOf(p, TcpStart(p)), PayloadStart(p), |p| - PayloadStart(p))
  }

  function Classify(role: Role, p: Bytes): (c: Class)
    ensures c.Measured? ==> c.plen >= MIN_PAYLOAD && c.off + c.plen == |p|
    ensures c.SmallPayload? ==> 0 < c.plen < MIN_PAYLOAD
  {
    if |p| >= ETH_HLEN && U16(p, 12) == 0x0806 then Arp
    else if !HasTcp(p) then BadProtocol
    else
      var tcp := TcpStart(p);
      var sp, dp := U16(p, tcp), U16(p, tcp + 2);
      if dp == SSH_PORT || sp == SSH_PORT then Ssh
      else if Bypass(role, dp, sp) then Bypassed
      else if !(dp == MFA_PORT || sp == MFA_PORT || CheckDp(role, dp) || CheckSp(role, sp)) then WrongPort
      else ClassifyAllowed(p)
  }

  // --- the filter's maps ---

  const STAT_PASSED := 0
  const STAT_DROP_ENT := 1
  const STAT_DROP_PRO := 2
  const STAT_DROP_PRT := 3
  const STAT_TOTAL := 4
  const STAT_EXEMPT := 5
  const STAT_SIZE := 6

  datatype Maps = Maps(stats: seq<nat>, entropyHist: seq<nat>, sizeHist: seq<nat>, conns: Table)
  {
    predicate Shaped() {
      |stats| == STAT_SIZE && |entropyHist| == 26 && |sizeHist| == 16
    }
  }

  function Inc(h: seq<nat>, i: nat): (h': seq<nat>)
    requires i < |h|
    ensures |h'| == |h|
  {
    h[i := h[i] + 1]
  }

  function Bucket(value: nat, width: nat, last: nat): (b: nat)
    requires width > 0
    ensures b <= last
  {
    if value / width > last then last else value / width
  }

  /** How many different byte values the first 1500 payload bytes have. */
  ghost function Diversity(p: Bytes, off: nat): nat
    requires off <= |p|
  {
    |ValuesIn(p[off..if |p| - off < MAX_ANALYZE then |p| else off + MAX_ANALYZE])|
  }

  ghost function VerdictOf(m: Maps, c: Class, p: Bytes): Verdict
    requires c.Measured? ==> c.off <= |p|
  {
    match c
    case Arp => XdpPass
    case BadProtocol => XdpDrop
    case Ssh => XdpPass
    case Bypassed => XdpPass
    case WrongPort => XdpDrop
    case EmptyPayload => XdpPass
    case SmallPayload(_) => XdpPass
    case Measured(flow, off, plen) =>
      if Diversity(p, off) >= Capped(Threshold(PktCount(m.conns, flow)), plen) then XdpPass else XdpDrop
  }

  /** The maps after a packet: its total, then what its class adds. */
  ghost function After(m: Maps, c: Class, p: Bytes): (m': Maps)
    requires m.Shaped() && (c.Measured? ==> c.off <= |p|)
    ensures m'.Shaped()
  {
    Recorded(m.(stats := Inc(m.stats, STAT_TOTAL)), c, p)
  }

  ghost function Recorded(m: Maps, c: Class, p: Bytes): (m': Maps)
    requires m.Shaped() && (c.Measured? ==> c.off <= |p|)
    ensures m'.Shaped()
  {
    match c
    case Arp => m.(stats := Inc(m.stats, STAT_PASSED))
    case BadProtocol => m.(stats := Inc(m.stats, STAT_DROP_PRO))
    case Ssh => m.(stats := Inc(m.stats, STAT_PASSED))
    case Bypassed => m.(stats := Inc(m.stats, STAT_EXEMPT))
    case WrongPort => m.(stats := Inc(m.stats, STAT_DROP_PRT))
    case EmptyPayload => m.(stats := Inc(Inc(m.stats, STAT_EXEMPT), STAT_PASSED))
    case SmallPayload(plen) =>
      m.(stats := Inc(Inc(m.stats, STAT_EXEMPT), STAT_PASSED), sizeHist := Inc(m.sizeHist, Bucket(plen, 100, 15)))
    case Measured(flow, off, plen) =>
      m.(stats := Inc(m.stats, if VerdictOf(m, c, p) == XdpPass then STAT_PASSED else STAT_DROP_ENT),
         sizeHist := Inc(m.sizeHist, Bucket(plen, 100, 15)),
         entropyHist := Inc(m.entropyHist, Bucket(Diversity(p, off), 10, 25)),
         conns := Touched(m.conns, flow))
  }

  /** The program, its maps updated in place. */
  class Filter {
    const role: Role
    var stats: seq<nat>
    var entropyHist: seq<nat>
    var sizeHist: seq<nat>
    var conns: Table

    ghost function View(): Maps
      reads this
    {
      Maps(stats, entropyHist, sizeHist, conns)
    }

    constructor (role: Role)
      ensures this.role == role && View().Shaped()
      ensures View() == Empty()
    {
      this.role := role;
      stats, entropyHist, sizeHist, conns := seq(STAT_SIZE, _ => 0), seq(26, _ => 0), seq(16, _ => 0), map[];
    }

    method GetPktCount(key: Key) returns (c: nat)
      modifies this`conns
      ensures c == PktCount(old(conns), key) && conns == Touched(old(conns), key)
    {
      if key in conns {
        var cs := conns[key];
        c := cs.pktCount;
        var count := if cs.pktCount < U32_MAX then cs.pktCount + 1 else cs.pktCount;
        var phase := if c >= HANDSHAKE_PKT_LIMIT && cs.phase < 2 then 2 else cs.phase;
        conns := conns[key := Conn(count, phase)];
      } else {
        if |conns| < MAX_FLOWS {
          conns := conns[key := Conn(1, 1)];
        }
        c := 0;
      }
    }

    /** `xdp_entropy`: the verdict and every counter, for every packet. */
    method Process(p: Bytes) returns (verdict: Verdict)
      requires View().Shaped()
      modifies this
      ensures View() == After(old(View()), Classify(role, p), p)
      ensures verdict == VerdictOf(old(View()), Classify(role, p), p)
    {
      stats := Inc(stats, STAT_TOTAL);
      if ETH_HLEN > |p| {
        stats := Inc(stats, STAT_DROP_PRO);
        return XdpDrop;
      }
      var proto := U16(p, 12);
      if proto == 0x0806 {
        stats := Inc(stats, STAT_PASSED);
        return XdpPass;
      }
      if proto != 0x0800 || ETH_HLEN + IP_HLEN > |p| || U8(p, 14) / 16 != 4 || U8(p, 23) != 6 || U8(p, 14) % 16 < 5 {
        stats := Inc(stats, STAT_DROP_PRO);
        return XdpDrop;
      }
      var ipHlen := U8(p, 14) % 16 * 4;
      var tcp := ETH_HLEN + ipHlen;
      if tcp + TCP_HLEN > |p| {
        stats := Inc(stats, STAT_DROP_PRO);
        return XdpDrop;
      }
      verdict := ProcessTcp(p, tcp);
    }

    /** The port filtering of `xdp_entropy`. */
    method ProcessTcp(p: Bytes, tcp: nat) returns (verdict: Verdict)
      requires View().Shaped() && HasTcp(p) && tcp == TcpStart(p)
      modifies this
      ensures View() == Recorded(old(View()), Classify(role, p), p)
      ensures verdict == VerdictOf(old(View()), Classify(role, p), p)
    {
      var dp, sp := U16(p, tcp + 2), U16(p, tcp);
      if dp == SSH_PORT || sp == SSH_PORT {
        stats := Inc(stats, STAT_PASSED);
        return XdpPass;
      }
      if Bypass(role, dp, sp) {
        stats := Inc(stats, STAT_EXEMPT);
        return XdpPass;
      }
      var portAllowed := false;
      if dp == MFA_PORT || sp == MFA_PORT {
        portAllowed := true;
      }
      if CheckDp(role, dp) || CheckSp(role, sp) {
        portAllowed := true;
      }
      if !portAllowed {
        stats := Inc(stats, STAT_DROP_PRT);
        return XdpDrop;
      }
      verdict := ProcessAllowed(p, tcp);
    }

    /** The packets of an entropy-checked port, up to their payload. */
    method ProcessAllowed(p: Bytes, tcp: nat) returns (verdict: Verdict)
      requires View().Shaped() && HasTcp(p) && tcp == TcpStart(p)
      modifies this
      ensures View() == Recorded(old(View()), ClassifyAllowed(p), p)
      ensures verdict == VerdictOf(old(View()), ClassifyAllowed(p), p)
    {
      var doff := U8(p, tcp + 12) / 16;
      if doff < 5 {
        stats := Inc(stats, STAT_DROP_PRO);
        return XdpDrop;
      }
      var payload := tcp + doff * 4;
      if payload >= |p| {
        stats := Inc(Inc(stats, STAT_EXEMPT), STAT_PASSED);
        return XdpPass;
      }
      PayloadClass(p, payload);
      verdict := ProcessPayload(p, FlowOf(p, tcp), payload);
    }

    /** Counts the packet in its flow and picks the threshold it is judged at. */
    method ThresholdFor(flow: Key, plen: nat) returns (thresh: nat)
      modifies this`conns
      ensures thresh == Capped(Threshold(PktCount(old(conns), flow)), plen) && conns == Touched(old(conns), flow)
    {
      var pkts := GetPktCount(flow);
      thresh := if pkts < HANDSHAKE_PKT_LIMIT then THRESH_HANDSHAKE else THRESH_AUTHENTICATED;
      var cap := (plen * 7 % TWO_32) / 10;
      if thresh > cap {
        thresh := cap;
      }
    }

    /** The entropy verification at the end of `xdp_entropy`. */
    method ProcessPayload(p: Bytes, flow: Key, payload: nat) returns (verdict: Verdict)
      requires View().Shaped() && payload < |p|
      modifies this
      ensures var plen, m := |p| - payload, old(View());
              var c := if plen < MIN_PAYLOAD then SmallPayload(plen) else Measured(flow, payload, plen);
              verdict == VerdictOf(m, c, p) && View() == Recorded(m, c, p)
    {
      var plen := |p| - payload;
      sizeHist := Inc(sizeHist, Bucket(plen, 100, 15));
      if plen < MIN_PAYLOAD {
        stats := Inc(Inc(stats, STAT_EXEMPT), STAT_PASSED);
        return XdpPass;
      }
      var thresh := ThresholdFor(flow, plen);
      var unique := MeasureDiversity(p, payload, plen);
      entropyHist := Inc(entropyHist, Bucket(unique, 10, 25));
      if unique >= thresh {
        stats := Inc(stats, STAT_PASSED);
        return XdpPass;
      }
      stats := Inc(stats, STAT_DROP_ENT);
      verdict := XdpDrop;
    }
  }

  lemma PayloadClass(p: Bytes, payload: nat)
    requires HasTcp(p) && U8(p, TcpStart(p) + 12) / 16 >= 5 && payload == PayloadStart(p) < |p|
    ensures ClassifyAllowed(p) ==
            if |p| - payload < MIN_PAYLOAD then SmallPayload(|p| - payload)
            else Measured(FlowOf(p, TcpStart(p)), payload, |p| - payload)
  {
  }

  /** The analysed length is capped, and every byte read lies in the packet. */
  method MeasureDiversity(p: Bytes, payload: nat, plen: nat) returns (unique: nat)
    requires payload + plen == |p|
    ensures unique == Diversity(p, payload)
  {
    var alen := plen;
    if alen > MAX_ANALYZE {
      alen := MAX_ANALYZE;
    }
    unique := CountUnique(p, payload, alen);
  }

  function Empty(): Maps {
    Maps(seq(STAT_SIZE, _ => 0), seq(26, _ => 0), seq(16, _ => 0), map[])
  }

  // --- any packet trace ---

  /** The maps after a trace of packets. */
  ghost function MapsAfter(role: Role, packets: seq<Bytes>): (m: Maps)
    ensures m.Shaped()
  {
    if packets == [] then Empty()
    else
      var p := packets[|packets| - 1];
      After(MapsAfter(role, packets[..|packets| - 1]), Classify(role, p), p)
  }

  /** The verdict on each packet of a trace, given the packets before it. */
  ghost function VerdictsAfter(role: Role, packets: seq<Bytes>): (vs: seq<Verdict>)
    ensures |vs| == |packets|
  {
    if packets == [] then []
    else
      var init, p := packets[..|packets| - 1], packets[|packets| - 1];
      VerdictsAfter(role, init) + [VerdictOf(MapsAfter(role, init), Classify(role, p), p)]
  }

  /** The filter over a whole trace: its maps are those of the trace, and each verdict is its packet's. */
  method FilterTrace(role: Role, packets: seq<Bytes>) returns (f: Filter, verdicts: seq<Verdict>)
    ensures fresh(f) && f.role == role && f.View() == MapsAfter(role, packets)
    ensures verdicts == VerdictsAfter(role, packets)
  {
    f := new Filter(role);
    verdicts := [];
    for k := 0 to |packets|
      invariant fresh(f) && f.role == role && f.View() == MapsAfter(role, packets[..k])
      invariant verdicts == VerdictsAfter(role, packets[..k])
    {
      TraceStep(role, packets, k);
      var verdict := f.Process(packets[k]);
      verdicts := verdicts + [verdict];
    }
    assert packets[..|packets|] == packets;
  }

  lemma TraceStep(role: Role, packets: seq<Bytes>, k: nat)
    requires k < |packets|
    ensures var m, c := MapsAfter(role, packets[..k]), Classify(role, packets[k]);
            && MapsAfter(role, packets[..k + 1]) == After(m, c, packets[k])
            && VerdictsAfter(role, packets[..k + 1])
               == VerdictsAfter(role, packets[..k]) + [VerdictOf(m, c, packets[k])]
  {
    assert packets[..k + 1][..k] == packets[..k];
  }

  /** How many packets of a trace are of a class without fields. */
  ghost function CountOfClass(role: Role, packets: seq<Bytes>, c: Class): nat {
    if packets == [] then 0
    else CountOfClass(role, packets[..|packets| - 1], c)
         + if Classify(role, packets[|packets| - 1]) == c then 1 else 0
  }

  ghost function SumOf(h: seq<nat>): nat {
    if h == [] then 0 else SumOf(h[..|h| - 1]) + h[|h| - 1]
  }

  lemma {:induction false} SumOfInc(h: seq<nat>, i: nat)
    requires i < |h|
    ensures SumOf(Inc(h, i)) == SumOf(h) + 1
  {
    if i == |h| - 1 {
      assert Inc(h, i)[..|h| - 1] == h[..|h| - 1];
    } else {
      SumOfInc(h[..|h| - 1], i);
      assert Inc(h, i)[..|h| - 1] == Inc(h[..|h| - 1], i);
    }
  }

  lemma {:induction false} SumOfZeros(n: nat)
    ensures SumOf(seq(n, _ => 0)) == 0
  {
    if n > 0 {
      SumOfZeros(n - 1);
      assert seq(n, _ => 0)[..n - 1] == seq(n - 1, _ => 0);
    }
  }

  /** The books balance: see `TraceAccounting`. */
  ghost predicate Balanced(m: Maps, total: nat, bypassed: nat, empty: nat)
    requires m.Shaped()
  {
    && m.stats[STAT_TOTAL] == total
    && total == m.stats[STAT_PASSED] + m.stats[STAT_DROP_ENT] + m.stats[STAT_DROP_PRO]
                + m.stats[STAT_DROP_PRT] + bypassed
    && m.stats[STAT_EXEMPT] + SumOf(m.entropyHist) == bypassed + empty + SumOf(m.sizeHist)
    && m.stats[STAT_DROP_ENT] <= SumOf(m.entropyHist)
  }

  lemma StepBalances(m: Maps, total: nat, bypassed: nat, empty: nat, c: Class, p: Bytes)
    requires m.Shaped() && (c.Measured? ==> c.off <= |p|) && Balanced(m, total, bypassed, empty)
    ensures Balanced(After(m, c, p), total + 1, bypassed + (if c == Bypassed then 1 else 0),
                     empty + if c == EmptyPayload then 1 else 0)
  {
    if c.SmallPayload? || c.Measured? {
      SumOfInc(m.sizeHist, Bucket(c.plen, 100, 15));
    }
    if c.Measured? {
      SumOfInc(m.entropyHist, Bucket(Diversity(p, c.off), 10, 25));
    }
  }

  /**
   Over any trace, in any role: every packet is counted once as passed, dropped for one of
   three reasons or bypassed; exempt packets are the bypassed ones, the empty ones and those
   in the size but not in the entropy histogram; no more packets are dropped for entropy than
   were measured.
   */
  lemma {:induction false} TraceAccounting(role: Role, packets: seq<Bytes>)
    ensures Balanced(MapsAfter(role, packets), |packets|,
                     CountOfClass(role, packets, Bypassed), CountOfClass(role, packets, EmptyPayload))
  {
    if packets == [] {
      SumOfZeros(26);
      SumOfZeros(16);
    } else {
      var init, p := packets[..|packets| - 1], packets[|packets| - 1];
      TraceAccounting(role, init);
      StepBalances(MapsAfter(role, init), |init|, CountOfClass(role, init, Bypassed),
                   CountOfClass(role, init, EmptyPayload), Classify(role, p), p);
    }
  }

  /** The flows of the measured packets of a trace, in order. */
  ghost function MeasuredFlows(role: Role, packets: seq<Bytes>): seq<Key> {
    if packets == [] then []
    else
      var c := Classify(role, packets[|packets| - 1]);
      MeasuredFlows(role, packets[..|packets| - 1]) + if c.Measured? then [c.flow] else []
  }

  lemma {:induction false} TraceTable(role: Role, packets: seq<Bytes>)
    ensures MapsAfter(role, packets).conns == TableAfter(MeasuredFlows(role, packets))
  {
    if packets != [] {
      var init, p := packets[..|packets| - 1], packets[|packets| - 1];
      TraceTable(role, init);
      ConnsAfter(MapsAfter(role, init), Classify(role, p), p, MeasuredFlows(role, init));
    }
  }

  lemma ConnsAfter(m: Maps, c: Class, p: Bytes, flows: seq<Key>)
    requires m.Shaped() && (c.Measured? ==> c.off <= |p|) && m.conns == TableAfter(flows)
    ensures After(m, c, p).conns == TableAfter(flows + if c.Measured? then [c.flow] else [])
  {
    if c.Measured? {
      assert (flows + [c.flow])[..|flows|] == flows;
    } else {
      assert flows + [] == flows;
    }
  }

  /**
   The verdict on a measured packet at the end of any trace, in terms of the trace alone: at
   least 80 different byte values while its flow has fewer than twenty measured packets or
   was refused by the full table, at least 85 otherwise.
   */
  lemma MeasuredVerdict(role: Role, packets: seq<Bytes>, p: Bytes)
    requires Classify(role, p).Measured? && |p| * 7 < 0x1_0000_0000
    ensures var flows, c := MeasuredFlows(role, packets), Classify(role, p);
            var refused := c.flow !in TableAfter(flows) && |TableAfter(flows)| == 64;
            VerdictOf(MapsAfter(role, packets), c, p) == XdpPass <==>
              Diversity(p, c.off) >= if refused || Occurrences(flows, c.flow) < 20
                                     then 80 else 85
  {
    var flows, c := MeasuredFlows(role, packets), Classify(role, p);
    TraceTable(role, packets);
    TableIsExact(flows);
    CapIsNeverReached(PktCount(TableAfter(flows), c.flow), c.plen);
    if c.flow in TableAfter(flows) || |TableAfter(flows)| < MAX_FLOWS {
      TrackedFlowPhase(flows, c.flow);
    }
  }
}
