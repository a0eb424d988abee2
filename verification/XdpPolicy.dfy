/** What the packet filter's verdicts mean: by header bytes, over whole traces, and against every counter. */
module XdpPolicy {
  import opened Prelude
  import opened ByteDiversity
  import opened FlowTable
  import opened XdpFilter

  // --- verdicts and counters ---

  function CountVerdict(vs: seq<Verdict>, v: Verdict): nat {
    if vs == [] then 0 else CountVerdict(vs[..|vs| - 1], v) + if vs[|vs| - 1] == v then 1 else 0
  }

  lemma VerdictStep(m: Maps, c: Class, p: Bytes)
    requires m.Shaped() && (c.Measured? ==> c.off <= |p|)
    ensures var m' := After(m, c, p);
            if VerdictOf(m, c, p) == XdpPass then
              && m'.stats[0] + (if c == Bypassed then 1 else 0) == m.stats[0] + 1
              && m'.stats[1] + m'.stats[2] + m'.stats[3] == m.stats[1] + m.stats[2] + m.stats[3]
            else
              && m'.stats[0] == m.stats[0] && c != Bypassed
              && m'.stats[1] + m'.stats[2] + m'.stats[3] == m.stats[1] + m.stats[2] + m.stats[3] + 1
  {
  }

  /**
   Over any trace: as many packets are passed as the passed counter and the bypassed packets say,
   and as many dropped as the three drop counters say.
   */
  lemma {:induction false} VerdictsAreCounted(role: Role, packets: seq<Bytes>)
    ensures var vs, m := VerdictsAfter(role, packets), MapsAfter(role, packets);
            && CountVerdict(vs, XdpPass) == m.stats[0] + CountOfClass(role, packets, Bypassed)
            && CountVerdict(vs, XdpDrop) == m.stats[1] + m.stats[2] + m.stats[3]
  {
    if packets != [] {
      var init, p := packets[..|packets| - 1], packets[|packets| - 1];
      VerdictsAreCounted(role, init);
      VerdictStep(MapsAfter(role, init), Classify(role, p), p);
    }
  }

  // --- verdicts by header bytes, with the numbers of the standards and of the port table written out ---

  /** Ethernet type 0x0800, IP version 4 with a header of at least five words, protocol 6, room for a TCP header. */
  predicate TcpOverIpv4(p: Bytes) {
    && |p| >= 34 && p[12] == 0x08 && p[13] == 0x00
    && p[14] as nat / 16 == 4 && p[14] as nat % 16 >= 5 && p[23] == 6
    && 14 + 4 * (p[14] as nat % 16) + 20 <= |p|
  }

  function SourcePort(p: Bytes): nat
    requires TcpOverIpv4(p)
  {
    var tcp := 14 + 4 * (p[14] as nat % 16);
    p[tcp] as nat * 256 + p[tcp + 1] as nat
  }

  function DestinationPort(p: Bytes): nat
    requires TcpOverIpv4(p)
  {
    var tcp := 14 + 4 * (p[14] as nat % 16);
    p[tcp + 2] as nat * 256 + p[tcp + 3] as nat
  }

  lemma HeaderIsTcp(p: Bytes)
    ensures TcpOverIpv4(p) <==> HasTcp(p)
    ensures TcpOverIpv4(p) ==>
              && TcpStart(p) == 14 + 4 * (p[14] as nat % 16)
              && SourcePort(p) == U16(p, TcpStart(p)) && DestinationPort(p) == U16(p, TcpStart(p) + 2)
  {
    if |p| >= 34 {
      assert U16(p, 12) == 0x0800 <==> p[12] == 0x08 && p[13] == 0x00;
    }
  }

  /** Which ports the packets of a role may use at all, either way. */
  predicate OpenPort(role: Role, sp: nat, dp: nat) {
    match role
    case CircuitNode => sp in {22, 9001} || dp in {22, 9001}
    case VerifiedClient => sp in {22, 9001, 9003} || dp in {22, 9001, 9003}
    case VerifierNode => sp in {22, 9001, 9005, 9100} || dp in {22, 9001, 9005}
    case MonitorNode => sp in {22, 9001, 9100, 8443} || dp in {22, 9001, 9100, 8443}
    case OrchestratorNode => sp in {22, 9001, 9003, 9004} || dp in {22, 9001, 9003, 9004}
    case WebServer => sp in {22, 9001, 8080} || dp in {22, 9001, 8080}
    case DualAuthorityNode => sp in {22, 9001, 9004, 9005} || dp in {22, 9001, 9004, 9005}
  }

  /** What is not TCP over IPv4 is dropped, but for ARP; so is a TCP packet none of whose ports is open to the role. */
  lemma ClosedPacketsAreDropped(role: Role, p: Bytes, m: Maps)
    requires m.Shaped()
    ensures |p| >= 14 && p[12] == 0x08 && p[13] == 0x06 ==> VerdictOf(m, Classify(role, p), p) == XdpPass
    ensures !(|p| >= 14 && p[12] == 0x08 && p[13] == 0x06) && !TcpOverIpv4(p) ==>
              VerdictOf(m, Classify(role, p), p) == XdpDrop
              && After(m, Classify(role, p), p).stats[2] == m.stats[2] + 1
    ensures TcpOverIpv4(p) && !OpenPort(role, SourcePort(p), DestinationPort(p)) ==>
              VerdictOf(m, Classify(role, p), p) == XdpDrop
              && After(m, Classify(role, p), p).stats[3] == m.stats[3] + 1
  {
    HeaderIsTcp(p);
    if |p| >= 14 {
      assert U16(p, 12) == 0x0806 <==> p[12] == 0x08 && p[13] == 0x06;
    }
  }

  /** Port 22 always passes, and 8443 at the monitor passes without being counted as passed. */
  lemma PlaintextPortsPass(role: Role, p: Bytes, m: Maps)
    requires m.Shaped() && TcpOverIpv4(p)
    ensures SourcePort(p) == 22 || DestinationPort(p) == 22 ==>
              VerdictOf(m, Classify(role, p), p) == XdpPass
              && After(m, Classify(role, p), p).stats[0] == m.stats[0] + 1
    ensures role == MonitorNode && SourcePort(p) != 22 && DestinationPort(p) != 22
            && (SourcePort(p) == 8443 || DestinationPort(p) == 8443) ==>
              VerdictOf(m, Classify(role, p), p) == XdpPass
              && After(m, Classify(role, p), p).stats[5] == m.stats[5] + 1
              && After(m, Classify(role, p), p).stats[0] == m.stats[0]
  {
    HeaderIsTcp(p);
    assert U16(p, 12) == 0x0800;
  }

  /** Where the TCP payload starts. */
  function PayloadOffset(p: Bytes): nat
    requires TcpOverIpv4(p)
  {
    var tcp := 14 + 4 * (p[14] as nat % 16);
    tcp + 4 * (p[tcp + 12] as nat / 16)
  }

  /** A TCP packet that may use its ports and does not go unchecked. */
  predicate OnCheckedPort(role: Role, p: Bytes) {
    && TcpOverIpv4(p) && OpenPort(role, SourcePort(p), DestinationPort(p))
    && SourcePort(p) != 22 && DestinationPort(p) != 22
    && (role == MonitorNode ==> SourcePort(p) != 8443 && DestinationPort(p) != 8443)
  }

  lemma CheckedPortsAreAllowed(role: Role, p: Bytes)
    requires OnCheckedPort(role, p)
    ensures HasTcp(p) && Classify(role, p) == ClassifyAllowed(p)
  {
    HeaderIsTcp(p);
    assert U16(p, 12) == 0x0800;
  }

  /** Such a packet is dropped if malformed, passes with less than 128 payload bytes, and else is measured. */
  lemma CheckedPortsByPayload(role: Role, p: Bytes, m: Maps)
    requires m.Shaped() && OnCheckedPort(role, p)
    ensures var c, least := Classify(role, p), 14 + 4 * (p[14] as nat % 16) + 20;
            if PayloadOffset(p) < least then
              VerdictOf(m, c, p) == XdpDrop && After(m, c, p).stats[2] == m.stats[2] + 1
            else if |p| < PayloadOffset(p) + 128 then
              VerdictOf(m, c, p) == XdpPass && After(m, c, p).stats[0] == m.stats[0] + 1
            else
              c.Measured? && c.off == PayloadOffset(p) && c.plen == |p| - c.off && c.flow == FlowOf(p, TcpStart(p))
  {
    CheckedPortsAreAllowed(role, p);
    PayloadIs(p);
  }

  lemma PayloadIs(p: Bytes)
    requires TcpOverIpv4(p)
    ensures HasTcp(p) && PayloadOffset(p) == PayloadStart(p)
    ensures PayloadOffset(p) < 14 + 4 * (p[14] as nat % 16) + 20 <==> U8(p, TcpStart(p) + 12) / 16 < 5
  {
    HeaderIsTcp(p);
  }

  // --- which packets are one flow ---

  lemma Word32Unpacks(a: bv8, b: bv8, c: bv8, d: bv8)
    ensures var w := Word32(a, b, c, d);
            && (w & 0xFF) as bv8 == a && ((w >> 8) & 0xFF) as bv8 == b
            && ((w >> 16) & 0xFF) as bv8 == c && (w >> 24) as bv8 == d
  {
  }

  lemma Word16Unpacks(hi: bv8, lo: bv8)
    ensures (Word16(hi, lo) >> 8) as bv8 == hi && (Word16(hi, lo) & 0xFF) as bv8 == lo
  {
  }

  /** Two packets are one flow exactly if the source addresses, at bytes 26 to 29, and both ports are the same. */
  lemma SameFlowExactlyIf(p: Bytes, q: Bytes, t: nat, u: nat)
    requires |p| >= 34 && |q| >= 34 && t + 20 <= |p| && u + 20 <= |q|
    ensures FlowOf(p, t) == FlowOf(q, u) <==>
            && p[26] == q[26] && p[27] == q[27] && p[28] == q[28] && p[29] == q[29]
            && p[t] == q[u] && p[t + 1] == q[u + 1] && p[t + 2] == q[u + 2] && p[t + 3] == q[u + 3]
  {
    if FlowOf(p, t) == FlowOf(q, u) {
      FlowIsInjective(p[26], p[27], p[28], p[29], p[t], p[t + 1], p[t + 2], p[t + 3],
                      q[26], q[27], q[28], q[29], q[u], q[u + 1], q[u + 2], q[u + 3]);
    }
  }

  lemma FlowIsInjective(a: bv8, b: bv8, c: bv8, d: bv8, s: bv8, s1: bv8, r: bv8, r1: bv8,
                        a': bv8, b': bv8, c': bv8, d': bv8, s': bv8, s1': bv8, r': bv8, r1': bv8)
    requires FlowKey(a, b, c, d, s, s1, r, r1) == FlowKey(a', b', c', d', s', s1', r', r1')
    ensures a == a' && b == b' && c == c' && d == d' && s == s' && s1 == s1' && r == r' && r1 == r1'
  {
    ConnKeyIsInjective(Word32(a, b, c, d), Word16(s, s1), Word16(r, r1),
                       Word32(a', b', c', d'), Word16(s', s1'), Word16(r', r1'));
    Word32Unpacks(a, b, c, d);
    Word32Unpacks(a', b', c', d');
    Word16Unpacks(s, s1);
    Word16Unpacks(s', s1');
    Word16Unpacks(r, r1);
    Word16Unpacks(r', r1');
  }

  // --- what the histograms count ---

  /** Bucket `b` of a histogram of `last + 1` buckets of this width; the last one has everything above. */
  predicate InBucket(value: nat, width: nat, last: nat, b: nat) {
    width * b <= value && (b < last ==> value < width * (b + 1))
  }

  /** The measured packets of a trace whose diversity lies in bucket `b` of 26 tens. */
  ghost function MeasuredIn(role: Role, packets: seq<Bytes>, b: nat): nat {
    if packets == [] then 0
    else
      var p := packets[|packets| - 1];
      var c := Classify(role, p);
      MeasuredIn(role, packets[..|packets| - 1], b)
      + if c.Measured? && InBucket(Diversity(p, c.off), 10, 25, b) then 1 else 0
  }

  /** The packets with a payload whose length lies in bucket `b` of 16 hundreds. */
  ghost function SizedIn(role: Role, packets: seq<Bytes>, b: nat): nat {
    if packets == [] then 0
    else
      var c := Classify(role, packets[|packets| - 1]);
      SizedIn(role, packets[..|packets| - 1], b)
      + if (c.Measured? || c.SmallPayload?) && InBucket(c.plen, 100, 15, b) then 1 else 0
  }

  lemma BucketIs(value: nat, width: nat, last: nat, b: nat)
    requires width > 0 && b <= last
    ensures Bucket(value, width, last) == b <==> InBucket(value, width, last, b)
  {
    var q := value / width;
    QuotientIs(value, width, q);
    if b < q {
      Scales(width, b + 1, q);
    } else if q < b {
      Scales(width, q + 1, b);
    }
    if b == last && q >= last {
      Scales(width, last, q);
    }
  }

  lemma QuotientIs(value: nat, width: nat, q: nat)
    requires width > 0 && q == value / width
    ensures width * q <= value < width * (q + 1)
  {
  }

  lemma Scales(width: nat, a: nat, b: nat)
    requires a <= b
    ensures width * a <= width * b
  {
  }

  lemma HistogramStep(m: Maps, c: Class, p: Bytes, b: nat)
    requires m.Shaped() && (c.Measured? ==> c.off <= |p|)
    ensures b <= 25 ==>
              After(m, c, p).entropyHist[b] ==
              m.entropyHist[b] + if c.Measured? && InBucket(Diversity(p, c.off), 10, 25, b) then 1 else 0
    ensures b <= 15 ==>
              After(m, c, p).sizeHist[b] ==
              m.sizeHist[b] + if (c.Measured? || c.SmallPayload?) && InBucket(c.plen, 100, 15, b) then 1 else 0
  {
    if c.Measured? && b <= 25 {
      BucketIs(Diversity(p, c.off), 10, 25, b);
    }
    if (c.Measured? || c.SmallPayload?) && b <= 15 {
      BucketIs(c.plen, 100, 15, b);
    }
  }

  /** Over any trace each bucket has counted exactly its packets. */
  lemma {:induction false} HistogramsCount(role: Role, packets: seq<Bytes>, b: nat)
    ensures b <= 25 ==> MapsAfter(role, packets).entropyHist[b] == MeasuredIn(role, packets, b)
    ensures b <= 15 ==> MapsAfter(role, packets).sizeHist[b] == SizedIn(role, packets, b)
  {
    if packets != [] {
      var init, p := packets[..|packets| - 1], packets[|packets| - 1];
      HistogramsCount(role, init, b);
      HistogramStep(MapsAfter(role, init), Classify(role, p), p, b);
    }
  }

  /** What is measured: the distinct values among the first 1500 bytes behind an offset. */
  lemma DiversityIs(p: Bytes, off: nat, n: nat) returns (values: set<bv8>)
    requires off <= |p| && n == (if |p| - off < 1500 then |p| - off else 1500)
    ensures Diversity(p, off) == |values| && forall b :: b in values <==> b in p[off..off + n]
  {
    values := ValuesIn(p[off..off + n]);
  }
}
