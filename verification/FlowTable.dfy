/**
 The per-flow packet counters of `xdp-entropy.c`: a hash map of at most 64 flows keyed by
 source address and ports, never evicted, whose counters choose the threshold a packet of
 the flow is judged at.
 */
module FlowTable {
  const MAX_FLOWS := 64
  const U32_MAX := 0xFFFF_FFFF
  const TWO_32 := 0x1_0000_0000
  const HANDSHAKE_PKT_LIMIT := 20
  const THRESH_HANDSHAKE := 80
  const THRESH_AUTHENTICATED := 85
  const MIN_PAYLOAD := 128

  datatype Key = Key(word: bv64)

  datatype Conn = Conn(pktCount: nat, phase: nat)

  type Table = map<Key, Conn>

  /** Source address, source port and destination port packed into one word. */
  function ConnKey(sip: bv32, sp: bv16, dp: bv16): Key {
    Key(((sip as bv64) << 32) | ((sp as bv64) << 16) | (dp as bv64))
  }

  lemma ConnKeyUnpacks(sip: bv32, sp: bv16, dp: bv16)
    ensures var k := ConnKey(sip, sp, dp).word;
            k >> 32 == sip as bv64 && (k >> 16) & 0xFFFF == sp as bv64 && k & 0xFFFF == dp as bv64
  {}

  /** Two flows share a key only if they share the address and both ports. */
  lemma ConnKeyIsInjective(sip: bv32, sp: bv16, dp: bv16, sip': bv32, sp': bv16, dp': bv16)
    requires ConnKey(sip, sp, dp) == ConnKey(sip', sp', dp')
    ensures sip == sip' && sp == sp' && dp == dp'
  {
    ConnKeyUnpacks(sip, sp, dp);
    ConnKeyUnpacks(sip', sp', dp');
  }

  function Bump(c: Conn): Conn {
    Conn(if c.pktCount < U32_MAX then c.pktCount + 1 else c.pktCount,
         if c.pktCount >= HANDSHAKE_PKT_LIMIT && c.phase < 2 then 2 else c.phase)
  }

  /** What `get_pkt_count` returns. */
  function PktCount(t: Table, key: Key): nat {
    if key in t then t[key].pktCount else 0
  }

  /** The table it leaves: a known flow is counted, a new one is inserted unless the map is full. */
  function Touched(t: Table, key: Key): Table {
    if key in t then t[key := Bump(t[key])]
    else if |t| < MAX_FLOWS then t[key := Conn(1, 1)]
    else t
  }

  function Threshold(pkts: nat): nat {
    if pkts < HANDSHAKE_PKT_LIMIT then THRESH_HANDSHAKE else THRESH_AUTHENTICATED
  }

  /** The 70% cap, computed in 32-bit arithmetic. */
  function Capped(thresh: nat, plen: nat): nat {
    var cap := (plen * 7 % TWO_32) / 10;
    if thresh > cap then cap else thresh
  }

  /** For a measured payload the cap never lowers either threshold. */
  lemma CapIsNeverReached(pkts: nat, plen: nat)
    requires 128 <= plen && plen * 7 < 0x1_0000_0000
    ensures Capped(Threshold(pkts), plen) == Threshold(pkts)
  {}

  // --- any interleaving of flows ---

  /** The table after measuring packets of these flows, in order. */
  ghost function TableAfter(keys: seq<Key>): Table {
    if keys == [] then map[] else Touched(TableAfter(keys[..|keys| - 1]), keys[|keys| - 1])
  }

  ghost function Occurrences(keys: seq<Key>, k: Key): nat {
    if keys == [] then 0 else Occurrences(keys[..|keys| - 1], k) + if keys[|keys| - 1] == k then 1 else 0
  }

  ghost function Saturated(n: nat): nat {
    if n < U32_MAX then n else U32_MAX
  }

  /**
   The table holds each tracked flow with its saturated number of packets, and only a full
   table lacks a flow it has met.
   */
  ghost predicate Exact(t: Table, keys: seq<Key>) {
    |t| <= MAX_FLOWS && forall k :: ExactFor(t, k, Occurrences(keys, k))
  }

  ghost predicate ExactFor(t: Table, k: Key, n: nat) {
    if k in t then n > 0 && t[k] == Conn(Saturated(n), if n > HANDSHAKE_PKT_LIMIT then 2 else 1)
    else n > 0 ==> |t| == MAX_FLOWS
  }

  lemma TouchedIsExact(t: Table, last: Key, k: Key, n: nat)
    requires |t| <= MAX_FLOWS && ExactFor(t, k, n)
    ensures |Touched(t, last)| <= MAX_FLOWS
    ensures ExactFor(Touched(t, last), k, if k == last then n + 1 else n)
  {
    assert last in t ==> Touched(t, last).Keys == t.Keys;
  }

  lemma {:induction false} TableIsExact(keys: seq<Key>)
    ensures Exact(TableAfter(keys), keys) && |TableAfter(keys)| <= 64
  {
    if keys != [] {
      var init, last := keys[..|keys| - 1], keys[|keys| - 1];
      TableIsExact(init);
      forall k
        ensures |TableAfter(keys)| <= MAX_FLOWS && ExactFor(TableAfter(keys), k, Occurrences(keys, k))
      {
        TouchedIsExact(TableAfter(init), last, k, Occurrences(init, k));
      }
    }
  }

  /** A full table keeps exactly the flows it has. */
  lemma {:induction false} FullTableIsFrozen(keys: seq<Key>, more: seq<Key>)
    requires |TableAfter(keys)| == 64
    ensures TableAfter(keys + more).Keys == TableAfter(keys).Keys
  {
    if more == [] {
      assert keys + more == keys;
    } else {
      var init := more[..|more| - 1];
      FullTableIsFrozen(keys, init);
      assert (keys + more)[..|keys + more| - 1] == keys + init;
      assert |TableAfter(keys + init).Keys| == MAX_FLOWS;
    }
  }

  /**
   The phase of a tracked flow: its i-th measured packet is judged at 80 for the first twenty
   and at 85 ever after, saturation included.
   */
  lemma TrackedFlowPhase(keys: seq<Key>, k: Key)
    requires k in TableAfter(keys) || |TableAfter(keys)| < 64
    ensures Threshold(PktCount(TableAfter(keys), k)) ==
            if Occurrences(keys, k) < 20 then 80 else 85
  {
    TableIsExact(keys);
    assert ExactFor(TableAfter(keys), k, Occurrences(keys, k));
  }

  /** A flow refused by the full table is judged at 80 then and ever after, and never stored. */
  lemma RefusedFlowStaysAtHandshake(keys: seq<Key>, more: seq<Key>, k: Key)
    requires k !in TableAfter(keys) && |TableAfter(keys)| == 64
    ensures k !in TableAfter(keys + more)
    ensures Threshold(PktCount(TableAfter(keys + more), k)) == 80
  {
    FullTableIsFrozen(keys, more);
  }

  /** Each tracked flow's counter is its number of measured packets, held at the largest 32-bit number. */
  lemma CountersAreExact(keys: seq<Key>, k: Key)
    ensures k in TableAfter(keys) ==>
              TableAfter(keys)[k].pktCount ==
              if Occurrences(keys, k) <= 0xFFFF_FFFF then Occurrences(keys, k) else 0xFFFF_FFFF
    ensures k in TableAfter(keys) ==>
              TableAfter(keys)[k].phase == if Occurrences(keys, k) > 20 then 2 else 1
    ensures k !in TableAfter(keys) && Occurrences(keys, k) > 0 ==> |TableAfter(keys)| == 64
  {
    TableIsExact(keys);
    assert ExactFor(TableAfter(keys), k, Occurrences(keys, k));
  }

  /** What is returned for a packet is how many of its flow were measured before it; none of a refused flow. */
  lemma PktCountIs(keys: seq<Key>, k: Key)
    ensures PktCount(TableAfter(keys), k) ==
            if k !in TableAfter(keys) then 0
            else if Occurrences(keys, k) <= 0xFFFF_FFFF then Occurrences(keys, k) else 0xFFFF_FFFF
  {
    CountersAreExact(keys, k);
  }
}
