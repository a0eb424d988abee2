/**
 The firewall fingerprint of `netfilter/mod.rs`: `hash_iptables_kernel` walks variable-length
 table entries, each naming the distance to the next, and feeds the hash every byte except
 the packet counters, which it replaces by zeros.
 */
module TableHash {
  import opened Prelude

  type U32 = n: nat | n < 0x1_0000_0000
  type Octets = seq<Octet>

  const COUNTERS_OFFSET := 96
  const COUNTERS_SIZE := 16
  const NEXT_OFFSET_FIELD := 90
  const NUM_HOOKS := 5

  datatype TableInfo = TableInfo(validHooks: U32, hookEntry: seq<U32>, underflow: seq<U32>, numEntries: U32)
  {
    predicate Valid() {
      |hookEntry| == NUM_HOOKS && |underflow| == NUM_HOOKS
    }
  }

  /** The distance to the next entry, a little-endian 16-bit field. */
  function NextOffset(data: Octets): nat
    requires |data| >= NEXT_OFFSET_FIELD + 2
  {
    data[NEXT_OFFSET_FIELD] as nat + 256 * data[NEXT_OFFSET_FIELD + 1] as nat
  }

  predicate HasCounters(entry: Octets) {
    |entry| > COUNTERS_OFFSET + COUNTERS_SIZE
  }

  function MaskEntry(entry: Octets): (r: Octets)
    ensures |r| == |entry|
  {
    if HasCounters(entry)
    then entry[..COUNTERS_OFFSET] + seq(COUNTERS_SIZE, _ => 0) + entry[COUNTERS_OFFSET + COUNTERS_SIZE..]
    else entry
  }

  /** Whether the walk finds an entry at the start of `data`. */
  predicate EntryAt(data: Octets) {
    |data| >= NEXT_OFFSET_FIELD + 2 && 0 < NextOffset(data) <= |data|
  }

  /** The bytes the walk feeds. */
  function Walk(data: Octets): Octets
    decreases |data|
  {
    if !EntryAt(data) then []
    else MaskEntry(data[..NextOffset(data)]) + Walk(data[NextOffset(data)..])
  }

  function Le32(x: U32): (r: Octets)
    ensures |r| == 4
  {
    [x % 256, x / 256 % 256, x / 256 / 256 % 256, x / 256 / 256 / 256]
  }

  function Words(xs: seq<U32>): (r: Octets)
    ensures |r| == 4 * |xs|
  {
    if xs == [] then [] else Words(xs[..|xs| - 1]) + Le32(xs[|xs| - 1])
  }

  function Metadata(info: TableInfo): Octets {
    Le32(info.validHooks) + Words(info.hookEntry) + Words(info.underflow) + Le32(info.numEntries)
  }

  /** All that `hash_iptables_kernel` feeds to the hash. */
  method HashInput(info: TableInfo, data: Octets) returns (fed: Octets)
    ensures fed == Metadata(info) + Walk(data)
  {
    fed := Le32(info.validHooks);
    for i := 0 to |info.hookEntry|
      invariant fed == Le32(info.validHooks) + Words(info.hookEntry[..i])
    {
      assert info.hookEntry[..i + 1][..i] == info.hookEntry[..i];
      fed := fed + Le32(info.hookEntry[i]);
    }
    assert info.hookEntry[..|info.hookEntry|] == info.hookEntry;
    ghost var head := fed;
    for i := 0 to |info.underflow|
      invariant fed == head + Words(info.underflow[..i])
    {
      assert info.underflow[..i + 1][..i] == info.underflow[..i];
      fed := fed + Le32(info.underflow[i]);
    }
    assert info.underflow[..|info.underflow|] == info.underflow;
    fed := fed + Le32(info.numEntries);
    var entries := WalkEntries(data);
    fed := fed + entries;
  }

  /** The bytes of one entry, fed piece by piece. */
  method FeedEntry(fed: Octets, entry: Octets) returns (r: Octets)
    ensures r == fed + MaskEntry(entry)
  {
    if |entry| > COUNTERS_OFFSET + COUNTERS_SIZE {
      r := fed + entry[..COUNTERS_OFFSET];
      r := r + seq(COUNTERS_SIZE, _ => 0);
      r := r + entry[COUNTERS_OFFSET + COUNTERS_SIZE..];
    } else {
      r := fed + entry;
    }
  }

  /** What will have been fed once the rest has been walked. */
  ghost function Eventually(fed: Octets, rest: Octets): Octets {
    fed + Walk(rest)
  }

  lemma WalkOnce(fed: Octets, rest: Octets, n: nat)
    requires EntryAt(rest) && n == NextOffset(rest)
    ensures Eventually(fed, rest) == Eventually(fed + MaskEntry(rest[..n]), rest[n..])
  {}

  lemma WalkEnds(fed: Octets, rest: Octets)
    requires !EntryAt(rest)
    ensures Eventually(fed, rest) == fed
  {}

  /** The length of the entry at an offset, or zero where the loop stops. */
  method NextEntry(data: Octets, offset: nat) returns (n: nat)
    requires offset <= |data|
    ensures n > 0 <==> EntryAt(data[offset..])
    ensures n > 0 ==> n == NextOffset(data[offset..])
  {
    if offset + NEXT_OFFSET_FIELD + 2 > |data| {
      return 0;
    }
    n := data[offset + NEXT_OFFSET_FIELD] as nat + 256 * data[offset + NEXT_OFFSET_FIELD + 1] as nat;
    if n == 0 || offset + n > |data| {
      return 0;
    }
  }

  /** The entry loop: an offset advanced by each entry's own length. */
  method WalkEntries(data: Octets) returns (fed: Octets)
    ensures fed == Walk(data)
  {
    fed := [];
    var offset := 0;
    ghost var rest := data;
    assert Eventually(fed, rest) == Walk(data);
    while offset < |data|
      invariant 0 <= offset <= |data| && rest == data[offset..]
      invariant Eventually(fed, rest) == Walk(data)
      decreases |data| - offset
    {
      var nextOffset := NextEntry(data, offset);
      if nextOffset == 0 {
        break;
      }
      WalkOnce(fed, rest, nextOffset);
      assert rest[..nextOffset] == data[offset..offset + nextOffset];
      fed := FeedEntry(fed, data[offset..offset + nextOffset]);
      offset := offset + nextOffset;
      rest := rest[nextOffset..];
    }
    WalkEnds(fed, rest);
  }

  // --- tables that split exactly into entries ---

  /** Entries long enough to hold their own next-offset field, with nothing left over. */
  ghost predicate Splits(data: Octets)
    decreases |data|
  {
    data != [] ==>
      EntryAt(data) && NextOffset(data) >= NEXT_OFFSET_FIELD + 2 && Splits(data[NextOffset(data)..])
  }

  /** Byte `i` is one of an entry's counter bytes. */
  ghost predicate InCounters(data: Octets, i: nat)
    decreases |data|
  {
    EntryAt(data) &&
    var n := NextOffset(data);
    if i < n then HasCounters(data[..n]) && COUNTERS_OFFSET <= i < COUNTERS_OFFSET + COUNTERS_SIZE
    else InCounters(data[n..], i - n)
  }

  lemma MaskEntryAt(entry: Octets, i: nat)
    requires i < |entry|
    ensures MaskEntry(entry)[i] ==
            if HasCounters(entry) && COUNTERS_OFFSET <= i < COUNTERS_OFFSET + COUNTERS_SIZE then 0 else entry[i]
  {}

  lemma {:induction false} WalkLength(data: Octets)
    requires Splits(data)
    ensures |Walk(data)| == |data|
    decreases |data|
  {
    if data != [] {
      WalkLength(data[NextOffset(data)..]);
    }
  }

  /** The walk visits every byte, and changes only counter bytes, to zero. */
  lemma {:induction false} WalkMasksCountersOnly(data: Octets, i: nat)
    requires Splits(data) && i < |data|
    ensures |Walk(data)| == |data|
    ensures Walk(data)[i] == if InCounters(data, i) then 0 else data[i]
    decreases |data|
  {
    WalkLength(data);
    var n := NextOffset(data);
    if i < n {
      MaskEntryAt(data[..n], i);
    } else {
      WalkMasksCountersOnly(data[n..], i - n);
    }
  }

  lemma WalkMasksAllCounters(data: Octets)
    requires Splits(data)
    ensures |Walk(data)| == |data|
    ensures forall i: nat :: i < |data| ==> Walk(data)[i] == if InCounters(data, i) then 0 else data[i]
  {
    WalkLength(data);
    forall i: nat | i < |data|
      ensures Walk(data)[i] == if InCounters(data, i) then 0 else data[i]
    {
      WalkMasksCountersOnly(data, i);
    }
  }

  ghost predicate AgreeOutsideCounters(a: Octets, b: Octets) {
    |a| == |b| && forall i: nat :: i < |a| && !InCounters(a, i) ==> a[i] == b[i]
  }

  /** Tables that agree outside counters have the same entry boundaries, hence the same counters. */
  lemma {:induction false} SameCounters(a: Octets, b: Octets, i: nat)
    requires Splits(a) && Splits(b) && AgreeOutsideCounters(a, b) && i < |a|
    ensures InCounters(a, i) <==> InCounters(b, i)
    decreases |a|
  {
    assert !InCounters(a, NEXT_OFFSET_FIELD) && !InCounters(a, NEXT_OFFSET_FIELD + 1);
    var n := NextOffset(a);
    assert NextOffset(b) == n;
    if i >= n {
      AgreeOnRest(a, b, n);
      SameCounters(a[n..], b[n..], i - n);
    }
  }

  lemma AgreeOnRest(a: Octets, b: Octets, n: nat)
    requires Splits(a) && a != [] && n == NextOffset(a) && AgreeOutsideCounters(a, b)
    ensures AgreeOutsideCounters(a[n..], b[n..])
  {
    forall i: nat | i < |a| - n && !InCounters(a[n..], i)
      ensures a[n..][i] == b[n..][i]
    {
      assert !InCounters(a, i + n);
    }
  }

  /** Equal walks come from tables with the same entry boundaries. */
  lemma {:induction false} EqualWalksAgree(a: Octets, b: Octets)
    requires Splits(a) && Splits(b) && Walk(a) == Walk(b)
    ensures AgreeOutsideCounters(a, b)
    decreases |a|
  {
    WalkMasksAllCounters(a);
    WalkMasksAllCounters(b);
    if a != [] {
      assert !InCounters(a, NEXT_OFFSET_FIELD) && !InCounters(a, NEXT_OFFSET_FIELD + 1);
      assert !InCounters(b, NEXT_OFFSET_FIELD) && !InCounters(b, NEXT_OFFSET_FIELD + 1);
      var n := NextOffset(a);
      assert NextOffset(b) == n;
      assert Walk(a)[n..] == Walk(a[n..]) && Walk(b)[n..] == Walk(b[n..]);
      EqualWalksAgree(a[n..], b[n..]);
      forall i: nat | i < |a| && !InCounters(a, i)
        ensures a[i] == b[i]
      {
        if i < n {
          assert !InCounters(b, i);
        } else {
          assert a[i] == a[n..][i - n] && b[i] == b[n..][i - n];
        }
      }
    }
  }

  /** The walk is blind to counters and to nothing else. */
  lemma WalkIsCounterBlind(a: Octets, b: Octets)
    requires Splits(a) && Splits(b)
    ensures Walk(a) == Walk(b) <==> AgreeOutsideCounters(a, b)
  {
    WalkMasksAllCounters(a);
    WalkMasksAllCounters(b);
    if Walk(a) == Walk(b) {
      EqualWalksAgree(a, b);
    }
    if AgreeOutsideCounters(a, b) {
      forall i: nat | i < |a|
        ensures Walk(a)[i] == Walk(b)[i]
      {
        SameCounters(a, b, i);
      }
    }
  }

  lemma Le32Value(x: U32)
    ensures x == Le32(x)[0] as nat + 256 * (Le32(x)[1] as nat + 256 * (Le32(x)[2] as nat + 256 * Le32(x)[3] as nat))
  {}

  lemma Le32IsInjective(x: U32, y: U32)
    requires Le32(x) == Le32(y)
    ensures x == y
  {
    Le32Value(x);
    Le32Value(y);
  }

  lemma {:induction false} WordsIsInjective(xs: seq<U32>, ys: seq<U32>)
    requires |xs| == |ys| && Words(xs) == Words(ys)
    ensures xs == ys
  {
    if xs != [] {
      var k := |xs| - 1;
      assert Words(xs)[..4 * k] == Words(xs[..k]) && Words(xs)[4 * k..] == Le32(xs[k]);
      assert Words(ys)[..4 * k] == Words(ys[..k]) && Words(ys)[4 * k..] == Le32(ys[k]);
      WordsIsInjective(xs[..k], ys[..k]);
      Le32IsInjective(xs[k], ys[k]);
      assert xs == xs[..k] + [xs[k]] && ys == ys[..k] + [ys[k]];
    }
  }

  /** The metadata can be read back from what was fed. */
  lemma MetadataIsInjective(i: TableInfo, a: Octets, j: TableInfo, b: Octets)
    requires i.Valid() && j.Valid() && Metadata(i) + a == Metadata(j) + b
    ensures i == j && a == b
  {
    var m, n := Metadata(i), Metadata(j);
    assert m == (m + a)[..48] && n == (n + b)[..48] && a == (m + a)[48..] && b == (n + b)[48..];
    assert m[..4] == Le32(i.validHooks) && n[..4] == Le32(j.validHooks);
    assert m[4..24] == Words(i.hookEntry) && n[4..24] == Words(j.hookEntry);
    assert m[24..44] == Words(i.underflow) && n[24..44] == Words(j.underflow);
    assert m[44..] == Le32(i.numEntries) && n[44..] == Le32(j.numEntries);
    Le32IsInjective(i.validHooks, j.validHooks);
    WordsIsInjective(i.hookEntry, j.hookEntry);
    WordsIsInjective(i.underflow, j.underflow);
    Le32IsInjective(i.numEntries, j.numEntries);
  }

  /**
   Two tables feed the hash the same bytes exactly if they agree on the metadata and on every
   byte outside the counters.
   */
  lemma HashInputIsCounterBlind(i: TableInfo, a: Octets, j: TableInfo, b: Octets)
    requires i.Valid() && j.Valid() && Splits(a) && Splits(b)
    ensures Metadata(i) + Walk(a) == Metadata(j) + Walk(b) <==> i == j && AgreeOutsideCounters(a, b)
  {
    WalkIsCounterBlind(a, b);
    if Metadata(i) + Walk(a) == Metadata(j) + Walk(b) {
      MetadataIsInjective(i, Walk(a), j, Walk(b));
    }
  }

  // --- tables given as lists of entries, with the numbers of the kernel's layout written out ---

  /** An entry that can hold counters and names its own length in bytes 90 and 91, low byte first. */
  predicate IsEntry(e: Octets) {
    |e| > 112 && e[90] as nat + 256 * e[91] as nat == |e|
  }

  predicate AreEntries(es: seq<Octets>) {
    forall i :: 0 <= i < |es| ==> IsEntry(es[i])
  }

  /** The entry with sixteen zeros in place of bytes 96 to 111. */
  function ZeroedAt96(e: Octets): Octets
    requires |e| > 112
  {
    e[..96] + [0, 0, 0, 0, 0, 0, 0, 0, 0, 0, 0, 0, 0, 0, 0, 0] + e[112..]
  }

  function AllZeroed(es: seq<Octets>): (zs: seq<Octets>)
    requires AreEntries(es)
    ensures |zs| == |es| && forall i :: 0 <= i < |es| ==> zs[i] == ZeroedAt96(es[i])
  {
    if es == [] then [] else [ZeroedAt96(es[0])] + AllZeroed(es[1..])
  }

  lemma WalkOneEntry(e: Octets, rest: Octets)
    requires IsEntry(e)
    ensures Walk(e + rest) == ZeroedAt96(e) + Walk(rest)
  {
    var data := e + rest;
    assert data[90] == e[90] && data[91] == e[91];
    assert NextOffset(data) == |e|;
    assert data[..|e|] == e && data[|e|..] == rest;
    assert MaskEntry(e) == ZeroedAt96(e);
  }

  /** The walk of any list of entries feeds each of them, zeroed, in order. */
  lemma {:induction false} WalkOfEntries(es: seq<Octets>)
    requires AreEntries(es)
    ensures Walk(Flatten(es)) == Flatten(AllZeroed(es))
  {
    if es != [] {
      WalkOfEntries(es[1..]);
      WalkOneEntry(es[0], Flatten(es[1..]));
    }
  }

  /** Two entries of one length that differ in their counters only. */
  predicate SameButCounters(d: Octets, e: Octets) {
    |d| == |e| && |d| > 112 && d[..96] == e[..96] && d[112..] == e[112..]
  }

  predicate AllSameButCounters(ds: seq<Octets>, es: seq<Octets>) {
    if ds == [] then es == []
    else es != [] && SameButCounters(ds[0], es[0]) && AllSameButCounters(ds[1..], es[1..])
  }

  lemma {:induction false} AllSameEntryByEntry(ds: seq<Octets>, es: seq<Octets>)
    ensures AllSameButCounters(ds, es) <==>
            |ds| == |es| && forall i :: 0 <= i < |ds| ==> SameButCounters(ds[i], es[i])
  {
    if ds != [] && es != [] {
      AllSameEntryByEntry(ds[1..], es[1..]);
      assert forall i :: 0 < i < |ds| ==> ds[i] == ds[1..][i - 1];
      assert forall i :: 0 < i < |es| ==> es[i] == es[1..][i - 1];
    }
  }

  lemma ZeroedExactlyIf(d: Octets, e: Octets, x: Octets, y: Octets)
    requires IsEntry(d) && IsEntry(e)
    ensures ZeroedAt96(d) + x == ZeroedAt96(e) + y <==> SameButCounters(d, e) && x == y
  {
    var a, b := ZeroedAt96(d) + x, ZeroedAt96(e) + y;
    if a == b {
      assert a[90] == d[90] && a[91] == d[91] && b[90] == e[90] && b[91] == e[91];
      assert |d| == |e|;
      assert d[..96] == a[..96] && e[..96] == b[..96];
      assert d[112..] == a[112..|d|] && e[112..] == b[112..|e|];
      assert x == a[|d|..] && y == b[|e|..];
    }
  }

  lemma {:induction false} ZeroedAreCounterBlind(ds: seq<Octets>, es: seq<Octets>)
    requires AreEntries(ds) && AreEntries(es)
    ensures Flatten(AllZeroed(ds)) == Flatten(AllZeroed(es)) <==> AllSameButCounters(ds, es)
  {
    if ds != [] && es != [] {
      ZeroedAreCounterBlind(ds[1..], es[1..]);
      FlattenZeroed(ds);
      FlattenZeroed(es);
      ZeroedExactlyIf(ds[0], es[0], Flatten(AllZeroed(ds[1..])), Flatten(AllZeroed(es[1..])));
    } else if ds != [] {
      FlattenZeroed(ds);
    } else if es != [] {
      FlattenZeroed(es);
    }
  }

  lemma FlattenZeroed(es: seq<Octets>)
    requires AreEntries(es) && es != []
    ensures IsEntry(es[0]) && AreEntries(es[1..])
    ensures Flatten(AllZeroed(es)) == ZeroedAt96(es[0]) + Flatten(AllZeroed(es[1..])) != []
  {
    assert AllZeroed(es)[1..] == AllZeroed(es[1..]);
  }

  /** Two tables feed the same bytes exactly if they have the same entries but for the counters. */
  lemma TablesAreCounterBlind(ds: seq<Octets>, es: seq<Octets>)
    requires AreEntries(ds) && AreEntries(es)
    ensures Walk(Flatten(ds)) == Walk(Flatten(es)) <==>
            |ds| == |es| && forall i :: 0 <= i < |ds| ==> SameButCounters(ds[i], es[i])
  {
    WalkOfEntries(ds);
    WalkOfEntries(es);
    ZeroedAreCounterBlind(ds, es);
    AllSameEntryByEntry(ds, es);
  }

  /** Four bytes of a text as a number, low byte first. */
  function WordAt(m: Octets, i: nat): nat
    requires i + 4 <= |m|
  {
    m[i] as nat + 0x100 * m[i + 1] as nat + 0x1_0000 * m[i + 2] as nat + 0x100_0000 * m[i + 3] as nat
  }

  lemma {:induction false} WordsLayout(xs: seq<U32>, i: nat)
    requires i < |xs|
    ensures WordAt(Words(xs), 4 * i) == xs[i]
  {
    var k := |xs| - 1;
    if i < k {
      WordsLayout(xs[..k], i);
    } else {
      Le32Value(xs[i]);
    }
  }

  /** The metadata in front: twelve words, in the kernel's order. */
  lemma MetadataLayout(info: TableInfo, i: nat)
    requires info.Valid() && i < 5
    ensures |info.hookEntry| == 5 && |info.underflow| == 5
    ensures var m := Metadata(info);
            && |m| == 48 && WordAt(m, 0) == info.validHooks && WordAt(m, 4 + 4 * i) == info.hookEntry[i]
            && WordAt(m, 24 + 4 * i) == info.underflow[i] && WordAt(m, 44) == info.numEntries
  {
    Le32Value(info.validHooks);
    Le32Value(info.numEntries);
    WordsLayout(info.hookEntry, i);
    WordsLayout(info.underflow, i);
    var m := Metadata(info);
    assert m[4..24] == Words(info.hookEntry) && m[24..44] == Words(info.underflow);
    assert forall k :: 0 <= k < 20 ==> m[4..24][k] == m[4 + k] && m[24..44][k] == m[24 + k];
  }

  /** An entry of at most 112 bytes has no counters and is fed as it is. */
  lemma WalkShortEntry(e: Octets, rest: Octets)
    requires 92 <= |e| <= 112 && e[90] as nat + 256 * e[91] as nat == |e|
    ensures Walk(e + rest) == e + Walk(rest)
  {
    var data := e + rest;
    assert data[90] == e[90] && data[91] == e[91];
    assert NextOffset(data) == |e|;
    assert data[..|e|] == e && data[|e|..] == rest;
  }
}
