/**
 The append-only check on IMA measurement logs: the count-delta rule and the
 prefix-aggregate rule of `verify_attestation` in `protocol/mod.rs`, and the per-node
 trackers that `main.rs` carries from one heartbeat to the next. The log text is its bytes;
 the hash is a parameter, injective where a proof says so.
 */
module ImaLog {
  import opened Prelude

  const MIN_COUNT := 200
  const MAX_DELTA := 20

  type Usize = n: nat | n < TWO_64

  type Digest = string -> Bytes

  /** `ImaMeasurements`: the kernel's count, the hash of the log text, and the text. */
  datatype Ima = Ima(count: Usize, aggregate: Bytes, text: string)

  /** What the trackers keep of a report. */
  datatype Seen = Seen(count: Usize, aggregate: Bytes)

  function SeenOf(m: Option<Ima>): Option<Seen> {
    if m.None? then None else Some(Seen(m.value.count, m.value.aggregate))
  }

  datatype Attestation = Attestation(vmIdentity: string, ima: Ima)

  ghost predicate Injective(h: Digest) {
    forall a: string, b: string :: h(a) == h(b) ==> a == b
  }

  function Newlines(text: string): nat {
    if text == "" then 0 else Newlines(text[..|text| - 1]) + if text[|text| - 1] == '\n' then 1 else 0
  }

  lemma {:induction false} NewlinesOfPrefix(text: string, i: nat)
    requires i <= |text|
    ensures Newlines(text[..i]) <= Newlines(text)
    ensures i < |text| && text[i] == '\n' ==> Newlines(text[..i]) < Newlines(text)
  {
    if i < |text| {
      NewlinesOfPrefix(text[..|text| - 1], if i < |text| - 1 then i else |text| - 1);
      assert i < |text| - 1 ==> text[..|text| - 1][..i] == text[..i];
    } else {
      assert text[..i] == text;
    }
  }

  /** Index `i` holds the newline that ends line number `n` (counting from one). */
  predicate EndsLine(text: string, n: nat, i: nat) {
    i < |text| && text[i] == '\n' && Newlines(text[..i]) + 1 == n
  }

  lemma LineEndIsUnique(text: string, n: nat, i: nat, j: nat)
    requires EndsLine(text, n, i) && EndsLine(text, n, j)
    ensures i == j
  {
    if i < j {
      assert text[..j][..i] == text[..i];
      NewlinesOfPrefix(text[..j], i);
    } else if j < i {
      assert text[..i][..j] == text[..j];
      NewlinesOfPrefix(text[..i], j);
    }
  }

  /** `match_indices('\n').nth(n)`. */
  method NthNewline(text: string, n: nat) returns (r: Option<nat>)
    ensures r.Some? ==> EndsLine(text, n + 1, r.value)
    ensures r.None? ==> Newlines(text) <= n
  {
    var seen := 0;
    for i := 0 to |text|
      invariant seen == Newlines(text[..i]) && seen <= n
    {
      assert text[..i + 1][..i] == text[..i];
      if text[i] == '\n' {
        if seen == n {
          return Some(i);
        }
        seen := seen + 1;
      }
    }
    assert text[..|text|] == text;
    r := None;
  }

  // --- 64-bit arithmetic of the delta ---

  /** `x as i64`. */
  function AsI64(x: Usize): int {
    if x < TWO_63 then x else x - TWO_64
  }

  /** Subtraction of i64 values, wrapping. */
  function WrappingSub(a: int, b: int): int
    requires -TWO_63 <= a < TWO_63 && -TWO_63 <= b < TWO_63
  {
    var d := a - b;
    if d < -TWO_63 then d + TWO_64 else if d >= TWO_63 then d - TWO_64 else d
  }

  /** Above the floor of 200 the wrapped delta is between 0 and 20 only when the true one is. */
  lemma DeltaIsExact(cur: Usize, prev: Usize)
    requires cur >= 200
    ensures 0 <= WrappingSub(AsI64(cur), AsI64(prev)) <= 20 <==> prev <= cur <= prev + 20
  {}

  // --- one result ---

  /** The line whose end closes the prefix to be hashed. */
  function LastPrefixLine(prevCount: nat): nat {
    if prevCount == 0 then 1 else prevCount
  }

  /** The prefix-aggregate rule: the first `count` lines are there and hash to the previous aggregate. */
  ghost predicate PrefixKept(h: Digest, prev: Seen, text: string) {
    exists i: nat :: EndsLine(text, LastPrefixLine(prev.count), i) && h(text[..i + 1]) == prev.aggregate
  }

  /** What `ima_valid` means for a node that has a baseline. */
  ghost predicate ImaValid(h: Digest, prev: Option<Seen>, cur: Ima) {
    && cur.count >= MIN_COUNT
    && (prev.Some? ==> prev.value.count <= cur.count <= prev.value.count + MAX_DELTA)
    && (prev.Some? ==> PrefixKept(h, prev.value, cur.text))
  }

  /** The IMA part of `verify_attestation`: a flag cleared along the branches. */
  method VerifyIma(h: Digest, prevCount: Option<Usize>, prevAggregate: Option<Bytes>, cur: Ima)
    returns (imaValid: bool)
    ensures prevCount.Some? && prevAggregate.Some? ==>
              (imaValid <==> ImaValid(h, Some(Seen(prevCount.value, prevAggregate.value)), cur))
    ensures prevCount.None? ==> (imaValid <==> ImaValid(h, None, cur))
    ensures prevCount.Some? && prevAggregate.None? ==>
              (imaValid <==> cur.count >= 200 && prevCount.value <= cur.count <= prevCount.value + 20)
  {
    imaValid := true;
    if cur.count < MIN_COUNT {
      imaValid := false;
    } else if prevCount.Some? {
      var delta := WrappingSub(AsI64(cur.count), AsI64(prevCount.value));
      DeltaIsExact(cur.count, prevCount.value);
      if delta < 0 {
        imaValid := false;
      } else if delta > MAX_DELTA {
        imaValid := false;
      }
    }
    if prevCount.Some? && prevAggregate.Some? {
      ghost var prev := Seen(prevCount.value, prevAggregate.value);
      if cur.text == "" {
        imaValid := false;
      } else if cur.count < prevCount.value {
        imaValid := false;
      } else {
        var nth := NthNewline(cur.text, LastPrefixLine(prevCount.value) - 1);
        var prefix := cur.text;
        if nth.Some? {
          prefix := cur.text[..nth.value + 1];
          PrefixAt(h, prev, cur.text, nth.value);
        } else {
          imaValid := false;
          TooFewLines(h, prev, cur.text);
        }
        if h(prefix) != prevAggregate.value {
          imaValid := false;
        }
      }
    }
  }

  /** Only one prefix can be meant. */
  lemma PrefixAt(h: Digest, prev: Seen, text: string, i: nat)
    requires EndsLine(text, LastPrefixLine(prev.count), i)
    ensures PrefixKept(h, prev, text) <==> h(text[..i + 1]) == prev.aggregate
  {
    if PrefixKept(h, prev, text) {
      var j: nat :| EndsLine(text, LastPrefixLine(prev.count), j) && h(text[..j + 1]) == prev.aggregate;
      LineEndIsUnique(text, LastPrefixLine(prev.count), i, j);
    }
  }

  lemma TooFewLines(h: Digest, prev: Seen, text: string)
    requires Newlines(text) < LastPrefixLine(prev.count)
    ensures !PrefixKept(h, prev, text)
  {
    if PrefixKept(h, prev, text) {
      var i: nat :| EndsLine(text, LastPrefixLine(prev.count), i) && h(text[..i + 1]) == prev.aggregate;
      NewlinesOfPrefix(text, i);
    }
  }

  // --- trackers across heartbeats ---

  /** The last measurement a node reported in a history. */
  ghost function Last(history: seq<Attestation>, node: string): Option<Ima> {
    if history == [] then None
    else if history[|history| - 1].vmIdentity == node then Some(history[|history| - 1].ima)
    else Last(history[..|history| - 1], node)
  }

  /**
   A result's `ima_valid`: false without a baseline database, and never cleared for a node
   the database does not know.
   */
  ghost predicate NodeImaValid(h: Digest, db: Option<set<string>>, history: seq<Attestation>, att: Attestation) {
    db.Some? && (att.vmIdentity in db.value ==> ImaValid(h, SeenOf(Last(history, att.vmIdentity)), att.ima))
  }

  class ChainVerifier {
    var imaTracker: map<string, Usize>
    var imaAggTracker: map<string, Bytes>
    ghost var history: seq<Attestation>

    ghost predicate Valid()
      reads this
    {
      forall node :: match Last(history, node)
                     case None => node !in imaTracker && node !in imaAggTracker
                     case Some(m) => node in imaTracker && imaTracker[node] == m.count
                                     && node in imaAggTracker && imaAggTracker[node] == m.aggregate
    }

    constructor ()
      ensures Valid() && history == []
    {
      imaTracker, imaAggTracker, history := map[], map[], [];
    }

    /** One attestation of `verify_chain_against_db` or `verify_full_authorization`. */
    method VerifyNode(h: Digest, db: Option<set<string>>, att: Attestation) returns (imaValid: bool)
      requires Valid()
      modifies this
      ensures Valid() && history == old(history) + [att]
      ensures imaValid <==> NodeImaValid(h, db, old(history), att)
      ensures db.None? ==> !imaValid
      ensures db.Some? && att.vmIdentity !in db.value ==> imaValid
      ensures db.Some? && att.vmIdentity in db.value ==>
                (imaValid <==> ImaValid(h, SeenOf(Last(old(history), att.vmIdentity)), att.ima))
    {
      var node := att.vmIdentity;
      var prevIma := if node in imaTracker then Some(imaTracker[node]) else None;
      var prevAgg := if node in imaAggTracker then Some(imaAggTracker[node]) else None;
      if db.None? {
        imaValid := false;
      } else if node !in db.value {
        imaValid := true;
      } else {
        imaValid := VerifyIma(h, prevIma, prevAgg, att.ima);
      }
      imaTracker := imaTracker[node := att.ima.count];
      imaAggTracker := imaAggTracker[node := att.ima.aggregate];
      history := history + [att];
      assert history[..|history| - 1] == old(history);
    }

    /** The loop over a chain's attestations, the verifier's own coming last. */
    method VerifyChain(h: Digest, db: Option<set<string>>, attestations: seq<Attestation>, own: Attestation)
      returns (results: seq<bool>)
      requires Valid()
      modifies this
      ensures Valid() && history == old(history) + attestations + [own]
      ensures |results| == |attestations| + 1
      ensures forall i :: 0 <= i < |results| ==>
                var all := attestations + [own];
                results[i] <==> NodeImaValid(h, db, old(history) + all[..i], all[i])
    {
      results := [];
      var all := attestations + [own];
      assert old(history) + all[..0] == old(history);
      for i := 0 to |all|
        invariant Valid() && |results| == i && history == old(history) + all[..i]
        invariant forall j :: 0 <= j < i ==> (results[j] <==> NodeImaValid(h, db, old(history) + all[..j], all[j]))
      {
        var nr := VerifyNode(h, db, all[i]);
        results := results + [nr];
        assert old(history) + all[..i] + [all[i]] == old(history) + all[..i + 1];
      }
      assert all[..|all|] == all;
    }
  }

  // --- whole runs ---

  ghost predicate IsNode(history: seq<Attestation>, i: nat, node: string) {
    i < |history| && history[i].vmIdentity == node
  }

  /** Every result for this node is `ima_valid`, and its aggregates are the hash of the log text. */
  ghost predicate Accepted(h: Digest, db: Option<set<string>>, history: seq<Attestation>, node: string) {
    forall i: nat :: IsNode(history, i, node) ==>
      NodeImaValid(h, db, history[..i], history[i]) && history[i].ima.aggregate == h(history[i].ima.text)
  }

  ghost predicate HasBaseline(db: Option<set<string>>, node: string) {
    db.Some? && node in db.value
  }

  /** The index of a node's last report in a history. */
  lemma {:induction false} LastIndex(history: seq<Attestation>, node: string) returns (k: nat)
    requires Last(history, node).Some?
    ensures IsNode(history, k, node) && history[k].ima == Last(history, node).value
    ensures forall i :: k < i < |history| ==> history[i].vmIdentity != node
  {
    if history[|history| - 1].vmIdentity == node {
      k := |history| - 1;
    } else {
      k := LastIndex(history[..|history| - 1], node);
    }
  }

  lemma {:induction false} LastExists(history: seq<Attestation>, i: nat, node: string)
    requires IsNode(history, i, node)
    ensures Last(history, node).Some?
  {
    if i < |history| - 1 {
      LastExists(history[..|history| - 1], i, node);
    }
  }

  /** One accepted step: the text grew at its end only, and the earlier count was its line count. */
  lemma AcceptedStepExtends(h: Digest, prev: Ima, cur: Ima)
    requires Injective(h) && prev.aggregate == h(prev.text) && prev.count >= 200
    requires ImaValid(h, SeenOf(Some(prev)), cur)
    ensures prev.text <= cur.text && Newlines(prev.text) == prev.count
    ensures prev.count <= cur.count <= prev.count + 20
  {
    var i: nat :| EndsLine(cur.text, LastPrefixLine(prev.count), i) && h(cur.text[..i + 1]) == prev.aggregate;
    assert cur.text[..i + 1] == prev.text;
    assert prev.text[..|prev.text| - 1] == cur.text[..i];
  }

  /** How many reports of a node lie in history[i..j). */
  ghost function Reports(history: seq<Attestation>, node: string, i: nat, j: nat): nat
    requires i <= j <= |history|
    decreases j
  {
    if i == j then 0
    else Reports(history, node, i, j - 1) + if history[j - 1].vmIdentity == node then 1 else 0
  }

  lemma {:induction false} NoReports(history: seq<Attestation>, node: string, i: nat, j: nat)
    requires i <= j <= |history| && forall k :: i <= k < j ==> history[k].vmIdentity != node
    ensures Reports(history, node, i, j) == 0
  {
    if i < j {
      NoReports(history, node, i, j - 1);
    }
  }

  lemma {:induction false} ReportsSplit(history: seq<Attestation>, node: string, i: nat, k: nat, j: nat)
    requires i <= k <= j <= |history|
    ensures Reports(history, node, i, j) == Reports(history, node, i, k) + Reports(history, node, k, j)
  {
    if k < j {
      ReportsSplit(history, node, i, k, j - 1);
    }
  }

  /**
   Append-only over whole runs, whatever other nodes report in between: each accepted log
   extends all earlier ones, counts never fall and grow by at most 20 per report, and every
   log but the last has exactly as many lines as it claimed.
   */
  lemma {:induction false} AcceptedRunIsAppendOnly(h: Digest, db: Option<set<string>>, history: seq<Attestation>,
                                                   node: string, i: nat, j: nat)
    requires Injective(h) && Accepted(h, db, history, node) && HasBaseline(db, node)
    requires IsNode(history, i, node) && IsNode(history, j, node) && i <= j
    ensures history[i].ima.text <= history[j].ima.text
    ensures history[i].ima.count <= history[j].ima.count
            <= history[i].ima.count + 20 * Reports(history, node, i, j)
    ensures i < j ==> Newlines(history[i].ima.text) == history[i].ima.count
    decreases j
  {
    if i < j {
      assert history[..j][i] == history[i];
      LastExists(history[..j], i, node);
      var k := LastIndex(history[..j], node);
      assert history[..j][k] == history[k] && i <= k;
      AcceptedRunIsAppendOnly(h, db, history, node, i, k);
      AcceptedStepExtends(h, history[k].ima, history[j].ima);
      ReportsSplit(history, node, i, k, j);
      assert Reports(history, node, k, j) == 1 by {
        ReportsSplit(history, node, k, k + 1, j);
        forall m | k + 1 <= m < j
          ensures history[m].vmIdentity != node
        {
          assert history[..j][m] == history[m];
        }
        NoReports(history, node, k + 1, j);
      }
    }
  }

  /** An honest report: newline-terminated text, its true line count, its true hash. */
  ghost predicate Honest(h: Digest, m: Ima) {
    m.text != "" && m.text[|m.text| - 1] == '\n' && m.count == Newlines(m.text) && m.aggregate == h(m.text)
  }

  /** Conversely, an honest log of at least 200 lines that grew by 0 to 20 lines is accepted. */
  lemma HonestGrowthIsAccepted(h: Digest, prev: Option<Ima>, cur: Ima)
    requires Honest(h, cur) && cur.count >= 200
    requires prev.Some? ==> Honest(h, prev.value) && prev.value.text <= cur.text
                            && cur.count <= prev.value.count + 20
    ensures ImaValid(h, SeenOf(prev), cur)
  {
    if prev.Some? {
      var p := prev.value;
      var i := |p.text| - 1;
      NewlinesOfPrefix(cur.text, |p.text|);
      assert cur.text[..|p.text|] == p.text;
      assert cur.text[..i] == p.text[..i];
      assert EndsLine(cur.text, LastPrefixLine(p.count), i) && h(cur.text[..i + 1]) == p.aggregate;
    }
  }

  /** A report that is honest, long enough and, if it is not the first, extends the last one by at most 20 lines. */
  ghost predicate HonestNext(h: Digest, prev: Option<Ima>, cur: Ima) {
    && Honest(h, cur) && cur.count >= 200
    && (prev.Some? ==> prev.value.text <= cur.text && cur.count <= prev.value.count + 20)
  }

  /** Honest nodes are never refused, over whole histories and whatever other nodes report in between. */
  lemma HonestHistoryIsAccepted(h: Digest, db: Option<set<string>>, history: seq<Attestation>, node: string)
    requires db.Some?
    requires forall i: nat :: IsNode(history, i, node) ==>
               HonestNext(h, Last(history[..i], node), history[i].ima)
    ensures Accepted(h, db, history, node)
  {
    forall i: nat | IsNode(history, i, node)
      ensures NodeImaValid(h, db, history[..i], history[i]) && history[i].ima.aggregate == h(history[i].ima.text)
    {
      var prev := Last(history[..i], node);
      if prev.Some? {
        var k := LastIndex(history[..i], node);
        assert IsNode(history, k, node) && history[k].ima == prev.value;
      }
      HonestGrowthIsAccepted(h, prev, history[i].ima);
    }
  }

  /**
   The baseline is needed: a node missing from the database has no log refused, so accepted
   runs of a node are append-only exactly if the database knows the node.
   */
  lemma AppendOnlyExactlyWithBaseline(h: Digest, db: set<string>, node: string)
    requires Injective(h)
    ensures node in db <==>
              forall history: seq<Attestation>, i: nat, j: nat ::
                Accepted(h, Some(db), history, node) ==>
                  IsNode(history, i, node) && IsNode(history, j, node) && i <= j ==>
                    history[i].ima.text <= history[j].ima.text
  {
    if node in db {
      forall history: seq<Attestation>, i: nat, j: nat | Accepted(h, Some(db), history, node)
                                       && IsNode(history, i, node) && IsNode(history, j, node) && i <= j
        ensures history[i].ima.text <= history[j].ima.text
      {
        AcceptedRunIsAppendOnly(h, Some(db), history, node, i, j);
      }
    } else {
      var history := NoBaselineAcceptsTruncation(h, db, node);
    }
  }

  /** Two reports accepted one after the other although the second log dropped everything. */
  lemma NoBaselineAcceptsTruncation(h: Digest, db: set<string>, node: string) returns (history: seq<Attestation>)
    requires node !in db
    ensures Accepted(h, Some(db), history, node)
    ensures IsNode(history, 0, node) && IsNode(history, 1, node)
    ensures !(history[0].ima.text <= history[1].ima.text)
  {
    history := [Attestation(node, Ima(1, h("a\n"), "a\n")), Attestation(node, Ima(0, h(""), ""))];
  }

  /** What an accepted report means, with the numbers and the prefix written out. */
  lemma ImaValidMeans(h: Digest, prev: Seen, cur: Ima)
    ensures ImaValid(h, Some(prev), cur) <==>
              && cur.count >= 200 && prev.count <= cur.count <= prev.count + 20
              && exists i: nat :: i < |cur.text| && cur.text[i] == '\n'
                                  && Newlines(cur.text[..i]) + 1 == (if prev.count == 0 then 1 else prev.count)
                                  && h(cur.text[..i + 1]) == prev.aggregate
    ensures ImaValid(h, None, cur) <==> cur.count >= 200
  {
    if ImaValid(h, Some(prev), cur) {
      var i: nat :| EndsLine(cur.text, LastPrefixLine(prev.count), i) && h(cur.text[..i + 1]) == prev.aggregate;
      assert i < |cur.text| && cur.text[i] == '\n'
          && Newlines(cur.text[..i]) + 1 == (if prev.count == 0 then 1 else prev.count);
    }
    if i: nat :| i < |cur.text| && cur.text[i] == '\n'
                 && Newlines(cur.text[..i]) + 1 == (if prev.count == 0 then 1 else prev.count)
                 && h(cur.text[..i + 1]) == prev.aggregate {
      assert EndsLine(cur.text, LastPrefixLine(prev.count), i);
    }
  }
}
