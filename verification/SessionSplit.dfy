/** How a source's stream of audit entries falls into sessions. */
module SessionSplit {
  import opened Prelude

  datatype NodeVerdict = NodeVerdict(name: Option<string>, pass: bool)

  /**
   An audit entry as the tracker reads it, absent fields already replaced by their defaults;
   `reprintHash` is the hash of the entry as the JSON library prints it again.
   */
  datatype Record = Record(
    event: string, heartbeat: nat, authorized: bool, timestamp: nat, prevHash: string, reprintHash: string,
    status: string, forensic: bool, checkpoint: bool, duration: Option<nat>, totalNodes: nat, nodes: seq<NodeVerdict>)

  predicate StartsNew(r: Record) {
    r.heartbeat == 1 && (r.event == "ChainVerified" || r.event == "ChainDenied")
  }

  predicate Ends(r: Record) {
    r.event == "SessionEnded" || r.event == "SESSION_ENDED"
  }

  predicate Terminal(r: Record) {
    !r.authorized && (r.event == "ChainDenied" || r.event == "HeartbeatFail")
  }

  /** The sessions stored so far and the entries of the active one; none is active if there are none. */
  datatype Split = Split(closed: seq<seq<Record>>, live: seq<Record>)

  function Close(s: Split): Split {
    if s.live == [] then s else Split(s.closed + [s.live], [])
  }

  /** An entry joins the active session, and may finish it. */
  function Joined(s: Split, r: Record): Split {
    var longer := s.(live := s.live + [r]);
    if Terminal(r) then Close(longer) else longer
  }

  function Feed(s: Split, r: Record): Split {
    if Ends(r) then Close(s) else Joined(if StartsNew(r) then Close(s) else s, r)
  }

  function SplitOf(run: seq<Record>): Split {
    if run == [] then Split([], []) else Feed(SplitOf(run[..|run| - 1]), run[|run| - 1])
  }

  function NonEnd(run: seq<Record>): seq<Record> {
    if run == [] then []
    else NonEnd(run[..|run| - 1]) + if Ends(run[|run| - 1]) then [] else [run[|run| - 1]]
  }

  lemma CloseKeepsContents(s: Split)
    ensures Flatten(Close(s).closed) + Close(s).live == Flatten(s.closed) + s.live
  {
    FlattenAppend(s.closed, [s.live]);
    assert Flatten([s.live]) == s.live;
  }

  /** Nothing is lost, repeated or reordered: the sessions in order are exactly the non-end entries. */
  lemma {:induction false} SessionsPartitionTheRun(run: seq<Record>)
    ensures Flatten(SplitOf(run).closed) + SplitOf(run).live == NonEnd(run)
  {
    if run != [] {
      var init, r := run[..|run| - 1], run[|run| - 1];
      SessionsPartitionTheRun(init);
      var s := SplitOf(init);
      CloseKeepsContents(s);
      if !Ends(r) {
        var begun := if StartsNew(r) then Close(s) else s;
        var longer := begun.(live := begun.live + [r]);
        Regroup(Flatten(begun.closed), begun.live, [r]);
        CloseKeepsContents(longer);
      }
    }
  }

  // --- where the cuts are ---

  /** Positions of the sessions in the run: `closed` as half-open ranges, the active one from `open` to the end. */
  datatype Spans = Spans(closed: seq<(nat, nat)>, live: nat)

  /** A session may not run across position `i`. */
  predicate Boundary(run: seq<Record>, i: nat)
    requires 0 < i < |run|
  {
    Ends(run[i - 1]) || Ends(run[i]) || StartsNew(run[i]) || Terminal(run[i - 1])
  }

  predicate Unbroken(run: seq<Record>, lo: nat, hi: nat)
    requires hi <= |run|
  {
    (forall i :: lo <= i < hi ==> !Ends(run[i])) && (forall i :: lo < i < hi ==> !Boundary(run, i))
  }

  predicate OnlyEnds(run: seq<Record>, lo: nat, hi: nat)
    requires hi <= |run|
  {
    forall i :: lo <= i < hi ==> Ends(run[i])
  }

  /** A stored session: a non-empty unbroken range that cannot be extended on either side. */
  predicate IsMaximal(run: seq<Record>, lo: nat, hi: nat) {
    && lo < hi <= |run|
    && Unbroken(run, lo, hi)
    && (lo == 0 || Boundary(run, lo))
    && (if hi < |run| then Boundary(run, hi) else Terminal(run[hi - 1]))
  }

  function EndOf(closed: seq<(nat, nat)>, k: nat): nat
    requires k <= |closed|
  {
    if k == 0 then 0 else closed[k - 1].1
  }

  /** The closed ranges are maximal, with only end entries between them; the rest is unbroken. */
  predicate AlmostSplit(run: seq<Record>, s: Spans) {
    && s.live <= |run|
    && AllClosed(run, s.closed)
    && EndOf(s.closed, |s.closed|) <= s.live
    && OnlyEnds(run, EndOf(s.closed, |s.closed|), s.live)
    && Unbroken(run, s.live, |run|)
    && (0 < s.live < |run| ==> Boundary(run, s.live))
  }

  /** And the rest, the active session, is unfinished. */
  predicate WellSplit(run: seq<Record>, s: Spans) {
    AlmostSplit(run, s) && (s.live < |run| ==> !Terminal(run[|run| - 1]))
  }

  predicate IsClosedAt(run: seq<Record>, closed: seq<(nat, nat)>, k: nat)
    requires k < |closed|
  {
    && EndOf(closed, k) <= closed[k].0
    && IsMaximal(run, closed[k].0, closed[k].1)
    && OnlyEnds(run, EndOf(closed, k), closed[k].0)
  }

  predicate AllClosed(run: seq<Record>, closed: seq<(nat, nat)>) {
    forall k :: 0 <= k < |closed| ==> IsClosedAt(run, closed, k)
  }

  predicate SameClosed(run: seq<Record>, spans: seq<(nat, nat)>, closed: seq<seq<Record>>) {
    && |spans| == |closed|
    && (forall k :: 0 <= k < |spans| ==> spans[k].0 <= spans[k].1 <= |run|)
    && (forall k :: 0 <= k < |spans| ==> closed[k] == run[spans[k].0..spans[k].1])
  }

  /** `s` and `split` are the same sessions, by position and by content. */
  predicate SameSessions(run: seq<Record>, s: Spans, split: Split) {
    SameClosed(run, s.closed, split.closed) && s.live <= |run| && split.live == run[s.live..]
  }

  function CloseSpan(s: Spans, i: nat): Spans {
    if s.live == i then s else Spans(s.closed + [(s.live, i)], i)
  }

  function FeedSpan(s: Spans, r: Record, i: nat): Spans {
    if Ends(r) then CloseSpan(s, i).(live := i + 1)
    else
      var begun := if StartsNew(r) then CloseSpan(s, i) else s;
      if Terminal(r) then CloseSpan(begun, i + 1) else begun
  }

  function SpansOf(run: seq<Record>): Spans {
    if run == [] then Spans([], 0) else FeedSpan(SpansOf(run[..|run| - 1]), run[|run| - 1], |run| - 1)
  }

  lemma MaximalGrows(init: seq<Record>, r: Record, lo: nat, hi: nat)
    requires IsMaximal(init, lo, hi)
    ensures IsMaximal(init + [r], lo, hi)
  {
    var run := init + [r];
    assert forall i :: 0 <= i < |init| ==> run[i] == init[i];
    assert forall i :: 0 < i < |init| ==> Boundary(run, i) == Boundary(init, i);
  }

  lemma AllClosedGrows(init: seq<Record>, r: Record, closed: seq<(nat, nat)>)
    requires AllClosed(init, closed)
    ensures AllClosed(init + [r], closed)
  {
    forall k | 0 <= k < |closed|
      ensures IsClosedAt(init + [r], closed, k)
    {
      assert IsClosedAt(init, closed, k);
      MaximalGrows(init, r, closed[k].0, closed[k].1);
    }
  }

  lemma AllClosedPush(run: seq<Record>, closed: seq<(nat, nat)>, lo: nat, hi: nat)
    requires AllClosed(run, closed) && IsMaximal(run, lo, hi)
    requires EndOf(closed, |closed|) <= lo && OnlyEnds(run, EndOf(closed, |closed|), lo)
    ensures AllClosed(run, closed + [(lo, hi)])
  {
    var more := closed + [(lo, hi)];
    forall k | 0 <= k < |more|
      ensures IsClosedAt(run, more, k)
    {
      assert EndOf(more, k) == EndOf(closed, k);
      if k < |closed| {
        assert IsClosedAt(run, closed, k);
      }
    }
  }

  /** Nothing is active only at the start, after an end entry or after a terminal one. */
  lemma IdleMeansDone(run: seq<Record>, s: Spans)
    requires WellSplit(run, s) && s.live == |run| > 0
    ensures Ends(run[|run| - 1]) || Terminal(run[|run| - 1])
  {
    var n := |s.closed|;
    if EndOf(s.closed, n) == |run| {
      assert IsClosedAt(run, s.closed, n - 1);
    }
  }

  /** Closing at an entry that cuts the active session off. */
  lemma CloseBefore(init: seq<Record>, r: Record, s: Spans)
    requires WellSplit(init, s) && (Ends(r) || StartsNew(r))
    ensures var t := CloseSpan(s, |init|);
            && AllClosed(init + [r], t.closed) && t.live == |init|
            && EndOf(t.closed, |t.closed|) <= |init| && OnlyEnds(init + [r], EndOf(t.closed, |t.closed|), |init|)
  {
    var run := init + [r];
    AllClosedGrows(init, r, s.closed);
    assert forall i :: 0 <= i < |init| ==> run[i] == init[i];
    if s.live < |init| {
      assert forall i :: 0 < i < |init| ==> Boundary(run, i) == Boundary(init, i);
      assert IsMaximal(run, s.live, |init|);
      AllClosedPush(run, s.closed, s.live, |init|);
    }
  }

  /** Adding an entry to the active session, or starting one with it. */
  lemma ExtendLive(init: seq<Record>, r: Record, s: Spans)
    requires WellSplit(init, s) && !Ends(r)
    ensures AlmostSplit(init + [r], if StartsNew(r) then CloseSpan(s, |init|) else s)
  {
    var run := init + [r];
    if StartsNew(r) {
      CloseBefore(init, r, s);
    } else {
      AllClosedGrows(init, r, s.closed);
      assert forall i :: 0 <= i < |init| ==> run[i] == init[i];
      assert forall i :: 0 < i < |init| ==> Boundary(run, i) == Boundary(init, i);
      if s.live == |init| > 0 {
        IdleMeansDone(init, s);
      }
    }
  }

  lemma CloseAfter(run: seq<Record>, s: Spans)
    requires run != [] && s.live < |run| && AlmostSplit(run, s) && Terminal(run[|run| - 1])
    ensures WellSplit(run, CloseSpan(s, |run|))
  {
    AllClosedPush(run, s.closed, s.live, |run|);
  }

  lemma {:induction false} SpansAreWellSplit(run: seq<Record>)
    ensures WellSplit(run, SpansOf(run))
  {
    if run != [] {
      var init, r := run[..|run| - 1], run[|run| - 1];
      assert run == init + [r];
      SpansAreWellSplit(init);
      var s := SpansOf(init);
      if Ends(r) {
        CloseBefore(init, r, s);
      } else {
        ExtendLive(init, r, s);
        var begun := if StartsNew(r) then CloseSpan(s, |init|) else s;
        if Terminal(r) {
          CloseAfter(run, begun);
        }
      }
    }
  }

  lemma SameSessionsClose(run: seq<Record>, s: Spans, split: Split)
    requires SameSessions(run, s, split)
    ensures SameSessions(run, CloseSpan(s, |run|), Close(split))
  {
  }

  lemma SameClosedGrow(init: seq<Record>, r: Record, spans: seq<(nat, nat)>, closed: seq<seq<Record>>)
    requires SameClosed(init, spans, closed)
    ensures SameClosed(init + [r], spans, closed)
  {
    forall k | 0 <= k < |spans|
      ensures closed[k] == (init + [r])[spans[k].0..spans[k].1]
    {
      assert (init + [r])[spans[k].0..spans[k].1] == init[spans[k].0..spans[k].1];
    }
  }

  lemma SameSessionsGrow(init: seq<Record>, r: Record, s: Spans, split: Split)
    requires SameSessions(init, s, split)
    ensures SameSessions(init + [r], s, split.(live := split.live + [r]))
  {
    assert (init + [r])[s.live..] == init[s.live..] + [r];
    SameClosedGrow(init, r, s.closed, split.closed);
  }

  lemma SameSessionsFeed(init: seq<Record>, r: Record, s: Spans, split: Split)
    requires SameSessions(init, s, split)
    ensures SameSessions(init + [r], FeedSpan(s, r, |init|), Feed(split, r))
  {
    SameSessionsClose(init, s, split);
    if Ends(r) {
      SameClosedGrow(init, r, CloseSpan(s, |init|).closed, Close(split).closed);
    } else {
      var begun := if StartsNew(r) then CloseSpan(s, |init|) else s;
      var started := if StartsNew(r) then Close(split) else split;
      SameSessionsGrow(init, r, begun, started);
      SameSessionsClose(init + [r], begun, started.(live := started.live + [r]));
    }
  }

  /** The sessions are at the positions that `SpansOf` computes. */
  lemma {:induction false} SplitIsAtSpans(run: seq<Record>)
    ensures SameSessions(run, SpansOf(run), SplitOf(run))
  {
    if run != [] {
      var init, r := run[..|run| - 1], run[|run| - 1];
      assert run == init + [r];
      SplitIsAtSpans(init);
      SameSessionsFeed(init, r, SpansOf(init), SplitOf(init));
    }
  }

  /** Exactness: the stored sessions are the maximal unbroken ranges of the run, and the active one is the rest. */
  lemma SessionsAreMaximalRanges(run: seq<Record>)
    ensures WellSplit(run, SpansOf(run)) && SameSessions(run, SpansOf(run), SplitOf(run))
    ensures forall s :: WellSplit(run, s) ==> s == SpansOf(run)
  {
    SpansAreWellSplit(run);
    SplitIsAtSpans(run);
    forall s | WellSplit(run, s)
      ensures s == SpansOf(run)
    {
      SplitIsUnique(run, s, SpansOf(run));
    }
  }

  /** In an unbroken range only the first entry starts a session and only the last one finishes it. */
  predicate Edged(session: seq<Record>) {
    forall i :: 0 <= i < |session| ==>
      && !Ends(session[i])
      && (StartsNew(session[i]) ==> i == 0)
      && (Terminal(session[i]) ==> i == |session| - 1)
  }

  lemma UnbrokenIsEdged(run: seq<Record>, lo: nat, hi: nat)
    requires lo <= hi <= |run| && Unbroken(run, lo, hi)
    ensures Edged(run[lo..hi])
  {
    var session := run[lo..hi];
    forall i | 0 <= i < |session|
      ensures !Ends(session[i]) && (StartsNew(session[i]) ==> i == 0)
      ensures Terminal(session[i]) ==> i == |session| - 1
    {
      assert session[i] == run[lo + i];
      assert i > 0 ==> !Boundary(run, lo + i);
      assert i + 1 < |session| ==> !Boundary(run, lo + i + 1);
    }
  }

  /** A heartbeat-1 chain entry is only ever first in its session, a terminal entry only ever last in a stored one. */
  lemma SessionsAreEdged(run: seq<Record>)
    ensures forall k :: 0 <= k < |SplitOf(run).closed| ==> SplitOf(run).closed[k] != [] && Edged(SplitOf(run).closed[k])
    ensures Edged(SplitOf(run).live)
    ensures forall i :: 0 <= i < |SplitOf(run).live| ==> !Terminal(SplitOf(run).live[i])
  {
    SpansAreWellSplit(run);
    SplitIsAtSpans(run);
    var s, split := SpansOf(run), SplitOf(run);
    forall k | 0 <= k < |split.closed|
      ensures split.closed[k] != [] && Edged(split.closed[k])
    {
      assert IsClosedAt(run, s.closed, k);
      UnbrokenIsEdged(run, s.closed[k].0, s.closed[k].1);
    }
    UnbrokenIsEdged(run, s.live, |run|);
    assert run[s.live..] == run[s.live..|run|];
  }

  // --- there is only one way to split a run ---

  lemma SameRange(run: seq<Record>, from: nat, a: (nat, nat), b: (nat, nat))
    requires from <= a.0 && from <= b.0 && IsMaximal(run, a.0, a.1) && IsMaximal(run, b.0, b.1)
    requires OnlyEnds(run, from, a.0) && OnlyEnds(run, from, b.0)
    ensures a == b
  {
    assert !Ends(run[a.0]) && !Ends(run[b.0]);
  }

  /** Where one split has a stored session, every other has one too, not its active session. */
  lemma ClosedInBoth(run: seq<Record>, t: Spans, n: nat, lo: nat, hi: nat)
    requires WellSplit(run, t) && IsMaximal(run, lo, hi)
    requires n <= |t.closed| && EndOf(t.closed, n) <= lo && OnlyEnds(run, EndOf(t.closed, n), lo)
    ensures n < |t.closed|
  {
    assert !Ends(run[lo]);
    assert t.live < |run| ==> !Ends(run[t.live]);
    assert n == |t.closed| ==> t.live == lo;
  }

  lemma {:induction false} SameUpTo(run: seq<Record>, s: Spans, t: Spans, k: nat)
    requires WellSplit(run, s) && WellSplit(run, t) && k <= |s.closed|
    ensures k <= |t.closed| && s.closed[..k] == t.closed[..k]
  {
    if k > 0 {
      SameUpTo(run, s, t, k - 1);
      assert s.closed[..k - 1] == t.closed[..k - 1];
      assert EndOf(s.closed, k - 1) == EndOf(t.closed, k - 1) by {
        if k > 1 {
          assert s.closed[..k - 1][k - 2] == t.closed[..k - 1][k - 2];
        }
      }
      assert IsClosedAt(run, s.closed, k - 1);
      ClosedInBoth(run, t, k - 1, s.closed[k - 1].0, s.closed[k - 1].1);
      assert IsClosedAt(run, t.closed, k - 1);
      SameRange(run, EndOf(s.closed, k - 1), s.closed[k - 1], t.closed[k - 1]);
    }
  }

  lemma SplitIsUnique(run: seq<Record>, s: Spans, t: Spans)
    requires WellSplit(run, s) && WellSplit(run, t)
    ensures s == t
  {
    SameUpTo(run, s, t, |s.closed|);
    SameUpTo(run, t, s, |t.closed|);
    assert s.closed == t.closed;
  }

  // --- a run that starts the same session twice ---

  /** An entry that neither starts nor ends nor finishes a session. */
  predicate Ordinary(r: Record) {
    !StartsNew(r) && !Ends(r) && !Terminal(r)
  }

  lemma SplitPush(run: seq<Record>, r: Record)
    ensures SplitOf(run + [r]) == Feed(SplitOf(run), r)
  {
    assert (run + [r])[..|run|] == run;
  }

  /** The same start entry received twice begins two sessions. */
  lemma StartedTwice(a: Record, b: Record, c: Record, end: Record)
    requires StartsNew(a) && !Ends(a) && !Terminal(a) && Ordinary(b) && Ordinary(c) && Ends(end)
    ensures SplitOf([a, b, a, c, end]) == Split([[a, b], [a, c]], [])
  {
    SplitPush([], a);
    assert [] + [a] == [a];
    assert SplitOf([a]) == Split([], [a]);
    SplitPush([a], b);
    assert [a] + [b] == [a, b];
    assert SplitOf([a, b]) == Split([], [a, b]);
    SplitPush([a, b], a);
    assert [a, b] + [a] == [a, b, a] && [] + [[a, b]] == [[a, b]];
    assert SplitOf([a, b, a]) == Split([[a, b]], [a]);
    SplitPush([a, b, a], c);
    assert [a, b, a] + [c] == [a, b, a, c] && [a] + [c] == [a, c];
    assert SplitOf([a, b, a, c]) == Split([[a, b]], [a, c]);
    SplitPush([a, b, a, c], end);
    assert [a, b, a, c] + [end] == [a, b, a, c, end] && [[a, b]] + [[a, c]] == [[a, b], [a, c]];
  }

  // --- the same in the words of the log ---

  /** Inside any session no entry ends it; one of heartbeat 1 that starts a chain is first, a denial or failure last. */
  lemma SessionsByEvent(run: seq<Record>, session: seq<Record>, i: nat)
    requires (session in SplitOf(run).closed || session == SplitOf(run).live) && i < |session|
    ensures session[i].event !in {"SessionEnded", "SESSION_ENDED"}
    ensures session[i].heartbeat == 1 && session[i].event in {"ChainVerified", "ChainDenied"} ==> i == 0
    ensures !session[i].authorized && session[i].event in {"ChainDenied", "HeartbeatFail"} ==> i == |session| - 1
  {
    SessionsAreEdged(run);
    if session in SplitOf(run).closed {
      var k :| 0 <= k < |SplitOf(run).closed| && SplitOf(run).closed[k] == session;
      assert Edged(SplitOf(run).closed[k]);
    }
  }

  /** Every stored session was closed by its own last entry or by the entry after it, and for one of three reasons. */
  lemma SessionsCloseForAReason(run: seq<Record>, k: nat)
    requires k < |SpansOf(run).closed|
    ensures var hi := SpansOf(run).closed[k].1;
            && 0 < hi <= |run|
            && ((!run[hi - 1].authorized && run[hi - 1].event in {"ChainDenied", "HeartbeatFail"})
                || (hi < |run| && run[hi].event in {"SessionEnded", "SESSION_ENDED"})
                || (hi < |run| && run[hi].heartbeat == 1 && run[hi].event in {"ChainVerified", "ChainDenied"}))
  {
    SpansAreWellSplit(run);
    assert IsClosedAt(run, SpansOf(run).closed, k);
  }

  /** An entry belongs to no session exactly if it is an end entry. */
  lemma OnlyEndsAreDropped(r: Record)
    ensures NonEnd([r]) == if r.event in {"SessionEnded", "SESSION_ENDED"} then [] else [r]
  {
    assert [r][..0] == [];
  }
}
