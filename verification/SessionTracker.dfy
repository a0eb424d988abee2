/** The monitor's session tracker: per-source active sessions, and the directory their reports are written to. */
module SessionTracker {
  import opened Prelude
  import opened SessionSplit
  import opened SessionReport
  import opened SessionFiles

  /** One source's entries out of everything received. */
  function From(h: seq<(string, Record)>, source: string): seq<Record> {
    if h == [] then []
    else From(h[..|h| - 1], source) + if h[|h| - 1].0 == source then [h[|h| - 1].1] else []
  }

  /** The entries of the reports stored for one source. */
  function StoredFor(stored: seq<CompletedSession>, source: string): seq<seq<Record>> {
    if stored == [] then []
    else
      var last := stored[|stored| - 1];
      StoredFor(stored[..|stored| - 1], source) + if last.source == source then [last.entries] else []
  }

  /** The reports stored for every other source. */
  function StoredElsewhere(stored: seq<CompletedSession>, source: string): seq<CompletedSession> {
    if stored == [] then []
    else
      var last := stored[|stored| - 1];
      StoredElsewhere(stored[..|stored| - 1], source) + if last.source == source then [] else [last]
  }

  /** A source's sessions: those stored, and the entries of the active one. */
  function SessionsFor(active: map<string, ActiveSession>, stored: seq<CompletedSession>, source: string): Split {
    Split(StoredFor(stored, source), if source in active then active[source].entries else [])
  }

  /** Everything the tracker holds of other sources. */
  function Elsewhere(active: map<string, ActiveSession>, stored: seq<CompletedSession>, source: string)
    : (map<string, ActiveSession>, seq<CompletedSession>)
  {
    (active - {source}, StoredElsewhere(stored, source))
  }

  ghost predicate IsSummary(source: string, s: ActiveSession) {
    s.entries != [] && s == Summary(source, s.entries)
  }

  /** Every active session is the one its own entries determine. */
  ghost predicate AllSummarise(active: map<string, ActiveSession>) {
    forall s :: s in active ==> IsSummary(s, active[s])
  }

  class SessionTracker {
    const format: Format
    const dir: SessionDir
    var active: map<string, ActiveSession>
    /** Every report written so far. */
    ghost var stored: seq<CompletedSession>

    constructor (format: Format)
      ensures this.format == format && fresh(dir) && Tracks([])
    {
      this.format := format;
      dir := new SessionDir();
      active, stored := map[], [];
    }

    ghost predicate Valid()
      reads this, dir
    {
      AllSummarise(active) && AllReport(stored) && dir.Holds(format, stored)
    }

    /** Every source's sessions are the split of its own entries. */
    ghost predicate Tracks(h: seq<(string, Record)>)
      reads this, dir
    {
      Valid() && forall source :: SessionsFor(active, stored, source) == SplitOf(From(h, source))
    }

    /** Builds and stores the report of a session. */
    method FinalizeSession(s: ActiveSession) returns (c: CompletedSession)
      requires s.entries != [] && s == Summary(s.source, s.entries)
      requires AllReport(stored) && dir.Holds(format, stored)
      modifies this`stored, dir
      ensures stored == old(stored) + [c] && AllReport(stored) && dir.Holds(format, stored)
      ensures c == Report(s.source, s.entries)
    {
      c := BuildReport(s);
      AllReportPush(stored, c);
      StoreReport(c);
    }

    method StoreReport(c: CompletedSession)
      requires dir.Holds(format, stored)
      modifies this`stored, dir
      ensures stored == old(stored) + [c] && dir.Holds(format, stored)
    {
      dir.WriteSession(format, c, stored);
      stored := stored + [c];
    }

    /** Finalises the source's active session, if it has one. */
    method CloseActive(source: string) returns (done: Option<CompletedSession>)
      requires Valid()
      modifies this, dir
      ensures Valid()
      ensures SessionsFor(active, stored, source) == Close(old(SessionsFor(active, stored, source)))
      ensures Elsewhere(active, stored, source) == old(Elsewhere(active, stored, source))
      ensures done.Some? <==> source in old(active)
      ensures if done.None? then stored == old(stored) else Stored(old(stored), stored, done.value)
    {
      done := None;
      if source in active {
        var session := active[source];
        active := active - {source};
        var c := FinalizeSession(session);
        ClosingMoves(old(active), old(stored), source, c);
        done := Some(c);
      }
    }

    /** Adds an entry to the source's active session, starting one if there is none. */
    method AddToActive(source: string, r: Record)
      requires Valid()
      modifies this`active
      ensures Valid() && source in active
      ensures var s := old(SessionsFor(active, stored, source));
              SessionsFor(active, stored, source) == s.(live := s.live + [r])
      ensures Elsewhere(active, stored, source) == old(Elsewhere(active, stored, source))
    {
      var session := if source in active then active[source] else Begun(source, r.timestamp);
      var longer := ExtendSession(session, r);
      ExtendingMoves(active, stored, source, longer);
      StillSummarise(active, source, longer);
      active := active[source := longer];
    }

    /** An entry of `source`; the answer is the session stored last, if this entry finished one. */
    method ProcessEntry(source: string, r: Record) returns (completed: Option<CompletedSession>)
      requires Valid()
      modifies this, dir
      ensures Valid()
      ensures SessionsFor(active, stored, source) == Feed(old(SessionsFor(active, stored, source)), r)
      ensures Elsewhere(active, stored, source) == old(Elsewhere(active, stored, source))
      ensures if completed.None? then stored == old(stored) else Stored(old(stored), stored, completed.value)
    {
      if Ends(r) {
        completed := CloseActive(source);
      } else {
        completed := None;
        if StartsNew(r) {
          completed := CloseActive(source);
        }
        var last := AddEntry(source, r);
        completed := if last.Some? then last else completed;
      }
    }

    /** An entry that belongs to the source's active session, or starts it. */
    method AddEntry(source: string, r: Record) returns (completed: Option<CompletedSession>)
      requires Valid()
      modifies this, dir
      ensures Valid()
      ensures SessionsFor(active, stored, source) == Joined(old(SessionsFor(active, stored, source)), r)
      ensures Elsewhere(active, stored, source) == old(Elsewhere(active, stored, source))
      ensures if completed.None? then stored == old(stored) else Stored(old(stored), stored, completed.value)
      ensures completed.Some? <==> Terminal(r)
    {
      AddToActive(source, r);
      completed := None;
      if Terminal(r) {
        completed := CloseActive(source);
      }
    }
  }

  /** The list grew, and `c` is its last element. */
  predicate Stored(before: seq<CompletedSession>, after: seq<CompletedSession>, c: CompletedSession) {
    |after| > |before| && after[|after| - 1] == c
  }

  lemma ClosingMoves(active: map<string, ActiveSession>, stored: seq<CompletedSession>,
                     source: string, c: CompletedSession)
    requires source in active && c.source == source && c.entries == active[source].entries != []
    ensures SessionsFor(active - {source}, stored + [c], source) == Close(SessionsFor(active, stored, source))
    ensures Elsewhere(active - {source}, stored + [c], source) == Elsewhere(active, stored, source)
  {
    assert (stored + [c])[..|stored|] == stored;
    assert active - {source} - {source} == active - {source};
    assert StoredElsewhere(stored, source) + [] == StoredElsewhere(stored, source);
  }

  lemma ExtendingMoves(active: map<string, ActiveSession>, stored: seq<CompletedSession>,
                       source: string, t: ActiveSession)
    ensures SessionsFor(active[source := t], stored, source) == Split(StoredFor(stored, source), t.entries)
    ensures Elsewhere(active[source := t], stored, source) == Elsewhere(active, stored, source)
  {
    assert active[source := t] - {source} == active - {source};
  }

  lemma StillSummarise(active: map<string, ActiveSession>, source: string, t: ActiveSession)
    requires AllSummarise(active) && IsSummary(source, t)
    ensures AllSummarise(active[source := t])
  {
  }

  // --- whole runs, any number of sources interleaved ---

  method RunTracker(format: Format, received: seq<(string, Record)>) returns (tracker: SessionTracker)
    ensures fresh(tracker) && fresh(tracker.dir) && tracker.format == format && tracker.Tracks(received)
  {
    if received == [] {
      tracker := new SessionTracker(format);
    } else {
      var init, last := received[..|received| - 1], received[|received| - 1];
      tracker := RunTracker(format, init);
      TrackOne(tracker, last.0, last.1, init);
      assert received == init + [(last.0, last.1)];
    }
  }

  method TrackOne(tracker: SessionTracker, source: string, r: Record, ghost h: seq<(string, Record)>)
    requires tracker.Tracks(h)
    modifies tracker, tracker.dir
    ensures tracker.Tracks(h + [(source, r)])
  {
    ghost var active, stored := tracker.active, tracker.stored;
    var _ := tracker.ProcessEntry(source, r);
    TracksNext(active, stored, tracker.active, tracker.stored, h, source, r);
  }

  lemma FromPush(h: seq<(string, Record)>, source: string, r: Record, s: string)
    ensures From(h + [(source, r)], s) == if s == source then From(h, s) + [r] else From(h, s)
    ensures SplitOf(From(h, s) + [r]) == Feed(SplitOf(From(h, s)), r)
  {
    assert (h + [(source, r)])[..|h|] == h;
    assert (From(h, s) + [r])[..|From(h, s)|] == From(h, s);
  }

  lemma {:induction false} StoredForElsewhere(stored: seq<CompletedSession>, source: string, s: string)
    requires s != source
    ensures StoredFor(StoredElsewhere(stored, source), s) == StoredFor(stored, s)
  {
    if stored != [] {
      var init, last := stored[..|stored| - 1], stored[|stored| - 1];
      StoredForElsewhere(init, source, s);
      var rest := StoredElsewhere(init, source);
      if last.source == source {
        assert StoredElsewhere(stored, source) == rest;
      } else {
        assert (rest + [last])[..|rest|] == rest;
      }
    }
  }

  lemma SessionsElsewhere(active: map<string, ActiveSession>, stored: seq<CompletedSession>,
                          active': map<string, ActiveSession>, stored': seq<CompletedSession>,
                          source: string, s: string)
    requires Elsewhere(active, stored, source) == Elsewhere(active', stored', source) && s != source
    ensures SessionsFor(active', stored', s) == SessionsFor(active, stored, s)
  {
    StoredForElsewhere(stored, source, s);
    StoredForElsewhere(stored', source, s);
    assert s in active <==> s in active - {source};
    assert s in active' <==> s in active' - {source};
    if s in active {
      assert (active - {source})[s] == active[s] && (active' - {source})[s] == active'[s];
    }
  }

  lemma TracksNext(active: map<string, ActiveSession>, stored: seq<CompletedSession>,
                   active': map<string, ActiveSession>, stored': seq<CompletedSession>,
                   h: seq<(string, Record)>, source: string, r: Record)
    requires forall s :: SessionsFor(active, stored, s) == SplitOf(From(h, s))
    requires Elsewhere(active, stored, source) == Elsewhere(active', stored', source)
    requires SessionsFor(active', stored', source) == Feed(SessionsFor(active, stored, source), r)
    ensures forall s :: SessionsFor(active', stored', s) == SplitOf(From(h + [(source, r)], s))
  {
    forall s
      ensures SessionsFor(active', stored', s) == SplitOf(From(h + [(source, r)], s))
    {
      FromPush(h, source, r, s);
      if s != source {
        SessionsElsewhere(active, stored, active', stored', source, s);
      }
    }
  }

  /** For each source: nothing lost, repeated, reordered or mixed with another source, and cut only where due. */
  lemma TrackedSessionsPartition(active: map<string, ActiveSession>, stored: seq<CompletedSession>,
                                 h: seq<(string, Record)>, source: string)
    requires SessionsFor(active, stored, source) == SplitOf(From(h, source))
    ensures var live := if source in active then active[source].entries else [];
            && Flatten(StoredFor(stored, source)) + live == NonEnd(From(h, source))
            && Edged(live)
            && (forall i :: 0 <= i < |live| ==> !Terminal(live[i]))
    ensures forall k :: 0 <= k < |StoredFor(stored, source)| ==> Edged(StoredFor(stored, source)[k])
  {
    SessionsPartitionTheRun(From(h, source));
    SessionsAreEdged(From(h, source));
  }

  // --- a run whose untouched file is refused ---

  /** A source's last report, and those before it. */
  lemma {:induction false} LastStoredFor(stored: seq<CompletedSession>, source: string) returns (k: nat)
    requires StoredFor(stored, source) != []
    ensures k < |stored| && stored[k].source == source
    ensures StoredFor(stored, source) == StoredFor(stored[..k], source) + [stored[k].entries]
    ensures forall j :: k < j < |stored| ==> stored[j].source != source
  {
    var n := |stored| - 1;
    if stored[n].source == source {
      k := n;
    } else {
      k := LastStoredFor(stored[..n], source);
      assert stored[..n][..k] == stored[..k];
    }
  }

  lemma {:induction false} NoneStoredFor(stored: seq<CompletedSession>, source: string)
    requires StoredFor(stored, source) == []
    ensures forall j :: 0 <= j < |stored| ==> stored[j].source != source
  {
    if stored != [] {
      NoneStoredFor(stored[..|stored| - 1], source);
    }
  }

  /** Where the only two reports of a source are. */
  lemma TwoStoredFor(stored: seq<CompletedSession>, source: string, x: seq<Record>, y: seq<Record>)
    returns (i: nat, k: nat)
    requires StoredFor(stored, source) == [x, y]
    ensures i < k < |stored| && stored[i].entries == x && stored[k].entries == y
    ensures forall j :: 0 <= j < |stored| ==> (stored[j].source == source <==> j == i || j == k)
  {
    k := LastStoredFor(stored, source);
    var before := stored[..k];
    assert StoredFor(before, source) == [x, y][..1] == [x] && stored[k].entries == [x, y][1];
    i := LastStoredFor(before, source);
    assert StoredFor(before[..i], source) == [x][..0] && before[i].entries == [x][0];
    NoneStoredFor(before[..i], source);
    assert forall j :: 0 <= j < i ==> stored[j] == before[..i][j];
    assert forall j :: 0 <= j < k ==> stored[j] == before[j];
  }

  /** Two sessions of a source that begin with the same entry are the first and the last in one file. */
  lemma TwoInOneFile(f: Format, stored: seq<CompletedSession>, source: string, x: seq<Record>, y: seq<Record>)
    returns (name: FileName, i: nat, k: nat)
    requires AllReport(stored) && StoredFor(stored, source) == [x, y]
    requires x != [] && y != [] && x[0] == y[0]
    ensures FirstAndLast(f, stored, name, i, k) && name == FileNameOf(f, source, x[0])
    ensures stored[i].entries == x && stored[k].entries == y
  {
    i, k := TwoStoredFor(stored, source, x, y);
    name := FileNameOf(f, source, x[0]);
    NamedAfterFirst(f, stored, i);
    NamedAfterFirst(f, stored, k);
    assert forall j :: 0 <= j < |stored| ==> NameOf(f, stored[j]).source == stored[j].source;
  }

  /** The file name of a session that begins with this entry. */
  function FileNameOf(f: Format, source: string, first: Record): FileName {
    FileName(source, f.id(source, first.timestamp, first.prevHash))
  }

  lemma NamedAfterFirst(f: Format, stored: seq<CompletedSession>, i: nat)
    requires AllReport(stored) && i < |stored|
    ensures stored[i].entries != [] && NameOf(f, stored[i]) == FileNameOf(f, stored[i].source, stored[i].entries[0])
  {
    StoredIsReport(stored, i);
  }

  /**
   A start entry received twice, as the tracker and its directory handle it: two different sessions
   go to one file, and the integrity check refuses that file although nobody touched it.
   */
  method RefuseUntouchedFile(f: Format, source: string, a: Record, b: Record, c: Record, end: Record)
    returns (tracker: SessionTracker, r: Option<bool>)
    requires Collisionless(f) && Legible(f)
    requires StartsNew(a) && a.authorized && Ordinary(b) && Ordinary(c) && b != c && Ends(end)
    ensures StoredFor(tracker.stored, source) == [[a, b], [a, c]] && tracker.dir.Holds(f, tracker.stored)
    ensures r == Some(false)
  {
    tracker := RunTracker(f, TwiceFrom(source, a, b, c, end));
    FromTwice(source, a, b, c, end);
    assert SessionsFor(tracker.active, tracker.stored, source) == SplitOf([a, b, a, c, end]);
    StartedTwice(a, b, c, end);
    TwiceRefused(f, tracker.stored, source, a, b, c);
    r := tracker.dir.VerifyIntegrity(f, FileNameOf(f, source, a));
  }

  function TwiceFrom(source: string, a: Record, b: Record, c: Record, end: Record): seq<(string, Record)> {
    [(source, a), (source, b), (source, a), (source, c), (source, end)]
  }

  lemma FromTwice(source: string, a: Record, b: Record, c: Record, end: Record)
    ensures From(TwiceFrom(source, a, b, c, end), source) == [a, b, a, c, end]
  {
    FromOne(source, [a, b, a, c, end], TwiceFrom(source, a, b, c, end));
  }

  lemma TwiceRefused(f: Format, stored: seq<CompletedSession>, source: string, a: Record, b: Record, c: Record)
    requires Collisionless(f) && Legible(f) && AllReport(stored)
    requires b != c && StoredFor(stored, source) == [[a, b], [a, c]]
    ensures Integrity(f, FilesOf(f, stored), IndexOf(f, stored), FileNameOf(f, source, a)) == Some(false)
  {
    var name, i, k := TwoInOneFile(f, stored, source, [a, b], [a, c]);
    PassesExactlyIfSameEntries(f, stored, name, i, k);
    assert [a, b][1] != [a, c][1];
  }

  lemma {:induction false} FromOne(source: string, run: seq<Record>, h: seq<(string, Record)>)
    requires |h| == |run| && forall i :: 0 <= i < |h| ==> h[i] == (source, run[i])
    ensures From(h, source) == run
  {
    if h != [] {
      FromOne(source, run[..|run| - 1], h[..|h| - 1]);
    }
  }
}
