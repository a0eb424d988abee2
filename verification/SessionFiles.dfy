/** The monitor's session directory: a file for each report, and an index with their hashes. */
module SessionFiles {
  import opened Prelude
  import opened SessionReport

  datatype FileName = FileName(source: string, id: string)

  datatype IndexEntry = IndexEntry(name: FileName, fileHash: string)

  datatype SessionIndex = SessionIndex(sessions: seq<IndexEntry>, indexHash: string)

  /** The session id, the JSON printer and the file hash. */
  datatype Format = Format(
    id: (string, nat, string) -> string, render: CompletedSession -> string, hash: string -> string)

  ghost predicate Collisionless(f: Format) {
    forall a: string, b: string :: f.hash(a) == f.hash(b) ==> a == b
  }

  /** A file is named after the source and the id, which hashes source, start time and first link. */
  function NameOf(f: Format, c: CompletedSession): FileName {
    FileName(c.source, f.id(c.source, c.startTime, c.firstHash))
  }

  function EntryOf(f: Format, c: CompletedSession): IndexEntry {
    IndexEntry(NameOf(f, c), f.hash(f.render(c)))
  }

  // --- the directory after some reports were written in order ---

  function FilesOf(f: Format, stored: seq<CompletedSession>): map<FileName, string> {
    if stored == [] then map[]
    else
      var last := stored[|stored| - 1];
      FilesOf(f, stored[..|stored| - 1])[NameOf(f, last) := f.render(last)]
  }

  function IndexOf(f: Format, stored: seq<CompletedSession>): seq<IndexEntry> {
    if stored == [] then []
    else IndexOf(f, stored[..|stored| - 1]) + [EntryOf(f, stored[|stored| - 1])]
  }

  lemma {:induction false} IndexListsAll(f: Format, stored: seq<CompletedSession>)
    ensures |IndexOf(f, stored)| == |stored|
    ensures forall i :: 0 <= i < |stored| ==> IndexOf(f, stored)[i] == EntryOf(f, stored[i])
  {
    if stored != [] {
      IndexListsAll(f, stored[..|stored| - 1]);
    }
  }

  /** The text that the index hash is of. */
  function HashText(sessions: seq<IndexEntry>): string {
    if sessions == [] then "" else HashText(sessions[..|sessions| - 1]) + sessions[|sessions| - 1].fileHash
  }

  function Listed(index: Option<SessionIndex>): seq<IndexEntry> {
    if index.Some? then index.value.sessions else []
  }

  class SessionDir {
    var files: map<FileName, string>
    /** The index, if there is one that can be read. */
    var index: Option<SessionIndex>

    constructor ()
      ensures files == map[] && index == None
    {
      files, index := map[], None;
    }

    /** The directory is what writing these reports left. */
    ghost predicate Holds(f: Format, stored: seq<CompletedSession>)
      reads this
    {
      files == FilesOf(f, stored) && Listed(index) == IndexOf(f, stored)
    }

    method WriteSession(f: Format, c: CompletedSession, ghost stored: seq<CompletedSession>)
      modifies this
      ensures files == old(files)[NameOf(f, c) := f.render(c)]
      ensures index.Some? && index.value.sessions == Listed(old(index)) + [EntryOf(f, c)]
      ensures index.value.indexHash == f.hash(HashText(index.value.sessions))
      ensures old(Holds(f, stored)) ==> Holds(f, stored + [c])
    {
      var json := f.render(c);
      files := files[NameOf(f, c) := json];
      var sessions := Listed(index) + [IndexEntry(NameOf(f, c), f.hash(json))];
      var hashed := "";
      for i := 0 to |sessions|
        invariant hashed == HashText(sessions[..i])
      {
        assert sessions[..i + 1][..i] == sessions[..i];
        hashed := hashed + sessions[i].fileHash;
      }
      assert sessions[..|sessions|] == sessions;
      index := Some(SessionIndex(sessions, f.hash(hashed)));
      assert (stored + [c])[..|stored|] == stored;
    }

    /** `verify_session_integrity`: the file against the first index entry of its name. */
    method VerifyIntegrity(f: Format, name: FileName) returns (r: Option<bool>)
      ensures r == Integrity(f, files, Listed(index), name)
    {
      var sessions := Listed(index);
      r := None;
      for i := 0 to |sessions|
        invariant forall j :: 0 <= j < i ==> sessions[j].name != name
      {
        if sessions[i].name == name {
          FirstIs(sessions, name, i);
          if name in files {
            r := Some(f.hash(files[name]) == sessions[i].fileHash);
          }
          return;
        }
      }
      NoFirst(sessions, name);
    }
  }

  // --- what the integrity check means ---

  function FirstEntry(index: seq<IndexEntry>, name: FileName): Option<IndexEntry> {
    if index == [] then None
    else if index[0].name == name then Some(index[0])
    else FirstEntry(index[1..], name)
  }

  function Integrity(f: Format, files: map<FileName, string>, index: seq<IndexEntry>, name: FileName): Option<bool> {
    match FirstEntry(index, name)
    case None => None
    case Some(entry) => if name in files then Some(f.hash(files[name]) == entry.fileHash) else None
  }

  lemma {:induction false} FirstIs(index: seq<IndexEntry>, name: FileName, i: nat)
    requires i < |index| && index[i].name == name && forall j :: 0 <= j < i ==> index[j].name != name
    ensures FirstEntry(index, name) == Some(index[i])
  {
    if i > 0 {
      FirstIs(index[1..], name, i - 1);
    }
  }

  lemma {:induction false} NoFirst(index: seq<IndexEntry>, name: FileName)
    requires forall j :: 0 <= j < |index| ==> index[j].name != name
    ensures FirstEntry(index, name) == None
  {
    if index != [] {
      NoFirst(index[1..], name);
    }
  }

  /** Reports `i` and `k` are the first and the last that were written under `name`. */
  predicate FirstAndLast(f: Format, stored: seq<CompletedSession>, name: FileName, i: nat, k: nat) {
    && i <= k < |stored| && NameOf(f, stored[i]) == name && NameOf(f, stored[k]) == name
    && (forall j :: 0 <= j < i ==> NameOf(f, stored[j]) != name)
    && (forall j :: k < j < |stored| ==> NameOf(f, stored[j]) != name)
  }

  /** A file holds the last report written under its name: a different earlier one is gone. */
  lemma {:induction false} FileHoldsTheLast(f: Format, stored: seq<CompletedSession>, name: FileName, k: nat)
    requires k < |stored| && NameOf(f, stored[k]) == name
    requires forall j :: k < j < |stored| ==> NameOf(f, stored[j]) != name
    ensures name in FilesOf(f, stored) && FilesOf(f, stored)[name] == f.render(stored[k])
  {
    if k < |stored| - 1 {
      FileHoldsTheLast(f, stored[..|stored| - 1], name, k);
    }
  }

  /**
   A file that nobody touched passes the integrity check exactly if the last report written
   under its name is, as text, the first one.
   */
  lemma UntouchedFilePassesExactlyIf(f: Format, stored: seq<CompletedSession>, name: FileName, i: nat, k: nat)
    requires Collisionless(f) && FirstAndLast(f, stored, name, i, k)
    ensures Integrity(f, FilesOf(f, stored), IndexOf(f, stored), name)
            == Some(f.render(stored[k]) == f.render(stored[i]))
  {
    FileHoldsTheLast(f, stored, name, k);
    IndexListsAll(f, stored);
    FirstIs(IndexOf(f, stored), name, i);
  }

  /** A file whose text was changed passes exactly if it was changed back to the first report of its name. */
  lemma TamperingIsSeen(f: Format, stored: seq<CompletedSession>, name: FileName, i: nat, k: nat, text: string)
    requires Collisionless(f) && FirstAndLast(f, stored, name, i, k)
    ensures Integrity(f, FilesOf(f, stored)[name := text], IndexOf(f, stored), name)
            == Some(text == f.render(stored[i]))
  {
    IndexListsAll(f, stored);
    FirstIs(IndexOf(f, stored), name, i);
  }

  /** Different reports print differently. */
  ghost predicate Legible(f: Format) {
    forall a: CompletedSession, b: CompletedSession :: f.render(a) == f.render(b) ==> a == b
  }

  /** Different sources, start times or first links give different ids. */
  ghost predicate Distinguishing(f: Format) {
    forall s: string, t: nat, h: string, s': string, t': nat, h': string ::
      f.id(s, t, h) == f.id(s', t', h') ==> s == s' && t == t' && h == h'
  }

  /** Two reports share a file exactly if their sessions have one source, first timestamp and first link. */
  lemma SameFileExactlyIf(f: Format, stored: seq<CompletedSession>, i: nat, k: nat)
    requires Distinguishing(f) && AllReport(stored) && i < |stored| && k < |stored|
    ensures stored[i].entries != [] && stored[k].entries != []
    ensures NameOf(f, stored[i]) == NameOf(f, stored[k]) <==>
            && stored[i].source == stored[k].source
            && stored[i].entries[0].timestamp == stored[k].entries[0].timestamp
            && stored[i].entries[0].prevHash == stored[k].entries[0].prevHash
  {
    StoredIsReport(stored, i);
    StoredIsReport(stored, k);
  }

  /** In terms of entries: an untouched file passes exactly if the first and the last session in it are the same. */
  lemma PassesExactlyIfSameEntries(f: Format, stored: seq<CompletedSession>, name: FileName, i: nat, k: nat)
    requires Collisionless(f) && Legible(f) && AllReport(stored) && FirstAndLast(f, stored, name, i, k)
    ensures Integrity(f, FilesOf(f, stored), IndexOf(f, stored), name)
            == Some(stored[i].entries == stored[k].entries)
  {
    UntouchedFilePassesExactlyIf(f, stored, name, i, k);
    StoredIsReport(stored, i);
    StoredIsReport(stored, k);
    assert stored[i].source == name.source == stored[k].source;
  }

  /** The index hash is of all file hashes, in order. */
  lemma IndexHashCoversAll(sessions: seq<IndexEntry>, e: IndexEntry)
    ensures HashText([]) == "" && HashText(sessions + [e]) == HashText(sessions) + e.fileHash
  {
    assert (sessions + [e])[..|sessions|] == sessions;
  }
}
