/**
 The hash-chained audit log. JSON printing and parsing and SHA-256 are fields of `Codec`;
 `Lawful` says what the proofs assume of them.
 */
module AuditLog {
  import opened Prelude
  import opened TextLines

  /** A TPM signature over the chain hash at the time of writing. */
  datatype Checkpoint = Checkpoint(chainHash: string, signature: string, entriesCovered: nat)

  /** What `write` sets itself; `body` is everything it copies from its arguments. */
  datatype Entry = Entry(
    seqNo: nat, heartbeat: nat, prevHash: string, checkpoint: Option<Checkpoint>, body: string)

  datatype Codec = Codec(render: Entry -> string, parse: string -> Option<Entry>, hash: string -> string) {
    /** An entry prints as one object on one line that parses back, and hashes do not collide. */
    ghost predicate Lawful() {
      && (forall e: Entry :: parse(render(e)) == Some(e))
      && (forall e: Entry :: IsObjectLine(render(e)))
      && (forall a: string, b: string :: hash(a) == hash(b) ==> a == b)
    }
  }

  predicate IsObjectLine(s: string) {
    |s| >= 2 && s[0] == '{' && s[|s| - 1] == '}' && '\n' !in s
  }

  const CHECKPOINT_INTERVAL := 1
  const GENESIS := "MFA-AUDIT-GENESIS-v2"

  // --- chains ---

  function Printed(c: Codec, log: seq<Entry>): (lines: seq<string>)
    ensures |lines| == |log|
    ensures forall i :: 0 <= i < |log| ==> lines[i] == c.render(log[i])
  {
    if log == [] then [] else Printed(c, log[..|log| - 1]) + [c.render(log[|log| - 1])]
  }

  /** The hash that the next entry of a log has to carry. */
  function Tip(c: Codec, log: seq<Entry>): string {
    if log == [] then c.hash(GENESIS) else c.hash(c.render(log[|log| - 1]))
  }

  /** `entry` is what may follow `log`: numbered next, linked to its tip, any checkpoint signed over that link. */
  predicate Follows(c: Codec, log: seq<Entry>, entry: Entry) {
    && entry.seqNo == |log| + 1
    && entry.prevHash == Tip(c, log)
    && (entry.checkpoint.Some? ==> entry.checkpoint.value.chainHash == entry.prevHash)
  }

  /** One chain from genesis, numbered from 1. */
  predicate IsChain(c: Codec, log: seq<Entry>) {
    log == [] || (IsChain(c, log[..|log| - 1]) && Follows(c, log[..|log| - 1], log[|log| - 1]))
  }

  lemma {:induction false} ChainAt(c: Codec, log: seq<Entry>, i: nat)
    requires IsChain(c, log) && i < |log|
    ensures Follows(c, log[..i], log[i])
    ensures log[i].seqNo == i + 1
    ensures log[i].prevHash == c.hash(if i == 0 then "MFA-AUDIT-GENESIS-v2" else c.render(log[i - 1]))
    ensures log[i].checkpoint.Some? ==> log[i].checkpoint.value.chainHash == log[i].prevHash
  {
    if i < |log| - 1 {
      ChainAt(c, log[..|log| - 1], i);
      assert log[..|log| - 1][..i] == log[..i];
    }
  }

  /** The file that holds exactly this log; a log never written to may have no file. */
  ghost predicate Holds(c: Codec, file: Option<string>, log: seq<Entry>) {
    match file
    case None => log == []
    case Some(content) => content == Text(Printed(c, log))
  }

  // --- recovery at start-up ---

  function LastNonBlank(lines: seq<string>): Option<string> {
    if lines == [] then None
    else if Trim(lines[|lines| - 1]) != "" then Some(lines[|lines| - 1])
    else LastNonBlank(lines[..|lines| - 1])
  }

  function CountNonBlank(lines: seq<string>): (n: nat)
    ensures n <= |lines|
  {
    if lines == [] then 0 else (if Trim(lines[0]) != "" then 1 else 0) + CountNonBlank(lines[1..])
  }

  /** Only the last non-blank line counts, or if it is no entry, how many there are. */
  function Recovered(c: Codec, lines: seq<string>): (nat, string) {
    match LastNonBlank(lines)
    case None => (0, c.hash(GENESIS))
    case Some(line) =>
      match c.parse(line)
      case Some(entry) => (entry.seqNo, c.hash(line))
      case None => (CountNonBlank(lines), c.hash(GENESIS))
  }

  /** The sequence number and chain hash that a logger starts from. */
  function RecoverChainState(c: Codec, file: Option<string>): (nat, string) {
    match file
    case None => (0, c.hash(GENESIS))
    case Some(content) => Recovered(c, Lines(content))
  }

  lemma ObjectLineIsTrimmed(s: string)
    requires IsObjectLine(s)
    ensures Trim(s) == s
  {
  }

  predicate AreObjectLines(lines: seq<string>) {
    forall l :: l in lines ==> IsObjectLine(l)
  }

  lemma ObjectLinesReadBack(lines: seq<string>)
    requires AreObjectLines(lines)
    ensures Lines(Text(lines)) == lines && Tokens(Text(lines)) == lines
  {
    LinesOfText(lines);
    forall l | l in lines
      ensures Trim(l) == l
    {
      ObjectLineIsTrimmed(l);
    }
    TokensOfText(lines);
  }

  lemma {:induction false} AllNonBlank(lines: seq<string>)
    requires AreObjectLines(lines)
    ensures CountNonBlank(lines) == |lines|
    ensures lines != [] ==> LastNonBlank(lines) == Some(lines[|lines| - 1])
  {
    if lines != [] {
      AllNonBlank(lines[1..]);
      ObjectLineIsTrimmed(lines[0]);
      ObjectLineIsTrimmed(lines[|lines| - 1]);
    }
  }

  /** What recovery does with a file of whole object lines: only the last one matters. */
  lemma RecoverFromLines(c: Codec, lines: seq<string>)
    requires AreObjectLines(lines)
    ensures RecoverChainState(c, Some(Text(lines))) ==
            if lines == [] then (0, c.hash(GENESIS))
            else
              var line := lines[|lines| - 1];
              if c.parse(line).Some? then (c.parse(line).value.seqNo, c.hash(line)) else (|lines|, c.hash(GENESIS))
  {
    ObjectLinesReadBack(lines);
    AllNonBlank(lines);
  }

  lemma PrintedAreObjectLines(c: Codec, log: seq<Entry>)
    requires c.Lawful()
    ensures AreObjectLines(Printed(c, log))
  {
  }

  /** Recovery reads back from the file exactly what the writer had in memory. */
  lemma RecoveryIsExact(c: Codec, file: Option<string>, log: seq<Entry>)
    requires c.Lawful() && IsChain(c, log) && Holds(c, file, log)
    ensures RecoverChainState(c, file) == (|log|, Tip(c, log))
  {
    PrintedAreObjectLines(c, log);
    RecoverFromLines(c, Printed(c, log));
  }

  /** Exactly when a restarted logger links to the last line of its file, whatever the file holds. */
  lemma RestartLinksExactlyIfLastLineParses(c: Codec, content: string, line: string)
    requires c.Lawful() && LastNonBlank(Lines(content)) == Some(line)
    ensures RecoverChainState(c, Some(content)).1 == c.hash(line) <==> c.parse(line).Some? || line == GENESIS
  {
  }

  lemma {:induction false} LinesOfTornText(lines: seq<string>, torn: string)
    requires AreObjectLines(lines) && torn != "" && '\n' !in torn
    ensures Lines(Text(lines) + torn) == lines + [torn]
  {
    if lines == [] {
      assert Text(lines) + torn == torn;
      LastLineAlone(torn);
    } else {
      var rest := Text(lines[1..]) + torn;
      assert lines[0] in lines;
      calc {
        Lines(Text(lines) + torn);
        { Regroup(lines[0] + "\n", Text(lines[1..]), torn); }
        Lines(lines[0] + "\n" + rest);
        { ObjectLineInFront(lines[0], rest); }
        [lines[0]] + Lines(rest);
        { LinesOfTornText(lines[1..], torn); }
        [lines[0]] + (lines[1..] + [torn]);
        lines + [torn];
      }
    }
  }

  lemma LastLineAlone(torn: string)
    requires torn != "" && '\n' !in torn
    ensures Lines(torn) == [torn]
  {
    assert torn[..|torn|] == torn;
    assert Lines(torn) == [torn] + Lines("");
  }

  lemma ObjectLineInFront(line: string, rest: string)
    requires IsObjectLine(line)
    ensures Lines(line + "\n" + rest) == [line] + Lines(rest)
  {
    var text := line + "\n" + rest;
    SplitFirstLine(line, rest);
    assert text[|line| - 1] == '}';
    assert Chomped(text) == line;
  }

  lemma {:induction false} CountAppend(lines: seq<string>, last: string)
    ensures CountNonBlank(lines + [last]) == CountNonBlank(lines) + if Trim(last) != "" then 1 else 0
  {
    if lines == [] {
      assert lines + [last] == [last];
    } else {
      assert (lines + [last])[1..] == lines[1..] + [last];
      CountAppend(lines[1..], last);
    }
  }

  /** What recovery makes of whole lines followed by text without a newline. */
  lemma RecoverWithTail(c: Codec, log: seq<Entry>, tail: string)
    requires c.Lawful() && IsChain(c, log) && '\n' !in tail
    ensures RecoverChainState(c, Some(Text(Printed(c, log)) + tail)) ==
            if Trim(tail) == "" then (|log|, Tip(c, log))
            else if c.parse(tail).Some? then (c.parse(tail).value.seqNo, c.hash(tail))
            else (|log| + 1, c.hash(GENESIS))
  {
    var lines := Printed(c, log);
    PrintedAreObjectLines(c, log);
    ObjectLinesReadBack(lines);
    RecoveryIsExact(c, Some(Text(lines)), log);
    if tail == "" {
      assert Text(lines) + tail == Text(lines);
    } else {
      LinesOfTornText(lines, tail);
      AllNonBlank(lines);
      RecoveredAppend(c, lines, tail);
    }
  }

  lemma RecoveredAppend(c: Codec, lines: seq<string>, tail: string)
    ensures Recovered(c, lines + [tail]) ==
            if Trim(tail) == "" then Recovered(c, lines)
            else if c.parse(tail).Some? then (c.parse(tail).value.seqNo, c.hash(tail))
            else (CountNonBlank(lines) + 1, c.hash(GENESIS))
  {
    CountAppend(lines, tail);
    assert (lines + [tail])[..|lines|] == lines;
  }

  /** The tail is an entry or a genesis text that recovery takes for the end of the very same log. */
  predicate RepeatsTip(c: Codec, log: seq<Entry>, tail: string) {
    if log == [] then tail == GENESIS && c.parse(tail).Some? && c.parse(tail).value.seqNo == 0
    else tail == c.render(log[|log| - 1])
  }

  /** Exactly when a restart does not show: nothing but blanks, or the last entry again, follows the whole lines. */
  lemma RestartIsTransparentExactlyIf(c: Codec, log: seq<Entry>, tail: string)
    requires c.Lawful() && IsChain(c, log) && '\n' !in tail
    ensures RecoverChainState(c, Some(Text(Printed(c, log)) + tail)) == (|log|, Tip(c, log)) <==>
            Trim(tail) == "" || RepeatsTip(c, log, tail)
  {
    RecoverWithTail(c, log, tail);
    if log != [] {
      var last := log[|log| - 1];
      assert c.parse(c.render(last)) == Some(last);
      ObjectLineIsTrimmed(c.render(last));
    } else {
      assert Trim(GENESIS) == GENESIS;
    }
  }

  /** A file whose last append was torn: whole lines, then text without its newline that is no entry. */
  ghost predicate TornAfter(c: Codec, content: string, log: seq<Entry>, torn: string) {
    && content == Text(Printed(c, log)) + torn
    && '\n' !in torn && Trim(torn) != "" && c.parse(torn) == None
  }

  /** After a torn append, recovery counts the torn line and falls back to genesis. */
  lemma TornTailLosesTheChain(c: Codec, content: string, log: seq<Entry>, torn: string)
    requires c.Lawful() && IsChain(c, log) && TornAfter(c, content, log, torn)
    ensures RecoverChainState(c, Some(content)) == (|log| + 1, c.hash(GENESIS))
    ensures log != [] ==> c.hash(GENESIS) != Tip(c, log)
  {
    RecoverWithTail(c, log, torn);
    if log != [] {
      GenesisIsNoEntry(c, log[|log| - 1]);
    }
  }

  lemma GenesisIsNoEntry(c: Codec, e: Entry)
    requires c.Lawful()
    ensures c.hash(GENESIS) != c.hash(c.render(e))
  {
    assert c.render(e)[0] == '{';
    assert GENESIS[0] == 'M';
  }

  // --- writing ---

  class LogFile {
    var content: Option<string>

    constructor (content: Option<string>)
      ensures this.content == content
    {
      this.content := content;
    }
  }

  /** What the file holds after another line is appended to it. */
  function Appended(file: Option<string>, line: string): Option<string> {
    Some((if file.Some? then file.value else "") + line + "\n")
  }

  class AuditLogger {
    const file: LogFile
    var seqNo: nat
    var prevHash: string
    var heartbeatCount: nat

    constructor (c: Codec, file: LogFile)
      ensures this.file == file && (seqNo, prevHash) == RecoverChainState(c, file.content)
      ensures heartbeatCount == 0
    {
      this.file := file;
      var (n, h) := RecoverChainState(c, file.content);
      seqNo, prevHash, heartbeatCount := n, h, 0;
    }

    /** The logger is in step with `log`, in memory and on disk. */
    ghost predicate InStep(c: Codec, log: seq<Entry>)
      reads this, file
    {
      IsChain(c, log) && Holds(c, file.content, log) && seqNo == |log| && prevHash == Tip(c, log)
    }

    /** `sign` is the TPM's answer, if any, to a request for a signature over the current chain hash. */
    method Write(c: Codec, heartbeat: nat, body: string, sign: Option<string>, ghost log: seq<Entry>)
      returns (entry: Entry)
      modifies this, file
      ensures old(InStep(c, log)) ==> InStep(c, log + [entry])
      ensures entry.seqNo == old(seqNo) + 1 && entry.prevHash == old(prevHash)
      ensures entry.heartbeat == heartbeat && entry.body == body
      ensures entry.checkpoint ==
              if sign.Some? then Some(Checkpoint(old(prevHash), sign.value, 1)) else None
      ensures seqNo == old(seqNo) + 1 && prevHash == c.hash(c.render(entry))
      ensures heartbeatCount == old(heartbeatCount) + 1
      ensures file.content == Appended(old(file.content), c.render(entry))
    {
      seqNo := seqNo + 1;
      heartbeatCount := heartbeatCount + 1;
      var checkpoint := None;
      if heartbeatCount % CHECKPOINT_INTERVAL == 0 && sign.Some? {
        checkpoint := Some(Checkpoint(prevHash, sign.value, CHECKPOINT_INTERVAL));
      }
      entry := Entry(seqNo, heartbeat, prevHash, checkpoint, body);
      var json := c.render(entry);
      prevHash := c.hash(json);
      file.content := Appended(file.content, json);
      if old(InStep(c, log)) {
        LogGrows(c, old(file.content), log, entry);
      }
    }
  }

  /**
   A restart after a torn append: the next entry does not follow the log, and its text is glued
   to the torn line.
   */
  method WriteAfterTornAppend(c: Codec, file: LogFile, heartbeat: nat, body: string, sign: Option<string>,
                              ghost log: seq<Entry>, ghost torn: string)
    returns (logger: AuditLogger, entry: Entry)
    requires c.Lawful() && IsChain(c, log) && file.content.Some? && TornAfter(c, file.content.value, log, torn)
    modifies file
    ensures !Follows(c, log, entry) && entry.seqNo == |log| + 2 && entry.prevHash == c.hash(GENESIS)
    ensures log != [] ==> entry.prevHash != Tip(c, log)
    ensures file.content == Some(Text(Printed(c, log)) + torn + c.render(entry) + "\n")
  {
    TornTailLosesTheChain(c, file.content.value, log, torn);
    logger := new AuditLogger(c, file);
    entry := logger.Write(c, heartbeat, body, sign, log);
  }

  lemma LogGrows(c: Codec, file: Option<string>, log: seq<Entry>, entry: Entry)
    requires IsChain(c, log) && Holds(c, file, log) && Follows(c, log, entry)
    ensures IsChain(c, log + [entry]) && Holds(c, Appended(file, c.render(entry)), log + [entry])
    ensures Tip(c, log + [entry]) == c.hash(c.render(entry))
  {
    assert (log + [entry])[..|log|] == log;
    FileGrows(c, log, entry);
  }

  lemma FileGrows(c: Codec, log: seq<Entry>, entry: Entry)
    ensures Text(Printed(c, log + [entry])) == Text(Printed(c, log)) + c.render(entry) + "\n"
  {
    assert (log + [entry])[..|log|] == log;
    var line := c.render(entry);
    assert Printed(c, log + [entry]) == Printed(c, log) + [line];
    TextAppend(Printed(c, log), [line]);
    assert Text([line]) == line + "\n";
  }

  // --- runs with restarts ---

  datatype Op = Write(heartbeat: nat, body: string, sign: Option<string>) | Restart

  /** What a write asks to be recorded. */
  datatype Content = Content(heartbeat: nat, body: string, signature: Option<string>)

  function Asked(ops: seq<Op>): seq<Content> {
    if ops == [] then []
    else
      var last := ops[|ops| - 1];
      Asked(ops[..|ops| - 1]) + if last.Write? then [Content(last.heartbeat, last.body, last.sign)] else []
  }

  function ContentOf(e: Entry): Content {
    Content(e.heartbeat, e.body, if e.checkpoint.Some? then Some(e.checkpoint.value.signature) else None)
  }

  function Recorded(log: seq<Entry>): seq<Content> {
    if log == [] then [] else Recorded(log[..|log| - 1]) + [ContentOf(log[|log| - 1])]
  }

  /** What a run has kept so far: one chain in memory and on disk, holding exactly what was asked. */
  ghost predicate Faithful(c: Codec, logger: AuditLogger, before: seq<Entry>, written: seq<Entry>, ops: seq<Op>)
    reads logger, logger.file
  {
    logger.InStep(c, before + written) && Recorded(written) == Asked(ops)
  }

  /** Starting a logger on a file that holds a log. */
  method OpenLogger(c: Codec, file: LogFile, ghost log: seq<Entry>) returns (logger: AuditLogger)
    requires c.Lawful() && IsChain(c, log) && Holds(c, file.content, log)
    ensures fresh(logger) && logger.file == file && logger.InStep(c, log)
  {
    RecoveryIsExact(c, file.content, log);
    logger := new AuditLogger(c, file);
  }

  /** One operation on the log. */
  method RunOp(c: Codec, logger: AuditLogger, op: Op, ghost before: seq<Entry>, ghost ops: seq<Op>,
               written: seq<Entry>) returns (after: AuditLogger, more: seq<Entry>)
    requires c.Lawful() && Faithful(c, logger, before, written, ops)
    modifies logger, logger.file
    ensures after.file == logger.file && (after == logger || fresh(after))
    ensures Faithful(c, after, before, more, ops + [op])
  {
    assert (ops + [op])[..|ops|] == ops;
    match op
    case Write(heartbeat, body, sign) =>
      var entry := logger.Write(c, heartbeat, body, sign, before + written);
      Regroup(before, written, [entry]);
      after, more := logger, written + [entry];
      assert more[..|written|] == written;
    case Restart =>
      more := written;
      after := OpenLogger(c, logger.file, before + written);
  }

  /** Restarts do not show: any mix of writes and restarts leaves one chain with every write in it, in order. */
  method RunLogger(c: Codec, file: LogFile, ops: seq<Op>, ghost before: seq<Entry>)
    returns (logger: AuditLogger, written: seq<Entry>)
    requires c.Lawful() && IsChain(c, before) && Holds(c, file.content, before)
    modifies file
    ensures fresh(logger) && logger.file == file
    ensures IsChain(c, before + written) && Holds(c, file.content, before + written)
    ensures Recorded(written) == Asked(ops)
    ensures (logger.seqNo, logger.prevHash) == RecoverChainState(c, file.content)
    ensures logger.seqNo == |before| + |written| && logger.prevHash == Tip(c, before + written)
  {
    written := [];
    assert before + [] == before;
    logger := OpenLogger(c, file, before);
    for k := 0 to |ops|
      invariant fresh(logger) && logger.file == file
      invariant Faithful(c, logger, before, written, ops[..k])
    {
      assert ops[..k + 1] == ops[..k] + [ops[k]];
      logger, written := RunOp(c, logger, ops[k], before, ops[..k], written);
    }
    assert ops[..|ops|] == ops;
    RecoveryIsExact(c, file.content, before + written);
  }
}
