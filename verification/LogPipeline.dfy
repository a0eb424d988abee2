/** From the logger over the tailer to the monitor: an untampered log arrives complete and without a break. */
module LogPipeline {
  import opened Prelude
  import opened TextLines
  import opened LogTailer
  import opened AuditLog
  import opened ChainMonitor

  /** A file holding `log`; the newline of the last line may still be on its way. */
  ghost predicate Shows(c: Codec, text: string, log: seq<Entry>) {
    text == Text(Printed(c, log)) || text + "\n" == Text(Printed(c, log))
  }

  lemma NewlineIsNoToken(text: string)
    ensures Tokens(text + "\n") == Tokens(text)
    ensures Tokens("\n" + text) == Tokens(text)
  {
    assert FirstLine("\n") == "" && RestLines("\n") == "";
    assert Tokens("\n") == [];
    TokensOfTwoParts(text, "\n");
    TokensOfTwoParts("\n", text);
    assert LastLine("\n") == "";
  }

  lemma PrintedSplit(c: Codec, log: seq<Entry>, m: nat)
    requires m <= |log|
    ensures Printed(c, log) == Printed(c, log[..m]) + Printed(c, log[m..])
    ensures Text(Printed(c, log)) == Text(Printed(c, log[..m])) + Text(Printed(c, log[m..]))
  {
    TextAppend(Printed(c, log[..m]), Printed(c, log[m..]));
  }

  /** What the file gained since it showed `log[..m]` is, as lines, the rest of the log. */
  lemma GainedLines(c: Codec, log: seq<Entry>, m: nat, before: string, after: string)
    requires c.Lawful() && m <= |log|
    requires Shows(c, before, log[..m]) && Shows(c, after, log) && before <= after
    ensures Tokens(after[|before|..]) == Printed(c, log[m..])
  {
    var head, tail := Text(Printed(c, log[..m])), Text(Printed(c, log[m..]));
    PrintedSplit(c, log, m);
    PrintedAreObjectLines(c, log[m..]);
    ObjectLinesReadBack(Printed(c, log[m..]));
    var gained := after[|before|..];
    GainedText(head, tail, before, after);
    NewlineIsNoToken(tail);
    NewlineIsNoToken(gained);
  }

  lemma GainedText(head: string, tail: string, before: string, after: string)
    requires before <= after
    requires before == head || before + "\n" == head
    requires after == head + tail || after + "\n" == head + tail
    ensures var gained := after[|before|..];
            var whole := if after == head + tail then gained else gained + "\n";
            whole == tail || whole == "\n" + tail
  {
    var gained := after[|before|..];
    assert after == before + gained;
    var whole := if after == head + tail then gained else gained + "\n";
    assert before + whole == head + tail;
    if before == head {
      assert (before + whole)[|before|..] == whole && (head + tail)[|head|..] == tail;
    } else {
      assert head + tail == before + ("\n" + tail);
      assert (before + whole)[|before|..] == whole && (before + ("\n" + tail))[|before|..] == "\n" + tail;
    }
  }

  /** The texts that one source delivers in a run, whatever else happens in it. */
  function DeliveredBy(es: seq<Event>, node: string): seq<string> {
    if es == [] then []
    else
      var last := es[|es| - 1];
      DeliveredBy(es[..|es| - 1], node) + if last.Deliver? && last.node == node then [last.json] else []
  }

  /** The texts that parse. */
  function Parsing(c: Codec, lines: seq<string>): seq<string> {
    if lines == [] then []
    else
      var last := lines[|lines| - 1];
      Parsing(c, lines[..|lines| - 1]) + if c.parse(last).Some? then [last] else []
  }

  lemma {:induction false} AllParse(c: Codec, lines: seq<string>)
    requires forall i :: 0 <= i < |lines| ==> c.parse(lines[i]).Some?
    ensures Parsing(c, lines) == lines
  {
    if lines != [] {
      AllParse(c, lines[..|lines| - 1]);
    }
  }

  /** What the monitor keeps of a connection is what the source delivered over it and parses. */
  lemma {:induction false} DeliveredIsTheStream(c: Codec, h: seq<Event>, node: string, more: seq<Event>)
    requires forall i :: 0 <= i < |more| ==> more[i] != Connect(node)
    ensures Stream(c, h + [Connect(node)] + more, node) == Parsing(c, DeliveredBy(more, node))
  {
    var start := h + [Connect(node)];
    if more == [] {
      assert start + more == start;
    } else {
      var all, init, last := start + more, more[..|more| - 1], more[|more| - 1];
      assert all[..|all| - 1] == start + init;
      DeliveredIsTheStream(c, h, node, init);
      if last.Deliver? && last.node == node {
        ParsingPush(c, DeliveredBy(init, node), last.json);
      } else {
        assert DeliveredBy(more, node) == DeliveredBy(init, node);
      }
    }
  }

  lemma ParsingPush(c: Codec, lines: seq<string>, last: string)
    ensures Parsing(c, lines + [last]) ==
            if c.parse(last).Some? then Parsing(c, lines) + [last] else Parsing(c, lines)
  {
    assert (lines + [last])[..|lines|] == lines;
  }

  /**
   A forwarder that starts when the log has `m` entries and polls, at line edges, until it has seen all of it
   delivers to the monitor exactly the entries from there on, in order, and adds no chain break. `more` is any
   run after its connection, other sources included, in which its own deliveries are what it sends.
   */
  lemma UntamperedLogArrivesWhole(c: Codec, log: seq<Entry>, m: nat, before: string, polls: Polls,
                                  h: seq<Event>, node: string, more: seq<Event>)
    requires c.Lawful() && IsChain(c, log) && m <= |log|
    requires Shows(c, before, log[..m])
    requires Growing(before, polls) && AllAtLineEdges(before, polls) && Shows(c, Final(before, polls), log)
    requires forall i :: 0 <= i < |more| ==> more[i] != Connect(node)
    requires DeliveredBy(more, node) == Sent(before, polls)
    ensures Sent(before, polls) == Printed(c, log[m..])
    ensures var all := h + [Connect(node)] + more;
            && Stream(c, all, node) == Printed(c, log[m..])
            && Share(c, all, node) == Share(c, h, node)
            && (forall s: SourceState, connected: bool :: Reflects(c, s, Stream(c, all, node), connected) ==>
                  s.chainIntact && s.received == |log| - m)
  {
    WholeLinesAreSentOnce(before, polls);
    GainedLines(c, log, m, before, Final(before, polls));
    DeliveredLog(c, log, m, h, node, more);
  }

  lemma PrintedParse(c: Codec, log: seq<Entry>)
    requires c.Lawful()
    ensures forall i :: 0 <= i < |log| ==> c.parse(Printed(c, log)[i]).Some?
  {
    forall i | 0 <= i < |log|
      ensures c.parse(Printed(c, log)[i]).Some?
    {
      assert c.parse(c.render(log[i])) == Some(log[i]);
    }
  }

  /** What the monitor makes of the rest of a log, delivered line by line among other sources' events. */
  lemma DeliveredLog(c: Codec, log: seq<Entry>, m: nat, h: seq<Event>, node: string, more: seq<Event>)
    requires c.Lawful() && IsChain(c, log) && m <= |log|
    requires forall i :: 0 <= i < |more| ==> more[i] != Connect(node)
    requires DeliveredBy(more, node) == Printed(c, log[m..])
    ensures var all := h + [Connect(node)] + more;
            && Stream(c, all, node) == Printed(c, log[m..])
            && Breaks(c, Stream(c, all, node)) == 0
            && Share(c, all, node) == Share(c, h, node)
  {
    PrintedParse(c, log[m..]);
    AllParse(c, Printed(c, log[m..]));
    DeliveredIsTheStream(c, h, node, more);
    SuffixHasNoBreak(c, log, m);
    ConnectionAddsItsBreaks(c, h, node, more);
  }

  lemma SuffixHasNoBreak(c: Codec, log: seq<Entry>, m: nat)
    requires c.Lawful() && IsChain(c, log) && m <= |log|
    ensures Breaks(c, Printed(c, log[m..])) == 0
  {
    var ks: seq<nat> := seq(|log| - m, i requires 0 <= i => m + i);
    BreaksAreGaps(c, log, ks, Printed(c, log[m..]));
    NoGapIffContiguous(ks);
  }
}
