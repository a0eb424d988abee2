/** The log forwarder's file tailer: polling a growing file and reading each line once. */
module LogTailer {
  import opened Prelude
  import opened TextLines

  /** Where a poll starts to read: from the top again if the file got shorter. */
  function Start(position: nat, content: string): (start: nat)
    ensures start <= |content|
  {
    if |content| < position then 0 else position
  }

  class FileTailer {
    var position: nat

    constructor (file: Option<string>)
      ensures position == if file.Some? then |file.value| else 0
    {
      position := if file.Some? then |file.value| else 0;
    }

    /** One poll; `file` is what opening the file finds. */
    method ReadNewLines(file: Option<string>) returns (lines: seq<string>)
      modifies this
      ensures file.None? ==> lines == [] && position == old(position)
      ensures file.Some? ==> position == |file.value|
      ensures file.Some? ==> lines == Tokens(file.value[Start(old(position), file.value)..])
      ensures file.Some? && |file.value| < old(position) ==> lines == Tokens(file.value)
      ensures file.Some? && |file.value| >= old(position) ==> lines == Tokens(file.value[old(position)..])
    {
      lines := [];
      if file.None? {
        return;
      }
      var content := file.value;
      assert content[0..] == content;
      if |content| < position {
        position := 0;
      }
      var rest := content[position..];
      ghost var all := rest;
      while rest != ""
        invariant position + |rest| == |content|
        invariant Reads(lines, rest, all)
        decreases |rest|
      {
        var line, after := ReadLine(rest);
        ReadsNext(lines, line, rest, after, all);
        position := position + |line|;
        rest := after;
        var trimmed := Trim(line);
        if trimmed != "" {
          lines := lines + [trimmed];
        }
      }
      ReadsAll(lines, all);
    }
  }

  /** `lines` has been read of `all`, and `rest` remains. */
  ghost predicate Reads(lines: seq<string>, rest: string, all: string) {
    lines + Tokens(rest) == Tokens(all)
  }

  lemma ReadsNext(lines: seq<string>, line: string, rest: string, after: string, all: string)
    requires Reads(lines, rest, all) && Tokens(rest) == Token(line) + Tokens(after)
    ensures Reads(if Trim(line) != "" then lines + [Trim(line)] else lines, after, all)
  {
    Regroup(lines, Token(line), Tokens(after));
    assert lines + [] == lines;
  }

  lemma ReadsAll(lines: seq<string>, all: string)
    requires Reads(lines, "", all)
    ensures lines == Tokens(all)
  {
    assert Tokens("") == [];
  }

  /** `BufRead::read_line`: up to and with the next newline, which does not show after trimming. */
  method ReadLine(rest: string) returns (line: string, after: string)
    requires rest != ""
    ensures line != "" && rest == line + after
    ensures '\n' !in line[..|line| - 1] && (after != "" ==> line[|line| - 1] == '\n')
    ensures Tokens(rest) == Token(line) + Tokens(after)
  {
    var end := LineEnd(rest);
    if end < |rest| {
      line, after := rest[..end + 1], rest[end + 1..];
      LineCut(rest, line, after);
    } else {
      line, after := rest, "";
      LastCut(rest);
    }
  }

  lemma LineCut(rest: string, line: string, after: string)
    requires LineEnd(rest) < |rest| && line == rest[..LineEnd(rest) + 1] && after == rest[LineEnd(rest) + 1..]
    ensures rest == line + after && '\n' !in line[..|line| - 1] && line[|line| - 1] == '\n'
    ensures Tokens(rest) == Token(line) + Tokens(after)
  {
    var first := FirstLine(rest);
    assert line == first + "\n" && line[..|line| - 1] == first;
    FirstLineToken(rest, first, line);
  }

  lemma FirstLineToken(rest: string, first: string, line: string)
    requires first == FirstLine(rest) && line == first + "\n"
    ensures Tokens(rest) == Token(line) + Tokens(RestLines(rest))
  {
    TokensSplit(rest);
    TrimIgnoresBlankSuffix(first, "\n");
  }

  lemma LastCut(rest: string)
    requires rest != "" && LineEnd(rest) == |rest|
    ensures '\n' !in rest && Tokens(rest) == Token(rest) + Tokens("")
  {
    assert rest[..|rest|] == rest;
    TokensSplit(rest);
  }

  // --- whole runs of polls ---

  /** The file as each poll finds it, or nothing where it cannot be opened. */
  type Polls = seq<Option<string>>

  /** The file as far as the tailer knows it after a poll. */
  function Known(before: string, poll: Option<string>): string {
    if poll.None? then before else poll.value
  }

  /** From `before` on, the file only ever grows. */
  predicate Growing(before: string, polls: Polls)
    decreases |polls|
  {
    polls == [] || (before <= Known(before, polls[0]) && Growing(Known(before, polls[0]), polls[1..]))
  }

  /** The file as the last successful poll saw it. */
  function Final(before: string, polls: Polls): (all: string)
    requires Growing(before, polls)
    ensures before <= all
    decreases |polls|
  {
    if polls == [] then before else Final(Known(before, polls[0]), polls[1..])
  }

  /** What the first poll reads, and what all later ones read. */
  function Cut(before: string, polls: Polls): (string, string)
    requires polls != [] && Growing(before, polls)
  {
    var now := Known(before, polls[0]);
    (now[|before|..], Final(now, polls[1..])[|now|..])
  }

  /** How many polls stopped inside the trimmed part of a line. */
  function UncleanCuts(before: string, polls: Polls): nat
    requires Growing(before, polls)
    decreases |polls|
  {
    if polls == [] then 0
    else
      var (piece, rest) := Cut(before, polls);
      (if CleanCut(piece, rest) then 0 else 1) + UncleanCuts(Known(before, polls[0]), polls[1..])
  }

  /** What a run of polls sends, poll by poll. */
  function Sent(before: string, polls: Polls): seq<string>
    requires Growing(before, polls)
    decreases |polls|
  {
    if polls == [] then []
    else Tokens(Known(before, polls[0])[|before|..]) + Sent(Known(before, polls[0]), polls[1..])
  }

  /** The forwarder's loop: everything it sends over one connection. */
  method ForwardAll(tailer: FileTailer, polls: Polls, ghost before: string) returns (sent: seq<string>)
    requires tailer.position == |before| && Growing(before, polls)
    modifies tailer
    ensures tailer.position == |Final(before, polls)|
    ensures sent == Sent(before, polls)
    ensures |sent| == |Tokens(Final(before, polls)[|before|..])| + UncleanCuts(before, polls)
    ensures sent == Tokens(Final(before, polls)[|before|..]) <==> UncleanCuts(before, polls) == 0
  {
    sent := [];
    ghost var now := before;
    for k := 0 to |polls|
      invariant Growing(now, polls[k..]) && tailer.position == |now|
      invariant Final(before, polls) == Final(now, polls[k..])
      invariant sent + Sent(now, polls[k..]) == Sent(before, polls)
    {
      assert polls[k..][1..] == polls[k + 1..];
      ghost var next := Known(now, polls[k]);
      var lines := tailer.ReadNewLines(polls[k]);
      assert lines == Tokens(next[|now|..]);
      Regroup(sent, lines, Sent(next, polls[k + 1..]));
      sent := sent + lines;
      now := next;
    }
    SentExactly(before, polls);
  }

  /** Exactly once, in order, if no poll cut a line; and one line too many for each that did. */
  lemma {:induction false} SentExactly(before: string, polls: Polls)
    requires Growing(before, polls)
    ensures |Sent(before, polls)| == |Tokens(Final(before, polls)[|before|..])| + UncleanCuts(before, polls)
    ensures Sent(before, polls) == Tokens(Final(before, polls)[|before|..]) <==> UncleanCuts(before, polls) == 0
    decreases |polls|
  {
    if polls != [] {
      var now := Known(before, polls[0]);
      SentExactly(now, polls[1..]);
      var (piece, rest) := Cut(before, polls);
      CutOfFinal(before, polls);
      TokensOfTwoParts(piece, rest);
      OneMoreCut(Tokens(piece), Tokens(rest), Tokens(piece + rest), CleanCut(piece, rest),
                 Sent(now, polls[1..]), UncleanCuts(now, polls[1..]));
    }
  }

  lemma CutOfFinal(before: string, polls: Polls)
    requires polls != [] && Growing(before, polls)
    ensures var (piece, rest) := Cut(before, polls);
            Final(before, polls)[|before|..] == piece + rest
  {
  }

  /** A piece read in front of a run of polls that gave `sent` for `right`, with `unclean` lines too many. */
  lemma OneMoreCut(left: seq<string>, right: seq<string>, whole: seq<string>, clean: bool,
                   sent: seq<string>, unclean: nat)
    requires Joins(left, right, whole, clean)
    requires |sent| == |right| + unclean && (sent == right <==> unclean == 0)
    ensures var more := unclean + if clean then 0 else 1;
            |left + sent| == |whole| + more && (left + sent == whole <==> more == 0)
  {
  }

  /** The polls that find half a line, and then all of it. */
  function HalfThenWhole(half: string, rest: string): Polls {
    [Some(half), Some(half + (rest + "\n"))]
  }

  predicate IsToken(s: string) {
    s != "" && '\n' !in s && Trim(s) == s
  }

  /** Any line caught half written is sent as two, neither of which is the line. */
  lemma HalfWrittenLineIsSentTwice(half: string, rest: string)
    requires IsToken(half) && IsToken(rest) && IsToken(half + rest)
    ensures var polls := HalfThenWhole(half, rest);
            && Growing("", polls) && UncleanCuts("", polls) == 1
            && Sent("", polls) == [half, rest] && Tokens(Final("", polls)) == [half + rest]
  {
    TwoPolls(half, rest + "\n");
    TwoTokens(half, rest);
    WholeSuffix(half + (rest + "\n"));
    SentExactly("", HalfThenWhole(half, rest));
  }

  lemma TwoTokens(half: string, rest: string)
    requires IsToken(half) && IsToken(rest) && IsToken(half + rest)
    ensures Tokens(half) == [half] && Tokens(rest + "\n") == [rest]
    ensures Tokens(half + (rest + "\n")) == [half + rest]
    ensures [half] + [rest] == [half, rest]
  {
    OneLine(half, "");
    OneLine(rest, "\n");
    OneLine(half + rest, "\n");
    assert half + "" == half && half + (rest + "\n") == half + rest + "\n";
  }

  lemma WholeSuffix(s: string)
    ensures s[|""|..] == s
  {
  }

  /** A poll of some text and one of that text grown. */
  lemma TwoPolls(a: string, b: string)
    ensures var polls := [Some(a), Some(a + b)];
            && Growing("", polls) && Final("", polls) == a + b && Sent("", polls) == Tokens(a) + Tokens(b)
  {
    var whole := a + b;
    var polls := [Some(a), Some(whole)];
    assert polls[1..] == [Some(whole)] && polls[1..][1..] == [];
    assert Growing(whole, []) && Growing(a, [Some(whole)]) && Growing("", polls);
    assert Final(whole, []) == whole && Final(a, [Some(whole)]) == whole;
    assert whole[|a|..] == b && a[|""|..] == a;
    assert Sent(whole, []) == [] && Sent(a, [Some(whole)]) == Tokens(b) + [];
  }

  lemma HalfWrittenEntry()
    ensures Sent("", HalfThenWhole("{\"a\"", ":1}")) == ["{\"a\"", ":1}"]
  {
    assert Trim("{\"a\"") == "{\"a\"" && Trim(":1}") == ":1}";
    var whole := "{\"a\"" + ":1}";
    assert whole[0] == '{' && whole[|whole| - 1] == '}';
    HalfWrittenLineIsSentTwice("{\"a\"", ":1}");
  }

  lemma OneLine(line: string, end: string)
    requires IsToken(line) && (end == "" || end == "\n")
    ensures Tokens(line + end) == [line]
  {
    if end == "" {
      assert line + end == line;
      TokensWithinLine(line, "");
    } else {
      assert line + end == line + "\n" + "";
      SplitFirstLine(line, "");
      TokensSplit(line + end);
    }
  }

  /** A poll that ends at a line's edge: it read nothing, or stopped after a newline, before one, or at the end. */
  predicate AtLineEdge(piece: string, rest: string) {
    piece == "" || piece[|piece| - 1] == '\n' || rest == "" || rest[0] == '\n'
  }

  predicate AllAtLineEdges(before: string, polls: Polls)
    requires Growing(before, polls)
    decreases |polls|
  {
    polls == [] ||
    (var (piece, rest) := Cut(before, polls);
     AtLineEdge(piece, rest) && AllAtLineEdges(Known(before, polls[0]), polls[1..]))
  }

  lemma {:induction false} EndsInNewline(text: string)
    requires text != "" && text[|text| - 1] == '\n'
    ensures LastLine(text) == ""
    decreases |text|
  {
    if RestLines(text) != "" {
      EndsInNewline(RestLines(text));
    }
  }

  lemma EdgeIsClean(piece: string, rest: string)
    requires AtLineEdge(piece, rest)
    ensures CleanCut(piece, rest)
  {
    if piece != "" && piece[|piece| - 1] == '\n' {
      EndsInNewline(piece);
    }
  }

  /** Polls that see whole lines, or a last line missing only its newline, send every line exactly once. */
  lemma {:induction false} WholeLinesAreSentOnce(before: string, polls: Polls)
    requires Growing(before, polls) && AllAtLineEdges(before, polls)
    ensures UncleanCuts(before, polls) == 0
    ensures Sent(before, polls) == Tokens(Final(before, polls)[|before|..])
    decreases |polls|
  {
    SentExactly(before, polls);
    if polls != [] {
      var (piece, rest) := Cut(before, polls);
      EdgeIsClean(piece, rest);
      WholeLinesAreSentOnce(Known(before, polls[0]), polls[1..]);
    }
  }
}
