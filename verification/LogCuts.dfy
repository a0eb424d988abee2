/**
 The log pipeline under any polling: an entry reaches the monitor exactly if one single poll reads
 all of its line, and the source stays intact exactly if no entry is missing between two that arrive.
 */
module LogCuts {
  import opened Prelude
  import opened TextLines
  import opened LogTailer
  import opened AuditLog
  import opened ChainMonitor
  import opened LogPipeline

  // --- a text read at given lengths ---

  /** The lengths that a file had when it was looked at, in order; never none. */
  datatype Cuts = Final(q: nat) | Then(q: nat, rest: Cuts)

  /** The lengths never fall and never exceed `n`. */
  predicate Rising(cuts: Cuts, n: nat) {
    cuts.q <= n && (cuts.Then? ==> cuts.q <= cuts.rest.q && Rising(cuts.rest, n))
  }

  /** What the piece between two positions gives. */
  type Reader = (nat, nat) -> seq<string>

  /** What `t` makes of the pieces of a text; `Tokens` for the tailer. */
  function PiecesOf(t: string -> seq<string>, text: string): Reader {
    (a: nat, b: nat) => if a <= b <= |text| then t(text[a..b]) else []
  }

  function LinesIn(text: string): Reader {
    PiecesOf(Tokens, text)
  }

  /** `t` does not notice a cut right behind a newline. */
  ghost predicate Linewise(t: string -> seq<string>) {
    && t("") == []
    && forall a: string, b: string {:trigger t(a + b)} ::
         a != "" && a[|a| - 1] == '\n' ==> t(a + b) == t(a) + t(b)
  }

  lemma TokensAreLinewise()
    ensures Linewise(Tokens)
  {
    forall a: string, b: string | a != "" && a[|a| - 1] == '\n'
      ensures Tokens(a + b) == Tokens(a) + Tokens(b)
    {
      EndsInNewline(a);
      TokensOfTwoParts(a, b);
    }
  }

  /** What reading from each length to the next gives. */
  function ReadAt(f: Reader, cuts: Cuts): seq<string> {
    match cuts
    case Final(_) => []
    case Then(q, rest) => f(q, rest.q) + ReadAt(f, rest)
  }

  /** The length of the file as each poll knows it. */
  function Lengths(before: string, polls: Polls): (cuts: Cuts)
    ensures cuts.q == |before|
    decreases |polls|
  {
    if polls == [] then Cuts.Final(|before|)
    else Then(|before|, Lengths(LogTailer.Known(before, polls[0]), polls[1..]))
  }

  /** What the tailer sends of a file that only grows, in terms of the whole text and the lengths polled. */
  lemma {:induction false} SentIsReadAt(before: string, polls: Polls, all: string)
    requires Growing(before, polls) && LogTailer.Final(before, polls) <= all
    ensures Rising(Lengths(before, polls), |all|)
    ensures Sent(before, polls) == ReadAt(LinesIn(all), Lengths(before, polls))
    decreases |polls|
  {
    if polls != [] {
      var now := LogTailer.Known(before, polls[0]);
      SentIsReadAt(now, polls[1..], all);
      PieceOfPrefix(now, |before|, all);
    }
  }

  lemma PieceOfPrefix(now: string, a: nat, all: string)
    requires a <= |now| && now <= all
    ensures Tokens(now[a..]) == LinesIn(all)(a, |now|)
  {
    assert now[a..] == all[a..|now|];
  }

  // --- splitting at the start of a line ---

  function Min(a: nat, b: nat): nat {
    if a < b then a else b
  }

  /** The lengths as far as they lie before `p`. */
  function Low(cuts: Cuts, p: nat): (r: Cuts)
    ensures r.q == Min(cuts.q, p)
  {
    match cuts
    case Final(q) => Cuts.Final(Min(q, p))
    case Then(q, rest) => Then(Min(q, p), Low(rest, p))
  }

  /** The lengths as far as they lie behind `p`. */
  function High(cuts: Cuts, p: nat): (r: Cuts)
    ensures r.q == cuts.q - Min(cuts.q, p)
  {
    match cuts
    case Final(q) => Cuts.Final(q - Min(q, p))
    case Then(q, rest) => Then(q - Min(q, p), High(rest, p))
  }

  lemma {:induction false} LowHighRise(cuts: Cuts, n: nat, p: nat)
    requires Rising(cuts, n) && p <= n
    ensures Rising(Low(cuts, p), p) && Rising(High(cuts, p), n - p)
  {
    if cuts.Then? {
      LowHighRise(cuts.rest, n, p);
    }
  }

  /** Reading with `f` is, up to `n`, reading with `lo` before `p` and with `hi` behind it. */
  ghost predicate Parted(f: Reader, lo: Reader, hi: Reader, p: nat, n: nat) {
    && lo(p, p) == [] && hi(0, 0) == []
    && forall a: nat, b: nat | a <= b <= n :: f(a, b) == lo(Min(a, p), Min(b, p)) + hi(a - Min(a, p), b - Min(b, p))
  }

  lemma {:induction false} LowIsDone(lo: Reader, cuts: Cuts, n: nat, p: nat)
    requires Rising(cuts, n) && p <= cuts.q && lo(p, p) == []
    ensures ReadAt(lo, Low(cuts, p)) == []
  {
    if cuts.Then? {
      LowIsDone(lo, cuts.rest, n, p);
    }
  }

  lemma {:induction false} ReadSplit(f: Reader, lo: Reader, hi: Reader, p: nat, n: nat, cuts: Cuts)
    requires Parted(f, lo, hi, p, n) && Rising(cuts, n)
    ensures ReadAt(f, cuts) == ReadAt(lo, Low(cuts, p)) + ReadAt(hi, High(cuts, p))
  {
    match cuts
    case Final(_) =>
    case Then(a, rest) =>
      var b := rest.q;
      assert b <= n by {
        assert Rising(rest, n);
      }
      ReadSplit(f, lo, hi, p, n, rest);
      if p < b {
        LowIsDone(lo, rest, n, p);
      }
      Interleave(f(a, b), ReadAt(f, rest), lo(Min(a, p), Min(b, p)), hi(a - Min(a, p), b - Min(b, p)),
                 ReadAt(lo, Low(rest, p)), ReadAt(hi, High(rest, p)));
  }

  lemma Interleave(piece: seq<string>, rest: seq<string>, a: seq<string>, b: seq<string>,
                   c: seq<string>, d: seq<string>)
    requires piece == a + b && rest == c + d && (b == [] || c == [])
    ensures piece + rest == (a + c) + (b + d)
  {
  }

  /** `front` and `back` are what is before and behind a line start of `text`. */
  predicate Halves(text: string, front: string, back: string) {
    text == front + back && (front == "" || front[|front| - 1] == '\n')
  }

  lemma Slices(front: string, back: string, a: nat, b: nat)
    requires a <= b <= |front + back|
    ensures var p, s := |front|, (front + back)[a..b];
            s == if b <= p then front[a..b] else if p <= a then back[a - p..b - p] else front[a..p] + back[0..b - p]
  {
  }

  lemma NoLines(t: string -> seq<string>, text: string, a: nat)
    requires t("") == []
    ensures PiecesOf(t, text)(a, a) == []
  {
    if a <= |text| {
      assert text[a..a] == "";
    }
  }

  lemma PartedAt(t: string -> seq<string>, text: string, front: string, back: string, a: nat, b: nat)
    requires Linewise(t) && Halves(text, front, back) && a <= b <= |text|
    ensures var p := |front|;
            PiecesOf(t, text)(a, b) ==
            PiecesOf(t, front)(Min(a, p), Min(b, p)) + PiecesOf(t, back)(a - Min(a, p), b - Min(b, p))
  {
    var p := |front|;
    Slices(front, back, a, b);
    PieceIs(t, text, a, b);
    if b <= p {
      PieceIs(t, front, a, b);
      NoLines(t, back, 0);
    } else if p <= a {
      PieceIs(t, back, a - p, b - p);
      NoLines(t, front, p);
    } else {
      PieceIs(t, front, a, p);
      PieceIs(t, back, 0, b - p);
      Across(t, front[a..p], back[0..b - p]);
    }
  }

  lemma Across(t: string -> seq<string>, left: string, right: string)
    requires Linewise(t) && left != "" && left[|left| - 1] == '\n'
    ensures t(left + right) == t(left) + t(right)
  {
  }

  lemma PieceIs(t: string -> seq<string>, text: string, a: nat, b: nat)
    requires a <= b <= |text|
    ensures PiecesOf(t, text)(a, b) == t(text[a..b])
  {
  }

  lemma TextIsParted(t: string -> seq<string>, text: string, front: string, back: string)
    requires Linewise(t) && Halves(text, front, back)
    ensures Parted(PiecesOf(t, text), PiecesOf(t, front), PiecesOf(t, back), |front|, |text|)
  {
    NoLines(t, front, |front|);
    NoLines(t, back, 0);
    forall a: nat, b: nat | a <= b <= |text|
      ensures var p := |front|;
              PiecesOf(t, text)(a, b) ==
              PiecesOf(t, front)(Min(a, p), Min(b, p)) + PiecesOf(t, back)(a - Min(a, p), b - Min(b, p))
    {
      PartedAt(t, text, front, back, a, b);
    }
  }

  // --- one line ---

  /** No proper piece of a printed entry, trimmed, is itself an entry. */
  ghost predicate PiecesDoNotParse(c: Codec) {
    forall e: Entry, a: nat, b: nat | a <= b <= |c.render(e)| && b - a < |c.render(e)| ::
      c.parse(Trim(c.render(e)[a..b])) == None
  }

  /** One single step of the reading covers everything from `lo` to `hi`. */
  predicate CaughtWhole(cuts: Cuts, lo: nat, hi: nat) {
    cuts.Then? && ((cuts.q <= lo && hi <= cuts.rest.q) || CaughtWhole(cuts.rest, lo, hi))
  }

  lemma {:induction false} ParsingAppend(c: Codec, a: seq<string>, b: seq<string>)
    ensures Parsing(c, a + b) == Parsing(c, a) + Parsing(c, b)
  {
    if b == [] {
      assert a + b == a;
    } else {
      var init, last := b[..|b| - 1], b[|b| - 1];
      assert b == init + [last] && a + b == (a + init) + [last];
      ParsingAppend(c, a, init);
      ParsingPush(c, init, last);
      ParsingPush(c, a + init, last);
    }
  }

  lemma TokensOfPart(part: string)
    requires '\n' !in part
    ensures Tokens(part) == Token(part) && Tokens(part + "\n") == Token(part)
  {
    TokensWithinLine(part, "");
    NewlineIsNoToken(part);
  }

  lemma PieceText(line: string, a: nat, b: nat)
    requires a <= b <= |line| + 1
    ensures (line + "\n")[a..b] ==
            if |line| < a then "" else line[a..Min(b, |line|)] + if b == |line| + 1 then "\n" else ""
  {
    Slices(line, "\n", a, b);
    assert "\n"[0..1] == "\n" && "\n"[1..1] == "";
  }

  /** What the tailer makes of part of a line and of its newline. */
  lemma PieceOfLine(line: string, a: nat, b: nat)
    requires '\n' !in line && a <= b <= |line| + 1
    ensures LinesIn(line + "\n")(a, b) == if a <= |line| then Token(line[a..Min(b, |line|)]) else []
  {
    PieceText(line, a, b);
    PieceIs(Tokens, line + "\n", a, b);
    if a <= |line| {
      var part := line[a..Min(b, |line|)];
      assert part + "" == part;
      TokensOfPart(part);
    } else {
      assert Tokens("") == [];
    }
  }

  /** Only the whole line is an entry. */
  lemma PieceParses(c: Codec, e: Entry, a: nat, b: nat)
    requires c.Lawful() && PiecesDoNotParse(c) && a <= b <= |c.render(e)| + 1
    ensures var line := c.render(e);
            Parsing(c, LinesIn(line + "\n")(a, b)) == if a == 0 && |line| <= b then [line] else []
  {
    var line := c.render(e);
    PieceOfLine(line, a, b);
    ObjectLineIsTrimmed(line);
    if a == 0 && |line| <= b {
      assert line[0..|line|] == line;
      assert c.parse(line) == Some(e);
      ParsingPush(c, [], line);
    } else if a <= |line| {
      var part := line[a..Min(b, |line|)];
      assert c.parse(Trim(part)) == None;
      ParsingPush(c, [], Trim(part));
    }
    assert [] + [line] == [line];
  }

  lemma {:induction false} NotFromTheStart(cuts: Cuts, n: nat, hi: nat)
    requires Rising(cuts, n) && 0 < cuts.q
    ensures !CaughtWhole(cuts, 0, hi)
  {
    if cuts.Then? {
      NotFromTheStart(cuts.rest, n, hi);
    }
  }

  /** However a line is read, it gives its entry exactly if one step reads all of it. */
  lemma {:induction false} LineParses(c: Codec, e: Entry, cuts: Cuts)
    requires c.Lawful() && PiecesDoNotParse(c) && Rising(cuts, |c.render(e)| + 1)
    ensures var line := c.render(e);
            Parsing(c, ReadAt(LinesIn(line + "\n"), cuts)) == if CaughtWhole(cuts, 0, |line|) then [line] else []
  {
    if cuts.Then? {
      var line := c.render(e);
      assert Rising(cuts.rest, |line| + 1);
      LineParses(c, e, cuts.rest);
      PieceParses(c, e, cuts.q, cuts.rest.q);
      ParsingAppend(c, LinesIn(line + "\n")(cuts.q, cuts.rest.q), ReadAt(LinesIn(line + "\n"), cuts.rest));
      if cuts.q == 0 && |line| <= cuts.rest.q {
        NotFromTheStart(cuts.rest, |line| + 1, |line|);
      }
    }
  }

  // --- which lines are caught whole ---

  function LastLength(cuts: Cuts): nat {
    match cuts
    case Final(q) => q
    case Then(_, rest) => LastLength(rest)
  }

  /** Some poll found the file ending strictly between `lo` and `hi`. */
  predicate CutInside(cuts: Cuts, lo: nat, hi: nat) {
    lo < cuts.q < hi || (cuts.Then? && CutInside(cuts.rest, lo, hi))
  }

  lemma {:induction false} PastTheEnd(cuts: Cuts, n: nat, lo: nat, hi: nat)
    requires Rising(cuts, n) && hi <= cuts.q
    ensures !CutInside(cuts, lo, hi) && hi <= LastLength(cuts)
  {
    if cuts.Then? {
      PastTheEnd(cuts.rest, n, lo, hi);
    }
  }

  /** A line is caught whole exactly if it lies within what was read and no poll ended inside it. */
  lemma {:induction false} WholeUnlessCut(cuts: Cuts, n: nat, lo: nat, hi: nat)
    requires Rising(cuts, n) && lo < hi
    ensures CaughtWhole(cuts, lo, hi) <==> cuts.q <= lo && hi <= LastLength(cuts) && !CutInside(cuts, lo, hi)
  {
    if cuts.Then? {
      WholeUnlessCut(cuts.rest, n, lo, hi);
      if hi <= cuts.rest.q {
        PastTheEnd(cuts.rest, n, lo, hi);
      }
    }
  }

  lemma {:induction false} LowCatches(cuts: Cuts, p: nat, lo: nat, hi: nat)
    requires lo < p && hi <= p
    ensures CaughtWhole(Low(cuts, p), lo, hi) <==> CaughtWhole(cuts, lo, hi)
  {
    if cuts.Then? {
      LowCatches(cuts.rest, p, lo, hi);
    }
  }

  lemma {:induction false} HighCatches(cuts: Cuts, p: nat, n: nat)
    requires 0 < n
    ensures CaughtWhole(High(cuts, p), 0, n) <==> CaughtWhole(cuts, p, p + n)
  {
    if cuts.Then? {
      HighCatches(cuts.rest, p, n);
    }
  }

  // --- the whole log ---

  function LogText(c: Codec, log: seq<Entry>): string {
    Text(Printed(c, log))
  }

  /** One poll reads all of the line of entry `k`. */
  predicate Arrives(c: Codec, log: seq<Entry>, cuts: Cuts, k: nat)
    requires k < |log|
  {
    var start := |LogText(c, log[..k])|;
    CaughtWhole(cuts, start, start + |c.render(log[k])|)
  }

  /** The positions of the entries that arrive. */
  function Arriving(c: Codec, log: seq<Entry>, cuts: Cuts): seq<nat> {
    if log == [] then []
    else
      var n := |log| - 1;
      Arriving(c, log[..n], cuts) + if Arrives(c, log, cuts, n) then [n] else []
  }

  function ArrivingLines(c: Codec, log: seq<Entry>, cuts: Cuts): seq<string> {
    if log == [] then []
    else
      var n := |log| - 1;
      ArrivingLines(c, log[..n], cuts) + if Arrives(c, log, cuts, n) then [c.render(log[n])] else []
  }

  lemma {:induction false} LogTextEnds(lines: seq<string>)
    ensures Text(lines) == "" || Text(lines)[|Text(lines)| - 1] == '\n'
  {
    if lines != [] {
      LogTextEnds(lines[1..]);
    }
  }

  lemma LogTextSplit(c: Codec, init: seq<Entry>, e: Entry)
    ensures LogText(c, init + [e]) == LogText(c, init) + (c.render(e) + "\n")
    ensures Halves(LogText(c, init + [e]), LogText(c, init), c.render(e) + "\n")
  {
    FileGrows(c, init, e);
    LogTextEnds(Printed(c, init));
  }

  lemma {:induction false} ReadNothing(cuts: Cuts)
    requires Rising(cuts, 0)
    ensures ReadAt(LinesIn(""), cuts) == []
  {
    if cuts.Then? {
      ReadNothing(cuts.rest);
      NoLines(Tokens, "", 0);
    }
  }

  lemma ArrivingStep(c: Codec, init: seq<Entry>, e: Entry, cuts: Cuts)
    ensures var p, line := |LogText(c, init)|, c.render(e);
            ArrivingLines(c, init + [e], cuts) ==
            ArrivingLines(c, init, cuts) + if CaughtWhole(cuts, p, p + |line|) then [line] else []
  {
    assert (init + [e])[..|init|] == init;
  }

  lemma {:induction false} LowArrives(c: Codec, log: seq<Entry>, cuts: Cuts, p: nat)
    requires |LogText(c, log)| <= p
    ensures ArrivingLines(c, log, Low(cuts, p)) == ArrivingLines(c, log, cuts)
  {
    if log != [] {
      var init, e := log[..|log| - 1], log[|log| - 1];
      assert log == init + [e];
      LogTextSplit(c, init, e);
      LowArrives(c, init, cuts, p);
      var start := |LogText(c, init)|;
      LowCatches(cuts, p, start, start + |c.render(e)|);
    }
  }

  /** Whatever the polls, what the monitor can parse of a log are the lines caught whole, in order. */
  lemma {:induction false} LogParses(c: Codec, log: seq<Entry>, cuts: Cuts)
    requires c.Lawful() && PiecesDoNotParse(c) && Rising(cuts, |LogText(c, log)|)
    ensures Parsing(c, ReadAt(LinesIn(LogText(c, log)), cuts)) == ArrivingLines(c, log, cuts)
  {
    if log == [] {
      ReadNothing(cuts);
    } else {
      var init, e := log[..|log| - 1], log[|log| - 1];
      assert log == init + [e];
      var front := LogText(c, init);
      LogTextSplit(c, init, e);
      ParsingSplits(c, front, e, cuts);
      LogParses(c, init, Low(cuts, |front|));
      OneMoreLine(c, init, e, cuts, |front|);
    }
  }

  lemma OneMoreLine(c: Codec, init: seq<Entry>, e: Entry, cuts: Cuts, p: nat)
    requires p == |LogText(c, init)| && 0 < |c.render(e)|
    ensures ArrivingLines(c, init + [e], cuts) ==
            ArrivingLines(c, init, Low(cuts, p))
            + if CaughtWhole(High(cuts, p), 0, |c.render(e)|) then [c.render(e)] else []
  {
    LowArrives(c, init, cuts, p);
    HighCatches(cuts, p, |c.render(e)|);
    ArrivingStep(c, init, e, cuts);
  }

  /** A line and what is before it are read independently of each other. */
  lemma ParsingSplits(c: Codec, front: string, e: Entry, cuts: Cuts)
    requires c.Lawful() && PiecesDoNotParse(c)
    requires front == "" || front[|front| - 1] == '\n'
    requires Rising(cuts, |front + (c.render(e) + "\n")|)
    ensures Rising(Low(cuts, |front|), |front|)
    ensures Parsing(c, ReadAt(LinesIn(front + (c.render(e) + "\n")), cuts)) ==
            Parsing(c, ReadAt(LinesIn(front), Low(cuts, |front|)))
            + if CaughtWhole(High(cuts, |front|), 0, |c.render(e)|) then [c.render(e)] else []
  {
    var back := c.render(e) + "\n";
    LowHighRise(cuts, |front + back|, |front|);
    LineParses(c, e, High(cuts, |front|));
    ReadHalves(c, front, back, cuts);
  }

  lemma ReadHalves(c: Codec, front: string, back: string, cuts: Cuts)
    requires (front == "" || front[|front| - 1] == '\n') && Rising(cuts, |front + back|)
    ensures Parsing(c, ReadAt(LinesIn(front + back), cuts)) ==
            Parsing(c, ReadAt(LinesIn(front), Low(cuts, |front|)))
            + Parsing(c, ReadAt(LinesIn(back), High(cuts, |front|)))
  {
    var text := front + back;
    TokensAreLinewise();
    TextIsParted(Tokens, text, front, back);
    ReadSplit(LinesIn(text), LinesIn(front), LinesIn(back), |front|, |text|, cuts);
    ParsingAppend(c, ReadAt(LinesIn(front), Low(cuts, |front|)), ReadAt(LinesIn(back), High(cuts, |front|)));
  }

  // --- what the monitor sees ---

  predicate Increasing(ks: seq<nat>) {
    forall i, j :: 0 <= i < j < |ks| ==> ks[i] < ks[j]
  }

  lemma ArrivesInPrefix(c: Codec, log: seq<Entry>, cuts: Cuts, n: nat, k: nat)
    requires k < n <= |log|
    ensures Arrives(c, log[..n], cuts, k) == Arrives(c, log, cuts, k)
  {
    assert log[..n][..k] == log[..k];
  }

  /** The positions are exactly those of the entries that arrive. */
  lemma {:induction false} ArrivingIsExact(c: Codec, log: seq<Entry>, cuts: Cuts)
    ensures forall k: nat :: k in Arriving(c, log, cuts) <==> k < |log| && Arrives(c, log, cuts, k)
  {
    if log != [] {
      var n := |log| - 1;
      ArrivingIsExact(c, log[..n], cuts);
      forall k: nat | k < n
        ensures Arrives(c, log[..n], cuts, k) == Arrives(c, log, cuts, k)
      {
        ArrivesInPrefix(c, log, cuts, n, k);
      }
    }
  }

  /** They are in order, and the lines are theirs. */
  lemma {:induction false} ArrivingLinesQuote(c: Codec, log: seq<Entry>, cuts: Cuts)
    ensures var ks := Arriving(c, log, cuts);
            Increasing(ks) && Quotes(c, log, ks, ArrivingLines(c, log, cuts))
  {
    if log != [] {
      ArrivingLinesQuote(c, log[..|log| - 1], cuts);
    }
  }

  /** No entry that is missing lies between two that arrive. */
  ghost predicate NoHole(c: Codec, log: seq<Entry>, cuts: Cuts) {
    forall i, j, k :: 0 <= i < j < k < |log| && Arrives(c, log, cuts, i) && Arrives(c, log, cuts, k) ==>
      Arrives(c, log, cuts, j)
  }

  predicate NoGap(ks: seq<nat>) {
    forall i: nat, j: nat, k: nat | i < j < k :: i in ks && k in ks ==> j in ks
  }

  lemma {:induction false} StepsByOne(ks: seq<nat>, i: nat)
    requires Increasing(ks) && NoGap(ks) && i < |ks|
    ensures ks[i] == ks[0] + i
  {
    if i > 0 {
      StepsByOne(ks, i - 1);
      var next := ks[i - 1] + 1;
      if next < ks[i] {
        assert ks[i - 1] in ks && ks[i] in ks && next in ks;
        var m :| 0 <= m < |ks| && ks[m] == next;
      }
    }
  }

  lemma ContiguousExactlyIf(ks: seq<nat>)
    requires Increasing(ks)
    ensures Contiguous(ks) <==> NoGap(ks)
  {
    if NoGap(ks) {
      forall i | 0 <= i < |ks|
        ensures ks[i] == ks[0] + i
      {
        StepsByOne(ks, i);
      }
    }
    if Contiguous(ks) {
      forall i: nat, j: nat, k: nat | i < j < k && i in ks && k in ks
        ensures j in ks
      {
        assert j == ks[j - ks[0]];
      }
    }
  }

  /**
   The pipeline under any polling and any interleaving: the monitor receives exactly the entries whose lines
   one poll read whole, in order, and the source stays intact exactly if none is missing between two of them.
   */
  lemma LogArrivesExceptWhatIsCut(c: Codec, log: seq<Entry>, before: string, polls: Polls,
                                  h: seq<Event>, node: string, more: seq<Event>, s: SourceState)
    requires c.Lawful() && PiecesDoNotParse(c) && IsChain(c, log)
    requires Growing(before, polls) && LogTailer.Final(before, polls) <= LogText(c, log)
    requires forall i :: 0 <= i < |more| ==> more[i] != Connect(node)
    requires DeliveredBy(more, node) == Sent(before, polls)
    requires var all := h + [Connect(node)] + more;
             Reflects(c, s, Stream(c, all, node), Connected(all, node))
    ensures var cuts, all := Lengths(before, polls), h + [Connect(node)] + more;
            && Stream(c, all, node) == ArrivingLines(c, log, cuts)
            && (s.chainIntact <==> NoHole(c, log, cuts))
  {
    var cuts, all := Lengths(before, polls), h + [Connect(node)] + more;
    SentIsReadAt(before, polls, LogText(c, log));
    DeliveredIsTheStream(c, h, node, more);
    LogParses(c, log, cuts);
    IntactExactlyIf(c, log, cuts);
  }

  lemma {:induction false} LastPoll(before: string, polls: Polls)
    requires Growing(before, polls)
    ensures LastLength(Lengths(before, polls)) == |LogTailer.Final(before, polls)|
    decreases |polls|
  {
    if polls != [] {
      LastPoll(LogTailer.Known(before, polls[0]), polls[1..]);
    }
  }

  lemma CaughtUnlessCut(before: string, polls: Polls, lo: nat, hi: nat)
    requires Growing(before, polls) && lo < hi
    ensures CaughtWhole(Lengths(before, polls), lo, hi) <==>
            && |before| <= lo && hi <= |LogTailer.Final(before, polls)|
            && !CutInside(Lengths(before, polls), lo, hi)
  {
    var all := LogTailer.Final(before, polls);
    SentIsReadAt(before, polls, all);
    LastPoll(before, polls);
    WholeUnlessCut(Lengths(before, polls), |all|, lo, hi);
  }

  /** In terms of lengths alone: an entry arrives exactly if its line was appended while polling and no poll cut it. */
  lemma ArrivesUnlessCut(c: Codec, log: seq<Entry>, before: string, polls: Polls, k: nat, start: nat, end: nat)
    requires k < |log| && Growing(before, polls)
    requires start == |LogText(c, log[..k])| && end == start + |c.render(log[k])| && start < end
    ensures Arrives(c, log, Lengths(before, polls), k) <==>
            && |before| <= start && end <= |LogTailer.Final(before, polls)|
            && !CutInside(Lengths(before, polls), start, end)
  {
    CaughtUnlessCut(before, polls, start, end);
  }

  lemma IntactExactlyIf(c: Codec, log: seq<Entry>, cuts: Cuts)
    requires c.Lawful() && IsChain(c, log)
    ensures Breaks(c, ArrivingLines(c, log, cuts)) == 0 <==> NoHole(c, log, cuts)
  {
    var ks := Arriving(c, log, cuts);
    ArrivingIsExact(c, log, cuts);
    ArrivingLinesQuote(c, log, cuts);
    BreaksAreGaps(c, log, ks, ArrivingLines(c, log, cuts));
    NoGapIffContiguous(ks);
    ContiguousExactlyIf(ks);
    HolesAreGaps(c, log, cuts, ks);
  }

  lemma HolesAreGaps(c: Codec, log: seq<Entry>, cuts: Cuts, ks: seq<nat>)
    requires forall k: nat :: k in ks <==> k < |log| && Arrives(c, log, cuts, k)
    ensures NoHole(c, log, cuts) <==> NoGap(ks)
  {
  }
}
