/** Lines of text as `str::lines`, `BufRead::read_line` and `str::trim` see them; text is its bytes. */
module TextLines {
  predicate IsSpace(c: char) {
    c == ' ' || c == '\t' || c == '\n' || c == '\r' || c == 11 as char || c == 12 as char
  }

  predicate Blank(s: string) {
    forall i :: 0 <= i < |s| ==> IsSpace(s[i])
  }

  function Trim(s: string): string {
    if s == "" then ""
    else if IsSpace(s[0]) then Trim(s[1..])
    else if IsSpace(s[|s| - 1]) then Trim(s[..|s| - 1])
    else s
  }

  lemma {:induction false} TrimBlank(s: string)
    ensures Trim(s) == "" <==> Blank(s)
  {
    if s != "" {
      if IsSpace(s[0]) {
        TrimBlank(s[1..]);
      } else if IsSpace(s[|s| - 1]) {
        TrimBlank(s[..|s| - 1]);
      }
    }
  }

  /** Blank text around a line does not show in its trimmed form. */
  lemma {:induction false} TrimIgnoresBlankPrefix(a: string, b: string)
    requires Blank(a)
    ensures Trim(a + b) == Trim(b)
  {
    if a == "" {
      assert a + b == b;
    } else {
      TrimIgnoresBlankPrefix(a[1..], b);
      assert (a + b)[1..] == a[1..] + b;
    }
  }

  lemma {:induction false} TrimIgnoresBlankSuffix(a: string, b: string)
    requires Blank(b)
    ensures Trim(a + b) == Trim(a)
    decreases |a| + |b|
  {
    if b == "" {
      assert a + b == a;
    } else if a == "" {
      TrimBlank(a + b);
      assert a + b == b;
    } else if IsSpace(a[0]) {
      TrimIgnoresBlankSuffix(a[1..], b);
      assert (a + b)[1..] == a[1..] + b;
    } else {
      TrimIgnoresBlankSuffix(a, b[..|b| - 1]);
      assert (a + b)[..|a + b| - 1] == a + b[..|b| - 1];
    }
  }

  /** Where the first line ends: its newline, or the end of the text. */
  function LineEnd(text: string): (i: nat)
    ensures i <= |text| && '\n' !in text[..i] && (i < |text| ==> text[i] == '\n')
  {
    if text == "" || text[0] == '\n' then 0
    else
      var i := LineEnd(text[1..]) + 1;
      assert text[..i] == [text[0]] + text[1..][..i - 1];
      i
  }

  function FirstLine(text: string): string {
    text[..LineEnd(text)]
  }

  function RestLines(text: string): (r: string)
    ensures text != "" ==> |r| < |text|
  {
    if LineEnd(text) < |text| then text[LineEnd(text) + 1..] else ""
  }

  /** `str::lines` drops a carriage return only where a newline follows it. */
  function Chomped(text: string): string
    requires text != ""
  {
    var i := LineEnd(text);
    if 0 < i < |text| && text[i - 1] == '\r' then text[..i - 1] else text[..i]
  }

  /** `content.lines()`. */
  function Lines(text: string): seq<string>
    decreases |text|
  {
    if text == "" then [] else [Chomped(text)] + Lines(RestLines(text))
  }

  /** A line as the tailer keeps it: trimmed, and dropped if blank. */
  function Token(line: string): seq<string> {
    if Trim(line) == "" then [] else [Trim(line)]
  }

  /** The trimmed non-blank lines of a text. */
  function Tokens(text: string): seq<string>
    decreases |text|
  {
    if text == "" then [] else Token(FirstLine(text)) + Tokens(RestLines(text))
  }

  /** The text of a file of whole lines. */
  function Text(lines: seq<string>): string {
    if lines == [] then "" else lines[0] + "\n" + Text(lines[1..])
  }

  lemma LineEndIs(text: string, i: nat)
    requires i < |text| && text[i] == '\n' && '\n' !in text[..i]
    ensures LineEnd(text) == i
  {
    var j := LineEnd(text);
    assert forall k :: 0 <= k < i ==> text[..i][k] == text[k];
    assert forall k :: 0 <= k < j ==> text[..j][k] == text[k];
  }

  lemma SplitFirstLine(line: string, rest: string)
    requires '\n' !in line
    ensures FirstLine(line + "\n" + rest) == line && RestLines(line + "\n" + rest) == rest
  {
    var text := line + "\n" + rest;
    assert text[..|line|] == line;
    LineEndIs(text, |line|);
  }

  /** Splitting undoes joining. */
  lemma {:induction false} LinesOfText(lines: seq<string>)
    requires forall l :: l in lines ==> '\n' !in l && (l != "" ==> l[|l| - 1] != '\r')
    ensures Lines(Text(lines)) == lines
  {
    if lines != [] {
      SplitFirstLine(lines[0], Text(lines[1..]));
      assert Chomped(Text(lines)) == lines[0];
      LinesOfText(lines[1..]);
    }
  }

  lemma {:induction false} TextAppend(a: seq<string>, b: seq<string>)
    ensures Text(a + b) == Text(a) + Text(b)
  {
    if a == [] {
      assert a + b == b;
    } else {
      calc {
        Text(a + b);
        { assert (a + b)[0] == a[0] && (a + b)[1..] == a[1..] + b; }
        a[0] + "\n" + Text(a[1..] + b);
        { TextAppend(a[1..], b); }
        a[0] + "\n" + (Text(a[1..]) + Text(b));
        Text(a) + Text(b);
      }
    }
  }

  /** Lines that are their own trimmed form come back exactly. */
  lemma {:induction false} TokensOfText(lines: seq<string>)
    requires forall l :: l in lines ==> '\n' !in l && l != "" && Trim(l) == l
    ensures Tokens(Text(lines)) == lines
  {
    if lines != [] {
      SplitFirstLine(lines[0], Text(lines[1..]));
      TokensOfText(lines[1..]);
    }
  }

  // --- reading a text in two parts ---

  /** What follows the last newline. */
  function LastLine(text: string): string
    decreases |text|
  {
    if LineEnd(text) == |text| then text else LastLine(RestLines(text))
  }

  /** The cut between `a` and `b` does not run through the trimmed part of a line. */
  predicate CleanCut(a: string, b: string) {
    Blank(LastLine(a)) || Blank(FirstLine(b))
  }

  lemma JoinWithinLine(a: string, b: string)
    requires '\n' !in a
    ensures FirstLine(a + b) == a + FirstLine(b) && RestLines(a + b) == RestLines(b)
  {
    var i := LineEnd(b);
    var text := a + b;
    assert text[..|a| + i] == a + b[..i];
    if i < |b| {
      LineEndIs(text, |a| + i);
      assert text[|a| + i + 1..] == b[i + 1..];
    } else {
      assert b[..i] == b;
      assert '\n' !in text;
    }
  }

  /** One cut inside a line: the joined line is one token, which the two halves give once or twice. */
  lemma TokensOfHalves(a: string, b: string)
    ensures Joins(Token(a), Token(b), Token(a + b), Blank(a) || Blank(b))
  {
    TrimBlank(a);
    TrimBlank(b);
    if Blank(a) {
      TrimIgnoresBlankPrefix(a, b);
    } else if Blank(b) {
      TrimIgnoresBlankSuffix(a, b);
    } else {
      var i :| 0 <= i < |a| && !IsSpace(a[i]);
      assert (a + b)[i] == a[i];
      TrimBlank(a + b);
    }
  }

  lemma TokensSplit(text: string)
    ensures Tokens(text) == Token(FirstLine(text)) + Tokens(RestLines(text))
  {
  }

  lemma TokensWithinLine(a: string, b: string)
    requires '\n' !in a
    ensures Tokens(a) == Token(a)
    ensures Tokens(a + b) == Token(a + FirstLine(b)) + Tokens(RestLines(b))
  {
    JoinWithinLine(a, b);
    TokensSplit(a + b);
    TokensSplit(a);
    JoinWithinLine(a, "");
    assert a + "" == a;
  }

  /** `whole` is what `left` then `right` give when read in one go, or in two with an unclean cut between. */
  predicate Joins(left: seq<string>, right: seq<string>, whole: seq<string>, clean: bool) {
    |left| + |right| == |whole| + (if clean then 0 else 1) && (clean ==> whole == left + right)
  }

  lemma JoinsPrepend(before: seq<string>, left: seq<string>, right: seq<string>, whole: seq<string>, clean: bool)
    requires Joins(left, right, whole, clean)
    ensures Joins(before + left, right, before + whole, clean)
  {
    assert before + (left + right) == before + left + right;
  }

  lemma JoinsAppend(left: seq<string>, right: seq<string>, whole: seq<string>, clean: bool, after: seq<string>)
    requires Joins(left, right, whole, clean)
    ensures Joins(left, right + after, whole + after, clean)
  {
    assert left + (right + after) == left + right + after;
  }

  /** Reading across one cut: the tokens are the same exactly if the cut is clean, and else one too many. */
  lemma {:induction false} TokensOfTwoParts(a: string, b: string)
    ensures Joins(Tokens(a), Tokens(b), Tokens(a + b), CleanCut(a, b))
    decreases |a|
  {
    if LineEnd(a) < |a| {
      TokensOfTwoParts(RestLines(a), b);
      TokensAfterLine(a, b);
      JoinsPrepend(Token(FirstLine(a)), Tokens(RestLines(a)), Tokens(b), Tokens(RestLines(a) + b), CleanCut(a, b));
    } else {
      assert a[..|a|] == a;
      TokensWithinLine(a, b);
      TokensSplit(b);
      var first := FirstLine(b);
      TokensOfHalves(a, first);
      JoinsAppend(Token(a), Token(first), Token(a + first), CleanCut(a, b), Tokens(RestLines(b)));
    }
  }

  lemma TokensAfterLine(a: string, b: string)
    requires LineEnd(a) < |a|
    ensures Tokens(a) == Token(FirstLine(a)) + Tokens(RestLines(a))
    ensures Tokens(a + b) == Token(FirstLine(a)) + Tokens(RestLines(a) + b)
  {
    var line, rest := FirstLine(a), RestLines(a);
    assert a + b == line + "\n" + (rest + b);
    SplitFirstLine(line, rest + b);
    TokensSplit(a + b);
  }

  /** Trimming takes blanks off both ends, and all of them. */
  lemma {:induction false} TrimIsTheMiddle(s: string) returns (before: string, after: string)
    ensures s == before + Trim(s) + after && Blank(before) && Blank(after)
    ensures Trim(s) != "" ==> !IsSpace(Trim(s)[0]) && !IsSpace(Trim(s)[|Trim(s)| - 1])
  {
    before, after := "", "";
    if s == "" {
    } else if IsSpace(s[0]) {
      before, after := TrimIsTheMiddle(s[1..]);
      Regroup3([s[0]], before, Trim(s), after);
      before := [s[0]] + before;
    } else if IsSpace(s[|s| - 1]) {
      var n := |s| - 1;
      before, after := TrimIsTheMiddle(s[..n]);
      assert s == s[..n] + [s[n]];
      assert s == before + Trim(s) + (after + [s[n]]);
      after := after + [s[n]];
    }
  }

  lemma Regroup3(a: string, b: string, c: string, d: string)
    ensures a + (b + c + d) == (a + b) + c + d
  {
  }

  lemma SpacesAre(c: char)
    ensures IsSpace(c) <==> c == ' ' || 9 <= c as int <= 13
  {
  }

  /** A carriage return in front of the newline is not part of the line; at the end of the text it is. */
  lemma CarriageReturnsAreDropped(line: string, rest: string)
    requires '\n' !in line
    ensures Lines(line + "\r" + "\n" + rest) == [line] + Lines(rest)
    ensures Lines(line + "\r") == [line + "\r"]
  {
    var text := line + "\r" + "\n" + rest;
    SplitFirstLine(line + "\r", rest);
    assert text[..|line|] == line && text[|line|] == '\r';
    var last := line + "\r";
    assert last[..|last|] == last;
    assert Lines(last) == [last] + Lines("");
  }
}
