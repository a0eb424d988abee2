/** The `details` line of a verification result: how `verify_attestation` prints it and the audit log reads it back. */
module DetailText {
  import opened Prelude

  // --- decimal and hexadecimal text ---

  predicate IsDigit(c: char) {
    '0' <= c <= '9'
  }

  predicate AllDigits(s: string) {
    forall i :: 0 <= i < |s| ==> IsDigit(s[i])
  }

  function Dec(n: nat): string {
    if n < 10 then ['0' + n as char] else Dec(n / 10) + ['0' + (n % 10) as char]
  }

  function Value(s: string): nat
    requires AllDigits(s)
  {
    if s == "" then 0 else Value(s[..|s| - 1]) * 10 + (s[|s| - 1] - '0') as nat
  }

  lemma {:induction false} DecReadsBack(n: nat)
    ensures Dec(n) != "" && AllDigits(Dec(n)) && Value(Dec(n)) == n
  {
    if n >= 10 {
      DecReadsBack(n / 10);
      assert Dec(n)[..|Dec(n)| - 1] == Dec(n / 10);
    }
  }

  function HexDigit(d: nat): char
    requires d < 16
  {
    if d < 10 then '0' + d as char else 'a' + (d - 10) as char
  }

  function Hex(bytes: seq<Octet>): string {
    if bytes == [] then "" else [HexDigit(bytes[0] / 16), HexDigit(bytes[0] % 16)] + Hex(bytes[1..])
  }

  /** The value of a hexadecimal digit. */
  function DigitValue(c: char): nat {
    if IsDigit(c) then (c - '0') as nat else if 'a' <= c <= 'f' then (c - 'a') as nat + 10 else 0
  }

  /** Two lower-case digits per byte, the high one first. */
  lemma {:induction false} HexReadsBack(bytes: seq<Octet>, i: nat)
    requires i < |bytes|
    ensures |Hex(bytes)| == 2 * |bytes|
    ensures DigitValue(Hex(bytes)[2 * i]) * 16 + DigitValue(Hex(bytes)[2 * i + 1]) == bytes[i]
  {
    HexLength(bytes);
    if i > 0 {
      HexReadsBack(bytes[1..], i - 1);
    }
  }

  lemma {:induction false} HexLength(bytes: seq<Octet>)
    ensures |Hex(bytes)| == 2 * |bytes|
  {
    if bytes != [] {
      HexLength(bytes[1..]);
    }
  }

  predicate HexText(s: string) {
    forall i :: 0 <= i < |s| ==> IsDigit(s[i]) || 'a' <= s[i] <= 'f'
  }

  lemma {:induction false} HexIsHexText(bytes: seq<Octet>)
    ensures HexText(Hex(bytes))
  {
    if bytes != [] {
      HexIsHexText(bytes[1..]);
    }
  }

  /** `str::parse` for an unsigned integer below `bound`. */
  function ParseUnsigned(s: string, bound: nat): Option<nat> {
    var digits := if |s| > 1 && s[0] == '+' then s[1..] else s;
    if digits != "" && AllDigits(digits) && Value(digits) < bound then Some(Value(digits)) else None
  }

  /** `str::parse::<i64>`. */
  function ParseSigned(s: string): Option<int> {
    if |s| > 1 && s[0] == '-' then
      if AllDigits(s[1..]) && Value(s[1..]) <= TWO_63 then
        var n: int := Value(s[1..]);
        Option<int>.Some(-n)
      else None
    else
      match ParseUnsigned(s, TWO_63)
      case None => None
      case Some(n) => Option<int>.Some(n)
  }

  lemma PositiveReadsBack(n: nat)
    requires n < TWO_63
    ensures ParseSigned(Dec(n)).Some? && ParseSigned(Dec(n)).value == n
  {
    DecReadsBack(n);
    assert IsDigit(Dec(n)[0]);
  }

  lemma NegativeReadsBack(n: nat)
    requires n <= TWO_63
    ensures var r := ParseSigned(['-'] + Dec(n));
            r.Some? && r.value + n == 0
  {
    DecReadsBack(n);
    assert (['-'] + Dec(n))[1..] == Dec(n);
  }

  // --- searching ---

  /** The text after the first occurrence of `pat`. */
  function After(s: string, pat: string): (r: Option<string>)
    ensures r.Some? ==> |r.value| + |pat| <= |s|
  {
    if pat <= s then Some(s[|pat|..]) else if s == "" then None else After(s[1..], pat)
  }

  lemma {:induction false} AfterSkips(a: string, b: string, pat: string)
    requires pat != "" && pat[0] !in a
    ensures After(a + b, pat) == After(b, pat)
  {
    if a == "" {
      assert a + b == b;
    } else {
      assert (a + b)[0] == a[0] && (a + b)[1..] == a[1..] + b;
      AfterSkips(a[1..], b, pat);
    }
  }

  lemma AfterFinds(pat: string, b: string)
    ensures After(pat + b, pat) == Some(b)
  {
  }

  /** How many leading characters may belong to a number. */
  function NumberRun(s: string, minus: bool): (n: nat)
    ensures n <= |s|
  {
    if s != "" && (IsDigit(s[0]) || (minus && s[0] == '-')) then 1 + NumberRun(s[1..], minus) else 0
  }

  predicate StopsNumber(s: string) {
    s == "" || (!IsDigit(s[0]) && s[0] != '-')
  }

  lemma {:induction false} NumberRunOfDigits(a: string, b: string, minus: bool)
    requires AllDigits(a) && StopsNumber(b)
    ensures NumberRun(a + b, minus) == |a|
  {
    if a == "" {
      assert a + b == b;
    } else {
      assert (a + b)[0] == a[0] && (a + b)[1..] == a[1..] + b;
      NumberRunOfDigits(a[1..], b, minus);
    }
  }

  // --- printing ---

  datatype Pcr = Pcr(index: Octet, value: seq<Octet>)

  /** The baseline's first value for an index. */
  function Expected(baseline: seq<Pcr>, index: Octet): Option<seq<Octet>> {
    if baseline == [] then None
    else if baseline[0].index == index then Some(baseline[0].value)
    else Expected(baseline[1..], index)
  }

  predicate Differs(baseline: seq<Pcr>, p: Pcr) {
    var e := Expected(baseline, p.index);
    e.Some? && e.value != p.value
  }

  /** The indices, in the order of the quote, whose values differ from the baseline. */
  function Differing(quote: seq<Pcr>, baseline: seq<Pcr>): seq<nat> {
    if quote == [] then []
    else (if Differs(baseline, quote[0]) then [quote[0].index as nat] else []) + Differing(quote[1..], baseline)
  }

  function MismatchTail(expected: string, got: string): string {
    " MISMATCH: expected=" + (expected + (" got=" + got))
  }

  function MismatchText(index: nat, expected: string, got: string): string {
    "PCR" + (Dec(index) + MismatchTail(expected, got))
  }

  function MismatchItems(quote: seq<Pcr>, baseline: seq<Pcr>): seq<string> {
    if quote == [] then []
    else
      var p := quote[0];
      (if Differs(baseline, p)
       then [MismatchText(p.index, Hex(Expected(baseline, p.index).value), Hex(p.value))] else [])
      + MismatchItems(quote[1..], baseline)
  }

  function PcrItems(quote: seq<Pcr>, baseline: seq<Pcr>): seq<string> {
    MismatchItems(quote, baseline) + if Differing(quote, baseline) == [] then [Dec(|quote|) + " PCRs match"] else []
  }

  /** The PCR part of `verify_attestation`. */
  method VerifyPcrs(quote: seq<Pcr>, baseline: seq<Pcr>) returns (pcrMatch: bool, details: seq<string>)
    ensures pcrMatch <==>
              forall i, j :: 0 <= i < |quote| && 0 <= j < |baseline| ==> !MismatchAt(quote, baseline, i, j)
    ensures details == PcrItems(quote, baseline)
  {
    pcrMatch, details := true, [];
    for k := 0 to |quote|
      invariant details + MismatchItems(quote[k..], baseline) == MismatchItems(quote, baseline)
      invariant pcrMatch <==> forall i :: 0 <= i < k ==> !Differs(baseline, quote[i])
    {
      assert quote[k..][1..] == quote[k + 1..] && quote[k..][0] == quote[k];
      var actual := quote[k];
      var expected := Expected(baseline, actual.index);
      ghost var rest := MismatchItems(quote[k + 1..], baseline);
      if expected.Some? && actual.value != expected.value {
        pcrMatch := false;
        var item := MismatchText(actual.index, Hex(expected.value), Hex(actual.value));
        Regroup(details, [item], rest);
        details := details + [item];
      } else {
        assert [] + rest == rest;
      }
    }
    assert details == MismatchItems(quote, baseline);
    NoneDiffer(quote, baseline);
    forall i | 0 <= i < |quote|
      ensures Differs(baseline, quote[i]) <==> exists j :: 0 <= j < |baseline| && MismatchAt(quote, baseline, i, j)
    {
      DiffersExactlyIf(quote, baseline, i);
    }
    if pcrMatch {
      details := details + [Dec(|quote|) + " PCRs match"];
    }
  }

  /** Of the baseline's entries with the index of `quote[i]` the first is number `j`, and its value is another one. */
  predicate MismatchAt(quote: seq<Pcr>, baseline: seq<Pcr>, i: nat, j: nat)
    requires i < |quote| && j < |baseline|
  {
    && baseline[j].index == quote[i].index
    && (forall k :: 0 <= k < j ==> baseline[k].index != quote[i].index)
    && baseline[j].value != quote[i].value
  }

  lemma {:induction false} ExpectedIsTheFirst(baseline: seq<Pcr>, index: Octet, j: nat)
    requires j < |baseline| && baseline[j].index == index && forall k :: 0 <= k < j ==> baseline[k].index != index
    ensures Expected(baseline, index) == Some(baseline[j].value)
  {
    if j > 0 {
      ExpectedIsTheFirst(baseline[1..], index, j - 1);
    }
  }

  lemma {:induction false} FirstExpected(baseline: seq<Pcr>, index: Octet) returns (j: nat)
    requires Expected(baseline, index).Some?
    ensures j < |baseline| && baseline[j].index == index && forall k :: 0 <= k < j ==> baseline[k].index != index
  {
    if baseline[0].index == index {
      j := 0;
    } else {
      j := FirstExpected(baseline[1..], index);
      j := j + 1;
    }
  }

  /** Differing means what it says, by position. */
  lemma DiffersExactlyIf(quote: seq<Pcr>, baseline: seq<Pcr>, i: nat)
    requires i < |quote|
    ensures Differs(baseline, quote[i]) <==> exists j :: 0 <= j < |baseline| && MismatchAt(quote, baseline, i, j)
  {
    var index := quote[i].index;
    if Differs(baseline, quote[i]) {
      var j := FirstExpected(baseline, index);
      ExpectedIsTheFirst(baseline, index, j);
      assert MismatchAt(quote, baseline, i, j);
    }
    if j :| 0 <= j < |baseline| && MismatchAt(quote, baseline, i, j) {
      ExpectedIsTheFirst(baseline, index, j);
    }
  }

  /** What one quoted value adds to the indices and to the details: nothing, or its index and both values. */
  lemma OneQuoted(baseline: seq<Pcr>, p: Pcr)
    ensures if j :| 0 <= j < |baseline| && MismatchAt([p], baseline, 0, j) then
              && Differing([p], baseline) == [p.index as nat]
              && MismatchItems([p], baseline) == [MismatchText(p.index, Hex(baseline[j].value), Hex(p.value))]
            else
              Differing([p], baseline) == [] && MismatchItems([p], baseline) == []
  {
    DiffersExactlyIf([p], baseline, 0);
    if j :| 0 <= j < |baseline| && MismatchAt([p], baseline, 0, j) {
      ExpectedIsTheFirst(baseline, p.index, j);
    }
  }

  /** A quote in two parts adds what the first part adds and then what the second does. */
  lemma QuotedInOrder(a: seq<Pcr>, b: seq<Pcr>, baseline: seq<Pcr>)
    ensures Differing(a + b, baseline) == Differing(a, baseline) + Differing(b, baseline)
    ensures MismatchItems(a + b, baseline) == MismatchItems(a, baseline) + MismatchItems(b, baseline)
  {
    IndicesInOrder(a, b, baseline);
    ItemsInOrder(a, b, baseline);
  }

  lemma {:induction false} IndicesInOrder(a: seq<Pcr>, b: seq<Pcr>, baseline: seq<Pcr>)
    ensures Differing(a + b, baseline) == Differing(a, baseline) + Differing(b, baseline)
  {
    if a == [] {
      assert a + b == b;
    } else {
      assert (a + b)[0] == a[0] && (a + b)[1..] == a[1..] + b;
      IndicesInOrder(a[1..], b, baseline);
    }
  }

  lemma {:induction false} ItemsInOrder(a: seq<Pcr>, b: seq<Pcr>, baseline: seq<Pcr>)
    ensures MismatchItems(a + b, baseline) == MismatchItems(a, baseline) + MismatchItems(b, baseline)
  {
    if a == [] {
      assert a + b == b;
    } else {
      assert (a + b)[0] == a[0] && (a + b)[1..] == a[1..] + b;
      ItemsInOrder(a[1..], b, baseline);
    }
  }

  lemma {:induction false} NoneDiffer(quote: seq<Pcr>, baseline: seq<Pcr>)
    ensures Differing(quote, baseline) == [] <==> forall i :: 0 <= i < |quote| ==> !Differs(baseline, quote[i])
  {
    if quote != [] {
      NoneDiffer(quote[1..], baseline);
      assert forall i :: 0 < i < |quote| ==> quote[i] == quote[1..][i - 1];
    }
  }

  /** `details.join("; ")`. */
  function Join(items: seq<string>): string {
    if items == [] then "" else if |items| == 1 then items[0] else items[0] + "; " + Join(items[1..])
  }

  // --- reading the mismatches back ---

  function SpaceAt(s: string): (i: nat)
    ensures i <= |s| && (i < |s| ==> s[i] == ' ')
  {
    if s == "" || s[0] == ' ' then 0 else 1 + SpaceAt(s[1..])
  }

  /** What the parser takes from the text after one `PCR`. */
  function Hit(rest: string): seq<nat> {
    var space := SpaceAt(rest);
    if space < |rest| && ParseUnsigned(rest[..space], 256).Some? && " MISMATCH" <= rest[space..]
    then [ParseUnsigned(rest[..space], 256).value] else []
  }

  /** What the parser takes from a whole text. */
  function Scan(s: string): seq<nat> {
    if s == "" then [] else if "PCR" <= s then Hit(s[3..]) + Scan(s[3..]) else Scan(s[1..])
  }

  lemma {:induction false} ScanFromAfter(s: string)
    ensures var r := After(s, "PCR");
            Scan(s) == if r.None? then [] else Hit(r.value) + Scan(r.value)
  {
    if s != "" && !("PCR" <= s) {
      var t := s[1..];
      ScanFromAfter(t);
      assert After(s, "PCR") == After(t, "PCR") && Scan(s) == Scan(t);
    }
  }

  method ParsePcrMismatches(details: string) returns (indices: seq<nat>)
    ensures indices == Scan(details)
  {
    indices := [];
    var search := details;
    while true
      invariant indices + Scan(search) == Scan(details)
      decreases |search|
    {
      ScanFromAfter(search);
      var found := After(search, "PCR");
      if found.None? {
        break;
      }
      var rest := found.value;
      Regroup(indices, Hit(rest), Scan(rest));
      indices := indices + Hit(rest);
      if rest == "" {
        break;
      }
      search := rest;
    }
  }

  lemma {:induction false} ScanSkips(a: string, b: string)
    requires 'P' !in a
    ensures Scan(a + b) == Scan(b)
  {
    if a == "" {
      assert a + b == b;
    } else {
      assert (a + b)[0] == a[0] && (a + b)[1..] == a[1..] + b;
      ScanSkips(a[1..], b);
    }
  }

  lemma ScanAfterPcr(b: string)
    ensures Scan("PCR" + b) == Hit(b) + Scan(b)
  {
    assert ("PCR" + b)[3..] == b;
  }

  lemma {:induction false} FirstSpace(s: string, k: nat)
    requires k < |s| && s[k] == ' ' && forall i :: 0 <= i < k ==> s[i] != ' '
    ensures SpaceAt(s) == k
  {
    if k > 0 {
      FirstSpace(s[1..], k - 1);
    }
  }

  lemma HitOnMismatch(index: Octet, tail: string)
    requires " MISMATCH" <= tail
    ensures Hit(Dec(index) + tail) == [index as nat]
  {
    var digits := Dec(index);
    DecReadsBack(index);
    var rest := digits + tail;
    assert rest[..|digits|] == digits && rest[|digits|..] == tail;
    assert tail[0] == ' ';
    FirstSpace(rest, |digits|);
  }

  lemma TailMarksMismatch(expected: string, got: string)
    requires HexText(expected) && HexText(got)
    ensures 'P' !in MismatchTail(expected, got) && '/' !in MismatchTail(expected, got)
    ensures " MISMATCH" <= MismatchTail(expected, got)
  {
    var more := expected + (" got=" + got);
    assert 'P' !in more && '/' !in more;
    assert " MISMATCH" <= " MISMATCH: expected=";
  }

  /** One printed mismatch gives back its index, whatever follows. */
  lemma ScanMismatch(index: Octet, expected: string, got: string, b: string)
    requires HexText(expected) && HexText(got)
    ensures Scan(MismatchText(index, expected, got) + b) == [index as nat] + Scan(b)
  {
    TailMarksMismatch(expected, got);
    ScanTail(index, MismatchTail(expected, got), b);
  }

  lemma ScanBody(body: string, b: string)
    requires 'P' !in body
    ensures Scan("PCR" + body + b) == Hit(body + b) + Scan(b)
  {
    Regroup("PCR", body, b);
    ScanAfterPcr(body + b);
    ScanSkips(body, b);
  }

  lemma ScanTail(index: Octet, tail: string, b: string)
    requires 'P' !in tail && " MISMATCH" <= tail
    ensures Scan("PCR" + (Dec(index) + tail) + b) == [index as nat] + Scan(b)
  {
    var digits := Dec(index);
    DecReadsBack(index);
    ScanBody(digits + tail, b);
    Regroup(digits, tail, b);
    PrefixStays(" MISMATCH", tail, b);
    HitOnMismatch(index, tail + b);
  }

  lemma PrefixStays(pat: string, a: string, b: string)
    requires pat <= a
    ensures pat <= a + b
  {
  }

  lemma ScanNoHit(lead: string, body: string, b: string)
    requires 'P' !in lead && 'P' !in body && |body| > 1 && body[0] == 's' && body[1] == ' '
    ensures Scan(lead + ("PCR" + body + b)) == Scan(b)
  {
    ScanSkips(lead, "PCR" + body + b);
    ScanBody(body, b);
    NoHitOnMatch(body + b);
  }

  lemma ScanMatchCount(n: nat, b: string)
    ensures Scan(Dec(n) + " PCRs match" + b) == Scan(b)
  {
    DecReadsBack(n);
    MatchCountText(Dec(n), b);
    ScanNoHit(Dec(n) + " ", "s match", b);
  }

  lemma MatchCountText(digits: string, b: string)
    ensures digits + " PCRs match" + b == digits + " " + ("PCR" + "s match" + b)
  {
  }

  lemma NoHitOnMatch(rest: string)
    requires |rest| > 1 && rest[0] == 's' && rest[1] == ' '
    ensures Hit(rest) == []
  {
    FirstSpace(rest, 1);
    assert rest[..1][0] == 's';
  }

  lemma JoinCons(item: string, items: seq<string>)
    requires items != []
    ensures Join([item] + items) == item + ("; " + Join(items))
  {
    assert ([item] + items)[1..] == items;
  }

  /** One more printed mismatch in front of a list of details. */
  lemma ScanMismatchItem(p: Pcr, expected: seq<Octet>, more: seq<string>)
    requires more != []
    ensures Scan(Join([MismatchText(p.index, Hex(expected), Hex(p.value))] + more))
            == [p.index as nat] + Scan(Join(more))
  {
    var item := MismatchText(p.index, Hex(expected), Hex(p.value));
    JoinCons(item, more);
    HexIsHexText(expected);
    HexIsHexText(p.value);
    ScanMismatch(p.index, Hex(expected), Hex(p.value), "; " + Join(more));
    ScanSkips("; ", Join(more));
  }

  lemma {:induction false} ScanMismatchItems(quote: seq<Pcr>, baseline: seq<Pcr>, tail: seq<string>)
    requires tail != []
    ensures Scan(Join(MismatchItems(quote, baseline) + tail)) == Differing(quote, baseline) + Scan(Join(tail))
  {
    if quote == [] {
      assert [] + tail == tail;
    } else {
      ScanMismatchItems(quote[1..], baseline, tail);
      var p, rest := quote[0], MismatchItems(quote[1..], baseline);
      if Differs(baseline, p) {
        var expected := Expected(baseline, p.index).value;
        ScanMismatchItem(p, expected, rest + tail);
        Regroup([MismatchText(p.index, Hex(expected), Hex(p.value))], rest, tail);
        Regroup([p.index as nat], Differing(quote[1..], baseline), Scan(Join(tail)));
      } else {
        assert [] + rest == rest;
        assert [] + Differing(quote[1..], baseline) == Differing(quote[1..], baseline);
      }
    }
  }

  // --- what makes the parser see a mismatch ---

  /** The text starts with a mismatch marker whose index ends at `j`: `PCR`, a number below 256, ` MISMATCH`. */
  predicate MarkerUpTo(t: string, j: nat) {
    && 3 <= j < |t| && "PCR" <= t
    && (forall k :: 3 <= k < j ==> t[k] != ' ')
    && ParseUnsigned(t[3..j], 256).Some?
    && " MISMATCH" <= t[j..]
  }

  ghost predicate StartsWithMarker(t: string) {
    exists j: nat :: MarkerUpTo(t, j)
  }

  /** Somewhere in the text there is a mismatch marker. */
  ghost predicate HasMarker(s: string) {
    exists i :: 0 <= i <= |s| && StartsWithMarker(s[i..])
  }

  lemma HitMeansMarker(t: string)
    requires "PCR" <= t
    ensures Hit(t[3..]) != [] <==> StartsWithMarker(t)
  {
    if Hit(t[3..]) != [] {
      HitGivesMarker(t, t[3..]);
    }
    if StartsWithMarker(t) {
      MarkerGivesHit(t, t[3..]);
    }
  }

  lemma HitGivesMarker(t: string, rest: string)
    requires "PCR" <= t && rest == t[3..] && Hit(rest) != []
    ensures StartsWithMarker(t)
  {
    var space := SpaceAt(rest);
    NoSpaceBefore(rest);
    assert t[3..space + 3] == rest[..space] && t[space + 3..] == rest[space..];
    assert forall k :: 3 <= k < space + 3 ==> t[k] == rest[k - 3];
    assert MarkerUpTo(t, space + 3);
  }

  lemma MarkerGivesHit(t: string, rest: string)
    requires "PCR" <= t && rest == t[3..] && StartsWithMarker(t)
    ensures Hit(rest) != []
  {
    var j: nat :| MarkerUpTo(t, j);
    assert t[j] == t[j..][0] == ' ';
    assert rest[j - 3] == t[j] && forall k :: 0 <= k < j - 3 ==> rest[k] == t[k + 3];
    FirstSpace(rest, j - 3);
    assert t[3..j] == rest[..j - 3] && t[j..] == rest[j - 3..];
  }

  lemma {:induction false} NoSpaceBefore(s: string)
    ensures forall k :: 0 <= k < SpaceAt(s) ==> s[k] != ' '
  {
    if s != "" && s[0] != ' ' {
      NoSpaceBefore(s[1..]);
      assert forall k :: 0 < k < |s| ==> s[k] == s[1..][k - 1];
    }
  }

  /** Markers of the text behind its first `k` characters are markers of the text. */
  lemma MarkersBehind(s: string, k: nat)
    requires k <= |s| && forall i :: 0 <= i < k ==> !StartsWithMarker(s[i..])
    ensures HasMarker(s) <==> HasMarker(s[k..])
  {
    if HasMarker(s) {
      var i :| 0 <= i <= |s| && StartsWithMarker(s[i..]);
      assert s[k..][i - k..] == s[i..];
    }
    if HasMarker(s[k..]) {
      var i :| 0 <= i <= |s| - k && StartsWithMarker(s[k..][i..]);
      assert s[k..][i..] == s[i + k..];
    }
  }

  /** The parser finds nothing exactly if there is no marker. */
  lemma {:induction false} ScanFindsMarkers(s: string)
    ensures Scan(s) == [] <==> !HasMarker(s)
  {
    if s == "" {
    } else if "PCR" <= s {
      ScanFindsMarkers(s[3..]);
      HitMeansMarker(s);
      MarkerInFront(s);
    } else {
      ScanFindsMarkers(s[1..]);
      NoMarkerInFront(s);
    }
  }

  lemma NoMarkerInFront(s: string)
    requires s != "" && !("PCR" <= s)
    ensures HasMarker(s) <==> HasMarker(s[1..])
  {
    assert s[0..] == s;
    MarkersBehind(s, 1);
  }

  /** Two occurrences of `PCR` do not overlap. */
  lemma MarkerInFront(s: string)
    requires "PCR" <= s
    ensures HasMarker(s) <==> StartsWithMarker(s) || HasMarker(s[3..])
  {
    assert s[0..] == s && s[1..][0] == 'C' && s[2..][0] == 'R';
    if StartsWithMarker(s) {
      assert HasMarker(s);
    } else {
      MarkersBehind(s, 3);
    }
  }

  /**
   What the audit log recovers from a details line is the differing indices in quote order,
   followed by whatever the later details give: exact if and only if those hold no marker.
   */
  lemma MismatchesReadBack(quote: seq<Pcr>, baseline: seq<Pcr>, later: seq<string>)
    requires later != []
    ensures var found := Scan(Join(PcrItems(quote, baseline) + later));
            && Differing(quote, baseline) <= found
            && (found == Differing(quote, baseline) <==> !HasMarker(Join(later)))
  {
    ScanOfDetails(quote, baseline, later);
    ScanFindsMarkers(Join(later));
  }

  lemma ScanOfDetails(quote: seq<Pcr>, baseline: seq<Pcr>, later: seq<string>)
    requires later != []
    ensures Scan(Join(PcrItems(quote, baseline) + later)) == Differing(quote, baseline) + Scan(Join(later))
  {
    if Differing(quote, baseline) == [] {
      var item := Dec(|quote|) + " PCRs match";
      Regroup(MismatchItems(quote, baseline), [item], later);
      ScanMismatchItems(quote, baseline, [item] + later);
      JoinCons(item, later);
      ScanMatchCount(|quote|, "; " + Join(later));
      ScanSkips("; ", Join(later));
    } else {
      assert PcrItems(quote, baseline) + later == MismatchItems(quote, baseline) + later;
      ScanMismatchItems(quote, baseline, later);
    }
  }

  /** The detail of a process list that differs from the baseline by one new process. */
  function NewProcess(comm: string, path: string): string {
    "USERSPACE CHANGED: +(" + (comm + ("," + (path + ")")))
  }

  function MarkerName(index: Octet): string {
    "PCR" + (Dec(index) + " MISMATCH")
  }

  /**
   A process that calls itself `PCR5 MISMATCH` adds a PCR to every list of mismatches; `ima` are
   the details of the IMA checks, which come before the process list.
   */
  lemma ProcessNameAddsMismatch(quote: seq<Pcr>, baseline: seq<Pcr>, ima: seq<string>, index: Octet, path: string)
    requires (forall i :: 0 <= i < |ima| ==> 'P' !in ima[i]) && 'P' !in path
    ensures var later := ima + [NewProcess(MarkerName(index), path)];
            Scan(Join(PcrItems(quote, baseline) + later)) == Differing(quote, baseline) + [index as nat]
  {
    var detail := NewProcess(MarkerName(index), path);
    ScanNewProcess(MarkerName(index), index, path);
    ScanOfDetails(quote, baseline, ima + [detail]);
    ScanSkipsItems(ima, detail);
  }

  lemma {:induction false} ScanSkipsItems(items: seq<string>, last: string)
    requires forall i :: 0 <= i < |items| ==> 'P' !in items[i]
    ensures Scan(Join(items + [last])) == Scan(last)
  {
    if items == [] {
      assert items + [last] == [last];
    } else {
      var more := items[1..] + [last];
      assert items + [last] == [items[0]] + more;
      JoinCons(items[0], more);
      ScanSkips(items[0], "; " + Join(more));
      ScanSkips("; ", Join(more));
      ScanSkipsItems(items[1..], last);
    }
  }

  lemma ScanNewProcess(name: string, index: Octet, path: string)
    requires name == MarkerName(index) && 'P' !in path
    ensures Scan(NewProcess(name, path)) == [index as nat]
  {
    var after := "," + (path + ")");
    ProcessLead(name + after);
    ScanTail(index, " MISMATCH", after);
    ScanSkips(after, "");
    assert after + "" == after;
  }

  /** The `P` of the heading does not start a marker. */
  lemma ProcessLead(b: string)
    ensures Scan("USERSPACE CHANGED: +(" + b) == Scan(b)
  {
    var rest := "ACE CHANGED: +(" + b;
    assert "USERSPACE CHANGED: +(" == "USERS" + ("P" + "ACE CHANGED: +(");
    Regroup("USERS", "P" + "ACE CHANGED: +(", b);
    Regroup("P", "ACE CHANGED: +(", b);
    ScanSkips("USERS", "P" + rest);
    assert ("P" + rest)[1] == 'A' && ("P" + rest)[1..] == rest;
    ScanSkips("ACE CHANGED: +(", b);
  }

  // --- reading the IMA count and delta back ---

  function ParseFieldUsize(details: string, prefix: string): Option<nat> {
    match After(details, prefix)
    case None => None
    case Some(rest) =>
      var end := NumberRun(rest, false);
      if end == 0 then None else ParseUnsigned(rest[..end], TWO_64)
  }

  /** The text right after the first `pat`, if it looks like a number. */
  function NumberAfter(details: string, pat: string): Option<string> {
    match After(details, pat)
    case None => None
    case Some(rest) => if NumberRun(rest, true) > 0 then Some(rest[..NumberRun(rest, true)]) else None
  }

  function ParseImaDelta(details: string): Option<int> {
    match NumberAfter(details, "/d+")
    case Some(digits) => ParseSigned(digits)
    case None =>
      if After(details, "/first").Some? then None
      else match NumberAfter(details, "delta=")
        case Some(digits) => ParseSigned(digits)
        case None => None
  }

  /** The detail of an accepted IMA report: its count and, unless it is the first, its growth. */
  function ImaItem(count: nat, delta: Option<nat>): string {
    "IMA:" + (Dec(count) + if delta.Some? then "/d+" + Dec(delta.value) else "/first")
  }

  lemma ReadNumber(n: nat, x: string, minus: bool)
    requires StopsNumber(x)
    ensures NumberRun(Dec(n) + x, minus) == |Dec(n)| > 0
    ensures (Dec(n) + x)[..|Dec(n)|] == Dec(n)
    ensures n < TWO_64 ==> ParseUnsigned(Dec(n), TWO_64) == Some(n)
    ensures n < TWO_63 ==> ParseSigned(Dec(n)) == Some(n)
  {
    DecReadsBack(n);
    NumberRunOfDigits(Dec(n), x, minus);
    assert IsDigit(Dec(n)[0]);
  }

  /** The markers the two parsers look for first. */
  predicate Marker(pat: string) {
    pat == "IMA:" || (pat != "" && pat[0] == '/')
  }

  lemma AfterSkipsIs(b: string)
    ensures After("IS" + b, "IMA:") == After(b, "IMA:")
  {
    var s := "IS" + b;
    assert s[1] == 'S' && s[1..][0] == 'S';
    assert s[1..][1..] == b;
  }

  lemma AfterSkipsMismatch(index: nat, expected: string, got: string, b: string, pat: string)
    requires HexText(expected) && HexText(got) && Marker(pat)
    ensures After(MismatchText(index, expected, got) + b, pat) == After(b, pat)
  {
    DecReadsBack(index);
    TailMarksMismatch(expected, got);
    if pat[0] == '/' {
      AfterSkips(MismatchText(index, expected, got), b, pat);
    } else {
      var lead, rest := "PCR" + (Dec(index) + " M"), "MATCH: expected=" + (expected + (" got=" + got));
      MismatchParts(index, expected, got, b);
      AfterSkips(lead, "IS" + (rest + b), pat);
      AfterSkipsIs(rest + b);
      AfterSkips(rest, b, pat);
    }
  }

  lemma MismatchParts(index: nat, expected: string, got: string, b: string)
    ensures MismatchText(index, expected, got) + b
            == "PCR" + (Dec(index) + " M") + ("IS" + ("MATCH: expected=" + (expected + (" got=" + got)) + b))
  {
    var more := expected + (" got=" + got);
    assert " MISMATCH: expected=" + more == " M" + ("IS" + ("MATCH: expected=" + more));
  }

  lemma AfterSkipsItem(item: string, more: seq<string>, pat: string)
    requires more != [] && Marker(pat) && pat[0] !in item
    ensures After(Join([item] + more), pat) == After(Join(more), pat)
  {
    JoinCons(item, more);
    AfterSkips(item, "; " + Join(more), pat);
    AfterSkips("; ", Join(more), pat);
  }

  lemma AfterSkipsMismatchItem(p: Pcr, expected: seq<Octet>, more: seq<string>, pat: string)
    requires more != [] && Marker(pat)
    ensures After(Join([MismatchText(p.index, Hex(expected), Hex(p.value))] + more), pat) == After(Join(more), pat)
  {
    JoinCons(MismatchText(p.index, Hex(expected), Hex(p.value)), more);
    HexIsHexText(expected);
    HexIsHexText(p.value);
    AfterSkipsMismatch(p.index, Hex(expected), Hex(p.value), "; " + Join(more), pat);
    AfterSkips("; ", Join(more), pat);
  }

  /** The PCR details hold neither marker. */
  lemma {:induction false} AfterSkipsMismatchItems(quote: seq<Pcr>, baseline: seq<Pcr>, tail: seq<string>, pat: string)
    requires tail != [] && Marker(pat)
    ensures After(Join(MismatchItems(quote, baseline) + tail), pat) == After(Join(tail), pat)
  {
    if quote == [] {
      assert [] + tail == tail;
    } else {
      AfterSkipsMismatchItems(quote[1..], baseline, tail, pat);
      var p, rest := quote[0], MismatchItems(quote[1..], baseline);
      if Differs(baseline, p) {
        var expected := Expected(baseline, p.index).value;
        AfterSkipsMismatchItem(p, expected, rest + tail, pat);
        Regroup([MismatchText(p.index, Hex(expected), Hex(p.value))], rest, tail);
      } else {
        assert [] + rest == rest;
      }
    }
  }

  lemma AfterSkipsPcrItems(quote: seq<Pcr>, baseline: seq<Pcr>, tail: seq<string>, pat: string)
    requires tail != [] && Marker(pat)
    ensures After(Join(PcrItems(quote, baseline) + tail), pat) == After(Join(tail), pat)
  {
    if Differing(quote, baseline) == [] {
      var item := Dec(|quote|) + " PCRs match";
      DecReadsBack(|quote|);
      Regroup(MismatchItems(quote, baseline), [item], tail);
      AfterSkipsMismatchItems(quote, baseline, [item] + tail, pat);
      AfterSkipsItem(item, tail, pat);
    } else {
      assert PcrItems(quote, baseline) + tail == MismatchItems(quote, baseline) + tail;
      AfterSkipsMismatchItems(quote, baseline, tail, pat);
    }
  }

  /** What follows an item in a joined list. */
  function Following(later: seq<string>): (s: string)
    ensures StopsNumber(s)
  {
    if later == [] then "" else "; " + Join(later)
  }

  lemma JoinFirst(item: string, later: seq<string>)
    ensures Join([item] + later) == item + Following(later)
  {
    if later != [] {
      JoinCons(item, later);
    }
  }

  /** The count is read back whatever the other details say. */
  lemma CountReadsBack(quote: seq<Pcr>, baseline: seq<Pcr>, count: nat, delta: Option<nat>, later: seq<string>)
    requires count < 0x1_0000_0000_0000_0000
    ensures var details := Join(PcrItems(quote, baseline) + ([ImaItem(count, delta)] + later));
            ParseFieldUsize(details, "IMA:") == Some(count)
  {
    var tail := [ImaItem(count, delta)] + later;
    AfterSkipsPcrItems(quote, baseline, tail, "IMA:");
    JoinFirst(ImaItem(count, delta), later);
    var growth := if delta.Some? then "/d+" + Dec(delta.value) else "/first";
    var rest := growth + Following(later);
    Regroup("IMA:", Dec(count) + growth, Following(later));
    Regroup(Dec(count), growth, Following(later));
    AfterFinds("IMA:", Dec(count) + rest);
    ReadNumber(count, rest, false);
  }

  lemma AfterSkipsImaLead(count: nat, rest: string, pat: string)
    requires pat != "" && pat[0] == '/'
    ensures After("IMA:" + (Dec(count) + rest), pat) == After(rest, pat)
  {
    DecReadsBack(count);
    AfterSkips("IMA:", Dec(count) + rest, pat);
    AfterSkips(Dec(count), rest, pat);
  }

  /** The growth is read back whatever the other details say. */
  lemma DeltaReadsBack(quote: seq<Pcr>, baseline: seq<Pcr>, count: nat, delta: nat, later: seq<string>)
    requires delta < 0x8000_0000_0000_0000
    ensures var details := Join(PcrItems(quote, baseline) + ([ImaItem(count, Some(delta))] + later));
            ParseImaDelta(details) == Some(delta)
  {
    var tail := [ImaItem(count, Some(delta))] + later;
    AfterSkipsPcrItems(quote, baseline, tail, "/d+");
    JoinFirst(ImaItem(count, Some(delta)), later);
    var growth := "/d+" + Dec(delta);
    Regroup("IMA:", Dec(count) + growth, Following(later));
    Regroup(Dec(count), growth, Following(later));
    AfterSkipsImaLead(count, growth + Following(later), "/d+");
    Regroup("/d+", Dec(delta), Following(later));
    AfterFinds("/d+", Dec(delta) + Following(later));
    ReadNumber(delta, Following(later), true);
  }

  lemma AfterSkipsFirst(b: string)
    ensures After("/first" + b, "/d+") == After(b, "/d+")
  {
    var s := "/first" + b;
    assert s[0] == '/' && s[1] == 'f';
    assert s[1..] == "first" + b;
    AfterSkips("first", b, "/d+");
  }

  // --- what makes the parser see a growth ---

  /** The first occurrence of `pat` is at `i`. */
  predicate FirstAt(s: string, pat: string, i: nat) {
    i <= |s| && pat <= s[i..] && forall k :: 0 <= k < i ==> !(pat <= s[k..])
  }

  /** The first `n` characters are digits or minus signs, and no more follow. */
  predicate NumberText(t: string, n: nat) {
    0 < n <= |t| && (forall k :: 0 <= k < n ==> IsDigit(t[k]) || t[k] == '-') && StopsNumber(t[n..])
  }

  predicate DeltaAt(s: string, v: int, i: nat, n: nat) {
    FirstAt(s, "/d+", i) && NumberText(s[i + 3..], n) && ParseSigned(s[i + 3..][..n]) == Some(v)
  }

  /** The first `/d+` of the text is followed by the number `v`. */
  ghost predicate ShowsDelta(s: string, v: int) {
    exists i: nat, n: nat :: DeltaAt(s, v, i, n)
  }

  lemma {:induction false} AfterIsFirst(s: string, pat: string) returns (i: nat)
    requires After(s, pat).Some?
    ensures FirstAt(s, pat, i) && i + |pat| <= |s| && After(s, pat) == Some(s[i + |pat|..])
  {
    if pat <= s {
      assert s[0..] == s;
      i := 0;
    } else {
      var j := AfterIsFirst(s[1..], pat);
      i := j + 1;
      forall k | 0 <= k < i
        ensures !(pat <= s[k..])
      {
        if k == 0 {
          assert s[0..] == s;
        } else {
          assert s[1..][k - 1..] == s[k..];
        }
      }
      assert s[1..][j..] == s[i..] && s[1..][j + |pat|..] == s[i + |pat|..];
    }
  }

  lemma {:induction false} FirstIsAfter(s: string, pat: string, i: nat)
    requires FirstAt(s, pat, i)
    ensures i + |pat| <= |s| && After(s, pat) == Some(s[i + |pat|..])
  {
    assert s[0..] == s;
    if i > 0 {
      assert s[1..][i - 1..] == s[i..];
      forall k | 0 <= k < i - 1
        ensures !(pat <= s[1..][k..])
      {
        assert s[1..][k..] == s[k + 1..];
      }
      FirstIsAfter(s[1..], pat, i - 1);
      assert s[1..][i - 1 + |pat|..] == s[i + |pat|..];
    }
  }

  lemma {:induction false} RunIsNumberText(t: string)
    ensures NumberRun(t, true) > 0 ==> NumberText(t, NumberRun(t, true))
    ensures forall n: nat :: NumberText(t, n) ==> NumberRun(t, true) == n
  {
    var run := NumberRun(t, true);
    RunIsMaximal(t);
    forall n: nat | NumberText(t, n)
      ensures run == n
    {
      assert n < |t| ==> t[n..][0] == t[n];
      assert run < |t| ==> t[run..][0] == t[run];
    }
  }

  lemma {:induction false} RunIsMaximal(t: string)
    ensures var run := NumberRun(t, true);
            && (forall k :: 0 <= k < run ==> IsDigit(t[k]) || t[k] == '-')
            && (run < |t| ==> !IsDigit(t[run]) && t[run] != '-')
            && StopsNumber(t[run..])
  {
    if t != "" && (IsDigit(t[0]) || t[0] == '-') {
      RunIsMaximal(t[1..]);
      assert forall k :: 0 < k < |t| ==> t[k] == t[1..][k - 1];
      assert t[1..][NumberRun(t[1..], true)..] == t[NumberRun(t, true)..];
    }
  }

  /** What the parser reads right after the first `/d+`. */
  lemma PlusDelta(s: string, v: int)
    ensures ShowsDelta(s, v) <==> NumberAfter(s, "/d+").Some? && ParseSigned(NumberAfter(s, "/d+").value) == Some(v)
  {
    var r := After(s, "/d+");
    if r.Some? {
      var i := AfterIsFirst(s, "/d+");
      RunIsNumberText(s[i + 3..]);
      assert NumberAfter(s, "/d+").Some? && ParseSigned(NumberAfter(s, "/d+").value) == Some(v) ==>
          DeltaAt(s, v, i, NumberRun(r.value, true));
    }
    if ShowsDelta(s, v) {
      var i: nat, n: nat :| DeltaAt(s, v, i, n);
      FirstIsAfter(s, "/d+", i);
      RunIsNumberText(s[i + 3..]);
    }
  }

  /** A first report shows a growth exactly if the later details do, and then theirs. */
  lemma FirstHasNoDelta(quote: seq<Pcr>, baseline: seq<Pcr>, count: nat, later: seq<string>, v: int)
    ensures var details := Join(PcrItems(quote, baseline) + ([ImaItem(count, None)] + later));
            ParseImaDelta(details) == Some(v) <==> ShowsDelta(Join(later), v)
  {
    FirstReport(quote, baseline, count, later);
    if later != [] {
      AfterSkips("; ", Join(later), "/d+");
    }
    PlusDelta(Join(later), v);
  }

  lemma FirstReport(quote: seq<Pcr>, baseline: seq<Pcr>, count: nat, later: seq<string>)
    ensures var details := Join(PcrItems(quote, baseline) + ([ImaItem(count, None)] + later));
            ParseImaDelta(details) ==
            match NumberAfter(Following(later), "/d+")
            case Some(digits) => ParseSigned(digits)
            case None => None
  {
    var tail, rest := [ImaItem(count, None)] + later, Following(later);
    AfterSkipsPcrItems(quote, baseline, tail, "/d+");
    AfterSkipsPcrItems(quote, baseline, tail, "/first");
    JoinFirst(ImaItem(count, None), later);
    Regroup("IMA:", Dec(count) + "/first", rest);
    Regroup(Dec(count), "/first", rest);
    AfterSkipsImaLead(count, "/first" + rest, "/d+");
    AfterSkipsImaLead(count, "/first" + rest, "/first");
    AfterSkipsFirst(rest);
    AfterFinds("/first", rest);
  }

  /** A process that calls itself `/d+7` gives a first report a growth of seven. */
  lemma ProcessNameAddsDelta(quote: seq<Pcr>, baseline: seq<Pcr>, count: nat, delta: nat, path: string)
    requires delta < 0x8000_0000_0000_0000
    ensures var later := ["IMA AGG:first", NewProcess("/d+" + Dec(delta), path)];
            ParseImaDelta(Join(PcrItems(quote, baseline) + ([ImaItem(count, None)] + later))) == Some(delta)
  {
    var name := "/d+" + Dec(delta);
    FirstReportThen(quote, baseline, count, "IMA AGG:first", NewProcess(name, path));
    AfterProcessName(name, delta, path);
    ReadNumber(delta, "," + (path + ")"), true);
  }

  /** After a first report, a detail without a slash does not hide the growth of the next one. */
  lemma FirstReportThen(quote: seq<Pcr>, baseline: seq<Pcr>, count: nat, agg: string, detail: string)
    requires '/' !in agg
    ensures ParseImaDelta(Join(PcrItems(quote, baseline) + ([ImaItem(count, None)] + [agg, detail]))) ==
            match NumberAfter(detail, "/d+")
            case Some(digits) => ParseSigned(digits)
            case None => None
  {
    FirstReport(quote, baseline, count, [agg, detail]);
    assert [agg] + [detail] == [agg, detail];
    AfterSkips("; ", Join([agg, detail]), "/d+");
    AfterSkipsItem(agg, [detail], "/d+");
  }

  lemma AfterProcessName(name: string, delta: nat, path: string)
    requires name == "/d+" + Dec(delta)
    ensures After(NewProcess(name, path), "/d+") == Some(Dec(delta) + ("," + (path + ")")))
  {
    var after := "," + (path + ")");
    AfterSkips("USERSPACE CHANGED: +(", name + after, "/d+");
    Regroup("/d+", Dec(delta), after);
    AfterFinds("/d+", Dec(delta) + after);
  }
}
