/** The footnote-marker pattern and the per-page table of substitutes used when the
    printed marker was misread. `buildRegex(n)` builds
    `(^(?:.*?D)?)n((?:D.*?)?$)` for a delimiter `D`, by default `[^\d:]+`: the text is
    split into a first group, the marker, and a second group. */
module FootnoteReferences {
  import opened Shared

  // ---------------------------------------------------------------------------
  // Character classes

  /** The characters `.` does not match in a JavaScript regular expression. */
  predicate IsLineTerminator(c: char)
  {
    c == '\n' || c == '\r' || c == '\U{2028}' || c == '\U{2029}'
  }

  /** `[^\d:]`: neither an ASCII digit nor a colon. */
  predicate NotDigitOrColon(c: char) { !IsDigit(c) && c != ':' }

  /** `.*?` matches exactly the strings without a line terminator. */
  predicate NoLineTerminator(s: string)
  {
    forall i :: 0 <= i < |s| ==> !IsLineTerminator(s[i])
  }

  /** `nonDigitOrColon`, `[^\d:]+`: a non-empty run of such characters. */
  predicate DelimiterRun(s: string)
  {
    |s| > 0 && forall i :: 0 <= i < |s| ==> NotDigitOrColon(s[i])
  }

  // ---------------------------------------------------------------------------
  // The default pattern

  /** The first group, `^(?:.*?[^\d:]+)?`, matches `x`. */
  predicate Leading(x: string)
  {
    x == [] || exists k :: 0 <= k < |x| && NoLineTerminator(x[..k]) && DelimiterRun(x[k..])
  }

  /** The second group, `(?:[^\d:]+.*?)?$`, matches `y`. */
  predicate Trailing(y: string)
  {
    y == [] || exists k :: 0 < k <= |y| && DelimiterRun(y[..k]) && NoLineTerminator(y[k..])
  }

  /** The default pattern for `token` matches `text` with the marker at position `i`:
      the groups capture `text[..i]` and the rest after the marker. */
  predicate MatchesAt(text: string, token: string, i: int)
  {
    0 <= i && i + |token| <= |text| && text[i..i + |token|] == token
    && Leading(text[..i]) && Trailing(text[i + |token|..])
  }

  ghost predicate Matches(text: string, token: string)
  {
    exists i :: MatchesAt(text, token, i)
  }

  /** How many characters at the end of `s` are neither digits nor colons. */
  function SuffixRun(s: string): (n: nat)
    ensures n <= |s|
    ensures forall i :: |s| - n <= i < |s| ==> NotDigitOrColon(s[i])
    ensures n < |s| ==> !NotDigitOrColon(s[|s| - n - 1])
  {
    if s == [] || !NotDigitOrColon(s[|s| - 1]) then 0 else SuffixRun(s[..|s| - 1]) + 1
  }

  /** How many characters at the start of `s` are neither digits nor colons. */
  function PrefixRun(s: string): (n: nat)
    ensures n <= |s|
    ensures forall i :: 0 <= i < n ==> NotDigitOrColon(s[i])
    ensures n < |s| ==> !NotDigitOrColon(s[n])
  {
    if s == [] || !NotDigitOrColon(s[0]) then 0 else PrefixRun(s[1..]) + 1
  }

  /** A direct test for the first group: empty, or a delimiter run at the end with no
      line terminator before it. */
  predicate LeadingAccepts(x: string)
  {
    x == [] || (SuffixRun(x) > 0 && NoLineTerminator(x[..|x| - SuffixRun(x)]))
  }

  predicate TrailingAccepts(y: string)
  {
    y == [] || (PrefixRun(y) > 0 && NoLineTerminator(y[PrefixRun(y)..]))
  }

  lemma LeadingAcceptsExactly(x: string)
    ensures LeadingAccepts(x) <==> Leading(x)
  {
    if x != [] {
      var n := SuffixRun(x);
      if Leading(x) {
        var k :| 0 <= k < |x| && NoLineTerminator(x[..k]) && DelimiterRun(x[k..]);
        assert forall i :: k <= i < |x| ==> x[k..][i - k] == x[i];
        assert |x| - n <= k;
        assert forall i :: 0 <= i < |x| - n ==> x[..|x| - n][i] == x[..k][i];
      }
      if LeadingAccepts(x) {
        assert NoLineTerminator(x[..|x| - n]) && DelimiterRun(x[|x| - n..]);
      }
    }
  }

  lemma TrailingAcceptsExactly(y: string)
    ensures TrailingAccepts(y) <==> Trailing(y)
  {
    if y != [] {
      var n := PrefixRun(y);
      if Trailing(y) {
        var k :| 0 < k <= |y| && DelimiterRun(y[..k]) && NoLineTerminator(y[k..]);
        assert forall i :: 0 <= i < k ==> y[..k][i] == y[i];
        assert k <= n;
        assert forall i :: 0 <= i < |y| - n ==> y[n..][i] == y[k..][i + n - k];
      }
      if TrailingAccepts(y) {
        assert DelimiterRun(y[..n]) && NoLineTerminator(y[n..]);
      }
    }
  }

  predicate MatchesAtAccepts(text: string, token: string, i: nat)
  {
    i + |token| <= |text| && text[i..i + |token|] == token
    && LeadingAccepts(text[..i]) && TrailingAccepts(text[i + |token|..])
  }

  /** The first marker position from `i` on at which the default pattern matches. */
  function SearchFrom(text: string, token: string, i: nat): (r: Option<nat>)
    ensures r.Some? ==> i <= r.value && MatchesAt(text, token, r.value)
    ensures r.None? ==> forall j :: i <= j ==> !MatchesAt(text, token, j)
    decreases |text| - i
  {
    if i + |token| > |text| then None
    else
      LeadingAcceptsExactly(text[..i]);
      TrailingAcceptsExactly(text[i + |token|..]);
      if MatchesAtAccepts(text, token, i) then Some(i)
      else SearchFrom(text, token, i + 1)
  }

  /** `buildRegex(token).test(text)`. */
  function Test(text: string, token: string): (r: bool)
    ensures r <==> Matches(text, token)
  {
    SearchFrom(text, token, 0).Some?
  }

  // ---------------------------------------------------------------------------
  // What the default pattern means

  /** The marker is never next to a digit or a colon. */
  lemma MarkerStandsAlone(text: string, token: string, i: int)
    requires MatchesAt(text, token, i)
    ensures i > 0 ==> NotDigitOrColon(text[i - 1])
    ensures i + |token| < |text| ==> NotDigitOrColon(text[i + |token|])
  {
    LeadingAcceptsExactly(text[..i]);
    TrailingAcceptsExactly(text[i + |token|..]);
    if i > 0 {
      assert text[..i][i - 1] == text[i - 1];
    }
    if i + |token| < |text| {
      assert text[i + |token|..][0] == text[i + |token|];
    }
  }

  /** The token stands at `i`, bounded on each side by an end of the text or a
      character that is neither digit nor colon. */
  predicate Bounded(text: string, token: string, i: int)
  {
    0 <= i && i + |token| <= |text| && text[i..i + |token|] == token
    && (i == 0 || NotDigitOrColon(text[i - 1]))
    && (i + |token| == |text| || NotDigitOrColon(text[i + |token|]))
  }

  /** On a text without line breaks the pattern is exactly a token bounded on each side
      by the end of the text or a character that is neither digit nor colon. */
  lemma MatchesAtOnOneLine(text: string, token: string, i: int)
    requires NoLineTerminator(text)
    ensures MatchesAt(text, token, i) <==> Bounded(text, token, i)
  {
    if 0 <= i && i + |token| <= |text| {
      var x, y := text[..i], text[i + |token|..];
      NoLineTerminatorSlice(text, 0, i);
      NoLineTerminatorSlice(text, i + |token|, |text|);
      LeadingOnOneLine(x);
      TrailingOnOneLine(y);
      if i > 0 {
        assert x[i - 1] == text[i - 1];
      }
      if i + |token| < |text| {
        assert y[0] == text[i + |token|];
      }
    }
  }

  lemma NoLineTerminatorSlice(s: string, a: int, b: int)
    requires NoLineTerminator(s) && 0 <= a <= b <= |s|
    ensures NoLineTerminator(s[a..b])
  {
    assert forall k :: 0 <= k < b - a ==> s[a..b][k] == s[a + k];
  }

  /** Without line breaks, the first group only needs a last character that is
      neither digit nor colon. */
  lemma LeadingOnOneLine(x: string)
    requires NoLineTerminator(x)
    ensures Leading(x) <==> x == [] || NotDigitOrColon(x[|x| - 1])
  {
    LeadingAcceptsExactly(x);
    NoLineTerminatorSlice(x, 0, |x| - SuffixRun(x));
  }

  /** Without line breaks, the second group only needs a first character that is
      neither digit nor colon. */
  lemma TrailingOnOneLine(y: string)
    requires NoLineTerminator(y)
    ensures Trailing(y) <==> y == [] || NotDigitOrColon(y[0])
  {
    TrailingAcceptsExactly(y);
    NoLineTerminatorSlice(y, PrefixRun(y), |y|);
  }

  /** The number 1 is not found inside "11" nor in "1:5". */
  lemma NotInsideNumbers()
    ensures !Matches("11", "1")
    ensures !Matches("1:5", "1")
    ensures Matches("see 1, below", "1")
  {
    forall i | MatchesAt("11", "1", i) ensures false {
      MarkerStandsAlone("11", "1", i);
    }
    forall i | MatchesAt("1:5", "1", i) ensures false {
      MarkerStandsAlone("1:5", "1", i);
    }
    var text := "see 1, below";
    assert NoLineTerminator(text);
    MatchesAtOnOneLine(text, "1", 4);
    assert text[4..5] == "1";
  }

  /** `.` stops at a line break: when a digit sits on a line before the marker, the
      first group cannot reach the marker, so the marker is not found. */
  lemma LineBreakHidesMarker()
    ensures !Matches("\n1 2", "2")
    ensures Matches("1 2", "2")
  {
    var text := "\n1 2";
    forall i | MatchesAt(text, "2", i) ensures false {
      assert text[i] == text[i..i + 1][0] == '2';
      assert text[..i] == "\n1 ";
      LineThenDigitIsNotLeading();
    }
    MatchesAtOnOneLine("1 2", "2", 2);
    assert "1 2"[2..3] == "2";
  }

  lemma LineThenDigitIsNotLeading()
    ensures !Leading("\n1 ")
  {
    var x := "\n1 ";
    assert !IsDigit(x[1]) ==> false;
    assert NoLineTerminator(x[..2]) ==> false by {
      assert x[..2][0] == '\n';
    }
  }

  // ---------------------------------------------------------------------------
  // buildRegex

  /** The delimiter a marker pattern is built with. */
  datatype Delimiter =
    | NonDigitOrColonRun      // `nonDigitOrColon`, the default
    | Custom(written: string) // given at the table entry; its expression is kept as written

  /** A marker pattern: the token between two delimited groups. */
  datatype Marker = Marker(token: string, delimiter: Delimiter)

  /** `buildRegex(nextFootnoteNumber, delimiter)`: the token is `str` of the number, so a
      string token such as `'to '` works as well. */
  function BuildRegex(nextFootnoteNumber: Value, delimiter: Delimiter): Marker
  {
    Marker(Str(nextFootnoteNumber), delimiter)
  }

  /** With the default delimiter, the pattern for footnote `n` finds `n` on one line
      exactly where the digits of `n` stand between two non-digit, non-colon characters
      or the ends of the text. */
  lemma BuildRegexFinds(n: nat, text: string)
    requires NoLineTerminator(text)
    ensures var m := BuildRegex(Number(n), NonDigitOrColonRun);
      m.token == NatToDecimal(n) && (Test(text, m.token) <==> exists i :: Bounded(text, m.token, i))
  {
    var token := BuildRegex(Number(n), NonDigitOrColonRun).token;
    forall i ensures MatchesAt(text, token, i) <==> Bounded(text, token, i) {
      MatchesAtOnOneLine(text, token, i);
    }
  }

  /** A found number is never part of a longer number: its neighbours are not digits. */
  lemma FoundNumberIsWhole(n: nat, text: string, i: int)
    requires MatchesAt(text, Str(Number(n)), i)
    ensures i > 0 ==> !IsDigit(text[i - 1])
    ensures i + |Str(Number(n))| < |text| ==> !IsDigit(text[i + |Str(Number(n))|])
  {
    MarkerStandsAlone(text, Str(Number(n)), i);
  }

  // ---------------------------------------------------------------------------
  // specialCases

  /** What the search uses instead of the footnote number on a listed page. */
  datatype Substitute =
    | Literal(text: string)   // a misread form of the number, searched as the token
    | Pattern(marker: Marker) // a pattern built with `buildRegex`
    | Sentinel(source: string) // a regular expression of a phrase that does not occur

  /** The entries of one page of the table, by footnote number; `None` for a page the
      table does not list. */
  function PageEntries(page: int): Option<map<int, Substitute>>
  {
    match page
    case 122 => Some(map[11 := Literal("l1")])
    case 166 => Some(map[101 := Literal("lOl")])
    case 200 => Some(map[225 := Pattern(BuildRegex(Number(225), Custom("/[^\\d]/")))])
    case 222 => Some(map[11 := Literal("ll")])
    case 227 => Some(map[18 := Literal("1s")])
    case 264 => Some(map[10 := Literal("1O")])
    case 273 => Some(map[20 := Literal("2o")])
    case 286 => Some(map[1 := Pattern(BuildRegex(Text("l"), Custom("/,| /")))])
    case 332 => Some(map[10 := Literal("1o")])
    case 360 => Some(map[40 := Pattern(BuildRegex(Text("w"), Custom("/\"| /")))])
    case 371 => Some(map[10 := Literal("1O"), 11 := Literal("l1")])
    case 381 => Some(map[40 := Literal("4O")])
    case 392 => Some(map[10 := Pattern(BuildRegex(Text("to"), Custom("/^|(?: $)/")))])
    case 415 => Some(map[77 := Pattern(BuildRegex(Text("7"), Custom("/^|(?: $)/")))])
    case 425 => Some(map[10 := Literal("lO")])
    case 451 => Some(map[9 := Pattern(BuildRegex(Text("g"), Custom("r.either('\"', ' ')"))), 11 := Literal("l1")])
    case 458 => Some(map[30 := Literal("3o")])
    case 471 => Some(map[11 := Literal("l1")])
    case 510 => Some(map[11 := Literal("l1")])
    case 515 => Some(map[11 := Literal("l1")])
    case 594 => Some(map[60 := Literal("6o")])
    case 625 => Some(map[18 := Literal("i8")])
    case 645 => Some(map[10 := Sentinel("not gonna find this!")])
    case 646 => Some(map[10 := Pattern(BuildRegex(Text("to"), Custom("/^|$/")))])
    case 647 => Some(map[11 := Literal("l1")])
    case 665 => Some(map[18 := Literal("l8")])
    case 687 => Some(map[10 := Literal("IO")])
    case 700 => Some(map[30 := Literal("3o")])
    case 705 => Some(map[40 := Literal("4O")])
    case 725 => Some(map[11 := Literal("l1")])
    case 726 => Some(map[15 := Literal("i5")])
    case 744 => Some(map[60 := Literal("6o")])
    case 759 => Some(map[79 := Pattern(BuildRegex(Text("9 "), Custom("/^|$/")))])
    case 770 => Some(map[20 := Literal("2o")])
    case 777 => Some(map[35 := Pattern(BuildRegex(Text("5"), Custom("/^|$/")))])
    case 790 => Some(map[10 := Pattern(BuildRegex(Text("to "), Custom("/^|$/")))])
    case 797 => Some(map[20 := Literal("2o")])
    case 870 => Some(map[20 := Literal("2o")])
    case 887 => Some(map[10 := Literal("lO"), 11 := Pattern(BuildRegex(Text("tt"), Custom("/^|$/")))])
    case 899 => Some(map[40 := Sentinel("not here at all, srsly")])
    case 903 => Some(map[10 := Pattern(BuildRegex(Text("to "), Custom("/^|$/")))])
    case 915 => Some(map[10 := Pattern(BuildRegex(Text("to "), Custom("/^|$/"))), 11 := Literal("l1")])
    case 916 => Some(map[15 := Literal("1s")])
    case _ => None
  }

  /** The table by page number, then footnote number. */
  const Catalog: map<int, map<int, Substitute>> :=
    map p | 122 <= p <= 916 && PageEntries(p).Some? :: PageEntries(p).value

  /** `specialCases`: the table keyed by page file, as the `reduce` builds it. */
  function SpecialCases(): (r: map<string, map<int, Substitute>>)
    ensures forall n :: PageFile(n) in r <==> n in Catalog
    ensures forall n :: n in Catalog ==> r[PageFile(n)] == Catalog[n]
    ensures forall file :: file in r ==> exists n :: n in Catalog && file == PageFile(n)
  {
    AllPageFilesDistinct();
    map n | n in Catalog :: PageFile(n) := Catalog[n]
  }

  lemma AllPageFilesDistinct()
    ensures forall m, n :: PageFile(m) == PageFile(n) ==> m == n
  {
    forall m, n | PageFile(m) == PageFile(n) ensures m == n {
      PageFileInjective(m, n);
    }
  }

  /** Page 645 note 10 and page 899 note 40 are the only sentinels. */
  lemma SentinelsAreTheTwoNotes()
    ensures Catalog[645][10].Sentinel? && Catalog[899][40].Sentinel?
    ensures forall p, k :: p in Catalog && k in Catalog[p] && Catalog[p][k].Sentinel? ==>
      (p == 645 && k == 10) || (p == 899 && k == 40)
  {
    forall p, k | p in Catalog && k in Catalog[p] && Catalog[p][k].Sentinel?
      ensures (p == 645 && k == 10) || (p == 899 && k == 40)
    {
      if p != 645 && p != 899 {
        OnlyTwoSentinelPages(p, k);
      }
    }
  }

  lemma OnlyTwoSentinelPages(p: int, k: int)
    requires p in Catalog && k in Catalog[p] && p != 645 && p != 899
    ensures !Catalog[p][k].Sentinel?
  {
    EntryFacts(p, k);
  }

  /** A misreading of footnote `k`: as long as its digits, and different from them. */
  predicate Misreads(text: string, k: int)
  {
    k >= 0 && |text| == |Str(Number(k))| && text != Str(Number(k))
  }

  /** Each literal substitute is a misreading of its footnote number: as long as the
      number's digits, with a character that is not a digit. */
  lemma LiteralsAreMisreadings()
    ensures forall p, k :: p in Catalog && k in Catalog[p] && Catalog[p][k].Literal? ==>
      Misreads(Catalog[p][k].text, k)
  {
    forall p, k | p in Catalog && k in Catalog[p] && Catalog[p][k].Literal?
      ensures Misreads(Catalog[p][k].text, k)
    {
      var t := Catalog[p][k].text;
      LiteralShape(p, k);
      DecimalLength(k);
      var j :| 0 <= j < |t| && !IsDigit(t[j]);
      assert IsDigit(Str(Number(k))[j]);
    }
  }

  lemma {:induction false} DecimalLength(k: nat)
    ensures 10 <= k < 100 ==> |NatToDecimal(k)| == 2
    ensures 100 <= k < 1000 ==> |NatToDecimal(k)| == 3
  {
    if k >= 10 {
      DecimalLength(k / 10);
    }
  }

  lemma LiteralShape(p: int, k: int)
    requires p in Catalog && k in Catalog[p] && Catalog[p][k].Literal?
    ensures var t := Catalog[p][k].text;
      ((10 <= k < 100 && |t| == 2) || (k == 101 && |t| == 3))
      && exists j :: 0 <= j < |t| && !IsDigit(t[j])
  {
    EntryFacts(p, k);
    var t := Catalog[p][k].text;
    if !IsDigit(t[0]) {
      assert 0 < |t| && !IsDigit(t[0]);
    } else {
      assert 1 < |t| && !IsDigit(t[1]);
    }
  }

  /** What holds of every entry: a never-found pattern only for the two notes, and a
      literal of the number's length with a non-digit among its first two characters. */
  predicate EntryFact(p: int, k: int, s: Substitute)
  {
    (s.Sentinel? ==> (p == 645 && k == 10) || (p == 899 && k == 40))
    && (s.Literal? ==>
          ((10 <= k < 100 && |s.text| == 2) || (k == 101 && |s.text| == 3))
          && (!IsDigit(s.text[0]) || !IsDigit(s.text[1])))
  }

  lemma EntryFacts(p: int, k: int)
    requires p in Catalog && k in Catalog[p]
    ensures EntryFact(p, k, Catalog[p][k])
  {
    if p < 640 {
      EntryFactsBelow640(p, k);
    } else {
      EntryFactsFrom640(p, k);
    }
  }

  lemma EntryFactsBelow640(p: int, k: int)
    requires p in Catalog && k in Catalog[p] && p < 640
    ensures EntryFact(p, k, Catalog[p][k])
  {
  }

  lemma EntryFactsFrom640(p: int, k: int)
    requires p in Catalog && k in Catalog[p] && 640 <= p
    ensures EntryFact(p, k, Catalog[p][k])
  {
  }
}
