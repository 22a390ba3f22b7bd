/** The row classifier of the HTML front end: every row of one page gets the type of
    the first handler, in a fixed order, whose test holds for the row and the running
    state of the page (the types seen so far, whether the row is the first one, and the
    row before it). A table of three pages replaces the footnote test. */
module ParseHtml {
  import opened Shared

  /** The largest length `new Array(size)` accepts, 2^32 - 1. */
  const MaxArrayLength: int := 0xFFFF_FFFF

  /** `rangeInclusive(from, to)`: the integers `from..to` in increasing order;
      `new Array(size)` throws a RangeError when the size is negative or too large. */
  function RangeInclusive(from: int, to: int): (r: Result<seq<int>, Failure>)
    ensures r.Success? <==> 0 <= to - from + 1 <= MaxArrayLength
    ensures r.Failure? ==> r.error.RangeError?
    ensures r.Success? ==> |r.value| == to - from + 1 && forall i :: 0 <= i < |r.value| ==> r.value[i] == from + i
  {
    var size := to - from + 1;
    if size < 0 || size > MaxArrayLength then Failure(RangeError("Invalid array length"))
    else Success(seq(size, i => i + from))
  }

  /** The range holds exactly the integers between its ends, each once. */
  lemma RangeInclusiveMembers(from: int, to: int, x: int)
    requires 0 <= to - from + 1 <= MaxArrayLength
    ensures var r := RangeInclusive(from, to).value;
      (x in r <==> from <= x <= to) && multiset(r)[x] <= 1
  {
    var r := RangeInclusive(from, to).value;
    if from <= x <= to {
      assert r[x - from] == x;
    }
    RangeCount(r, from, x);
  }

  lemma {:induction false} RangeCount(r: seq<int>, from: int, x: int)
    requires forall i :: 0 <= i < |r| ==> r[i] == from + i
    ensures multiset(r)[x] <= 1
    decreases |r|
  {
    if r != [] {
      var n := |r| - 1;
      assert r == r[..n] + [r[n]];
      RangeCount(r[..n], from, x);
    }
  }

  // ---------------------------------------------------------------------------
  // Row geometry and text shape

  function Get(style: map<string, string>, key: string): Option<string>
  {
    if key in style then Some(style[key]) else None
  }

  function Top(row: Row): Option<int> { Int(Get(row.style, "top")) }

  function Left(row: Row): Option<int> { Int(Get(row.style, "left")) }

  function FontSize(section: Section): Option<int> { Int(Get(section.style, "fontSize")) }

  /** `/^\d+$/`: non-empty, decimal digits only. */
  predicate AllDigits(s: string) { |s| > 0 && forall i :: 0 <= i < |s| ==> IsDigit(s[i]) }

  /** `/^[^a-z]+$/`: non-empty, no lower-case ASCII letter. */
  predicate AllUppercase(s: string) { |s| > 0 && forall i :: 0 <= i < |s| ==> !('a' <= s[i] <= 'z') }

  /** `Math.abs(int(a.style.top) - int(b.style.top))`, NaN when either top is. */
  function DistanceBetweenRows(a: Row, b: Row): Option<int>
  {
    match (Top(a), Top(b))
    case (Some(x), Some(y)) => Some(if x >= y then x - y else y - x)
    case _ => None
  }

  predicate IsGapBetweenRows(a: Row, b: Row) { Gt(DistanceBetweenRows(a, b), 20) }

  /** A gap does not depend on which row is named first, and needs both tops. */
  lemma GapIsSymmetric(a: Row, b: Row)
    ensures IsGapBetweenRows(a, b) == IsGapBetweenRows(b, a)
    ensures IsGapBetweenRows(a, b) ==> Top(a).Some? && Top(b).Some?
  {
  }

  // ---------------------------------------------------------------------------
  // The running state and the handlers

  /** What a handler sees besides the row: `{ first, seen, lastRow }`. */
  datatype Meta = Meta(first: bool, seen: set<RowType>, lastRow: Option<Row>)

  predicate IsChapterNumber(row: Row, meta: Meta)
  {
    meta.first && |row.sections| == 1 && Gt(Top(row), 120) && AllDigits(row.sections[0].text)
  }

  predicate IsChapterHeading(row: Row, meta: Meta)
  {
    var top := Top(row);
    Lt(top, 200) && Gt(top, 100) && Body !in meta.seen && PageHeader !in meta.seen
    && forall i :: 0 <= i < |row.sections| ==> AllUppercase(row.sections[i].text)
  }

  predicate IsIntroVerse(row: Row, meta: Meta)
  {
    var gapSinceLastRow := meta.lastRow.Some? && IsGapBetweenRows(meta.lastRow.value, row);
    var couldBeBodyText := IntroVerse in meta.seen && gapSinceLastRow;
    ChapterHeading in meta.seen && Body !in meta.seen && !couldBeBodyText && Gt(Left(row), 50)
  }

  /* The handlers below can throw: `None` stands for the TypeError of reading `style` of a
     null `lastRow` or `text` of a missing first section. JavaScript's `&&` stops at the
     first false operand, so a throwing operand after a false one is never evaluated. */

  /** Page number at the top of the page, or at the bottom once the body has started.
      Both constants are computed before the `||`, so the second can throw even when
      the first holds. */
  function PageHeaderTest(row: Row, meta: Meta): Option<bool>
  {
    var pageNumberAtTop := Body !in meta.seen && Lt(Top(row), 53);
    var pageNumberAtBottom: Option<bool> :=
      if !(ChapterHeading in meta.seen && Body in meta.seen) then Some(false)
      else if meta.lastRow.None? then None
      else if !Gt(DistanceBetweenRows(meta.lastRow.value, row), 15) then Some(false)
      else if row.sections == [] then None
      else Some(AllDigits(row.sections[0].text) && Gt(Top(row), 560));
    match pageNumberAtBottom
    case None => None
    case Some(b) => Some(pageNumberAtTop || b)
  }

  /** The first footnote row follows body text after a gap and has small type; every
      later row of the page is a footnote row too. */
  function FootnoteTest(row: Row, meta: Meta): Option<bool>
  {
    var isFirstFootnoteRow: Option<bool> :=
      if !(Body in meta.seen && Footnote !in meta.seen) then Some(false)
      else if meta.lastRow.None? then None
      else Some(Gt(DistanceBetweenRows(meta.lastRow.value, row), 16)
                && exists i :: 0 <= i < |row.sections| && Le(FontSize(row.sections[i]), 8));
    match isFirstFootnoteRow
    case None => None
    case Some(b) => Some(b || Footnote in meta.seen)
  }

  /** Body text: the first row after the intro verse that follows a gap, or any row
      before the footnotes. */
  function BodyTest(row: Row, meta: Meta): Option<bool>
  {
    var isFirstBodyRowAfterIntro: Option<bool> :=
      if !(IntroVerse in meta.seen && Body !in meta.seen) then Some(false)
      else if meta.lastRow.None? then None
      else Some(IsGapBetweenRows(meta.lastRow.value, row));
    match isFirstBodyRowAfterIntro
    case None => None
    case Some(b) => Some(b || Footnote !in meta.seen)
  }

  // ---------------------------------------------------------------------------
  // The per-page override table

  /** What replaces the FOOTNOTE handler on a listed page. */
  datatype FootnoteRule =
    | DefaultRule                               // no entry: the FOOTNOTE handler itself
    | DefaultAndTopOver(threshold: int)         // the handler, and top beyond a threshold
    | Never                                     // `() => false`
    | FirstSectionStartsWith(prefix: string)    // a regular expression on the first section

  /** `specialCases`: the three pages whose FOOTNOTE handler is replaced. */
  const SpecialCases: map<string, FootnoteRule> := map[
    "./html/page474.html" := DefaultAndTopOver(540),
    "./html/page676.html" := Never,
    "./html/page793.html" := FirstSectionStartsWith("1. ")
  ]

  function RuleFor(file: string): FootnoteRule
  {
    if file in SpecialCases then SpecialCases[file] else DefaultRule
  }

  /** The keys of the table are the page files of pages 474, 676 and 793. */
  lemma SpecialCasesArePages()
    ensures RuleFor(PageFile(474)) == DefaultAndTopOver(540)
    ensures RuleFor(PageFile(676)) == Never
    ensures RuleFor(PageFile(793)) == FirstSectionStartsWith("1. ")
    ensures forall n :: n != 474 && n != 676 && n != 793 ==> RuleFor(PageFile(n)) == DefaultRule
  {
    assert PageFile(474) == "./html/page474.html" && PageFile(676) == "./html/page676.html"
      && PageFile(793) == "./html/page793.html";
    assert NatToDecimal(4) == "4" && NatToDecimal(47) == "47" && NatToDecimal(474) == "474";
    assert NatToDecimal(6) == "6" && NatToDecimal(67) == "67" && NatToDecimal(676) == "676";
    assert NatToDecimal(7) == "7" && NatToDecimal(79) == "79" && NatToDecimal(793) == "793";
    forall n | n != 474 && n != 676 && n != 793 ensures PageFile(n) !in SpecialCases {
      if PageFile(n) == PageFile(474) { PageFileInjective(n, 474); }
      if PageFile(n) == PageFile(676) { PageFileInjective(n, 676); }
      if PageFile(n) == PageFile(793) { PageFileInjective(n, 793); }
    }
  }

  predicate StartsWith(s: string, prefix: string) { |prefix| <= |s| && s[..|prefix|] == prefix }

  /** The FOOTNOTE entry of the merged handler table of a page. */
  function FootnoteTestFor(rule: FootnoteRule, row: Row, meta: Meta): Option<bool>
  {
    match rule
    case DefaultRule => FootnoteTest(row, meta)
    case DefaultAndTopOver(threshold) =>
      (match FootnoteTest(row, meta)
       case None => None
       case Some(b) => Some(b && Gt(Top(row), threshold)))
    case Never => Some(false)
    case FirstSectionStartsWith(prefix) =>
      if row.sections == [] then None else Some(StartsWith(row.sections[0].text, prefix))
  }

  // ---------------------------------------------------------------------------
  // Dispatch

  /** The keys of `rowHandlers` in insertion order; `Object.assign` with an override keeps
      the position of the key it replaces. */
  const HandlerOrder: seq<RowType> := [ChapterNumber, ChapterHeading, IntroVerse, PageHeader, Footnote, Body]

  /** What each handler of a page's merged table returns for a row, in the order of
      `HandlerOrder`; `None` where it throws. */
  function Tests(rule: FootnoteRule, row: Row, meta: Meta): seq<Option<bool>>
  {
    [Some(IsChapterNumber(row, meta)), Some(IsChapterHeading(row, meta)), Some(IsIntroVerse(row, meta)),
     PageHeaderTest(row, meta), FootnoteTestFor(rule, row, meta), BodyTest(row, meta)]
  }

  /** Result `j` is the first true one from position `k` on, and every one before it was
      evaluated and false. */
  predicate FirstAt(tests: seq<Option<bool>>, k: nat, j: nat)
  {
    k <= j < |tests| && tests[j] == Some(true) && forall i :: k <= i < j ==> tests[i] == Some(false)
  }

  /** `find` over the handlers from position `k` on: the position of the first that
      holds, `None` when none does, and the TypeError of a handler that throws before
      one holds. */
  function FindFrom(tests: seq<Option<bool>>, k: nat): (r: Result<Option<nat>, Failure>)
    requires k <= |tests|
    ensures r == Success(None) <==> (forall j :: k <= j < |tests| ==> tests[j] == Some(false))
    ensures r.Success? && r.value.Some? ==> FirstAt(tests, k, r.value.value)
    ensures forall j :: FirstAt(tests, k, j) ==> r == Success(Some(j))
    ensures r.Failure? ==>
      (r.error.TypeError? && exists j :: k <= j < |tests| && tests[j].None? && forall i :: k <= i < j ==> tests[i] == Some(false))
    decreases |tests| - k
  {
    if k == |tests| then Success(None)
    else match tests[k]
      case None => Failure(TypeError("Cannot read properties of null or undefined"))
      case Some(true) => Success(Some(k))
      case Some(false) => FindFrom(tests, k + 1)
  }

  /** The message `assert` is given when no handler matches: the row interpolated into a
      template string prints as `[object Object]`. */
  const NoHandlerMessage: string := "No row handler found for [object Object]"

  /** The type `processRows` gives one row: the key of the first handler of the page's
      table that holds. */
  function Classify(row: Row, meta: Meta): Result<RowType, Failure>
  {
    match FindFrom(Tests(RuleFor(row.file), row, meta), 0)
    case Failure(e) => Failure(e)
    case Success(found) =>
      match Assert(found.Some?, Some(NoHandlerMessage))
      case Fail(e) => Failure(e)
      case Pass => Success(HandlerOrder[found.value])
  }

  /** Handler `j` of the row's table decides it. */
  predicate DecidesAt(row: Row, meta: Meta, j: nat)
  {
    FirstAt(Tests(RuleFor(row.file), row, meta), 0, j)
  }

  /** The position of a handled type in `HandlerOrder`. */
  function Rank(t: RowType): (j: nat)
    requires t in HandlerOrder
    ensures j < |HandlerOrder| && HandlerOrder[j] == t
    ensures forall i :: 0 <= i < |HandlerOrder| && HandlerOrder[i] == t ==> i == j
  {
    match t
    case ChapterNumber => 0
    case ChapterHeading => 1
    case IntroVerse => 2
    case PageHeader => 3
    case Footnote => 4
    case _ => 5
  }

  /** A row gets the key of the first handler that holds with every earlier one false;
      the assertion fails exactly when every handler returns false; otherwise the
      failure is a handler's TypeError. */
  lemma ClassifySpec(row: Row, meta: Meta)
    ensures var r := Classify(row, meta);
      && (r.Success? ==> r.value in HandlerOrder && DecidesAt(row, meta, Rank(r.value)))
      && (forall j: nat :: DecidesAt(row, meta, j) ==> r == Success(HandlerOrder[j]))
      && (r == Failure(Error(NoHandlerMessage)) <==>
          forall j :: 0 <= j < |HandlerOrder| ==> Tests(RuleFor(row.file), row, meta)[j] == Some(false))
      && (r.Failure? ==> r.error == Error(NoHandlerMessage) || r.error.TypeError?)
  {
    var found := FindFrom(Tests(RuleFor(row.file), row, meta), 0);
    if found.Success? && found.value.Some? {
      assert Rank(HandlerOrder[found.value.value]) == found.value.value;
    }
  }

  /** What a classification tells about the handlers: the chosen one held, every earlier
      one returned false. */
  lemma ClassifiedAs(row: Row, meta: Meta, t: RowType)
    requires Classify(row, meta) == Success(t)
    ensures t in HandlerOrder && DecidesAt(row, meta, Rank(t))
  {
    ClassifySpec(row, meta);
  }

  // ---------------------------------------------------------------------------
  // rowsFlatMapWithMeta

  /** A row handler as `rowsFlatMapWithMeta` calls it: the row with its type attached,
      or what the handler threw. */
  type Step = (Row, Meta) -> Result<TypedRow, Failure>

  /** The keys of `seen`: the types of the rows handled so far. */
  function Seen(out: seq<TypedRow>): set<RowType>
  {
    set k | 0 <= k < |out| :: out[k].rowType
  }

  /** The state a handler sees at row `i`: `first` only at row 0, `seen` the types of
      the rows before it, `lastRow` the row right before it. */
  function MetaAt(rows: seq<Row>, out: seq<TypedRow>, i: nat): Meta
    requires i <= |rows| && i <= |out|
  {
    Meta(i == 0, Seen(out[..i]), if i == 0 then None else Some(rows[i - 1]))
  }

  /** What `rowsFlatMapWithMeta(rows, fn)` returns: every row handled in the state its
      predecessors define; the first failure ends the page. */
  function MapWithMeta(rows: seq<Row>, fn: Step): (r: Result<seq<TypedRow>, Failure>)
    ensures r.Success? ==> |r.value| == |rows|
  {
    if rows == [] then Success([])
    else
      var n := |rows| - 1;
      match MapWithMeta(rows[..n], fn)
      case Failure(e) => Failure(e)
      case Success(out) =>
        match fn(rows[n], MetaAt(rows, out, n))
        case Failure(e) => Failure(e)
        case Success(typed) => Success(out + [typed])
  }

  lemma {:induction false} MapWithMetaFailureSticks(rows: seq<Row>, fn: Step, i: nat)
    requires i <= |rows| && MapWithMeta(rows[..i], fn).Failure?
    ensures MapWithMeta(rows, fn) == MapWithMeta(rows[..i], fn)
    decreases |rows| - i
  {
    if i < |rows| {
      assert rows[..i + 1][..i] == rows[..i];
      MapWithMetaFailureSticks(rows, fn, i + 1);
    } else {
      assert rows[..i] == rows;
    }
  }

  lemma {:induction false} MapWithMetaPrefix(rows: seq<Row>, fn: Step, i: nat)
    requires i <= |rows| && MapWithMeta(rows, fn).Success?
    ensures MapWithMeta(rows[..i], fn) == Success(MapWithMeta(rows, fn).value[..i])
    decreases |rows|
  {
    var out := MapWithMeta(rows, fn).value;
    if i == |rows| {
      assert rows[..i] == rows;
      assert out[..i] == out;
    } else {
      var n := |rows| - 1;
      var pre := MapWithMeta(rows[..n], fn).value;
      assert out == pre + [out[n]];
      MapWithMetaPrefix(rows[..n], fn, i);
      assert rows[..n][..i] == rows[..i];
      assert (pre + [out[n]])[..i] == pre[..i];
    }
  }

  /** Every row of a handled page got what the handler gives it in the state of the
      rows before it. */
  lemma {:induction false} HandledAt(rows: seq<Row>, fn: Step, i: nat)
    requires i < |rows| && MapWithMeta(rows, fn).Success?
    ensures var out := MapWithMeta(rows, fn).value;
      fn(rows[i], MetaAt(rows, out, i)) == Success(out[i])
  {
    var out := MapWithMeta(rows, fn).value;
    MapWithMetaPrefix(rows, fn, i + 1);
    MapWithMetaPrefix(rows, fn, i);
    var pre := rows[..i + 1];
    assert pre[..i] == rows[..i];
    assert out[..i + 1][..i] == out[..i];
    assert MetaAt(pre, out[..i], i) == MetaAt(rows, out, i) by {
      assert out[..i][..i] == out[..i];
    }
    assert pre[i] == rows[i];
  }

  /** What the `flatMap` callback returns for row `i`: the handler's one result in
      the state of the rows before it. A throw would escape `flatMap` instead; the
      empty sequence only fills that case, which cannot arise on a completed pass. */
  function CallbackAt(rows: seq<Row>, out: seq<TypedRow>, fn: Step, i: int): seq<TypedRow>
  {
    if 0 <= i < |rows| && i <= |out| then
      match fn(rows[i], MetaAt(rows, out, i))
      case Success(typed) => [typed]
      case Failure(_) => []
    else []
  }

  /** The positions `0, 1, …, n - 1` the pass walks through. */
  function Positions(n: nat): (r: seq<int>)
    ensures |r| == n && forall i :: 0 <= i < n ==> r[i] == i
  {
    seq(n, i => i)
  }

  /** The pass is the `flatMap` of the source: each callback gives one row, and
      flattening them gives the page's output in row order. */
  lemma MapWithMetaIsFlatMap(rows: seq<Row>, fn: Step)
    requires MapWithMeta(rows, fn).Success?
    ensures var out := MapWithMeta(rows, fn).value;
      FlatMap(Positions(|rows|), i => CallbackAt(rows, out, fn, i)) == out
  {
    var out := MapWithMeta(rows, fn).value;
    var positions := Positions(|rows|);
    forall i | 0 <= i < |positions| ensures CallbackAt(rows, out, fn, positions[i]) == [out[i]] {
      HandledAt(rows, fn, i);
    }
    FlatMapOfSingletons(positions, i => CallbackAt(rows, out, fn, i), out);
  }

  /** `rowsFlatMapWithMeta`: one pass over the rows that keeps `seen`, `first` and
      `lastRow` up to date between the calls of `fn`. */
  method RowsFlatMapWithMeta(rows: seq<Row>, fn: Step) returns (r: Result<seq<TypedRow>, Failure>)
    ensures r == MapWithMeta(rows, fn)
  {
    var seen: set<RowType> := {};
    var first := true;
    var lastRow: Option<Row> := None;
    var out: seq<TypedRow> := [];
    var i := 0;
    while i < |rows|
      invariant 0 <= i <= |rows|
      invariant MapWithMeta(rows[..i], fn) == Success(out)
      invariant seen == Seen(out)
      invariant first <==> i == 0
      invariant lastRow == if i == 0 then None else Some(rows[i - 1])
    {
      var meta := Meta(first, seen, lastRow);
      var result := fn(rows[i], meta);
      assert rows[..i + 1][..i] == rows[..i];
      assert meta == MetaAt(rows[..i + 1], out, i) by {
        assert out[..i] == out;
      }
      if result.Failure? {
        MapWithMetaFailureSticks(rows, fn, i + 1);
        return Failure(result.error);
      }
      assert Seen(out + [result.value]) == seen + {result.value.rowType} by {
        var next := out + [result.value];
        assert next[|out|] == result.value;
        assert forall k :: 0 <= k < |out| ==> next[k] == out[k];
      }
      seen := seen + {result.value.rowType};
      first := false;
      lastRow := Some(rows[i]);
      out := out + [result.value];
      i := i + 1;
    }
    assert rows[..i] == rows;
    r := Success(out);
  }

  // ---------------------------------------------------------------------------
  // processRows

  /** The function `processRows` passes to `rowsFlatMapWithMeta`: the row classified
      and copied with its `rowType`. */
  function HandleRow(row: Row, meta: Meta): Result<TypedRow, Failure>
  {
    match Classify(row, meta)
    case Failure(e) => Failure(e)
    case Success(t) => Success(TypedRow(t, row))
  }

  function ProcessPage(rows: seq<Row>): Result<seq<TypedRow>, Failure>
  {
    MapWithMeta(rows, HandleRow)
  }

  /** `processRows(rows)` for the rows of one page. */
  method ProcessRows(rows: seq<Row>) returns (r: Result<seq<TypedRow>, Failure>)
    ensures r == ProcessPage(rows)
  {
    r := RowsFlatMapWithMeta(rows, HandleRow);
  }

  /** Each row of a processed page comes out unchanged with the type its handlers give
      it in the state of the rows before it. */
  lemma ProcessedAt(rows: seq<Row>, i: nat)
    requires i < |rows| && ProcessPage(rows).Success?
    ensures var out := ProcessPage(rows).value;
      out[i].row == rows[i] && Classify(rows[i], MetaAt(rows, out, i)) == Success(out[i].rowType)
  {
    HandledAt(rows, HandleRow, i);
  }

  // ---------------------------------------------------------------------------
  // Properties of a processed page

  /** CHAPTER_NUMBER goes only to the first row of a page, and only to a row with a
      single all-digit section below top 120. */
  lemma ChapterNumberOnlyOnFirstRow(rows: seq<Row>, i: nat)
    requires ProcessPage(rows).Success? && i < |rows|
    requires ProcessPage(rows).value[i].rowType == ChapterNumber
    ensures i == 0
    ensures |rows[0].sections| == 1 && Gt(Top(rows[0]), 120) && AllDigits(rows[0].sections[0].text)
  {
    ProcessedAt(rows, i);
    ClassifiedAs(rows[i], MetaAt(rows, ProcessPage(rows).value, i), ChapterNumber);
  }

  /** On a page whose footnote test still requires body text, a FOOTNOTE row always
      has a BODY row above it on the same page. */
  lemma {:induction false} FootnoteFollowsBody(rows: seq<Row>, i: nat)
    requires ProcessPage(rows).Success? && i < |rows|
    requires forall k :: 0 <= k < |rows| ==> !RuleFor(rows[k].file).FirstSectionStartsWith?
    requires ProcessPage(rows).value[i].rowType == Footnote
    ensures exists j :: 0 <= j < i && ProcessPage(rows).value[j].rowType == Body
    decreases i
  {
    var out := ProcessPage(rows).value;
    var meta := MetaAt(rows, out, i);
    ProcessedAt(rows, i);
    ClassifiedAs(rows[i], meta, Footnote);
    assert Tests(RuleFor(rows[i].file), rows[i], meta)[4] == Some(true);
    if Body in meta.seen {
      var j :| 0 <= j < i && out[..i][j].rowType == Body;
      assert out[j].rowType == Body;
    } else {
      assert Footnote in meta.seen;
      var j :| 0 <= j < i && out[..i][j].rowType == Footnote;
      assert out[j].rowType == Footnote;
      FootnoteFollowsBody(rows, j);
    }
  }

  /** After the first FOOTNOTE row of such a page, only page headers and footnotes follow. */
  lemma AfterFootnoteOnlyHeadersAndFootnotes(rows: seq<Row>, i: nat, j: nat)
    requires ProcessPage(rows).Success? && i < j < |rows|
    requires forall k :: 0 <= k < |rows| ==> !RuleFor(rows[k].file).FirstSectionStartsWith?
    requires ProcessPage(rows).value[i].rowType == Footnote
    ensures ProcessPage(rows).value[j].rowType in {PageHeader, Footnote}
  {
    var out := ProcessPage(rows).value;
    FootnoteFollowsBody(rows, i);
    var b :| 0 <= b < i && out[b].rowType == Body;
    var meta := MetaAt(rows, out, j);
    assert out[..j][b].rowType == Body && out[..j][i].rowType == Footnote;
    assert Body in meta.seen && Footnote in meta.seen && !meta.first;
    ProcessedAt(rows, j);
    ClassifiedAs(rows[j], meta, out[j].rowType);
  }

  /** On a page without an override the assertion never fails: once a footnote has been
      seen the FOOTNOTE handler holds, and before that the BODY handler does. */
  lemma ClassifyNeverAssertsByDefault(row: Row, meta: Meta)
    requires RuleFor(row.file) == DefaultRule
    ensures Classify(row, meta) != Failure(Error(NoHandlerMessage))
  {
    var rule := RuleFor(row.file);
    ClassifySpec(row, meta);
    if Footnote in meta.seen {
      assert Tests(rule, row, meta)[4] != Some(false);
    } else {
      assert Tests(rule, row, meta)[5] != Some(false);
    }
  }

  lemma {:induction false} ProcessPageNeverAssertsByDefault(rows: seq<Row>)
    requires forall k :: 0 <= k < |rows| ==> RuleFor(rows[k].file) == DefaultRule
    ensures ProcessPage(rows) != Failure(Error(NoHandlerMessage))
    decreases |rows|
  {
    if rows != [] {
      var n := |rows| - 1;
      ProcessPageNeverAssertsByDefault(rows[..n]);
      if ProcessPage(rows[..n]).Success? {
        ClassifyNeverAssertsByDefault(rows[n], MetaAt(rows, ProcessPage(rows[..n]).value, n));
      }
    }
  }

  /** A state that a page can reach: nothing is seen before the first row, and every
      later row has the row before it. */
  predicate Reachable(meta: Meta)
  {
    meta.lastRow.None? ==> meta.seen == {}
  }

  /** With every row holding a section, no handler throws in a reachable state, so on a
      page without an override every row is classified. */
  lemma ClassifyTotal(row: Row, meta: Meta)
    requires RuleFor(row.file) == DefaultRule && Reachable(meta) && row.sections != []
    ensures Classify(row, meta).Success?
  {
    var rule := RuleFor(row.file);
    ClassifyNeverAssertsByDefault(row, meta);
    ClassifySpec(row, meta);
    forall j | 0 <= j < |HandlerOrder| ensures Tests(rule, row, meta)[j].Some? {
    }
  }

  lemma {:induction false} ProcessPageTotal(rows: seq<Row>)
    requires forall k :: 0 <= k < |rows| ==> RuleFor(rows[k].file) == DefaultRule && rows[k].sections != []
    ensures ProcessPage(rows).Success?
    decreases |rows|
  {
    if rows != [] {
      var n := |rows| - 1;
      ProcessPageTotal(rows[..n]);
      var out := ProcessPage(rows[..n]).value;
      assert n == 0 ==> out[..n] == [];
      ClassifyTotal(rows[n], MetaAt(rows, out, n));
    }
  }

  /** Page 676 never yields FOOTNOTE. */
  lemma NeverPageHasNoFootnote(row: Row, meta: Meta)
    requires RuleFor(row.file) == Never
    ensures Classify(row, meta) != Success(Footnote)
  {
    if Classify(row, meta) == Success(Footnote) {
      ClassifiedAs(row, meta, Footnote);
    }
  }

  /** On page 793 FOOTNOTE is decided by the first section alone: given that the four
      earlier handlers fail, the row is a footnote exactly when that section starts
      with `1. `. */
  lemma PrefixPageFootnote(row: Row, meta: Meta)
    requires RuleFor(row.file) == FirstSectionStartsWith("1. ")
    ensures Classify(row, meta) == Success(Footnote) ==>
      row.sections != [] && StartsWith(row.sections[0].text, "1. ")
    ensures (forall j :: 0 <= j < 4 ==> Tests(RuleFor(row.file), row, meta)[j] == Some(false))
      && row.sections != [] && StartsWith(row.sections[0].text, "1. ")
      ==> Classify(row, meta) == Success(Footnote)
  {
    if Classify(row, meta) == Success(Footnote) {
      ClassifiedAs(row, meta, Footnote);
    }
    var rule := RuleFor(row.file);
    ClassifySpec(row, meta);
    if (forall j :: 0 <= j < 4 ==> Tests(rule, row, meta)[j] == Some(false))
      && row.sections != [] && StartsWith(row.sections[0].text, "1. ") {
      assert DecidesAt(row, meta, 4);
    }
  }

  /** On page 474 a FOOTNOTE row passes the default test and lies below top 540. */
  lemma ShiftedPageFootnote(row: Row, meta: Meta)
    requires RuleFor(row.file) == DefaultAndTopOver(540)
    requires Classify(row, meta) == Success(Footnote)
    ensures FootnoteTest(row, meta) == Some(true) && Gt(Top(row), 540)
  {
    ClassifiedAs(row, meta, Footnote);
  }
}
