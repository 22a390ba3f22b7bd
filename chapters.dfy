/** The chapter segmenter: the typed rows of the whole book, page headers dropped, are
    cut into chapters in one left-to-right pass that keeps a pointer to the chapter
    being filled. */
module Chapters {
  import opened Shared
  import ParseHtml

  // ---------------------------------------------------------------------------
  // Row filters

  /** The rows whose type is not `t`, in their order. */
  function Without(rows: seq<TypedRow>, t: RowType): (r: seq<TypedRow>)
    ensures |r| <= |rows|
    ensures forall i :: 0 <= i < |r| ==> r[i].rowType != t && r[i] in rows
  {
    if rows == [] then []
    else
      var rest := Without(rows[..|rows| - 1], t);
      if rows[|rows| - 1].rowType == t then rest else rest + [rows[|rows| - 1]]
  }

  lemma {:induction false} WithoutAppend(a: seq<TypedRow>, b: seq<TypedRow>, t: RowType)
    ensures Without(a + b, t) == Without(a, t) + Without(b, t)
    decreases |b|
  {
    if b == [] {
      assert a + b == a;
    } else {
      var n := |b| - 1;
      assert (a + b)[..|a + b| - 1] == a + b[..n];
      WithoutAppend(a, b[..n], t);
    }
  }

  /** Filtering keeps exactly the rows of other types: none is dropped, none is added. */
  lemma {:induction false} WithoutCounts(rows: seq<TypedRow>, t: RowType, x: TypedRow)
    ensures multiset(Without(rows, t))[x] == if x.rowType == t then 0 else multiset(rows)[x]
    decreases |rows|
  {
    if rows != [] {
      var n := |rows| - 1;
      assert rows == rows[..n] + [rows[n]];
      WithoutCounts(rows[..n], t, x);
    }
  }

  /** `main`'s first step: every PAGE_HEADER row is dropped. */
  function DropPageHeaders(intermediate: seq<TypedRow>): seq<TypedRow>
  {
    Without(intermediate, PageHeader)
  }

  // ---------------------------------------------------------------------------
  // getChapterTitle

  /** The rows of type `t`, in their order. */
  function OfType(rows: seq<TypedRow>, t: RowType): (r: seq<TypedRow>)
    ensures |r| <= |rows|
    ensures forall i :: 0 <= i < |r| ==> r[i].rowType == t && r[i] in rows
  {
    if rows == [] then []
    else
      var rest := OfType(rows[..|rows| - 1], t);
      if rows[|rows| - 1].rowType == t then rest + [rows[|rows| - 1]] else rest
  }

  lemma {:induction false} OfTypeAppend(a: seq<TypedRow>, b: seq<TypedRow>, t: RowType)
    ensures OfType(a + b, t) == OfType(a, t) + OfType(b, t)
    decreases |b|
  {
    if b == [] {
      assert a + b == a;
    } else {
      var n := |b| - 1;
      assert (a + b)[..|a + b| - 1] == a + b[..n];
      OfTypeAppend(a, b[..n], t);
    }
  }

  /** The row texts joined with the empty separator. */
  function JoinTexts(rows: seq<TypedRow>): string
  {
    if rows == [] then [] else JoinTexts(rows[..|rows| - 1]) + GrabAllRowText(rows[|rows| - 1].row)
  }

  lemma {:induction false} JoinTextsAppend(a: seq<TypedRow>, b: seq<TypedRow>)
    ensures JoinTexts(a + b) == JoinTexts(a) + JoinTexts(b)
    decreases |b|
  {
    if b == [] {
      assert a + b == a;
    } else {
      var n := |b| - 1;
      assert (a + b)[..|a + b| - 1] == a + b[..n];
      JoinTextsAppend(a, b[..n]);
    }
  }

  /** `getChapterTitle(rows)`: the CHAPTER_HEADING rows' texts joined with ''. */
  function GetChapterTitle(rows: seq<TypedRow>): string
  {
    JoinTexts(OfType(rows, ChapterHeading))
  }

  /** A title is the titles of its parts, one after the other. */
  lemma TitleOfAppend(a: seq<TypedRow>, b: seq<TypedRow>)
    ensures GetChapterTitle(a + b) == GetChapterTitle(a) + GetChapterTitle(b)
  {
    OfTypeAppend(a, b, ChapterHeading);
    JoinTextsAppend(OfType(a, ChapterHeading), OfType(b, ChapterHeading));
  }

  /** A lone heading's title is its text; any other lone row has none. */
  lemma TitleOfOne(row: TypedRow)
    ensures GetChapterTitle([row]) == if row.rowType == ChapterHeading then GrabAllRowText(row.row) else []
  {
    assert [row][..0] == [];
    if row.rowType == ChapterHeading {
      assert OfType([row], ChapterHeading) == [row];
      assert JoinTexts([row]) == JoinTexts([]) + GrabAllRowText(row.row);
    }
  }

  /** Rows without a heading give an empty title. */
  lemma {:induction false} TitleWithoutHeadings(rows: seq<TypedRow>)
    requires forall i :: 0 <= i < |rows| ==> rows[i].rowType != ChapterHeading
    ensures GetChapterTitle(rows) == []
    decreases |rows|
  {
    if rows != [] {
      TitleWithoutHeadings(rows[..|rows| - 1]);
    }
  }

  // ---------------------------------------------------------------------------
  // splitRowsIntoChapters, on values

  /** A chapter as a value: its number (NaN when the number row did not parse) and rows. */
  datatype ChapterValue = ChapterValue(number: Option<int>, rows: seq<TypedRow>)

  /** `currentChapter.number + 1`, NaN staying NaN. */
  function Next(n: Option<int>): Option<int>
  {
    match n
    case None => None
    case Some(k) => Some(k + 1)
  }

  const Conclusion: string := "CONCLUSION"

  /** How one row changes the chapter list: the last chapter is the current one. */
  function Step(chapters: seq<ChapterValue>, row: TypedRow): Result<seq<ChapterValue>, Failure>
  {
    if chapters == [] && row.rowType == ChapterHeading then
      Success([ChapterValue(Some(0), [row])])
    else if row.rowType == ChapterHeading && row.row.sections == [] then
      Failure(TypeError("Cannot read properties of undefined (reading 'text')"))
    else if row.rowType == ChapterHeading && row.row.sections[0].text == Conclusion then
      Success(chapters + [ChapterValue(Next(chapters[|chapters| - 1].number), [row])])
    else if row.rowType == ChapterNumber then
      if row.row.sections == [] then Failure(TypeError("Cannot read properties of undefined (reading 'text')"))
      else Success(chapters + [ChapterValue(Int(Some(row.row.sections[0].text)), [])])
    else if chapters == [] then
      Failure(TypeError("Cannot read properties of null (reading 'rows')"))
    else
      var current := chapters[|chapters| - 1];
      Success(chapters[..|chapters| - 1] + [ChapterValue(current.number, current.rows + [row])])
  }

  /** What `splitRowsIntoChapters(data)` returns, or the first error it throws. */
  function Split(data: seq<TypedRow>): Result<seq<ChapterValue>, Failure>
  {
    if data == [] then Success([])
    else
      match Split(data[..|data| - 1])
      case Failure(e) => Failure(e)
      case Success(chapters) => Step(chapters, data[|data| - 1])
  }

  /** A row that makes a chapter: CHAPTER_NUMBER, the heading that comes before any
      chapter is open, or a CONCLUSION heading. */
  predicate Opens(row: TypedRow, first: bool)
  {
    row.rowType == ChapterNumber
    || (row.rowType == ChapterHeading && (first || (row.row.sections != [] && row.row.sections[0].text == Conclusion)))
  }

  /** The number of rows of `data` that open a chapter. */
  function Openers(data: seq<TypedRow>): nat
  {
    if data == [] then 0
    else Openers(data[..|data| - 1]) + (if Opens(data[|data| - 1], |data| == 1) then 1 else 0)
  }

  /** All the rows of the chapters, in chapter order. */
  function AllRows(chapters: seq<ChapterValue>): seq<TypedRow>
  {
    if chapters == [] then [] else AllRows(chapters[..|chapters| - 1]) + chapters[|chapters| - 1].rows
  }

  lemma {:induction false} AllRowsAppend(a: seq<ChapterValue>, b: seq<ChapterValue>)
    ensures AllRows(a + b) == AllRows(a) + AllRows(b)
    decreases |b|
  {
    if b == [] {
      assert a + b == a;
    } else {
      var n := |b| - 1;
      assert (a + b)[..|a + b| - 1] == a + b[..n];
      AllRowsAppend(a, b[..n]);
    }
  }

  /** The step keeps the partition: a number row adds no row, every other row is added
      at the end. */
  lemma StepPartition(chapters: seq<ChapterValue>, row: TypedRow)
    requires Step(chapters, row).Success?
    ensures AllRows(Step(chapters, row).value) == AllRows(chapters) + Without([row], ChapterNumber)
    ensures |Step(chapters, row).value| == |chapters| + (if Opens(row, chapters == []) then 1 else 0)
  {
    var next := Step(chapters, row).value;
    assert Without([row], ChapterNumber) == (if row.rowType == ChapterNumber then [] else [row]) by {
      assert [row][..0] == [];
    }
    if chapters != [] && !Opens(row, false) {
      AppendToLast(chapters, next, row);
    } else {
      assert next == chapters + [next[|next| - 1]];
      AllRowsAppend(chapters, [next[|next| - 1]]);
      assert AllRows([next[|next| - 1]]) == next[|next| - 1].rows;
    }
  }

  /** Adding a row to the last chapter adds it at the end of all the rows. */
  lemma AppendToLast(chapters: seq<ChapterValue>, next: seq<ChapterValue>, row: TypedRow)
    requires chapters != [] && |next| == |chapters|
    requires next[..|chapters| - 1] == chapters[..|chapters| - 1]
    requires next[|chapters| - 1].rows == chapters[|chapters| - 1].rows + [row]
    ensures AllRows(next) == AllRows(chapters) + [row]
  {
    var n := |chapters| - 1;
    assert chapters == chapters[..n] + [chapters[n]];
    assert next == chapters[..n] + [next[n]];
    AllRowsAppend(chapters[..n], [chapters[n]]);
    AllRowsAppend(chapters[..n], [next[n]]);
    assert AllRows([chapters[n]]) == chapters[n].rows;
    assert AllRows([next[n]]) == next[n].rows;
  }

  /** The partition: the chapters' rows, concatenated, are the input without its
      CHAPTER_NUMBER rows; and there is one chapter per opening row. */
  lemma {:induction false} SplitPartition(data: seq<TypedRow>)
    requires Split(data).Success?
    ensures AllRows(Split(data).value) == Without(data, ChapterNumber)
    ensures |Split(data).value| == Openers(data)
    decreases |data|
  {
    if data != [] {
      var n := |data| - 1;
      SplitPartition(data[..n]);
      var chapters := Split(data[..n]).value;
      SplitOpenIffStarted(data[..n]);
      StepPartition(chapters, data[n]);
      assert data == data[..n] + [data[n]];
      WithoutAppend(data[..n], [data[n]], ChapterNumber);
    }
  }

  /** A chapter is open exactly when the input had a row. */
  lemma {:induction false} SplitOpenIffStarted(data: seq<TypedRow>)
    requires Split(data).Success?
    ensures Split(data).value == [] <==> data == []
    decreases |data|
  {
    if data != [] {
      SplitOpenIffStarted(data[..|data| - 1]);
    }
  }

  /** When the input can be split: the first row opens a chapter (a heading, or a
      number row with a section), and every later heading and number row has a first
      section to read. */
  predicate Splittable(data: seq<TypedRow>)
  {
    (data != [] ==>
      (data[0].rowType == ChapterHeading || (data[0].rowType == ChapterNumber && data[0].row.sections != [])))
    && forall i :: 0 < i < |data| && data[i].rowType in {ChapterHeading, ChapterNumber} ==> data[i].row.sections != []
  }

  /** `splitRowsIntoChapters` throws exactly when the input is not splittable: a row
      before any chapter, or a heading or number row without a section. */
  lemma {:induction false} SplitSucceedsIff(data: seq<TypedRow>)
    ensures Split(data).Success? <==> Splittable(data)
    ensures Split(data).Failure? ==> Split(data).error.TypeError?
    decreases |data|
  {
    if data != [] {
      var n := |data| - 1;
      SplitSucceedsIff(data[..n]);
      SplittableSnoc(data);
      if Split(data[..n]).Success? {
        SplitOpenIffStarted(data[..n]);
      }
    }
  }

  /** Input is splittable when its prefix is and its last row can be placed. */
  lemma SplittableSnoc(data: seq<TypedRow>)
    requires data != []
    ensures var n := |data| - 1;
      Splittable(data) <==> (Splittable(data[..n])
        && (n > 0 && data[n].rowType in {ChapterHeading, ChapterNumber} ==> data[n].row.sections != [])
        && (n == 0 ==> data[0].rowType == ChapterHeading || (data[0].rowType == ChapterNumber && data[0].row.sections != [])))
  {
    var n := |data| - 1;
    assert forall i :: 0 <= i < n ==> data[..n][i] == data[i];
  }

  /** A CONCLUSION heading after an open chapter opens the next number with that row. */
  lemma ConclusionOpensNext(data: seq<TypedRow>, row: TypedRow)
    requires Split(data).Success? && data != []
    requires row.rowType == ChapterHeading && row.row.sections != [] && row.row.sections[0].text == Conclusion
    ensures var before := Split(data).value;
      Split(data + [row]).Success?
      && Split(data + [row]).value == before + [ChapterValue(Next(before[|before| - 1].number), [row])]
  {
    SplitOpenIffStarted(data);
    assert (data + [row])[..|data|] == data;
  }

  /** A number row opens an empty chapter with the parsed number; the row is not kept. */
  lemma NumberRowOpensEmpty(data: seq<TypedRow>, row: TypedRow)
    requires Split(data).Success?
    requires row.rowType == ChapterNumber && row.row.sections != []
    ensures Split(data + [row]).Success?
      && Split(data + [row]).value == Split(data).value + [ChapterValue(Int(Some(row.row.sections[0].text)), [])]
  {
    assert (data + [row])[..|data|] == data;
  }

  /** Any other row is appended to the current chapter, the rest staying as it was. */
  lemma OtherRowAppends(data: seq<TypedRow>, row: TypedRow)
    requires Split(data).Success? && data != []
    requires !Opens(row, false)
    requires row.rowType == ChapterHeading ==> row.row.sections != []
    ensures var before := Split(data).value;
      var n := |before| - 1;
      Split(data + [row]).Success?
      && |Split(data + [row]).value| == |before|
      && Split(data + [row]).value[..n] == before[..n]
      && Split(data + [row]).value[n] == ChapterValue(before[n].number, before[n].rows + [row])
  {
    SplitOpenIffStarted(data);
    assert (data + [row])[..|data|] == data;
  }

  /** Input that starts with a heading starts chapter 0 with that heading. */
  lemma {:induction false} FirstHeadingOpensZero(data: seq<TypedRow>)
    requires Split(data).Success? && data != [] && data[0].rowType == ChapterHeading
    ensures Split(data).value[0].number == Some(0)
    ensures Split(data).value[0].rows != [] && Split(data).value[0].rows[0] == data[0]
    decreases |data|
  {
    var n := |data| - 1;
    if n > 0 {
      FirstHeadingOpensZero(data[..n]);
      SplitOpenIffStarted(data[..n]);
      assert data[..n][0] == data[0];
      assert Split(data) == Step(Split(data[..n]).value, data[n]);
      StepKeepsFirst(Split(data[..n]).value, data[n]);
    } else {
      assert data[..n] == [];
    }
  }

  /** A step leaves the first chapter's number alone and only adds rows after its own. */
  lemma StepKeepsFirst(chapters: seq<ChapterValue>, row: TypedRow)
    requires chapters != [] && Step(chapters, row).Success?
    ensures Step(chapters, row).value != []
    ensures Step(chapters, row).value[0].number == chapters[0].number
    ensures chapters[0].rows <= Step(chapters, row).value[0].rows
  {
  }

  // ---------------------------------------------------------------------------
  // splitRowsIntoChapters, on objects

  /** A chapter object: `rows` grows while it is the current chapter. */
  class Chapter {
    const number: Option<int>
    var rows: seq<TypedRow>

    constructor (number: Option<int>, rows: seq<TypedRow>)
      ensures this.number == number && this.rows == rows
    {
      this.number := number;
      this.rows := rows;
    }
  }

  /** The chapter objects hold, index by index, the chapter values. */
  ghost predicate Holds(chapters: seq<Chapter>, values: seq<ChapterValue>)
    reads set i | 0 <= i < |chapters| :: chapters[i]
  {
    |chapters| == |values|
    && forall i :: 0 <= i < |chapters| ==> chapters[i].number == values[i].number && chapters[i].rows == values[i].rows
  }

  /** No chapter object occurs twice. */
  predicate Distinct(chapters: seq<Chapter>)
  {
    forall i, j :: 0 <= i < j < |chapters| ==> chapters[i] != chapters[j]
  }

  /** `createChapter(number, row)`: a new chapter becomes the current one and is pushed. */
  method CreateChapter(chapters: seq<Chapter>, number: Option<int>, rows: seq<TypedRow>)
    returns (chapters': seq<Chapter>, currentChapter: Chapter)
    ensures fresh(currentChapter) && currentChapter.number == number && currentChapter.rows == rows
    ensures chapters' == chapters + [currentChapter]
  {
    currentChapter := new Chapter(number, rows);
    chapters' := chapters + [currentChapter];
  }

  lemma HoldsExtend(chapters: seq<Chapter>, values: seq<ChapterValue>, c: Chapter, v: ChapterValue)
    requires Holds(chapters, values) && c.number == v.number && c.rows == v.rows
    ensures Holds(chapters + [c], values + [v])
  {
  }

  /** The `forEach` callback of `splitRowsIntoChapters`: where one row goes. */
  method PlaceRow(chapters: seq<Chapter>, currentChapter: Chapter?, row: TypedRow, ghost values: seq<ChapterValue>)
    returns (r: Result<seq<Chapter>, Failure>, current: Chapter?)
    requires Holds(chapters, values)
    requires Distinct(chapters)
    requires currentChapter == null <==> chapters == []
    requires currentChapter != null ==> currentChapter == chapters[|chapters| - 1]
    modifies currentChapter
    ensures r.Failure? <==> Step(values, row).Failure?
    ensures r.Failure? ==> r.error == Step(values, row).error
    ensures r.Success? ==> Holds(r.value, Step(values, row).value)
    ensures r.Success? ==> Distinct(r.value)
    ensures r.Success? ==> current != null && current == r.value[|r.value| - 1]
    ensures r.Success? ==> forall i :: 0 <= i < |r.value| ==> r.value[i] in chapters || fresh(r.value[i])
  {
    ghost var next := Step(values, row);
    current := currentChapter;
    if currentChapter == null && row.rowType == ChapterHeading {
      var chapters';
      chapters', current := CreateChapter(chapters, Some(0), [row]);
      HoldsExtend([], values, current, next.value[0]);
      r := Success(chapters');
    } else if row.rowType == ChapterHeading && row.row.sections == [] {
      r := Failure(TypeError("Cannot read properties of undefined (reading 'text')"));
    } else if row.rowType == ChapterHeading && row.row.sections[0].text == Conclusion {
      var chapters';
      chapters', current := CreateChapter(chapters, Next(currentChapter.number), [row]);
      HoldsExtend(chapters, values, current, next.value[|values|]);
      assert next.value == values + [next.value[|values|]];
      r := Success(chapters');
    } else if row.rowType == ChapterNumber {
      if row.row.sections == [] {
        r := Failure(TypeError("Cannot read properties of undefined (reading 'text')"));
      } else {
        var chapters';
        chapters', current := CreateChapter(chapters, Int(Some(row.row.sections[0].text)), []);
        HoldsExtend(chapters, values, current, next.value[|values|]);
        assert next.value == values + [next.value[|values|]];
        r := Success(chapters');
      }
    } else if currentChapter == null {
      r := Failure(TypeError("Cannot read properties of null (reading 'rows')"));
    } else {
      currentChapter.rows := currentChapter.rows + [row];
      r := Success(chapters);
    }
  }

  /** `splitRowsIntoChapters(data)`: new, distinct chapter objects holding what `Split`
      describes, or the error of the first row it cannot place. */
  method SplitRowsIntoChapters(data: seq<TypedRow>) returns (r: Result<seq<Chapter>, Failure>)
    ensures r.Failure? <==> Split(data).Failure?
    ensures r.Failure? ==> r.error == Split(data).error
    ensures r.Success? ==> Holds(r.value, Split(data).value)
    ensures r.Success? ==> forall i :: 0 <= i < |r.value| ==> fresh(r.value[i])
    ensures r.Success? ==> Distinct(r.value)
  {
    var chapters: seq<Chapter> := [];
    var currentChapter: Chapter? := null;
    ghost var values: seq<ChapterValue> := [];
    var k := 0;
    while k < |data|
      invariant 0 <= k <= |data|
      invariant Split(data[..k]) == Success(values)
      invariant Holds(chapters, values)
      invariant forall i :: 0 <= i < |chapters| ==> fresh(chapters[i])
      invariant Distinct(chapters)
      invariant currentChapter == null <==> chapters == []
      invariant currentChapter != null ==> currentChapter == chapters[|chapters| - 1]
    {
      assert data[..k + 1][..k] == data[..k];
      var placed, current := PlaceRow(chapters, currentChapter, data[k], values);
      if placed.Failure? {
        FirstFailureDecides(data, k);
        return Failure(placed.error);
      }
      chapters, currentChapter := placed.value, current;
      values := Step(values, data[k]).value;
      k := k + 1;
    }
    assert data[..k] == data;
    r := Success(chapters);
  }

  /** A failing step ends the split with its error. */
  lemma {:induction false} FirstFailureDecides(data: seq<TypedRow>, k: nat)
    requires k < |data| && Split(data[..k]).Success? && Step(Split(data[..k]).value, data[k]).Failure?
    ensures Split(data) == Step(Split(data[..k]).value, data[k])
  {
    assert data[..k + 1][..k] == data[..k];
    FailureSticks(data, k + 1);
  }

  lemma {:induction false} FailureSticks(data: seq<TypedRow>, k: nat)
    requires k <= |data| && Split(data[..k]).Failure?
    ensures Split(data) == Split(data[..k])
    decreases |data| - k
  {
    if k < |data| {
      assert data[..k + 1][..k] == data[..k];
      FailureSticks(data, k + 1);
    } else {
      assert data[..k] == data;
    }
  }

  // ---------------------------------------------------------------------------
  // main, without the file reading and the logging

  datatype Summary = Summary(number: Option<int>, title: string)

  /** The `{ number, title }` list `main` prints. */
  function Summaries(intermediate: seq<TypedRow>): Result<seq<Summary>, Failure>
  {
    match Split(DropPageHeaders(intermediate))
    case Failure(e) => Failure(e)
    case Success(chapters) =>
      Success(seq(|chapters|, i requires 0 <= i < |chapters| => Summary(chapters[i].number, GetChapterTitle(chapters[i].rows))))
  }

  /** The titles, in chapter order, are the text of all the book's headings: no
      heading is lost between the chapters. */
  lemma {:induction false} TitlesCoverHeadings(chapters: seq<ChapterValue>)
    ensures GetChapterTitle(AllRows(chapters)) == Titles(chapters)
    decreases |chapters|
  {
    if chapters != [] {
      var n := |chapters| - 1;
      TitlesCoverHeadings(chapters[..n]);
      TitleOfAppend(AllRows(chapters[..n]), chapters[n].rows);
    }
  }

  function Titles(chapters: seq<ChapterValue>): string
  {
    if chapters == [] then [] else Titles(chapters[..|chapters| - 1]) + GetChapterTitle(chapters[|chapters| - 1].rows)
  }

  /** The titles of the summaries, one after the other. */
  function SummaryTitles(summaries: seq<Summary>): string
  {
    if summaries == [] then [] else SummaryTitles(summaries[..|summaries| - 1]) + summaries[|summaries| - 1].title
  }

  /** What `main` lists, end to end: one summary per chapter-opening row of the book
      without its page headers, and the titles, in order, are the text of all its
      headings — no heading is lost and none is repeated. */
  lemma SummariesCoverBook(intermediate: seq<TypedRow>)
    requires Summaries(intermediate).Success?
    ensures |Summaries(intermediate).value| == Openers(DropPageHeaders(intermediate))
    ensures SummaryTitles(Summaries(intermediate).value) == GetChapterTitle(DropPageHeaders(intermediate))
  {
    var data := DropPageHeaders(intermediate);
    var chapters := Split(data).value;
    SplitPartition(data);
    TitlesCoverHeadings(chapters);
    SummaryTitlesAreTitles(chapters, Summaries(intermediate).value);
    NumberRowsHaveNoTitle(data);
  }

  lemma {:induction false} SummaryTitlesAreTitles(chapters: seq<ChapterValue>, summaries: seq<Summary>)
    requires |summaries| == |chapters|
    requires forall i :: 0 <= i < |summaries| ==> summaries[i].title == GetChapterTitle(chapters[i].rows)
    ensures SummaryTitles(summaries) == Titles(chapters)
    decreases |summaries|
  {
    if summaries != [] {
      var n := |summaries| - 1;
      SummaryTitlesAreTitles(chapters[..n], summaries[..n]);
    }
  }

  /** Dropping CHAPTER_NUMBER rows leaves the title as it is. */
  lemma {:induction false} NumberRowsHaveNoTitle(rows: seq<TypedRow>)
    ensures GetChapterTitle(Without(rows, ChapterNumber)) == GetChapterTitle(rows)
    decreases |rows|
  {
    if rows != [] {
      var n := |rows| - 1;
      var last := [rows[n]];
      NumberRowsHaveNoTitle(rows[..n]);
      assert rows == rows[..n] + last;
      TitleOfAppend(rows[..n], last);
      WithoutAppend(rows[..n], last, ChapterNumber);
      TitleOfAppend(Without(rows[..n], ChapterNumber), Without(last, ChapterNumber));
      assert last[..0] == [];
      TitleOfOne(rows[n]);
      if rows[n].rowType != ChapterNumber {
        assert Without(last, ChapterNumber) == last;
      } else {
        assert Without(last, ChapterNumber) == [];
      }
    }
  }

  // ---------------------------------------------------------------------------
  // Across the two stages

  /** A row the classifier calls CHAPTER_NUMBER always has a number: the chapter it
      opens is never numbered NaN. */
  lemma ClassifiedNumberRowsParse(rows: seq<Row>, i: nat)
    requires ParseHtml.ProcessPage(rows).Success? && i < |rows|
    requires ParseHtml.ProcessPage(rows).value[i].rowType == ChapterNumber
    ensures var row := ParseHtml.ProcessPage(rows).value[i].row;
      row.sections != [] && Int(Some(row.sections[0].text)).Some? && Int(Some(row.sections[0].text)).value >= 0
  {
    ParseHtml.ProcessedAt(rows, i);
    ParseHtml.ChapterNumberOnlyOnFirstRow(rows, i);
    ParseIntOfDigits(rows[0].sections[0].text);
  }
}
