# Book structure recovery: a verified model of the core

The system turns the positioned text rows of a scanned book's HTML pages into chapters and footnotes.

A page is a list of rows. A row is a list of text sections, an inline style and the file it came from. The system has four stages:

1. It classifies every row of a page as a chapter number, chapter heading, intro verse, page header, footnote or body row.
2. It cuts the classified stream into chapters.
3. It gives each chapter a title.
4. It builds the pattern that finds the reference marker of the next footnote number inside the body text. A catalog of per-page substitutes handles markers the scan misread.

This project models those four stages in Dafny and proves what they promise. One module covers each source file:

- `Shared` (`shared.dfy`) covers `shared.js`:
  - the `ROW_TYPE` labels;
  - `int`, which is `parseInt`, with NaN written as `None`;
  - `str`, `grabAllRowText`, `flatMap` and `assert`.
- `InlineStyle` (`inline_style.dfy`) covers the inline-CSS parser of `parse-html.js`:
  - `split`, `trim` and `camelCase`;
  - `styleStringToMap`, written as a method with a loop over the entries.
- `ParseHtml` (`parse_html.dfy`) covers the row classifier of `parse-html.js`:
  - `rangeInclusive`;
  - the six handlers and the per-page override table;
  - the dispatch `processRows`;
  - the per-page pass `rowsFlatMapWithMeta`, written as a method whose loop keeps `first`, `seen` and `lastRow` up to date.
- `FootnoteReferences` (`footnote_references.dfy`) covers `footnote-reference-identifying.js`:
  - the default footnote-marker pattern of `buildRegex`, written as a predicate on strings with a decision function proved equal to it;
  - the `specialCases` catalog, written as a constant map.
- `Chapters` (`chapters.dfy`) covers `build-final-data-structure.js`:
  - `splitRowsIntoChapters`, as a method over `Chapter` objects. Their `rows` are pushed through the current-chapter pointer. The method is proved equal to a fold on values, `Split`.
  - `getChapterTitle`, and the summary list built by `main`.

The model uses the following JavaScript semantics:

- **Failures.** A thrown `TypeError` is a `Failure`. So is a `RangeError` from `new Array`, and so is the `Error` thrown by `assert`. A handler that throws ends the whole page pass with that error.
- **NaN.** `int` returns `Option<int>`, and every comparison with NaN is false.
- **Handler results.** A handler returns `Option<bool>`. `None` means the handler threw. The `&&` chains are evaluated left to right, in the source's order, so a test throws only when JavaScript would reach the access that throws.
- **Per-page state.** The classifier's state (`first`, `seen`, `lastRow`) belongs to one page. `processRows` is called once per file (parse-html.js:64), so the model classifies one page's row list and the state starts afresh on each page.
- **The CONCLUSION test.** A `CONCLUSION` heading is recognised by the text of its first section only (build-final-data-structure.js:40), not by the row's concatenated text. A heading without any section throws there once a chapter is open; the first heading opens chapter 0 without reading its sections (build-final-data-structure.js:38-40). A heading that spells `CONCLUSION` over several sections does not open a chapter. The model follows the code.

## Model

The lemmas below state what the defining functions mean. Those functions model these source lines:
- the six handlers `IsChapterNumber`, `IsChapterHeading`, `IsIntroVerse`, `PageHeaderTest`, `FootnoteTest` and `BodyTest`: parse-html.js:79-84, 85-92, 93-101, 102-112, 113-122 and 123-131;
- the override table `RuleFor` and `FootnoteTestFor`: parse-html.js:133-146;
- the handler results in key order, `Tests`, and the dispatch `Classify` and `HandleRow`: parse-html.js:150-158;
- the row helpers `AllDigits`, `AllUppercase`, `DistanceBetweenRows` and `IsGapBetweenRows`: parse-html.js:203, 205, 206 and 207;
- the `int(row.style.top)`, `int(row.style.left)` and `int(section.style.fontSize)` reads, `Top`, `Left` and `FontSize`: parse-html.js:82-137 and 206;
- the page pass `MapWithMeta`: parse-html.js:171-187;
- `ParseInt`/`Int` and `Str`: shared.js:20-21;
- `Label`: shared.js:15;
- `GrabAllRowText`: shared.js:22;
- `FlatMap`: shared.js:19;
- `ParseEntry`, `ParseEntries` and `DeclareAll`: parse-html.js:222-227;
- `CamelCase`: parse-html.js:241-245;
- `Step` and `Split`: build-final-data-structure.js:37-47;
- `GetChapterTitle`: build-final-data-structure.js:52-57;
- `DropPageHeaders` and `Summaries`: build-final-data-structure.js:13-20;
- `MatchesAt` and `Test`: footnote-reference-identifying.js:8-21;
- `PageEntries`, `Catalog` and `SpecialCases`: footnote-reference-identifying.js:23-160.

| member | source | states |
|---|---|---|
| Shared.Spaced | shared.js:15 | each character of a `ROW_TYPE` key is kept in place, with `_` turned into a space and upper-case letters lowered |
| Shared.LabelExample | shared.js:3-17 | `ROW_TYPE.CHAPTER_NUMBER` is `row:chapter number` |
| Shared.LabelOfKeyInjective | shared.js:15 | on keys made of capitals, digits and `_`, the `'row:' + …` labelling loses nothing: equal labels come from equal keys |
| Shared.KeyChars | shared.js:4-13 | every one of the ten keys is made of capitals, digits and `_` only |
| Shared.KeyInjective | shared.js:4-13 | the ten keys are pairwise different |
| Shared.LabelInjective | shared.js:3-17 | the ten labels are pairwise different, so a row type and its label determine each other |
| Shared.TrimStart | shared.js:20 | `parseInt` skips exactly the leading JavaScript white space: what remains is a suffix that starts with a non-space |
| Shared.DigitPrefix | shared.js:20 | the part `parseInt` reads is the longest prefix of decimal digits |
| Shared.NatToDecimal | shared.js:21 | `str` of a non-negative integer is a non-empty string of decimal digits |
| Shared.DigitsValueOfDecimal | shared.js:20-21 | reading back the digits `str` writes gives the same number |
| Shared.DigitPrefixOfDigitsThen | shared.js:20 | digits followed by a non-digit: the digit prefix is exactly those digits |
| Shared.ParseIntOfDigitsThen | shared.js:20 | `int` of digits followed by anything that does not start with a digit is the value of those digits, e.g. a pixel value `120px` |
| Shared.ParseIntOfSignedDigitsThen | shared.js:20 | the same for a leading `-`: the value is negated |
| Shared.ParseIntOfNegativeStr | shared.js:20-21 | `int` reads back `str` of a negative integer, followed by a suffix that does not start with a digit, as that integer |
| Shared.ParseIntOfStr | shared.js:20-21 | `int(str(n) + suffix) == n` for every integer `n` of the model when the suffix does not start with a digit. For JavaScript numbers this holds for magnitudes below 2^53 (see Left out) |
| Shared.ParseIntExample | shared.js:20 | `int('120px')` is 120 |
| Shared.StrInjective | shared.js:21 | different integers have different `str` forms |
| Shared.ParseIntOfDigits | shared.js:20 | `int` of a non-empty all-digit string is a number, never NaN, and is non-negative; this covers every text that passes `allDigits` (parse-html.js:203) |
| Shared.PageFileInjective | parse-html.js:20 | different page numbers give different page file names |
| Shared.SectionsTextAppend | shared.js:22 | `grabAllRowText` distributes over concatenated section lists |
| Shared.SectionTextInRowText | shared.js:22 | each section's text occurs in the row text at the offset of the sections before it |
| Shared.FlatMapSingletons | shared.js:19 | when `fn` returns one element per item, `flatMap` is `map`: same length, same order |
| Shared.FlatMapOfSingletons | shared.js:19 | when the callback gives exactly `[ys[i]]` for the `i`-th element, `flatMap` returns `ys` |
| Shared.Assert | shared.js:24-28 | `assert` fails exactly when the value is false, with a plain `Error`. Its message is the given message when that is non-empty, and `ASSERT!` otherwise |
| InlineStyle.Split | parse-html.js:222-223 | `split` on one character returns at least one piece; no piece contains the separator, and joining the pieces gives back the input |
| InlineStyle.SplitJoin | parse-html.js:222-223 | splitting the join of separator-free pieces gives back the pieces |
| InlineStyle.SplitAfterPiece | parse-html.js:222-223 | a separator-free piece followed by the separator is split off as the first piece, and the rest is split on its own |
| InlineStyle.TrimEnd | parse-html.js:224-226 | the trailing cut removes exactly the white space at the end |
| InlineStyle.Trim | parse-html.js:224-226 | `trim` is the middle part of the input with only white space cut on each side, and it neither starts nor ends with white space |
| InlineStyle.CamelCase | parse-html.js:241-245 | `camelCase` never lengthens its input |
| InlineStyle.CamelCaseRoundTrip | parse-html.js:241-245 | on a lower-case CSS property name, camelCase is undone by re-inserting `-` before each capital |
| InlineStyle.CamelCaseWithoutJoiners | parse-html.js:241-245 | a name without `_`, `.` or `-` is left unchanged |
| InlineStyle.CamelCaseKeepsPrefix | parse-html.js:241-245 | a joiner-free prefix is kept as it is and the rest is converted on its own |
| InlineStyle.CamelCaseExample | parse-html.js:241-245 | `font-size` becomes `fontSize` |
| InlineStyle.ParseEntry | parse-html.js:223 | a declaration has a value exactly when it contains a `:` |
| InlineStyle.DeclareAllFailureSticks | parse-html.js:225-227 | once an entry has thrown, the later entries do not change the outcome |
| InlineStyle.DeclareAllFails | parse-html.js:224-226 | the parse throws a `TypeError` exactly when some entry with a non-blank name has no `:` |
| InlineStyle.DeclareAllNames | parse-html.js:224-227 | a name is in the built map exactly when some entry with a non-blank name camelCases to it |
| InlineStyle.DeclareAllLastWins | parse-html.js:224-227 | the map's names are exactly the camelCased non-blank names. Each name holds the trimmed value of its last declaration, so a later duplicate wins |
| InlineStyle.StyleStringToMap | parse-html.js:219-230 | a missing `style` attribute (`undefined`) throws a `TypeError` at `split`. Otherwise the loop over the entries builds the map `DeclareAll` specifies, or throws its error |
| ParseHtml.RangeInclusive | parse-html.js:14-17 | `rangeInclusive(from, to)` is `from, from+1, …, to`. It throws a `RangeError` exactly when the size is negative or above the array limit 2^32-1 |
| ParseHtml.RangeInclusiveMembers | parse-html.js:14-17 | a value is in the range exactly when it lies between the bounds, and it occurs at most once |
| ParseHtml.RangeCount | parse-html.js:16 | consecutive integers hold each value at most once |
| ParseHtml.GapIsSymmetric | parse-html.js:206-207 | a gap between two rows does not depend on their order, and needs both tops to be numbers |
| ParseHtml.SpecialCasesArePages | parse-html.js:133-146 | page 474 keeps the default footnote test and adds top > 540; page 676 never has footnotes; page 793 tests for a leading `1. `; every other page uses the default handlers |
| ParseHtml.FindFrom | parse-html.js:151 | `find` returns the first handler that holds with every earlier one false. It finds none exactly when all are false, and it fails with the error of the first handler that throws |
| ParseHtml.ClassifySpec | parse-html.js:148-158 | a row gets the key of the first handler that holds, in the order chapter number, heading, intro verse, page header, footnote, body. The assertion fails exactly when all handlers are false; any other failure is a handler's `TypeError` |
| ParseHtml.ClassifiedAs | parse-html.js:150-154 | a classified type is one of the six handled types, and its handler is the first that held |
| ParseHtml.MapWithMeta | parse-html.js:171-187 | a completed pass has one output row per input row |
| ParseHtml.MapWithMetaFailureSticks | parse-html.js:176-186 | a throw on one row ends the pass with that error |
| ParseHtml.MapWithMetaPrefix | parse-html.js:176-186 | the pass over a prefix of the rows is the prefix of the pass |
| ParseHtml.HandledAt | parse-html.js:176-183 | the row at `i` is handled with `first` true only for row 0, `seen` holding exactly the types of rows before it, and `lastRow` the row just before it |
| ParseHtml.MapWithMetaIsFlatMap | parse-html.js:171-187 | the pass is the source's `flatMap`: the callback gives each row its one handled result in the state of the rows before it, and flattening the results gives the pass's output in row order |
| ParseHtml.RowsFlatMapWithMeta | parse-html.js:171-187 | the loop that updates `first`, `seen` and `lastRow` computes the pass `MapWithMeta` specifies |
| ParseHtml.ProcessRows | parse-html.js:148-160 | `processRows` computes `ProcessPage` |
| ParseHtml.ProcessedAt | parse-html.js:156-158 | each output row is its input row unchanged, tagged with the type the dispatch gives it in the state the pass reaches there |
| ParseHtml.ChapterNumberOnlyOnFirstRow | parse-html.js:79-84 | only a page's first row can be a chapter number, and that row has one section, top > 120 and all-digit text |
| ParseHtml.FootnoteFollowsBody | parse-html.js:113-122 | on a page without the `1. ` override, a footnote row comes after some body row on the same page |
| ParseHtml.AfterFootnoteOnlyHeadersAndFootnotes | parse-html.js:78-131 | on such a page, every row after a footnote row is a page header or a footnote |
| ParseHtml.ClassifyNeverAssertsByDefault | parse-html.js:113-130 | on a page without an override the "no row handler" assertion never fails: footnote holds once a footnote is seen, body holds before that |
| ParseHtml.ProcessPageNeverAssertsByDefault | parse-html.js:148-160 | a page without an override never ends with the "no row handler" assertion |
| ParseHtml.ClassifyTotal | parse-html.js:78-131 | on a page without an override, a row with a section is classified in every state the pass can reach |
| ParseHtml.ProcessPageTotal | parse-html.js:148-187 | such a page, with a section in every row, is classified completely |
| ParseHtml.NeverPageHasNoFootnote | parse-html.js:140-142 | page 676 never yields a footnote row |
| ParseHtml.PrefixPageFootnote | parse-html.js:143-145 | on page 793 a row is a footnote exactly when it starts with `1. ` and the four earlier handlers are false |
| ParseHtml.ShiftedPageFootnote | parse-html.js:134-139 | on page 474 a footnote row passes the default footnote test and lies below top 540 |
| FootnoteReferences.LeadingAcceptsExactly | footnote-reference-identifying.js:12-15 | the direct check of the first group accepts exactly the texts the group's definition allows |
| FootnoteReferences.TrailingAcceptsExactly | footnote-reference-identifying.js:17-20 | the same for the second group |
| FootnoteReferences.SearchFrom | footnote-reference-identifying.js:11-21 | the search returns a position where the pattern matches, or none when it matches at no later position |
| FootnoteReferences.Test | footnote-reference-identifying.js:11-21 | the decision function holds exactly when the text is before, token, after, with both groups of the default pattern matched |
| FootnoteReferences.MarkerStandsAlone | footnote-reference-identifying.js:8-21 | a matched token is never next to a digit or a colon |
| FootnoteReferences.MatchesAtOnOneLine | footnote-reference-identifying.js:8-21 | on a text without line breaks, the pattern matches exactly where the token is bounded on each side by an end of the text or a character that is neither digit nor colon |
| FootnoteReferences.LeadingOnOneLine | footnote-reference-identifying.js:12-15 | on a text without line breaks, the first group matches exactly when the text is empty or ends in a character that is neither digit nor colon |
| FootnoteReferences.TrailingOnOneLine | footnote-reference-identifying.js:17-20 | the same for the second group and the first character |
| FootnoteReferences.NotInsideNumbers | footnote-reference-identifying.js:8-21 | `1` is not found in `11` nor in `1:5`, and is found in `see 1, below` |
| FootnoteReferences.LineBreakHidesMarker | footnote-reference-identifying.js:9-20 | `.` does not cross a line break: `2` is found in `1 2` but not in a text that opens with a line break before `1 2` |
| FootnoteReferences.BuildRegexFinds | footnote-reference-identifying.js:11-21 | the default pattern for footnote `n` searches for the decimal digits of `n`, and on one line finds them exactly where they stand bounded |
| FootnoteReferences.FoundNumberIsWhole | footnote-reference-identifying.js:8-16 | a found footnote number is never part of a longer number |
| FootnoteReferences.SpecialCases | footnote-reference-identifying.js:157-160 | the table is keyed by `./html/page${n}.html` for exactly the listed pages, each holding that page's entries |
| FootnoteReferences.AllPageFilesDistinct | footnote-reference-identifying.js:158 | different page numbers give different keys, so no page's entries replace another's |
| FootnoteReferences.SentinelsAreTheTwoNotes | footnote-reference-identifying.js:92-146 | the never-found patterns are exactly the ones for note 10 on page 645 (lines 92-94) and note 40 on page 899 (lines 144-146) |
| FootnoteReferences.OnlyTwoSentinelPages | footnote-reference-identifying.js:23-156 | no other page of the table holds a never-found pattern |
| FootnoteReferences.LiteralsAreMisreadings | footnote-reference-identifying.js:23-156 | each literal substitute is as long as the note number's digits and differs from them: a misread number |
| FootnoteReferences.LiteralShape | footnote-reference-identifying.js:23-156 | each literal substitute has two characters for a two-digit note, or three for note 101, and contains a non-digit |
| Chapters.Without | build-final-data-structure.js:13 | the filter keeps only rows of the input, and none of the dropped type |
| Chapters.WithoutAppend | build-final-data-structure.js:13 | the filter distributes over concatenation |
| Chapters.WithoutCounts | build-final-data-structure.js:13 | the filter removes every row of the dropped type and keeps every other row as often as it occurs |
| Chapters.OfType | build-final-data-structure.js:54 | the heading filter keeps only heading rows of the input |
| Chapters.OfTypeAppend | build-final-data-structure.js:54 | the heading filter distributes over concatenation |
| Chapters.JoinTextsAppend | build-final-data-structure.js:55-56 | joining row texts distributes over concatenation |
| Chapters.TitleOfAppend | build-final-data-structure.js:52-57 | the title of two row lists in a row is the two titles concatenated |
| Chapters.TitleOfOne | build-final-data-structure.js:52-57 | one row adds its text to the title if it is a heading, nothing otherwise |
| Chapters.TitleWithoutHeadings | build-final-data-structure.js:52-57 | rows without a heading have an empty title |
| Chapters.StepPartition | build-final-data-structure.js:37-47 | one row adds itself to the chapters' rows unless it is a number row, and adds one chapter exactly when it opens one |
| Chapters.SplitPartition | build-final-data-structure.js:25-50 | the chapters' rows, in order, are the input minus its chapter-number rows, and there is one chapter per opening row |
| Chapters.SplitOpenIffStarted | build-final-data-structure.js:37-47 | after a successful split, a chapter is open exactly when some row was read |
| Chapters.SplitSucceedsIff | build-final-data-structure.js:37-47 | the split throws, always a `TypeError`, exactly when a row comes before any chapter opens, or a heading or number row has no section |
| Chapters.ConclusionOpensNext | build-final-data-structure.js:40-41 | a `CONCLUSION` heading after an open chapter opens the next number, holding that row |
| Chapters.NumberRowOpensEmpty | build-final-data-structure.js:42-43 | a number row opens an empty chapter numbered `int` of its first section, and is not kept |
| Chapters.OtherRowAppends | build-final-data-structure.js:44-45 | any other row is appended to the last chapter, all earlier chapters unchanged |
| Chapters.FirstHeadingOpensZero | build-final-data-structure.js:38-39 | input that starts with a heading starts chapter 0 with that heading |
| Chapters.Chapter.constructor | build-final-data-structure.js:30-33 | a new chapter holds the given number and rows |
| Chapters.CreateChapter | build-final-data-structure.js:29-35 | `createChapter` makes a fresh chapter, pushes it and makes it current |
| Chapters.PlaceRow | build-final-data-structure.js:38-45 | one `forEach` step changes the chapter objects as `Step` changes the values, or throws `Step`'s error, and the current chapter is the last one |
| Chapters.SplitRowsIntoChapters | build-final-data-structure.js:25-50 | the objects built hold exactly the numbers and rows of `Split`, or the method throws `Split`'s error; the chapters are fresh and distinct |
| Chapters.FirstFailureDecides | build-final-data-structure.js:40-45 | the first row that throws decides the outcome of the whole split |
| Chapters.FailureSticks | build-final-data-structure.js:37-47 | after a throw, later rows do not change the outcome |
| Chapters.SummariesCoverBook | build-final-data-structure.js:13-20 | `main` lists one summary per chapter-opening row of the book without its page headers, and the summary titles, in order, are the text of all the book's headings, none lost or repeated |
| Chapters.SummaryTitlesAreTitles | build-final-data-structure.js:15-20 | each summary's title is its chapter's `getChapterTitle`, so the summary titles in order are the chapter titles in order |
| Chapters.NumberRowsHaveNoTitle | build-final-data-structure.js:52-57 | the rows left out of every chapter, the CHAPTER_NUMBER rows, carry no title text |
| Chapters.TitlesCoverHeadings | build-final-data-structure.js:52-57 | the chapter titles in order make up the title of all the rows: no heading text is lost or repeated across chapters |
| Chapters.ClassifiedNumberRowsParse | build-final-data-structure.js:42-43 | a row the classifier calls a chapter number has a first section whose `int` is a non-negative number, so the chapter it opens is never numbered NaN |

## Left out

- File reading and writing (`fs`), the `cheerio` DOM walk, `idStyleMap`, `mapEach` and `extract` of parse-html.js, and `main`'s JSON `require` and `console.log` in build-final-data-structure.js. They are I/O or library calls. The rows they produce are the input of the model.
- `Object.assign(styleStringToMap(style), idToStyles[id])`, which merges span styles. It belongs to the DOM walk above.
- `rowIsSmallish`, `sectionIsItalic` and `startsWithDigits`. No code calls them.
- ParseHtml.ProcessedAt: a classified row is a `TypedRow` pair, not the merged object of `Object.assign({ rowType }, row)`. The two differ only for an input row that already has a `rowType` field, which the HTML front end never produces.
- ParseHtml.HandledAt: `seen` is kept as a set of row types rather than an object keyed by label strings. `Shared.LabelInjective` shows the two hold the same information.
- The regular-expression engine's choice of occurrence and the values of the two capture groups. The model decides whether the default pattern matches, and where it can match. It does not decide which of several matches the lazy `.*?` reports.
- The custom-delimiter patterns of the catalog (`buildRegex('l', /,| /)`, `buildRegex('to', /^|$/)`, …) and the two never-found patterns. They are kept as values whose delimiter or expression is recorded as written, without a matching semantics of their own.
- Inner catalog keys: they are property-name strings in JavaScript and integers in the model.
- The stages that consume the classified rows and the catalog: footnote grouping, marker splitting and heading merging. Their code is not part of this model.
- `str` of values other than integers and strings (floating-point numbers, objects). Only page numbers, footnote numbers and string tokens reach it here.
- Shared.ParseIntOfStr: `int` and `str` work on exact, unbounded integers. JavaScript numbers are doubles. Digits beyond 2^53 round, and from 10^21 on `str` switches to exponent form (`str(1e21)` is `1e+21`, whose `int` is 1). So `int` and `str` agree with JavaScript only for magnitudes below 2^53. Every pixel position, font size, page and note number the program handles is far smaller.
- The ordered-entries and just-flatten libraries. `entries` is taken to list keys in insertion order, and `flatten` to flatten nested arrays to any depth. Here every callback returns a single object, so the result is the list of those objects in order.
- The texts of the `TypeError` messages follow a V8-style wording. Only the error kind is relied on.
