/** Helpers shared by every stage of the pipeline: the row-type labels, JavaScript's
    `parseInt`/string conversion, the row text accessor, `flatMap` and `assert`.
    JavaScript's NaN is `None`; an exception the program would throw is a `Failure`. */
module Shared {

  datatype Option<T> = None | Some(value: T)

  datatype Result<T, E> = Success(value: T) | Failure(error: E)

  /** The three kinds of exception the modelled code can raise. */
  datatype Failure =
    | Error(message: string)   // the plain `Error` thrown by `assert`
    | TypeError(what: string)  // reading a property of `undefined` or `null`
    | RangeError(what: string) // `new Array(n)` with a length below 0 or above 2^32 - 1

  datatype Outcome = Pass | Fail(error: Failure)

  // ---------------------------------------------------------------------------
  // Rows as produced by the HTML front end

  /** One styled text run (a `<span>`) with its inline style map. */
  datatype Section = Section(text: string, style: map<string, string>)

  /** One positioned line (a `div.txt`), with the page file it came from. */
  datatype Row = Row(sections: seq<Section>, style: map<string, string>, file: string)

  /** A row after classification: the same row with `rowType` attached. */
  datatype TypedRow = TypedRow(rowType: RowType, row: Row)

  // ---------------------------------------------------------------------------
  // ROW_TYPE

  datatype RowType =
    | ChapterHeading | ChapterNumber | Body | IntroVerse | PageHeader
    | Footnote | PageBreak | BodyHeader1 | BodyHeader2 | BodyHeader3

  /** The constant's key, in the declaration order of the table. */
  function Key(t: RowType): string
  {
    match t
    case ChapterHeading => "CHAPTER_HEADING"
    case ChapterNumber => "CHAPTER_NUMBER"
    case Body => "BODY"
    case IntroVerse => "INTRO_VERSE"
    case PageHeader => "PAGE_HEADER"
    case Footnote => "FOOTNOTE"
    case PageBreak => "PAGE_BREAK"
    case BodyHeader1 => "BODY_HEADER_1"
    case BodyHeader2 => "BODY_HEADER_2"
    case BodyHeader3 => "BODY_HEADER_3"
  }

  predicate IsKeyChar(c: char) { 'A' <= c <= 'Z' || '0' <= c <= '9' || c == '_' }

  /** `String.prototype.toLowerCase` on the characters a key can hold. */
  function LowerChar(c: char): char
  {
    if 'A' <= c <= 'Z' then (c as int + 32) as char else c
  }

  /** Underscores become spaces, then the result is lower-cased. */
  function Spaced(key: string): (r: string)
    ensures |r| == |key|
    ensures forall i :: 0 <= i < |key| ==> r[i] == LowerChar(if key[i] == '_' then ' ' else key[i])
  {
    if key == [] then [] else Spaced(key[..|key| - 1]) + [LowerChar(if key[|key| - 1] == '_' then ' ' else key[|key| - 1])]
  }

  /** The label built from a key: `'row:' + key.replace(/_/g, ' ').toLowerCase()`. */
  function LabelOfKey(key: string): string
  {
    "row:" + Spaced(key)
  }

  /** `ROW_TYPE[key]`, the label a row of that type carries in `rowType`. */
  function Label(t: RowType): string
  {
    LabelOfKey(Key(t))
  }

  lemma LabelExample()
    ensures Label(ChapterNumber) == "row:chapter number"
  {
  }

  /** On key characters the label construction loses nothing. */
  lemma {:induction false} LabelOfKeyInjective(a: string, b: string)
    requires forall i :: 0 <= i < |a| ==> IsKeyChar(a[i])
    requires forall i :: 0 <= i < |b| ==> IsKeyChar(b[i])
    requires LabelOfKey(a) == LabelOfKey(b)
    ensures a == b
  {
    assert Spaced(a) == LabelOfKey(a)[4..];
    assert Spaced(b) == LabelOfKey(b)[4..];
    forall i | 0 <= i < |a| ensures a[i] == b[i] {
      assert Spaced(a)[i] == Spaced(b)[i];
    }
  }

  lemma KeyChars(t: RowType)
    ensures forall i :: 0 <= i < |Key(t)| ==> IsKeyChar(Key(t)[i])
  {
  }

  lemma KeyInjective(s: RowType, t: RowType)
    requires Key(s) == Key(t)
    ensures s == t
  {
    // the first and last characters of the ten keys already tell them apart
    assert Key(s)[0] == Key(t)[0];
    assert Key(s)[|Key(s)| - 1] == Key(t)[|Key(t)| - 1];
  }

  /** The ten labels are pairwise distinct, so a label identifies its row type. */
  lemma {:induction false} LabelInjective(s: RowType, t: RowType)
    requires Label(s) == Label(t)
    ensures s == t
  {
    KeyChars(s);
    KeyChars(t);
    LabelOfKeyInjective(Key(s), Key(t));
    KeyInjective(s, t);
  }

  // ---------------------------------------------------------------------------
  // int / str

  /** WhiteSpace and LineTerminator of ECMAScript: what `trim` and `parseInt` skip. */
  predicate IsJsSpace(c: char)
  {
    c == '\t' || c == '\n' || c == '\U{000B}' || c == '\U{000C}' || c == '\r' || c == ' '
    || c == '\U{00A0}' || c == '\U{1680}' || ('\U{2000}' <= c <= '\U{200A}')
    || c == '\U{2028}' || c == '\U{2029}' || c == '\U{202F}' || c == '\U{205F}'
    || c == '\U{3000}' || c == '\U{FEFF}'
  }

  predicate IsDigit(c: char) { '0' <= c <= '9' }

  function DigitValue(c: char): nat
    requires IsDigit(c)
  {
    c as int - '0' as int
  }

  /** `s` with its leading JavaScript white space removed. */
  function TrimStart(s: string): (r: string)
    ensures |r| <= |s| && r == s[|s| - |r|..]
    ensures forall i :: 0 <= i < |s| - |r| ==> IsJsSpace(s[i])
    ensures r == [] || !IsJsSpace(r[0])
  {
    if s != [] && IsJsSpace(s[0]) then TrimStart(s[1..]) else s
  }

  /** The longest prefix of `s` made of decimal digits. */
  function DigitPrefix(s: string): (r: string)
    ensures |r| <= |s| && r == s[..|r|]
    ensures forall i :: 0 <= i < |r| ==> IsDigit(r[i])
    ensures |r| == |s| || !IsDigit(s[|r|])
  {
    if s != [] && IsDigit(s[0]) then [s[0]] + DigitPrefix(s[1..]) else []
  }

  /** The value of a string of decimal digits, most significant first. */
  function DigitsValue(ds: string): nat
    requires forall i :: 0 <= i < |ds| ==> IsDigit(ds[i])
  {
    if ds == [] then 0 else 10 * DigitsValue(ds[..|ds| - 1]) + DigitValue(ds[|ds| - 1])
  }

  /** `parseInt(s, 10)`: skip white space, read an optional sign and the longest run of
      digits after it; `None` (NaN) when that run is empty. Values are exact integers. */
  function ParseInt(s: string): Option<int>
  {
    var t := TrimStart(s);
    var negative := t != [] && t[0] == '-';
    var body := if t != [] && (t[0] == '-' || t[0] == '+') then t[1..] else t;
    var ds := DigitPrefix(body);
    var v: int := if ds == [] then 0 else DigitsValue(ds);
    if ds == [] then None else Some(if negative then -v else v)
  }

  /** The `int` helper, applied to a property that may be missing: `parseInt(undefined)` is NaN. */
  function Int(s: Option<string>): Option<int>
  {
    match s
    case None => None
    case Some(v) => ParseInt(v)
  }

  /** Comparisons with NaN are false in JavaScript. */
  predicate Gt(a: Option<int>, b: int) { a.Some? && a.value > b }
  predicate Lt(a: Option<int>, b: int) { a.Some? && a.value < b }
  predicate Le(a: Option<int>, b: int) { a.Some? && a.value <= b }

  function Digit(d: nat): char
    requires d < 10
  {
    ('0' as int + d) as char
  }

  /** The decimal form of a natural number, without leading zeros. */
  function NatToDecimal(n: nat): (r: string)
    ensures r != []
    ensures forall i :: 0 <= i < |r| ==> IsDigit(r[i])
  {
    if n < 10 then [Digit(n)] else NatToDecimal(n / 10) + [Digit(n % 10)]
  }

  /** The values `str` is applied to: numbers (integers here) and strings. */
  datatype Value = Number(n: int) | Text(s: string)

  /** `str(v)`, i.e. `v + ''`. */
  function Str(v: Value): string
  {
    match v
    case Text(s) => s
    case Number(n) => if n < 0 then "-" + NatToDecimal(-n) else NatToDecimal(n)
  }

  /** The name of a page file, `./html/page${n}.html`, as both override tables key it. */
  function PageFile(n: int): string
  {
    "./html/page" + Str(Number(n)) + ".html"
  }

  /** Different page numbers name different files. */
  lemma PageFileInjective(m: int, n: int)
    requires PageFile(m) == PageFile(n)
    ensures m == n
  {
    var a, b := Str(Number(m)), Str(Number(n));
    assert |a| == |b|;
    assert a == PageFile(m)[11..11 + |a|];
    assert b == PageFile(n)[11..11 + |b|];
    StrInjective(m, n);
  }

  lemma {:induction false} DigitsValueOfDecimal(n: nat)
    ensures DigitsValue(NatToDecimal(n)) == n
  {
    if n >= 10 {
      var r := NatToDecimal(n);
      assert r[..|r| - 1] == NatToDecimal(n / 10);
      DigitsValueOfDecimal(n / 10);
    }
  }

  lemma {:induction false} DigitPrefixOfDigitsThen(ds: string, rest: string)
    requires forall i :: 0 <= i < |ds| ==> IsDigit(ds[i])
    requires rest == [] || !IsDigit(rest[0])
    ensures DigitPrefix(ds + rest) == ds
    decreases |ds|
  {
    var s := ds + rest;
    if ds == [] {
      assert s == rest;
    } else {
      assert s[0] == ds[0] && IsDigit(s[0]);
      assert s[1..] == ds[1..] + rest;
      DigitPrefixOfDigitsThen(ds[1..], rest);
      assert DigitPrefix(s) == [ds[0]] + ds[1..];
      assert [ds[0]] + ds[1..] == ds;
    }
  }

  lemma {:induction false} ParseIntOfDigitsThen(ds: string, rest: string)
    requires ds != [] && forall i :: 0 <= i < |ds| ==> IsDigit(ds[i])
    requires rest == [] || !IsDigit(rest[0])
    ensures ParseInt(ds + rest) == Some(DigitsValue(ds))
  {
    var s := ds + rest;
    assert s[0] == ds[0];
    assert TrimStart(s) == s;
    DigitPrefixOfDigitsThen(ds, rest);
  }

  lemma {:induction false} ParseIntOfSignedDigitsThen(ds: string, rest: string, s: string)
    requires ds != [] && forall i :: 0 <= i < |ds| ==> IsDigit(ds[i])
    requires rest == [] || !IsDigit(rest[0])
    requires s == "-" + ds + rest
    ensures ParseInt(s) == Some(-(DigitsValue(ds) as int))
  {
    assert s[0] == '-';
    assert TrimStart(s) == s;
    assert s[1..] == ds + rest;
    DigitPrefixOfDigitsThen(ds, rest);
  }

  /** `int(str(n) + suffix) == n` when the suffix does not continue the number:
      this is how `int` reads style values such as `"120px"`. */
  lemma {:induction false} ParseIntOfStr(n: int, suffix: string)
    requires suffix == [] || !IsDigit(suffix[0])
    ensures ParseInt(Str(Number(n)) + suffix) == Some(n)
  {
    if n < 0 {
      ParseIntOfNegativeStr(n, suffix);
    } else {
      var ds := NatToDecimal(n);
      DigitsValueOfDecimal(n);
      ParseIntOfDigitsThen(ds, suffix);
      assert Str(Number(n)) + suffix == ds + suffix;
    }
  }

  lemma {:induction false} ParseIntOfNegativeStr(n: int, suffix: string)
    requires n < 0 && (suffix == [] || !IsDigit(suffix[0]))
    ensures ParseInt(Str(Number(n)) + suffix) == Some(n)
  {
    var m: nat := -n;
    var ds := NatToDecimal(m);
    DigitsValueOfDecimal(m);
    assert DigitsValue(ds) == m;
    assert Str(Number(n)) == "-" + ds;
    ParseIntOfSignedDigitsThen(ds, suffix, Str(Number(n)) + suffix);
  }

  lemma ParseIntExample()
    ensures ParseInt("120px") == Some(120)
  {
    assert NatToDecimal(120) == "120";
    ParseIntOfStr(120, "px");
    assert Str(Number(120)) + "px" == "120px";
  }

  /** Different integers have different decimal forms. */
  lemma StrInjective(m: int, n: int)
    requires Str(Number(m)) == Str(Number(n))
    ensures m == n
  {
    ParseIntOfStr(m, "");
    ParseIntOfStr(n, "");
    assert Str(Number(m)) + "" == Str(Number(m));
    assert Str(Number(n)) + "" == Str(Number(n));
  }

  /** A string of digits always parses, to a non-negative value. */
  lemma {:induction false} ParseIntOfDigits(s: string)
    requires s != [] && forall i :: 0 <= i < |s| ==> IsDigit(s[i])
    ensures ParseInt(s).Some? && ParseInt(s).value >= 0
  {
    ParseIntOfDigitsThen(s, []);
    assert s + [] == s;
  }

  // ---------------------------------------------------------------------------
  // grabAllRowText, flatMap, assert

  function SectionsText(sections: seq<Section>): string
  {
    if sections == [] then [] else SectionsText(sections[..|sections| - 1]) + sections[|sections| - 1].text
  }

  /** `grabAllRowText`: the section texts of the row joined with no separator. */
  function GrabAllRowText(row: Row): string
  {
    SectionsText(row.sections)
  }

  lemma {:induction false} SectionsTextAppend(a: seq<Section>, b: seq<Section>)
    ensures SectionsText(a + b) == SectionsText(a) + SectionsText(b)
    decreases |b|
  {
    if b != [] {
      assert (a + b)[..|a + b| - 1] == a + b[..|b| - 1];
      assert (a + b)[|a + b| - 1] == b[|b| - 1];
      SectionsTextAppend(a, b[..|b| - 1]);
      var x, y, z := SectionsText(a), SectionsText(b[..|b| - 1]), b[|b| - 1].text;
      assert (x + y) + z == x + (y + z);
    } else {
      assert a + b == a;
    }
  }

  /** Each section's text appears in the row text right after the texts before it. */
  lemma SectionTextInRowText(row: Row, i: nat)
    requires i < |row.sections|
    ensures var off := |SectionsText(row.sections[..i])|;
      off + |row.sections[i].text| <= |GrabAllRowText(row)|
      && GrabAllRowText(row)[off..off + |row.sections[i].text|] == row.sections[i].text
  {
    var s := row.sections;
    assert s == s[..i] + [s[i]] + s[i + 1..];
    SectionsTextAppend(s[..i] + [s[i]], s[i + 1..]);
    SectionsTextAppend(s[..i], [s[i]]);
    assert SectionsText([s[i]]) == s[i].text by {
      assert [s[i]][..0] == [];
    }
  }

  function Concat<B>(xss: seq<seq<B>>): seq<B>
  {
    if xss == [] then [] else Concat(xss[..|xss| - 1]) + xss[|xss| - 1]
  }

  /** `flatMap(array, fn)`: map, then flatten one level. */
  function FlatMap<A, B>(xs: seq<A>, f: A -> seq<B>): seq<B>
  {
    Concat(seq(|xs|, i requires 0 <= i < |xs| => f(xs[i])))
  }

  /** When `fn` yields one value per element, `flatMap` is `map`: same length, same order. */
  lemma {:induction false} FlatMapSingletons<A, B>(xs: seq<A>, f: A -> seq<B>)
    requires forall x :: x in xs ==> |f(x)| == 1
    ensures |FlatMap(xs, f)| == |xs|
    ensures forall i :: 0 <= i < |xs| ==> FlatMap(xs, f)[i] == f(xs[i])[0]
  {
    if xs != [] {
      var init := xs[..|xs| - 1];
      FlatMapSingletons(init, f);
      var m := seq(|xs|, i requires 0 <= i < |xs| => f(xs[i]));
      assert m[..|m| - 1] == seq(|init|, i requires 0 <= i < |init| => f(init[i]));
    }
  }

  /** When `fn` yields exactly `[ys[i]]` for the `i`-th element, `flatMap` gives `ys`. */
  lemma FlatMapOfSingletons<A, B>(xs: seq<A>, f: A -> seq<B>, ys: seq<B>)
    requires |xs| == |ys|
    requires forall i :: 0 <= i < |xs| ==> f(xs[i]) == [ys[i]]
    ensures FlatMap(xs, f) == ys
  {
    FlatMapSingletons(xs, f);
  }

  /** `assert(value, message)`: throws exactly when `value` is falsy; an empty or
      missing message is replaced by `'ASSERT!'`. */
  function Assert(value: bool, message: Option<string>): (r: Outcome)
    ensures r.Fail? <==> !value
    ensures r.Fail? ==> r.error.Error? && r.error.message != []
    ensures r.Fail? && message.Some? && message.value != [] ==> r.error.message == message.value
    ensures r.Fail? && (message.None? || message.value == []) ==> r.error.message == "ASSERT!"
  {
    if value then Pass
    else if message.Some? && message.value != [] then Fail(Error(message.value))
    else Fail(Error("ASSERT!"))
  }
}
