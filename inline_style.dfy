/** The inline-CSS reader of the HTML front end: `styleStringToMap` and the
    `camelCase` it applies to property names, with the JavaScript string
    operations they rest on (`split` on one character and `trim`). */
module InlineStyle {
  import opened Shared

  // ---------------------------------------------------------------------------
  // String.prototype.split with a one-character separator

  /** The parts joined back with the separator between them. */
  function Join(parts: seq<string>, sep: char): string
    requires |parts| >= 1
  {
    if |parts| == 1 then parts[0] else parts[0] + [sep] + Join(parts[1..], sep)
  }

  /** The index of the first `c` in `s`. */
  function IndexOf(s: string, c: char): (r: nat)
    requires c in s
    ensures r < |s| && s[r] == c && c !in s[..r]
    ensures forall j :: 0 <= j < r ==> s[j] != c
  {
    if s[0] == c then 0 else 1 + IndexOf(s[1..], c)
  }

  /** `s.split(sep)`: the pieces between separators, always at least one,
      empty ones included (`''.split(';')` is `['']`). */
  function Split(s: string, sep: char): (r: seq<string>)
    ensures |r| >= 1
    ensures forall i :: 0 <= i < |r| ==> sep !in r[i]
    ensures Join(r, sep) == s
    decreases |s|
  {
    if sep !in s then [s]
    else
      var i := IndexOf(s, sep);
      var rest := Split(s[i + 1..], sep);
      assert s == s[..i] + [sep] + s[i + 1..];
      [s[..i]] + rest
  }

  /** Splitting undoes joining pieces that do not contain the separator. */
  lemma {:induction false} SplitJoin(parts: seq<string>, sep: char)
    requires |parts| >= 1
    requires forall i :: 0 <= i < |parts| ==> sep !in parts[i]
    ensures Split(Join(parts, sep), sep) == parts
    decreases |parts|
  {
    if |parts| > 1 {
      SplitAfterPiece(parts[0], Join(parts[1..], sep), sep);
      SplitJoin(parts[1..], sep);
    } else {
      assert sep !in parts[0];
    }
  }

  /** A piece without the separator, then the separator: split yields the piece first. */
  lemma SplitAfterPiece(piece: string, tail: string, sep: char)
    requires sep !in piece
    ensures Split(piece + [sep] + tail, sep) == [piece] + Split(tail, sep)
  {
    var s := piece + [sep] + tail;
    var k := |piece|;
    assert (piece + [sep])[k] == sep;
    assert s[k] == sep;
    assert sep in s;
    assert IndexOf(s, sep) == k by {
      forall j | 0 <= j < |piece| ensures s[j] != sep {
        assert s[j] == piece[j];
      }
    }
    assert s[k + 1..] == tail;
    assert s[..k] == piece;
  }

  // ---------------------------------------------------------------------------
  // String.prototype.trim

  function TrimEnd(s: string): (r: string)
    ensures |r| <= |s| && r == s[..|r|]
    ensures forall i :: |r| <= i < |s| ==> IsJsSpace(s[i])
    ensures r == [] || !IsJsSpace(r[|r| - 1])
  {
    if s != [] && IsJsSpace(s[|s| - 1]) then TrimEnd(s[..|s| - 1]) else s
  }

  /** `r` is `s` from index `i` on, with only white space cut off around it. */
  predicate IsTrimOf(s: string, r: string, i: int)
  {
    0 <= i <= |s| - |r| && s[i..i + |r|] == r
    && (forall k :: 0 <= k < i ==> IsJsSpace(s[k]))
    && (forall k :: i + |r| <= k < |s| ==> IsJsSpace(s[k]))
  }

  /** `s.trim()`: `s` without leading and trailing white space or line terminators. */
  function Trim(s: string): (r: string)
    ensures exists i :: IsTrimOf(s, r, i)
    ensures r == [] || (!IsJsSpace(r[0]) && !IsJsSpace(r[|r| - 1]))
  {
    TrimCutsSpace(s);
    TrimEnd(TrimStart(s))
  }

  lemma TrimCutsSpace(s: string)
    ensures IsTrimOf(s, TrimEnd(TrimStart(s)), |s| - |TrimStart(s)|)
  {
    var t := TrimStart(s);
    CutBothEnds(s, t, TrimEnd(t), |s| - |t|);
  }

  /** Cutting white space off the front and then off the back leaves a middle part. */
  lemma CutBothEnds(s: string, t: string, r: string, i: int)
    requires 0 <= i <= |s| && t == s[i..]
    requires forall k :: 0 <= k < i ==> IsJsSpace(s[k])
    requires |r| <= |t| && r == t[..|r|]
    requires forall k :: |r| <= k < |t| ==> IsJsSpace(t[k])
    ensures IsTrimOf(s, r, i)
  {
    assert s[i..i + |r|] == t[..|r|];
    forall k | i + |r| <= k < |s| ensures IsJsSpace(s[k]) {
      assert s[k] == t[k - i];
    }
  }

  // ---------------------------------------------------------------------------
  // camelCase

  /** The three characters `[_.-]` that camelCase removes. */
  predicate IsJoiner(c: char) { c == '_' || c == '.' || c == '-' }

  /** `\w` of a JavaScript regular expression. */
  predicate IsWordChar(c: char) { 'a' <= c <= 'z' || 'A' <= c <= 'Z' || IsDigit(c) || c == '_' }

  predicate IsLower(c: char) { 'a' <= c <= 'z' }

  predicate IsUpper(c: char) { 'A' <= c <= 'Z' }

  /** `toUpperCase` on a `\w` character: only the letters change. */
  function UpperChar(c: char): char
  {
    if IsLower(c) then (c as int - 32) as char else c
  }

  /** `str.replace(/[_.-](\w|$)/g, (_, x) => x.toUpperCase())`: a joiner followed by a
      word character is replaced by that character upper-cased, a joiner at the very
      end is dropped, and any other joiner is kept. */
  function CamelCase(s: string): (r: string)
    ensures |r| <= |s|
  {
    if s == [] then []
    else if IsJoiner(s[0]) && |s| == 1 then []
    else if IsJoiner(s[0]) && IsWordChar(s[1]) then [UpperChar(s[1])] + CamelCase(s[2..])
    else [s[0]] + CamelCase(s[1..])
  }

  /** The reverse spelling, for CSS property names: `fontSize` becomes `font-size`. */
  function Kebab(s: string): string
  {
    if s == [] then []
    else if IsUpper(s[0]) then ['-', LowerChar(s[0])] + Kebab(s[1..])
    else [s[0]] + Kebab(s[1..])
  }

  /** A CSS property name: lower-case letters and hyphens, each hyphen before a letter. */
  predicate IsCssName(s: string)
  {
    (forall i :: 0 <= i < |s| ==> IsLower(s[i]) || s[i] == '-')
    && (forall i :: 0 <= i < |s| && s[i] == '-' ==> i + 1 < |s| && IsLower(s[i + 1]))
  }

  /** camelCase loses nothing on a CSS property name: spelling it back gives the name. */
  lemma {:induction false} CamelCaseRoundTrip(s: string)
    requires IsCssName(s)
    ensures Kebab(CamelCase(s)) == s
    decreases |s|
  {
    if s != [] {
      if s[0] == '-' {
        assert IsLower(s[1]);
        assert IsCssName(s[2..]) by {
          forall i | 0 <= i < |s[2..]| && s[2..][i] == '-'
            ensures i + 1 < |s[2..]| && IsLower(s[2..][i + 1])
          {
            assert s[i + 2] == '-';
          }
        }
        CamelCaseRoundTrip(s[2..]);
        var c := CamelCase(s);
        assert c == [UpperChar(s[1])] + CamelCase(s[2..]);
        assert c[1..] == CamelCase(s[2..]);
        assert LowerChar(UpperChar(s[1])) == s[1];
        assert s == ['-', s[1]] + s[2..];
      } else {
        assert IsCssName(s[1..]) by {
          forall i | 0 <= i < |s[1..]| && s[1..][i] == '-'
            ensures i + 1 < |s[1..]| && IsLower(s[1..][i + 1])
          {
            assert s[i + 1] == '-';
          }
        }
        CamelCaseRoundTrip(s[1..]);
        var c := CamelCase(s);
        assert c[1..] == CamelCase(s[1..]);
        assert s == [s[0]] + s[1..];
      }
    }
  }

  /** A string without joiners is left as it is. */
  lemma {:induction false} CamelCaseWithoutJoiners(s: string)
    requires forall i :: 0 <= i < |s| ==> !IsJoiner(s[i])
    ensures CamelCase(s) == s
    decreases |s|
  {
    if s != [] {
      CamelCaseWithoutJoiners(s[1..]);
    }
  }

  /** A prefix without joiners passes through unchanged. */
  lemma {:induction false} CamelCaseKeepsPrefix(a: string, b: string)
    requires forall i :: 0 <= i < |a| ==> !IsJoiner(a[i])
    ensures CamelCase(a + b) == a + CamelCase(b)
    decreases |a|
  {
    if a != [] {
      assert (a + b)[1..] == a[1..] + b;
      CamelCaseKeepsPrefix(a[1..], b);
    } else {
      assert a + b == b;
    }
  }

  lemma CamelCaseExample()
    ensures CamelCase("font-size") == "fontSize"
  {
    CamelCaseKeepsPrefix("font", "-size");
    assert "font-size" == "font" + "-size";
    CamelCaseWithoutJoiners("ize");
    assert "-size"[2..] == "ize";
  }

  // ---------------------------------------------------------------------------
  // styleStringToMap

  /** One `;`-separated entry after `split(':')` and `trim()`: the property name and,
      when the entry had a `:`, the value (the text up to a second `:`, if any). */
  datatype Entry = Entry(key: string, value: Option<string>)

  function ParseEntry(entry: string): (e: Entry)
    ensures e.value.Some? <==> ':' in entry
  {
    var parts := Split(entry, ':');
    assert ':' !in entry ==> parts == [entry];
    assert |parts| == 1 ==> parts[0] == entry;
    Entry(Trim(parts[0]), if |parts| >= 2 then Some(Trim(parts[1])) else None)
  }

  function ParseEntries(styles: string): seq<Entry>
  {
    var raw := Split(styles, ';');
    seq(|raw|, i requires 0 <= i < |raw| => ParseEntry(raw[i]))
  }

  /** The entry survives `filter(([ key ]) => key.trim())`. */
  predicate IsDeclaration(e: Entry) { e.key != [] }

  predicate Declares(e: Entry, name: string) { IsDeclaration(e) && CamelCase(e.key) == name }

  /** Entry `j` is the last of the first `n` entries to declare `name`. */
  predicate LastDeclaration(entries: seq<Entry>, n: nat, j: nat, name: string)
    requires n <= |entries|
  {
    j < n && Declares(entries[j], name)
    && forall k :: j < k < n ==> !Declares(entries[k], name)
  }

  /** One `forEach` step: a blank entry is skipped, a declaration without `:` throws
      (its `value` is undefined), any other declaration sets its camelCased name. */
  function Declare(styleMap: map<string, string>, e: Entry): Result<map<string, string>, Failure>
  {
    if !IsDeclaration(e) then Success(styleMap)
    else if e.value.None? then Failure(TypeError("value of a style entry without ':' is undefined"))
    else Success(styleMap[CamelCase(e.key) := e.value.value])
  }

  /** The map the entries build, applied in order to an initially empty map. */
  function DeclareAll(entries: seq<Entry>): Result<map<string, string>, Failure>
  {
    if entries == [] then Success(map[])
    else match DeclareAll(entries[..|entries| - 1])
      case Failure(e) => Failure(e)
      case Success(m) => Declare(m, entries[|entries| - 1])
  }

  /** One more entry, on top of a prefix that built `m`. */
  lemma DeclareAllNext(entries: seq<Entry>, i: nat, m: map<string, string>)
    requires i < |entries| && DeclareAll(entries[..i]) == Success(m)
    ensures DeclareAll(entries[..i + 1]) == Declare(m, entries[i])
  {
    assert entries[..i + 1][..i] == entries[..i];
  }

  /** Once an entry has thrown, the later entries do not matter. */
  lemma {:induction false} DeclareAllFailureSticks(entries: seq<Entry>, i: nat)
    requires i <= |entries| && DeclareAll(entries[..i]).Failure?
    ensures DeclareAll(entries) == DeclareAll(entries[..i])
    decreases |entries| - i
  {
    if i < |entries| {
      assert entries[..i + 1][..i] == entries[..i];
      DeclareAllFailureSticks(entries, i + 1);
    } else {
      assert entries[..i] == entries;
    }
  }

  /** The entries throw exactly when one of them names a property but has no `:`. */
  lemma {:induction false} DeclareAllFails(entries: seq<Entry>)
    ensures DeclareAll(entries).Failure? <==>
      exists j :: 0 <= j < |entries| && IsDeclaration(entries[j]) && entries[j].value.None?
    ensures DeclareAll(entries).Failure? ==> DeclareAll(entries).error.TypeError?
    decreases |entries|
  {
    if entries != [] {
      var init := entries[..|entries| - 1];
      DeclareAllFails(init);
      assert forall j :: 0 <= j < |init| ==> init[j] == entries[j];
    }
  }

  /** The names in the map are exactly the declared ones. */
  lemma {:induction false} DeclareAllNames(entries: seq<Entry>)
    requires DeclareAll(entries).Success?
    ensures forall name :: name in DeclareAll(entries).value <==>
      exists j :: 0 <= j < |entries| && Declares(entries[j], name)
    decreases |entries|
  {
    if entries != [] {
      var init := entries[..|entries| - 1];
      DeclareAllNames(init);
      assert forall j :: 0 <= j < |init| ==> init[j] == entries[j];
    }
  }

  /** The names in the map are exactly the declared ones, and each holds the value of
      its last declaration: a later duplicate wins. */
  lemma {:induction false} DeclareAllLastWins(entries: seq<Entry>)
    requires DeclareAll(entries).Success?
    ensures forall name :: name in DeclareAll(entries).value <==>
      exists j :: 0 <= j < |entries| && Declares(entries[j], name)
    ensures forall name :: name in DeclareAll(entries).value ==>
      exists j: nat :: (LastDeclaration(entries, |entries|, j, name)
                        && entries[j].value == Some(DeclareAll(entries).value[name]))
    decreases |entries|
  {
    DeclareAllNames(entries);
    if entries != [] {
      var n := |entries| - 1;
      var init := entries[..n];
      DeclareAllLastWins(init);
      var m := DeclareAll(init).value;
      var m' := DeclareAll(entries).value;
      forall other | other in m'
        ensures exists j: nat :: (LastDeclaration(entries, |entries|, j, other)
                                  && entries[j].value == Some(m'[other]))
      {
        if Declares(entries[n], other) {
          assert LastDeclaration(entries, |entries|, n, other);
        } else {
          var j: nat :| LastDeclaration(init, n, j, other) && init[j].value == Some(m[other]);
          LastDeclarationExtends(entries, j, other);
        }
      }
    }
  }

  /** An entry that does not declare `name` keeps the last declaration of `name` before it. */
  lemma LastDeclarationExtends(entries: seq<Entry>, j: nat, name: string)
    requires entries != []
    requires LastDeclaration(entries[..|entries| - 1], |entries| - 1, j, name)
    requires !Declares(entries[|entries| - 1], name)
    ensures LastDeclaration(entries, |entries|, j, name)
    ensures entries[j] == entries[..|entries| - 1][j]
  {
  }

  /** `styleStringToMap(styles)`: the `;`-separated entries applied in order with the
      `forEach` of the source, stopping at the first one that throws. The `style`
      attribute is `undefined` (`None`) on an element that has none, and `split` on it
      throws. */
  method StyleStringToMap(attribute: Option<string>) returns (r: Result<map<string, string>, Failure>)
    ensures attribute.None? ==> r.Failure? && r.error.TypeError?
    ensures attribute.Some? ==> r == DeclareAll(ParseEntries(attribute.value))
  {
    if attribute.None? {
      return Failure(TypeError("cannot read property 'split' of undefined"));
    }
    var styles := attribute.value;
    var raw := Split(styles, ';');
    ghost var entries := ParseEntries(styles);
    var styleMap: map<string, string> := map[];
    var i := 0;
    while i < |raw|
      invariant 0 <= i <= |raw|
      invariant DeclareAll(entries[..i]) == Success(styleMap)
    {
      var e := ParseEntry(raw[i]);
      assert e == entries[i];
      DeclareAllNext(entries, i, styleMap);
      if e.key != [] {
        if e.value.None? {
          DeclareAllFailureSticks(entries, i + 1);
          return Failure(TypeError("value of a style entry without ':' is undefined"));
        }
        styleMap := styleMap[CamelCase(e.key) := e.value.value];
      }
      i := i + 1;
    }
    assert entries[..i] == entries;
    r := Success(styleMap);
  }
}
