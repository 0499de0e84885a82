/** Read-only queries over the cached files and the options: checksums,
    book and chapter counts, book names, the rendered chapter text, the
    theme switches, and the segmentation of the app's name. */
module Getters {
  import opened Wrappers
  import opened Text
  import S = Serialization
  import P = SharedPrefs

  /** `getChecksum`: the index entry for `abbrev` as its JSON text, `"unknown"`
      when the checksum index cannot be loaded, and Kotlin's rendering of a
      missing entry, `"null"`, when the index has no such key. */
  function GetChecksum(index: Option<S.JsonObject>, abbrev: string): (r: string)
    ensures index.None? ==> r == "unknown"
    ensures index.Some? && abbrev in index.value ==> r == index.value[abbrev]
    ensures index.Some? && abbrev !in index.value ==> r == "null"
  {
    match index
    case None => "unknown"
    case Some(obj) => if abbrev in obj then obj[abbrev] else "null"
  }

  predicate IsBook(bible: S.Bible, book: int) {
    0 <= book < |bible.books|
  }

  predicate IsChapter(bible: S.Bible, book: int, chapter: int) {
    IsBook(bible, book) && 0 <= chapter < |bible.books[book].chapters|
  }

  /** `getCount`: (0, 0) when the translation does not load; otherwise the
      last book index of the translation and the last chapter index of
      `book`, so that `0..count` are exactly the valid indices. Indexing a
      book that does not exist throws. */
  function GetCount(lib: S.Library, abbrev: string, book: int): (r: Checked<(int, int)>)
    ensures abbrev !in lib ==> r == Ok((0, 0))
    ensures abbrev in lib ==> (r.Ok? <==> IsBook(lib[abbrev], book))
    ensures abbrev in lib && r.Ok? ==>
              && (forall b :: IsBook(lib[abbrev], b) <==> 0 <= b <= r.value.0)
              && (forall c :: IsChapter(lib[abbrev], book, c) <==> 0 <= c <= r.value.1)
    ensures abbrev in lib && r.Ok? ==> r.value.0 >= -1 && r.value.1 >= -1
  {
    if abbrev !in lib then Ok((0, 0))
    else
      var bible := lib[abbrev];
      if 0 <= book < |bible.books| then Ok((|bible.books| - 1, |bible.books[book].chapters| - 1))
      else IndexOutOfBounds
  }

  /** `getBookNames`: `["ERROR"]` when the translation does not load,
      otherwise the books' names in order. */
  method GetBookNames(lib: S.Library, abbrev: string) returns (names: seq<string>)
    ensures abbrev !in lib ==> names == ["ERROR"]
    ensures abbrev in lib ==> |names| == |lib[abbrev].books|
    ensures abbrev in lib ==> forall i :: 0 <= i < |names| ==> names[i] == lib[abbrev].books[i].name
  {
    if abbrev !in lib {
      return ["ERROR"];
    }
    var books := lib[abbrev].books;
    var num := |books|;
    var arr := seq(num, _ => "");
    var i := 0;
    while i < num
      invariant 0 <= i <= num && |arr| == num
      invariant forall k :: 0 <= k < i ==> arr[k] == books[k].name
    {
      arr := arr[i := books[i].name];
      i := i + 1;
    }
    names := arr;
  }

  /** One verse as shown with verse numbers: `"${verse} ${text}".trim()`. */
  function NumberedLine(v: S.Verse): string {
    Trim(IntToString(v.verse) + " " + v.text)
  }

  function NumberedLines(verses: seq<S.Verse>): (lines: seq<string>)
    ensures |lines| == |verses|
    ensures forall i :: 0 <= i < |verses| ==> lines[i] == NumberedLine(verses[i])
  {
    seq(|verses|, i requires 0 <= i < |verses| => NumberedLine(verses[i]))
  }

  function Texts(verses: seq<S.Verse>): (texts: seq<string>)
    ensures |texts| == |verses|
    ensures forall i :: 0 <= i < |verses| ==> texts[i] == verses[i].text
  {
    seq(|verses|, i requires 0 <= i < |verses| => verses[i].text)
  }

  /** Every line followed by a newline, as the loop in `getChapter` builds it. */
  function Terminated(lines: seq<string>): string {
    if |lines| == 0 then "" else Terminated(lines[..|lines| - 1]) + lines[|lines| - 1] + "\n"
  }

  /** Dropping the final newline of the terminated lines leaves them joined by newlines. */
  lemma {:induction false} TerminatedIsJoined(lines: seq<string>)
    requires |lines| > 0
    ensures Terminated(lines) == Join(lines, "\n") + "\n"
  {
    if |lines| > 1 {
      TerminatedIsJoined(lines[..|lines| - 1]);
    }
  }

  const LoadErrorTitle := "ERROR"
  const LoadErrorText := "Please try again\nCheck your internet connection"

  /** `getChapter`: the heading `"<translation> | <chapter name>"` and the
      chapter's text. With verse numbers the text is each trimmed
      `"<n> <text>"` line joined by newlines; without them it is the verse
      texts run together. A translation that does not load gives the error
      pair; a missing book or chapter throws, and so does a chapter without
      verses when numbers are shown (the final newline to drop is missing). */
  method GetChapter(lib: S.Library, abbrev: string, book: int, chapter: int, showVerseNumbers: bool)
    returns (r: Checked<(string, string)>)
    ensures abbrev !in lib ==> r == Ok((LoadErrorTitle, LoadErrorText))
    ensures abbrev in lib ==>
              (r.Ok? <==> IsChapter(lib[abbrev], book, chapter)
                          && (showVerseNumbers ==> |lib[abbrev].books[book].chapters[chapter].verses| > 0))
    ensures abbrev in lib && r.Ok? ==>
              var ch := lib[abbrev].books[book].chapters[chapter];
              && r.value.0 == lib[abbrev].translation + " | " + ch.name
              && (showVerseNumbers ==> r.value.1 == Join(NumberedLines(ch.verses), "\n"))
              && (!showVerseNumbers ==> r.value.1 == Concat(Texts(ch.verses)))
  {
    if abbrev !in lib {
      return Ok((LoadErrorTitle, LoadErrorText));
    }
    var bible := lib[abbrev];
    if !(0 <= book < |bible.books| && 0 <= chapter < |bible.books[book].chapters|) {
      return IndexOutOfBounds;
    }
    var ch := bible.books[book].chapters[chapter];
    var text;
    if showVerseNumbers {
      text := NumberedText(ch.verses);
      if |text| == 0 {
        return IndexOutOfBounds;
      }
      TerminatedIsJoined(NumberedLines(ch.verses));
      text := text[..|text| - 1];
    } else {
      text := PlainText(ch.verses);
    }
    r := Ok((bible.translation + " | " + ch.name, text));
  }

  /** Terminating one more line appends it and a newline. */
  lemma TerminatedStep(lines: seq<string>, i: nat)
    requires i < |lines|
    ensures Terminated(lines[..i + 1]) == Terminated(lines[..i]) + lines[i] + "\n"
  {
    assert lines[..i + 1][..i] == lines[..i];
  }

  /** The `forEach` loop of `getChapter` with verse numbers on: each
      numbered line followed by a newline. */
  method NumberedText(verses: seq<S.Verse>) returns (text: string)
    ensures text == Terminated(NumberedLines(verses))
    ensures |text| == 0 <==> |verses| == 0
  {
    ghost var lines := NumberedLines(verses);
    text := "";
    var i := 0;
    while i < |verses|
      invariant 0 <= i <= |verses|
      invariant text == Terminated(lines[..i])
      invariant i > 0 ==> |text| > 0
    {
      var line := NumberedLine(verses[i]);
      TerminatedStep(lines, i);
      text := text + line + "\n";
      i := i + 1;
    }
    assert lines[..i] == lines;
  }

  /** The same loop with verse numbers off: the verse texts run together. */
  method PlainText(verses: seq<S.Verse>) returns (text: string)
    ensures text == Concat(Texts(verses))
  {
    ghost var texts := Texts(verses);
    text := "";
    var i := 0;
    while i < |verses|
      invariant 0 <= i <= |verses|
      invariant text == Concat(texts[..i])
    {
      assert texts[..i + 1][..i] == texts[..i];
      text := text + verses[i].text;
      i := i + 1;
    }
    assert texts[..i] == texts;
  }

  /** `getMainThemeOptions`: explicit arguments override the stored options;
      the result is (dark theme, dynamic colour, amoled), where "dark theme"
      is null for `System` (follow the device) and amoled implies dark. */
  function GetMainThemeOptions(options: P.Prefs, themeOption: Option<P.ThemeOption>, schemeOption: Option<P.SchemeOption>)
    : (r: (Option<bool>, bool, bool))
    ensures var theme := themeOption.GetOr(P.GetColorScheme(options).0);
            && (r.0.None? <==> theme == P.System)
            && (r.0 == Some(false) <==> theme == P.Light)
            && (r.2 <==> theme == P.Amoled)
            && (r.2 ==> r.0 == Some(true))
    ensures r.1 <==> schemeOption.GetOr(P.GetColorScheme(options).1) == P.Dynamic
  {
    var (stored, storedScheme) := P.GetColorScheme(options);
    var theme := themeOption.GetOr(stored);
    var scheme := schemeOption.GetOr(storedScheme);
    var darkTheme := match theme
      case System => None
      case Light => Some(false)
      case Dark => Some(true)
      case Amoled => Some(true);
    var dynamicColor := match scheme
      case Dynamic => true
      case Static => false;
    (darkTheme, dynamicColor, theme == P.Amoled)
  }

  // ------------------------------------------------------------ app name

  /** The regex class `[A-Z]`. */
  predicate IsUpper(c: char) {
    'A' <= c <= 'Z'
  }

  /** No uppercase letter anywhere in `w`. */
  predicate NoUpper(w: string) {
    forall k :: 0 <= k < |w| ==> !IsUpper(w[k])
  }

  /** One capitalised word: an uppercase letter followed by none. */
  predicate IsCapitalised(w: string) {
    |w| > 0 && IsUpper(w[0]) && NoUpper(w[1..])
  }

  /** The shape `split(Regex("(?=[A-Z])"))` gives: at least one part, the
      first (possibly empty) without an uppercase letter, every later part
      one capitalised word. */
  predicate SplitShape(parts: seq<string>) {
    && |parts| >= 1
    && NoUpper(parts[0])
    && (forall i :: 0 < i < |parts| ==> IsCapitalised(parts[i]))
  }

  /** An uppercase letter opens a new part. */
  lemma SplitAppendUpper(init: seq<string>, c: char)
    requires SplitShape(init) && IsUpper(c)
    ensures SplitShape(init + [[c]])
    ensures Concat(init + [[c]]) == Concat(init) + [c]
  {
    assert (init + [[c]])[..|init|] == init;
  }

  /** Growing the last part by one character grows the concatenation by it. */
  lemma ConcatGrowLast(front: seq<string>, w: string, c: char)
    ensures Concat(front + [w + [c]]) == Concat(front + [w]) + [c]
  {
    assert (front + [w + [c]])[..|front|] == front;
    assert (front + [w])[..|front|] == front;
  }

  /** Any other character joins the last part. */
  lemma SplitAppendOtherShape(init: seq<string>, c: char)
    requires SplitShape(init) && !IsUpper(c)
    ensures SplitShape(init[..|init| - 1] + [init[|init| - 1] + [c]])
  {
    var n := |init|;
    var last := init[n - 1] + [c];
    var grown := init[..n - 1] + [last];
    LastPartGrows(init, c);
    forall i | 0 < i < n
      ensures IsCapitalised(grown[i])
    {
      if i < n - 1 {
        assert grown[i] == init[i];
      }
    }
    assert grown[0] == if n == 1 then last else init[0];
  }

  /** The grown last part keeps the shape its position asks for. */
  lemma LastPartGrows(init: seq<string>, c: char)
    requires SplitShape(init) && !IsUpper(c)
    ensures |init| == 1 ==> NoUpper(init[0] + [c])
    ensures |init| > 1 ==> IsCapitalised(init[|init| - 1] + [c])
  {
    var w := init[|init| - 1];
    if |init| > 1 {
      assert (w + [c])[1..] == w[1..] + [c];
    }
  }

  /** `split(Regex("(?=[A-Z])"))`: a cut before every uppercase letter,
      so the first part (possibly empty) holds no uppercase letter, every
      later part is one capitalised word, and the parts put back together
      give the name. */
  function SplitBeforeUpper(s: string): (parts: seq<string>)
    ensures |parts| >= 1 && Concat(parts) == s
    ensures NoUpper(parts[0])
    ensures forall i :: 0 < i < |parts| ==> IsCapitalised(parts[i])
  {
    if |s| == 0 then [""]
    else
      var init := SplitBeforeUpper(s[..|s| - 1]);
      var c := s[|s| - 1];
      assert s == s[..|s| - 1] + [c];
      assert SplitShape(init);
      if IsUpper(c) then
        SplitAppendUpper(init, c);
        init + [[c]]
      else
        assert init == init[..|init| - 1] + [init[|init| - 1]];
        ConcatGrowLast(init[..|init| - 1], init[|init| - 1], c);
        SplitAppendOtherShape(init, c);
        init[..|init| - 1] + [init[|init| - 1] + [c]]
  }

  /** `filter { it.isNotEmpty() }`. */
  function NonEmpty(parts: seq<string>): (r: seq<string>)
    ensures forall i :: 0 <= i < |r| ==> |r[i]| > 0
  {
    if |parts| == 0 then []
    else (if |parts[0]| == 0 then [] else [parts[0]]) + NonEmpty(parts[1..])
  }

  lemma {:induction false} NonEmptyKeepsNonEmpty(parts: seq<string>)
    requires forall i :: 0 <= i < |parts| ==> |parts[i]| > 0
    ensures NonEmpty(parts) == parts
  {
    if |parts| > 0 {
      NonEmptyKeepsNonEmpty(parts[1..]);
    }
  }

  /** Filtering the split drops at most the empty first part. */
  lemma {:induction false} NonEmptyOfSplit(parts: seq<string>)
    requires |parts| >= 1
    requires forall i :: 0 < i < |parts| ==> IsCapitalised(parts[i])
    ensures NonEmpty(parts) == if |parts[0]| == 0 then parts[1..] else parts
  {
    var rest := parts[1..];
    assert forall i :: 0 <= i < |rest| ==> IsCapitalised(rest[i]);
    NonEmptyKeepsNonEmpty(rest);
    assert parts == [parts[0]] + rest;
  }

  /** The first character of a concatenation whose first part is non-empty. */
  lemma ConcatFirst(parts: seq<string>)
    requires |parts| > 0 && |parts[0]| > 0
    ensures |Concat(parts)| > 0 && Concat(parts)[0] == parts[0][0]
  {
    assert parts == [parts[0]] + parts[1..];
    ConcatAppend([parts[0]], parts[1..]);
  }

  /** The words `getAppName` colours one by one. */
  function AppNameWords(name: string): seq<string> {
    NonEmpty(SplitBeforeUpper(name))
  }

  /** The app name's words are non-empty and put back together give the
      name; every word after the first is capitalised, the first has no
      uppercase letter after its first character, and the first starts with
      an uppercase letter exactly when the name does. */
  lemma {:induction false} AppNameSegmentation(name: string)
    ensures var words := AppNameWords(name);
            && Concat(words) == name
            && (forall i :: 0 <= i < |words| ==> |words[i]| > 0)
            && (forall i :: 0 < i < |words| ==> IsCapitalised(words[i]))
            && (|words| > 0 ==> NoUpper(words[0][1..]))
            && (|name| > 0 ==> |words| > 0 && (IsUpper(words[0][0]) <==> IsUpper(name[0])))
  {
    var parts := SplitBeforeUpper(name);
    assert SplitShape(parts);
    FilteredSplit(parts);
  }

  /** The filtered parts of any split of the right shape. */
  lemma {:induction false} FilteredSplit(parts: seq<string>)
    requires SplitShape(parts)
    ensures var words := NonEmpty(parts);
            && Concat(words) == Concat(parts)
            && (forall i :: 0 <= i < |words| ==> |words[i]| > 0)
            && (forall i :: 0 < i < |words| ==> IsCapitalised(words[i]))
            && (|words| > 0 ==> NoUpper(words[0][1..]))
            && (|Concat(parts)| > 0 ==> |words| > 0 && (IsUpper(words[0][0]) <==> IsUpper(Concat(parts)[0])))
  {
    NonEmptyOfSplit(parts);
    var words := NonEmpty(parts);
    if |parts[0]| == 0 {
      assert words == parts[1..];
      assert Concat(words) == Concat(parts) by {
        assert parts == [parts[0]] + words;
        ConcatAppend([parts[0]], words);
      }
      assert forall i :: 0 <= i < |words| ==> IsCapitalised(words[i]) by {
        forall i | 0 <= i < |words|
          ensures IsCapitalised(words[i])
        {
          assert words[i] == parts[i + 1];
        }
      }
      if |words| > 0 {
        ConcatFirst(words);
      }
    } else {
      assert words == parts;
      ConcatFirst(parts);
    }
  }

  /** `getFirstLaunch`: true when the translations directory is unavailable,
      cannot be listed, or is empty. */
  function GetFirstLaunch(dirAvailable: bool, files: Option<seq<string>>): (r: bool)
    ensures !r <==> dirAvailable && files.Some? && |files.value| > 0
  {
    if !dirAvailable then true
    else if files.None? || |files.value| == 0 then true
    else false
  }
}
