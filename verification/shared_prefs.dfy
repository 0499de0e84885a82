/** The two preference files ("options" and "selection") as plain key/value
    maps, the option enums with their string decoders, and the per-pane
    (translation, book, chapter) selection store. */
module SharedPrefs {
  import opened Wrappers
  import S = Serialization

  datatype SelectMode = Translation | Book | Chapter

  datatype ThemeOption = System | Light | Dark | Amoled {
    /** The enum's `toString()`. */
    function Name(): string {
      match this
      case System => "System"
      case Light => "Light"
      case Dark => "Dark"
      case Amoled => "Amoled"
    }
  }

  datatype SchemeOption = Dynamic | Static {
    function Name(): string {
      match this
      case Dynamic => "Dynamic"
      case Static => "Static"
    }
  }

  datatype ReadTextAlignment = Start | Justify {
    function Name(): string {
      match this
      case Start => "Start"
      case Justify => "Justify"
    }
  }

  datatype SplitScreen = Off | Vertical | Horizontal {
    function Name(): string {
      match this
      case Off => "Off"
      case Vertical => "Vertical"
      case Horizontal => "Horizontal"
    }
  }

  /** The enums' `entries`, in declaration order. */
  const SelectModeEntries: seq<SelectMode> := [Translation, Book, Chapter]
  const ThemeEntries: seq<ThemeOption> := [System, Light, Dark, Amoled]
  const SchemeEntries: seq<SchemeOption> := [Dynamic, Static]
  const SplitScreenEntries: seq<SplitScreen> := [Off, Vertical, Horizontal]
  const AlignmentEntries: seq<ReadTextAlignment> := [Start, Justify]

  const ThemeNames: set<string> := {"System", "Light", "Dark", "Amoled"}
  const SchemeNames: set<string> := {"Dynamic", "Static"}
  const SplitScreenNames: set<string> := {"Off", "Vertical", "Horizontal"}
  const AlignmentNames: set<string> := {"Start", "Justify"}

  /** One preference file. The app writes every key with a single type, so
      each type gets its own map. */
  datatype Prefs = Prefs(strings: map<string, string>, ints: map<string, int>, bools: map<string, bool>)

  const NoPrefs := Prefs(map[], map[], map[])

  function GetString(p: Prefs, key: string, default: string): string {
    if key in p.strings then p.strings[key] else default
  }

  function GetInt(p: Prefs, key: string, default: int): int {
    if key in p.ints then p.ints[key] else default
  }

  /** `p` and `q` hold the same entries under every key outside `keys`. */
  predicate UnchangedOutside(p: Prefs, q: Prefs, keys: set<string>) {
    && p.bools == q.bools
    && p.strings - keys == q.strings - keys
    && p.ints - keys == q.ints - keys
  }

  /** Between `p` and `q`, strings change at most under the pane's
      translation key and ints at most under its book and chapter keys, so a
      save never touches the other type's entry under a written key. */
  predicate TypedWrites(p: Prefs, q: Prefs, k: PaneKeys) {
    && p.strings - {k.translation} == q.strings - {k.translation}
    && p.ints - {k.book, k.chapter} == q.ints - {k.book, k.chapter}
  }

  // ---------------------------------------------------------------- decoders

  /** The `when` over the theme names: a name decodes to its option,
      anything else falls back to `System`. */
  function DecodeTheme(s: string): (t: ThemeOption)
    ensures s in ThemeNames ==> t.Name() == s
    ensures s !in ThemeNames ==> t == System
  {
    if s == "System" then System
    else if s == "Light" then Light
    else if s == "Dark" then Dark
    else if s == "Amoled" then Amoled
    else System
  }

  /** A scheme name decodes to its option; anything else falls back to `Static`. */
  function DecodeScheme(s: string): (o: SchemeOption)
    ensures s in SchemeNames ==> o.Name() == s
    ensures s !in SchemeNames ==> o == Static
  {
    if s == "Dynamic" then Dynamic
    else if s == "Static" then Static
    else Static
  }

  /** A split-screen name decodes to its mode; anything else is `Off`. */
  function DecodeSplitScreen(s: string): (m: SplitScreen)
    ensures s in SplitScreenNames ==> m.Name() == s
    ensures s !in SplitScreenNames ==> m == Off
  {
    if s == "Off" then Off
    else if s == "Vertical" then Vertical
    else if s == "Horizontal" then Horizontal
    else Off
  }

  /** An alignment name decodes to its alignment; anything else is `Start`. */
  function DecodeAlignment(s: string): (a: ReadTextAlignment)
    ensures s in AlignmentNames ==> a.Name() == s
    ensures s !in AlignmentNames ==> a == Start
  {
    if s == "Start" then Start
    else if s == "Justify" then Justify
    else Start
  }

  /** Every enum's `toString()` decodes back to that enum. */
  lemma DecodeNames(t: ThemeOption, o: SchemeOption, m: SplitScreen, a: ReadTextAlignment)
    ensures DecodeTheme(t.Name()) == t
    ensures DecodeScheme(o.Name()) == o
    ensures DecodeSplitScreen(m.Name()) == m
    ensures DecodeAlignment(a.Name()) == a
  {
  }

  // ------------------------------------------------------------ colour scheme

  /** `getColorScheme`: an unset theme reads as `System`, an unset scheme as
      `Dynamic`; a stored string goes through the decoders above. */
  function GetColorScheme(options: Prefs): (r: (ThemeOption, SchemeOption))
    ensures "theme" !in options.strings ==> r.0 == System
    ensures "scheme" !in options.strings ==> r.1 == Dynamic
    ensures "theme" in options.strings && options.strings["theme"] in ThemeNames ==> r.0.Name() == options.strings["theme"]
    ensures "theme" in options.strings && options.strings["theme"] !in ThemeNames ==> r.0 == System
    ensures "scheme" in options.strings && options.strings["scheme"] in SchemeNames ==> r.1.Name() == options.strings["scheme"]
    ensures "scheme" in options.strings && options.strings["scheme"] !in SchemeNames ==> r.1 == Static
  {
    (DecodeTheme(GetString(options, "theme", "System")),
     DecodeScheme(GetString(options, "scheme", "Dynamic")))
  }

  /** `saveColorScheme`: writes the theme and/or the scheme name, leaving a
      key whose argument is null, and every other key, as it was. */
  function SaveColorScheme(options: Prefs, theme: Option<ThemeOption>, scheme: Option<SchemeOption>): (r: Prefs)
    ensures UnchangedOutside(options, r, {"theme", "scheme"})
    ensures theme.Some? ==> "theme" in r.strings && r.strings["theme"] == theme.value.Name()
    ensures scheme.Some? ==> "scheme" in r.strings && r.strings["scheme"] == scheme.value.Name()
    ensures theme.None? ==> UnchangedOutside(options, r, {"scheme"})
    ensures scheme.None? ==> UnchangedOutside(options, r, {"theme"})
  {
    var withTheme := if theme.Some? then options.strings["theme" := theme.value.Name()] else options.strings;
    var withScheme := if scheme.Some? then withTheme["scheme" := scheme.value.Name()] else withTheme;
    options.(strings := withScheme)
  }

  /** What was saved reads back; what was not saved reads as before. */
  lemma ColorSchemeRoundTrip(options: Prefs, theme: Option<ThemeOption>, scheme: Option<SchemeOption>)
    ensures GetColorScheme(SaveColorScheme(options, theme, scheme))
         == (theme.GetOr(GetColorScheme(options).0), scheme.GetOr(GetColorScheme(options).1))
  {
    var r := SaveColorScheme(options, theme, scheme);
    if theme.Some? {
      DecodeNames(theme.value, Dynamic, Off, Start);
      assert GetString(r, "theme", "System") == theme.value.Name();
    } else {
      assert GetString(r, "theme", "System") == GetString(options, "theme", "System");
    }
    if scheme.Some? {
      DecodeNames(System, scheme.value, Off, Start);
      assert GetString(r, "scheme", "Dynamic") == scheme.value.Name();
    } else {
      assert GetString(r, "scheme", "Dynamic") == GetString(options, "scheme", "Dynamic");
    }
  }

  /** `getColorSchemeInt`: the position of the decoded theme (or scheme) in
      its enum's declaration order. */
  function GetColorSchemeInt(options: Prefs, isTheme: bool): (r: int)
    ensures isTheme ==> 0 <= r < |ThemeEntries| && ThemeEntries[r] == GetColorScheme(options).0
    ensures !isTheme ==> 0 <= r < |SchemeEntries| && SchemeEntries[r] == GetColorScheme(options).1
  {
    var (theme, scheme) := GetColorScheme(options);
    if isTheme then
      match theme
      case System => 0
      case Light => 1
      case Dark => 2
      case Amoled => 3
    else
      match scheme
      case Dynamic => 0
      case Static => 1
  }

  // ---------------------------------------------------------- boolean options

  /** The five on/off options, each stored under its own key. */
  datatype BoolOption = CheckAtStartup | NotifyDownload | InfiniteScroll | ShowVerseNumbers | VerseOfTheDay {
    function Key(): string {
      match this
      case CheckAtStartup => "checkAtStartup"
      case NotifyDownload => "notifyDownload"
      case InfiniteScroll => "infiniteScroll"
      case ShowVerseNumbers => "showVerseNumbers"
      case VerseOfTheDay => "verseOfTheDay"
    }

    /** The value read when nothing was ever saved. */
    function Default(): bool {
      match this
      case CheckAtStartup => true
      case NotifyDownload => false
      case InfiniteScroll => true
      case ShowVerseNumbers => true
      case VerseOfTheDay => false
    }
  }

  /** `getCheckAtStartup`, `getDownloadNotification`, `getInfiniteScroll`,
      `getShowVerseNumbers`, `getVerseOfTheDay`. */
  function GetOption(options: Prefs, o: BoolOption): (r: bool)
    ensures o.Key() !in options.bools ==> r == o.Default()
    ensures o.Key() in options.bools ==> r == options.bools[o.Key()]
  {
    if o.Key() in options.bools then options.bools[o.Key()] else o.Default()
  }

  /** The matching `save…` functions: one boolean key is written. */
  function SaveOption(options: Prefs, o: BoolOption, value: bool): (r: Prefs)
    ensures r.strings == options.strings && r.ints == options.ints
    ensures r.bools.Keys == options.bools.Keys + {o.Key()}
    ensures r.bools[o.Key()] == value
    ensures forall key :: key in options.bools && key != o.Key() ==> r.bools[key] == options.bools[key]
  {
    options.(bools := options.bools[o.Key() := value])
  }

  /** A saved option reads back as saved, and saving it leaves every other
      option reading as before. */
  lemma {:induction false} OptionRoundTrip(options: Prefs, o: BoolOption, value: bool, other: BoolOption)
    requires other != o
    ensures GetOption(SaveOption(options, o, value), o) == value
    ensures GetOption(SaveOption(options, o, value), other) == GetOption(options, other)
  {
    assert other.Key() != o.Key() by {
      match o
      case CheckAtStartup =>
      case NotifyDownload =>
      case InfiniteScroll =>
      case ShowVerseNumbers =>
      case VerseOfTheDay =>
    }
  }

  /** With nothing saved, the options read as their documented defaults. */
  lemma UnsavedDefaults(options: Prefs)
    requires options.bools == map[]
    ensures GetOption(options, CheckAtStartup) == true
    ensures GetOption(options, NotifyDownload) == false
    ensures GetOption(options, InfiniteScroll) == true
    ensures GetOption(options, ShowVerseNumbers) == true
    ensures GetOption(options, VerseOfTheDay) == false
  {
  }

  // ------------------------------------------------- split screen, alignment

  /** `getSplitScreen`: the unset default is the string "Start", which is not
      a split-screen name, so an unset key reads as `Off`. */
  function GetSplitScreen(options: Prefs): (m: SplitScreen)
    ensures "split" !in options.strings ==> m == Off
    ensures "split" in options.strings && options.strings["split"] in SplitScreenNames ==> m.Name() == options.strings["split"]
    ensures "split" in options.strings && options.strings["split"] !in SplitScreenNames ==> m == Off
  {
    DecodeSplitScreen(GetString(options, "split", "Start"))
  }

  function SaveSplitScreen(options: Prefs, split: SplitScreen): (r: Prefs)
    ensures UnchangedOutside(options, r, {"split"})
    ensures "split" in r.strings && r.strings["split"] == split.Name()
  {
    options.(strings := options.strings["split" := split.Name()])
  }

  /** `getSplitScreenInt`: the declaration-order index of the decoded mode. */
  function GetSplitScreenInt(options: Prefs): (r: int)
    ensures 0 <= r < |SplitScreenEntries| && SplitScreenEntries[r] == GetSplitScreen(options)
  {
    match GetSplitScreen(options)
    case Off => 0
    case Vertical => 1
    case Horizontal => 2
  }

  /** `getTextAlignment`: unset or unknown reads as `Start`. */
  function GetTextAlignment(options: Prefs): (a: ReadTextAlignment)
    ensures "textAlignment" !in options.strings ==> a == Start
    ensures "textAlignment" in options.strings && options.strings["textAlignment"] in AlignmentNames ==> a.Name() == options.strings["textAlignment"]
    ensures "textAlignment" in options.strings && options.strings["textAlignment"] !in AlignmentNames ==> a == Start
  {
    DecodeAlignment(GetString(options, "textAlignment", "Start"))
  }

  function SaveTextAlignment(options: Prefs, alignment: ReadTextAlignment): (r: Prefs)
    ensures UnchangedOutside(options, r, {"textAlignment"})
    ensures "textAlignment" in r.strings && r.strings["textAlignment"] == alignment.Name()
  {
    options.(strings := options.strings["textAlignment" := alignment.Name()])
  }

  /** `getTextAlignmentInt`: the declaration-order index of the decoded alignment. */
  function GetTextAlignmentInt(options: Prefs): (r: int)
    ensures 0 <= r < |AlignmentEntries| && AlignmentEntries[r] == GetTextAlignment(options)
  {
    match GetTextAlignment(options)
    case Start => 0
    case Justify => 1
  }

  /** Saving a split mode or an alignment reads back as saved, and neither
      save disturbs what the other reads. */
  lemma SplitAndAlignmentRoundTrip(options: Prefs, split: SplitScreen, alignment: ReadTextAlignment)
    ensures GetSplitScreen(SaveSplitScreen(options, split)) == split
    ensures GetTextAlignment(SaveTextAlignment(options, alignment)) == alignment
    ensures GetTextAlignment(SaveSplitScreen(options, split)) == GetTextAlignment(options)
    ensures GetSplitScreen(SaveTextAlignment(options, alignment)) == GetSplitScreen(options)
  {
    DecodeNames(System, Dynamic, split, alignment);
    assert GetString(SaveSplitScreen(options, split), "textAlignment", "Start")
        == GetString(options, "textAlignment", "Start");
    assert GetString(SaveTextAlignment(options, alignment), "split", "Start")
        == GetString(options, "split", "Start");
  }

  // ---------------------------------------------------------------- selection

  /** The user's place: a translation abbreviation and 0-based book and chapter indices. */
  datatype Selection = Selection(translation: string, book: int, chapter: int)

  /** John 3 in "schlachter": what a pane shows before anything is saved. */
  const DefaultSelection := Selection("schlachter", 42, 2)

  /** The three keys one pane's selection lives under. */
  datatype PaneKeys = PaneKeys(translation: string, book: string, chapter: string) {
    function All(): set<string> { {translation, book, chapter} }
  }

  /** The primary pane uses the plain keys, the split pane the `_split` keys. */
  function Keys(isSplitScreen: bool): (k: PaneKeys)
    ensures k.translation != k.book && k.book != k.chapter && k.translation != k.chapter
  {
    if isSplitScreen then PaneKeys("translation_split", "book_split", "chapter_split")
    else PaneKeys("translation", "book", "chapter")
  }

  /** The two panes share no key, so a save in one pane never touches the
      other's selection. */
  lemma PaneKeysDisjoint()
    ensures Keys(true).All() !! Keys(false).All()
  {
  }

  /** What a pane's keys hold, each unset key read as its default. */
  function Stored(sel: Prefs, isSplitScreen: bool): (s: Selection)
    ensures Keys(isSplitScreen).translation !in sel.strings ==> s.translation == DefaultSelection.translation
    ensures Keys(isSplitScreen).book !in sel.ints ==> s.book == DefaultSelection.book
    ensures Keys(isSplitScreen).chapter !in sel.ints ==> s.chapter == DefaultSelection.chapter
    ensures Keys(isSplitScreen).translation in sel.strings ==> s.translation == sel.strings[Keys(isSplitScreen).translation]
    ensures Keys(isSplitScreen).book in sel.ints ==> s.book == sel.ints[Keys(isSplitScreen).book]
    ensures Keys(isSplitScreen).chapter in sel.ints ==> s.chapter == sel.ints[Keys(isSplitScreen).chapter]
  {
    var k := Keys(isSplitScreen);
    Selection(
      GetString(sel, k.translation, DefaultSelection.translation),
      GetInt(sel, k.book, DefaultSelection.book),
      GetInt(sel, k.chapter, DefaultSelection.chapter))
  }

  /** The book count below which the source resets the default (42, 2)
      selection to (0, 0): as written, `42 > books.size`. */
  predicate ResetsAsWritten(s: Selection, lib: S.Library) {
    s.book == 42 && s.chapter == 2 && s.translation in lib && s.book > |lib[s.translation].books|
  }

  /** The evidently intended reset: book 42 is not an index of the loaded translation. */
  predicate Resets(s: Selection, lib: S.Library) {
    s.book == 42 && s.chapter == 2 && s.translation in lib && s.book >= |lib[s.translation].books|
  }

  /** `getSelection` as written: the stored pane selection, except that the
      exact default (42, 2) is reset to (0, 0) when the translation loads and
      has fewer than 42 books. */
  function GetSelectionAsWritten(sel: Prefs, isSplitScreen: bool, lib: S.Library): (r: Selection)
    ensures r.translation == Stored(sel, isSplitScreen).translation
    ensures ResetsAsWritten(Stored(sel, isSplitScreen), lib) ==> r.book == 0 && r.chapter == 0
    ensures !ResetsAsWritten(Stored(sel, isSplitScreen), lib) ==> r == Stored(sel, isSplitScreen)
  {
    var s := Stored(sel, isSplitScreen);
    if s.book == 42 && s.chapter == 2 && s.translation in lib && s.book > |lib[s.translation].books|
    then s.(book := 0, chapter := 0)
    else s
  }

  /** A 42-book translation and an empty store: `getSelection` as written
      keeps book 42, which is one past that translation's last book. */
  lemma GetSelectionAsWrittenKeepsMissingBook()
    ensures var lib := map["schlachter" := S.Bible("schlachter", "", "", "", seq(42, _ => S.Book("", [])))];
            var r := GetSelectionAsWritten(NoPrefs, false, lib);
            r.book == 42 && r.book == |lib[r.translation].books|
  {
    var lib := map["schlachter" := S.Bible("schlachter", "", "", "", seq(42, _ => S.Book("", [])))];
    assert Stored(NoPrefs, false) == DefaultSelection;
    assert !ResetsAsWritten(DefaultSelection, lib);
  }

  /** `getSelection` with the reset bound corrected: the stored pane
      selection, except that the exact default (42, 2) becomes (0, 0) when
      the translation loads and has no book 42. Whatever is returned, a
      loaded translation never comes back with the missing book 42. */
  function GetSelection(sel: Prefs, isSplitScreen: bool, lib: S.Library): (r: Selection)
    ensures r.translation == Stored(sel, isSplitScreen).translation
    ensures Resets(Stored(sel, isSplitScreen), lib) ==> r.book == 0 && r.chapter == 0
    ensures !Resets(Stored(sel, isSplitScreen), lib) ==> r == Stored(sel, isSplitScreen)
    ensures r.book == 42 && r.chapter == 2 && r.translation in lib ==> 42 < |lib[r.translation].books|
  {
    var s := Stored(sel, isSplitScreen);
    if s.book == 42 && s.chapter == 2 && s.translation in lib && s.book >= |lib[s.translation].books|
    then s.(book := 0, chapter := 0)
    else s
  }

  /** A pane's selection depends only on that pane's three keys. */
  lemma {:induction false} PaneIsolation(sel: Prefs, other: Prefs, isSplitScreen: bool, lib: S.Library)
    requires forall key :: key in Keys(isSplitScreen).All() ==>
               (key in sel.strings <==> key in other.strings) && (key in sel.ints <==> key in other.ints)
    requires forall key :: key in Keys(isSplitScreen).All() && key in sel.strings ==> sel.strings[key] == other.strings[key]
    requires forall key :: key in Keys(isSplitScreen).All() && key in sel.ints ==> sel.ints[key] == other.ints[key]
    ensures GetSelection(sel, isSplitScreen, lib) == GetSelection(other, isSplitScreen, lib)
  {
    var k := Keys(isSplitScreen);
    assert k.translation in k.All() && k.book in k.All() && k.chapter in k.All();
    assert Stored(sel, isSplitScreen) == Stored(other, isSplitScreen);
  }

  /** The `?:` merge of `saveSelection`'s arguments over the saved selection. */
  function Merge(saved: Selection, translation: Option<string>, book: Option<int>, chapter: Option<int>): Selection {
    Selection(translation.GetOr(saved.translation), book.GetOr(saved.book), chapter.GetOr(saved.chapter))
  }

  /** The keys `saveSelection` writes: those of the pane whose argument is non-null. */
  function WrittenKeys(k: PaneKeys, translation: Option<string>, book: Option<int>, chapter: Option<int>): set<string> {
    (if translation.Some? then {k.translation} else {})
    + (if book.Some? then {k.book} else {})
    + (if chapter.Some? then {k.chapter} else {})
  }

  /** The write step of `saveSelection`: the non-null arguments are merged
      over `saved` and passed through `checkSelection` (not part of this
      model, hence the `check` parameter); then only the keys of this pane
      whose argument was non-null are written, with the checked values. */
  function SaveOver(
    sel: Prefs, saved: Selection, check: Selection -> Selection,
    translation: Option<string>, book: Option<int>, chapter: Option<int>, isSplitScreen: bool): (r: Prefs)
    ensures UnchangedOutside(sel, r, WrittenKeys(Keys(isSplitScreen), translation, book, chapter))
    ensures TypedWrites(sel, r, Keys(isSplitScreen))
    ensures translation.None? ==> r.strings == sel.strings
    ensures book.None? && chapter.None? ==> r.ints == sel.ints
    ensures var checked := check(Merge(saved, translation, book, chapter));
            && (translation.Some? ==>
                  Keys(isSplitScreen).translation in r.strings && r.strings[Keys(isSplitScreen).translation] == checked.translation)
            && (book.Some? ==> Keys(isSplitScreen).book in r.ints && r.ints[Keys(isSplitScreen).book] == checked.book)
            && (chapter.Some? ==>
                  Keys(isSplitScreen).chapter in r.ints && r.ints[Keys(isSplitScreen).chapter] == checked.chapter)
  {
    var k := Keys(isSplitScreen);
    var checked := check(Merge(saved, translation, book, chapter));
    var strings := if translation.Some? then sel.strings[k.translation := checked.translation] else sel.strings;
    var withBook := if book.Some? then sel.ints[k.book := checked.book] else sel.ints;
    var ints := if chapter.Some? then withBook[k.chapter := checked.chapter] else withBook;
    Prefs(strings, ints, sel.bools)
  }

  /** `saveSelection` as written: the arguments are merged over what
      `getSelection` as written returns for the pane, so the missing book 42
      it keeps can reach `checkSelection`. */
  function SaveSelection(
    sel: Prefs, lib: S.Library, check: Selection -> Selection,
    translation: Option<string>, book: Option<int>, chapter: Option<int>, isSplitScreen: bool): (r: Prefs)
    ensures UnchangedOutside(sel, r, WrittenKeys(Keys(isSplitScreen), translation, book, chapter))
    ensures TypedWrites(sel, r, Keys(isSplitScreen))
    ensures translation.None? ==> r.strings == sel.strings
    ensures book.None? && chapter.None? ==> r.ints == sel.ints
    ensures var checked := check(Merge(GetSelectionAsWritten(sel, isSplitScreen, lib), translation, book, chapter));
            && (translation.Some? ==>
                  Keys(isSplitScreen).translation in r.strings && r.strings[Keys(isSplitScreen).translation] == checked.translation)
            && (book.Some? ==> Keys(isSplitScreen).book in r.ints && r.ints[Keys(isSplitScreen).book] == checked.book)
            && (chapter.Some? ==>
                  Keys(isSplitScreen).chapter in r.ints && r.ints[Keys(isSplitScreen).chapter] == checked.chapter)
  {
    SaveOver(sel, GetSelectionAsWritten(sel, isSplitScreen, lib), check, translation, book, chapter, isSplitScreen)
  }

  /** `saveSelection` merging over the corrected `getSelection`. It writes
      the same keys as the code as written, and the same values except when
      the pane still holds the default (42, 2) on a translation with exactly
      42 books and some argument is null. */
  function SaveSelectionCorrected(
    sel: Prefs, lib: S.Library, check: Selection -> Selection,
    translation: Option<string>, book: Option<int>, chapter: Option<int>, isSplitScreen: bool): (r: Prefs)
    ensures UnchangedOutside(sel, r, WrittenKeys(Keys(isSplitScreen), translation, book, chapter))
    ensures TypedWrites(sel, r, Keys(isSplitScreen))
    ensures Resets(Stored(sel, isSplitScreen), lib) == ResetsAsWritten(Stored(sel, isSplitScreen), lib)
            ==> r == SaveSelection(sel, lib, check, translation, book, chapter, isSplitScreen)
    ensures translation.Some? && book.Some? && chapter.Some?
            ==> r == SaveSelection(sel, lib, check, translation, book, chapter, isSplitScreen)
    ensures book.Some? ==> Keys(isSplitScreen).book in r.ints && r.ints[Keys(isSplitScreen).book]
                           == check(Merge(GetSelection(sel, isSplitScreen, lib), translation, book, chapter)).book
  {
    SaveOver(sel, GetSelection(sel, isSplitScreen, lib), check, translation, book, chapter, isSplitScreen)
  }

  /** Saving only a book while an empty store points at a 42-book
      translation: the code as written hands `checkSelection` the missing
      book's chapter 2, the corrected save hands it chapter 0, so a check
      that depends on the chapter stores different books. */
  lemma SaveSelectionMergesMissingBook()
    ensures var lib := map["schlachter" := S.Bible("schlachter", "", "", "", seq(42, _ => S.Book("", [])))];
            var check := (s: Selection) => if s.chapter == 2 then s.(book := 7) else s;
            && SaveSelection(NoPrefs, lib, check, None, Some(5), None, false).ints["book"] == 7
            && SaveSelectionCorrected(NoPrefs, lib, check, None, Some(5), None, false).ints["book"] == 5
  {
    var lib := map["schlachter" := S.Bible("schlachter", "", "", "", seq(42, _ => S.Book("", [])))];
    assert Stored(NoPrefs, false) == DefaultSelection;
    assert !ResetsAsWritten(DefaultSelection, lib);
    assert Resets(DefaultSelection, lib);
  }

  /** Saving a full selection that `checkSelection` accepts reads back in
      that pane (unless it is the default (42, 2) on a translation without a
      book 42), while the other pane reads exactly as before. */
  lemma {:induction false} SelectionRoundTrip(
    sel: Prefs, lib: S.Library, check: Selection -> Selection, s: Selection, isSplitScreen: bool)
    requires check(s) == s
    ensures var r := SaveSelection(sel, lib, check, Some(s.translation), Some(s.book), Some(s.chapter), isSplitScreen);
            && Stored(r, isSplitScreen) == s
            && (!Resets(s, lib) ==> GetSelection(r, isSplitScreen, lib) == s)
            && GetSelection(r, !isSplitScreen, lib) == GetSelection(sel, !isSplitScreen, lib)
  {
    var r := SaveSelection(sel, lib, check, Some(s.translation), Some(s.book), Some(s.chapter), isSplitScreen);
    var saved := GetSelectionAsWritten(sel, isSplitScreen, lib);
    assert Merge(saved, Some(s.translation), Some(s.book), Some(s.chapter)) == s;
    var k := Keys(isSplitScreen);
    assert k.translation in r.strings && r.strings[k.translation] == s.translation;
    assert Stored(r, isSplitScreen) == s;
    var o := Keys(!isSplitScreen);
    assert o.translation !in k.All() && o.book !in k.All() && o.chapter !in k.All();
    PaneIsolation(r, sel, !isSplitScreen, lib);
  }
}
