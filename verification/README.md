# OpenBible core in Dafny

A model of the logic of OpenBible, an Android Bible reader that downloads
translations as JSON files from the getBible API. Each file holds one
translation's Book, Chapter and Verse tree. The model covers these parts:

- **Serialization**: the records a translation file decodes into, the
  "decode or null" loaders, and the apocrypha filter over the translation index.
- **SharedPrefs**: the two preference files, `options` and `selection`, as
  key/value maps. This includes the option enums and their string decoders,
  the five boolean options, split screen and text alignment, and the
  per-pane (translation, book, chapter) selection store.
- **Getters**: the read-only queries over the cached files. These are the
  checksum lookup, book and chapter counts, book names, the rendered
  chapter text, the theme switches, the word split of the app's name, and
  the first-launch test.
- **MainLogic**: checksum reconciliation between installed translations and
  their checksum records (`cleanUpTranslations`, `checkUpdate`,
  `checkForUpdates`, `downloadTranslation`). Also the one-day refresh rule
  for the index files, the fallback to another installed translation
  (`checkTranslation`), and `shorten`.
- **Layout**: the button grids (`for (i in 0..num step perRow)`) shared by
  the book and chapter pickers.
- **HomeScreen**: the reading screen's picker dialog, covering the
  translation switch, the book grid with its seven-character labels, and
  the chapter grid.
- **SelectionScreen**: the translation list, split into an installed part
  and an available part, with its update and delete buttons. Also one
  pane's book and chapter pickers.
- **StartScreen**: the onboarding state machine, states 0 to 4 and then the
  reading screen, and the bounded loop that waits for a downloaded file.
- **Text** and **Wrappers**: Kotlin's `trim()`, padding, `Int.toString()`
  and joining; `Option` and the `Checked` outcome.

The app's external storage is a value. `Library` maps each translation
whose file is present and decodes to its `Bible`. `Device` holds the
installed translations, the checksum records, the parsed checksum index and
the downloads still in flight.

Kotlin's `IndexOutOfBoundsException` is the explicit outcome
`IndexOutOfBounds` of the `Checked` type. It is never a precondition, except in the two `PickBook` members, whose book comes from the grid (see Left out).
Every composite follows the code as written. Where the code is evidently wrong, each corrected version stands beside its as-written counterpart with the intended property proved (see Findings).

## Model

| member | source | states |
|---|---|---|
| Serialization.Deserialize | app/src/main/kotlin/com/schwegelbin/openbible/logic/Serialization.kt:45-75 | each of the three loaders yields absent when the file is missing or the decoder raises `SerializationException`, and otherwise exactly the decoded value |
| Serialization.TranslationPathInjective | app/src/main/kotlin/com/schwegelbin/openbible/logic/Getters.kt:30-31 | different translations are read from different files `Translations/<abbrev>.json` |
| Serialization.LibraryOfUnique | app/src/main/kotlin/com/schwegelbin/openbible/logic/Serialization.kt:45-54 | the loaded translations are determined by the files: two libraries that both match `deserializeBible` on every translation's path are equal |
| Serialization.DeleteTranslationFile | app/src/main/kotlin/com/schwegelbin/openbible/logic/Serialization.kt:45-46 | deleting a translation's file removes exactly that translation from what `deserializeBible` loads, and leaves every other translation as it was |
| Serialization.RemoveApocrypha | app/src/main/kotlin/com/schwegelbin/openbible/logic/Serialization.kt:77-80 | a null index stays null; otherwise the keys are exactly the input keys minus `kjva` and `statenvertalinga`, each with its value unchanged |
| Serialization.RemoveApocryphaIdempotent | app/src/main/kotlin/com/schwegelbin/openbible/logic/Serialization.kt:77-80 | filtering twice equals filtering once |
| SharedPrefs.DecodeTheme | app/src/main/kotlin/com/schwegelbin/openbible/logic/SharedPrefs.kt:43-49 | a theme name decodes to the option with that name; any other string falls back to `System` |
| SharedPrefs.DecodeScheme | app/src/main/kotlin/com/schwegelbin/openbible/logic/SharedPrefs.kt:51-55 | a scheme name decodes to its option; any other string falls back to `Static` |
| SharedPrefs.DecodeSplitScreen | app/src/main/kotlin/com/schwegelbin/openbible/logic/SharedPrefs.kt:174-179 | `Off`, `Vertical` and `Horizontal` decode by name; anything else is `Off` |
| SharedPrefs.DecodeAlignment | app/src/main/kotlin/com/schwegelbin/openbible/logic/SharedPrefs.kt:203-207 | `Start` and `Justify` decode by name; anything else is `Start` |
| SharedPrefs.DecodeNames | app/src/main/kotlin/com/schwegelbin/openbible/logic/SharedPrefs.kt:10-24 | every enum constant's `toString()` decodes back to that constant |
| SharedPrefs.GetColorScheme | app/src/main/kotlin/com/schwegelbin/openbible/logic/SharedPrefs.kt:38-58 | an unset theme reads `System` and an unset scheme `Dynamic`; a stored name reads as its option; an unknown theme reads `System`, an unknown scheme `Static` |
| SharedPrefs.SaveColorScheme | app/src/main/kotlin/com/schwegelbin/openbible/logic/SharedPrefs.kt:74-83 | only the keys `theme` and `scheme` may change; a given option is stored under its name; a null argument leaves its key as it was |
| SharedPrefs.ColorSchemeRoundTrip | app/src/main/kotlin/com/schwegelbin/openbible/logic/SharedPrefs.kt:38-58 | after saving, `getColorScheme` returns each saved option and the previous value for each unsaved one |
| SharedPrefs.GetColorSchemeInt | app/src/main/kotlin/com/schwegelbin/openbible/logic/SharedPrefs.kt:60-72 | the result indexes the declaration-order entries at the decoded theme (0..3) or scheme (0..1) |
| SharedPrefs.GetOption | app/src/main/kotlin/com/schwegelbin/openbible/logic/SharedPrefs.kt:26-29 | an unset boolean option reads its default, a stored one its stored value |
| SharedPrefs.SaveOption | app/src/main/kotlin/com/schwegelbin/openbible/logic/SharedPrefs.kt:31-35 | exactly one boolean key is written with the value; strings, ints and the other boolean keys are untouched |
| SharedPrefs.OptionRoundTrip | app/src/main/kotlin/com/schwegelbin/openbible/logic/SharedPrefs.kt:86-107 | a saved option reads back as saved, and saving it leaves every other option's reading unchanged |
| SharedPrefs.UnsavedDefaults | app/src/main/kotlin/com/schwegelbin/openbible/logic/SharedPrefs.kt:240-248 | with nothing saved: checkAtStartup true, notifyDownload false, infiniteScroll true, showVerseNumbers true, verseOfTheDay false |
| SharedPrefs.GetSplitScreen | app/src/main/kotlin/com/schwegelbin/openbible/logic/SharedPrefs.kt:170-182 | unset (the default string `Start`) and unknown strings read `Off`; a mode name reads as that mode |
| SharedPrefs.SaveSplitScreen | app/src/main/kotlin/com/schwegelbin/openbible/logic/SharedPrefs.kt:192-196 | only the key `split` changes, and it holds the mode's name |
| SharedPrefs.GetSplitScreenInt | app/src/main/kotlin/com/schwegelbin/openbible/logic/SharedPrefs.kt:184-190 | the result indexes the declaration-order entries (0..2) at the decoded mode |
| SharedPrefs.GetTextAlignment | app/src/main/kotlin/com/schwegelbin/openbible/logic/SharedPrefs.kt:199-210 | unset or unknown reads `Start`; an alignment name reads as that alignment |
| SharedPrefs.SaveTextAlignment | app/src/main/kotlin/com/schwegelbin/openbible/logic/SharedPrefs.kt:219-223 | only the key `textAlignment` changes, and it holds the alignment's name |
| SharedPrefs.GetTextAlignmentInt | app/src/main/kotlin/com/schwegelbin/openbible/logic/SharedPrefs.kt:212-217 | the result indexes the declaration-order entries (0..1) at the decoded alignment |
| SharedPrefs.SplitAndAlignmentRoundTrip | app/src/main/kotlin/com/schwegelbin/openbible/logic/SharedPrefs.kt:170-223 | split mode and alignment each read back as saved, and saving one does not change the other |
| SharedPrefs.Keys | app/src/main/kotlin/com/schwegelbin/openbible/logic/SharedPrefs.kt:115-123 | a pane's three keys are distinct, so writing one never overwrites another |
| SharedPrefs.PaneKeysDisjoint | app/src/main/kotlin/com/schwegelbin/openbible/logic/SharedPrefs.kt:115-123 | the primary pane's plain keys and the split pane's `_split` keys are disjoint |
| SharedPrefs.Stored | app/src/main/kotlin/com/schwegelbin/openbible/logic/SharedPrefs.kt:110-123 | each of the pane's keys that is set reads as its stored value, and each that is unset as the default `("schlachter", 42, 2)` |
| SharedPrefs.GetSelectionAsWritten | app/src/main/kotlin/com/schwegelbin/openbible/logic/SharedPrefs.kt:110-133 | the stored selection, reset to (0, 0) only when it is exactly (42, 2) and the translation loads with fewer than 42 books |
| SharedPrefs.GetSelectionAsWrittenKeepsMissingBook | app/src/main/kotlin/com/schwegelbin/openbible/logic/SharedPrefs.kt:126 | with a 42-book translation and nothing stored, the code as written returns book 42, one past the last book |
| SharedPrefs.GetSelection | app/src/main/kotlin/com/schwegelbin/openbible/logic/SharedPrefs.kt:110-133 | corrected bound: (42, 2) is reset to (0, 0) exactly when the translation loads and has no book 42; any other stored selection comes back unchanged; so (42, 2) is never returned for a loaded translation without a book 42 |
| SharedPrefs.PaneIsolation | app/src/main/kotlin/com/schwegelbin/openbible/logic/SharedPrefs.kt:115-123 | a pane's selection depends only on that pane's three keys |
| SharedPrefs.SaveSelection | app/src/main/kotlin/com/schwegelbin/openbible/logic/SharedPrefs.kt:135-155 | as written: the non-null arguments are merged over what `getSelection` as written returns and passed through `checkSelection`; only this pane's keys for non-null arguments change, each to the checked value and only in its own type (the translation a string, book and chapter ints) |
| SharedPrefs.SaveSelectionCorrected | app/src/main/kotlin/com/schwegelbin/openbible/logic/SharedPrefs.kt:135-155 | merging over the corrected `getSelection`: the same keys change, and the values agree with the code as written whenever the two getters agree or all three arguments are given; a saved book is the checked book of the corrected merge |
| SharedPrefs.SaveSelectionMergesMissingBook | app/src/main/kotlin/com/schwegelbin/openbible/logic/SharedPrefs.kt:142 | with an empty store on a 42-book translation, saving only book 5 hands `checkSelection` the missing book's chapter 2 as written, so a chapter-dependent check stores book 7 where the corrected save stores 5 |
| SharedPrefs.SelectionRoundTrip | app/src/main/kotlin/com/schwegelbin/openbible/logic/SharedPrefs.kt:110-155 | a full selection that `checkSelection` accepts is what the pane's keys hold afterwards, and `getSelection` returns it unless it is the reset default; the other pane reads as before |
| Getters.GetChecksum | app/src/main/kotlin/com/schwegelbin/openbible/logic/Getters.kt:17-23 | `unknown` when the checksum index does not load; otherwise the entry's text, or `null` when the index has no entry |
| Getters.GetCount | app/src/main/kotlin/com/schwegelbin/openbible/logic/Getters.kt:25-35 | (0, 0) when the translation does not load; throws exactly when the book does not exist; otherwise `0..first` are exactly the books and `0..second` exactly the book's chapters, the second being -1 for a book without chapters |
| Getters.GetBookNames | app/src/main/kotlin/com/schwegelbin/openbible/logic/Getters.kt:37-48 | `["ERROR"]` when the translation does not load; otherwise one name per book, in order |
| Getters.GetChapter | app/src/main/kotlin/com/schwegelbin/openbible/logic/Getters.kt:50-71 | the error pair when the translation does not load; otherwise a result iff the chapter exists and, with numbers shown, has a verse (without one the final `substring` throws); the heading is `<translation> | <chapter name>`; the text is the numbered lines joined by newlines, or the verse texts run together |
| Getters.NumberedText | app/src/main/kotlin/com/schwegelbin/openbible/logic/Getters.kt:65-66 | the loop gives each numbered line followed by a newline, and is empty exactly when there are no verses |
| Getters.PlainText | app/src/main/kotlin/com/schwegelbin/openbible/logic/Getters.kt:65-67 | the loop without numbers gives the verse texts run together |
| Getters.TerminatedIsJoined | app/src/main/kotlin/com/schwegelbin/openbible/logic/Getters.kt:69 | dropping the last newline of the terminated lines gives the lines joined by newlines |
| Getters.GetMainThemeOptions | app/src/main/kotlin/com/schwegelbin/openbible/logic/Getters.kt:148-173 | explicit arguments override stored ones; dark is null iff System and false iff Light; amoled iff Amoled, and amoled implies dark; dynamic colour iff Dynamic |
| Getters.SplitBeforeUpper | app/src/main/kotlin/com/schwegelbin/openbible/logic/Getters.kt:177 | the parts concatenate back to the name; the first has no uppercase letter; every later part is one capitalised word |
| Getters.NonEmptyOfSplit | app/src/main/kotlin/com/schwegelbin/openbible/logic/Getters.kt:177 | the empty-part filter drops at most the first part, and only when it is empty |
| Getters.AppNameSegmentation | app/src/main/kotlin/com/schwegelbin/openbible/logic/Getters.kt:176-177 | the app name's words are non-empty and concatenate back to the name; every word after the first starts with an uppercase letter and has no other |
| Getters.GetFirstLaunch | app/src/main/kotlin/com/schwegelbin/openbible/logic/Getters.kt:197-202 | false exactly when the translations directory exists and lists at least one file |
| MainLogic.Shorten | app/src/main/kotlin/com/schwegelbin/openbible/logic/Main.kt:217-221 | unchanged when `max < 2` or the string fits; otherwise at most `max` characters ending in `.` after the trimmed first `max - 1` characters |
| MainLogic.ShortenIdempotent | app/src/main/kotlin/com/schwegelbin/openbible/logic/Main.kt:217-221 | shortening twice equals shortening once, and the result fits in `max` when `max >= 2` |
| MainLogic.DownloadTranslation | app/src/main/kotlin/com/schwegelbin/openbible/logic/Main.kt:56-66 | the old file is gone (the download replaces it) and the download is queued; the record holds the index checksum; other records, files and queued downloads are untouched |
| MainLogic.DownloadSettlesUpdate | app/src/main/kotlin/com/schwegelbin/openbible/logic/Main.kt:56-78 | `checkUpdate` holds while the download is in flight and fails once it has landed, with the index unchanged |
| MainLogic.CheckUpdate | app/src/main/kotlin/com/schwegelbin/openbible/logic/Main.kt:68-78 | a missing file or record always needs fetching; otherwise, without a checksum index only a record other than `unknown` does, and with one the record must equal the index entry (or `null` when the index lacks it) |
| MainLogic.CleanUp | app/src/main/kotlin/com/schwegelbin/openbible/logic/Main.kt:187-198 | records equal installed names; existing records of installed translations are kept; new records hold `unknown` |
| MainLogic.CleanUpIdempotent | app/src/main/kotlin/com/schwegelbin/openbible/logic/Main.kt:187-198 | cleaning up twice equals cleaning up once |
| MainLogic.DeleteOrphanRecords | app/src/main/kotlin/com/schwegelbin/openbible/logic/Main.kt:190-192 | the first loop keeps exactly the records of installed translations, with their contents |
| MainLogic.AddMissingRecords | app/src/main/kotlin/com/schwegelbin/openbible/logic/Main.kt:193-197 | the second loop adds `unknown` for exactly the installed translations that had no record |
| MainLogic.CleanUpTranslations | app/src/main/kotlin/com/schwegelbin/openbible/logic/Main.kt:187-198 | the two loops over the directory listings end in the reconciled state |
| MainLogic.Stale | app/src/main/kotlin/com/schwegelbin/openbible/logic/Main.kt:68-78 | exactly the recorded translations that `checkUpdate` flags |
| MainLogic.CheckForUpdates | app/src/main/kotlin/com/schwegelbin/openbible/logic/Main.kt:175-185 | true iff some record after clean-up is flagged by `checkUpdate`; without `update` no download starts; with it exactly the flagged ones are downloaded |
| MainLogic.UpdatedDeviceIsCurrent | app/src/main/kotlin/com/schwegelbin/openbible/logic/Main.kt:175-185 | once the downloads an update check starts have landed, a second check finds nothing and files and records agree |
| MainLogic.DeleteTranslation | app/src/main/kotlin/com/schwegelbin/openbible/ui/screens/Settings.kt:316-317 | deleting removes the file and the record together, so files and records stay in step |
| MainLogic.FirstLaunchIffNothingInstalled | app/src/main/kotlin/com/schwegelbin/openbible/logic/Getters.kt:197-202 | over a listing of the translations directory, `getFirstLaunch` is true exactly when no translation is installed |
| MainLogic.IndexKeptForOneDay | app/src/main/kotlin/com/schwegelbin/openbible/logic/Main.kt:158-173 | index files written at `t` are not fetched again up to `t + 86 400 000` ms and are fetched again after it |
| MainLogic.IndexNeedsRefresh | app/src/main/kotlin/com/schwegelbin/openbible/logic/Main.kt:164-169 | a missing index file always triggers fetching; with both present, fetching happens exactly when the older of the two is more than a day old |
| MainLogic.IndexRefreshMonotone | app/src/main/kotlin/com/schwegelbin/openbible/logic/Main.kt:164-169 | once the index is due for refetching it stays due as time passes |
| MainLogic.CheckTranslation | app/src/main/kotlin/com/schwegelbin/openbible/logic/Main.kt:200-215 | an existing translation is kept with the store untouched; otherwise the first installed one is returned and only this pane's translation key changes, to the `checkSelection` result of merging it over `getSelection` as written; with none installed the start screen is requested and `abbrev` kept |
| Layout.Grid | app/src/main/kotlin/com/schwegelbin/openbible/ui/screens/Home.kt:219-225 | the buttons select each index `0..num` exactly once, in order, one row per step of `0..num step perRow`; rows are full with spacers, buttons only without |
| Layout.GridRow | app/src/main/kotlin/com/schwegelbin/openbible/ui/screens/Home.kt:224-225 | one row holds buttons for the indices from its start up to `num` (at most `perRow`), then spacers if requested |
| HomeScreen.SwitchTranslationAsWritten | app/src/main/kotlin/com/schwegelbin/openbible/ui/screens/Home.kt:184-191 | as written, a loaded translation gives a result iff the old book exists in it; the result is the new translation with the old book, and the chapter reset to 0 exactly when it exceeds that book's last chapter, so the book reset can never take effect; an unloaded translation resets a positive book |
| HomeScreen.SwitchToShorterTranslationThrows | app/src/main/kotlin/com/schwegelbin/openbible/ui/screens/Home.kt:184 | switching from Matthew to a 27-book translation throws |
| HomeScreen.SwitchTranslation | app/src/main/kotlin/com/schwegelbin/openbible/ui/screens/Home.kt:184-191 | corrected: never throws for a non-negative selection on a translation with books; a book the new translation has is kept and its chapter reset to 0 exactly when past that book's last chapter; a missing book goes to book 0, chapter 0; the result is always a valid book, and a valid chapter when the book has chapters |
| HomeScreen.SwitchTranslationRecovers | app/src/main/kotlin/com/schwegelbin/openbible/ui/screens/Home.kt:184-191 | where the written switch throws, the corrected one lands on book 0, chapter 0 |
| HomeScreen.BookLabel | app/src/main/kotlin/com/schwegelbin/openbible/ui/screens/Home.kt:226-229 | every label is exactly 7 characters; a name of at most 7 is a prefix followed only by spaces |
| HomeScreen.BookLabelIsShortened | app/src/main/kotlin/com/schwegelbin/openbible/ui/screens/Home.kt:226-229 | the label is `shorten(name, 7)` padded to 7; a longer name keeps its trimmed 6-character head then `.` |
| HomeScreen.BookGrid | app/src/main/kotlin/com/schwegelbin/openbible/ui/screens/Home.kt:210-243 | three to a row without spacers; the buttons select exactly the loaded translation's books, labelled from their names; `ERROR` is book 0 when not loaded |
| HomeScreen.PickBook | app/src/main/kotlin/com/schwegelbin/openbible/ui/screens/Home.kt:230-237 | the book becomes the tapped one; the chapter is kept iff it exists in that book (or is 0), else reset to 0; when the translation does not load, a positive chapter is reset to 0 |
| HomeScreen.ChapterLabel | app/src/main/kotlin/com/schwegelbin/openbible/ui/screens/Home.kt:267 | a chapter label is a non-empty run of digits without a leading zero |
| HomeScreen.ChapterLabelNumbersFromOne | app/src/main/kotlin/com/schwegelbin/openbible/ui/screens/Home.kt:267-271 | a chapter button's label reads as its 0-based index plus one, and distinct chapters have distinct labels |
| HomeScreen.ChapterGrid | app/src/main/kotlin/com/schwegelbin/openbible/ui/screens/Home.kt:253-275 | throws exactly when the book does not exist; otherwise the buttons select exactly its chapters, or chapter 0 when not loaded |
| SelectionScreen.GroupRows | app/src/main/kotlin/com/schwegelbin/openbible/ui/screens/Selection.kt:338-352 | a header appears iff the part is not the installed one or some translation of the group is installed; every entry passes the part's filter |
| SelectionScreen.ListTranslationsPart | app/src/main/kotlin/com/schwegelbin/openbible/ui/screens/Selection.kt:329-404 | without an index every installed name is listed with delete only; delete iff installed; update only if installed and in the update list; entries pass the part's filter |
| SelectionScreen.GroupPartition | app/src/main/kotlin/com/schwegelbin/openbible/ui/screens/Selection.kt:350-351 | within a group, the installed part and the other part together list each translation exactly once |
| SelectionScreen.ListPartition | app/src/main/kotlin/com/schwegelbin/openbible/ui/screens/Selection.kt:318-327 | with the index loaded, the two parts together list every translation of the index exactly once |
| SelectionScreen.DeleteListed | app/src/main/kotlin/com/schwegelbin/openbible/ui/screens/Selection.kt:370-373 | the file is removed only while more than one translation is installed; the checksum record stays; a non-empty installed set stays non-empty |
| SelectionScreen.DeletesKeepOne | app/src/main/kotlin/com/schwegelbin/openbible/ui/screens/Selection.kt:395-398 | any sequence of delete taps leaves some translation installed |
| SelectionScreen.BookGrid | app/src/main/kotlin/com/schwegelbin/openbible/ui/screens/Selection.kt:224-275 | three to a row, every row filled with spacers; the buttons select exactly the loaded translation's books |
| SelectionScreen.PickBook | app/src/main/kotlin/com/schwegelbin/openbible/ui/screens/Selection.kt:243-259 | chapter kept iff it exists in the new book (or is 0), else 0; a positive chapter is reset to 0 when the translation does not load; the Chapter tab (index 2) opens; the pane stores the `checkSelection` result; nothing outside the pane's keys changes |
| SelectionScreen.PickChapter | app/src/main/kotlin/com/schwegelbin/openbible/ui/screens/Selection.kt:297-306 | the chapter becomes the tapped one and the pane stores the `checkSelection` result; nothing outside the pane's keys changes |
| StartScreen.Settle | app/src/main/kotlin/com/schwegelbin/openbible/ui/screens/Start.kt:58-59 | only state 0 changes, to state 4, and exactly when check-at-startup is on and both index files exist |
| StartScreen.Composed | app/src/main/kotlin/com/schwegelbin/openbible/ui/screens/Start.kt:86-97 | the index download starts exactly when state 1 is shown |
| StartScreen.Step | app/src/main/kotlin/com/schwegelbin/openbible/ui/screens/Start.kt:54-137 | each event's successor: Download in state 0 goes to 1, RestoreFinished to reading; Loaded in state 1 goes to reading when a translation is installed, else to 2; choosing in 2 goes to 3; Loaded in 3 goes to reading; Continue in 4 goes to 3 and Skip to reading; every successor is reached only this way; updates are checked only on Continue, and a translation is downloaded and saved only on choosing it |
| StartScreen.NeverBackToNeedsFiles | app/src/main/kotlin/com/schwegelbin/openbible/ui/screens/Start.kt:54-137 | no run of events returns to state 0 once it has been left |
| StartScreen.ReadIsFinal | app/src/main/kotlin/com/schwegelbin/openbible/ui/screens/Start.kt:54-137 | once on the reading screen, no event leads back |
| StartScreen.FirstLaunchReachesRead | app/src/main/kotlin/com/schwegelbin/openbible/ui/screens/Start.kt:75-114 | a first launch goes Download, index loaded, translation chosen, translation loaded, and ends reading |
| StartScreen.ChosenTranslationInBothPanes | app/src/main/kotlin/com/schwegelbin/openbible/ui/screens/Start.kt:190-194 | choosing a translation stores for each pane the `checkSelection` result of that translation merged over the pane's saved place, and state 3 waits for the primary pane's file; when `checkSelection` keeps the translation it is given, both panes hold the chosen one |
| StartScreen.Poll | app/src/main/kotlin/com/schwegelbin/openbible/ui/screens/Start.kt:160-170 | `onLoaded` is called at most once, and iff some poll before the limit finds the file; the first such poll ends the loop; at most `limit` polls |
| StartScreen.WaitForFileAsWritten | app/src/main/kotlin/com/schwegelbin/openbible/ui/screens/Start.kt:154-171 | as written: `onLoaded` runs iff the file is readable within `maxSeconds * updateInterval` polls; a missing file is waited for that many pauses, `maxSeconds * updateInterval²` ms |
| StartScreen.DefaultWaitIsTenfold | app/src/main/kotlin/com/schwegelbin/openbible/ui/screens/Start.kt:157-163 | with the defaults (20 s, 100 ms) a missing file is waited for 200 000 ms as written, ten times the 20 s asked for, and exactly 20 s with the corrected limit |
| StartScreen.WaitForFile | app/src/main/kotlin/com/schwegelbin/openbible/ui/screens/Start.kt:154-171 | corrected limit `maxSeconds * 1000 / updateInterval`: `onLoaded` runs iff the file is readable within that many polls; a missing file is waited for that many pauses, never more than `maxSeconds` seconds and less than one interval short of it |
| StartScreen.PollLimitFits | app/src/main/kotlin/com/schwegelbin/openbible/ui/screens/Start.kt:162-163 | the corrected number of polls times the interval fits in `maxSeconds * 1000` ms and comes within one interval of it |
| Text.Trim | app/src/main/kotlin/com/schwegelbin/openbible/logic/Main.kt:219 | `trim()`: the result is a slice of the input, everything cut off at either end is whitespace, and the result neither starts nor ends with whitespace |
| Text.PadEnd | app/src/main/kotlin/com/schwegelbin/openbible/ui/screens/Home.kt:229 | `while (length < n) += " "`: length is the larger of the two, the input is a prefix, the rest is spaces |
| Text.IntToString | app/src/main/kotlin/com/schwegelbin/openbible/logic/Getters.kt:66 | `Int.toString()`: a leading minus exactly for negatives, followed by decimal digits that read back as the number's magnitude |
| Text.ParseNatToString | app/src/main/kotlin/com/schwegelbin/openbible/ui/screens/Home.kt:267 | the decimal rendering of a number reads back as that number |

## Left out

- Android I/O is abstracted. File reads and writes, `getExternalFilesDir`, directory listings and the `DownloadManager` appear only through the values `Library`, `Files` and `Device`. `CompleteDownload` stands for the download manager finishing.
- The JSON decoder itself is left out. Every loader takes it as the `decode` parameter, which yields a value or `SerializationException`.
- `checkSelection` is not part of this model. It is the `check` parameter of every selection save.
- `getList`, `getTranslationList`, `getUpdateList`, `getTranslation`, `getTranslationPath` and `getTranslations` become parameters or views of `Device`. These are listings, the update list and file handles.
- `getLanguageName` is not modelled, so a header holds the language code only.
- An entry's `"$abbrev | $name"` text is not modelled. Rows carry the abbreviation and the presence of the update and delete buttons.
- Backup and restore (zip and unzip, app/src/main/kotlin/com/schwegelbin/openbible/logic/Main.kt:223-272) is not modelled. The start screen's restore button is the `RestoreFinished` event.
- `saveIndex` and `saveChecksum` only enqueue downloads. Only the condition under which `saveNewIndex` calls them is modelled. The clock (`System.currentTimeMillis`) is the `now` parameter.
- Font size (`getFontSize`/`saveFontSize`) is left out because it is floating point.
- The Compose UI is left out: layout modifiers, colours, dialogs, navigation and the screens other than start, home and selection. The colouring half of `getAppName` is left out too; only its word split is modelled.
- The custom-file import, `setTranslation` and the translation select of the selection screen are left out. So is the reading view, apart from `getChapter`.
- Coroutines and `delay` are left out. `LaunchedEffect` is modelled as a plain loop, each poll preceded by its pause. `StartScreen.Poll` counts the polls, and the wait is their summed pause. Whether the file is readable at poll `k` is the `readable` parameter.
- `StartScreen.Step`'s `Loaded` event abstracts the waiting loop's `onLoaded` callback and the `deserialize` check behind it.
- Kotlin `Int`/`Long` widths are not modelled. Integers are unbounded, and no value in the modelled operations comes near 2^31.
- The copies of the enums, `saveSelection`, `saveColorScheme` and other savers in app/src/main/kotlin/com/schwegelbin/openbible/logic/Main.kt:18-37 and 97-156 are left out. So are `getColorScheme`, `getTextAlignment`, `getSelection` and related functions in app/src/main/kotlin/com/schwegelbin/openbible/logic/Getters.kt:73-146. Those copies duplicate app/src/main/kotlin/com/schwegelbin/openbible/logic/SharedPrefs.kt, which is modelled. The same goes for the older tree under `app/src/main/java`.
- The handlers in app/src/main/kotlin/com/schwegelbin/openbible/ui/screens/Home.kt:192, 237 and 271 call `saveSelection(context, translation, book, chapter)` without `isSplitScreen`, which has no default. That call matches no declared signature, so the home screen's handlers return the new selection without writing the store.
- HomeScreen.PickBook: requires that the tapped book comes from the grid (a book of the loaded translation, or 0 when it does not load), because the grid offers no other button.
- SelectionScreen.PickBook: requires the same of the tapped book, for the same reason.
- SelectionScreen.DeleteListed: counts installed translations in `Device.installed` rather than re-listing the directory. It does not model the file handle `getTranslation`.
- StartScreen.WaitForFile: requires `updateInterval > 0`, because the corrected limit divides by it. The as-written loop has no such requirement.
- Text lengths count Unicode scalar values, while Kotlin's `String.length` counts UTF-16 code units. The two agree on the Basic Multilingual Plane, so `shorten` and the book labels differ only for names with characters outside it.
- An `IOException` from `readText` after `exists()` succeeded is not modelled. A file that exists is assumed readable, and only `SerializationException` leads to null.
- `getExternalFilesDir` is abstracted to the fixed prefix `Translations/`, so a translation's file is `Translations/<abbrev>.json`.
- MainLogic.CheckForUpdates: walks the checksum records in an arbitrary order rather than the directory listing's order. The result does not depend on the order.

## Findings

| source | as written | input that shows it | evidently intended | confidence | as-written member | corrected member |
|---|---|---|---|---|---|---|
| app/src/main/kotlin/com/schwegelbin/openbible/logic/SharedPrefs.kt:126 | the default selection (42, 2) is reset only when `book > bible.books.size` | a translation with exactly 42 books and nothing saved: book 42 is kept, one past the last book index 41 | reset when book 42 does not exist, `book >= bible.books.size` | high, not executed | SharedPrefs.GetSelectionAsWritten (SharedPrefs.GetSelectionAsWrittenKeepsMissingBook), SharedPrefs.SaveSelection (SharedPrefs.SaveSelectionMergesMissingBook) | SharedPrefs.GetSelection, SharedPrefs.SaveSelectionCorrected |
| app/src/main/kotlin/com/schwegelbin/openbible/ui/screens/Home.kt:184-188 | switching translation calls `getCount(context, translation, book)` with the old book before the clamp `if (book > bookCount)`, and `getCount` indexes `bible.books[book]` | reading Matthew (book 39) and switching to a translation holding only the 27 New Testament books throws `IndexOutOfBoundsException` | clamp the book against the new translation's book count first, then read its chapter count | high, not executed | HomeScreen.SwitchTranslationAsWritten (HomeScreen.SwitchToShorterTranslationThrows) | HomeScreen.SwitchTranslation (HomeScreen.SwitchTranslationRecovers) |
| app/src/main/kotlin/com/schwegelbin/openbible/ui/screens/Start.kt:162-163 | the loop allows `maxSeconds * updateInterval` polls, each after `delay(updateInterval)` ms | the defaults `maxSeconds = 20`, `updateInterval = 100` give 2000 polls, 200 s for a file that never appears | `maxSeconds * 1000 / updateInterval` polls, at most `maxSeconds` seconds | medium, not executed | StartScreen.WaitForFileAsWritten (StartScreen.DefaultWaitIsTenfold) | StartScreen.WaitForFile |
