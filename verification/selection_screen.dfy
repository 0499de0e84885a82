/** The selection screen: the translation lists with their update and delete
    buttons, and the book and chapter pickers of one reading pane. */
module SelectionScreen {
  import opened Wrappers
  import S = Serialization
  import P = SharedPrefs
  import G = Getters
  import M = MainLogic
  import H = HomeScreen
  import L = Layout

  // --------------------------------------------------------- translation list

  /** One line of a translation list: a language header, or a translation
      with the update and delete buttons it shows. */
  datatype Row =
    | Header(lang: string)
    | Entry(abbrev: string, update: bool, delete: bool)

  /** The filter of one list part: installed translations in the installed
      part, the others in the other part. */
  predicate Shown(names: seq<string>, abbrev: string, showInstalled: bool) {
    (showInstalled && abbrev in names) || (!showInstalled && abbrev !in names)
  }

  /** A translation's row: installed ones get a delete button, and an update
      button too when the update list names them. */
  function EntryFor(t: S.Translation, names: seq<string>, updates: seq<string>): Row {
    var installed := t.abbreviation in names;
    Entry(t.abbreviation, installed && t.abbreviation in updates, installed)
  }

  /** The translations of one language group that a part shows, in order. */
  function Entries(ts: seq<S.Translation>, names: seq<string>, updates: seq<string>, showInstalled: bool): (r: seq<Row>)
    ensures forall k :: 0 <= k < |r| ==> r[k].Entry? && Shown(names, r[k].abbrev, showInstalled)
    ensures forall k :: 0 <= k < |r| ==> r[k] == EntryFor(S.Translation(r[k].abbrev, "", "", "", "", "", ""), names, updates)
  {
    if |ts| == 0 then []
    else
      (if Shown(names, ts[0].abbreviation, showInstalled) then [EntryFor(ts[0], names, updates)] else [])
      + Entries(ts[1..], names, updates, showInstalled)
  }

  /** Some translation of the group is installed. */
  predicate AnyInstalled(ts: seq<S.Translation>, names: seq<string>) {
    exists k :: 0 <= k < |ts| && ts[k].abbreviation in names
  }

  /** One language group: its header and its shown translations; the
      installed part skips groups with nothing installed. */
  function GroupRows(lang: string, ts: seq<S.Translation>, names: seq<string>, updates: seq<string>, showInstalled: bool): (r: seq<Row>)
    ensures (|r| > 0 && r[0] == Header(lang)) <==> (!showInstalled || AnyInstalled(ts, names))
    ensures forall k :: 0 < k < |r| ==> r[k].Entry? && Shown(names, r[k].abbrev, showInstalled)
    ensures forall k :: 0 < k < |r| ==> r[k] == EntryFor(S.Translation(r[k].abbrev, "", "", "", "", "", ""), names, updates)
  {
    if (showInstalled && AnyInstalled(ts, names)) || !showInstalled then
      [Header(lang)] + Entries(ts, names, updates, showInstalled)
    else []
  }

  /** `ListTranslationsPart`: with the index, the groups in index order;
      without it, every installed translation with a delete button only. */
  function ListTranslationsPart(
    names: seq<string>, translations: Option<seq<(string, seq<S.Translation>)>>,
    updates: seq<string>, showInstalled: bool): (r: seq<Row>)
    ensures translations.None? ==> |r| == |names| && forall k :: 0 <= k < |r| ==> r[k] == Entry(names[k], false, true)
    ensures forall k :: 0 <= k < |r| && r[k].Entry? ==> (r[k].delete <==> r[k].abbrev in names)
    ensures forall k :: 0 <= k < |r| && r[k].Entry? && r[k].update ==> r[k].abbrev in names && r[k].abbrev in updates
    ensures translations.Some? ==> forall k :: 0 <= k < |r| && r[k].Entry? ==> Shown(names, r[k].abbrev, showInstalled)
    decreases if translations.Some? then |translations.value| else 0
  {
    match translations
    case None => seq(|names|, k requires 0 <= k < |names| => Entry(names[k], false, true))
    case Some(groups) =>
      if |groups| == 0 then []
      else
        var rows := GroupRows(groups[0].0, groups[0].1, names, updates, showInstalled);
        rows + ListTranslationsPart(names, Some(groups[1..]), updates, showInstalled)
  }

  /** The abbreviations of the rows that are translations, in order. */
  function EntryAbbrevs(rows: seq<Row>): seq<string> {
    if |rows| == 0 then []
    else (if rows[0].Entry? then [rows[0].abbrev] else []) + EntryAbbrevs(rows[1..])
  }

  function Abbrevs(ts: seq<S.Translation>): seq<string> {
    if |ts| == 0 then [] else [ts[0].abbreviation] + Abbrevs(ts[1..])
  }

  /** Every abbreviation the index lists, group after group. */
  function AllAbbrevs(groups: seq<(string, seq<S.Translation>)>): seq<string> {
    if |groups| == 0 then [] else Abbrevs(groups[0].1) + AllAbbrevs(groups[1..])
  }

  lemma {:induction false} EntryAbbrevsAppend(a: seq<Row>, b: seq<Row>)
    ensures EntryAbbrevs(a + b) == EntryAbbrevs(a) + EntryAbbrevs(b)
    decreases |a|
  {
    if |a| > 0 {
      assert (a + b)[0] == a[0] && (a + b)[1..] == a[1..] + b;
      EntryAbbrevsAppend(a[1..], b);
      var head := if a[0].Entry? then [a[0].abbrev] else [];
      assert EntryAbbrevs(a + b) == head + EntryAbbrevs(a[1..] + b);
      assert EntryAbbrevs(a) == head + EntryAbbrevs(a[1..]);
    } else {
      assert a + b == b;
    }
  }

  /** Within one group the installed part and the other part between them
      show each translation exactly once. */
  lemma {:induction false} GroupPartition(ts: seq<S.Translation>, names: seq<string>, updates: seq<string>)
    ensures multiset(EntryAbbrevs(Entries(ts, names, updates, true))) + multiset(EntryAbbrevs(Entries(ts, names, updates, false)))
         == multiset(Abbrevs(ts))
  {
    if |ts| > 0 {
      var first := if ts[0].abbreviation in names then true else false;
      var one := [EntryFor(ts[0], names, updates)];
      var inst := Entries(ts[1..], names, updates, true);
      var other := Entries(ts[1..], names, updates, false);
      GroupPartition(ts[1..], names, updates);
      if first {
        EntryAbbrevsAppend(one, inst);
        assert Entries(ts, names, updates, false) == other;
      } else {
        EntryAbbrevsAppend(one, other);
        assert Entries(ts, names, updates, true) == inst;
      }
      assert EntryAbbrevs(one) == [ts[0].abbreviation];
    }
  }

  /** A header is not an entry, so a group's rows name the same translations
      as its shown entries. */
  lemma GroupRowsEntries(lang: string, ts: seq<S.Translation>, names: seq<string>, updates: seq<string>, showInstalled: bool)
    ensures EntryAbbrevs(GroupRows(lang, ts, names, updates, showInstalled)) == EntryAbbrevs(Entries(ts, names, updates, showInstalled))
  {
    if showInstalled && !AnyInstalled(ts, names) {
      NothingInstalledNoEntries(ts, names, updates);
    } else {
      EntryAbbrevsAppend([Header(lang)], Entries(ts, names, updates, showInstalled));
    }
  }

  lemma {:induction false} NothingInstalledNoEntries(ts: seq<S.Translation>, names: seq<string>, updates: seq<string>)
    requires !AnyInstalled(ts, names)
    ensures Entries(ts, names, updates, true) == []
  {
    if |ts| > 0 {
      assert !AnyInstalled(ts[1..], names) by {
        forall k | 0 <= k < |ts[1..]|
          ensures ts[1..][k].abbreviation !in names
        {
          assert ts[1..][k] == ts[k + 1];
        }
      }
      NothingInstalledNoEntries(ts[1..], names, updates);
    }
  }

  /** With the index loaded, the two parts of the list between them show
      every translation of the index exactly once: the installed ones above
      the divider, the rest below. */
  lemma {:induction false} ListPartition(names: seq<string>, groups: seq<(string, seq<S.Translation>)>, updates: seq<string>)
    ensures multiset(EntryAbbrevs(ListTranslationsPart(names, Some(groups), updates, true)))
          + multiset(EntryAbbrevs(ListTranslationsPart(names, Some(groups), updates, false)))
         == multiset(AllAbbrevs(groups))
    decreases |groups|
  {
    if |groups| > 0 {
      var (lang, ts) := groups[0];
      var gi := GroupRows(lang, ts, names, updates, true);
      var go := GroupRows(lang, ts, names, updates, false);
      var ri := ListTranslationsPart(names, Some(groups[1..]), updates, true);
      var ro := ListTranslationsPart(names, Some(groups[1..]), updates, false);
      EntryAbbrevsAppend(gi, ri);
      EntryAbbrevsAppend(go, ro);
      GroupRowsEntries(lang, ts, names, updates, true);
      GroupRowsEntries(lang, ts, names, updates, false);
      GroupPartition(ts, names, updates);
      ListPartition(names, groups[1..], updates);
    }
  }

  // ------------------------------------------------------------- delete guard

  /** The delete button of the list: the translation's file is removed only
      while more than one translation is installed; its checksum record is
      left for the next clean-up. */
  function DeleteListed(d: M.Device, abbrev: string): (r: M.Device)
    ensures |d.installed| > 1 ==> r.installed == d.installed - {abbrev}
    ensures |d.installed| <= 1 ==> r == d
    ensures r.records == d.records && r.index == d.index && r.queued == d.queued
    ensures d.installed != {} ==> r.installed != {}
  {
    if |d.installed| > 1 then
      var rest := d.installed - {abbrev};
      assert |rest| >= |d.installed| - 1 by {
        if abbrev in d.installed {
          assert d.installed == rest + {abbrev};
        } else {
          assert rest == d.installed;
        }
      }
      d.(installed := rest)
    else d
  }

  /** However many deletes are tapped, in whatever order, some translation
      stays installed. */
  lemma {:induction false} DeletesKeepOne(d: M.Device, taps: seq<string>)
    requires d.installed != {}
    ensures DeleteAll(d, taps).installed != {}
    decreases |taps|
  {
    if |taps| > 0 {
      DeletesKeepOne(DeleteListed(d, taps[0]), taps[1..]);
    }
  }

  function DeleteAll(d: M.Device, taps: seq<string>): M.Device
    decreases |taps|
  {
    if |taps| == 0 then d else DeleteAll(DeleteListed(d, taps[0]), taps[1..])
  }

  // ------------------------------------------------------ book/chapter picker

  /** The picker's state: the pane's place and the segmented button shown. */
  datatype Picker = Picker(translation: string, book: int, chapter: int, selectedIndex: int, mode: P.SelectMode)

  /** The book grid: three to a row, unused slots filled with spacers; for a
      loaded translation the buttons select exactly its books. */
  method BookGrid(lib: S.Library, t: string) returns (rows: seq<seq<L.Cell>>)
    ensures t in lib ==> forall b :: b in L.Buttons(L.Flatten(rows)) <==> G.IsBook(lib[t], b)
    ensures t !in lib ==> L.Buttons(L.Flatten(rows)) == [0]
    ensures forall r :: 0 <= r < |rows| ==> |rows[r]| == H.BooksPerRow
  {
    var names := G.GetBookNames(lib, t);
    rows := L.Grid(|names| - 1, H.BooksPerRow, true);
  }

  /** Tapping book `b` in the grid: the same chapter rule as the reading
      screen's dialog, then the Chapter tab (index 2) opens and the place is
      saved for this pane, through `checkSelection`, leaving every other key
      as it was. */
  function PickBook(
    picker: Picker, lib: S.Library, prefs: P.Prefs, check: P.Selection -> P.Selection,
    isSplitScreen: bool, b: int): (r: (Picker, P.Prefs))
    requires picker.translation in lib ==> G.IsBook(lib[picker.translation], b)
    requires picker.translation !in lib ==> b == 0
    ensures r.0.mode == P.SelectMode.Chapter && r.0.selectedIndex == 2 && P.SelectModeEntries[r.0.selectedIndex] == r.0.mode
    ensures r.0.translation == picker.translation && r.0.book == b
    ensures r.0.chapter == picker.chapter || r.0.chapter == 0
    ensures picker.translation !in lib ==> r.0.chapter == (if picker.chapter > 0 then 0 else picker.chapter)
    ensures picker.translation in lib ==>
              (r.0.chapter == picker.chapter <==> picker.chapter < |lib[picker.translation].books[b].chapters| || picker.chapter == 0)
    ensures P.Stored(r.1, isSplitScreen) == check(P.Selection(r.0.translation, r.0.book, r.0.chapter))
    ensures P.UnchangedOutside(prefs, r.1, P.Keys(isSplitScreen).All())
    ensures P.TypedWrites(prefs, r.1, P.Keys(isSplitScreen))
  {
    var s := H.PickBook(lib, P.Selection(picker.translation, picker.book, picker.chapter), b);
    (Picker(s.translation, s.book, s.chapter, 2, P.SelectMode.Chapter), SavePlace(prefs, lib, check, s, isSplitScreen))
  }

  /** Tapping chapter `c` in the grid saves the place for this pane (the
      screen then returns to reading). */
  function PickChapter(
    picker: Picker, lib: S.Library, prefs: P.Prefs, check: P.Selection -> P.Selection,
    isSplitScreen: bool, c: int): (r: (Picker, P.Prefs))
    ensures r.0 == picker.(chapter := c)
    ensures P.Stored(r.1, isSplitScreen) == check(P.Selection(picker.translation, picker.book, c))
    ensures P.UnchangedOutside(prefs, r.1, P.Keys(isSplitScreen).All())
    ensures P.TypedWrites(prefs, r.1, P.Keys(isSplitScreen))
  {
    var s := P.Selection(picker.translation, picker.book, c);
    (picker.(chapter := c), SavePlace(prefs, lib, check, s, isSplitScreen))
  }

  /** `saveSelection` with all three arguments given. */
  function SavePlace(prefs: P.Prefs, lib: S.Library, check: P.Selection -> P.Selection, s: P.Selection, isSplitScreen: bool): (r: P.Prefs)
    ensures P.Stored(r, isSplitScreen) == check(s)
    ensures P.UnchangedOutside(prefs, r, P.Keys(isSplitScreen).All())
    ensures P.TypedWrites(prefs, r, P.Keys(isSplitScreen))
  {
    var saved := P.GetSelectionAsWritten(prefs, isSplitScreen, lib);
    assert P.Merge(saved, Some(s.translation), Some(s.book), Some(s.chapter)) == s;
    P.SaveSelection(prefs, lib, check, Some(s.translation), Some(s.book), Some(s.chapter), isSplitScreen)
  }
}
