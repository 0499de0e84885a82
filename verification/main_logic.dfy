/** Checksum reconciliation between the cached translations and the
    checksum index, the 24-hour index refresh rule, the fallback to another
    installed translation, and `shorten`. The app's external storage is a
    value: the installed translation files, the checksum records, the parsed
    checksum index and the downloads still in flight. */
module MainLogic {
  import opened Wrappers
  import opened Text
  import S = Serialization
  import P = SharedPrefs
  import G = Getters

  // ---------------------------------------------------------------- shorten

  /** `shorten`: a string longer than `max` (for `max >= 2`) becomes its first
      `max - 1` characters, trimmed, plus a full stop; anything else is kept. */
  function Shorten(str: string, max: int): (r: string)
    ensures max < 2 || |str| <= max ==> r == str
    ensures max >= 2 && |str| > max ==> 0 < |r| <= max && r[|r| - 1] == '.' && r[..|r| - 1] == Trim(str[..max - 1])
  {
    if max >= 2 && |str| > max then Trim(str[..max - 1]) + "." else str
  }

  /** Whatever `shorten` returns already fits, so shortening again changes nothing. */
  lemma ShortenIdempotent(str: string, max: int)
    ensures Shorten(Shorten(str, max), max) == Shorten(str, max)
    ensures max >= 2 ==> |Shorten(str, max)| <= max
  {
  }

  // ----------------------------------------------------------- device state

  /** The app's external storage, as far as reconciliation sees it. */
  datatype Device = Device(
    installed: set<string>,        // abbreviations with a file in Translations/
    records: map<string, string>,  // Checksums/<abbrev> and its contents
    index: Option<S.JsonObject>,   // Index/checksum.json as `deserialize` returns it
    queued: set<string>)           // translation downloads enqueued and not yet finished

  /** Every installed translation has a checksum record and every record an
      installed translation: what `cleanUpTranslations` establishes. */
  predicate Reconciled(d: Device) {
    d.records.Keys == d.installed
  }

  /** `checkUpdate`: a translation needs fetching when its file or its
      checksum record is missing, or when the index's checksum differs from
      the recorded one. */
  function CheckUpdate(d: Device, abbrev: string): (r: bool)
    ensures abbrev !in d.installed || abbrev !in d.records ==> r
    ensures abbrev in d.installed && abbrev in d.records && d.index.None? ==> (r <==> d.records[abbrev] != "unknown")
    ensures abbrev in d.installed && abbrev in d.records && d.index.Some? && abbrev in d.index.value
            ==> (r <==> d.index.value[abbrev] != d.records[abbrev])
    ensures abbrev in d.installed && abbrev in d.records && d.index.Some? && abbrev !in d.index.value
            ==> (r <==> d.records[abbrev] != "null")
  {
    abbrev !in d.installed || abbrev !in d.records || G.GetChecksum(d.index, abbrev) != d.records[abbrev]
  }

  /** `downloadTranslation`: the old file is deleted at once (`downloadFile`
      replaces), the download is enqueued, and the index's current checksum
      is recorded for it. Nothing else changes. */
  function DownloadTranslation(d: Device, abbrev: string): (r: Device)
    ensures r.installed == d.installed - {abbrev} && r.index == d.index
    ensures abbrev in r.queued && r.queued - {abbrev} == d.queued - {abbrev}
    ensures abbrev in r.records && r.records[abbrev] == G.GetChecksum(d.index, abbrev)
    ensures r.records - {abbrev} == d.records - {abbrev}
  {
    Device(d.installed - {abbrev}, d.records[abbrev := G.GetChecksum(d.index, abbrev)], d.index, d.queued + {abbrev})
  }

  /** The platform's download manager finishing a queued download. */
  function CompleteDownload(d: Device, abbrev: string): (r: Device)
    requires abbrev in d.queued
    ensures abbrev in r.installed && abbrev !in r.queued
    ensures r.records == d.records && r.index == d.index
  {
    d.(installed := d.installed + {abbrev}, queued := d.queued - {abbrev})
  }

  /** While a download is in flight its translation counts as needing an
      update; once it has landed, and as long as the index is unchanged, it
      no longer does. */
  lemma DownloadSettlesUpdate(d: Device, abbrev: string)
    ensures CheckUpdate(DownloadTranslation(d, abbrev), abbrev)
    ensures !CheckUpdate(CompleteDownload(DownloadTranslation(d, abbrev), abbrev), abbrev)
  {
  }

  // ------------------------------------------------------------- clean up

  /** The effect of `cleanUpTranslations`, stated over sets: records of
      translations that are gone are deleted, installed translations without
      a record get `"unknown"`, and existing records are kept. */
  function CleanUp(d: Device): (r: Device)
    ensures Reconciled(r)
    ensures r.installed == d.installed && r.index == d.index && r.queued == d.queued
    ensures forall n :: n in d.installed && n in d.records ==> r.records[n] == d.records[n]
    ensures forall n :: n in d.installed && n !in d.records ==> r.records[n] == "unknown"
  {
    d.(records := map n | n in d.installed :: if n in d.records then d.records[n] else "unknown")
  }

  /** Cleaning up a second time changes nothing. */
  lemma CleanUpIdempotent(d: Device)
    ensures CleanUp(CleanUp(d)) == CleanUp(d)
  {
    var once := CleanUp(d);
    var twice := CleanUp(once);
    assert twice.records == once.records;
  }

  /** The first loop of `cleanUpTranslations`: delete every listed record
      whose translation is not installed. */
  method DeleteOrphanRecords(records: map<string, string>, checksums: seq<string>, translations: seq<string>)
    returns (kept: map<string, string>)
    requires forall n :: n in checksums <==> n in records
    ensures forall n :: n in kept <==> n in records && n in translations
    ensures forall n :: n in kept ==> kept[n] == records[n]
  {
    kept := records;
    var i := 0;
    while i < |checksums|
      invariant 0 <= i <= |checksums|
      invariant forall n :: n in kept <==> n in records && (n in translations || n !in checksums[..i])
      invariant forall n :: n in kept ==> kept[n] == records[n]
    {
      var sum := checksums[i];
      if sum !in translations {
        kept := kept - {sum};
      }
      assert checksums[..i + 1] == checksums[..i] + [sum];
      i := i + 1;
    }
    assert checksums[..i] == checksums;
  }

  /** The second loop: write `"unknown"` for every listed translation that
      had no record when the clean-up started. */
  method AddMissingRecords(kept: map<string, string>, checksums: seq<string>, translations: seq<string>)
    returns (records: map<string, string>)
    requires forall n :: n in kept <==> n in checksums && n in translations
    ensures forall n :: n in records <==> n in kept || n in translations
    ensures forall n :: n in records ==> records[n] == if n in kept then kept[n] else "unknown"
  {
    records := kept;
    var j := 0;
    while j < |translations|
      invariant 0 <= j <= |translations|
      invariant forall n :: n in records <==> n in kept || n in translations[..j]
      invariant forall n :: n in records ==> records[n] == if n in kept then kept[n] else "unknown"
    {
      var abbrev := translations[j];
      if abbrev !in checksums {
        records := records[abbrev := "unknown"];
      }
      assert translations[..j + 1] == translations[..j] + [abbrev];
      j := j + 1;
    }
    assert translations[..j] == translations;
  }

  /** `cleanUpTranslations` as the source runs it, over the two directory
      listings: it ends in the state `CleanUp` describes. */
  method CleanUpTranslations(d: Device, checksums: seq<string>, translations: seq<string>) returns (r: Device)
    requires forall n :: n in checksums <==> n in d.records
    requires forall n :: n in translations <==> n in d.installed
    ensures r == CleanUp(d)
  {
    var kept := DeleteOrphanRecords(d.records, checksums, translations);
    var records := AddMissingRecords(kept, checksums, translations);
    r := d.(records := records);
    assert r.records == CleanUp(d).records;
  }

  // ------------------------------------------------------ check for updates

  /** The recorded translations that need fetching. */
  function Stale(d: Device): (names: set<string>)
    ensures forall n :: n in names <==> n in d.records && CheckUpdate(d, n)
  {
    set n | n in d.records && CheckUpdate(d, n)
  }

  /** The state after `downloadTranslation` for each of `names`. */
  function DownloadAll(d: Device, names: set<string>): Device {
    Device(d.installed - names, d.records + map n | n in names :: G.GetChecksum(d.index, n), d.index, d.queued + names)
  }

  lemma DownloadAllStep(d: Device, names: set<string>, abbrev: string)
    ensures DownloadTranslation(DownloadAll(d, names), abbrev) == DownloadAll(d, names + {abbrev})
  {
    var lhs := DownloadTranslation(DownloadAll(d, names), abbrev);
    var rhs := DownloadAll(d, names + {abbrev});
    assert lhs.records == rhs.records;
  }

  /** `checkForUpdates`: clean up, then walk the checksum records; every
      record that `checkUpdate` flags makes the result true and, with
      `update`, is downloaded again. Without `update` nothing is downloaded. */
  method CheckForUpdates(d: Device, update: bool) returns (available: bool, r: Device)
    ensures available <==> exists n :: n in CleanUp(d).records && CheckUpdate(CleanUp(d), n)
    ensures !update ==> r == CleanUp(d)
    ensures update ==> r == DownloadAll(CleanUp(d), Stale(CleanUp(d)))
  {
    var c := CleanUp(d);
    available := false;
    r := c;
    var remaining := c.records.Keys;
    while remaining != {}
      invariant remaining <= c.records.Keys
      invariant available <==> exists n :: n in c.records && n !in remaining && CheckUpdate(c, n)
      invariant !update ==> r == c
      invariant update ==> r == DownloadAll(c, Stale(c) - remaining)
      decreases remaining
    {
      var abbrev :| abbrev in remaining;
      assert CheckUpdate(r, abbrev) == CheckUpdate(c, abbrev) by {
        if update {
          assert abbrev !in Stale(c) - remaining;
        }
      }
      if CheckUpdate(r, abbrev) {
        if update {
          DownloadAllStep(c, Stale(c) - remaining, abbrev);
          assert (Stale(c) - remaining) + {abbrev} == Stale(c) - (remaining - {abbrev});
          r := DownloadTranslation(r, abbrev);
        }
        available := true;
      } else if update {
        assert Stale(c) - remaining == Stale(c) - (remaining - {abbrev});
      }
      remaining := remaining - {abbrev};
    }
    assert Stale(c) - remaining == Stale(c);
  }

  /** The platform finishing every queued download in `names`. */
  function CompleteAll(d: Device, names: set<string>): (r: Device)
    requires names <= d.queued
    ensures r.installed == d.installed + names && r.queued == d.queued - names
    ensures r.records == d.records && r.index == d.index
  {
    d.(installed := d.installed + names, queued := d.queued - names)
  }

  /** Once the downloads `checkForUpdates(update = true)` starts have all
      landed, and as long as the index is unchanged, a second check finds
      nothing to update. */
  lemma UpdatedDeviceIsCurrent(d: Device)
    ensures var c := CleanUp(d);
            var after := DownloadAll(c, Stale(c));
            Stale(c) <= after.queued
            && Stale(CompleteAll(after, Stale(c))) == {}
            && Reconciled(CompleteAll(after, Stale(c)))
  {
    var c := CleanUp(d);
    var after := DownloadAll(c, Stale(c));
    var done := CompleteAll(after, Stale(c));
    assert done.records.Keys == c.records.Keys;
    forall n | n in done.records
      ensures !CheckUpdate(done, n)
    {
      if n !in Stale(c) {
        assert done.records[n] == c.records[n];
      }
    }
  }

  /** Deleting a translation in the settings screen removes its file and its
      checksum record together, which keeps the two in step. */
  function DeleteTranslation(d: Device, abbrev: string): (r: Device)
    ensures abbrev !in r.installed && abbrev !in r.records
    ensures r.installed == d.installed - {abbrev} && r.records == d.records - {abbrev}
    ensures Reconciled(d) ==> Reconciled(r)
  {
    d.(installed := d.installed - {abbrev}, records := d.records - {abbrev})
  }

  /** `getFirstLaunch` over a listing of the translations directory: it is
      a first launch exactly when no translation is installed. */
  lemma FirstLaunchIffNothingInstalled(d: Device, listing: seq<string>)
    requires forall n :: n in listing <==> n in d.installed
    ensures G.GetFirstLaunch(true, Some(listing)) <==> d.installed == {}
  {
    if |listing| > 0 {
      assert listing[0] in d.installed;
    }
  }

  // ------------------------------------------------------------ index age

  const DayMillis: int := 86_400_000

  function Min(a: int, b: int): int {
    if a <= b then a else b
  }

  /** `saveNewIndex`'s condition: both index files are fetched again when
      either is missing or either was last modified more than a day before
      `now` (times in milliseconds, files given by their modification time);
      that is, when the older of the two is more than a day old. */
  function IndexNeedsRefresh(now: int, translationsModified: Option<int>, checksumModified: Option<int>): (r: bool)
    ensures translationsModified.None? || checksumModified.None? ==> r
    ensures translationsModified.Some? && checksumModified.Some? ==>
              (r <==> now - Min(translationsModified.value, checksumModified.value) > DayMillis)
  {
    || translationsModified.None?
    || checksumModified.None?
    || now - translationsModified.value > DayMillis
    || now - checksumModified.value > DayMillis
  }

  /** Freshly written index files are kept for exactly one day: not fetched
      again up to `written + DayMillis`, fetched again any time after it. */
  lemma IndexKeptForOneDay(written: int, now: int)
    ensures !IndexNeedsRefresh(now, Some(written), Some(written)) <==> now <= written + DayMillis
  {
  }

  /** Once the index is due it stays due as time passes, and a missing file
      always makes it due. */
  lemma IndexRefreshMonotone(now: int, later: int, translationsModified: Option<int>, checksumModified: Option<int>)
    requires now <= later
    requires IndexNeedsRefresh(now, translationsModified, checksumModified)
    ensures IndexNeedsRefresh(later, translationsModified, checksumModified)
  {
  }

  // ---------------------------------------------------- check translation

  /** `checkTranslation`: keep `abbrev` when its file exists; otherwise
      fall back to the first installed translation and save it as this pane's
      translation; with nothing installed, ask to go to the start screen and
      keep `abbrev`. The result is (translation, selection store, go to start). */
  function CheckTranslation(
    installed: seq<string>, sel: P.Prefs, lib: S.Library, check: P.Selection -> P.Selection,
    abbrev: string, isSplitScreen: bool): (r: (string, P.Prefs, bool))
    ensures abbrev in installed ==> r == (abbrev, sel, false)
    ensures abbrev !in installed && |installed| == 0 ==> r == (abbrev, sel, true)
    ensures abbrev !in installed && |installed| > 0 ==>
              var key := P.Keys(isSplitScreen).translation;
              && r.0 == installed[0] && !r.2
              && P.UnchangedOutside(sel, r.1, {key})
              && r.1.ints == sel.ints
              && key in r.1.strings
              && r.1.strings[key]
                 == check(P.Merge(P.GetSelectionAsWritten(sel, isSplitScreen, lib), Some(installed[0]), None, None)).translation
  {
    if abbrev !in installed then
      if |installed| > 0 then
        var newTranslation := installed[0];
        (newTranslation, P.SaveSelection(sel, lib, check, Some(newTranslation), None, None, isSplitScreen), false)
      else (abbrev, sel, true)
    else (abbrev, sel, false)
  }
}
