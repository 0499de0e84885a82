/** The onboarding screen: five numbered states leading to the reading
    screen, and the bounded loop that waits for a file to become readable. */
module StartScreen {
  import opened Wrappers
  import S = Serialization
  import P = SharedPrefs
  import G = Getters

  // ------------------------------------------------------------ state machine

  datatype State =
    | NeedsFiles              // 0: offers to download the index or restore a backup
    | DownloadingIndex        // 1: fetches the index and waits for it
    | ChooseTranslation       // 2: lists translations to download
    | DownloadingTranslation  // 3: waits for the selected translation's file
    | NewFiles                // 4: offers to check for updates or skip
    | Read                    // left the screen for the reading screen

  /** What the screen can observe when it is composed. */
  datatype Env = Env(
    checkAtStartup: bool,
    translationsIndex: bool,          // Index/translations.json exists
    checksumIndex: bool,              // Index/checksum.json exists
    translationsDir: bool,            // the Translations directory is available
    translationFiles: Option<seq<string>>)  // its listing

  /** The user's taps and the waiting loop's outcome. */
  datatype Event =
    | Download
    | RestoreFinished
    | Loaded              // the file the current state waits for became readable
    | Choose(abbrev: string)
    | Continue
    | Skip

  /** What a step asks the rest of the app to do, in order. */
  datatype Effect =
    | SaveNewIndex
    | DownloadTranslation(abbrev: string)
    | SaveTranslation(abbrev: string, isSplitScreen: bool)
    | CheckForUpdates(update: bool)

  /** Composing the screen in state 0 skips straight to state 4 when the
      user checks at startup and both index files are already there. */
  function Settle(s: State, env: Env): (r: State)
    ensures r != s ==> s == NeedsFiles && r == NewFiles
    ensures s == NeedsFiles ==> (r == NewFiles <==> env.checkAtStartup && env.translationsIndex && env.checksumIndex)
  {
    if s == NeedsFiles && env.checkAtStartup && env.translationsIndex && env.checksumIndex then NewFiles else s
  }

  /** Composing state 1 starts the index download. */
  function Composed(s: State, env: Env): (r: seq<Effect>)
    ensures r != [] <==> Settle(s, env) == DownloadingIndex
  {
    if Settle(s, env) == DownloadingIndex then [SaveNewIndex] else []
  }

  /** One event on the settled screen. The conditions each successor state
      is reached under are spelled out in the postconditions. */
  function Step(s: State, env: Env, e: Event): (r: (State, seq<Effect>))
    ensures var t := Settle(s, env);
            && (r.0 == DownloadingIndex ==> t == DownloadingIndex || (t == NeedsFiles && e == Download))
            && (r.0 == ChooseTranslation ==>
                  t == ChooseTranslation
                  || (t == DownloadingIndex && e == Loaded && G.GetFirstLaunch(env.translationsDir, env.translationFiles)))
            && (r.0 == DownloadingTranslation ==>
                  t == DownloadingTranslation || (t == ChooseTranslation && e.Choose?) || (t == NewFiles && e == Continue))
            && (r.0 == NewFiles ==> t == NewFiles)
            && (r.0 == NeedsFiles ==> t == NeedsFiles && s == NeedsFiles)
    ensures r.0 != Settle(s, env) ==> r.0 != NeedsFiles
    ensures r.0 == Read ==>
              || Settle(s, env) == Read
              || (Settle(s, env) == NeedsFiles && e == RestoreFinished)
              || (Settle(s, env) == DownloadingIndex && e == Loaded && !G.GetFirstLaunch(env.translationsDir, env.translationFiles))
              || (Settle(s, env) == DownloadingTranslation && e == Loaded)
              || (Settle(s, env) == NewFiles && e == Skip)
    ensures Settle(s, env) == NeedsFiles && e == Download ==> r.0 == DownloadingIndex
    ensures Settle(s, env) == NeedsFiles && e == RestoreFinished ==> r.0 == Read
    ensures Settle(s, env) == DownloadingIndex && e == Loaded ==>
              r.0 == (if G.GetFirstLaunch(env.translationsDir, env.translationFiles) then ChooseTranslation else Read)
    ensures Settle(s, env) == ChooseTranslation && e.Choose? ==> r.0 == DownloadingTranslation
    ensures Settle(s, env) == DownloadingTranslation && e == Loaded ==> r.0 == Read
    ensures Settle(s, env) == NewFiles && e == Continue ==> r.0 == DownloadingTranslation
    ensures Settle(s, env) == NewFiles && e == Skip ==> r.0 == Read
    ensures r.0 == Settle(s, env) ==> r.1 == []
    ensures (CheckForUpdates(true) in r.1) <==> Settle(s, env) == NewFiles && e == Continue
    ensures CheckForUpdates(false) !in r.1
    ensures forall a :: DownloadTranslation(a) in r.1 <==> Settle(s, env) == ChooseTranslation && e == Choose(a)
    ensures forall a, split :: SaveTranslation(a, split) in r.1 <==> Settle(s, env) == ChooseTranslation && e == Choose(a)
  {
    var t := Settle(s, env);
    match (t, e)
    case (NeedsFiles, Download) => (DownloadingIndex, [])
    case (NeedsFiles, RestoreFinished) => (Read, [])
    case (DownloadingIndex, Loaded) =>
      (if !G.GetFirstLaunch(env.translationsDir, env.translationFiles) then Read else ChooseTranslation, [])
    case (ChooseTranslation, Choose(a)) =>
      (DownloadingTranslation, [DownloadTranslation(a), SaveTranslation(a, false), SaveTranslation(a, true)])
    case (DownloadingTranslation, Loaded) => (Read, [])
    case (NewFiles, Continue) => (DownloadingTranslation, [CheckForUpdates(true)])
    case (NewFiles, Skip) => (Read, [])
    case _ => (t, [])
  }

  /** The state a run of events ends in. */
  function Run(s: State, env: Env, events: seq<Event>): State
    decreases |events|
  {
    if |events| == 0 then s else Run(Step(s, env, events[0]).0, env, events[1..])
  }

  /** Once the screen has left state 0 it never returns to it. */
  lemma {:induction false} NeverBackToNeedsFiles(s: State, env: Env, events: seq<Event>)
    requires s != NeedsFiles
    ensures Run(s, env, events) != NeedsFiles
    decreases |events|
  {
    if |events| > 0 {
      NeverBackToNeedsFiles(Step(s, env, events[0]).0, env, events[1..]);
    }
  }

  /** The reading screen is final: nothing leads back into onboarding. */
  lemma {:induction false} ReadIsFinal(env: Env, events: seq<Event>)
    ensures Run(Read, env, events) == Read
    decreases |events|
  {
    if |events| > 0 {
      ReadIsFinal(env, events[1..]);
    }
  }

  /** A first launch without index files: Download, the index arrives, a
      translation is chosen and arrives, and the reading screen opens. */
  lemma FirstLaunchReachesRead(env: Env, abbrev: string)
    requires !(env.checkAtStartup && env.translationsIndex && env.checksumIndex)
    requires G.GetFirstLaunch(env.translationsDir, env.translationFiles)
    ensures Run(NeedsFiles, env, [Download, Loaded, Choose(abbrev), Loaded]) == Read
  {
    var events := [Download, Loaded, Choose(abbrev), Loaded];
    assert events[1..] == [Loaded, Choose(abbrev), Loaded];
    assert events[1..][1..] == [Choose(abbrev), Loaded];
    assert events[1..][1..][1..] == [Loaded];
    assert Run(DownloadingTranslation, env, [Loaded]) == Read;
    assert Run(ChooseTranslation, env, [Choose(abbrev), Loaded]) == Read;
    assert Run(DownloadingIndex, env, [Loaded, Choose(abbrev), Loaded]) == Read;
  }

  /** The preference writes among `effects`, applied in order. */
  function ApplySaves(prefs: P.Prefs, lib: S.Library, check: P.Selection -> P.Selection, effects: seq<Effect>): P.Prefs
    decreases |effects|
  {
    if |effects| == 0 then prefs
    else
      var next := match effects[0]
        case SaveTranslation(a, split) => P.SaveSelection(prefs, lib, check, Some(a), None, None, split)
        case _ => prefs;
      ApplySaves(next, lib, check, effects[1..])
  }

  /** The translation file state 3 waits for: the primary pane's. */
  function AwaitedTranslation(prefs: P.Prefs, lib: S.Library): string {
    P.GetSelectionAsWritten(prefs, false, lib).translation
  }

  /** Choosing a translation in state 2 stores, for each pane, what
      `checkSelection` makes of that translation merged over the pane's saved
      place; state 3 then waits for the primary pane's file. When
      `checkSelection` keeps the translation it is given, both panes hold
      the chosen translation and state 3 waits for exactly its file. */
  lemma ChosenTranslationInBothPanes(
    prefs: P.Prefs, lib: S.Library, check: P.Selection -> P.Selection, env: Env, abbrev: string)
    ensures var r := Step(ChooseTranslation, env, Choose(abbrev));
            var saved := ApplySaves(prefs, lib, check, r.1);
            && r.0 == DownloadingTranslation
            && P.Stored(saved, false).translation
               == check(P.Merge(P.GetSelectionAsWritten(prefs, false, lib), Some(abbrev), None, None)).translation
            && P.Stored(saved, true).translation
               == check(P.Merge(P.GetSelectionAsWritten(prefs, true, lib), Some(abbrev), None, None)).translation
            && AwaitedTranslation(saved, lib) == P.Stored(saved, false).translation
            && ((forall s :: check(s).translation == s.translation) ==>
                  P.Stored(saved, false).translation == abbrev && P.Stored(saved, true).translation == abbrev)
  {
    var r := Step(ChooseTranslation, env, Choose(abbrev));
    var effects := r.1;
    assert effects == [DownloadTranslation(abbrev), SaveTranslation(abbrev, false), SaveTranslation(abbrev, true)];
    var primary := P.SaveSelection(prefs, lib, check, Some(abbrev), None, None, false);
    var both := P.SaveSelection(primary, lib, check, Some(abbrev), None, None, true);
    assert effects[1..] == [SaveTranslation(abbrev, false), SaveTranslation(abbrev, true)];
    assert effects[1..][1..] == [SaveTranslation(abbrev, true)];
    assert ApplySaves(both, lib, check, []) == both;
    assert ApplySaves(primary, lib, check, [SaveTranslation(abbrev, true)]) == both;
    assert ApplySaves(prefs, lib, check, effects[1..]) == both;
    assert ApplySaves(prefs, lib, check, effects) == both;
    var kp := P.Keys(false);
    var ks := P.Keys(true);
    assert P.Stored(primary, true) == P.Stored(prefs, true);
    assert P.GetSelectionAsWritten(primary, true, lib) == P.GetSelectionAsWritten(prefs, true, lib);
    assert kp.translation !in P.WrittenKeys(ks, Some(abbrev), None, None);
    assert both.strings[kp.translation] == primary.strings[kp.translation];
  }

  // -------------------------------------------------------------- wait loop

  /** The polling loop: poll `k` (from 0) asks whether the file is readable;
      the first readable answer calls `onLoaded` and stops; otherwise the
      loop gives up after `bound` polls. */
  method Poll(bound: int, readable: nat -> bool) returns (polls: nat, calls: nat)
    ensures calls <= 1
    ensures polls <= (if bound < 0 then 0 else bound)
    ensures calls == 1 <==> exists k :: 0 <= k < bound && readable(k)
    ensures calls == 1 ==> polls > 0 && readable(polls - 1) && forall k :: 0 <= k < polls - 1 ==> !readable(k)
    ensures calls == 0 ==> polls == (if bound < 0 then 0 else bound)
  {
    var counter: nat := 0;
    polls, calls := 0, 0;
    var done := false;
    while !done && counter < bound
      invariant bound >= 0 ==> counter <= bound
      invariant bound < 0 ==> counter == 0
      invariant done <==> calls == 1
      invariant calls <= 1 && polls == counter + calls
      invariant forall k :: 0 <= k < counter ==> !readable(k)
      invariant done ==> counter < bound && readable(counter)
      decreases 2 * (bound - counter) + (if done then 0 else 1)
    {
      polls := polls + 1;
      if readable(counter) {
        calls := 1;
        done := true;
      } else {
        counter := counter + 1;
      }
    }
  }

  /** How long a file that never appears is waited for: every one of the
      `limit` polls is preceded by a pause of `updateInterval` milliseconds. */
  function MissingFileWait(limit: int, updateInterval: int): int {
    (if limit < 0 then 0 else limit) * (if updateInterval > 0 then updateInterval else 0)
  }

  /** The poll limit as written: `maxSeconds * updateInterval`. */
  function PollLimitAsWritten(maxSeconds: int, updateInterval: int): int {
    maxSeconds * updateInterval
  }

  /** `WaitForFile` as written: each poll is preceded by a pause of
      `updateInterval` milliseconds (none when it is not positive), and the
      loop allows `maxSeconds * updateInterval` polls, so a file that never
      appears is waited for `maxSeconds * updateInterval²` milliseconds. */
  method WaitForFileAsWritten(maxSeconds: int, updateInterval: int, readable: nat -> bool)
    returns (calls: nat, waited: int)
    ensures calls <= 1
    ensures calls == 1 <==> exists k :: 0 <= k < PollLimitAsWritten(maxSeconds, updateInterval) && readable(k)
    ensures calls == 0 ==> waited == MissingFileWait(PollLimitAsWritten(maxSeconds, updateInterval), updateInterval)
    ensures calls == 0 && maxSeconds >= 0 && updateInterval > 0 ==> waited == maxSeconds * updateInterval * updateInterval
  {
    var polls;
    polls, calls := Poll(PollLimitAsWritten(maxSeconds, updateInterval), readable);
    waited := polls * (if updateInterval > 0 then updateInterval else 0);
  }

  /** With the defaults (20 seconds, 100 ms between polls) a file that never
      appears is waited for 200 seconds as written, ten times the 20 seconds
      asked for; with the corrected limit, for exactly 20 seconds. */
  lemma DefaultWaitIsTenfold()
    ensures MissingFileWait(PollLimitAsWritten(20, 100), 100) == 200_000 == 10 * (20 * 1000)
    ensures MissingFileWait(PollLimit(20, 100), 100) == 20 * 1000
  {
  }

  /** The evidently intended poll limit: as many polls as fit in `maxSeconds`. */
  function PollLimit(maxSeconds: int, updateInterval: int): int
    requires updateInterval > 0
  {
    maxSeconds * 1000 / updateInterval
  }

  /** `WaitForFile` with the corrected limit: it never waits longer than
      `maxSeconds` seconds, and a file that never appears is waited for
      within one interval of that. */
  method WaitForFile(maxSeconds: int, updateInterval: int, readable: nat -> bool)
    returns (calls: nat, waited: int)
    requires updateInterval > 0
    ensures calls <= 1
    ensures calls == 1 <==> exists k :: 0 <= k < PollLimit(maxSeconds, updateInterval) && readable(k)
    ensures waited <= (if maxSeconds < 0 then 0 else maxSeconds * 1000)
    ensures calls == 0 ==> waited == MissingFileWait(PollLimit(maxSeconds, updateInterval), updateInterval)
    ensures calls == 0 && maxSeconds >= 0 ==> waited > maxSeconds * 1000 - updateInterval
  {
    var polls;
    polls, calls := Poll(PollLimit(maxSeconds, updateInterval), readable);
    waited := polls * updateInterval;
    PollLimitFits(maxSeconds, updateInterval, polls);
  }

  lemma PollLimitFits(maxSeconds: int, updateInterval: int, polls: nat)
    requires updateInterval > 0
    requires polls <= (if PollLimit(maxSeconds, updateInterval) < 0 then 0 else PollLimit(maxSeconds, updateInterval))
    ensures polls * updateInterval <= (if maxSeconds < 0 then 0 else maxSeconds * 1000)
    ensures maxSeconds >= 0 && polls == PollLimit(maxSeconds, updateInterval) ==> polls * updateInterval > maxSeconds * 1000 - updateInterval
  {
    var q := PollLimit(maxSeconds, updateInterval);
    var total := maxSeconds * 1000;
    assert q * updateInterval <= total < q * updateInterval + updateInterval;
    if q >= 0 {
      assert polls * updateInterval <= q * updateInterval;
    }
  }
}
