/** `cleanup_stale_files` (addon.py): the `.strm` files of the library that the
    scan did not record as valid are collected from a listing of the movies and
    TV folders, and removed, with the folders left empty, once the user confirms
    each batch. The listing is a snapshot taken at the start; the confirmations
    are inputs. */
module Cleanup {
  import opened Wrappers
  import opened Text
  import opened PosixPath
  import opened Library

  /** A name listed by `os.listdir`, and whether it is a directory; in the lists
      of things to delete, the name is the full path. */
  datatype Entry = Entry(name: string, isDir: bool)

  /** A season folder of a show (when `isDir`) with its listing. */
  datatype Season = Season(name: string, isDir: bool, entries: seq<Entry>)

  /** An entry of the TV folder: a show folder (when `isDir`) with its listing. */
  datatype Show = Show(name: string, isDir: bool, seasons: seq<Season>)

  /** The listings of the movies folder and of the TV folder. */
  datatype Snapshot = Snapshot(movies: seq<Entry>, shows: seq<Show>)

  /** The answers to the four `yesno` dialogs: delete movies, delete episodes,
      delete empty seasons, delete empty shows. */
  datatype Answers = Answers(movies: bool, episodes: bool, seasons: bool, shows: bool)

  // ---------------------------------------------------------------------------
  // What is collected

  /** A listed name that is a `.strm` file whose path is not valid. */
  predicate IsStale(dir: string, e: Entry, valid: set<string>) {
    EndsWith(e.name, ".strm") && Join(dir, e.name) !in valid
  }

  /** The stale files of one listing, as full paths, in listing order. */
  function StaleFiles(dir: string, es: seq<Entry>, valid: set<string>): (r: seq<Entry>)
    ensures |r| <= |es|
  {
    if es == [] then []
    else
      var e := Last(es);
      StaleFiles(dir, Init(es), valid) + (if IsStale(dir, e, valid) then [Entry(Join(dir, e.name), e.isDir)] else [])
  }

  /** The stale files of a season folder (nothing for a listed file). */
  function SeasonStale(showPath: string, s: Season, valid: set<string>): seq<Entry> {
    if s.isDir then StaleFiles(Join(showPath, s.name), s.entries, valid) else []
  }

  function StaleInSeasons(showPath: string, ss: seq<Season>, valid: set<string>): seq<Entry> {
    if ss == [] then [] else StaleInSeasons(showPath, Init(ss), valid) + SeasonStale(showPath, Last(ss), valid)
  }

  /** The season folders of a show whose listing is empty. */
  function EmptyInSeasons(showPath: string, ss: seq<Season>): seq<string> {
    if ss == [] then []
    else
      var s := Last(ss);
      EmptyInSeasons(showPath, Init(ss)) + (if s.isDir && s.entries == [] then [Join(showPath, s.name)] else [])
  }

  /** A season folder that clears the `empty_show` flag: not empty, and without a
      stale file. */
  predicate KeepsShow(showPath: string, s: Season, valid: set<string>) {
    s.isDir && s.entries != [] && SeasonStale(showPath, s, valid) == []
  }

  /** The `empty_show` flag after the loop over the show's seasons. */
  predicate ShowLooksEmpty(showPath: string, ss: seq<Season>, valid: set<string>) {
    forall k :: 0 <= k < |ss| ==> !KeepsShow(showPath, ss[k], valid)
  }

  /** `episodes_to_delete`. */
  function StaleEpisodes(tvDir: string, shows: seq<Show>, valid: set<string>): seq<Entry> {
    if shows == [] then []
    else
      var sh := Last(shows);
      StaleEpisodes(tvDir, Init(shows), valid) +
      (if sh.isDir then StaleInSeasons(Join(tvDir, sh.name), sh.seasons, valid) else [])
  }

  /** `empty_seasons`. */
  function EmptySeasons(tvDir: string, shows: seq<Show>): seq<string> {
    if shows == [] then []
    else
      var sh := Last(shows);
      EmptySeasons(tvDir, Init(shows)) + (if sh.isDir then EmptyInSeasons(Join(tvDir, sh.name), sh.seasons) else [])
  }

  /** `empty_shows` (the show entries; their paths are under `tvDir`). */
  function EmptyShows(tvDir: string, shows: seq<Show>, valid: set<string>): (r: seq<Show>)
    ensures forall sh :: sh in r ==> sh in shows
  {
    if shows == [] then []
    else
      var sh := Last(shows);
      EmptyShows(tvDir, Init(shows), valid) +
      (if sh.isDir && ShowLooksEmpty(Join(tvDir, sh.name), sh.seasons, valid) then [sh] else [])
  }

  // ---------------------------------------------------------------------------
  // What is removed

  /** The paths removed, how many, and the exception that ended the removals. */
  datatype Removal = Removal(removed: seq<string>, count: nat, err: Option<PyError>)

  /** `os.remove` of each listed path in turn: a directory raises
      IsADirectoryError, which ends the loop (and `cleanup_stale_files`). */
  function RemoveFiles(ts: seq<Entry>): (r: Removal)
    ensures r.count == |r.removed| <= |ts|
    ensures r.err.None? || r.err == Some(IsADirectoryError)
  {
    if ts == [] then Removal([], 0, None)
    else
      var r := RemoveFiles(Init(ts));
      if r.err.Some? then r
      else if Last(ts).isDir then Removal(r.removed, r.count, Some(IsADirectoryError))
      else Removal(r.removed + [Last(ts).name], r.count + 1, None)
  }

  /** `os.rmdir` of a show folder succeeds when nothing is left in it: every entry
      was an empty season folder and those were removed. Otherwise the error is
      swallowed. */
  predicate ShowEmptied(sh: Show, seasonsGone: bool) {
    sh.seasons == [] || (seasonsGone && forall k :: 0 <= k < |sh.seasons| ==> sh.seasons[k].isDir && sh.seasons[k].entries == [])
  }

  /** The show folders `os.rmdir` removes. */
  function RmdirShows(tvDir: string, shows: seq<Show>, seasonsGone: bool): (r: seq<string>)
    ensures |r| <= |shows|
  {
    if shows == [] then []
    else
      var sh := Last(shows);
      RmdirShows(tvDir, Init(shows), seasonsGone) + (if ShowEmptied(sh, seasonsGone) then [Join(tvDir, sh.name)] else [])
  }

  /** What one call does: the paths removed in order, the three deletion counts
      and the exception raised, if any. */
  datatype Outcome = Outcome(removed: seq<string>, moviesDeleted: nat, episodesDeleted: nat, showsDeleted: nat,
                             err: Option<PyError>)

  /** The TV half of `cleanup_stale_files`, reached when no movie removal failed. */
  function CleanupTv(tvDir: string, shows: seq<Show>, valid: set<string>, ans: Answers): (r: Outcome)
    ensures r.moviesDeleted == 0
    ensures r.err.None? || r.err == Some(IsADirectoryError)
    ensures r.episodesDeleted <= |StaleEpisodes(tvDir, shows, valid)|
    ensures r.showsDeleted <= |EmptyShows(tvDir, shows, valid)|
    ensures ans.episodes && (forall t :: t in StaleEpisodes(tvDir, shows, valid) ==> !t.isDir) ==>
              r.err.None? && r.episodesDeleted == |StaleEpisodes(tvDir, shows, valid)| &&
              Names(StaleEpisodes(tvDir, shows, valid)) <= r.removed
  {
    var eps := StaleEpisodes(tvDir, shows, valid);
    if !(eps != [] && ans.episodes) then Outcome([], 0, 0, 0, None)
    else
      var e := RemoveFiles(eps);
      assert (forall t :: t in eps ==> !t.isDir) ==> e == Removal(Names(eps), |eps|, None) by {
        if forall t :: t in eps ==> !t.isDir { RemoveFilesAll(eps); }
      }
      if e.err.Some? then Outcome(e.removed, 0, e.count, 0, e.err)
      else
        var seasons := EmptySeasons(tvDir, shows);
        var seasonsGone := seasons != [] && ans.seasons;
        var flagged := EmptyShows(tvDir, shows, valid);
        var gone := if flagged != [] && ans.shows then RmdirShows(tvDir, flagged, seasonsGone) else [];
        Outcome(e.removed + (if seasonsGone then seasons else []) + gone, 0, e.count, |gone|, None)
  }

  /** `cleanup_stale_files(valid_files, stats)` over a snapshot and the answers. */
  function CleanupStale(moviesDir: string, tvDir: string, snap: Snapshot, valid: set<string>, ans: Answers): Outcome {
    var movies := StaleFiles(moviesDir, snap.movies, valid);
    var m := if movies != [] && ans.movies then RemoveFiles(movies) else Removal([], 0, None);
    if m.err.Some? then Outcome(m.removed, m.count, 0, 0, m.err)
    else
      var t := CleanupTv(tvDir, snap.shows, valid, ans);
      Outcome(m.removed + t.removed, m.count, t.episodesDeleted, t.showsDeleted, t.err)
  }

  // ---------------------------------------------------------------------------
  // Properties

  /** The files flagged in a listing are exactly its `.strm` files whose path is
      not valid. */
  lemma {:induction false} StaleFilesExactly(dir: string, es: seq<Entry>, valid: set<string>)
    ensures forall t :: t in StaleFiles(dir, es, valid) <==>
              exists e :: e in es && IsStale(dir, e, valid) && t == Entry(Join(dir, e.name), e.isDir)
  {
    if es != [] {
      StaleFilesExactly(dir, Init(es), valid);
      assert es == Init(es) + [Last(es)];
    }
  }

  /** Without a directory among them, every file is removed and counted. */
  lemma {:induction false} RemoveFilesAll(ts: seq<Entry>)
    requires forall t :: t in ts ==> !t.isDir
    ensures RemoveFiles(ts) == Removal(Names(ts), |ts|, None)
  {
    if ts != [] {
      assert forall t :: t in Init(ts) ==> t in ts;
      RemoveFilesAll(Init(ts));
      assert Last(ts) in ts;
    }
  }

  /** A directory among them ends the removals with IsADirectoryError. */
  lemma {:induction false} RemoveFilesDir(ts: seq<Entry>, k: nat)
    requires k < |ts| && ts[k].isDir
    ensures RemoveFiles(ts).err == Some(IsADirectoryError)
  {
    if k < |ts| - 1 {
      assert Init(ts)[k] == ts[k];
      RemoveFilesDir(Init(ts), k);
    }
  }

  /** The names of the entries. */
  function Names(ts: seq<Entry>): (r: seq<string>)
    ensures |r| == |ts| && forall k :: 0 <= k < |ts| ==> r[k] == ts[k].name
  {
    if ts == [] then [] else Names(Init(ts)) + [Last(ts).name]
  }

  /** Whatever a prefix of `c` holds, `a + c` holds, after `a`. */
  lemma PrefixJoin(a: seq<string>, b: seq<string>, c: seq<string>)
    requires b <= c
    ensures a + b <= a + c
    ensures forall x :: x in a + b ==> x in a + c
  {
    assert a + c == a + b + c[|b|..];
  }

  lemma NamesHas(ts: seq<Entry>)
    ensures forall t :: t in ts ==> t.name in Names(ts)
  {
    forall t | t in ts ensures t.name in Names(ts) {
      var k :| 0 <= k < |ts| && ts[k] == t;
      assert Names(ts)[k] == t.name;
    }
  }

  /** Nothing is removed from the TV folder without confirmation of the episode
      deletion, and season and show folders not without their own. */
  lemma TvNeedsConfirmation(tvDir: string, shows: seq<Show>, valid: set<string>, ans: Answers)
    ensures var r := CleanupTv(tvDir, shows, valid, ans);
      forall p :: p in r.removed ==>
        (ans.episodes &&
         (Entry(p, false) in StaleEpisodes(tvDir, shows, valid) ||
          (ans.seasons && p in EmptySeasons(tvDir, shows)) ||
          (ans.shows && exists sh :: sh in EmptyShows(tvDir, shows, valid) && p == Join(tvDir, sh.name))))
    ensures var r := CleanupTv(tvDir, shows, valid, ans);
      (!ans.episodes ==> r.removed == [] && r.episodesDeleted == 0 && r.showsDeleted == 0) &&
      (!ans.shows ==> r.showsDeleted == 0)
  {
    var eps := StaleEpisodes(tvDir, shows, valid);
    if eps != [] && ans.episodes {
      RemovedAreFiles(eps);
      RmdirShowsFrom(tvDir, EmptyShows(tvDir, shows, valid), EmptySeasons(tvDir, shows) != [] && ans.seasons);
    }
  }

  /** Nothing is removed without confirmation: movie files only after the first
      answer, episode files only after the second, and the empty season and show
      folders only after the second and their own. */
  lemma NothingWithoutConfirmation(moviesDir: string, tvDir: string, snap: Snapshot, valid: set<string>, ans: Answers)
    ensures var r := CleanupStale(moviesDir, tvDir, snap, valid, ans);
      forall p :: p in r.removed ==>
        (ans.movies && Entry(p, false) in StaleFiles(moviesDir, snap.movies, valid)) ||
        (ans.episodes &&
          (Entry(p, false) in StaleEpisodes(tvDir, snap.shows, valid) ||
           (ans.seasons && p in EmptySeasons(tvDir, snap.shows)) ||
           (ans.shows && exists sh :: sh in EmptyShows(tvDir, snap.shows, valid) && p == Join(tvDir, sh.name))))
    ensures var r := CleanupStale(moviesDir, tvDir, snap, valid, ans);
      (!ans.movies ==> r.moviesDeleted == 0) &&
      (!ans.episodes ==> r.episodesDeleted == 0 && r.showsDeleted == 0) &&
      (!ans.shows ==> r.showsDeleted == 0)
  {
    var movies := StaleFiles(moviesDir, snap.movies, valid);
    if movies != [] && ans.movies {
      RemovedAreFiles(movies);
    }
    TvNeedsConfirmation(tvDir, snap.shows, valid, ans);
  }

  /** What RemoveFiles removes are listed files. */
  lemma {:induction false} RemovedAreFiles(ts: seq<Entry>)
    ensures forall p :: p in RemoveFiles(ts).removed ==> Entry(p, false) in ts
  {
    if ts != [] {
      RemovedAreFiles(Init(ts));
      assert forall t :: t in Init(ts) ==> t in ts;
    }
  }

  lemma {:induction false} RmdirShowsFrom(tvDir: string, shows: seq<Show>, seasonsGone: bool)
    ensures forall p :: p in RmdirShows(tvDir, shows, seasonsGone) ==>
              exists sh :: sh in shows && p == Join(tvDir, sh.name)
  {
    if shows != [] {
      RmdirShowsFrom(tvDir, Init(shows), seasonsGone);
      assert forall t :: t in Init(shows) ==> t in shows;
      assert Last(shows) in shows;
    }
  }

  /** A show folder is flagged empty exactly when it is a folder each of whose
      season folders was empty at scan time or held a stale episode. */
  lemma {:induction false} ShowFlaggedIff(tvDir: string, shows: seq<Show>, valid: set<string>, sh: Show)
    ensures sh in EmptyShows(tvDir, shows, valid) <==>
      sh in shows && sh.isDir &&
      forall s :: s in sh.seasons && s.isDir ==>
        s.entries == [] || exists e :: e in s.entries && IsStale(Join(Join(tvDir, sh.name), s.name), e, valid)
  {
    var showPath := Join(tvDir, sh.name);
    forall s | s in sh.seasons && s.isDir
      ensures SeasonStale(showPath, s, valid) != [] <==>
                exists e :: e in s.entries && IsStale(Join(showPath, s.name), e, valid)
    {
      StaleFilesExactly(Join(showPath, s.name), s.entries, valid);
      var r := SeasonStale(showPath, s, valid);
      if exists e :: e in s.entries && IsStale(Join(showPath, s.name), e, valid) {
        var e :| e in s.entries && IsStale(Join(showPath, s.name), e, valid);
        assert Entry(Join(Join(showPath, s.name), e.name), e.isDir) in r;
      }
      if r != [] {
        assert r[0] in r;
      }
    }
    EmptyShowsIn(tvDir, shows, valid, sh);
  }

  lemma {:induction false} EmptyShowsIn(tvDir: string, shows: seq<Show>, valid: set<string>, sh: Show)
    ensures sh in EmptyShows(tvDir, shows, valid) <==>
      sh in shows && sh.isDir && ShowLooksEmpty(Join(tvDir, sh.name), sh.seasons, valid)
  {
    if shows != [] {
      EmptyShowsIn(tvDir, Init(shows), valid, sh);
      assert shows == Init(shows) + [Last(shows)];
    }
  }

  /** With both answers yes and no directory among the stale files, every stale
      movie and episode file is removed and counted. */
  lemma AllStaleRemoved(moviesDir: string, tvDir: string, snap: Snapshot, valid: set<string>, ans: Answers)
    requires ans.movies && ans.episodes
    requires forall t :: t in StaleFiles(moviesDir, snap.movies, valid) ==> !t.isDir
    requires forall t :: t in StaleEpisodes(tvDir, snap.shows, valid) ==> !t.isDir
    ensures var r := CleanupStale(moviesDir, tvDir, snap, valid, ans);
      r.err.None? &&
      r.moviesDeleted == |StaleFiles(moviesDir, snap.movies, valid)| &&
      r.episodesDeleted == |StaleEpisodes(tvDir, snap.shows, valid)|
    ensures var r := CleanupStale(moviesDir, tvDir, snap, valid, ans);
      Names(StaleFiles(moviesDir, snap.movies, valid)) + Names(StaleEpisodes(tvDir, snap.shows, valid)) <= r.removed
    ensures var r := CleanupStale(moviesDir, tvDir, snap, valid, ans);
      (forall t :: t in StaleFiles(moviesDir, snap.movies, valid) ==> t.name in r.removed) &&
      (forall t :: t in StaleEpisodes(tvDir, snap.shows, valid) ==> t.name in r.removed)
  {
    var movies := StaleFiles(moviesDir, snap.movies, valid);
    var eps := StaleEpisodes(tvDir, snap.shows, valid);
    var t := CleanupTv(tvDir, snap.shows, valid, ans);
    RemoveFilesAll(movies);
    assert CleanupStale(moviesDir, tvDir, snap, valid, ans) ==
           Outcome(Names(movies) + t.removed, |movies|, t.episodesDeleted, t.showsDeleted, t.err);
    PrefixJoin(Names(movies), Names(eps), t.removed);
    NamesHas(movies);
    NamesHas(eps);
  }



  // ---------------------------------------------------------------------------
  // The loops

  /** The loop over one listing: the stale `.strm` files, appended in order. */
  method CollectStale(dir: string, es: seq<Entry>, valid: set<string>) returns (stale: seq<Entry>)
    ensures stale == StaleFiles(dir, es, valid)
  {
    stale := [];
    var i := 0;
    while i < |es|
      invariant i <= |es|
      invariant stale == StaleFiles(dir, es[..i], valid)
    {
      assert es[..i + 1] == es[..i] + [es[i]];
      var e := es[i];
      if EndsWith(e.name, ".strm") {
        var path := Join(dir, e.name);
        if path !in valid {
          stale := stale + [Entry(path, e.isDir)];
        }
      }
      i := i + 1;
    }
    assert es[..i] == es;
  }

  lemma LooksEmptyLast(showPath: string, ss: seq<Season>, valid: set<string>)
    requires ss != []
    ensures ShowLooksEmpty(showPath, ss, valid) ==
            (ShowLooksEmpty(showPath, Init(ss), valid) && !KeepsShow(showPath, Last(ss), valid))
  {
    assert forall k :: 0 <= k < |ss| - 1 ==> Init(ss)[k] == ss[k];
  }

  /** The `empty_show` flag as the loop computes it, season by season. */
  function FlagAfter(showPath: string, ss: seq<Season>, valid: set<string>): bool {
    if ss == [] then true else FlagAfter(showPath, Init(ss), valid) && !KeepsShow(showPath, Last(ss), valid)
  }

  lemma {:induction false} FlagAfterLooksEmpty(showPath: string, ss: seq<Season>, valid: set<string>)
    decreases |ss|
    ensures FlagAfter(showPath, ss, valid) == ShowLooksEmpty(showPath, ss, valid)
  {
    if ss != [] {
      FlagAfterLooksEmpty(showPath, Init(ss), valid);
      LooksEmptyLast(showPath, ss, valid);
    }
  }

  lemma SeasonsSnoc(showPath: string, ss: seq<Season>, s: Season, valid: set<string>)
    ensures StaleInSeasons(showPath, ss + [s], valid) == StaleInSeasons(showPath, ss, valid) + SeasonStale(showPath, s, valid)
    ensures EmptyInSeasons(showPath, ss + [s]) ==
            EmptyInSeasons(showPath, ss) + (if s.isDir && s.entries == [] then [Join(showPath, s.name)] else [])
    ensures FlagAfter(showPath, ss + [s], valid) == (FlagAfter(showPath, ss, valid) && !KeepsShow(showPath, s, valid))
  {
    assert Init(ss + [s]) == ss && Last(ss + [s]) == s;
  }

  /** One season folder: its stale files, whether it is an empty folder, and
      whether it clears the `empty_show` flag. */
  method ScanSeason(showPath: string, s: Season, valid: set<string>)
    returns (found: seq<Entry>, empty: bool, keeps: bool)
    ensures found == SeasonStale(showPath, s, valid)
    ensures empty == (s.isDir && s.entries == [])
    ensures keeps == KeepsShow(showPath, s, valid)
  {
    found, empty, keeps := [], false, false;
    if s.isDir {
      found := CollectStale(Join(showPath, s.name), s.entries, valid);
      empty := s.entries == [];
      keeps := !empty && found == [];
    }
  }

  /** The loop over the seasons of one show folder: its stale episodes, its empty
      season folders and the `empty_show` flag. */
  method ScanShow(showPath: string, ss: seq<Season>, valid: set<string>)
    returns (stale: seq<Entry>, empties: seq<string>, emptyShow: bool)
    ensures stale == StaleInSeasons(showPath, ss, valid)
    ensures empties == EmptyInSeasons(showPath, ss)
    ensures emptyShow == ShowLooksEmpty(showPath, ss, valid)
  {
    stale, empties, emptyShow := [], [], true;
    var j := 0;
    while j < |ss|
      invariant j <= |ss|
      invariant stale == StaleInSeasons(showPath, ss[..j], valid)
      invariant empties == EmptyInSeasons(showPath, ss[..j])
      invariant emptyShow == FlagAfter(showPath, ss[..j], valid)
    {
      var s := ss[j];
      assert ss[..j + 1] == ss[..j] + [s];
      SeasonsSnoc(showPath, ss[..j], s, valid);
      var found, empty, keeps := ScanSeason(showPath, s, valid);
      stale := stale + found;
      if empty {
        empties := empties + [Join(showPath, s.name)];
      }
      emptyShow := emptyShow && !keeps;
      j := j + 1;
    }
    assert ss[..j] == ss;
    FlagAfterLooksEmpty(showPath, ss, valid);
  }

  lemma ShowsSnoc(tvDir: string, shows: seq<Show>, sh: Show, valid: set<string>)
    ensures StaleEpisodes(tvDir, shows + [sh], valid) ==
            StaleEpisodes(tvDir, shows, valid) + (if sh.isDir then StaleInSeasons(Join(tvDir, sh.name), sh.seasons, valid) else [])
    ensures EmptySeasons(tvDir, shows + [sh]) ==
            EmptySeasons(tvDir, shows) + (if sh.isDir then EmptyInSeasons(Join(tvDir, sh.name), sh.seasons) else [])
    ensures EmptyShows(tvDir, shows + [sh], valid) ==
            EmptyShows(tvDir, shows, valid) + (if sh.isDir && ShowLooksEmpty(Join(tvDir, sh.name), sh.seasons, valid) then [sh] else [])
  {
    assert Init(shows + [sh]) == shows && Last(shows + [sh]) == sh;
  }

  /** The loop over the TV folder. */
  method ScanShows(tvDir: string, shows: seq<Show>, valid: set<string>)
    returns (episodes: seq<Entry>, seasons: seq<string>, emptyShows: seq<Show>)
    ensures episodes == StaleEpisodes(tvDir, shows, valid)
    ensures seasons == EmptySeasons(tvDir, shows)
    ensures emptyShows == EmptyShows(tvDir, shows, valid)
  {
    episodes, seasons, emptyShows := [], [], [];
    var i := 0;
    while i < |shows|
      invariant i <= |shows|
      invariant episodes == StaleEpisodes(tvDir, shows[..i], valid)
      invariant seasons == EmptySeasons(tvDir, shows[..i])
      invariant emptyShows == EmptyShows(tvDir, shows[..i], valid)
    {
      var sh := shows[i];
      assert shows[..i + 1] == shows[..i] + [sh];
      ShowsSnoc(tvDir, shows[..i], sh, valid);
      if sh.isDir {
        var stale, empties, emptyShow := ScanShow(Join(tvDir, sh.name), sh.seasons, valid);
        episodes := episodes + stale;
        seasons := seasons + empties;
        if emptyShow {
          emptyShows := emptyShows + [sh];
        }
      }
      i := i + 1;
    }
    assert shows[..i] == shows;
  }

  /** The `os.remove` loop over a list of files. */
  method RemoveEach(ts: seq<Entry>) returns (removed: seq<string>, count: nat, err: Option<PyError>)
    ensures Removal(removed, count, err) == RemoveFiles(ts)
  {
    removed, count, err := [], 0, None;
    var i := 0;
    while i < |ts|
      invariant i <= |ts|
      invariant RemoveFiles(ts[..i]) == Removal(removed, count, None)
    {
      assert Init(ts[..i + 1]) == ts[..i];
      if ts[i].isDir {
        err := Some(IsADirectoryError);
        RemoveAfterError(ts, i + 1);
        return;
      }
      removed, count := removed + [ts[i].name], count + 1;
      i := i + 1;
    }
    assert ts[..i] == ts;
  }

  /** Once a removal has failed, later entries change nothing. */
  lemma {:induction false} RemoveAfterError(ts: seq<Entry>, n: nat)
    requires 0 < n <= |ts| && RemoveFiles(ts[..n]).err.Some?
    decreases |ts| - n
    ensures RemoveFiles(ts) == RemoveFiles(ts[..n])
  {
    if n < |ts| {
      assert Init(ts[..n + 1]) == ts[..n];
      RemoveAfterError(ts, n + 1);
    } else {
      assert ts[..n] == ts;
    }
  }

  /** The `os.rmdir` loop over the empty show folders. */
  method RemoveShows(tvDir: string, shows: seq<Show>, seasonsGone: bool) returns (removed: seq<string>)
    ensures removed == RmdirShows(tvDir, shows, seasonsGone)
  {
    removed := [];
    var i := 0;
    while i < |shows|
      invariant i <= |shows|
      invariant removed == RmdirShows(tvDir, shows[..i], seasonsGone)
    {
      assert Init(shows[..i + 1]) == shows[..i];
      if ShowEmptied(shows[i], seasonsGone) {
        removed := removed + [Join(tvDir, shows[i].name)];
      }
      i := i + 1;
    }
    assert shows[..i] == shows;
  }

  /** The TV half of `cleanup_stale_files`: scan, then remove after confirmation. */
  method CleanTv(tvDir: string, shows: seq<Show>, valid: set<string>, ans: Answers, stats: Stats)
    returns (removed: seq<string>, err: Option<PyError>)
    modifies stats
    ensures var r := CleanupTv(tvDir, shows, valid, ans);
      removed == r.removed && err == r.err &&
      stats.episodesDeleted == old(stats.episodesDeleted) + r.episodesDeleted &&
      stats.showsDeleted == old(stats.showsDeleted) + r.showsDeleted
    ensures stats.Value() == old(stats.Value()).(episodesDeleted := stats.episodesDeleted,
                                                  showsDeleted := stats.showsDeleted)
  {
    removed, err := [], None;
    var episodes, seasons, emptyShows := ScanShows(tvDir, shows, valid);
    if episodes != [] && ans.episodes {
      var n;
      removed, n, err := RemoveEach(episodes);
      stats.episodesDeleted := stats.episodesDeleted + n;
      if err.Some? {
        return;
      }
      var seasonsGone := false;
      if seasons != [] && ans.seasons {
        removed := removed + seasons;
        seasonsGone := true;
      }
      if emptyShows != [] && ans.shows {
        var gone := RemoveShows(tvDir, emptyShows, seasonsGone);
        removed := removed + gone;
        stats.showsDeleted := stats.showsDeleted + |gone|;
      }
    }
  }

  /** `cleanup_stale_files(valid_files, stats)`: the paths it removes, in order,
      the exception that ended it, and the deletion counters of `stats`. */
  method CleanupStaleFiles(moviesDir: string, tvDir: string, snap: Snapshot, valid: set<string>, ans: Answers,
                           stats: Stats)
    returns (removed: seq<string>, err: Option<PyError>)
    modifies stats
    ensures var r := CleanupStale(moviesDir, tvDir, snap, valid, ans);
      removed == r.removed && err == r.err &&
      stats.Value() == old(stats.Value()).(moviesDeleted := old(stats.moviesDeleted) + r.moviesDeleted,
                                           episodesDeleted := old(stats.episodesDeleted) + r.episodesDeleted,
                                           showsDeleted := old(stats.showsDeleted) + r.showsDeleted)
  {
    removed, err := [], None;
    var movies := CollectStale(moviesDir, snap.movies, valid);
    if movies != [] && ans.movies {
      var n;
      removed, n, err := RemoveEach(movies);
      stats.moviesDeleted := stats.moviesDeleted + n;
      if err.Some? {
        return;
      }
    }
    var tvRemoved;
    tvRemoved, err := CleanTv(tvDir, snap.shows, valid, ans, stats);
    removed := removed + tvRemoved;
  }
}
