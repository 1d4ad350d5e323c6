/** The scan loop of `process_m3u` (addon.py): every `#EXTINF` line is paired with
    the URL on the next line, classified as a movie or an episode by the URL's
    prefix, and turned into a `.strm` file of the library. */
module Scan {
  import opened Wrappers
  import opened Text
  import opened M3u
  import opened PosixPath
  import opened Library

  /** What the scan takes from outside the playlist: the two library folders,
      the server's domain, the Unicode normaliser, the clock (the time read by
      `extract_info` for the entry at each line), which files can be written,
      and whether `create_strm` writes where the source writes (`asWritten`) or
      at the path the loop records (the correction). */
  datatype Env = Env(moviesDir: string, tvDir: string, domain: string, nfkd: Normalizer,
                     stamp: nat -> nat, writable: Writable, asWritten: bool)

  /** The file a `create_strm(path, …)` call writes: as written, the directory
      of `path` joined with the sanitised base name; corrected, `path` itself. */
  function Target(env: Env, path: string): string {
    if env.asWritten then StrmTarget(env.nfkd, path) else path
  }

  /** `p` is the file written for one of the recorded paths. */
  predicate Placed(env: Env, valid: set<string>, p: string) {
    exists v :: v in valid && Target(env, v) == p
  }

  /** The file system, the counters and `valid_files`. */
  datatype State = State(fs: Fs, counts: Counts, valid: set<string>)

  /** The state reached and the exception that ended the scan, if any. */
  datatype Outcome = Outcome(st: State, err: Option<PyError>)

  /** What an entry may do to the state: files are only added, never changed or
      removed; each added file is counted once, as a movie or as an episode;
      folders and valid paths only grow; the deletion counters stay. */
  predicate Grows(st: State, r: State) {
    (forall p :: p in st.fs.files ==> p in r.fs.files && r.fs.files[p] == st.fs.files[p]) &&
    st.fs.dirs <= r.fs.dirs && st.valid <= r.valid &&
    r.counts.moviesAdded >= st.counts.moviesAdded && r.counts.episodesAdded >= st.counts.episodesAdded &&
    |r.fs.files| == |st.fs.files| + (r.counts.moviesAdded - st.counts.moviesAdded)
                    + (r.counts.episodesAdded - st.counts.episodesAdded) &&
    r.counts.moviesDeleted == st.counts.moviesDeleted && r.counts.showsDeleted == st.counts.showsDeleted &&
    r.counts.episodesDeleted == st.counts.episodesDeleted
  }

  /** Every file of `r` that `st` did not have is written for a valid path and
      holds `url`. */
  predicate NewFilesHold(env: Env, st: State, r: State, url: string) {
    forall p :: p in r.fs.files && p !in st.fs.files ==> Placed(env, r.valid, p) && r.fs.files[p] == url
  }

  /** The files of `r` are those of `st`, plus `t` when `made`. */
  predicate AddsAt(st: Fs, r: Fs, t: string, made: bool) {
    r.files.Keys == st.files.Keys + (if made then {t} else {})
  }

  /** A creation adds exactly one file. */
  lemma CreatedOne(fs: Fs, path: string, target: string, url: string, createDirs: bool, writable: Writable)
    ensures var c := CreateAt(fs, path, target, url, createDirs, writable);
      |c.fs.files| == |fs.files| + (if c.ok then 1 else 0)
  {
    var c := CreateAt(fs, path, target, url, createDirs, writable);
    if c.ok {
      assert c.fs.files.Keys == fs.files.Keys + {target};
    } else {
      assert c.fs.files.Keys == fs.files.Keys;
    }
  }

  /** A movie: its path becomes valid whether or not the file is created, the
      file is created without creating directories, and a creation counts as an
      added movie. */
  function AddMovie(env: Env, st: State, info: Info, url: string): (r: State)
    ensures Grows(st, r) && NewFilesHold(env, st, r, url)
    ensures r.valid == st.valid + {MoviePath(env.moviesDir, env.nfkd, info)}
    // the one file it may write is the target of the movie path, written exactly
    // when nothing is there and it can be written; only `movies_added` moves
    ensures var t := Target(env, MoviePath(env.moviesDir, env.nfkd, info));
      var made := !Exists(st.fs, t) && env.writable(t);
      AddsAt(st.fs, r.fs, t, made) && r.fs.dirs == st.fs.dirs &&
      r.counts == st.counts.(moviesAdded := st.counts.moviesAdded + (if made then 1 else 0))
  {
    var path := MoviePath(env.moviesDir, env.nfkd, info);
    var c := CreateAt(st.fs, path, Target(env, path), url, false, env.writable);
    CreatedOne(st.fs, path, Target(env, path), url, false, env.writable);
    State(c.fs, if c.ok then st.counts.(moviesAdded := st.counts.moviesAdded + 1) else st.counts,
          st.valid + {path})
  }

  /** An episode: its path becomes valid, the show and season folders are made
      (an error ends the scan), and the file is created if the path does not
      exist; a creation adds the show name and counts an episode. */
  function AddEpisode(env: Env, st: State, info: Info, url: string): (r: Outcome)
    requires AllDigits(info.season)
    ensures Grows(st, r.st) && NewFilesHold(env, st, r.st, url)
    ensures r.st.valid == st.valid + {EpisodePaths(env.tvDir, env.nfkd, info).path}
    ensures r.st.counts.moviesAdded == st.counts.moviesAdded
    // the only exceptions are those of `os.makedirs`, raised before any file is written
    ensures var e := EpisodePaths(env.tvDir, env.nfkd, info);
      r.err.Some? <==> e.showFolder == [] || e.showFolder in st.fs.files || e.seasonFolder == [] ||
                       e.seasonFolder in st.fs.files
    ensures r.err.Some? ==> r.err.value == FileNotFoundError || r.err.value == FileExistsError
    ensures r.err.Some? ==> r.st.fs.files == st.fs.files && r.st.counts == st.counts
    // the one file it may write is the target of the episode path
    ensures AddsAt(st.fs, r.st.fs, Target(env, EpisodePaths(env.tvDir, env.nfkd, info).path),
                   r.st.counts.episodesAdded > st.counts.episodesAdded)
    ensures r.st.counts.episodesAdded <= st.counts.episodesAdded + 1
  {
    EpisodeAt(env, st, EpisodePaths(env.tvDir, env.nfkd, info), url)
  }

  /** The episode steps of `process_m3u` for its computed location. */
  function EpisodeAt(env: Env, st: State, e: EpisodeLocation, url: string): (r: Outcome)
    ensures Grows(st, r.st) && NewFilesHold(env, st, r.st, url)
    ensures r.st.valid == st.valid + {e.path}
    ensures r.st.counts.moviesAdded == st.counts.moviesAdded
    ensures r.err.Some? <==> e.showFolder == [] || e.showFolder in st.fs.files || e.seasonFolder == [] ||
                             e.seasonFolder in st.fs.files
    ensures r.err.Some? ==> r.err.value == FileNotFoundError || r.err.value == FileExistsError
    ensures r.err.Some? ==> r.st.fs.files == st.fs.files && r.st.counts == st.counts
    ensures AddsAt(st.fs, r.st.fs, Target(env, e.path), r.st.counts.episodesAdded > st.counts.episodesAdded)
    ensures r.st.counts.episodesAdded <= st.counts.episodesAdded + 1
  {
    var st1 := st.(valid := st.valid + {e.path});
    match MakeDirs(st1.fs, e.showFolder)
    case Err(x) =>
      DirsOnly(env, st, st1, url);
      Outcome(st1, Some(x))
    case Ok(fs2) =>
      match MakeDirs(fs2, e.seasonFolder)
      case Err(x) =>
        DirsOnly(env, st, st1.(fs := fs2), url);
        Outcome(st1.(fs := fs2), Some(x))
      case Ok(fs3) =>
        var st3 := st1.(fs := fs3);
        DirsOnly(env, st, st3, url);
        var w := WriteEpisode(env, st3, e, url);
        HoldsTrans(env, st, st3, w, url);
        Outcome(w, None)
  }

  /** Making folders and recording valid paths is growth that adds no file. */
  lemma DirsOnly(env: Env, st: State, r: State, url: string)
    requires r.fs.files == st.fs.files && st.fs.dirs <= r.fs.dirs && st.valid <= r.valid && r.counts == st.counts
    ensures Grows(st, r) && NewFilesHold(env, st, r, url)
  {
  }

  lemma HoldsTrans(env: Env, a: State, b: State, c: State, url: string)
    requires Grows(a, b) && NewFilesHold(env, a, b, url) && Grows(b, c) && NewFilesHold(env, b, c, url)
    requires b.valid <= c.valid
    ensures Grows(a, c) && NewFilesHold(env, a, c, url)
  {
    forall p | p in c.fs.files && p !in a.fs.files
      ensures Placed(env, c.valid, p) && c.fs.files[p] == url
    {
      if p in b.fs.files {
        var v :| v in b.valid && Target(env, v) == p;
        assert v in c.valid;
      }
    }
  }

  /** The episode file, once its folders exist: created only if nothing exists at
      its path; a creation adds the show name and counts an episode. */
  function WriteEpisode(env: Env, st: State, e: EpisodeLocation, url: string): (r: State)
    requires e.path in st.valid
    ensures Grows(st, r) && NewFilesHold(env, st, r, url)
    ensures r.valid == st.valid
    ensures Exists(st.fs, e.path) ==> r == st
    // the one file it may write is the target of the episode path: written when
    // nothing is at the path, its folder can be made, nothing is at the target
    // and it can be written; a write adds the show and counts one episode
    ensures var t := Target(env, e.path);
      var d := Dirname(e.path);
      var made := !Exists(st.fs, e.path) && (d == [] || (d !in st.fs.files && t != d)) &&
                  !Exists(st.fs, t) && env.writable(t);
      AddsAt(st.fs, r.fs, t, made) &&
      r.counts == st.counts.(episodesAdded := st.counts.episodesAdded + (if made then 1 else 0),
                             showsAdded := st.counts.showsAdded + (if made then {e.show} else {}))
  {
    if Exists(st.fs, e.path) then st
    else
      var t := Target(env, e.path);
      var c := CreateAt(st.fs, e.path, t, url, true, env.writable);
      CreatedOne(st.fs, e.path, t, url, true, env.writable);
      CreatedInFolder(st.fs, e.path, t, url, env.writable);
      var counts := if c.ok then st.counts.(showsAdded := st.counts.showsAdded + {e.show},
                                            episodesAdded := st.counts.episodesAdded + 1)
                    else st.counts;
      State(c.fs, counts, st.valid)
  }

  /** A creation that makes the parent folder first succeeds exactly when that
      folder can be made, is not the target itself, and the target is free and
      writable; it adds the target and nothing else. */
  lemma CreatedInFolder(fs: Fs, path: string, t: string, url: string, writable: Writable)
    ensures var c := CreateAt(fs, path, t, url, true, writable);
      var d := Dirname(path);
      (c.ok <==> (d == [] || (d !in fs.files && t != d)) && !Exists(fs, t) && writable(t)) &&
      AddsAt(fs, c.fs, t, c.ok)
  {
  }

  /** One `#EXTINF` entry with its stripped URL. */
  function Entry(env: Env, st: State, info: Info, url: string): (r: Outcome)
    requires AllDigits(info.season)
    ensures Grows(st, r.st) && NewFilesHold(env, st, r.st, url)
    // a movie URL records the movie path and may write only its target
    ensures url != [] && IsMovieUrl(url, env.domain) ==>
              var t := Target(env, MoviePath(env.moviesDir, env.nfkd, info));
              r.err.None? && r.st.valid == st.valid + {MoviePath(env.moviesDir, env.nfkd, info)} &&
              r.st.fs.files.Keys <= st.fs.files.Keys + {t}
    // a series URL records the episode path and may write only its target
    ensures url != [] && !IsMovieUrl(url, env.domain) && IsSeriesUrl(url, env.domain) ==>
              var e := EpisodePaths(env.tvDir, env.nfkd, info);
              r.st.valid == st.valid + {e.path} && r.st.fs.files.Keys <= st.fs.files.Keys + {Target(env, e.path)}
    // an empty URL, or one of neither kind, changes nothing
    ensures url == [] || (!IsMovieUrl(url, env.domain) && !IsSeriesUrl(url, env.domain)) ==> r == Outcome(st, None)
    ensures r.err.Some? ==> r.err.value == FileNotFoundError || r.err.value == FileExistsError
  {
    if url == [] then Outcome(st, None)
    else if IsMovieUrl(url, env.domain) then Outcome(AddMovie(env, st, info, url), None)
    else if IsSeriesUrl(url, env.domain) then AddEpisode(env, st, info, url)
    else Outcome(st, None)
  }

  /** Where one turn of the loop leaves the scan. */
  datatype Step = Next(st: State, i: nat) | Stop(st: State, err: PyError)

  function IsExtinf(line: string): bool { StartsWith(Strip(line), "#EXTINF") }

  /** One turn of the loop at index `i`. */
  function StepAt(env: Env, lines: seq<string>, i: nat, st: State): (r: Step)
    requires i < |lines|
    // an `#EXTINF` line consumes the next line and advances by 2; any other line by 1
    ensures r.Next? ==> (r.i == i + 2 <==> IsExtinf(lines[i])) && (r.i == i + 1 <==> !IsExtinf(lines[i]))
    ensures r.Next? && !IsExtinf(lines[i]) ==> r.st == st
    // lines[i + 1] past the end raises IndexError, and nothing else does
    ensures r == Stop(st, IndexError) <==> IsExtinf(lines[i]) && i == |lines| - 1
    ensures r.Stop? ==> IsExtinf(lines[i]) && (r.err == IndexError <==> i == |lines| - 1)
  {
    var line := Strip(lines[i]);
    if !StartsWith(line, "#EXTINF") then Next(st, i + 1)
    else if i + 1 >= |lines| then Stop(st, IndexError)
    else
      var info := ExtractInfo(line, env.stamp(i));
      var o := Entry(env, st, info, Strip(lines[i + 1]));
      if o.err.Some? then Stop(o.st, o.err.value) else Next(o.st, i + 2)
  }

  /** The loop from index `i` to the end of the lines or the first exception. */
  function ScanFrom(env: Env, lines: seq<string>, i: nat, st: State): Outcome
    decreases |lines| - i
  {
    if i >= |lines| then Outcome(st, None)
    else
      match StepAt(env, lines, i, st)
      case Stop(st1, e) => Outcome(st1, Some(e))
      case Next(st1, j) => ScanFrom(env, lines, j, st1)
  }

  // ---------------------------------------------------------------------------
  // Properties of the scan

  /** Every file of `r` that `st` did not have is written for a valid path and
      holds a movie or series URL of the server. */
  predicate ServerFiles(env: Env, st: State, r: State) {
    forall p :: p in r.fs.files && p !in st.fs.files ==>
      Placed(env, r.valid, p) && (IsMovieUrl(r.fs.files[p], env.domain) || IsSeriesUrl(r.fs.files[p], env.domain))
  }

  lemma GrowsTrans(env: Env, a: State, b: State, c: State)
    requires Grows(a, b) && Grows(b, c) && ServerFiles(env, a, b) && ServerFiles(env, b, c)
    ensures Grows(a, c) && ServerFiles(env, a, c)
  {
    forall p | p in c.fs.files && p !in a.fs.files
      ensures Placed(env, c.valid, p)
    {
      if p in b.fs.files {
        var v :| v in b.valid && Target(env, v) == p;
        assert v in c.valid;
      }
    }
  }

  /** One turn of the loop only adds: see Grows and ServerFiles. */
  lemma StepGrows(env: Env, lines: seq<string>, i: nat, st: State)
    requires i < |lines|
    ensures Grows(st, StepAt(env, lines, i, st).st) && ServerFiles(env, st, StepAt(env, lines, i, st).st)
  {
    var line := Strip(lines[i]);
    if StartsWith(line, "#EXTINF") && i + 1 < |lines| {
      var url := Strip(lines[i + 1]);
      var o := Entry(env, st, ExtractInfo(line, env.stamp(i)), url);
      assert o.st != st ==> url != [] && (IsMovieUrl(url, env.domain) || IsSeriesUrl(url, env.domain));
    }
  }

  /** The scan never overwrites or removes a file and only adds folders and valid
      paths; `movies_added` and `episodes_added` together count exactly the files
      it creates, each of which is a valid path holding a movie or series URL of
      the server; it deletes nothing, so the deletion counters stay. */
  lemma {:induction false} ScanGrows(env: Env, lines: seq<string>, i: nat, st: State)
    decreases |lines| - i
    ensures Grows(st, ScanFrom(env, lines, i, st).st)
    ensures ServerFiles(env, st, ScanFrom(env, lines, i, st).st)
  {
    if i < |lines| {
      StepGrows(env, lines, i, st);
      var s := StepAt(env, lines, i, st);
      if s.Next? {
        ScanGrows(env, lines, s.i, s.st);
        GrowsTrans(env, st, s.st, ScanFrom(env, lines, s.i, s.st).st);
      }
    }
  }

  /** With `create_strm` writing where it was asked to, every file the scan
      creates is one of the recorded valid paths, so the cleanup that follows
      keeps it. */
  lemma ScanNewFilesValid(env: Env, lines: seq<string>, st: State)
    requires !env.asWritten
    ensures var r := ScanFrom(env, lines, 0, st).st;
      forall p :: p in r.fs.files && p !in st.fs.files ==> p in r.valid
  {
    var r := ScanFrom(env, lines, 0, st).st;
    ScanGrows(env, lines, 0, st);
    forall p | p in r.fs.files && p !in st.fs.files
      ensures p in r.valid
    {
      var v :| v in r.valid && Target(env, v) == p;
    }
  }

  /** As written, a movie called "<digits>" without a year ("0000") is written
      at `<movies>/strm` rather than at its path `<movies>/<digits>.strm`, which
      is the one recorded as valid. */
  lemma AsWrittenMovieMisplaced(env: Env, st: State, info: Info, digits: string, url: string)
    requires env.asWritten
    requires env.moviesDir == [] || env.moviesDir[|env.moviesDir| - 1] != '/'
    requires |digits| > 0 && AllDigits(digits) && env.nfkd(digits + ".strm") == digits + ".strm"
    requires info.year == "0000" && SanitizeFilename(env.nfkd, info.name) == digits
    requires !Exists(st.fs, Join(env.moviesDir, "strm")) && env.writable(Join(env.moviesDir, "strm"))
    requires MoviePath(env.moviesDir, env.nfkd, info) !in st.fs.files
    ensures var r := AddMovie(env, st, info, url);
      r.fs.files == st.fs.files[Join(env.moviesDir, "strm") := url] &&
      MoviePath(env.moviesDir, env.nfkd, info) in r.valid &&
      MoviePath(env.moviesDir, env.nfkd, info) !in r.fs.files
  {
    var path := MoviePath(env.moviesDir, env.nfkd, info);
    DigitsMoviePath(env.moviesDir, env.nfkd, info, digits);
    AsWrittenLosesNumberedTitle(st.fs, env.nfkd, env.moviesDir, digits, url, env.writable);
    JoinLonger(env.moviesDir, digits + ".strm", "strm");
  }

  /** The path of a movie whose sanitised name is `digits` and whose year is "0000". */
  lemma DigitsMoviePath(moviesDir: string, nfkd: Normalizer, info: Info, digits: string)
    requires info.year == "0000" && SanitizeFilename(nfkd, info.name) == digits
    ensures MoviePath(moviesDir, nfkd, info) == Join(moviesDir, digits + ".strm")
  {
    var year := if info.year == "0000" then "" else " " + info.year;
    assert year == [];
    assert MovieFileName(nfkd, info) == digits + year + ".strm";
    assert digits + year == digits;
  }

  /** Joining a longer relative name gives a longer path. */
  lemma JoinLonger(d: string, n: string, m: string)
    requires |n| > |m| && n != [] && m != [] && n[0] != '/' && m[0] != '/'
    ensures Join(d, n) != Join(d, m)
  {
    assert |Join(d, n)| - |n| == |Join(d, m)| - |m|;
  }

  /** The scan ends with IndexError only when the last line is an `#EXTINF` line
      (reached as the start of an entry). */
  lemma {:induction false} ScanIndexError(env: Env, lines: seq<string>, i: nat, st: State)
    decreases |lines| - i
    ensures ScanFrom(env, lines, i, st).err == Some(IndexError) ==> |lines| > 0 && IsExtinf(lines[|lines| - 1])
  {
    if i < |lines| {
      var s := StepAt(env, lines, i, st);
      if s.Next? {
        ScanIndexError(env, lines, s.i, s.st);
      }
    }
  }

  // ---------------------------------------------------------------------------
  // The loop

  /** The movie branch of the loop body, on the objects. */
  method ProcessMovie(env: Env, info: Info, url: string, store: Store, stats: Stats, valid0: set<string>)
    returns (valid: set<string>)
    modifies store, stats
    ensures State(store.Value(), stats.Value(), valid)
            == AddMovie(env, State(old(store.Value()), old(stats.Value()), valid0), info, url)
  {
    var path := MoviePath(env.moviesDir, env.nfkd, info);
    valid := valid0 + {path};
    var ok := store.WriteStrm(path, Target(env, path), url, false, env.writable);
    if ok {
      stats.moviesAdded := stats.moviesAdded + 1;
    }
  }

  /** The series branch of the loop body, on the objects. */
  method ProcessEpisode(env: Env, info: Info, url: string, store: Store, stats: Stats, valid0: set<string>)
    returns (valid: set<string>, err: Option<PyError>)
    requires AllDigits(info.season)
    modifies store, stats
    ensures Outcome(State(store.Value(), stats.Value(), valid), err)
            == AddEpisode(env, State(old(store.Value()), old(stats.Value()), valid0), info, url)
  {
    ghost var st0 := State(store.Value(), stats.Value(), valid0);
    var e := EpisodePaths(env.tvDir, env.nfkd, info);
    assert AddEpisode(env, st0, info, url) == EpisodeAt(env, st0, e, url);
    valid := valid0 + {e.path};
    err := store.Mkdirs(e.showFolder);
    if err.Some? {
      return;
    }
    ghost var fs2 := store.Value();
    assert MakeDirs(st0.fs, e.showFolder) == Ok(fs2);
    err := store.Mkdirs(e.seasonFolder);
    if err.Some? {
      return;
    }
    assert MakeDirs(fs2, e.seasonFolder) == Ok(store.Value());
    WriteEpisodeFile(env, e, url, store, stats, valid);
  }

  /** `if not os.path.exists(strm_path)` and the episode's `create_strm`. */
  method WriteEpisodeFile(env: Env, e: EpisodeLocation, url: string, store: Store, stats: Stats, valid: set<string>)
    requires e.path in valid
    modifies store, stats
    ensures State(store.Value(), stats.Value(), valid)
            == WriteEpisode(env, State(old(store.Value()), old(stats.Value()), valid), e, url)
  {
    if !(e.path in store.files || e.path in store.dirs) {
      var ok := store.WriteStrm(e.path, Target(env, e.path), url, true, env.writable);
      if ok {
        stats.showsAdded := stats.showsAdded + {e.show};
        stats.episodesAdded := stats.episodesAdded + 1;
      }
    }
  }

  /** The body of the loop for one entry, on the objects. */
  method ProcessEntry(env: Env, info: Info, url: string, store: Store, stats: Stats, valid0: set<string>)
    returns (valid: set<string>, err: Option<PyError>)
    requires AllDigits(info.season)
    modifies store, stats
    ensures Outcome(State(store.Value(), stats.Value(), valid), err)
            == Entry(env, State(old(store.Value()), old(stats.Value()), valid0), info, url)
  {
    valid, err := valid0, None;
    if url == [] {
      return;
    }
    if IsMovieUrl(url, env.domain) {
      valid := ProcessMovie(env, info, url, store, stats, valid0);
    } else if IsSeriesUrl(url, env.domain) {
      valid, err := ProcessEpisode(env, info, url, store, stats, valid0);
    }
  }

  /** The `while i < len(lines)` loop of `process_m3u`. */
  method ScanLines(env: Env, lines: seq<string>, store: Store, stats: Stats)
    returns (valid: set<string>, err: Option<PyError>)
    modifies store, stats
    ensures Outcome(State(store.Value(), stats.Value(), valid), err)
            == ScanFrom(env, lines, 0, State(old(store.Value()), old(stats.Value()), {}))
  {
    valid, err := {}, None;
    var i := 0;
    while i < |lines|
      invariant i <= |lines| && err.None?
      invariant ScanFrom(env, lines, i, State(store.Value(), stats.Value(), valid))
                == ScanFrom(env, lines, 0, State(old(store.Value()), old(stats.Value()), {}))
      decreases |lines| - i
    {
      ghost var st := State(store.Value(), stats.Value(), valid);
      var line := Strip(lines[i]);
      if StartsWith(line, "#EXTINF") {
        var info := ExtractInfo(line, env.stamp(i));
        if i + 1 >= |lines| {
          assert StepAt(env, lines, i, st) == Stop(st, IndexError);
          err := Some(IndexError);
          return;
        }
        var url := Strip(lines[i + 1]);
        valid, err := ProcessEntry(env, info, url, store, stats, valid);
        if err.Some? {
          assert StepAt(env, lines, i, st) == Stop(State(store.Value(), stats.Value(), valid), err.value);
          return;
        }
        assert StepAt(env, lines, i, st) == Next(State(store.Value(), stats.Value(), valid), i + 2);
        i := i + 2;
      } else {
        assert StepAt(env, lines, i, st) == Next(st, i + 1);
        i := i + 1;
      }
    }
  }
}
