/** The library on disk that the scan writes to: the in-memory file system that
    stands in for `os`, the run's counters (`Stats`, addon.py) and `create_strm`. */
module Library {
  import opened Wrappers
  import opened Text
  import opened Regex
  import opened PosixPath
  import opened M3u

  /** The part of the file system the addon touches: the files with their
      contents and the directories, each by its path. */
  datatype Fs = Fs(files: map<string, string>, dirs: set<string>)

  /** `os.path.exists`. */
  predicate Exists(fs: Fs, p: string) { p in fs.files || p in fs.dirs }

  /** `os.makedirs(d, exist_ok=True)`: fails on the empty path and on a path that
      is a file; otherwise `d` is a directory afterwards. */
  function MakeDirs(fs: Fs, d: string): (r: Result<Fs>)
    ensures r.Ok? ==> r.value.files == fs.files && r.value.dirs == fs.dirs + {d}
    ensures r.Err? <==> d == [] || d in fs.files
  {
    if d == [] then Err(FileNotFoundError)
    else if d in fs.files then Err(FileExistsError)
    else Ok(fs.(dirs := fs.dirs + {d}))
  }

  /** Whether the operating system lets a file be created at a path (permissions,
      a missing parent directory): an input of the model. */
  type Writable = string -> bool

  /** What `create_strm` returns and the file system it leaves. */
  datatype Created = Created(ok: bool, fs: Fs)

  /** `create_strm(path, url, stats, create_dirs)`, writing the file at `target`:
      the parent of `path` is created first when asked (a failure returns False),
      then the file is written only if nothing exists at `target`. */
  function CreateAt(fs: Fs, path: string, target: string, url: string, createDirs: bool, writable: Writable): (c: Created)
    // it never overwrites: the files that existed keep their contents
    ensures forall p :: p in fs.files ==> p in c.fs.files && c.fs.files[p] == fs.files[p]
    // the only new file is `target`, exactly when it returns True
    ensures c.fs.files.Keys == fs.files.Keys + (if c.ok then {target} else {})
    // True means nothing existed at `target` before and the file holds the url
    ensures c.ok ==> target !in fs.files && c.fs.files[target] == url && writable(target)
    // True exactly when the parent could be made (or was not asked for) and
    // nothing existed at `target`, which could then be written
    ensures c.ok <==>
      (!createDirs || Dirname(path) == [] || MakeDirs(fs, Dirname(path)).Ok?) &&
      !Exists(fs, target) && (createDirs && Dirname(path) != [] ==> target != Dirname(path)) && writable(target)
    ensures fs.dirs <= c.fs.dirs
  {
    var parent := Dirname(path);
    if createDirs && parent != [] && MakeDirs(fs, parent).Err? then Created(false, fs)
    else
      var fs1 := if createDirs && parent != [] then MakeDirs(fs, parent).value else fs;
      if Exists(fs1, target) || !writable(target) then Created(false, fs1)
      else Created(true, fs1.(files := fs1.files[target := url]))
  }

  /** The path the source writes to: the directory of `path` joined with the
      sanitised base name of `path`. */
  function StrmTarget(nfkd: Normalizer, path: string): string {
    Join(Dirname(path), SanitizeFilename(nfkd, Basename(path)))
  }

  /** `create_strm` as written: it writes at `StrmTarget(path)`. */
  function CreateStrmAsWritten(fs: Fs, nfkd: Normalizer, path: string, url: string, createDirs: bool,
                               writable: Writable): Created
  {
    CreateAt(fs, path, StrmTarget(nfkd, path), url, createDirs, writable)
  }

  /** `create_strm` writing at `path` itself, the file the caller records as
      valid. */
  function CreateStrm(fs: Fs, path: string, url: string, createDirs: bool, writable: Writable): (c: Created)
    // True exactly when the parent could be made (or was not asked for) and
    // nothing existed at `path`, which could then be written
    ensures c.ok <==>
      (!createDirs || Dirname(path) == [] || MakeDirs(fs, Dirname(path)).Ok?) &&
      !Exists(fs, path) && (createDirs && Dirname(path) != [] ==> path != Dirname(path)) && writable(path)
    ensures c.ok ==> path in c.fs.files && c.fs.files[path] == url
  {
    CreateAt(fs, path, path, url, createDirs, writable)
  }

  /** The source's defect: a movie whose name is only digits and whose year is
      unknown gets the file name "<digits>.strm", whose digits and dot are then
      removed as a leading number, so `create_strm` writes "<dir>/strm" instead
      of the path it was given. */
  lemma AsWrittenLosesNumberedTitle(fs: Fs, nfkd: Normalizer, d: string, digits: string, url: string, writable: Writable)
    requires d == [] || d[|d| - 1] != '/'
    requires |digits| > 0 && AllDigits(digits)
    requires nfkd(digits + ".strm") == digits + ".strm"
    requires !Exists(fs, Join(d, "strm")) && writable(Join(d, "strm"))
    ensures CreateStrmAsWritten(fs, nfkd, Join(d, digits + ".strm"), url, false, writable)
              == Created(true, fs.(files := fs.files[Join(d, "strm") := url]))
  {
    var n := digits + ".strm";
    assert '/' !in n by {
      forall k | 0 <= k < |n| ensures n[k] != '/' {
        if k < |digits| { assert n[k] == digits[k]; } else { assert n[k] == ".strm"[k - |digits|]; }
      }
    }
    TargetOfJoin(nfkd, d, n);
    DigitsNameSanitized(nfkd, digits);
    CreateAtFresh(fs, Join(d, n), Join(d, "strm"), url, writable);
  }

  /** The sanitised name of "<digits>.strm" is "strm". */
  lemma DigitsNameSanitized(nfkd: Normalizer, digits: string)
    requires |digits| > 0 && AllDigits(digits)
    requires nfkd(digits + ".strm") == digits + ".strm"
    ensures SanitizeFilename(nfkd, digits + ".strm") == "strm"
  {
    var s := digits + ".strm";
    var rest := s[|digits| + 1..];
    assert rest == "strm";
    StrmClean(rest);
    assert AllAscii(s) by {
      forall k | 0 <= k < |s| ensures IsAscii(s[k]) {
        if k < |digits| { assert s[k] == digits[k]; } else { assert s[k] == ".strm"[k - |digits|]; }
      }
    }
    AsciiOnlyOfAscii(s);
    assert NumberedAt(s, 0, |digits|) by {
      forall k | 0 <= k < |digits| ensures IsDigit(s[k]) { assert s[k] == digits[k]; }
    }
    LeadingNumberRemoved(s);
    assert SubAnchored(s, LeadingNumberM, "") == rest;
    ReplaceEachKeeps(rest, InvalidChars);
    StripOfTrimmed(rest);
  }

  lemma StrmClean(b: string)
    requires b == "strm"
    ensures forall k :: 0 <= k < |b| ==> b[k] !in InvalidChars
    ensures Trimmed(b) && SpanSpaces(b, 0) == 0 && AllAscii(b)
  {
  }

  /** The as-written target of `<d>/<n>` is `<d>/<sanitised n>`. */
  lemma TargetOfJoin(nfkd: Normalizer, d: string, n: string)
    requires '/' !in n && n != []
    requires d == [] || d[|d| - 1] != '/'
    ensures StrmTarget(nfkd, Join(d, n)) == Join(d, SanitizeFilename(nfkd, n))
  {
    JoinSplits(d, n);
  }

  lemma CreateAtFresh(fs: Fs, path: string, target: string, url: string, writable: Writable)
    requires !Exists(fs, target) && writable(target)
    ensures CreateAt(fs, path, target, url, false, writable) == Created(true, fs.(files := fs.files[target := url]))
  {
  }

  // ---------------------------------------------------------------------------
  // Counters

  /** The values of the counters kept by `Stats`. */
  datatype Counts = Counts(moviesAdded: nat, showsAdded: set<string>, episodesAdded: nat,
                           moviesDeleted: nat, showsDeleted: nat, episodesDeleted: nat)

  /** `class Stats`: the counters of one run. */
  class Stats {
    var moviesAdded: nat
    var showsAdded: set<string>
    var episodesAdded: nat
    var moviesDeleted: nat
    var showsDeleted: nat
    var episodesDeleted: nat

    /** Every counter starts at zero and no show has been added. */
    constructor()
      ensures Value() == Counts(0, {}, 0, 0, 0, 0)
    {
      moviesAdded, showsAdded, episodesAdded := 0, {}, 0;
      moviesDeleted, showsDeleted, episodesDeleted := 0, 0, 0;
    }

    function Value(): Counts
      reads this
    {
      Counts(moviesAdded, showsAdded, episodesAdded, moviesDeleted, showsDeleted, episodesDeleted)
    }
  }

  // ---------------------------------------------------------------------------
  // The file system as an object

  /** The file system that the operations change in place. */
  class Store {
    var files: map<string, string>
    var dirs: set<string>

    constructor(fs: Fs)
      ensures Value() == fs
    {
      files, dirs := fs.files, fs.dirs;
    }

    function Value(): Fs
      reads this
    {
      Fs(files, dirs)
    }

    /** `os.makedirs(d, exist_ok=True)`, raising its error. */
    method Mkdirs(d: string) returns (err: Option<PyError>)
      modifies this
      ensures MakeDirs(old(Value()), d).Ok? ==> err.None? && Value() == MakeDirs(old(Value()), d).value
      ensures MakeDirs(old(Value()), d).Err? ==> err == Some(MakeDirs(old(Value()), d).error) && Value() == old(Value())
    {
      if d == [] {
        err := Some(FileNotFoundError);
      } else if d in files {
        err := Some(FileExistsError);
      } else {
        dirs := dirs + {d};
        err := None;
      }
    }

    /** `create_strm(path, url, stats, create_dirs)`, writing the file at
        `target`. */
    method WriteStrm(path: string, target: string, url: string, createDirs: bool, writable: Writable) returns (ok: bool)
      modifies this
      ensures Created(ok, Value()) == CreateAt(old(Value()), path, target, url, createDirs, writable)
    {
      var parent := Dirname(path);
      if createDirs && parent != [] {
        var err := Mkdirs(parent);
        if err.Some? {
          return false;
        }
      }
      if target in files || target in dirs || !writable(target) {
        return false;
      }
      files := files[target := url];
      return true;
    }
  }
}
