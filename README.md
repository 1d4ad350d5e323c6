# Xtream VOD library builder: a Dafny model

This project models the core of a Kodi add-on. The add-on turns an IPTV
provider's M3U playlist into a library of `.strm` files: one file per movie,
and one file per episode under a show and season folder. It then offers to
delete library files that the playlist no longer lists. Around that step it
keeps helpers for cleaning titles, a Base64 codec for cached values, a small
expiring cache made of keyed tables, and a reader and writer for a Kodi
`settings.xml` file.

The modules follow the program:

- `M3u` (m3u.dfy): `extract_info`, `sanitize_filename`, the server address
  and its domain, and the movie and episode paths built from a playlist
  entry.
- `Library` (library.dfy): the library folder as an in-memory file system
  (`Fs`: a map from path to contents and a set of folders), `os.makedirs`,
  `create_strm`, and the `Stats` counters. The classes `Library.Store` and
  `Library.Stats` hold the state that the scan changes in place.
- `Scan` (scan.dfy): the `process_m3u` loop, first as functions over a
  `State` and then as methods that update the `Store` and `Stats` objects.
  The flag `Env.asWritten` chooses where `create_strm` writes: at the
  sanitised target, as the source does, or at the path the loop built and
  recorded as valid (the correction listed under Findings).
- `Cleanup` (cleanup.dfy): `cleanup_stale_files` over a snapshot of the
  movie and TV folders. The yes/no dialogs are boolean answers.
- `Titles` (titles.dfy): `extract_title_and_year`, `is_title_a_year`,
  `sanitize` and `make_safe_filename`.
- `Base64` (base64.dfy): `encode_db` and `decode_db`, following section 4 of
  RFC 4648.
- `Cache` (cache.dfy): `write_db`, `query_db` and `clear_db` as operations on
  a map from table name to a map from key to row. The `Cache.Store` class
  holds that map.
- `Settings` (settings.dfy): `get_setting` and `set_setting` as transforms
  over the lines of the settings file.
- Support modules:
  - `Wrappers` (wrappers.dfy): `Option`, `Result`, and the Python exceptions
    the code can raise.
  - `Text` (text.dfy): ASCII character classes, `strip`, `split`,
    `replace`, and decimal digits.
  - `Regex` (regex.dfy): leftmost search and left-to-right substitution,
    driven by hand-written matchers. Each regular expression in the source
    is one matcher.
  - `PosixPath` (posixpath.dfy): `os.path.join`, `dirname` and `basename`.

Modelling choices:

- Regular expressions read `\d`, `\s`, `\b` and `isalnum` in their ASCII
  sense.
- `$` matches at the end of the string or just before a final line feed,
  and `.` does not match a line feed.
- Clock readings, the cache period in seconds and the fallback timestamp of
  `extract_info` are integer parameters.
- Unicode normalisation (NFKD), transliteration (`unidecode`), the MD5 key
  and write permission are function-typed parameters.

## Model

| member | source | states |
|---|---|---|
| M3u.YearIn | addon.py:161-162 | The year is the four digits inside the first `(dddd)` of the line, or the default when there is none. It is always the default or four digits. |
| M3u.MarkerIn | addon.py:165-169 | Season or episode: the two digits after the first case-sensitive marker letter that is followed by two digits, otherwise `"01"`. Always two digits. |
| M3u.ExtractInfo | addon.py:130-179 | The year is always four digits. Season and episode are always two digits. |
| M3u.TvgNameFirst | addon.py:135-138 | The `tvg-name` value is the text of the leftmost `tvg-name="…"` with at least one character inside. There is none exactly when no such text exists. |
| M3u.QuotedNameFirst | addon.py:150-154 | The fallback name is the stripped text of the leftmost `"…"` with at least one character inside. There is none exactly when no such text exists. |
| M3u.NameBeforeFirstYear | addon.py:135-147 | With a `tvg-name`, the name is the text after the first `" - "`, cut before the first (spaces and) `(dddd)` and trimmed. With no year group, it is the whole trimmed text. |
| M3u.NoQuotesUnknownTitle | addon.py:150-158 | A line without any double quote is named `"Unknown Title <ts>"`. |
| M3u.ExtractNameTrimmed | addon.py:135-158 | The name is always trimmed. It is empty only when the first quoted text of the line is empty. |
| M3u.AsciiOnly | addon.py:225-226 | Keeps only ASCII characters, and only characters that were in the input. |
| M3u.ReplaceEach | addon.py:229-232 | Every invalid character is replaced one-for-one by `-`. Length and every other character are kept. |
| M3u.SanitizeFilenameSafe | addon.py:222-233 | The sanitised name is ASCII, trimmed, and contains none of `/ \ : * ? " < > \|`. |
| M3u.LeadingNumberRemoved | addon.py:227-228 | A leading `spaces digits . spaces` is removed once, and the rest is kept. Without such a prefix the name is unchanged. |
| M3u.ServerUrl | addon.py:35-37 | The server address always starts with `http://`. An address that already does is kept as it is. |
| M3u.GetServerDomain | addon.py:306-308 | An address without `://` is its own domain. |
| M3u.DomainAfterScheme | addon.py:306-308 | For `scheme://rest` with a single `://`, the domain is `rest`. |
| M3u.ShowNameCuts | addon.py:349-356 | The show name is the entry name cut at the first ` S<n> E<n>` tail, then cut at the first `(dddd)` tail. |
| M3u.SeasonNotPadded | addon.py:359 | The season folder number drops a leading zero (`"02"` gives `2`), and the two-digit field is kept otherwise. |
| M3u.MoviePathSplits | addon.py:338-341 | The movie path lies directly in the movies folder. Its file name is the sanitised name, plus the year unless it is `"0000"`, plus `.strm`. |
| M3u.EpisodePathSplits | addon.py:349-361 | The episode file is `<show> S<ss>E<ee>.strm` in `Season <n>`. That folder lies in `<show>[ <year>]`, which lies in the TV folder. |
| PosixPath.Join | addon.py:193-196 | An absolute second part replaces the first. Otherwise the result starts with the first part and ends with the second. |
| PosixPath.Basename | addon.py:193-196 | The base name is a suffix of the path and contains no `/`. |
| PosixPath.Dirname | addon.py:193-196 | The folder name is a prefix of the path. |
| PosixPath.JoinSplits | addon.py:193-196 | Joining a folder and a plain name splits back into that folder and that name. |
| Library.MakeDirs | addon.py:185-190 | Creating folders fails exactly on the empty path or on a path that is a file. Otherwise the path is a folder afterwards, and nothing else changes. |
| Library.CreateAt | addon.py:181-210 | Writing never changes or removes an existing file. It adds exactly the target when it succeeds. It succeeds exactly when the parent folder could be made (if asked) and is not the target itself, and nothing was at the target, which is writable. |
| Library.CreateStrm | addon.py:181-210 | `create_strm` returns true exactly when the parent folder could be made (if asked), the path did not exist, and it is writable. A true return means the path now holds the URL. |
| Library.AsWrittenLosesNumberedTitle | addon.py:192-196 | As written, `create_strm` for `<dir>/1917.strm` writes the file `<dir>/strm`. |
| Library.DigitsNameSanitized | addon.py:222-233 | `sanitize_filename("<digits>.strm")` is `"strm"`. |
| Library.Stats.constructor | addon.py:47-56 | All counters start at zero and the set of added shows starts empty. |
| Library.Store.Mkdirs | addon.py:185-190 | The folder store changes as `MakeDirs` says, or stays unchanged and reports the error. |
| Library.Store.WriteStrm | addon.py:181-210 | The store and the return value are those of `CreateAt` for the given path and target. |
| Scan.CreatedOne | addon.py:198-207 | A successful creation adds exactly one file. A failed one adds none. |
| Scan.CreatedInFolder | addon.py:184-207 | A creation that first makes the parent folder succeeds exactly when that folder is empty or can be made and is not the target, and the target is free and writable. It adds the target and nothing else. |
| Scan.AddMovie | addon.py:337-345 | The movie path joins the valid paths whether or not a file is written. The only file that can appear is the target of the movie path: it appears, holding the URL, exactly when nothing was there and it is writable, and then `movies_added` goes up by one. No other counter and no folder changes. |
| Scan.AddEpisode | addon.py:347-370 | The episode path joins the valid paths. An error is raised exactly when the show or season folder is empty or is a file, and then no file or counter changes. Otherwise the only file that can appear is the target of the episode path, counted as one episode. Movie counts stay. |
| Scan.WriteEpisode | addon.py:367-370 | An episode whose path exists changes nothing. Otherwise the target of the path is written exactly when the parent folder is empty or can be made and is not the target, and the target is free and writable. A write adds the show name and one episode, and nothing else changes. |
| Scan.Entry | addon.py:336-370 | An entry with an empty URL, or one that is neither a movie nor a series URL of the server, changes nothing. A movie URL records the movie path and can add only its target, with no error. A series URL records the episode path and can add only its target. |
| Scan.StepAt | addon.py:330-373 | An `#EXTINF` line moves the index on by 2 and any other line by 1. An `#EXTINF` on the last line stops with `IndexError`, and no other stop is an `IndexError`. |
| Scan.ScanGrows | addon.py:329-373 | Over the whole playlist, no file is changed or removed. Every new file is counted once, is the file written for some valid path (its target), and holds a movie or series URL of the server. |
| Scan.ScanNewFilesValid | addon.py:329-373 | When `create_strm` writes at the path it is given, every file the scan creates is itself a valid path, so the cleanup that follows keeps it. |
| Scan.AsWrittenMovieMisplaced | addon.py:192-196 | As written, a movie named `<digits>` without a year is written at `<movies>/strm`. Its valid path `<movies>/<digits>.strm` stays missing. |
| Scan.ScanIndexError | addon.py:332-334 | The scan fails with `IndexError` only when the last line is an `#EXTINF` line. |
| Scan.ProcessMovie | addon.py:337-345 | Updates the store, the counters and the valid set exactly as `AddMovie`. |
| Scan.ProcessEpisode | addon.py:347-370 | Updates the store, the counters and the valid set exactly as `AddEpisode`. |
| Scan.WriteEpisodeFile | addon.py:367-370 | Updates the store and counters exactly as `WriteEpisode`. |
| Scan.ProcessEntry | addon.py:336-370 | Updates the store, the counters and the valid set exactly as `Entry`. |
| Scan.ScanLines | addon.py:329-373 | The loop leaves the store, counters, valid set and error that the scan over all lines gives. |
| Cleanup.StaleFilesExactly | addon.py:239-244 | The files flagged in a folder are exactly its `.strm` entries whose full path is not valid. |
| Cleanup.ShowFlaggedIff | addon.py:257-280 | A show folder is flagged empty exactly when every season subfolder was empty or held a stale episode. |
| Cleanup.TvNeedsConfirmation | addon.py:282-304 | TV paths are removed only after the episode question was answered yes. Season and show folders also need their own yes. Without a yes, no TV counter moves. |
| Cleanup.NothingWithoutConfirmation | addon.py:235-304 | Every removed path is a stale movie, a stale episode, an empty season or a flagged show, each behind its own yes. A no leaves its counters at zero. |
| Cleanup.AllStaleRemoved | addon.py:246-286 | When both questions are answered yes and no stale entry is a folder, there is no error. The removed paths begin with every stale movie and then every stale episode, in order, and both are counted. |
| Cleanup.CollectStale | addon.py:239-244 | The collecting loop yields exactly the stale files, in listing order. |
| Cleanup.ScanSeason | addon.py:263-276 | One season gives its stale episodes, whether it is an empty folder, and whether it clears the empty-show flag. |
| Cleanup.ScanShow | addon.py:261-280 | One show gives its stale episodes, its empty seasons and the final empty-show flag. |
| Cleanup.ScanShows | addon.py:257-280 | The nested loops give exactly the stale episodes, empty seasons and flagged shows. |
| Cleanup.RemoveEach | addon.py:284-286 | Removes files in order and stops at the first folder with `IsADirectoryError`. |
| Cleanup.RemoveShows | addon.py:297-304 | Removes those flagged show folders that are empty by then, skipping the others. |
| Cleanup.CleanupTv | addon.py:282-304 | The TV part never deletes movies. Its only error is `IsADirectoryError`. It counts at most the stale episodes and the flagged shows. With a yes to the episode question and no folder among the stale episodes, it removes all of them first, in order, and counts them, with no error. |
| Cleanup.CleanTv | addon.py:282-304 | Removes what `CleanupTv` says and adds its counts to the episode and show counters. No other counter changes. |
| Cleanup.CleanupStaleFiles | addon.py:235-304 | Removes what the cleanup says and adds its counts to the three deletion counters. The added-counters stay. |
| Titles.ExtractTitleAndYear | Utils.py:364-436 | The year is empty or four digits, and the title is trimmed. |
| Titles.YearFound | Utils.py:372-377 | With a `(dddd)` in the input, the year is its first such group and the title is cleaned with that year. |
| Titles.YearNotFound | Utils.py:372-377 | Without a `(dddd)`, the result is the standalone-year fallback applied to the cleaned title. |
| Titles.FallbackYear | Utils.py:428-434 | Without a whole-word four-digit number the title is kept and the year is empty. Otherwise the year is the first such number, and the title is the text with every `\s*\b\d{4}\b` removed, then stripped. No whole-word four-digit number is left in the title. |
| Titles.NoYearWordLeft | Utils.py:434 | Removing every `\s*\b\d{4}\b` and stripping leaves no whole-word four-digit number, because a removal ends before a non-word character and so never joins two runs of word characters. |
| Titles.TitleShape | Utils.py:415-434 | For a single-line input, the title contains no `\|` and no `-`, is trimmed, and has no two whitespace characters in a row. |
| Titles.CleanTitleShape | Utils.py:415-424 | After the suffix cuts and the collapse, there is no `\|`, no `-` and no doubled whitespace. |
| Titles.SistersExtracted | Utils.py:396-434 | `"1000-lb Sisters (US) S02 E01"` yields title `""` and year `"1000"`: the `-` suffix cut runs before the year fallback. |
| Titles.IsTitleAYearIff | Utils.py:358-362 | True exactly when the trimmed title is four digits, or four digits in parentheses. |
| Titles.SanitizeAsWritten | Utils.py:341-346 | As written, `sanitize` raises `NameError` on every input. |
| Titles.SanitizeSafe | Utils.py:346-355 | The output is ASCII and contains none of `<>:"/\|?*`. For an ASCII transliteration it is also trimmed, with no runs of whitespace. |
| Titles.SanitizeMayBeEmpty | Utils.py:350-355 | A name made only of illegal characters sanitises to the empty string. No placeholder is used. |
| Titles.MakeSafeFilenameShape | Utils.py:451-457 | Every output character is alphanumeric or `.`, and there is no trailing `.`. Each kept position maps its input character, and only dots and non-alphanumerics were dropped from the end. |
| Titles.MakeSafeFilenameIdempotent | Utils.py:451-457 | Applying it twice equals applying it once. |
| Base64.RoundTrip | Utils.py:92-104 | For every ASCII string, encoding succeeds and decoding the result gives the string back. |
| Base64.EncodeDb | Utils.py:92-97 | Encoding succeeds exactly on ASCII strings. |
| Base64.EncodeDbShape | Utils.py:92-97 | The encoding has length 4·⌈n/3⌉ and uses only the RFC 4648 alphabet, with `=` only in the last two places. |
| Base64.DecodeEncodeBytes | Utils.py:95-102 | Decoding the encoding of any byte sequence gives it back. |
| Base64.EncodedLength | Utils.py:95 | The encoding of n bytes has 4·⌈n/3⌉ characters. |
| Base64.EncodedAlphabet | Utils.py:95 | Alphabet characters only, except `==` after a last lone byte and `=` after a last pair of bytes. |
| Cache.Stored | Utils.py:141-153 | The row expires at now plus the cache period. Strings are tagged `str`. A list or dict is tagged `json` exactly when its dump succeeds and is ASCII, and `list` otherwise. The stored text decodes back to the value. An ASCII failure raises `UnicodeError` and any other value raises `UnboundLocalError`. |
| Cache.EncodeRow | Utils.py:141-153 | Computes the row that `Stored` describes. |
| Cache.AfterWrite | Utils.py:133-185 | The write is an upsert: afterwards the table holds exactly the new row for the key. A failed write of a string or structure changes nothing. |
| Cache.Served | Utils.py:222-231 | A row tagged `str` gives back its decoded text, and one tagged `json` or `list` gives back its decoded text with that tag. For these tags a text that does not decode raises. Any other tag gives `None`. |
| Cache.Lookup | Utils.py:187-231 | A missing table or key gives `None` and changes nothing. A fresh row is served as `Served` says and leaves the tables unchanged. A value comes back only from a fresh row. A stale row gives `None` and is deleted. |
| Cache.ReadBack | Utils.py:142-231 | A string written at time w is read back at time t exactly when t < w + period < t + period at read. Otherwise the read gives `None`. |
| Cache.ReadBackStructured | Utils.py:142-231 | A list or dict written at time w is read back under the same timing condition. It comes back as its ASCII dump tagged `json` when the dump succeeded, and otherwise as its `str()` text tagged `list`. Otherwise the read gives `None`. |
| Cache.SameSecondMisses | Utils.py:151-221 | Reading in the same second with the same period never hits, because the expiry is not strictly below now + period. The row is deleted. |
| Cache.WriteTwice | Utils.py:163-179 | Writing the same row twice is the same as writing it once. |
| Cache.ClearedMisses | Utils.py:106-231 | After clearing all tables, every lookup misses and changes nothing. |
| Cache.Cleared | Utils.py:106-131 | Without a name every table is emptied. With a name only that table is emptied. A name that is not a table raises `OperationalError`, unless there are no tables. |
| Cache.Store.constructor | Utils.py:106-131 | The store starts with no tables. |
| Cache.Store.Write | Utils.py:133-185 | The tables and the result are those of `AfterWrite` under the digest of the URL. |
| Cache.Store.Query | Utils.py:187-231 | The tables and the result are those of `Lookup` under the digest of the URL. |
| Cache.Store.Clear | Utils.py:106-131 | The tables and the result are those of `Cleared`. |
| Settings.ValueInMeaning | kodi_stub.py:81 | The value of a line is the text from just after the first `>` up to the next `>`, the next `</` or the end of the line, whichever comes first. A line with no `>` raises `IndexError`. |
| Settings.FoundErr | kodi_stub.py:77-81 | The lookup raises exactly when some matching line has no `>`. |
| Settings.FoundNone | kodi_stub.py:74-81 | The lookup finds nothing exactly when no line contains the key. |
| Settings.FoundLast | kodi_stub.py:79-81 | When the lookup succeeds, its value comes from the last line that contains the key. |
| Settings.Convert | kodi_stub.py:82-93 | `string` gives the text, or `"None"` when nothing was found. `bool` maps `true`/`false` in any case and keeps any other value. `int` parses or raises `ValueError`, and raises `TypeError` on a missing value. Other types return the raw value. |
| Settings.IntRoundTrip | kodi_stub.py:89-90 | Parsing the decimal text of any integer gives that integer back. |
| Settings.GetSetting | kodi_stub.py:73-93 | The loop that overwrites its result on each matching line returns the lookup converted by type. |
| Settings.GetLine | kodi_stub.py:79-81 | A well-formed setting line for the name matches the key, and its value is read back exactly. |
| Settings.AssembleErr | kodi_stub.py:54-58 | Rewriting a matched line raises `IndexError` exactly when the line has fewer than two double quotes. |
| Settings.AssembleHead | kodi_stub.py:54-60 | The rewritten line keeps the text up to and including its first `"`, followed by the new name and a closing `"`. |
| Settings.AssembleTail | kodi_stub.py:56-60 | When no `<` follows the second quote, the rewritten line ends with `>`, the new value and `</setting>` plus a line feed. |
| Settings.EditedErr | kodi_stub.py:52-62 | Editing raises exactly when some line containing the name cannot be rewritten. |
| Settings.EditedLines | kodi_stub.py:52-67 | The output has as many lines as the input, in order. Each line is its rewrite or is passed through unchanged. |
| Settings.EditedUpdate | kodi_stub.py:63-65 | The update flag is set exactly when some output line differs from its input line. |
| Settings.FileWritten | kodi_stub.py:68-71 | The file is written only when some line changed, and then with the concatenated output lines. |
| Settings.SetSetting | kodi_stub.py:46-71 | The loop's result is the file text described by `FileWritten`, or its error. |
| Settings.SetLine | kodi_stub.py:53-62 | Setting a name on its own well-formed line gives the same line with the new value. |
| Settings.SetThenGet | kodi_stub.py:46-93 | After setting a name in a file whose lines that mention it are well-formed setting lines, reading it gives the new value. If no line mentions it, the read finds nothing. |

## Left out

- Network fetching (`curl_request`, `download_m3u` and the TMDB helpers) is not modelled. The playlist is given as its lines.
- Kodi notifications, progress updates, logging and log rotation are not modelled. Dialog answers are boolean inputs (`Cleanup.Answers`).
- `should_download_file` is not modelled: it depends only on the clock and on settings.
- Clock readings are integer parameters: the `extract_info` fallback timestamp and `now` in the cache.
- `cache_days * 86400.0` is float arithmetic and is not modelled. The cache period is an integer number of seconds, and `round` on the expiry is an identity on integers.
- `db_delete_expired` is not modelled. Its logging call passes two arguments to a one-argument function, and its handler names an undefined exception, so it raises instead of sweeping.
- NFKD normalisation, `unidecode`, `remove_non_ascii`, MD5 hashing and the write permission of a path are function-typed parameters. `json.dumps` is an optional result, and the `str()` text of a structure is a given string.
- `json.loads` and `eval` on a cached value are not modelled. A `json` or `list` row gives back its decoded text with its tag (`Cache.Parsed`).
- SQLite mechanics are not modelled: connections, commits, `VACUUM` and SQL text. A table is a map from key to row.
- `asyncio`, `aiohttp`, `aiofiles` and the unused thread and scheduler imports are not modelled. The scan is sequential.
- The real filesystem is replaced by in-memory state. `os.makedirs`, `os.path.exists` and the file write use `Library.Fs`, and `os.listdir` is a snapshot (`Cleanup.Snapshot`).
- The set-up at the head of `process_m3u` is not modelled: the two `os.makedirs` calls and the `sys.exit(1)` on an empty playlist file. The scan starts from given folders and lines. Because of that exit, the source never reaches the cleanup with an empty playlist, which would find every library file stale.
- Start-up is not modelled: module-level settings loading, `util_variables`, `folder_exists`, the mocked `xbmc` module, `Monitor` and the `sys.modules` set-up.
- The `float` branch of `get_setting` returns the raw text (`Settings.FloatValue`): float parsing is not modelled.
- Unicode whitespace, digits, letters and case are read in their ASCII sense.
- Base64.DecodeDb: decodes canonical input only. `base64.b64decode` without `validate=True` first drops characters outside the alphabet, so `"QQ==\n"` decodes to `"A"` in the source, while the model reports an error. Every text that `encode_db` writes is canonical, so the cache round trips are unaffected.
- Library.MakeDirs: adds only the folder asked for, not its missing ancestors, and does not fail when an ancestor is a file.
- `readlines` is not modelled: the settings file is its list of lines. `Settings.SetThenGet` is stated on the edited lines rather than on the written file read back.
- Settings.SetThenGet: requires every line that mentions the name to be a well-formed setting line, and the name and value to hold no `"`, `<` or `>`. Other lines and values make the rewrite shape-dependent.
- M3u.NameBeforeFirstYear: requires the line to hold no line feed, because `.` in the source pattern stops at a line feed. Titles.TitleShape and Titles.CleanTitleShape need a single-line title for the same reason.
- Scan.ScanGrows: states that files only grow, are counted and sit at the target of a valid path, not the final contents of the library as one closed form. Which file each entry adds is stated by `Scan.AddMovie`, `Scan.AddEpisode` and `Scan.WriteEpisode`.
- M3u.ExtractInfo: states only the shapes of the fields. The year and markers are stated by `M3u.YearIn` and `M3u.MarkerIn`. The `tvg-name` text and the quoted text are stated by `M3u.TvgNameFirst` and `M3u.QuotedNameFirst`, and the name cut from them by `M3u.NameBeforeFirstYear`. The choice between them (the quoted text only when there is no `tvg-name` text or it gives an empty name) is stated only by the definition of `M3u.ExtractName`.
- Titles.ExtractTitleAndYear: states only the shapes of the result. Its values are stated by `Titles.YearFound`, `Titles.YearNotFound` and `Titles.TitleShape`.

## Findings

| source | as written | input that shows it | evidently intended | confidence | as-written member | corrected member |
|---|---|---|---|---|---|---|
| addon.py:192-196 | `create_strm` writes at `dirname(path)` joined with `sanitize_filename(basename(path))`, and the leading-number rule treats `1917.` as a list number | the movie `1917` with year `0000` gets the path `<movies>/1917.strm` but is written as `<movies>/strm` | write the file at the path that was built and added to the valid set | not executed | Scan.AsWrittenMovieMisplaced | Scan.ScanNewFilesValid |
| Utils.py:346 | `sanitize` calls `unidecode`, which is only imported inside `remove_non_ascii` | any name, for example `"Movie"`, raises `NameError` | transliterate with `unidecode`, then clean the name | not executed | Titles.SanitizeAsWritten | Titles.Sanitize |
