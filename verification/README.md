# plex-formatter in Dafny

A model of the core of plex-formatter, a daemon that watches a download
folder. For every file that appears it does three things:

- It derives a clean, lower-case file name. Dots and symbols become spaces, and the name is cut at the first release tag such as `1080p` or `bluray`.
- It decides where the file belongs in a Plex library:
  - `Show/Season NN/Show - sNNeNN.ext` for episodes;
  - `Movie (YYYY)/Movie (YYYY).ext` for films;
  - a misc folder for other videos;
  - a non-video folder for everything else.
- Once the file has been quiet for a delay, it moves the file there.

Two revisions of the program are modelled side by side:

- `plexformatter.py` is the newer revision. Its tick deletes files with a deletable extension and forgets every entry it has acted on. It also has a janitor that removes empty folders from the watch folder.
- `plexFormatter.py` is the older revision. Its formatter removes symbols inside dot- and space-separated parts. Its scan registers video files only, and its tick moves every due entry but never forgets any.

Modules:

| module | file | what |
|---|---|---|
| `Strings` | strings.dfy | ASCII `lower`, `title`, `isalnum`, `split`/`join` on one character, `find`, `s[:k]` with negative `k`, `replace` |
| `Paths` | paths.dfy | `os.path.join` and `os.path.basename` on POSIX paths |
| `Settings` | settings.dfy | `FormatterConfig`: the extension and tag lists (as sets), the roots and the 60-second delay |
| `Optional` | option.dfy | the result of a Python function that may return `None` |
| `FileFormatter` | formatter.dfy | `FileFormatter` of the newer revision |
| `LegacyFormatter` | legacy_formatter.dfy | the parts of the older `FileFormatter` that differ |
| `Registry` | registry.dfy | `TrackedFile`, watchdog events, the effects of a tick, `on_modified`'s loop |
| `Daemon` | daemon.dfy | the tracked-file list of the newer `Daemon` as state transitions |
| `LegacyDaemon` | legacy_daemon.dfy | the same for the older `Daemon` |
| `DirTree` | dirtree.dfy | the directory walks over an abstract tree: `find_files`, `is_empty_directory_tree`, `find_empty_directories`, `clean_watch_folder` |
| `TestExamples`, `DaemonExamples` | examples.dfy, daemon_examples.dfy | the cases of PlexFormatterTest.py, proved against the model |

The model uses these conventions:

- The clock is an integer parameter `now`.
- The file system is a `DirTree.Node` tree. A `Dir`'s children are in `os.listdir` order, and a missing path is `None`.
- A tick returns the new list together with the `Delete` and `Move` actions it would perform, in order.
- `on_modified` is the same loop in both revisions; only its log level differs. `Daemon.OnModified` models plexFormatter.py:142-148 as well.

## Model

| member | source | states |
|---|---|---|
| Strings.Lower | plexformatter.py:97 | same length; every character is lower-cased and nothing else changes |
| Strings.Title | plexformatter.py:121 | a letter is upper-cased exactly when it does not follow a letter, and lower-cased otherwise; other characters stay |
| Strings.Split | plexformatter.py:63 | at least one part; no part holds the separator; one part exactly when the separator is absent |
| Strings.JoinSplit | plexformatter.py:100-108 | joining the parts of a split on the same separator gives back the string |
| Strings.SplitJoin | plexformatter.py:100-108 | splitting a join of separator-free parts gives back the parts |
| Strings.SplitAround | plexformatter.py:100 | splitting text around one separator gives the parts before it followed by the parts after it |
| Strings.Find | plexformatter.py:121 | the result is -1 or an occurrence, and no occurrence lies before it |
| Strings.SlicePrefix | plexformatter.py:121 | `s[:k]` is a prefix of `s`; its length is `k` when `0 <= k <= len(s)`, otherwise `len(s)+k` clamped at 0 |
| Strings.ReplaceChar | plexFormatter.py:86 | same length; exactly the occurrences of the old character are replaced |
| Paths.PathJoin | plexformatter.py:135-136 | the result ends with the second component, and starts with the first unless the second is absolute |
| Paths.PathJoinComponents | plexformatter.py:122-125 | for a non-empty first path and a slash-free name, the join reads back as the first path's components followed by the name and nothing else, whether or not the first path ends in `/` |
| Paths.PathJoinAll | plexformatter.py:122-125 | the result ends with the last component, and starts with the root when no component is absolute |
| Paths.PathJoinAllComponents | plexformatter.py:122-125 | joining components onto a non-empty root reads back as the root's components followed by exactly the given ones, so each can be recovered by splitting on `/` |
| Paths.PathJoinAllCons | plexformatter.py:122-125 | joining a first name and then the rest equals joining all of them at once |
| Paths.Basename | plexformatter.py:172 | the result is slash-free, ends the path, and is preceded by a `/` when shorter than the path |
| FileFormatter.SplitExtension | plexformatter.py:42-47 | name and extension concatenate to the input; the extension is empty exactly when there is no dot; otherwise it is a dot and dot-free text |
| FileFormatter.SplitExtensionOfDotted | plexformatter.py:42-47 | for `name.ext` with dot-free `ext`, the extension is `.ext` whatever dots `name` holds |
| FileFormatter.IsVideoByExtensionText | plexformatter.py:49-53 | a file is a video exactly when it has a dot and the lower-cased text after the last dot is a video extension |
| FileFormatter.FirstYearIndex | plexformatter.py:64-66 | the index of the first four-digit non-tag word at or after `from`; no earlier word qualifies, and `None` means none does |
| FileFormatter.FindYear | plexformatter.py:62-67 | the first qualifying word after the first word, or `None` exactly when no word after the first qualifies |
| FileFormatter.ScanEpisode | plexformatter.py:73-85 | a result is a season marker and an episode marker; `None` exactly when the scan ends without one |
| FileFormatter.LastSeasonIsLast | plexformatter.py:74-76 | the season the loop holds after some words is the last `sNN` word among them, or the starting value when there is none |
| FileFormatter.LastEpisodeIsLast | plexformatter.py:74-78 | the episode the loop holds after some words is the last `eNN` word among them, or the starting value when there is none |
| FileFormatter.ScanEpisodeValue | plexformatter.py:73-85 | `None` exactly when the loop never stops; otherwise the value at the first word where it stops: that word's halves when it is `sNNeNN`, else the last season and episode words up to it |
| FileFormatter.FindEpisodeInfo | plexformatter.py:69-85 | `None` exactly when no word is `sNNeNN` and the words do not hold both an `sNN` and an `eNN`; otherwise the value at the first stop, as above |
| FileFormatter.ChangeSymbols | plexformatter.py:87-93 | with a one-character replacement: same length, alphanumerics kept, every other character replaced |
| FileFormatter.ChangeSymbolsAppend | plexformatter.py:87-88 | replacing symbols distributes over concatenation |
| FileFormatter.NonEmpty | plexformatter.py:100 | every kept part is a non-empty part of the input, and every non-empty part is kept |
| FileFormatter.NonEmptyAppend | plexformatter.py:100 | dropping empty parts distributes over concatenation, and keeps a single part exactly when it is non-empty: every non-empty part stays, as often as it occurs and in order |
| FileFormatter.Tokens | plexformatter.py:100 | every word is non-empty, space-free, and made of alphanumeric characters of the input |
| FileFormatter.TokensAround | plexformatter.py:100 | a non-alphanumeric character splits the words: those of the text before it, then those of the text after it, and none of its own |
| FileFormatter.TokensOfRun | plexformatter.py:100 | a non-empty run of alphanumerics is exactly one word; the empty text has none |
| FileFormatter.TakeUntilTag | plexformatter.py:101-106 | the longest prefix without a tag: a prefix, tag-free, followed by a tag when shorter |
| FileFormatter.FormattedWords | plexformatter.py:95-108 | the kept words are a prefix of the lower-cased name's words, end at the first tag, and are non-empty lower-case alphanumeric non-tags |
| FileFormatter.FormatFilename | plexformatter.py:95-110 | the result splits back into the kept words joined by single spaces and the original extension |
| FileFormatter.FormattedSplit | plexformatter.py:108-110 | a name of formatted words plus an extension splits back into exactly those two |
| FileFormatter.FormatFilenameIdempotent | plexformatter.py:95-110 | formatting a formatted name changes nothing |
| FileFormatter.ShowNameAfterText | plexformatter.py:121 | when the season marker first occurs after other text, the show name is that text without its last character, title-cased |
| FileFormatter.ShowNameMarkerFirst | plexformatter.py:121 | when the name starts with the marker, `find` gives 0 and the slice bound is -1, so the show name is the whole name less its last character, title-cased |
| FileFormatter.MovieName | plexformatter.py:130 | the movie name ends with `(YYYY)` |
| FileFormatter.MovieNameAfterText | plexformatter.py:130 | when the year first occurs at `k`, the movie name is the text before `k`, title-cased, then `(year)` |
| FileFormatter.Classify | plexformatter.py:112-136 | non-video exactly when not a video; show exactly for a video with episode info; movie exactly for a video with a year and no episode info; each layout carries the parts the path uses |
| FileFormatter.ShowPath | plexformatter.py:122-125 | the episode path ends with the extension |
| FileFormatter.ShowPathComponents | plexformatter.py:122-125 | under a non-empty root, the show path reads back as the root's components, then the show name, `Season ` plus the marker without its `s`, and `Show - sNNeNN.ext` |
| FileFormatter.MoviePath | plexformatter.py:131-133 | the movie path ends with the extension |
| FileFormatter.MoviePathComponents | plexformatter.py:131-133 | under a non-empty root, the movie path reads back as the root's components, then the movie name and the movie name plus the extension |
| FileFormatter.DestinationKeepsExtension | plexformatter.py:112-136 | every destination ends with the file's extension; misc and non-video destinations end with the whole file name |
| FileFormatter.LayoutUnderRoot | plexformatter.py:112-136 | given a relative file name, a slash-free show name and a movie name that does not start with `/`, the path starts with its layout's configured root |
| FileFormatter.FormattedDestinationUnderRoot | plexformatter.py:172-173 | the destination of a formatted name always lies under its layout's root |
| LegacyFormatter.IsVideoAgrees | plexFormatter.py:44-48 | the older `is_video` (slice off the dot) agrees with the newer one (`removeprefix`) on every name |
| LegacyFormatter.RemoveSymbolsKeepsAlnum | plexFormatter.py:78-79 | `remove_symbols` keeps exactly the alphanumeric characters, in order |
| LegacyFormatter.RemoveSymbolsIsChangeSymbols | plexFormatter.py:78-79 | `remove_symbols` equals the newer `change_symbols` with an empty replacement |
| LegacyFormatter.RemoveSymbolsAll | plexFormatter.py:86 | one cleaned part per part, each cleaned by `remove_symbols` |
| LegacyFormatter.Parts | plexFormatter.py:86 | at least one part; every part is alphanumeric |
| LegacyFormatter.FormattedWords | plexFormatter.py:81-94 | the kept parts are a prefix of the cleaned parts, end at the first tag, and are lower-case alphanumeric non-tags |
| LegacyFormatter.FormatFilename | plexFormatter.py:81-96 | the result splits back into the kept parts joined by spaces and the original extension |
| LegacyFormatter.FormatFilenameIdempotent | plexFormatter.py:81-96 | formatting a name this revision has formatted changes nothing |
| LegacyFormatter.RevisionsKeepSameCharacters | plexFormatter.py:86 | before truncation, the parts of both revisions concatenate to the same characters: the alphanumerics of the name |
| LegacyFormatter.DestinationsAgree | plexFormatter.py:98-122 | show and movie paths equal the newer ones; misc and non-video paths are root plus name, which equals the newer join when the root ends in `/` and the name is relative |
| LegacyFormatter.DestinationKeepsExtension | plexFormatter.py:98-122 | every destination of this revision ends with the file's extension |
| Registry.Touch | plexformatter.py:159-162 | only the first entry with the path gets the new timestamp; every other entry is unchanged |
| Registry.AppendEachIsConcat | plexformatter.py:182-183 | appending entries one by one equals appending the whole list |
| Daemon.NewEntry | plexformatter.py:169-174 | the entry keeps the path and time, formats the base name, and derives the destination from the formatted name |
| Daemon.AddFile | plexformatter.py:169-174 | appends exactly one entry and leaves the earlier ones as they were |
| Daemon.OnCreated | plexformatter.py:164-167 | directory events change nothing; file events add the path |
| Daemon.OnModified | plexformatter.py:156-162 | directory events change nothing; a file event refreshes the first entry with that path and leaves every other entry unchanged |
| Daemon.AddFileTwiceTracksTwice | plexformatter.py:169-174 | registering one path twice tracks it twice: no deduplication |
| Daemon.NewEntryShape | plexformatter.py:169-174 | a new entry's name is already formatted, and its destination keeps the extension and lies under its layout's root |
| Daemon.Entries | plexformatter.py:176-183 | one entry per path, in order |
| Daemon.FindFiles | plexformatter.py:176-185 | appends one entry per path of the walk, in walk order, after the untouched old entries; for an existing tree that is one entry per file at every depth |
| Daemon.ActionFor | plexformatter.py:216-220 | delete exactly the deletable files; move the others to their destination |
| Daemon.NotDue | plexformatter.py:211-223 | the kept entries form a subsequence of the list, none is due, and every entry that is not due is kept |
| Daemon.NotDueAppend | plexformatter.py:211-223 | the kept entries of a concatenation are those of each part, in order; one entry is kept exactly when it is not due |
| Daemon.DueActions | plexformatter.py:211-221 | every action belongs to a due entry, and every due entry's action is there |
| Daemon.DueActionsAppend | plexformatter.py:211-221 | the actions on a concatenation are those on each part, in order; one entry gives its action exactly when it is due, so each due entry is acted on once |
| Daemon.DueActionsCount | plexformatter.py:211-223 | every entry is either kept or acted on: the counts add up to the length of the list |
| Daemon.CheckTrackedFiles | plexformatter.py:211-223 | every due entry is acted on and dropped; every other entry stays, in order; counts add up |
| Daemon.CheckTrackedFilesAppend | plexformatter.py:211-223 | a tick over a concatenation keeps and acts on the entries of each part, in order |
| Daemon.TickIdempotent | plexformatter.py:211-223 | a second tick at the same clock reading does nothing |
| Daemon.TickActsOnce | plexformatter.py:211-223 | a later tick only acts on entries that were not due at the earlier one |
| Daemon.ModifiedEntryWaits | plexformatter.py:215 | an entry refreshed at `t` survives every tick up to `t + delay` (strict `>` test) |
| DirTree.NodeFilePaths | plexformatter.py:176-183 | the walk lists as many paths as the tree holds files, at every depth |
| DirTree.NodeFilePathsAreJoins | plexformatter.py:176-183 | the `i`-th listed path is the walked path joined with the names of the directories leading to the `i`-th file, in walk order, and then the file's own |
| DirTree.NodeVideoPaths | plexFormatter.py:162-170 | the older walk lists at most one path per file |
| DirTree.FilterVideoMembers | plexFormatter.py:165 | the filter keeps exactly the video paths, and never more paths than it was given |
| DirTree.VideoPathsAreFilteredFilePaths | plexFormatter.py:162-172 | the older walk lists exactly the video paths of the newer walk, in the same order |
| DirTree.EmptyTreeHasNoFiles | plexformatter.py:187-202 | a tree is an empty directory tree exactly when it is a directory holding no file at any depth |
| DirTree.EmptyChildPaths | plexformatter.py:205 | every listed path belongs to an empty child; every empty child is listed; empty exactly when no child is empty |
| DirTree.EmptyChildPathsAppend | plexformatter.py:205 | the listing of a concatenation of children is that of each part, in order; one child is listed exactly when it is an empty tree |
| DirTree.FindEmptyDirectories | plexformatter.py:204-205 | a result exactly when the path is an existing directory, and then the paths of its empty children |
| DirTree.NonEmptyChildren | plexformatter.py:207-209 | the kept children are a subset of the old ones, and none of them is empty |
| DirTree.NonEmptyChildrenKeeps | plexformatter.py:207-209 | every child that is not an empty tree stays |
| DirTree.NonEmptyChildrenAppend | plexformatter.py:207-209 | removal over a concatenation of children is removal over each part, in order; one child stays exactly when it is not an empty tree |
| DirTree.CleanWatchFolder | plexformatter.py:207-209 | a result exactly when listing succeeds, with the same directory name |
| DirTree.NonEmptyChildrenKeepFiles | plexformatter.py:207-209 | removing empty trees removes no file |
| DirTree.CleanWatchFolderSound | plexformatter.py:207-209 | cleaning keeps every file, leaves no empty child, and is idempotent |
| LegacyDaemon.NewEntry | plexFormatter.py:155-160 | as in the newer revision, with the older formatter and destination |
| LegacyDaemon.AddFile | plexFormatter.py:155-160 | appends exactly one entry |
| LegacyDaemon.OnCreated | plexFormatter.py:150-153 | directory events change nothing; file events add the path |
| LegacyDaemon.AddFileTwiceTracksTwice | plexFormatter.py:155-160 | no deduplication |
| LegacyDaemon.Entries | plexFormatter.py:168-170 | one entry per path, in order |
| LegacyDaemon.FindFiles | plexFormatter.py:162-172 | appends one entry per video file, in walk order; every new entry's source passes `is_video` |
| LegacyDaemon.FilterVideoAllVideo | plexFormatter.py:165-167 | every path the older scan keeps passes its own `is_video` |
| LegacyDaemon.ScanIsVideoPartOfNewer | plexFormatter.py:162-172 | the older scan registers no more entries than the newer one, and each of its sources is a path of the newer walk |
| LegacyDaemon.DueMoves | plexFormatter.py:176-178 | every move belongs to a due entry, and every due entry's move is there |
| LegacyDaemon.DueMovesAppend | plexFormatter.py:176-178 | the moves of a concatenation are those of each part, in order; one entry gives one move exactly when it is due |
| LegacyDaemon.CheckTrackedFiles | plexFormatter.py:174-178 | every due entry is moved, deletable or not, and the list is unchanged |
| LegacyDaemon.TickReemits | plexFormatter.py:174-178 | a moved entry is moved again at every later tick |
| LegacyDaemon.NewerTickForgets | plexFormatter.py:174-178 | a non-deletable due entry gets the same move from both ticks, but only the older tick keeps the entry |
| TestExamples.SplitExtensionExamples | PlexFormatterTest.py:22-24 | `test.ext` splits into `test` and `.ext`; `test` has no extension |
| TestExamples.IsVideoMp4 | PlexFormatterTest.py:27 | `test.mp4` is a video in both revisions |
| TestExamples.IsVideoExe | PlexFormatterTest.py:28 | `test.exe` is not |
| TestExamples.IsTagExamples | PlexFormatterTest.py:30-32 | `1080p` is a tag and `test` is not |
| TestExamples.FindYearExample | PlexFormatterTest.py:34-35 | the year of `test 1080p 1080 1995` is `1995`: `1080` is a tag |
| TestExamples.FindEpisodeCombined | PlexFormatterTest.py:38 | `test s01e99` gives `s01`, `e99` |
| TestExamples.FindEpisodeSeparate | PlexFormatterTest.py:39 | `test s01 e99` gives `s01`, `e99` |
| TestExamples.FindEpisodeSeasonOnly | PlexFormatterTest.py:40 | `test s01` gives `None` |
| TestExamples.RemoveSymbolsExample | PlexFormatterTest.py:42-43 | symbols and spaces are removed |
| TestExamples.FormatLeading | plexformatter.py:95-110 | both revisions format a name that starts with dotted alphanumeric words, one of them a tag, to the lower-cased words before the first tag |
| TestExamples.AlienFormatted | PlexFormatterTest.py:46-48 | the Alien release name formats to `alien 1979` plus its extension in both revisions |
| TestExamples.StrangerFormatted | PlexFormatterTest.py:49-51 | the Stranger Things release name formats to `stranger things s01e01` plus its extension |
| TestExamples.MovieDestination | plexformatter.py:127-133 | a video with a year and no marker goes to the movie path in both revisions |
| TestExamples.AlienDestination | PlexFormatterTest.py:54-56 | `Alien 1979.mp4` goes to `/movie/Alien (1979)/Alien (1979).mp4` |
| TestExamples.ShowDestination | plexformatter.py:118-125 | a video with episode info goes to the show path in both revisions |
| TestExamples.StrangerDestination | PlexFormatterTest.py:57-59 | `Stranger Things s01e01.mp4` goes to `/show/Stranger Things/Season 01/Stranger Things - s01e01.mp4` |
| TestExamples.MarkerFirstShowName | plexformatter.py:121 | for the name `s01e01` the show folder is `S01E0` |
| DaemonExamples.BasenameOfRooted | plexformatter.py:172 | the base name of `/x`, where `x` is slash-free, is `x` |
| DaemonExamples.MiscExample | PlexFormatterTest.py:60-62 | `test.mp4` goes to `/misc/test.mp4` in both revisions |
| DaemonExamples.AddFileMovie | PlexFormatterTest.py:65-67 | the Alien `.mp4` path is tracked as `alien 1979.mp4` bound for `/movie/Alien (1979)/Alien (1979).mp4` |
| DaemonExamples.AddFileExe | PlexFormatterTest.py:69-71 | in the older revision the tests target, the Alien `.exe` path is tracked as `alien 1979.exe` bound for `/non_video/alien 1979.exe` |
| DaemonExamples.AddFileMisc | PlexFormatterTest.py:73-75 | in the older revision, the year-less Alien path is tracked as `alien.mp4` bound for `/misc/alien.mp4` |
| DaemonExamples.OnCreatedExample | PlexFormatterTest.py:217-224 | a directory and two files created give two entries |
| DaemonExamples.FindFilesExample | PlexFormatterTest.py:118-122 | a folder with `test` and `test.mp4`: the newer scan tracks both, the older only the video |
| DaemonExamples.EmptyTreeExamples | PlexFormatterTest.py:148-150 | `watch/empty` is an empty tree; the watch folder is not |
| DaemonExamples.FindEmptyExample | PlexFormatterTest.py:152-154 | the empty folders of the watch folder are exactly `/watch/empty` |
| DaemonExamples.CleanExample | PlexFormatterTest.py:156-162 | cleaning removes `empty` and keeps both files, in order |
| DaemonExamples.DefaultDelayExample | plexformatter.py:154 | with the 60-second default delay, an entry from `t` is still waiting at `t + 60` and is acted on, once, at `t + 61` |

Where the code and its description differ, the model follows the code:

- Registration does not deduplicate. `add_file` appends even when the path is already tracked (`Daemon.AddFileTwiceTracksTwice`).
- The quiet-period test is strict. An entry is due only when more than the delay has passed (`Daemon.ModifiedEntryWaits`).
- The show folder name is the text before the season marker, minus one character. That character is normally the separating space. When the name starts with the marker, `find` gives 0 and the slice `[:-1]` drops the last character of the whole name instead. This is modelled as written (`FileFormatter.ShowNameMarkerFirst`, `TestExamples.MarkerFirstShowName`).

## Left out

- The watchdog `Observer`, its threads and the event loop of `start` are left out. Events arrive as explicit `OnCreated` and `OnModified` calls, and ticks as explicit `CheckTrackedFiles` calls with a clock reading.
- `signal_handler`, `stop`, `setup_logger`, `main`, the missing-path retry loop of `start`, and all logging are left out. They are process control and output with no effect on the tracked list.
- `os.remove`, `shutil.move`, `os.makedirs` and `shutil.rmtree` are not performed. A tick returns the `Delete` and `Move` actions it would perform. `clean_watch_folder` returns the cleaned tree.
- `move_file` is left out beyond the `Move` action. Its `makedirs` of the destination folder, and what happens when the destination exists, are file-system behaviour outside the model.
- Exceptions are not modelled. This covers an `os.remove` or `shutil.move` that raises, a file that vanishes between listing and use, and `find_empty_directories` on a missing path, which is modelled as `None`.
- `time.time()` is a float. The model uses an integer clock, which keeps the strict comparison with the delay but not sub-second precision.
- Python's `lower`, `title` and `isalnum` are Unicode-aware. The model covers ASCII only, and every other character counts as a symbol.
- The order of `os.listdir` is not modelled. It is taken to be the order of a `Dir`'s children.
- Symbolic links and other non-file, non-directory entries are not modelled. A node is a file or a directory.
- plexFormatterDaemon.py is not part of this model.
- `LegacyDaemon.CheckTrackedFiles` and `Daemon.CheckTrackedFiles` model one tick. The daemon's endless loop is the repetition of a tick, and `TickIdempotent`, `TickActsOnce` and `TickReemits` relate successive ticks.

## Findings

| source | as written | input that shows it | evidently intended | confidence | as-written member | corrected member |
|---|---|---|---|---|---|---|
| plexFormatter.py:174-178 | `check_tracked_files` moves every due entry but never removes it from `tracked_files` | any tracked file older than the delay: the next tick moves the same source again, after it has already gone | each due file is acted on once and then forgotten, as the newer revision does (plexformatter.py:211-223) | high, not executed | LegacyDaemon.TickReemits | Daemon.TickActsOnce |
| plexFormatter.py:162-172 | `find_files` registers only files that pass `is_video` | a watch folder holding `test` and `test.mp4`: `test_find_files` expects both to be tracked, but only `test.mp4` is | every file is registered, and non-video files go to the non-video root, as the newer revision does (plexformatter.py:176-185) | medium, not executed | DaemonExamples.FindFilesExample | Daemon.FindFiles |
