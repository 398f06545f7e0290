/** The tracked-file registry of `Daemon` in plexFormatter.py (the older
    revision). It names files with the older formatter, registers only video
    files when scanning, and its tick moves due files without forgetting
    them. */
module LegacyDaemon {
  import opened Paths
  import opened Optional
  import opened Settings
  import opened Registry
  import F = FileFormatter
  import L = LegacyFormatter
  import DirTree
  import D = Daemon

  /** The entry `add_file` builds for `path` at time `now`. */
  function NewEntry(cfg: Config, path: string, now: int): (f: TrackedFile)
    ensures f.srcPath == path && f.lastModification == now
    ensures f.fileName == L.FormatFilename(cfg, Basename(path))
    ensures f.destPath == L.CreateDestinationPath(cfg, f.fileName)
  {
    var name := L.FormatFilename(cfg, Basename(path));
    TrackedFile(path, name, L.CreateDestinationPath(cfg, name), now)
  }

  /** `add_file`: appends one entry, whether or not `path` is already
      tracked. */
  function AddFile(cfg: Config, files: seq<TrackedFile>, path: string, now: int): (r: seq<TrackedFile>)
    ensures |r| == |files| + 1
    ensures r[..|files|] == files
    ensures r[|files|] == NewEntry(cfg, path, now)
  {
    files + [NewEntry(cfg, path, now)]
  }

  /** `on_created`: as in the newer revision, with the older naming. */
  function OnCreated(cfg: Config, files: seq<TrackedFile>, e: Event, now: int): (r: seq<TrackedFile>)
    ensures e.isDirectory ==> r == files
    ensures !e.isDirectory ==> r == AddFile(cfg, files, e.srcPath, now)
  {
    if e.isDirectory then files else AddFile(cfg, files, e.srcPath, now)
  }

  /** Registration does not deduplicate. */
  lemma AddFileTwiceTracksTwice(cfg: Config, files: seq<TrackedFile>, path: string, now1: int, now2: int)
    ensures CountPath(AddFile(cfg, AddFile(cfg, files, path, now1), path, now2), path) ==
      CountPath(files, path) + 2
  {
    var once := AddFile(cfg, files, path, now1);
    CountPathAppend(files, NewEntry(cfg, path, now1), path);
    CountPathAppend(once, NewEntry(cfg, path, now2), path);
  }

  /** The entries `add_file` builds for each path in turn. */
  function Entries(cfg: Config, paths: seq<string>, now: int): (r: seq<TrackedFile>)
    ensures |r| == |paths|
    ensures forall i :: 0 <= i < |paths| ==> r[i] == NewEntry(cfg, paths[i], now)
    decreases |paths|
  {
    if |paths| == 0 then []
    else
      assert forall i :: 1 <= i < |paths| ==> paths[1..][i - 1] == paths[i];
      [NewEntry(cfg, paths[0], now)] + Entries(cfg, paths[1..], now)
  }

  /** `find_files(path)` of the older revision: registers, in listing order,
      the files below `path` whose own path passes `is_video`. */
  function FindFiles(cfg: Config, files: seq<TrackedFile>, path: string, tree: Option<DirTree.Node>, now: int): (r: seq<TrackedFile>)
    ensures |r| == |files| + |DirTree.FilterVideo(cfg, DirTree.FilePaths(path, tree))|
    ensures r[..|files|] == files
    ensures forall i :: |files| <= i < |r| ==>
      r[i] == NewEntry(cfg, DirTree.FilterVideo(cfg, DirTree.FilePaths(path, tree))[i - |files|], now)
    ensures forall i :: |files| <= i < |r| ==> L.IsVideo(cfg, r[i].srcPath)
  {
    DirTree.VideoPathsAreFilteredFilePaths(cfg, path, tree);
    var es := Entries(cfg, DirTree.VideoPaths(cfg, path, tree), now);
    AppendEachIsConcat(files, es);
    FilterVideoAllVideo(cfg, DirTree.FilePaths(path, tree));
    AppendEach(files, es)
  }

  lemma FilterVideoAllVideo(cfg: Config, paths: seq<string>)
    ensures forall i :: 0 <= i < |DirTree.FilterVideo(cfg, paths)| ==>
      L.IsVideo(cfg, DirTree.FilterVideo(cfg, paths)[i])
  {
    var r := DirTree.FilterVideo(cfg, paths);
    DirTree.FilterVideoMembers(cfg, paths);
    forall i | 0 <= i < |r| ensures L.IsVideo(cfg, r[i]) {
      assert r[i] in r;
      L.IsVideoAgrees(cfg, r[i]);
    }
  }

  /** The older scan registers the video files the newer scan finds, in the
      same order; the newer one registers every file. */
  lemma ScanIsVideoPartOfNewer(cfg: Config, path: string, tree: Option<DirTree.Node>)
    ensures |FindFiles(cfg, [], path, tree, 0)| <= |D.FindFiles(cfg, [], path, tree, 0)|
    ensures forall i :: 0 <= i < |FindFiles(cfg, [], path, tree, 0)| ==>
      FindFiles(cfg, [], path, tree, 0)[i].srcPath in DirTree.FilePaths(path, tree)
  {
    DirTree.FilterVideoMembers(cfg, DirTree.FilePaths(path, tree));
  }

  // ------------------------------------------------------ check_tracked_files

  /** Moves for the due entries, in list order. */
  function DueMoves(files: seq<TrackedFile>, delay: int, now: int): (r: seq<Action>)
    ensures forall a :: a in r ==>
      exists i :: 0 <= i < |files| && IsDue(files[i], delay, now) && a == Move(files[i].srcPath, files[i].destPath)
    ensures forall i :: 0 <= i < |files| && IsDue(files[i], delay, now) ==>
      Move(files[i].srcPath, files[i].destPath) in r
    decreases |files|
  {
    if |files| == 0 then []
    else
      var rest := DueMoves(files[1..], delay, now);
      assert forall i :: 1 <= i < |files| ==> files[1..][i - 1] == files[i];
      if IsDue(files[0], delay, now) then [Move(files[0].srcPath, files[0].destPath)] + rest else rest
  }

  /** The moves work entry by entry: on a concatenation they are the moves of
      each part, in order and as often as the entries occur, and a single
      entry yields one move exactly when it is due. */
  lemma {:induction false} DueMovesAppend(a: seq<TrackedFile>, b: seq<TrackedFile>, delay: int, now: int)
    ensures DueMoves(a + b, delay, now) == DueMoves(a, delay, now) + DueMoves(b, delay, now)
    ensures |a| == 1 ==>
      DueMoves(a, delay, now) == (if IsDue(a[0], delay, now) then [Move(a[0].srcPath, a[0].destPath)] else [])
    decreases |a|
  {
    if |a| == 0 {
      assert a + b == b;
    } else {
      assert (a + b)[1..] == a[1..] + b;
      assert a[1..] == [] ==> |a| == 1;
      DueMovesAppend(a[1..], b, delay, now);
    }
  }

  /** `check_tracked_files` of the older revision: every due entry is moved,
      deletable or not, and the list is left as it was. */
  function CheckTrackedFiles(files: seq<TrackedFile>, delay: int, now: int): (t: D.Tick)
    ensures t.remaining == files
    ensures forall a :: a in t.actions ==>
      a.Move? && exists i :: 0 <= i < |files| && IsDue(files[i], delay, now) && a == Move(files[i].srcPath, files[i].destPath)
    ensures forall i :: 0 <= i < |files| && IsDue(files[i], delay, now) ==>
      Move(files[i].srcPath, files[i].destPath) in t.actions
  {
    D.Tick(files, DueMoves(files, delay, now))
  }

  /** A file moved once is moved again on every later tick: the entry is
      never dropped and only grows older. */
  lemma TickReemits(files: seq<TrackedFile>, delay: int, now: int, later: int, i: int)
    requires 0 <= i < |files| && IsDue(files[i], delay, now)
    requires later >= now
    ensures var t := CheckTrackedFiles(files, delay, now);
      Move(files[i].srcPath, files[i].destPath) in t.actions &&
      Move(files[i].srcPath, files[i].destPath) in CheckTrackedFiles(t.remaining, delay, later).actions
  {
  }

  /** Against the newer tick: a non-deletable due entry gets the same move
      from both at the first tick, but only the older one keeps it for the
      next tick. */
  lemma NewerTickForgets(cfg: Config, files: seq<TrackedFile>, delay: int, now: int, i: int)
    requires 0 <= i < |files| && IsDue(files[i], delay, now)
    requires !F.IsDeletable(cfg, files[i].srcPath)
    ensures D.ActionFor(cfg, files[i]) in CheckTrackedFiles(files, delay, now).actions
    ensures files[i] in CheckTrackedFiles(files, delay, now).remaining
    ensures files[i] !in D.CheckTrackedFiles(cfg, files, delay, now).remaining
  {
  }
}
