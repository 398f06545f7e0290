/** The tracked-file registry of `Daemon` in plexformatter.py (the newer
    revision) as state-transition functions. The clock reading is the
    parameter `now`; the file-system effects of a tick are returned as a list
    of `Action`s; the watched tree is a `DirTree.Node`. */
module Daemon {
  import opened Strings
  import opened Paths
  import opened Optional
  import opened Settings
  import opened Registry
  import opened Sequences
  import F = FileFormatter
  import DirTree

  /** The entry `add_file` builds for `path` at time `now`. */
  function NewEntry(cfg: Config, path: string, now: int): (f: TrackedFile)
    ensures f.srcPath == path && f.lastModification == now
    ensures f.fileName == F.FormatFilename(cfg, Basename(path))
    ensures f.destPath == F.CreateDestinationPath(cfg, f.fileName)
  {
    var name := F.FormatFilename(cfg, Basename(path));
    TrackedFile(path, name, F.CreateDestinationPath(cfg, name), now)
  }

  /** `add_file`: appends one entry, whether or not `path` is already
      tracked. */
  function AddFile(cfg: Config, files: seq<TrackedFile>, path: string, now: int): (r: seq<TrackedFile>)
    ensures |r| == |files| + 1
    ensures r[..|files|] == files
    ensures r[|files|] == NewEntry(cfg, path, now)
  {
    files + [NewEntry(cfg, path, now)]
  }

  /** `on_created`: registers the path of a file event, ignores directory
      events. */
  function OnCreated(cfg: Config, files: seq<TrackedFile>, e: Event, now: int): (r: seq<TrackedFile>)
    ensures e.isDirectory ==> r == files
    ensures !e.isDirectory ==> r == AddFile(cfg, files, e.srcPath, now)
  {
    if e.isDirectory then files else AddFile(cfg, files, e.srcPath, now)
  }

  /** `on_modified`: refreshes the first entry tracking the path of a file
      event, ignores directory events. */
  function OnModified(files: seq<TrackedFile>, e: Event, now: int): (r: seq<TrackedFile>)
    ensures |r| == |files|
    ensures e.isDirectory ==> r == files
    ensures forall i :: 0 <= i < |files| && !(IsFirstMatch(files, e.srcPath, i) && !e.isDirectory) ==>
      r[i] == files[i]
    ensures forall i :: 0 <= i < |files| && IsFirstMatch(files, e.srcPath, i) && !e.isDirectory ==>
      r[i] == files[i].(lastModification := now)
  {
    if e.isDirectory then files else Touch(files, e.srcPath, now)
  }

  /** Registration does not deduplicate: creating the same file twice tracks
      it twice. */
  lemma AddFileTwiceTracksTwice(cfg: Config, files: seq<TrackedFile>, path: string, now1: int, now2: int)
    ensures CountPath(AddFile(cfg, AddFile(cfg, files, path, now1), path, now2), path) ==
      CountPath(files, path) + 2
  {
    var once := AddFile(cfg, files, path, now1);
    assert once == files + [NewEntry(cfg, path, now1)];
    CountPathAppend(files, NewEntry(cfg, path, now1), path);
    assert AddFile(cfg, once, path, now2) == once + [NewEntry(cfg, path, now2)];
    CountPathAppend(once, NewEntry(cfg, path, now2), path);
  }

  /** The shape of a new entry: its file name is already formatted, its
      destination keeps the extension and lies under the root of the layout
      chosen for it. */
  lemma NewEntryShape(cfg: Config, path: string, now: int)
    ensures var f := NewEntry(cfg, path, now);
      F.FormatFilename(cfg, f.fileName) == f.fileName &&
      EndsWith(f.destPath, F.SplitExtension(f.fileName).ext) &&
      F.RootOf(cfg, F.Classify(cfg, f.fileName)) <= f.destPath
  {
    var f := NewEntry(cfg, path, now);
    F.FormatFilenameIdempotent(cfg, Basename(path));
    F.DestinationKeepsExtension(cfg, f.fileName);
    F.FormattedDestinationUnderRoot(cfg, Basename(path));
  }

  // --------------------------------------------------------------- find_files

  /** The entries `add_file` builds for each path in turn. */
  function Entries(cfg: Config, paths: seq<string>, now: int): (r: seq<TrackedFile>)
    ensures |r| == |paths|
    ensures forall i :: 0 <= i < |paths| ==> r[i] == NewEntry(cfg, paths[i], now)
    decreases |paths|
  {
    if |paths| == 0 then []
    else
      assert forall i :: 1 <= i < |paths| ==> paths[1..][i - 1] == paths[i];
      [NewEntry(cfg, paths[0], now)] + Entries(cfg, paths[1..], now)
  }

  /** `find_files(path)`: registers every file at every depth below `path`,
      in listing order; a missing path registers nothing. */
  function FindFiles(cfg: Config, files: seq<TrackedFile>, path: string, tree: Option<DirTree.Node>, now: int): (r: seq<TrackedFile>)
    ensures |r| == |files| + |DirTree.FilePaths(path, tree)|
    ensures tree.Some? ==> |r| == |files| + DirTree.FileCount(tree.value)
    ensures r[..|files|] == files
    ensures forall i :: |files| <= i < |r| ==>
      r[i] == NewEntry(cfg, DirTree.FilePaths(path, tree)[i - |files|], now)
  {
    var es := Entries(cfg, DirTree.FilePaths(path, tree), now);
    AppendEachIsConcat(files, es);
    AppendEach(files, es)
  }

  // ------------------------------------------------------ check_tracked_files

  /** What a tick does with a due entry. */
  function ActionFor(cfg: Config, f: TrackedFile): (a: Action)
    ensures a.Delete? <==> F.IsDeletable(cfg, f.srcPath)
    ensures a.Delete? ==> a.path == f.srcPath
    ensures a.Move? ==> a.src == f.srcPath && a.dest == f.destPath
  {
    if F.IsDeletable(cfg, f.srcPath) then Delete(f.srcPath) else Move(f.srcPath, f.destPath)
  }

  /** The list after a tick and the effects the tick performed, in order. */
  datatype Tick = Tick(remaining: seq<TrackedFile>, actions: seq<Action>)

  /** The entries a tick leaves in the list: those not yet due, in order. */
  function NotDue(files: seq<TrackedFile>, delay: int, now: int): (r: seq<TrackedFile>)
    ensures |r| <= |files|
    ensures IsSubsequence(r, files)
    ensures forall f :: f in r ==> f in files && !IsDue(f, delay, now)
    ensures forall i :: 0 <= i < |files| && !IsDue(files[i], delay, now) ==> files[i] in r
    decreases |files|
  {
    if |files| == 0 then []
    else
      var rest := NotDue(files[1..], delay, now);
      assert forall i :: 1 <= i < |files| ==> files[1..][i - 1] == files[i];
      if IsDue(files[0], delay, now) then rest
      else
        assert ([files[0]] + rest)[1..] == rest;
        [files[0]] + rest
  }

  /** The effects a tick performs, one per due entry, in list order. */
  function DueActions(cfg: Config, files: seq<TrackedFile>, delay: int, now: int): (r: seq<Action>)
    ensures forall a :: a in r ==>
      exists i :: 0 <= i < |files| && IsDue(files[i], delay, now) && a == ActionFor(cfg, files[i])
    ensures forall i :: 0 <= i < |files| && IsDue(files[i], delay, now) ==> ActionFor(cfg, files[i]) in r
    decreases |files|
  {
    if |files| == 0 then []
    else
      var rest := DueActions(cfg, files[1..], delay, now);
      assert forall i :: 1 <= i < |files| ==> files[1..][i - 1] == files[i];
      if IsDue(files[0], delay, now) then [ActionFor(cfg, files[0])] + rest else rest
  }

  /** Every entry is either kept or acted on, never both and never neither. */
  lemma {:induction false} DueActionsCount(cfg: Config, files: seq<TrackedFile>, delay: int, now: int)
    ensures |DueActions(cfg, files, delay, now)| + |NotDue(files, delay, now)| == |files|
    decreases |files|
  {
    if |files| > 0 {
      DueActionsCount(cfg, files[1..], delay, now);
    }
  }

  /** `check_tracked_files` at clock reading `now`: every entry older than
      the delay is deleted or moved and dropped from the list; the others stay,
      in their order. */
  function CheckTrackedFiles(cfg: Config, files: seq<TrackedFile>, delay: int, now: int): (t: Tick)
    ensures |t.remaining| + |t.actions| == |files|
    ensures IsSubsequence(t.remaining, files)
    ensures forall f :: f in t.remaining ==> f in files && !IsDue(f, delay, now)
    ensures forall i :: 0 <= i < |files| && !IsDue(files[i], delay, now) ==> files[i] in t.remaining
    ensures forall a :: a in t.actions ==>
      exists i :: 0 <= i < |files| && IsDue(files[i], delay, now) && a == ActionFor(cfg, files[i])
    ensures forall i :: 0 <= i < |files| && IsDue(files[i], delay, now) ==> ActionFor(cfg, files[i]) in t.actions
  {
    DueActionsCount(cfg, files, delay, now);
    Tick(NotDue(files, delay, now), DueActions(cfg, files, delay, now))
  }

  /** The entries kept on a concatenation are those kept on each part, in
      order and as often as they occur; a single entry is kept exactly when
      it is not due. */
  lemma {:induction false} NotDueAppend(a: seq<TrackedFile>, b: seq<TrackedFile>, delay: int, now: int)
    ensures NotDue(a + b, delay, now) == NotDue(a, delay, now) + NotDue(b, delay, now)
    ensures |a| == 1 ==> NotDue(a, delay, now) == (if IsDue(a[0], delay, now) then [] else a)
    decreases |a|
  {
    if |a| == 0 {
      assert a + b == b;
    } else {
      assert (a + b)[1..] == a[1..] + b;
      assert a[1..] == [] ==> |a| == 1;
      NotDueAppend(a[1..], b, delay, now);
    }
  }

  /** The effects on a concatenation are those on each part, in order; a
      single entry yields its action exactly when it is due. */
  lemma {:induction false} DueActionsAppend(cfg: Config, a: seq<TrackedFile>, b: seq<TrackedFile>, delay: int, now: int)
    ensures DueActions(cfg, a + b, delay, now) == DueActions(cfg, a, delay, now) + DueActions(cfg, b, delay, now)
    ensures |a| == 1 ==>
      DueActions(cfg, a, delay, now) == (if IsDue(a[0], delay, now) then [ActionFor(cfg, a[0])] else [])
    decreases |a|
  {
    if |a| == 0 {
      assert a + b == b;
    } else {
      DueActionsAppend(cfg, a[1..], b, delay, now);
      DueActionsStep(cfg, a, b, delay, now);
      DueActionsUnfold(cfg, a, delay, now);
      assert |a| == 1 ==> a[1..] == [];
    }
  }

  lemma DueActionsStep(cfg: Config, a: seq<TrackedFile>, b: seq<TrackedFile>, delay: int, now: int)
    requires |a| > 0
    requires DueActions(cfg, a[1..] + b, delay, now) == DueActions(cfg, a[1..], delay, now) + DueActions(cfg, b, delay, now)
    ensures DueActions(cfg, a + b, delay, now) == DueActions(cfg, a, delay, now) + DueActions(cfg, b, delay, now)
  {
    var head := DueHead(cfg, a[0], delay, now);
    DueActionsUnfold(cfg, a + b, delay, now);
    DueActionsUnfold(cfg, a, delay, now);
    assert (a + b)[1..] == a[1..] + b && (a + b)[0] == a[0];
    Sequences.AppendStep(head, DueActions(cfg, a + b, delay, now), DueActions(cfg, a[1..] + b, delay, now),
      DueActions(cfg, a, delay, now), DueActions(cfg, a[1..], delay, now), DueActions(cfg, b, delay, now));
  }

  /** The action of one entry, if it is due. */
  function DueHead(cfg: Config, f: TrackedFile, delay: int, now: int): seq<Action>
  {
    if IsDue(f, delay, now) then [ActionFor(cfg, f)] else []
  }

  lemma DueActionsUnfold(cfg: Config, files: seq<TrackedFile>, delay: int, now: int)
    requires |files| > 0
    ensures DueActions(cfg, files, delay, now) == DueHead(cfg, files[0], delay, now) + DueActions(cfg, files[1..], delay, now)
  {
  }

  /** The tick works entry by entry: on a concatenation it keeps and acts on
      the entries of each part, in order and as often as they occur. */
  lemma CheckTrackedFilesAppend(cfg: Config, a: seq<TrackedFile>, b: seq<TrackedFile>, delay: int, now: int)
    ensures CheckTrackedFiles(cfg, a + b, delay, now) ==
      Tick(CheckTrackedFiles(cfg, a, delay, now).remaining + CheckTrackedFiles(cfg, b, delay, now).remaining,
           CheckTrackedFiles(cfg, a, delay, now).actions + CheckTrackedFiles(cfg, b, delay, now).actions)
  {
    NotDueAppend(a, b, delay, now);
    DueActionsAppend(cfg, a, b, delay, now);
  }

  lemma {:induction false} NotDueOfFresh(files: seq<TrackedFile>, delay: int, now: int)
    requires forall i :: 0 <= i < |files| ==> !IsDue(files[i], delay, now)
    ensures NotDue(files, delay, now) == files
    decreases |files|
  {
    if |files| > 0 {
      NotDueOfFresh(files[1..], delay, now);
      assert [files[0]] + files[1..] == files;
    }
  }

  /** A second tick at the same clock reading finds nothing to do. */
  lemma TickIdempotent(cfg: Config, files: seq<TrackedFile>, delay: int, now: int)
    ensures var t := CheckTrackedFiles(cfg, files, delay, now);
      CheckTrackedFiles(cfg, t.remaining, delay, now) == Tick(t.remaining, [])
  {
    var t := CheckTrackedFiles(cfg, files, delay, now);
    assert forall i :: 0 <= i < |t.remaining| ==> t.remaining[i] in t.remaining;
    NotDueOfFresh(t.remaining, delay, now);
  }

  /** Each due entry is acted on once: whatever a later tick does concerns
      only entries that were not yet due at the earlier one. */
  lemma TickActsOnce(cfg: Config, files: seq<TrackedFile>, delay: int, now: int, later: int)
    ensures var t := CheckTrackedFiles(cfg, files, delay, now);
      forall a :: a in CheckTrackedFiles(cfg, t.remaining, delay, later).actions ==>
        exists f :: f in files && !IsDue(f, delay, now) && a == ActionFor(cfg, f)
  {
  }

  /** The quiet period: an entry refreshed by `on_modified` at `t` survives
      every tick up to `t + delay`. */
  lemma ModifiedEntryWaits(cfg: Config, files: seq<TrackedFile>, path: string, i: int, t: int, delay: int, now: int)
    requires IsFirstMatch(files, path, i)
    requires now <= t + delay
    ensures var r := OnModified(files, Event(path, false), t);
      r[i].lastModification == t && r[i] in CheckTrackedFiles(cfg, r, delay, now).remaining
  {
  }
}
