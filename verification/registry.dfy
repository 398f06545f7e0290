/** The pieces both daemons share: `TrackedFile`, the watchdog event they read,
    the file-system effect a tick asks for, the age test and the loop of
    `on_modified`. */
module Registry {

  /** `TrackedFile`; the timestamp is the integer clock reading passed to the
      operation that created or last refreshed the entry. */
  datatype TrackedFile = TrackedFile(
    srcPath: string,
    fileName: string,
    destPath: string,
    lastModification: int)

  /** A file-system event: the path it concerns and whether that is a
      directory. */
  datatype Event = Event(srcPath: string, isDirectory: bool)

  /** What a tick does to one tracked file: `os.remove(src)`, or
      `move_file`, which creates the destination's parent directories when
      missing and then calls `shutil.move(src, dest)`. */
  datatype Action = Delete(path: string) | Move(src: string, dest: string)

  /** The age test of `check_tracked_files`: strictly more than the delay
      since the last modification. */
  predicate IsDue(f: TrackedFile, delay: int, now: int)
  {
    now - f.lastModification > delay
  }

  /** Entry `i` is the first whose source path is `path`. */
  predicate IsFirstMatch(files: seq<TrackedFile>, path: string, i: int)
  {
    0 <= i < |files| && files[i].srcPath == path &&
    forall j :: 0 <= j < i ==> files[j].srcPath != path
  }

  /** The loop of `on_modified`: the first entry with a matching source path
      gets the new timestamp and the loop stops. */
  function Touch(files: seq<TrackedFile>, path: string, now: int): (r: seq<TrackedFile>)
    ensures |r| == |files|
    ensures forall i :: 0 <= i < |files| && IsFirstMatch(files, path, i) ==>
      r[i] == files[i].(lastModification := now)
    ensures forall i :: 0 <= i < |files| && !IsFirstMatch(files, path, i) ==> r[i] == files[i]
  {
    if |files| == 0 then []
    else if files[0].srcPath == path then [files[0].(lastModification := now)] + files[1..]
    else
      var rest := Touch(files[1..], path, now);
      assert forall i :: 1 <= i < |files| ==>
        (IsFirstMatch(files, path, i) <==> IsFirstMatch(files[1..], path, i - 1));
      [files[0]] + rest
  }

  /** Number of entries tracking `path`. */
  function CountPath(files: seq<TrackedFile>, path: string): nat
  {
    if |files| == 0 then 0
    else (if files[0].srcPath == path then 1 else 0) + CountPath(files[1..], path)
  }

  lemma {:induction false} CountPathAppend(files: seq<TrackedFile>, f: TrackedFile, path: string)
    ensures CountPath(files + [f], path) == CountPath(files, path) + (if f.srcPath == path then 1 else 0)
  {
    if |files| > 0 {
      CountPathAppend(files[1..], f, path);
      assert (files + [f])[1..] == files[1..] + [f];
    }
  }

  /** Appending entries one at a time, as a loop of `add_file` calls does. */
  function AppendEach(files: seq<TrackedFile>, es: seq<TrackedFile>): seq<TrackedFile>
    decreases |es|
  {
    if |es| == 0 then files else AppendEach(files + [es[0]], es[1..])
  }

  lemma {:induction false} AppendEachIsConcat(files: seq<TrackedFile>, es: seq<TrackedFile>)
    ensures AppendEach(files, es) == files + es
    decreases |es|
  {
    if |es| > 0 {
      AppendEachIsConcat(files + [es[0]], es[1..]);
      assert files + [es[0]] + es[1..] == files + es;
    }
  }
}
