/** The directory walks of both daemons over an abstract tree instead of the
    `os` module: `find_files` of each revision, `is_empty_directory_tree`,
    `find_empty_directories` and `clean_watch_folder` of the newer one. The
    node a path names is an `Option<Node>`: `None` is a path that does not
    exist. A `Dir`'s children are in `os.listdir` order. */
module DirTree {
  import opened Optional
  import opened Paths
  import opened Settings
  import Sequences
  import F = FileFormatter

  datatype Node = File(name: string) | Dir(name: string, children: seq<Node>)

  /** Number of files at every depth. */
  function FileCount(n: Node): nat
    decreases n
  {
    match n
    case File(_) => 1
    case Dir(_, cs) => FileCountAll(cs)
  }

  function FileCountAll(cs: seq<Node>): nat
    decreases cs
  {
    if |cs| == 0 then 0 else FileCount(cs[0]) + FileCountAll(cs[1..])
  }

  // ------------------------------------------------------------- find_files

  /** The paths `find_files` of the newer revision registers, in order: every
      file at every depth; nothing for a missing path. */
  function FilePaths(path: string, n: Option<Node>): seq<string>
  {
    match n
    case None => []
    case Some(node) => NodeFilePaths(path, node)
  }

  function NodeFilePaths(path: string, n: Node): (r: seq<string>)
    ensures |r| == FileCount(n)
    decreases n
  {
    match n
    case File(_) => [path]
    case Dir(_, cs) => ChildrenFilePaths(path, cs)
  }

  function ChildrenFilePaths(path: string, cs: seq<Node>): (r: seq<string>)
    ensures |r| == FileCountAll(cs)
    decreases cs
  {
    if |cs| == 0 then []
    else NodeFilePaths(PathJoin(path, cs[0].name), cs[0]) + ChildrenFilePaths(path, cs[1..])
  }

  /** The names leading from a node to each file below it, in walk order:
      none for a file itself, the child's name and then the child's own for
      a directory. */
  function NodeRelPaths(n: Node): (r: seq<seq<string>>)
    decreases n
  {
    match n
    case File(_) => [[]]
    case Dir(_, cs) => ChildrenRelPaths(cs)
  }

  function ChildrenRelPaths(cs: seq<Node>): (r: seq<seq<string>>)
    decreases cs
  {
    if |cs| == 0 then []
    else PrefixEach(cs[0].name, NodeRelPaths(cs[0])) + ChildrenRelPaths(cs[1..])
  }

  /** Each list of names with `x` put in front. */
  function PrefixEach(x: string, ps: seq<seq<string>>): (r: seq<seq<string>>)
    ensures |r| == |ps|
    ensures forall i :: 0 <= i < |ps| ==> r[i] == [x] + ps[i]
  {
    seq(|ps|, i requires 0 <= i < |ps| => [x] + ps[i])
  }

  /** The walk registers one path per file, and the path of the `i`-th file is
      `os.path.join` of the walked path and the names leading to that file:
      the path is built from the directory names down to the file and from
      nothing else. */
  lemma {:induction false} NodeFilePathsAreJoins(path: string, n: Node)
    ensures |NodeRelPaths(n)| == |NodeFilePaths(path, n)|
    ensures forall i :: 0 <= i < |NodeFilePaths(path, n)| ==>
      NodeFilePaths(path, n)[i] == PathJoinAll(path, NodeRelPaths(n)[i])
    decreases n
  {
    match n
    case File(_) =>
    case Dir(_, cs) => ChildrenFilePathsAreJoins(path, cs);
  }

  lemma {:induction false} ChildrenFilePathsAreJoins(path: string, cs: seq<Node>)
    ensures |ChildrenRelPaths(cs)| == |ChildrenFilePaths(path, cs)|
    ensures forall i :: 0 <= i < |ChildrenFilePaths(path, cs)| ==>
      ChildrenFilePaths(path, cs)[i] == PathJoinAll(path, ChildrenRelPaths(cs)[i])
    decreases cs
  {
    if |cs| > 0 {
      var c := cs[0];
      var p := PathJoin(path, c.name);
      NodeFilePathsAreJoins(p, c);
      ChildrenFilePathsAreJoins(path, cs[1..]);
      var head, rels := NodeFilePaths(p, c), PrefixEach(c.name, NodeRelPaths(c));
      forall i | 0 <= i < |head| ensures head[i] == PathJoinAll(path, rels[i]) {
        PathJoinAllCons(path, c.name, NodeRelPaths(c)[i]);
      }
      var join := (r: seq<string>) => PathJoinAll(path, r);
      Sequences.PointwiseAppend(join, head, rels, ChildrenFilePaths(path, cs[1..]), ChildrenRelPaths(cs[1..]));
    }
  }

  /** The paths `find_files` of the older revision registers: files whose own
      path passes `is_video`. */
  function VideoPaths(cfg: Config, path: string, n: Option<Node>): seq<string>
  {
    match n
    case None => []
    case Some(node) => NodeVideoPaths(cfg, path, node)
  }

  function NodeVideoPaths(cfg: Config, path: string, n: Node): (r: seq<string>)
    ensures |r| <= FileCount(n)
    decreases n
  {
    match n
    case File(_) => if F.IsVideo(cfg, path) then [path] else []
    case Dir(_, cs) => ChildrenVideoPaths(cfg, path, cs)
  }

  function ChildrenVideoPaths(cfg: Config, path: string, cs: seq<Node>): (r: seq<string>)
    ensures |r| <= FileCountAll(cs)
    decreases cs
  {
    if |cs| == 0 then []
    else NodeVideoPaths(cfg, PathJoin(path, cs[0].name), cs[0]) + ChildrenVideoPaths(cfg, path, cs[1..])
  }

  /** `[p for p in paths if is_video(p)]`. */
  function FilterVideo(cfg: Config, paths: seq<string>): seq<string>
  {
    if |paths| == 0 then []
    else (if F.IsVideo(cfg, paths[0]) then [paths[0]] else []) + FilterVideo(cfg, paths[1..])
  }

  lemma FilterVideoCons(cfg: Config, p: string, rest: seq<string>)
    ensures FilterVideo(cfg, [p] + rest) == FilterVideo(cfg, [p]) + FilterVideo(cfg, rest)
  {
    assert ([p] + rest)[1..] == rest;
    assert [p][1..] == [];
  }

  lemma {:induction false} FilterVideoAppend(cfg: Config, a: seq<string>, b: seq<string>)
    ensures FilterVideo(cfg, a + b) == FilterVideo(cfg, a) + FilterVideo(cfg, b)
  {
    if |a| > 0 {
      assert a == [a[0]] + a[1..];
      assert a + b == [a[0]] + (a[1..] + b);
      FilterVideoCons(cfg, a[0], a[1..] + b);
      FilterVideoCons(cfg, a[0], a[1..]);
      FilterVideoAppend(cfg, a[1..], b);
    } else {
      assert a + b == b;
    }
  }

  /** The filter keeps exactly the paths that pass the newer `is_video`. */
  lemma {:induction false} FilterVideoMembers(cfg: Config, paths: seq<string>)
    ensures |FilterVideo(cfg, paths)| <= |paths|
    ensures forall p :: p in FilterVideo(cfg, paths) <==> p in paths && F.IsVideo(cfg, p)
    decreases |paths|
  {
    if |paths| > 0 {
      FilterVideoMembers(cfg, paths[1..]);
      FilterVideoCons(cfg, paths[0], paths[1..]);
      assert paths == [paths[0]] + paths[1..];
      assert [paths[0]][1..] == [];
    }
  }

  /** The older walk registers exactly the video files of the newer walk, in
      the same order. */
  lemma VideoPathsAreFilteredFilePaths(cfg: Config, path: string, n: Option<Node>)
    ensures VideoPaths(cfg, path, n) == FilterVideo(cfg, FilePaths(path, n))
  {
    if n.Some? {
      NodeVideoPathsFilter(cfg, path, n.value);
    }
  }

  lemma {:induction false} NodeVideoPathsFilter(cfg: Config, path: string, n: Node)
    ensures NodeVideoPaths(cfg, path, n) == FilterVideo(cfg, NodeFilePaths(path, n))
    decreases n
  {
    match n
    case File(_) =>
    case Dir(_, cs) => ChildrenVideoPathsFilter(cfg, path, cs);
  }

  lemma {:induction false} ChildrenVideoPathsFilter(cfg: Config, path: string, cs: seq<Node>)
    ensures ChildrenVideoPaths(cfg, path, cs) == FilterVideo(cfg, ChildrenFilePaths(path, cs))
    decreases cs
  {
    if |cs| > 0 {
      var p := PathJoin(path, cs[0].name);
      NodeVideoPathsFilter(cfg, p, cs[0]);
      ChildrenVideoPathsFilter(cfg, path, cs[1..]);
      FilterVideoAppend(cfg, NodeFilePaths(p, cs[0]), ChildrenFilePaths(path, cs[1..]));
    }
  }

  // ------------------------------------------------- is_empty_directory_tree

  /** `is_empty_directory_tree` on an existing node: a directory whose entries
      are all directories, each again an empty directory tree. */
  predicate IsEmptyTree(n: Node)
    decreases n
  {
    match n
    case File(_) => false
    case Dir(_, cs) =>
      (forall i :: 0 <= i < |cs| ==> cs[i].Dir?) &&
      (forall i :: 0 <= i < |cs| ==> IsEmptyTree(cs[i]))
  }

  /** `is_empty_directory_tree(path)`: false for a missing path. */
  predicate IsEmptyDirectoryTree(n: Option<Node>)
  {
    n.Some? && IsEmptyTree(n.value)
  }

  lemma {:induction false} FileCountAllZero(cs: seq<Node>)
    ensures FileCountAll(cs) == 0 <==> forall i :: 0 <= i < |cs| ==> FileCount(cs[i]) == 0
  {
    if |cs| > 0 {
      FileCountAllZero(cs[1..]);
      assert forall i :: 1 <= i < |cs| ==> cs[i] == cs[1..][i - 1];
    }
  }

  /** A directory tree is empty exactly when it is a directory holding no file
      at any depth; an empty directory counts. */
  lemma {:induction false} EmptyTreeHasNoFiles(n: Node)
    ensures IsEmptyTree(n) <==> n.Dir? && FileCount(n) == 0
    decreases n
  {
    match n
    case File(_) =>
    case Dir(_, cs) =>
      FileCountAllZero(cs);
      forall i | 0 <= i < |cs| ensures IsEmptyTree(cs[i]) <==> cs[i].Dir? && FileCount(cs[i]) == 0 {
        EmptyTreeHasNoFiles(cs[i]);
      }
  }

  // -------------------------------------------------- find_empty_directories

  /** The paths of the children that satisfy `keep`, in listing order. */
  function PathsWhere(cs: seq<Node>, keep: Node -> bool, pathOf: Node -> string): (r: seq<string>)
    ensures |r| <= |cs|
    ensures r == [] <==> forall i :: 0 <= i < |cs| ==> !keep(cs[i])
    decreases cs
  {
    if |cs| == 0 then []
    else
      var rest := PathsWhere(cs[1..], keep, pathOf);
      assert forall i :: 1 <= i < |cs| ==> cs[i] == cs[1..][i - 1];
      if keep(cs[0]) then [pathOf(cs[0])] + rest else rest
  }

  /** Every listed path belongs to a kept child. */
  lemma {:induction false} PathsWhereSound(cs: seq<Node>, keep: Node -> bool, pathOf: Node -> string)
    ensures forall p :: p in PathsWhere(cs, keep, pathOf) ==>
      exists i :: 0 <= i < |cs| && keep(cs[i]) && p == pathOf(cs[i])
    decreases cs
  {
    if |cs| > 0 {
      PathsWhereSound(cs[1..], keep, pathOf);
      var rest := PathsWhere(cs[1..], keep, pathOf);
      forall p | p in PathsWhere(cs, keep, pathOf)
        ensures exists i :: 0 <= i < |cs| && keep(cs[i]) && p == pathOf(cs[i])
      {
        if p in rest {
          var j :| 0 <= j < |cs[1..]| && keep(cs[1..][j]) && p == pathOf(cs[1..][j]);
          assert cs[1..][j] == cs[j + 1];
        } else {
          assert keep(cs[0]) && p == pathOf(cs[0]);
        }
      }
    }
  }

  /** Every kept child's path is listed. */
  lemma {:induction false} PathsWhereComplete(cs: seq<Node>, keep: Node -> bool, pathOf: Node -> string)
    ensures forall i :: 0 <= i < |cs| && keep(cs[i]) ==> pathOf(cs[i]) in PathsWhere(cs, keep, pathOf)
    decreases cs
  {
    if |cs| > 0 {
      PathsWhereComplete(cs[1..], keep, pathOf);
      forall i | 0 <= i < |cs| && keep(cs[i]) ensures pathOf(cs[i]) in PathsWhere(cs, keep, pathOf) {
        if i > 0 {
          assert cs[1..][i - 1] == cs[i];
        }
      }
    }
  }

  /** The listing works child by child: on a concatenation of children it
      lists those of each part, in order, and a single child is listed
      exactly when it is kept. */
  lemma {:induction false} PathsWhereAppend(a: seq<Node>, b: seq<Node>, keep: Node -> bool, pathOf: Node -> string)
    ensures PathsWhere(a + b, keep, pathOf) == PathsWhere(a, keep, pathOf) + PathsWhere(b, keep, pathOf)
    ensures |a| == 1 ==> PathsWhere(a, keep, pathOf) == (if keep(a[0]) then [pathOf(a[0])] else [])
    decreases |a|
  {
    if |a| == 0 {
      assert a + b == b;
    } else {
      PathsWhereAppend(a[1..], b, keep, pathOf);
      var head := if keep(a[0]) then [pathOf(a[0])] else [];
      assert (a + b)[1..] == a[1..] + b && (a + b)[0] == a[0];
      assert PathsWhere(a + b, keep, pathOf) == head + PathsWhere(a[1..] + b, keep, pathOf);
      assert PathsWhere(a, keep, pathOf) == head + PathsWhere(a[1..], keep, pathOf);
      Sequences.AppendStep(head, PathsWhere(a + b, keep, pathOf), PathsWhere(a[1..] + b, keep, pathOf),
        PathsWhere(a, keep, pathOf), PathsWhere(a[1..], keep, pathOf), PathsWhere(b, keep, pathOf));
      assert |a| == 1 ==> a[1..] == [];
    }
  }

  /** Joined paths of the children that are empty directory trees, in listing
      order: every listed path belongs to an empty child and every empty
      child is listed. */
  function EmptyChildPaths(path: string, cs: seq<Node>): (r: seq<string>)
    ensures |r| <= |cs|
    ensures forall p :: p in r ==> exists i :: 0 <= i < |cs| && IsEmptyTree(cs[i]) && p == PathJoin(path, cs[i].name)
    ensures forall i :: 0 <= i < |cs| && IsEmptyTree(cs[i]) ==> PathJoin(path, cs[i].name) in r
    ensures r == [] <==> forall i :: 0 <= i < |cs| ==> !IsEmptyTree(cs[i])
  {
    var pathOf := (c: Node) => PathJoin(path, c.name);
    PathsWhereSound(cs, IsEmptyTree, pathOf);
    PathsWhereComplete(cs, IsEmptyTree, pathOf);
    PathsWhere(cs, IsEmptyTree, pathOf)
  }

  /** The listing of empty children works child by child: on a concatenation
      it lists those of each part, in order, and a single child is listed
      exactly when it is an empty directory tree. */
  lemma EmptyChildPathsAppend(path: string, a: seq<Node>, b: seq<Node>)
    ensures EmptyChildPaths(path, a + b) == EmptyChildPaths(path, a) + EmptyChildPaths(path, b)
    ensures |a| == 1 ==>
      EmptyChildPaths(path, a) == (if IsEmptyTree(a[0]) then [PathJoin(path, a[0].name)] else [])
  {
    PathsWhereAppend(a, b, IsEmptyTree, (c: Node) => PathJoin(path, c.name));
  }

  /** `find_empty_directories(path)`: `None` where `os.listdir` raises (a
      missing path or a file); otherwise the direct children that are empty
      directory trees. */
  function FindEmptyDirectories(path: string, n: Option<Node>): (r: Option<seq<string>>)
    ensures r.Some? <==> n.Some? && n.value.Dir?
    ensures r.Some? ==> r.value == EmptyChildPaths(path, n.value.children)
  {
    match n
    case Some(Dir(_, cs)) => Some(EmptyChildPaths(path, cs))
    case _ => None
  }

  // ------------------------------------------------------- clean_watch_folder

  /** The children left after `shutil.rmtree` of every empty direct child. */
  function NonEmptyChildren(cs: seq<Node>): (r: seq<Node>)
    ensures |r| <= |cs|
    ensures forall i :: 0 <= i < |r| ==> !IsEmptyTree(r[i])
    ensures forall c :: c in r ==> c in cs
    decreases cs
  {
    if |cs| == 0 then []
    else
      var rest := NonEmptyChildren(cs[1..]);
      assert forall i :: 1 <= i < |cs| ==> cs[i] == cs[1..][i - 1];
      if IsEmptyTree(cs[0]) then rest
      else [cs[0]] + rest
  }

  /** Every child that is not an empty directory tree stays. */
  lemma {:induction false} NonEmptyChildrenKeeps(cs: seq<Node>)
    ensures forall i :: 0 <= i < |cs| && !IsEmptyTree(cs[i]) ==> cs[i] in NonEmptyChildren(cs)
    decreases cs
  {
    if |cs| > 0 {
      NonEmptyChildrenKeeps(cs[1..]);
      forall i | 0 <= i < |cs| && !IsEmptyTree(cs[i]) ensures cs[i] in NonEmptyChildren(cs) {
        if i > 0 {
          assert cs[1..][i - 1] == cs[i];
        }
      }
    }
  }

  /** Removal works child by child: on a concatenation of children it keeps
      those of each part, in order and as often as they occur, and a single
      child stays exactly when it is not an empty directory tree. */
  lemma {:induction false} NonEmptyChildrenAppend(a: seq<Node>, b: seq<Node>)
    ensures NonEmptyChildren(a + b) == NonEmptyChildren(a) + NonEmptyChildren(b)
    ensures |a| == 1 ==> NonEmptyChildren(a) == (if IsEmptyTree(a[0]) then [] else a)
    decreases |a|
  {
    if |a| == 0 {
      assert a + b == b;
    } else {
      NonEmptyChildrenAppend(a[1..], b);
      NonEmptyChildrenUnfold(a + b);
      NonEmptyChildrenUnfold(a);
      assert (a + b)[1..] == a[1..] + b && (a + b)[0] == a[0];
      Sequences.AppendStep(KeptChild(a[0]), NonEmptyChildren(a + b), NonEmptyChildren(a[1..] + b),
        NonEmptyChildren(a), NonEmptyChildren(a[1..]), NonEmptyChildren(b));
      assert |a| == 1 ==> a[1..] == [] && [a[0]] == a;
    }
  }

  /** One child, unless it is an empty directory tree. */
  function KeptChild(c: Node): seq<Node>
  {
    if IsEmptyTree(c) then [] else [c]
  }

  lemma NonEmptyChildrenUnfold(cs: seq<Node>)
    requires |cs| > 0
    ensures NonEmptyChildren(cs) == KeptChild(cs[0]) + NonEmptyChildren(cs[1..])
  {
  }

  /** `clean_watch_folder`: the watch directory with every empty direct child
      removed; `None` where listing the watch directory raises. */
  function CleanWatchFolder(n: Option<Node>): (r: Option<Node>)
    ensures r.Some? <==> FindEmptyDirectories("", n).Some?
    ensures r.Some? ==> r.value.Dir? && r.value.name == n.value.name
  {
    match n
    case Some(Dir(name, cs)) => Some(Dir(name, NonEmptyChildren(cs)))
    case _ => None
  }

  /** Removing empty trees never removes a file. */
  lemma {:induction false} NonEmptyChildrenKeepFiles(cs: seq<Node>)
    ensures FileCountAll(NonEmptyChildren(cs)) == FileCountAll(cs)
    decreases cs
  {
    if |cs| > 0 {
      NonEmptyChildrenKeepFiles(cs[1..]);
      if IsEmptyTree(cs[0]) {
        EmptyTreeHasNoFiles(cs[0]);
      } else {
        var r := [cs[0]] + NonEmptyChildren(cs[1..]);
        assert r[1..] == NonEmptyChildren(cs[1..]);
      }
    }
  }

  lemma {:induction false} NonEmptyChildrenOfClean(cs: seq<Node>)
    requires forall i :: 0 <= i < |cs| ==> !IsEmptyTree(cs[i])
    ensures NonEmptyChildren(cs) == cs
    decreases cs
  {
    if |cs| > 0 {
      NonEmptyChildrenOfClean(cs[1..]);
      assert [cs[0]] + cs[1..] == cs;
    }
  }

  /** Cleaning keeps every file, leaves no empty direct child behind and is
      idempotent: a second pass finds nothing to remove. */
  lemma CleanWatchFolderSound(n: Option<Node>)
    requires n.Some? && n.value.Dir?
    ensures FileCount(CleanWatchFolder(n).value) == FileCount(n.value)
    ensures FindEmptyDirectories("", CleanWatchFolder(n)).value == []
    ensures CleanWatchFolder(CleanWatchFolder(n)) == CleanWatchFolder(n)
  {
    var cs := n.value.children;
    NonEmptyChildrenKeepFiles(cs);
    NonEmptyChildrenOfClean(NonEmptyChildren(cs));
  }
}
