/** The daemon test cases of PlexFormatterTest.py: `add_file`, `on_created`,
    `find_files` and the janitor, on literal paths and trees. */
module DaemonExamples {
  import opened Strings
  import opened Paths
  import opened Optional
  import opened Settings
  import opened Registry
  import F = FileFormatter
  import L = LegacyFormatter
  import D = Daemon
  import LD = LegacyDaemon
  import DirTree
  import opened TestExamples

  /** The release name the `add_file` tests register, without extension. */
  const AlienRelease: string := "Alien.1979.PROPER.REMASTERED.THEATRICAL.1080p.BluRay.x265-RARBG"

  /** The same release with its year cut out. */
  const YearlessRelease: string := "Alien.PROPER.REMASTERED.THEATRICAL.1080p.BluRay.x265-RARBG"

  // ---------------------------------------------------------------- add_file

  /** The base name of a path with one leading `/` is the rest of it. */
  lemma BasenameOfRooted(x: string)
    requires '/' !in x
    ensures Basename("/" + x) == x
  {
    var p := "/" + x;
    var r := Basename(p);
    assert p[1..] == x;
    assert p[0] == '/' && '/' in p;
    assert forall k :: 1 <= k < |p| ==> p[k] == x[k - 1];
  }

  lemma ChunksHaveNoSlash()
    ensures '/' !in "Alien.1979.PROPER." && '/' !in "Alien.PROPER."
    ensures '/' !in "REMASTERED.THEATRICAL." && '/' !in "1080p.BluRay.x265-RARBG"
  {
  }

  lemma ReleasesHaveNoSlash()
    ensures '/' !in AlienRelease && '/' !in YearlessRelease
  {
    ChunksHaveNoSlash();
    AlienFront();
    AlienWhole();
    AlienTail();
    YearlessWhole();
  }

  /** The base name of `/` followed by a release name and an extension. */
  lemma BasenameOfRelease(release: string, ext: string)
    requires '/' !in release && '/' !in ext
    ensures Basename("/" + release + "." + ext) == release + "." + ext
  {
    assert "/" + release + "." + ext == "/" + (release + "." + ext);
    BasenameOfRooted(release + "." + ext);
  }

  /** A dotted name whose extension is not a video one goes, in the older
      revision, to the non-video root with the name appended, and in the
      newer one to the same path by `os.path.join`. */
  lemma NonVideoDestination(cfg: Config, name: string, ext: string)
    requires '.' !in ext && Lower(ext) !in cfg.extensions
    requires EndsWith(cfg.nonVideoDestination, "/") && |name| > 0 && name[0] != '/'
    ensures L.CreateDestinationPath(cfg, name + "." + ext) == cfg.nonVideoDestination + (name + "." + ext)
    ensures F.CreateDestinationPath(cfg, name + "." + ext) == cfg.nonVideoDestination + (name + "." + ext)
  {
    var f := name + "." + ext;
    assert f[0] == name[0];
    VideoByExtension(cfg, f, name, ext);
    L.DestinationsAgree(cfg, f);
  }

  lemma NonVideoRoot()
    ensures EndsWith(TestConfig.nonVideoDestination, "/")
    ensures TestConfig.extensions == VideoExtensions
    ensures "alien 1979"[0] == 'a'
  {
    assert TestConfig.nonVideoDestination == "/non_video/";
  }

  /** `add_file` of the release name with a non-video extension: the name is
      formatted and the destination is under the non-video root. */
  lemma AddFileNonVideo(ext: string, now: int)
    requires '.' !in ext && '/' !in ext && Lower(ext) !in VideoExtensions
    ensures var e := LD.NewEntry(TestConfig, "/" + AlienRelease + "." + ext, now);
      e.fileName == "alien 1979." + ext && e.destPath == "/non_video/" + ("alien 1979." + ext)
    ensures var e := D.NewEntry(TestConfig, "/" + AlienRelease + "." + ext, now);
      e.fileName == "alien 1979." + ext && e.destPath == "/non_video/" + ("alien 1979." + ext)
  {
    ReleasesHaveNoSlash();
    BasenameOfRelease(AlienRelease, ext);
    AlienFormatted(ext);
    FormattedNonVideoDestination(ext);
  }

  /** Where the formatted name with a non-video extension goes. */
  lemma FormattedNonVideoDestination(ext: string)
    requires '.' !in ext && Lower(ext) !in VideoExtensions
    ensures L.CreateDestinationPath(TestConfig, "alien 1979." + ext) == "/non_video/" + ("alien 1979." + ext)
    ensures F.CreateDestinationPath(TestConfig, "alien 1979." + ext) == "/non_video/" + ("alien 1979." + ext)
  {
    AlienDotName(ext);
    NonVideoRoot();
    NonVideoDestination(TestConfig, "alien 1979", ext);
  }

  lemma AlienDotName(ext: string)
    ensures "alien 1979." + ext == "alien 1979" + "." + ext
  {
    assert "alien 1979." == "alien 1979" + ".";
  }

  lemma ExeNames()
    ensures "alien 1979." + "exe" == "alien 1979.exe"
    ensures "/non_video/" + "alien 1979.exe" == "/non_video/alien 1979.exe"
  {
  }

  /** The second case of `test_add_file`. */
  lemma AddFileExe(now: int)
    ensures var e := LD.NewEntry(TestConfig, "/" + AlienRelease + "." + "exe", now);
      e.fileName == "alien 1979.exe" && e.destPath == "/non_video/alien 1979.exe"
  {
    LowerExe();
    AddFileNonVideo("exe", now);
    ExeNames();
  }

  lemma LowerNameWords()
    ensures "alien 1979" == Join(["alien", "1979"], ' ')
  {
    JoinTwo("alien", "1979");
  }

  lemma LowerAlienHasNoEpisode()
    ensures F.FindEpisodeInfo("alien 1979") == None
  {
    LowerNameWords();
    LowerAlienScan();
    EpisodeOfWords("alien 1979", ["alien", "1979"]);
  }

  lemma LowerAlienScan()
    ensures F.ScanEpisode(["alien", "1979"], None, None) == None
  {
    assert ["alien", "1979"][1..] == ["1979"];
  }

  lemma LowerAlienYear()
    ensures F.FindYear(TestConfig, "alien 1979") == Some("1979")
  {
    LowerNameWords();
    FindYearOfWords(TestConfig, "alien 1979", ["alien", "1979"]);
    LowerAlienFirstYear();
  }

  lemma LowerAlienFirstYear()
    ensures F.FirstYearIndex(TestConfig, ["alien", "1979"], 1) == Some(1)
  {
    assert Lower("1979") == "1979";
  }

  /** `find` of the year in the lower-case name. */
  lemma LowerAlienYearAt()
    ensures Find("alien 1979", "1979") == 6
  {
    var s := "alien 1979";
    assert OccursAt(s, "1979", 6);
    forall j | 0 <= j < 6 ensures !OccursAt(s, "1979", j) {
      assert s[j] != '1';
    }
  }

  /** `str.title` capitalises the first letter of a lower-case word. */
  lemma LowerAlienTitle()
    ensures Title("alien ") == "Alien "
  {
    var t := Title("alien ");
    assert t[0] == 'A' && t[1] == 'l' && t[2] == 'i' && t[3] == 'e' && t[4] == 'n' && t[5] == ' ';
  }

  lemma LowerAlienMovieName()
    ensures F.MovieName("alien 1979", "1979") == "Alien (1979)"
  {
    LowerAlienYearAt();
    assert SlicePrefix("alien 1979", 6) == "alien ";
    LowerAlienTitle();
    AlienParenthesised();
  }

  /** The destination of the formatted movie name: the folder name is
      title-cased again. */
  lemma FormattedMovieDestination()
    ensures L.CreateDestinationPath(TestConfig, "alien 1979.mp4") == "/movie/Alien (1979)/Alien (1979).mp4"
    ensures F.CreateDestinationPath(TestConfig, "alien 1979.mp4") == "/movie/Alien (1979)/Alien (1979).mp4"
  {
    FormattedMovieIsVideo();
    LowerAlienHasNoEpisode();
    LowerAlienYear();
    MovieDestination(TestConfig, "alien 1979.mp4", "alien 1979", ".mp4", "1979");
    LowerAlienMovieName();
    AlienMoviePath();
  }

  /** The formatted movie name is a video. */
  lemma FormattedMovieIsVideo()
    ensures F.SplitExtension("alien 1979.mp4") == F.NameExt("alien 1979", ".mp4")
    ensures F.IsVideo(TestConfig, "alien 1979.mp4")
  {
    MovieNames();
    AlienDotName("mp4");
    F.SplitExtensionOfDotted("alien 1979", "mp4");
    VideoByExtension(TestConfig, "alien 1979.mp4", "alien 1979", "mp4");
    LowerMp4();
  }

  /** The first case of `test_add_file`. */
  lemma AddFileMovie(now: int)
    ensures var e := LD.NewEntry(TestConfig, "/" + AlienRelease + "." + "mp4", now);
      e.fileName == "alien 1979.mp4" && e.destPath == "/movie/Alien (1979)/Alien (1979).mp4"
    ensures var e := D.NewEntry(TestConfig, "/" + AlienRelease + "." + "mp4", now);
      e.fileName == "alien 1979.mp4" && e.destPath == "/movie/Alien (1979)/Alien (1979).mp4"
  {
    ReleasesHaveNoSlash();
    BasenameOfRelease(AlienRelease, "mp4");
    AlienFormatted("mp4");
    MovieNames();
    FormattedMovieDestination();
  }

  lemma MovieNames()
    ensures "alien 1979." + "mp4" == "alien 1979.mp4"
  {
  }

  lemma DottedTwo(a: string, b: string)
    ensures Dotted([a, b]) == (a + ".") + (b + ".")
  {
    DottedOne(b);
    DottedCons(a, [b]);
    assert [a] + [b] == [a, b];
  }

  lemma YearlessHead()
    ensures ("Alien" + ".") + ("PROPER" + ".") == "Alien.PROPER."
  {
  }

  lemma YearlessFront()
    ensures "Alien.PROPER." + "REMASTERED.THEATRICAL." == "Alien.PROPER.REMASTERED.THEATRICAL."
  {
  }

  lemma YearlessBack()
    ensures "Alien.PROPER.REMASTERED.THEATRICAL." + "1080p.BluRay.x265-RARBG" == YearlessRelease
  {
  }

  lemma YearlessWhole()
    ensures "Alien.PROPER." + "REMASTERED.THEATRICAL.1080p.BluRay.x265-RARBG" == YearlessRelease
  {
    YearlessFront();
    YearlessBack();
    AlienTail();
    assert "Alien.PROPER." + ("REMASTERED.THEATRICAL." + "1080p.BluRay.x265-RARBG") ==
      ("Alien.PROPER." + "REMASTERED.THEATRICAL.") + "1080p.BluRay.x265-RARBG";
  }

  lemma YearlessRawName()
    ensures YearlessRelease == Dotted(["Alien", "PROPER"]) + "REMASTERED.THEATRICAL.1080p.BluRay.x265-RARBG"
  {
    DottedTwo("Alien", "PROPER");
    YearlessHead();
    YearlessWhole();
  }

  /** `format_filename` of a name whose second dotted word is its first tag. */
  lemma FormatTwo(cfg: Config, name: string, ext: string, a: string, b: string,
                  la: string, lb: string, rest: string)
    requires name == Dotted([a, b]) + rest && '.' !in ext
    requires AlnumWord(a) && AlnumWord(b)
    requires Lower(a) == la && Lower(b) == lb
    requires !F.IsTag(cfg, la) && F.IsTag(cfg, lb)
    ensures F.FormatFilename(cfg, name + "." + ext) == la + "." + ext
    ensures L.FormatFilename(cfg, name + "." + ext) == la + "." + ext
  {
    var raw := [a, b];
    assert LowerAll(raw) == [la, lb];
    assert F.IsTag(cfg, Lower(raw[1]));
    assert F.TakeUntilTag(cfg, [la, lb]) == [la];
    assert Join([la], ' ') == la;
    FormatLeading(cfg, name, ext, raw, rest);
  }

  /** Both revisions format the year-less release to its first word. */
  lemma YearlessFormatted()
    ensures L.FormatFilename(TestConfig, YearlessRelease + "." + "mp4") == "alien" + "." + "mp4"
    ensures F.FormatFilename(TestConfig, YearlessRelease + "." + "mp4") == "alien" + "." + "mp4"
  {
    YearlessRawName();
    LowerAlien();
    LowerProper();
    NotTagAlien();
    ProperIsTag();
    FormatTwo(TestConfig, YearlessRelease, "mp4", "Alien", "PROPER", "alien", "proper",
      "REMASTERED.THEATRICAL.1080p.BluRay.x265-RARBG");
  }

  /** One word of neither three nor six characters holds no episode marker,
      and no year either: the year search skips the first word. */
  lemma OneWordIsMisc(cfg: Config, w: string)
    requires ' ' !in w && |w| != 3 && |w| != 6
    ensures F.FindEpisodeInfo(w).None? && F.FindYear(cfg, w).None?
  {
    assert Split(w, ' ') == [w];
    assert [w][1..] == [];
  }

  /** A one-word video name goes to the misc root: appended to it in the
      older revision, joined to it in the newer one. */
  lemma MiscDestination(cfg: Config, w: string, ext: string)
    requires ' ' !in w && '.' !in ext && |w| != 3 && |w| != 6 && Lower(ext) in cfg.extensions
    ensures L.CreateDestinationPath(cfg, w + "." + ext) == cfg.miscDestination + (w + "." + ext)
    ensures F.CreateDestinationPath(cfg, w + "." + ext) == PathJoin(cfg.miscDestination, w + "." + ext)
  {
    F.SplitExtensionOfDotted(w, ext);
    VideoByExtension(cfg, w + "." + ext, w, ext);
    OneWordIsMisc(cfg, w);
    assert F.Classify(cfg, w + "." + ext) == F.MiscLayout;
  }

  lemma TestNames()
    ensures "test" + "." + "mp4" == "test.mp4"
    ensures PathJoin("/misc/", "test.mp4") == "/misc/" + "test.mp4" == "/misc/test.mp4"
    ensures ' ' !in "test" && ' ' !in "alien"
  {
  }

  lemma TestExtensions()
    ensures TestConfig.extensions == VideoExtensions && TestConfig.miscDestination == "/misc/"
    ensures Lower("mp4") in TestConfig.extensions
  {
    LowerMp4();
  }

  /** The third case of `test_create_destination_path`. */
  lemma MiscExample()
    ensures L.CreateDestinationPath(TestConfig, "test.mp4") == "/misc/test.mp4"
    ensures F.CreateDestinationPath(TestConfig, "test.mp4") == "/misc/test.mp4"
  {
    TestNames();
    TestExtensions();
    MiscDestination(TestConfig, "test", "mp4");
  }

  lemma MiscNames()
    ensures "alien" + "." + "mp4" == "alien.mp4"
    ensures "/misc/" + "alien.mp4" == "/misc/alien.mp4"
  {
  }

  /** Where the formatted year-less name goes. */
  lemma YearlessDestination()
    ensures L.CreateDestinationPath(TestConfig, "alien.mp4") == "/misc/alien.mp4"
  {
    TestNames();
    TestExtensions();
    MiscDestination(TestConfig, "alien", "mp4");
    MiscNames();
  }

  /** The third case of `test_add_file`: no year is left, so the file goes
      to the misc root. */
  lemma AddFileMisc(now: int)
    ensures var e := LD.NewEntry(TestConfig, "/" + YearlessRelease + "." + "mp4", now);
      e.fileName == "alien.mp4" && e.destPath == "/misc/alien.mp4"
  {
    ReleasesHaveNoSlash();
    BasenameOfRelease(YearlessRelease, "mp4");
    YearlessFormatted();
    MiscNames();
    YearlessDestination();
  }

  // -------------------------------------------------------------- on_created

  /** `test_on_created`: a directory event registers nothing, two file
      events register two entries, in both revisions. */
  lemma OnCreatedExample(now: int)
    ensures |LD.OnCreated(TestConfig, LD.OnCreated(TestConfig, LD.OnCreated(TestConfig, [],
      Event("/watch/deeper", true), now), Event("/watch/test.mkv", false), now), Event("/watch/test", false), now)| == 2
    ensures |D.OnCreated(TestConfig, D.OnCreated(TestConfig, D.OnCreated(TestConfig, [],
      Event("/watch/deeper", true), now), Event("/watch/test.mkv", false), now), Event("/watch/test", false), now)| == 2
  {
  }

  // -------------------------------------------------------------- find_files

  /** A watch folder holding a file with no extension and a video. */
  const Plain: DirTree.Node := DirTree.Dir("watch", [DirTree.File("test"), DirTree.File("test.mp4")])

  /** The walk of a folder holding two files lists both, in order. */
  lemma TwoFilePaths(path: string, name: string, a: string, b: string)
    ensures DirTree.FilePaths(path, Some(DirTree.Dir(name, [DirTree.File(a), DirTree.File(b)]))) ==
      [PathJoin(path, a), PathJoin(path, b)]
  {
    var cs := [DirTree.File(a), DirTree.File(b)];
    assert cs[1..] == [DirTree.File(b)];
    assert cs[1..][1..] == [];
    assert DirTree.ChildrenFilePaths(path, cs[1..][1..]) == [];
    assert DirTree.NodeFilePaths(PathJoin(path, b), cs[1]) == [PathJoin(path, b)];
    assert DirTree.ChildrenFilePaths(path, cs[1..]) == [PathJoin(path, b)];
    assert DirTree.NodeFilePaths(PathJoin(path, a), cs[0]) == [PathJoin(path, a)];
    assert DirTree.ChildrenFilePaths(path, cs) == [PathJoin(path, a)] + [PathJoin(path, b)];
  }

  lemma PlainJoins()
    ensures PathJoin("/watch", "test") == "/watch/test"
    ensures PathJoin("/watch", "test.mp4") == "/watch/test.mp4"
  {
  }

  lemma PlainPaths()
    ensures DirTree.FilePaths("/watch", Some(Plain)) == ["/watch/test", "/watch/test.mp4"]
  {
    TwoFilePaths("/watch", "watch", "test", "test.mp4");
    PlainJoins();
  }

  /** A name without a dot has no extension, so it is no video. */
  lemma DotlessIsNoVideo(cfg: Config, s: string)
    requires '.' !in s
    ensures !F.IsVideo(cfg, s)
  {
  }

  lemma PlainNoVideo()
    ensures !F.IsVideo(TestConfig, "/watch/test")
  {
    assert "/watch/test" == "/watch" + "/" + "test";
    assert '.' !in "/watch" && '.' !in "test";
    DotlessIsNoVideo(TestConfig, "/watch/test");
  }

  lemma PlainVideos()
    ensures !F.IsVideo(TestConfig, "/watch/test") && F.IsVideo(TestConfig, "/watch/test.mp4")
  {
    PlainNoVideo();
    PlainVideo();
  }

  lemma PlainVideoName()
    ensures "/watch/test.mp4" == "/watch/test" + "." + "mp4"
  {
  }

  lemma PlainVideo()
    ensures F.IsVideo(TestConfig, "/watch/test.mp4")
  {
    PlainVideoName();
    VideoByExtension(TestConfig, "/watch/test.mp4", "/watch/test", "mp4");
    LowerMp4();
  }

  /** Filtering two paths keeps the second alone when only it is a video. */
  lemma FilterSecond(cfg: Config, p: string, q: string)
    requires !F.IsVideo(cfg, p) && F.IsVideo(cfg, q)
    ensures DirTree.FilterVideo(cfg, [p, q]) == [q]
  {
    assert [p, q][1..] == [q];
    assert [q][1..] == [];
    assert DirTree.FilterVideo(cfg, [q]) == [q] + DirTree.FilterVideo(cfg, []);
    assert DirTree.FilterVideo(cfg, [p, q]) == [] + DirTree.FilterVideo(cfg, [q]);
  }

  /** `test_find_files` asks for the file with no extension to be tracked:
      the newer scan registers it, the older one registers only the video. */
  lemma FindFilesExample(now: int)
    ensures |D.FindFiles(TestConfig, [], "/watch", Some(Plain), now)| == 2
    ensures |LD.FindFiles(TestConfig, [], "/watch", Some(Plain), now)| == 1
    ensures LD.FindFiles(TestConfig, [], "/watch", Some(Plain), now)[0].srcPath == "/watch/test.mp4"
  {
    NewerFindsBoth(now);
    OlderFindsVideo(now);
  }

  lemma NewerFindsBoth(now: int)
    ensures |D.FindFiles(TestConfig, [], "/watch", Some(Plain), now)| == 2
  {
    PlainPaths();
  }

  lemma OlderFindsVideo(now: int)
    ensures |LD.FindFiles(TestConfig, [], "/watch", Some(Plain), now)| == 1
    ensures LD.FindFiles(TestConfig, [], "/watch", Some(Plain), now)[0].srcPath == "/watch/test.mp4"
  {
    PlainFilter();
  }

  lemma PlainFilter()
    ensures DirTree.FilterVideo(TestConfig, DirTree.FilePaths("/watch", Some(Plain))) == ["/watch/test.mp4"]
  {
    PlainPaths();
    PlainVideos();
    FilterSecond(TestConfig, "/watch/test", "/watch/test.mp4");
  }

  // ----------------------------------------------------------------- janitor

  /** The nested empty folders of the janitor tests. */
  const Empty: DirTree.Node := DirTree.Dir("empty", [DirTree.Dir("empty", [])])

  /** The watch folder of the janitor tests. */
  const Watch: DirTree.Node := DirTree.Dir("watch", [DirTree.File("test"), Empty, DirTree.File("test.mp4")])

  /** A folder holding only an empty folder is an empty tree. */
  lemma NestedEmpty(a: string, b: string)
    ensures DirTree.IsEmptyTree(DirTree.Dir(a, [DirTree.Dir(b, [])]))
  {
    assert DirTree.IsEmptyTree(DirTree.Dir(b, []));
  }

  /** `test_is_empty_directory_tree`. */
  lemma EmptyTreeExamples()
    ensures DirTree.IsEmptyDirectoryTree(Some(Empty))
    ensures !DirTree.IsEmptyDirectoryTree(Some(Watch))
  {
    NestedEmpty("empty", "empty");
    assert !Watch.children[0].Dir?;
  }

  /** The empty folders among a file, a folder and a file. */
  lemma MiddleOnly(path: string, a: string, d: DirTree.Node, b: string)
    requires DirTree.IsEmptyTree(d)
    ensures DirTree.EmptyChildPaths(path, [DirTree.File(a), d, DirTree.File(b)]) == [PathJoin(path, d.name)]
  {
    var fa, fb := DirTree.File(a), DirTree.File(b);
    assert [fa, d, fb] == [fa] + ([d] + [fb]);
    DirTree.EmptyChildPathsAppend(path, [fa], [d] + [fb]);
    DirTree.EmptyChildPathsAppend(path, [d], [fb]);
    DirTree.EmptyChildPathsAppend(path, [fb], []);
  }

  /** `test_find_empty_directories`. */
  lemma FindEmptyExample()
    ensures DirTree.FindEmptyDirectories("/watch", Some(Watch)) == Some(["/watch/empty"])
  {
    NestedEmpty("empty", "empty");
    MiddleOnly("/watch", "test", Empty, "test.mp4");
    EmptyJoin();
  }

  lemma EmptyJoin()
    ensures PathJoin("/watch", "empty") == "/watch/empty"
  {
  }

  /** Cleaning a file, an empty folder and a file leaves the two files. */
  lemma CleanMiddle(a: string, d: DirTree.Node, b: string)
    requires DirTree.IsEmptyTree(d)
    ensures DirTree.NonEmptyChildren([DirTree.File(a), d, DirTree.File(b)]) == [DirTree.File(a), DirTree.File(b)]
  {
    var fa, fb := DirTree.File(a), DirTree.File(b);
    assert [fa, d, fb] == [fa] + ([d] + [fb]);
    DirTree.NonEmptyChildrenAppend([fa], [d] + [fb]);
    DirTree.NonEmptyChildrenAppend([d], [fb]);
    DirTree.NonEmptyChildrenAppend([fb], []);
  }

  /** `test_clean_watch_folder`: the empty folder goes, the files stay. */
  lemma CleanExample()
    ensures DirTree.CleanWatchFolder(Some(Watch)) ==
      Some(DirTree.Dir("watch", [DirTree.File("test"), DirTree.File("test.mp4")]))
  {
    NestedEmpty("empty", "empty");
    CleanMiddle("test", Empty, "test.mp4");
  }

  // ------------------------------------------------------ check_tracked_files

  /** With the default delay, a file registered or refreshed at `t` is still
      waiting at `t + 60` and is acted on, once, by the tick at `t + 61`. */
  lemma DefaultDelayExample(cfg: Config, path: string, t: int)
    ensures var f := D.NewEntry(cfg, path, t);
      && D.CheckTrackedFiles(cfg, [f], DefaultDelayBeforeMoving, t + 60) == D.Tick([f], [])
      && D.CheckTrackedFiles(cfg, [f], DefaultDelayBeforeMoving, t + 61) == D.Tick([], [D.ActionFor(cfg, f)])
  {
    var f := D.NewEntry(cfg, path, t);
    D.NotDueAppend([f], [], DefaultDelayBeforeMoving, t + 60);
    D.DueActionsAppend(cfg, [f], [], DefaultDelayBeforeMoving, t + 60);
    D.NotDueAppend([f], [], DefaultDelayBeforeMoving, t + 61);
    D.DueActionsAppend(cfg, [f], [], DefaultDelayBeforeMoving, t + 61);
  }
}
