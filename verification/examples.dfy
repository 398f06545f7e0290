/** The unit-test cases of PlexFormatterTest.py, each checked against the
    revision that defines the method the test calls. */
module TestExamples {
  import opened Strings
  import opened Paths
  import opened Optional
  import opened Settings
  import F = FileFormatter
  import L = LegacyFormatter

  /** The configuration of the formatter tests: one extra tag and four
      destination roots. */
  const TestConfig: Config := Default.(
    tags := Tags + {"tag"},
    miscDestination := "/misc/",
    movieDestination := "/movie/",
    showDestination := "/show/",
    nonVideoDestination := "/non_video/")

  lemma SplitExtensionExamples()
    ensures F.SplitExtension("test.ext") == F.NameExt("test", ".ext")
    ensures F.SplitExtension("test") == F.NameExt("test", "")
  {
    F.SplitExtensionOfDotted("test", "ext");
    assert "test" + "." + "ext" == "test.ext";
  }

  /** `is_video` of a dotted name depends only on the text after the dot,
      in both revisions. */
  lemma VideoByExtension(cfg: Config, s: string, name: string, ext: string)
    requires '.' !in ext && s == name + "." + ext
    ensures F.IsVideo(cfg, s) <==> Lower(ext) in cfg.extensions
    ensures L.IsVideo(cfg, s) <==> Lower(ext) in cfg.extensions
  {
    F.SplitExtensionOfDotted(name, ext);
    L.IsVideoAgrees(cfg, s);
    assert F.RemoveDot("." + ext) == ext;
  }

  lemma LowerMp4()
    ensures Lower("mp4") in VideoExtensions
  {
    assert Lower("mp4") == "mp4";
  }

  lemma LowerExe()
    ensures Lower("exe") !in VideoExtensions
  {
    assert Lower("exe") == "exe";
  }

  lemma IsVideoMp4()
    ensures F.IsVideo(TestConfig, "test.mp4") && L.IsVideo(TestConfig, "test.mp4")
  {
    VideoByExtension(TestConfig, "test.mp4", "test", "mp4");
    LowerMp4();
  }

  lemma IsVideoExe()
    ensures !F.IsVideo(TestConfig, "test.exe") && !L.IsVideo(TestConfig, "test.exe")
  {
    VideoByExtension(TestConfig, "test.exe", "test", "exe");
    LowerExe();
  }

  lemma IsTagExamples()
    ensures F.IsTag(TestConfig, "1080p") && !F.IsTag(TestConfig, "test")
  {
    Tag1080p();
    NotTagTest();
  }

  /** A literal name read as its space-separated words. */
  lemma WordsOf(s: string, words: seq<string>)
    requires |words| >= 1 && forall i :: 0 <= i < |words| ==> ' ' !in words[i]
    requires s == Join(words, ' ')
    ensures Split(s, ' ') == words
  {
    SplitJoin(words, ' ');
  }

  lemma FindYearOfWords(cfg: Config, s: string, words: seq<string>)
    requires |words| >= 1 && forall i :: 0 <= i < |words| ==> ' ' !in words[i]
    requires s == Join(words, ' ')
    ensures F.FindYear(cfg, s) ==
      match F.FirstYearIndex(cfg, words, 1)
      case Some(i) => Some(words[i])
      case None => None
  {
    WordsOf(s, words);
  }

  lemma NotYear1080()
    ensures !F.IsYearWord(TestConfig, "1080")
  {
    TagOfLower(TestConfig, "1080");
  }

  lemma Year1995()
    ensures F.IsYearWord(TestConfig, "1995")
  {
    TagOfLower(TestConfig, "1995");
  }

  lemma FirstYearOfExample()
    ensures F.FirstYearIndex(TestConfig, ["test", "1080p", "1080", "1995"], 1) == Some(3)
  {
    NotYear1080();
    Year1995();
  }

  lemma FindYearExample()
    ensures F.FindYear(TestConfig, "test 1080p 1080 1995") == Some("1995")
  {
    FindYearOfWords(TestConfig, "test 1080p 1080 1995", ["test", "1080p", "1080", "1995"]);
    FirstYearOfExample();
  }

  lemma EpisodeOfWords(s: string, words: seq<string>)
    requires |words| >= 1 && forall i :: 0 <= i < |words| ==> ' ' !in words[i]
    requires s == Join(words, ' ')
    ensures F.FindEpisodeInfo(s) == F.ScanEpisode(words, None, None)
  {
    WordsOf(s, words);
  }

  lemma ScanCombined()
    ensures F.ScanEpisode(["test", "s01e99"], None, None) == Some(("s01", "e99"))
  {
    assert "s01e99"[..3] == "s01";
    assert "s01e99"[3..] == "e99";
  }

  lemma ScanSeparate()
    ensures F.ScanEpisode(["test", "s01", "e99"], None, None) == Some(("s01", "e99"))
  {
    assert F.ScanEpisode(["test", "s01", "e99"], None, None) == F.ScanEpisode(["s01", "e99"], None, None);
    assert F.ScanEpisode(["s01", "e99"], None, None) == F.ScanEpisode(["e99"], Some("s01"), None);
  }

  lemma ScanSeasonOnly()
    ensures F.ScanEpisode(["test", "s01"], None, None) == None
  {
    assert F.ScanEpisode(["test", "s01"], None, None) == F.ScanEpisode(["s01"], None, None);
    assert F.ScanEpisode(["s01"], None, None) == F.ScanEpisode([], Some("s01"), None);
  }

  lemma FindEpisodeCombined()
    ensures F.FindEpisodeInfo("test s01e99") == Some(("s01", "e99"))
  {
    EpisodeOfWords("test s01e99", ["test", "s01e99"]);
    ScanCombined();
  }

  lemma FindEpisodeSeparate()
    ensures F.FindEpisodeInfo("test s01 e99") == Some(("s01", "e99"))
  {
    EpisodeOfWords("test s01 e99", ["test", "s01", "e99"]);
    ScanSeparate();
  }

  lemma FindEpisodeSeasonOnly()
    ensures F.FindEpisodeInfo("test s01") == None
  {
    EpisodeOfWords("test s01", ["test", "s01"]);
    ScanSeasonOnly();
  }

  lemma RemoveSymbolsPieces(s: string, a: string, b: string, ra: string, rb: string)
    requires s == a + b && L.RemoveSymbols(a) == ra && L.RemoveSymbols(b) == rb
    ensures L.RemoveSymbols(s) == ra + rb
  {
    L.RemoveSymbolsAppend(a, b);
  }

  lemma RemoveSymbolsFirstHalf()
    ensures L.RemoveSymbols("    tes>") == "tes"
  {
  }

  lemma RemoveSymbolsSecondHalf()
    ensures L.RemoveSymbols("t12+34.?") == "t1234"
  {
  }

  lemma RemoveSymbolsHalves()
    ensures "    tes>" + "t12+34.?" == "    tes>t12+34.?"
    ensures "tes" + "t1234" == "test1234"
  {
  }

  lemma RemoveSymbolsExample()
    ensures L.RemoveSymbols("    tes>t12+34.?") == "test1234"
  {
    RemoveSymbolsHalves();
    RemoveSymbolsFirstHalf();
    RemoveSymbolsSecondHalf();
    RemoveSymbolsPieces("    tes>t12+34.?", "    tes>", "t12+34.?", "tes", "t1234");
  }

  // ------------------------------------------------ create_destination_path

  /** The destination of a video file with a year and no episode marker,
      in both revisions. */
  lemma MovieDestination(cfg: Config, f: string, name: string, ext: string, year: string)
    requires F.SplitExtension(f) == F.NameExt(name, ext) && F.IsVideo(cfg, f)
    requires F.FindEpisodeInfo(name).None? && F.FindYear(cfg, name) == Some(year)
    ensures F.CreateDestinationPath(cfg, f) == F.MoviePath(cfg.movieDestination, F.MovieName(name, year), ext)
    ensures L.CreateDestinationPath(cfg, f) == F.CreateDestinationPath(cfg, f)
  {
    L.DestinationsAgree(cfg, f);
  }

  lemma PathJoinAllTwo(root: string, a: string, b: string)
    ensures PathJoinAll(root, [a, b]) == PathJoin(PathJoin(root, a), b)
  {
    PathJoinAllOne(root, a);
    assert [a, b][..1] == [a];
    assert PathJoinAll(root, [a, b]) == PathJoin(PathJoinAll(root, [a]), b);
  }

  lemma PathJoinAllOne(root: string, a: string)
    ensures PathJoinAll(root, [a]) == PathJoin(root, a)
  {
    assert [a][..0] == [];
    assert PathJoinAll(root, [a]) == PathJoin(PathJoinAll(root, []), a);
  }

  lemma PathJoinAllThree(root: string, a: string, b: string, c: string)
    ensures PathJoinAll(root, [a, b, c]) == PathJoin(PathJoin(PathJoin(root, a), b), c)
  {
    assert [a, b, c][..2] == [a, b];
    PathJoinAllTwo(root, a, b);
  }

  lemma AlienWordsJoin()
    ensures "Alien 1979" == Join(["Alien", "1979"], ' ')
  {
    JoinTwo("Alien", "1979");
  }

  lemma AlienScan()
    ensures F.ScanEpisode(["Alien", "1979"], None, None) == None
  {
    assert ["Alien", "1979"][1..] == ["1979"];
  }

  lemma AlienHasNoEpisode()
    ensures F.FindEpisodeInfo("Alien 1979") == None
  {
    AlienWordsJoin();
    AlienScan();
    EpisodeOfWords("Alien 1979", ["Alien", "1979"]);
  }

  lemma AlienYear()
    ensures F.FindYear(TestConfig, "Alien 1979") == Some("1979")
  {
    FindYearOfWords(TestConfig, "Alien 1979", ["Alien", "1979"]);
    AlienFirstYear();
  }

  lemma AlienFirstYear()
    ensures F.FirstYearIndex(TestConfig, ["Alien", "1979"], 1) == Some(1)
  {
    assert Lower("1979") == "1979";
  }

  lemma AlienYearAt()
    ensures Find("Alien 1979", "1979") == 6
  {
    var s := "Alien 1979";
    assert OccursAt(s, "1979", 6);
    forall j | 0 <= j < 6 ensures !OccursAt(s, "1979", j) {
      assert s[j] != '1';
    }
  }

  lemma AlienPrefix()
    ensures SlicePrefix("Alien 1979", 6) == "Alien "
  {
  }

  lemma AlienTitle()
    ensures Title("Alien ") == "Alien "
  {
  }

  lemma AlienParenthesised()
    ensures "Alien " + "(" + "1979" + ")" == "Alien (1979)"
  {
  }

  lemma AlienMovieName()
    ensures F.MovieName("Alien 1979", "1979") == "Alien (1979)"
  {
    AlienYearAt();
    AlienPrefix();
    AlienTitle();
    AlienParenthesised();
  }

  lemma MoviePathOf(root: string, m: string, ext: string, folder: string, p: string)
    requires PathJoin(root, m) == folder && PathJoin(folder, m + ext) == p
    ensures F.MoviePath(root, m, ext) == p
  {
    PathJoinAllTwo(root, m, m + ext);
  }

  lemma AlienMovieFolder()
    ensures PathJoin("/movie/", "Alien (1979)") == "/movie/Alien (1979)"
  {
  }

  lemma AlienMovieFile()
    ensures PathJoin("/movie/Alien (1979)", "Alien (1979)" + ".mp4") == "/movie/Alien (1979)/Alien (1979).mp4"
  {
  }

  lemma AlienMoviePath()
    ensures F.MoviePath("/movie/", "Alien (1979)", ".mp4") == "/movie/Alien (1979)/Alien (1979).mp4"
  {
    AlienMovieFolder();
    AlienMovieFile();
    MoviePathOf("/movie/", "Alien (1979)", ".mp4", "/movie/Alien (1979)", "/movie/Alien (1979)/Alien (1979).mp4");
  }

  lemma AlienFileName()
    ensures "Alien 1979" + "." + "mp4" == "Alien 1979.mp4"
  {
  }

  lemma AlienIsVideo()
    ensures F.SplitExtension("Alien 1979.mp4") == F.NameExt("Alien 1979", ".mp4")
    ensures F.IsVideo(TestConfig, "Alien 1979.mp4")
  {
    AlienFileName();
    F.SplitExtensionOfDotted("Alien 1979", "mp4");
    VideoByExtension(TestConfig, "Alien 1979.mp4", "Alien 1979", "mp4");
    LowerMp4();
  }

  lemma AlienDestination()
    ensures F.CreateDestinationPath(TestConfig, "Alien 1979.mp4") == "/movie/Alien (1979)/Alien (1979).mp4"
    ensures L.CreateDestinationPath(TestConfig, "Alien 1979.mp4") == "/movie/Alien (1979)/Alien (1979).mp4"
  {
    AlienIsVideo();
    AlienHasNoEpisode();
    AlienYear();
    MovieDestination(TestConfig, "Alien 1979.mp4", "Alien 1979", ".mp4", "1979");
    AlienMovieName();
    AlienMoviePath();
  }

  /** The destination of a video file with an episode marker, in both
      revisions. */
  lemma ShowDestination(cfg: Config, f: string, name: string, ext: string, season: string, episode: string)
    requires F.SplitExtension(f) == F.NameExt(name, ext) && F.IsVideo(cfg, f)
    requires F.FindEpisodeInfo(name) == Some((season, episode))
    ensures |season| == 3
    ensures F.CreateDestinationPath(cfg, f) ==
      F.ShowPath(cfg.showDestination, F.ShowName(name, season), season, episode, ext)
    ensures L.CreateDestinationPath(cfg, f) == F.CreateDestinationPath(cfg, f)
  {
    L.DestinationsAgree(cfg, f);
  }

  lemma StrangerFileName()
    ensures "Stranger Things s01e01" + "." + "mp4" == "Stranger Things s01e01.mp4"
  {
  }

  lemma StrangerIsVideo()
    ensures F.SplitExtension("Stranger Things s01e01.mp4") == F.NameExt("Stranger Things s01e01", ".mp4")
    ensures F.IsVideo(TestConfig, "Stranger Things s01e01.mp4")
  {
    StrangerFileName();
    F.SplitExtensionOfDotted("Stranger Things s01e01", "mp4");
    VideoByExtension(TestConfig, "Stranger Things s01e01.mp4", "Stranger Things s01e01", "mp4");
    LowerMp4();
  }

  lemma StrangerScan()
    ensures F.ScanEpisode(["Stranger", "Things", "s01e01"], None, None) == Some(("s01", "e01"))
  {
    assert !F.IsCombinedWord("Things");
    assert F.ScanEpisode(["Stranger", "Things", "s01e01"], None, None) == F.ScanEpisode(["Things", "s01e01"], None, None);
    assert F.ScanEpisode(["Things", "s01e01"], None, None) == F.ScanEpisode(["s01e01"], None, None);
    assert "s01e01"[..3] == "s01" && "s01e01"[3..] == "e01";
  }

  lemma StrangerEpisode()
    ensures F.FindEpisodeInfo("Stranger Things s01e01") == Some(("s01", "e01"))
  {
    EpisodeOfWords("Stranger Things s01e01", ["Stranger", "Things", "s01e01"]);
    StrangerScan();
  }

  lemma StrangerSeasonAt()
    ensures Find("Stranger Things s01e01", "s01") == 16
  {
    var s := "Stranger Things s01e01";
    assert OccursAt(s, "s01", 16);
    forall j | 0 <= j < 16 ensures !OccursAt(s, "s01", j) {
      assert s[j] != 's' || s[j + 1] != '0';
    }
  }

  lemma StrangerShowName()
    ensures F.ShowName("Stranger Things s01e01", "s01") == "Stranger Things"
  {
    StrangerSeasonAt();
    StrangerPrefix();
    StrangerTitle();
  }

  /** A name that starts with its season marker loses its last character
      instead of a separating space. */
  lemma MarkerFirstShowName()
    ensures F.ShowName("s01e01", "s01") == "S01E0"
  {
    F.ShowNameMarkerFirst("s01e01", "s01");
    assert "s01e01"[..5] == "s01e0";
    assert Title("s01e0") == "S01E0";
  }

  lemma StrangerPrefix()
    ensures SlicePrefix("Stranger Things s01e01", 15) == "Stranger Things"
  {
  }

  /** A name whose words are already capitalised is its own title case. */
  lemma TitleOfWords(a: string, b: string)
    requires |a| > 0 && 'A' <= a[0] <= 'Z' && forall i :: 0 < i < |a| ==> 'a' <= a[i] <= 'z'
    requires |b| > 0 && 'A' <= b[0] <= 'Z' && forall i :: 0 < i < |b| ==> 'a' <= b[i] <= 'z'
    ensures Title(a + " " + b) == a + " " + b
  {
    var s := a + " " + b;
    forall i | 0 <= i < |s| ensures Title(s)[i] == s[i] {
      if i < |a| {
        assert s[i] == a[i];
        if i > 0 { assert s[i - 1] == a[i - 1]; }
      } else if i > |a| {
        assert s[i] == b[i - |a| - 1];
        if i > |a| + 1 { assert s[i - 1] == b[i - |a| - 2]; }
      }
    }
  }

  lemma StrangerTitle()
    ensures Title("Stranger Things") == "Stranger Things"
  {
    TitleOfWords("Stranger", "Things");
    assert "Stranger" + " " + "Things" == "Stranger Things";
  }

  lemma ShowPathOf(root: string, n: string, season: string, episode: string, ext: string,
                   folder: string, seasonFolder: string, p: string)
    requires |season| >= 1
    requires PathJoin(root, n) == folder
    requires PathJoin(folder, "Season " + season[1..]) == seasonFolder
    requires PathJoin(seasonFolder, n + " - " + season + episode + ext) == p
    ensures F.ShowPath(root, n, season, episode, ext) == p
  {
    PathJoinAllThree(root, n, "Season " + season[1..], n + " - " + season + episode + ext);
  }

  lemma StrangerFolders()
    ensures PathJoin("/show/", "Stranger Things") == "/show/Stranger Things"
    ensures PathJoin("/show/Stranger Things", "Season " + "s01"[1..]) == "/show/Stranger Things/Season 01"
  {
    assert "Season " + "s01"[1..] == "Season 01";
  }

  lemma StrangerFileParts()
    ensures "Stranger Things" + " - " + "s01" + "e01" + ".mp4" == "Stranger Things - s01e01.mp4"
  {
  }

  lemma StrangerFileJoin()
    ensures PathJoin("/show/Stranger Things/Season 01", "Stranger Things - s01e01.mp4")
      == "/show/Stranger Things/Season 01/Stranger Things - s01e01.mp4"
  {
    var a, b := "/show/Stranger Things/Season 01", "Stranger Things - s01e01.mp4";
    assert a[|a| - 1] == '1' && b[0] == 'S';
    assert a + "/" + b == "/show/Stranger Things/Season 01/Stranger Things - s01e01.mp4";
  }

  lemma StrangerFile()
    ensures PathJoin("/show/Stranger Things/Season 01", "Stranger Things" + " - " + "s01" + "e01" + ".mp4")
      == "/show/Stranger Things/Season 01/Stranger Things - s01e01.mp4"
  {
    StrangerFileParts();
    StrangerFileJoin();
  }

  lemma StrangerShowPath()
    ensures F.ShowPath("/show/", "Stranger Things", "s01", "e01", ".mp4") ==
      "/show/Stranger Things/Season 01/Stranger Things - s01e01.mp4"
  {
    StrangerFolders();
    StrangerFile();
    ShowPathOf("/show/", "Stranger Things", "s01", "e01", ".mp4", "/show/Stranger Things",
      "/show/Stranger Things/Season 01", "/show/Stranger Things/Season 01/Stranger Things - s01e01.mp4");
  }

  lemma StrangerDestination()
    ensures F.CreateDestinationPath(TestConfig, "Stranger Things s01e01.mp4") ==
      "/show/Stranger Things/Season 01/Stranger Things - s01e01.mp4"
    ensures L.CreateDestinationPath(TestConfig, "Stranger Things s01e01.mp4") ==
      "/show/Stranger Things/Season 01/Stranger Things - s01e01.mp4"
  {
    StrangerIsVideo();
    StrangerEpisode();
    ShowDestination(TestConfig, "Stranger Things s01e01.mp4", "Stranger Things s01e01", ".mp4", "s01", "e01");
    StrangerShowName();
    StrangerShowPath();
  }

  // -------------------------------------------------------- format_filename

  /** The text the newer revision splits: lower-cased, symbols made spaces. */
  function Normalised(s: string): string
  {
    F.ChangeSymbols(Lower(s), " ")
  }

  /** The text the older revision splits: lower-cased, dots made spaces. */
  function Dotless(s: string): string
  {
    ReplaceChar(Lower(s), '.', ' ')
  }

  lemma ReplaceCharAppend(a: string, b: string)
    ensures ReplaceChar(a + b, '.', ' ') == ReplaceChar(a, '.', ' ') + ReplaceChar(b, '.', ' ')
  {
    var r := ReplaceChar(a + b, '.', ' ');
    var t := ReplaceChar(a, '.', ' ') + ReplaceChar(b, '.', ' ');
    forall i | 0 <= i < |r| ensures r[i] == t[i] {
      if i < |a| {
        assert (a + b)[i] == a[i];
      } else {
        assert (a + b)[i] == b[i - |a|];
      }
    }
  }

  lemma NormalisedAppend(a: string, b: string)
    ensures Normalised(a + b) == Normalised(a) + Normalised(b)
    ensures Dotless(a + b) == Dotless(a) + Dotless(b)
  {
    LowerAppend(a, b);
    F.ChangeSymbolsAppend(Lower(a), Lower(b), " ");
    ReplaceCharAppend(Lower(a), Lower(b));
  }

  /** Words each followed by one space. */
  function Spaced(words: seq<string>): string
  {
    if |words| == 0 then "" else words[0] + " " + Spaced(words[1..])
  }

  /** Spaced words in front of a join extend the join. */
  lemma {:induction false} JoinAfterSpaced(words: seq<string>, rest: seq<string>)
    requires |rest| >= 1
    ensures Join(words + rest, ' ') == Spaced(words) + Join(rest, ' ')
  {
    if |words| > 0 {
      JoinAfterSpaced(words[1..], rest);
      var w := words[0];
      assert (words + rest)[1..] == words[1..] + rest;
      assert |words + rest| >= 2;
      assert Join(words + rest, ' ') == w + " " + Join(words[1..] + rest, ' ');
    } else {
      assert words + rest == rest;
    }
  }

  /** Splitting spaced words followed by any text yields the words first. */
  lemma SplitSpaced(words: seq<string>, t: string)
    requires forall i :: 0 <= i < |words| ==> ' ' !in words[i]
    ensures Split(Spaced(words) + t, ' ') == words + Split(t, ' ')
  {
    var rest := Split(t, ' ');
    JoinSplit(t, ' ');
    JoinAfterSpaced(words, rest);
    SplitJoin(words + rest, ' ');
  }

  lemma RemoveSymbolsAllAppend(words: seq<string>, rest: seq<string>)
    requires forall i :: 0 <= i < |words| ==> L.RemoveSymbols(words[i]) == words[i]
    ensures L.RemoveSymbolsAll(words + rest) == words + L.RemoveSymbolsAll(rest)
  {
    var r := L.RemoveSymbolsAll(words + rest);
    var t := words + L.RemoveSymbolsAll(rest);
    forall i | 0 <= i < |r| ensures r[i] == t[i] {
      if i < |words| {
        assert (words + rest)[i] == words[i];
      } else {
        assert (words + rest)[i] == rest[i - |words|];
      }
    }
  }

  /** Truncation at a tag among the leading words ignores what follows. */
  lemma {:induction false} TakeUntilTagLeading(cfg: Config, words: seq<string>, rest: seq<string>)
    requires exists i :: 0 <= i < |words| && F.IsTag(cfg, words[i])
    ensures F.TakeUntilTag(cfg, words + rest) == F.TakeUntilTag(cfg, words)
  {
    if !F.IsTag(cfg, words[0]) {
      var i :| 0 <= i < |words| && F.IsTag(cfg, words[i]);
      assert F.IsTag(cfg, words[1..][i - 1]);
      TakeUntilTagLeading(cfg, words[1..], rest);
      assert (words + rest)[1..] == words[1..] + rest;
    }
  }

  /** A non-empty run of letters and digits. */
  predicate AlnumWord(w: string)
  {
    |w| > 0 && forall i :: 0 <= i < |w| ==> IsAlnum(w[i])
  }

  /** Words each followed by a dot, as in a release name. */
  function Dotted(raw: seq<string>): string
  {
    if |raw| == 0 then "" else raw[0] + "." + Dotted(raw[1..])
  }

  function LowerAll(raw: seq<string>): (r: seq<string>)
    ensures |r| == |raw|
    ensures forall i :: 0 <= i < |raw| ==> r[i] == Lower(raw[i])
  {
    if |raw| == 0 then [] else [Lower(raw[0])] + LowerAll(raw[1..])
  }

  lemma AlnumWordLower(w: string)
    requires AlnumWord(w)
    ensures AlnumWord(Lower(w)) && ' ' !in Lower(w)
    ensures F.ChangeSymbols(Lower(w), " ") == Lower(w)
    ensures ReplaceChar(Lower(w), '.', ' ') == Lower(w)
    ensures L.RemoveSymbols(Lower(w)) == Lower(w)
  {
    var l := Lower(w);
    assert forall i :: 0 <= i < |l| ==> IsAlnum(l[i]);
    L.RemoveSymbolsOfAlnum(l);
  }

  lemma WordDot(w: string)
    requires AlnumWord(w)
    ensures Normalised(w + ".") == Lower(w) + " "
    ensures Dotless(w + ".") == Lower(w) + " "
  {
    AlnumWordLower(w);
    NormalisedAppend(w, ".");
  }

  lemma {:induction false} DottedNormalised(raw: seq<string>)
    requires forall i :: 0 <= i < |raw| ==> AlnumWord(raw[i])
    ensures Normalised(Dotted(raw)) == Spaced(LowerAll(raw))
    ensures Dotless(Dotted(raw)) == Spaced(LowerAll(raw))
  {
    if |raw| > 0 {
      DottedNormalised(raw[1..]);
      WordDot(raw[0]);
      NormalisedAppend(raw[0] + ".", Dotted(raw[1..]));
      assert LowerAll(raw)[1..] == LowerAll(raw[1..]);
    }
  }

  /** What both revisions need of the leading words of a name. */
  predicate Leading(cfg: Config, raw: seq<string>)
  {
    && (forall i :: 0 <= i < |raw| ==> AlnumWord(raw[i]))
    && (exists i :: 0 <= i < |raw| && F.IsTag(cfg, Lower(raw[i])))
  }

  lemma LeadingWords(cfg: Config, raw: seq<string>)
    requires Leading(cfg, raw)
    ensures var words := LowerAll(raw);
      && (forall i :: 0 <= i < |words| ==>
           words[i] != "" && ' ' !in words[i] && L.RemoveSymbols(words[i]) == words[i])
      && (exists i :: 0 <= i < |words| && F.IsTag(cfg, words[i]))
  {
    forall i | 0 <= i < |raw| ensures AlnumWord(Lower(raw[i])) && ' ' !in Lower(raw[i]) &&
      L.RemoveSymbols(Lower(raw[i])) == Lower(raw[i])
    {
      AlnumWordLower(raw[i]);
    }
    var i :| 0 <= i < |raw| && F.IsTag(cfg, Lower(raw[i]));
    assert LowerAll(raw)[i] == Lower(raw[i]);
  }

  lemma NewerWordsLeading(cfg: Config, f: string, ext: string, raw: seq<string>, rest: string)
    requires F.SplitExtension(f) == F.NameExt(Dotted(raw) + rest, ext)
    requires Leading(cfg, raw)
    ensures F.FormattedWords(cfg, f) == F.TakeUntilTag(cfg, LowerAll(raw))
  {
    var words := LowerAll(raw);
    LeadingWords(cfg, raw);
    DottedNormalised(raw);
    NormalisedAppend(Dotted(raw), rest);
    SplitSpaced(words, Normalised(rest));
    F.NonEmptyAppend(words, Split(Normalised(rest), ' '));
    F.NonEmptyKeeps(words);
    TakeUntilTagLeading(cfg, words, F.NonEmpty(Split(Normalised(rest), ' ')));
  }

  lemma LegacyWordsLeading(cfg: Config, f: string, ext: string, raw: seq<string>, rest: string)
    requires F.SplitExtension(f) == F.NameExt(Dotted(raw) + rest, ext)
    requires Leading(cfg, raw)
    ensures L.FormattedWords(cfg, f) == F.TakeUntilTag(cfg, LowerAll(raw))
  {
    var words := LowerAll(raw);
    LeadingWords(cfg, raw);
    DottedNormalised(raw);
    NormalisedAppend(Dotted(raw), rest);
    SplitSpaced(words, Dotless(rest));
    RemoveSymbolsAllAppend(words, Split(Dotless(rest), ' '));
    TakeUntilTagLeading(cfg, words, L.RemoveSymbolsAll(Split(Dotless(rest), ' ')));
  }

  /** `format_filename` of the newer revision on a name that starts with
      dotted words, a tag among them. */
  lemma NewerFormatLeading(cfg: Config, name: string, ext: string, raw: seq<string>, rest: string)
    requires name == Dotted(raw) + rest && '.' !in ext
    requires Leading(cfg, raw)
    ensures F.FormatFilename(cfg, name + "." + ext) == Join(F.TakeUntilTag(cfg, LowerAll(raw)), ' ') + "." + ext
  {
    F.SplitExtensionOfDotted(name, ext);
    NewerWordsLeading(cfg, name + "." + ext, "." + ext, raw, rest);
  }

  /** The same for the older revision. */
  lemma LegacyFormatLeading(cfg: Config, name: string, ext: string, raw: seq<string>, rest: string)
    requires name == Dotted(raw) + rest && '.' !in ext
    requires Leading(cfg, raw)
    ensures L.FormatFilename(cfg, name + "." + ext) == Join(F.TakeUntilTag(cfg, LowerAll(raw)), ' ') + "." + ext
  {
    F.SplitExtensionOfDotted(name, ext);
    LegacyWordsLeading(cfg, name + "." + ext, "." + ext, raw, rest);
  }

  /** `format_filename` of both revisions on a name that starts with dotted
      words, a tag among them. */
  lemma FormatLeading(cfg: Config, name: string, ext: string, raw: seq<string>, rest: string)
    requires name == Dotted(raw) + rest && '.' !in ext
    requires Leading(cfg, raw)
    ensures F.FormatFilename(cfg, name + "." + ext) == Join(F.TakeUntilTag(cfg, LowerAll(raw)), ' ') + "." + ext
    ensures L.FormatFilename(cfg, name + "." + ext) == Join(F.TakeUntilTag(cfg, LowerAll(raw)), ' ') + "." + ext
  {
    NewerFormatLeading(cfg, name, ext, raw, rest);
    LegacyFormatLeading(cfg, name, ext, raw, rest);
  }

  lemma DottedOne(a: string)
    ensures Dotted([a]) == a + "."
  {
    assert [a][1..] == [];
    assert a + "." + "" == a + ".";
  }

  lemma DottedCons(a: string, rest: seq<string>)
    ensures Dotted([a] + rest) == (a + ".") + Dotted(rest)
  {
    assert ([a] + rest)[1..] == rest;
  }

  lemma DottedThree(a: string, b: string, c: string)
    ensures Dotted([a, b, c]) == (a + ".") + (b + ".") + (c + ".")
  {
    DottedOne(c);
    DottedCons(b, [c]);
    assert [b] + [c] == [b, c];
    DottedCons(a, [b, c]);
    assert [a] + [b, c] == [a, b, c];
  }

  lemma DottedFour(a: string, b: string, c: string, d: string)
    ensures Dotted([a, b, c, d]) == (a + ".") + (b + ".") + (c + ".") + (d + ".")
  {
    DottedThree(b, c, d);
    DottedCons(a, [b, c, d]);
    assert [a] + [b, c, d] == [a, b, c, d];
  }

  lemma LowerAllThree(a: string, b: string, c: string)
    ensures LowerAll([a, b, c]) == [Lower(a), Lower(b), Lower(c)]
  {
  }

  lemma LowerAllFour(a: string, b: string, c: string, d: string)
    ensures LowerAll([a, b, c, d]) == [Lower(a), Lower(b), Lower(c), Lower(d)]
  {
  }

  lemma JoinTwo(a: string, b: string)
    ensures Join([a, b], ' ') == a + " " + b
  {
    assert [a, b][1..] == [b];
  }

  lemma JoinThree(a: string, b: string, c: string)
    ensures Join([a, b, c], ' ') == a + " " + b + " " + c
  {
    assert [a, b, c][1..] == [b, c];
    JoinTwo(b, c);
  }

  lemma LowerAlien()
    ensures Lower("Alien") == "alien" && AlnumWord("Alien")
  {
  }

  lemma Lower1979()
    ensures Lower("1979") == "1979" && AlnumWord("1979")
  {
  }

  lemma LowerProper()
    ensures Lower("PROPER") == "proper" && AlnumWord("PROPER")
  {
  }

  lemma LowerStranger()
    ensures Lower("Stranger") == "stranger" && AlnumWord("Stranger")
  {
  }

  lemma LowerThings()
    ensures Lower("Things") == "things" && AlnumWord("Things")
  {
  }

  lemma LowerS01E01()
    ensures Lower("S01E01") == "s01e01" && AlnumWord("S01E01")
  {
  }

  lemma Lower1080p()
    ensures Lower("1080p") == "1080p" && AlnumWord("1080p")
  {
  }

  /** A word without capitals is a tag exactly when the tag set holds it. */
  lemma TagOfLower(cfg: Config, w: string)
    requires forall i :: 0 <= i < |w| ==> !('A' <= w[i] <= 'Z')
    ensures F.IsTag(cfg, w) <==> w in cfg.tags
  {
    LowerOfLower(w);
  }

  lemma NotTagAlien()
    ensures !F.IsTag(TestConfig, "alien")
  {
    TagOfLower(TestConfig, "alien");
  }

  lemma NotTag1979()
    ensures !F.IsTag(TestConfig, "1979")
  {
    TagOfLower(TestConfig, "1979");
  }

  lemma NotTagStranger()
    ensures !F.IsTag(TestConfig, "stranger")
  {
    TagOfLower(TestConfig, "stranger");
  }

  lemma NotTagThings()
    ensures !F.IsTag(TestConfig, "things")
  {
    TagOfLower(TestConfig, "things");
  }

  lemma NotTagS01E01()
    ensures !F.IsTag(TestConfig, "s01e01")
  {
    TagOfLower(TestConfig, "s01e01");
  }

  lemma NotTagTest()
    ensures !F.IsTag(TestConfig, "test")
  {
    TagOfLower(TestConfig, "test");
  }

  lemma ProperIsTag()
    ensures F.IsTag(TestConfig, "proper")
  {
    TagOfLower(TestConfig, "proper");
  }

  lemma Tag1080p()
    ensures F.IsTag(TestConfig, "1080p")
  {
    TagOfLower(TestConfig, "1080p");
  }

  lemma ThreeWords(cfg: Config, a: string, b: string, c: string, la: string, lb: string, lc: string)
    requires AlnumWord(a) && AlnumWord(b) && AlnumWord(c)
    requires Lower(a) == la && Lower(b) == lb && Lower(c) == lc
    requires !F.IsTag(cfg, la) && !F.IsTag(cfg, lb) && F.IsTag(cfg, lc)
    ensures Leading(cfg, [a, b, c])
    ensures Join(F.TakeUntilTag(cfg, LowerAll([a, b, c])), ' ') == la + " " + lb
  {
    var raw := [a, b, c];
    LowerAllThree(a, b, c);
    assert F.IsTag(cfg, Lower(raw[2]));
    assert F.TakeUntilTag(cfg, [la, lb, lc]) == [la, lb];
    JoinTwo(la, lb);
  }

  lemma FourWords(cfg: Config, a: string, b: string, c: string, d: string,
                  la: string, lb: string, lc: string, ld: string)
    requires AlnumWord(a) && AlnumWord(b) && AlnumWord(c) && AlnumWord(d)
    requires Lower(a) == la && Lower(b) == lb && Lower(c) == lc && Lower(d) == ld
    requires !F.IsTag(cfg, la) && !F.IsTag(cfg, lb) && !F.IsTag(cfg, lc) && F.IsTag(cfg, ld)
    ensures Leading(cfg, [a, b, c, d])
    ensures Join(F.TakeUntilTag(cfg, LowerAll([a, b, c, d])), ' ') == la + " " + lb + " " + lc
  {
    var raw := [a, b, c, d];
    LowerAllFour(a, b, c, d);
    assert F.IsTag(cfg, Lower(raw[3]));
    assert F.TakeUntilTag(cfg, [la, lb, lc, ld]) == [la, lb, lc];
    JoinThree(la, lb, lc);
  }

  /** `format_filename` of a name whose third dotted word is its first tag. */
  lemma FormatThree(cfg: Config, name: string, ext: string, a: string, b: string, c: string,
                    la: string, lb: string, lc: string, rest: string)
    requires name == Dotted([a, b, c]) + rest && '.' !in ext
    requires AlnumWord(a) && AlnumWord(b) && AlnumWord(c)
    requires Lower(a) == la && Lower(b) == lb && Lower(c) == lc
    requires !F.IsTag(cfg, la) && !F.IsTag(cfg, lb) && F.IsTag(cfg, lc)
    ensures F.FormatFilename(cfg, name + "." + ext) == la + " " + lb + "." + ext
    ensures L.FormatFilename(cfg, name + "." + ext) == la + " " + lb + "." + ext
  {
    ThreeWords(cfg, a, b, c, la, lb, lc);
    FormatLeading(cfg, name, ext, [a, b, c], rest);
  }

  /** `format_filename` of a name whose fourth dotted word is its first tag. */
  lemma FormatFour(cfg: Config, name: string, ext: string, a: string, b: string, c: string, d: string,
                   la: string, lb: string, lc: string, ld: string, rest: string)
    requires name == Dotted([a, b, c, d]) + rest && '.' !in ext
    requires AlnumWord(a) && AlnumWord(b) && AlnumWord(c) && AlnumWord(d)
    requires Lower(a) == la && Lower(b) == lb && Lower(c) == lc && Lower(d) == ld
    requires !F.IsTag(cfg, la) && !F.IsTag(cfg, lb) && !F.IsTag(cfg, lc) && F.IsTag(cfg, ld)
    ensures F.FormatFilename(cfg, name + "." + ext) == la + " " + lb + " " + lc + "." + ext
    ensures L.FormatFilename(cfg, name + "." + ext) == la + " " + lb + " " + lc + "." + ext
  {
    FourWords(cfg, a, b, c, d, la, lb, lc, ld);
    FormatLeading(cfg, name, ext, [a, b, c, d], rest);
  }

  lemma AlienRawName()
    ensures "Alien.1979.PROPER.REMASTERED.THEATRICAL.1080p.BluRay.x265-RARBG" ==
      Dotted(["Alien", "1979", "PROPER"]) + "REMASTERED.THEATRICAL.1080p.BluRay.x265-RARBG"
  {
    DottedThree("Alien", "1979", "PROPER");
    AlienChunks();
  }

  lemma AlienChunks()
    ensures ("Alien" + ".") + ("1979" + ".") + ("PROPER" + ".") + "REMASTERED.THEATRICAL.1080p.BluRay.x265-RARBG"
      == "Alien.1979.PROPER.REMASTERED.THEATRICAL.1080p.BluRay.x265-RARBG"
  {
    AlienHead();
    AlienTail();
    AlienFront();
    AlienWhole();
  }

  lemma AlienTail()
    ensures "REMASTERED.THEATRICAL." + "1080p.BluRay.x265-RARBG" == "REMASTERED.THEATRICAL.1080p.BluRay.x265-RARBG"
  {
  }

  lemma AlienFront()
    ensures "Alien.1979.PROPER." + "REMASTERED.THEATRICAL." == "Alien.1979.PROPER.REMASTERED.THEATRICAL."
  {
  }

  lemma AlienWhole()
    ensures "Alien.1979.PROPER.REMASTERED.THEATRICAL." + "1080p.BluRay.x265-RARBG"
      == "Alien.1979.PROPER.REMASTERED.THEATRICAL.1080p.BluRay.x265-RARBG"
  {
  }

  lemma AlienHead()
    ensures ("Alien" + ".") + ("1979" + ".") + ("PROPER" + ".") == "Alien.1979.PROPER."
  {
  }

  lemma AlienSpaced()
    ensures "alien" + " " + "1979" + "." == "alien 1979."
  {
  }

  /** `format_filename` of the release name of the tests, with any
      extension, in both revisions. */
  lemma AlienFormatted(ext: string)
    requires '.' !in ext
    ensures F.FormatFilename(TestConfig, "Alien.1979.PROPER.REMASTERED.THEATRICAL.1080p.BluRay.x265-RARBG" + "." + ext)
      == "alien 1979." + ext
    ensures L.FormatFilename(TestConfig, "Alien.1979.PROPER.REMASTERED.THEATRICAL.1080p.BluRay.x265-RARBG" + "." + ext)
      == "alien 1979." + ext
  {
    AlienRawName();
    LowerAlien();
    Lower1979();
    LowerProper();
    ProperIsTag();
    NotTagAlien();
    NotTag1979();
    FormatThree(TestConfig, "Alien.1979.PROPER.REMASTERED.THEATRICAL.1080p.BluRay.x265-RARBG", ext,
      "Alien", "1979", "PROPER", "alien", "1979", "proper", "REMASTERED.THEATRICAL.1080p.BluRay.x265-RARBG");
    AlienSpaced();
  }

  lemma StrangerChunks()
    ensures ("Stranger" + ".") + ("Things" + ".") + ("S01E01" + ".") + ("1080p" + ".") + "BluRay.x265-RARBG"
      == "Stranger.Things.S01E01.1080p.BluRay.x265-RARBG"
  {
  }

  lemma StrangerRawName()
    ensures "Stranger.Things.S01E01.1080p.BluRay.x265-RARBG" ==
      Dotted(["Stranger", "Things", "S01E01", "1080p"]) + "BluRay.x265-RARBG"
  {
    DottedFour("Stranger", "Things", "S01E01", "1080p");
    StrangerChunks();
  }

  lemma StrangerSpaced()
    ensures "stranger" + " " + "things" + " " + "s01e01" + "." == "stranger things s01e01."
  {
  }

  lemma StrangerWordFacts()
    ensures AlnumWord("Stranger") && AlnumWord("Things") && AlnumWord("S01E01") && AlnumWord("1080p")
    ensures Lower("Stranger") == "stranger" && Lower("Things") == "things"
    ensures Lower("S01E01") == "s01e01" && Lower("1080p") == "1080p"
  {
    LowerStranger();
    LowerThings();
    LowerS01E01();
    Lower1080p();
  }

  lemma StrangerTagFacts()
    ensures !F.IsTag(TestConfig, "stranger") && !F.IsTag(TestConfig, "things")
    ensures !F.IsTag(TestConfig, "s01e01") && F.IsTag(TestConfig, "1080p")
  {
    Tag1080p();
    NotTagStranger();
    NotTagThings();
    NotTagS01E01();
  }

  lemma StrangerFormatted(ext: string)
    requires '.' !in ext
    ensures F.FormatFilename(TestConfig, "Stranger.Things.S01E01.1080p.BluRay.x265-RARBG" + "." + ext)
      == "stranger things s01e01." + ext
    ensures L.FormatFilename(TestConfig, "Stranger.Things.S01E01.1080p.BluRay.x265-RARBG" + "." + ext)
      == "stranger things s01e01." + ext
  {
    StrangerRawName();
    StrangerWordFacts();
    StrangerTagFacts();
    FormatFour(TestConfig, "Stranger.Things.S01E01.1080p.BluRay.x265-RARBG", ext,
      "Stranger", "Things", "S01E01", "1080p", "stranger", "things", "s01e01", "1080p", "BluRay.x265-RARBG");
    StrangerSpaced();
  }
}
