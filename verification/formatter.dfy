/** `FileFormatter` of plexformatter.py (the newer revision). The functions
    the older revision shares unchanged (`split_extension`, `is_tag`,
    `find_year`, `find_episode_info` and the show/movie layouts) are defined
    here once and imported by `LegacyFormatter`. */
module FileFormatter {
  import opened Strings
  import opened Paths
  import opened Optional
  import opened Settings

  datatype NameExt = NameExt(name: string, ext: string)

  /** `split_extension`: the text after the last `.` becomes the extension,
      dot included; without a `.` the extension is empty. */
  function SplitExtension(fileName: string): (r: NameExt)
    ensures r.name + r.ext == fileName
    ensures r.ext == "" <==> '.' !in fileName
    ensures r.ext != "" ==> r.ext[0] == '.' && '.' !in r.ext[1..]
  {
    var parts := Split(fileName, '.');
    var extension := parts[|parts| - 1];
    if extension == fileName then NameExt(fileName, "")
    else
      var ext := "." + extension;
      SplitExtensionDotted(fileName, parts, extension);
      NameExt(SlicePrefix(fileName, -|ext|), ext)
  }

  /** With a dot in the name, the last part of the split follows the last dot,
      and slicing its length plus one off the end leaves the text before it. */
  lemma SplitExtensionDotted(fileName: string, parts: seq<string>, extension: string)
    requires parts == Split(fileName, '.') && extension == parts[|parts| - 1]
    requires extension != fileName
    ensures '.' in fileName && '.' !in extension
    ensures var ext := "." + extension;
      SlicePrefix(fileName, -|ext|) + ext == fileName
  {
    assert fileName == Join(parts[..|parts| - 1], '.') + "." + extension by {
      JoinSplit(fileName, '.');
      JoinLast(parts, '.');
    }
  }

  /** The extension is everything after the last dot. */
  lemma SplitExtensionOfDotted(name: string, ext: string)
    requires '.' !in ext
    ensures SplitExtension(name + "." + ext) == NameExt(name, "." + ext)
  {
    var r := SplitExtension(name + "." + ext);
    assert r.ext != "" by {
      assert (name + "." + ext)[|name|] == '.';
    }
    assert r.name + ['.'] + r.ext[1..] == name + ['.'] + ext by {
      assert r.ext == [r.ext[0]] + r.ext[1..];
    }
    LastSeparatorUnique(r.name, r.ext[1..], name, ext, '.');
    assert r.ext == "." + ext;
  }

  /** `str.removeprefix('.')`. */
  function RemoveDot(ext: string): string
  {
    if |ext| > 0 && ext[0] == '.' then ext[1..] else ext
  }

  /** `is_video`: a non-empty extension whose lower-cased text, without the
      dot, is a configured video extension. */
  predicate IsVideo(cfg: Config, fileName: string)
  {
    var ext := SplitExtension(fileName).ext;
    if ext == "" then false else Lower(RemoveDot(ext)) in cfg.extensions
  }

  /** `is_deletable`: the same test against the deletable extensions, with no
      special case for a missing extension. */
  predicate IsDeletable(cfg: Config, fileName: string)
  {
    Lower(RemoveDot(SplitExtension(fileName).ext)) in cfg.extensionsToDelete
  }

  /** `is_tag`. */
  predicate IsTag(cfg: Config, word: string)
  {
    Lower(word) in cfg.tags
  }

  /** The text after the last `.`, or None when there is no `.`. */
  function ExtensionText(fileName: string): Option<string>
  {
    var parts := Split(fileName, '.');
    if |parts| == 1 then None else Some(parts[|parts| - 1])
  }

  /** Whether a file is a video depends only on the text after its last dot,
      compared case-insensitively. */
  lemma IsVideoByExtensionText(cfg: Config, fileName: string)
    ensures IsVideo(cfg, fileName) <==>
      (ExtensionText(fileName).Some? && Lower(ExtensionText(fileName).value) in cfg.extensions)
  {
    var ext := SplitExtension(fileName).ext;
    if ExtensionText(fileName).Some? {
      assert ext == "." + ExtensionText(fileName).value;
      assert RemoveDot(ext) == ExtensionText(fileName).value;
    }
  }

  // ---------------------------------------------------------------- find_year

  /** A word `find_year` accepts: four digits that are not a tag. */
  predicate IsYearWord(cfg: Config, w: string)
  {
    |w| == 4 && AllDigits(w) && !IsTag(cfg, w)
  }

  /** Index of the first year word at or after `from`. */
  function FirstYearIndex(cfg: Config, words: seq<string>, from: nat): (r: Option<nat>)
    requires from <= |words|
    ensures r.Some? ==> from <= r.value < |words| && IsYearWord(cfg, words[r.value])
    ensures forall j :: from <= j < |words| && (r.None? || j < r.value) ==> !IsYearWord(cfg, words[j])
    decreases |words| - from
  {
    if from == |words| then None
    else if IsYearWord(cfg, words[from]) then Some(from)
    else FirstYearIndex(cfg, words, from + 1)
  }

  /** `find_year`: the first space-separated word after the first one that is
      four digits and not a tag. */
  function FindYear(cfg: Config, fileName: string): (r: Option<string>)
    ensures var words := Split(fileName, ' ');
      match r
      case Some(y) =>
        IsYearWord(cfg, y) &&
        exists i :: 1 <= i < |words| && words[i] == y &&
          forall j :: 1 <= j < i ==> !IsYearWord(cfg, words[j])
      case None => forall i :: 1 <= i < |words| ==> !IsYearWord(cfg, words[i])
  {
    var words := Split(fileName, ' ');
    match FirstYearIndex(cfg, words, 1)
    case Some(i) => Some(words[i])
    case None => None
  }

  // -------------------------------------------------------- find_episode_info

  predicate IsSeasonWord(w: string)
  {
    |w| == 3 && LowerChar(w[0]) == 's' && IsDigit(w[1]) && IsDigit(w[2])
  }

  predicate IsEpisodeWord(w: string)
  {
    |w| == 3 && LowerChar(w[0]) == 'e' && IsDigit(w[1]) && IsDigit(w[2])
  }

  /** A six-character `sNNeNN` word. */
  predicate IsCombinedWord(w: string)
  {
    |w| == 6 && IsSeasonWord(w[..3]) && IsEpisodeWord(w[3..])
  }

  /** The scan of `words` ends without an answer when it starts with the
      given season and episode. */
  predicate NoEpisodeInfo(words: seq<string>, season: Option<string>, episode: Option<string>)
  {
    && (forall i :: 0 <= i < |words| ==> !IsCombinedWord(words[i]))
    && !((season.Some? || exists i :: 0 <= i < |words| && IsSeasonWord(words[i])) &&
         (episode.Some? || exists i :: 0 <= i < |words| && IsEpisodeWord(words[i])))
  }

  /** The season marker after the loop has seen word `w`. */
  function SeasonAfter(w: string, season: Option<string>): Option<string>
  {
    if IsSeasonWord(w) then Some(w) else season
  }

  /** The episode marker after the loop has seen word `w` (the `elif`). */
  function EpisodeAfter(w: string, episode: Option<string>): Option<string>
  {
    if !IsSeasonWord(w) && IsEpisodeWord(w) then Some(w) else episode
  }

  /** The loop of `find_episode_info`, with the season and episode seen so far. */
  function ScanEpisode(words: seq<string>, season: Option<string>, episode: Option<string>)
    : (r: Option<(string, string)>)
    requires !(season.Some? && episode.Some?)
    requires season.Some? ==> IsSeasonWord(season.value)
    requires episode.Some? ==> IsEpisodeWord(episode.value)
    ensures r.Some? ==> IsSeasonWord(r.value.0) && IsEpisodeWord(r.value.1)
    ensures r.None? <==> NoEpisodeInfo(words, season, episode)
  {
    if |words| == 0 then None
    else
      var w := words[0];
      assert forall i :: 0 < i < |words| ==> words[i] == words[1..][i - 1];
      if |w| == 3 then
        var season' := SeasonAfter(w, season);
        var episode' := EpisodeAfter(w, episode);
        if season'.Some? && episode'.Some? then Some((season'.value, episode'.value))
        else ScanEpisode(words[1..], season', episode')
      else if |w| == 6 && IsCombinedWord(w) then Some((w[..3], w[3..]))
      else ScanEpisode(words[1..], season, episode)
  }

  /** The last `sNN` word of `words`, or `season` when there is none. */
  function LastSeason(words: seq<string>, season: Option<string>): Option<string>
  {
    if |words| == 0 then season else LastSeason(words[1..], SeasonAfter(words[0], season))
  }

  /** The last `eNN` word of `words`, or `episode` when there is none. */
  function LastEpisode(words: seq<string>, episode: Option<string>): Option<string>
  {
    if |words| == 0 then episode else LastEpisode(words[1..], EpisodeAfter(words[0], episode))
  }

  /** `LastSeason` is what its name says: the last `sNN` word, or the
      starting value when no word is one. */
  lemma {:induction false} LastSeasonIsLast(words: seq<string>, season: Option<string>)
    ensures (forall i :: 0 <= i < |words| ==> !IsSeasonWord(words[i])) ==> LastSeason(words, season) == season
    ensures forall i :: (0 <= i < |words| && IsSeasonWord(words[i]) &&
                         (forall j :: i < j < |words| ==> !IsSeasonWord(words[j]))) ==>
      LastSeason(words, season) == Some(words[i])
  {
    if |words| > 0 {
      LastSeasonIsLast(words[1..], SeasonAfter(words[0], season));
      assert forall i :: 0 < i < |words| ==> words[i] == words[1..][i - 1];
    }
  }

  /** `LastEpisode` is what its name says: the last `eNN` word, or the
      starting value when no word is one. */
  lemma {:induction false} LastEpisodeIsLast(words: seq<string>, episode: Option<string>)
    ensures (forall i :: 0 <= i < |words| ==> !IsEpisodeWord(words[i])) ==> LastEpisode(words, episode) == episode
    ensures forall i :: (0 <= i < |words| && IsEpisodeWord(words[i]) &&
                         (forall j :: i < j < |words| ==> !IsEpisodeWord(words[j]))) ==>
      LastEpisode(words, episode) == Some(words[i])
  {
    if |words| > 0 {
      LastEpisodeIsLast(words[1..], EpisodeAfter(words[0], episode));
      assert forall i :: 0 < i < |words| ==> words[i] == words[1..][i - 1];
      assert IsEpisodeWord(words[0]) ==> !IsSeasonWord(words[0]);
    }
  }

  /** The loop stops at word `j`: it is an `sNNeNN` word, or once it has been
      seen both a season and an episode marker are known. (A pair can only
      become complete at a three-character word, where the loop tests it.) */
  predicate EpisodeStop(words: seq<string>, season: Option<string>, episode: Option<string>, j: int)
  {
    0 <= j < |words| &&
    (IsCombinedWord(words[j]) ||
     (LastSeason(words[..j + 1], season).Some? && LastEpisode(words[..j + 1], episode).Some?))
  }

  /** `j` is the first word at which the loop stops. */
  predicate FirstEpisodeStop(words: seq<string>, season: Option<string>, episode: Option<string>, j: int)
  {
    EpisodeStop(words, season, episode, j) &&
    forall i :: 0 <= i < j ==> !EpisodeStop(words, season, episode, i)
  }

  /** What the loop returns when it stops at word `j`: the halves of an
      `sNNeNN` word, or the last season and episode words seen so far. */
  function EpisodeAt(words: seq<string>, season: Option<string>, episode: Option<string>, j: int): (string, string)
    requires EpisodeStop(words, season, episode, j)
  {
    if IsCombinedWord(words[j]) then (words[j][..3], words[j][3..])
    else (LastSeason(words[..j + 1], season).value, LastEpisode(words[..j + 1], episode).value)
  }

  lemma EpisodeStopFirst(words: seq<string>, season: Option<string>, episode: Option<string>)
    requires |words| > 0
    ensures LastSeason(words[..1], season) == SeasonAfter(words[0], season)
    ensures LastEpisode(words[..1], episode) == EpisodeAfter(words[0], episode)
  {
    assert words[..1][1..] == [];
  }

  lemma EpisodeStopShift(words: seq<string>, season: Option<string>, episode: Option<string>, j: int)
    requires 1 <= j < |words|
    ensures var s, e := SeasonAfter(words[0], season), EpisodeAfter(words[0], episode);
      && LastSeason(words[..j + 1], season) == LastSeason(words[1..][..j], s)
      && LastEpisode(words[..j + 1], episode) == LastEpisode(words[1..][..j], e)
      && (EpisodeStop(words, season, episode, j) <==> EpisodeStop(words[1..], s, e, j - 1))
  {
    assert words[..j + 1][1..] == words[1..][..j];
    assert words[1..][j - 1] == words[j];
  }

  /** The value of the loop: `None` exactly when it never stops, and otherwise
      what it holds at the first word where it stops. */
  lemma {:induction false} ScanEpisodeValue(words: seq<string>, season: Option<string>, episode: Option<string>)
    requires !(season.Some? && episode.Some?)
    requires season.Some? ==> IsSeasonWord(season.value)
    requires episode.Some? ==> IsEpisodeWord(episode.value)
    ensures var r := ScanEpisode(words, season, episode);
      && (r.None? <==> forall j :: 0 <= j < |words| ==> !EpisodeStop(words, season, episode, j))
      && (r.Some? ==> exists j :: FirstEpisodeStop(words, season, episode, j) &&
                                r.value == EpisodeAt(words, season, episode, j))
    decreases |words|
  {
    if |words| > 0 {
      var w := words[0];
      var s, e := SeasonAfter(w, season), EpisodeAfter(w, episode);
      EpisodeStopFirst(words, season, episode);
      assert w == words[..1][0];
      if !EpisodeStop(words, season, episode, 0) {
        assert |w| != 3 ==> s == season && e == episode;
        assert ScanEpisode(words, season, episode) == ScanEpisode(words[1..], s, e);
        ScanEpisodeValue(words[1..], s, e);
        ScanEpisodeShift(words, season, episode, ScanEpisode(words[1..], s, e));
      } else {
        assert FirstEpisodeStop(words, season, episode, 0);
      }
    }
  }

  /** The stops of the loop after its first word are those of the rest of the
      words, one index later. */
  lemma ScanEpisodeShift(words: seq<string>, season: Option<string>, episode: Option<string>,
                         r: Option<(string, string)>)
    requires |words| > 0 && !EpisodeStop(words, season, episode, 0)
    requires var s, e := SeasonAfter(words[0], season), EpisodeAfter(words[0], episode);
      && (r.None? <==> forall j :: 0 <= j < |words| - 1 ==> !EpisodeStop(words[1..], s, e, j))
      && (r.Some? ==> exists j :: FirstEpisodeStop(words[1..], s, e, j) && r.value == EpisodeAt(words[1..], s, e, j))
    ensures r.None? <==> forall j :: 0 <= j < |words| ==> !EpisodeStop(words, season, episode, j)
    ensures r.Some? ==> exists j :: FirstEpisodeStop(words, season, episode, j) &&
                                  r.value == EpisodeAt(words, season, episode, j)
  {
    var s, e := SeasonAfter(words[0], season), EpisodeAfter(words[0], episode);
    forall j | 1 <= j < |words|
      ensures EpisodeStop(words, season, episode, j) <==> EpisodeStop(words[1..], s, e, j - 1)
    {
      EpisodeStopShift(words, season, episode, j);
    }
    if r.Some? {
      var j :| FirstEpisodeStop(words[1..], s, e, j) && r.value == EpisodeAt(words[1..], s, e, j);
      EpisodeStopShift(words, season, episode, j + 1);
      assert words[1..][j] == words[j + 1];
      assert FirstEpisodeStop(words, season, episode, j + 1);
    }
  }

  /** `find_episode_info`: a season and an episode marker, from one `sNNeNN`
      word or from separate `sNN` and `eNN` words; the value is what the loop
      holds at the first word where it stops. */
  function FindEpisodeInfo(fileName: string): (r: Option<(string, string)>)
    ensures r.Some? ==> IsSeasonWord(r.value.0) && IsEpisodeWord(r.value.1)
    ensures var words := Split(fileName, ' ');
      r.None? <==>
        (forall i :: 0 <= i < |words| ==> !IsCombinedWord(words[i])) &&
        !((exists i :: 0 <= i < |words| && IsSeasonWord(words[i])) &&
          (exists i :: 0 <= i < |words| && IsEpisodeWord(words[i])))
    ensures var words := Split(fileName, ' ');
      r.Some? ==> exists j :: FirstEpisodeStop(words, None, None, j) && r.value == EpisodeAt(words, None, None, j)
  {
    ScanEpisodeValue(Split(fileName, ' '), None, None);
    ScanEpisode(Split(fileName, ' '), None, None)
  }

  // ------------------------------------------------------ change_symbols etc.

  /** `convert_symbol`. */
  function ConvertSymbol(c: char, replacement: string): string
  {
    if IsAlnum(c) then [c] else replacement
  }

  /** `change_symbols`: every non-alphanumeric character replaced. */
  function ChangeSymbols(word: string, replacement: string): (r: string)
    ensures |replacement| == 1 ==> |r| == |word|
    ensures |replacement| == 1 ==>
      forall i :: 0 <= i < |word| ==> r[i] == (if IsAlnum(word[i]) then word[i] else replacement[0])
  {
    if |word| == 0 then ""
    else
      var rest := ChangeSymbols(word[1..], replacement);
      assert forall i :: 0 < i < |word| ==> word[1..][i - 1] == word[i];
      ConvertSymbol(word[0], replacement) + rest
  }

  /** The list comprehension dropping empty parts. */
  function NonEmpty(parts: seq<string>): (r: seq<string>)
    ensures |r| <= |parts|
    ensures forall i :: 0 <= i < |r| ==> r[i] != "" && r[i] in parts
    ensures forall i :: 0 <= i < |parts| && parts[i] != "" ==> parts[i] in r
  {
    if |parts| == 0 then []
    else
      var rest := NonEmpty(parts[1..]);
      assert forall i :: 0 < i < |parts| ==> parts[i] == parts[1..][i - 1];
      if parts[0] == "" then rest else [parts[0]] + rest
  }

  /** Replacing symbols works character by character, so it distributes over
      concatenation. */
  lemma ChangeSymbolsAppend(a: string, b: string, rep: string)
    requires |rep| == 1
    ensures ChangeSymbols(a + b, rep) == ChangeSymbols(a, rep) + ChangeSymbols(b, rep)
  {
    var ca, cb := ChangeSymbols(a, rep), ChangeSymbols(b, rep);
    var r, t := ChangeSymbols(a + b, rep), ca + cb;
    assert |r| == |t|;
    forall i | 0 <= i < |r| ensures r[i] == t[i] {
      if i < |a| {
        assert (a + b)[i] == a[i] && t[i] == ca[i];
      } else {
        assert (a + b)[i] == b[i - |a|] && t[i] == cb[i - |a|];
      }
    }
  }

  /** Dropping empty parts keeps every other part, each as often as it occurs
      and in its order: it distributes over concatenation, and on one part it
      keeps the part exactly when it is not empty. */
  lemma {:induction false} NonEmptyAppend(a: seq<string>, b: seq<string>)
    ensures NonEmpty(a + b) == NonEmpty(a) + NonEmpty(b)
    ensures |a| == 1 ==> NonEmpty(a) == (if a[0] == "" then [] else a)
  {
    if |a| == 0 {
      assert a + b == b;
    } else {
      assert (a + b)[1..] == a[1..] + b;
      assert |a| == 1 ==> a[1..] == [] && [a[0]] == a;
      NonEmptyAppend(a[1..], b);
    }
  }

  /** The words of a name: maximal runs of alphanumeric characters. */
  function Tokens(s: string): (r: seq<string>)
    ensures forall i :: 0 <= i < |r| ==> |r[i]| > 0 && ' ' !in r[i]
    ensures forall i, k :: 0 <= i < |r| && 0 <= k < |r[i]| ==> IsAlnum(r[i][k]) && r[i][k] in s
  {
    var changed := ChangeSymbols(s, " ");
    var parts := Split(changed, ' ');
    TokenChars(s, changed, parts);
    NonEmpty(parts)
  }

  lemma TokenChars(s: string, changed: string, parts: seq<string>)
    requires changed == ChangeSymbols(s, " ")
    requires parts == Split(changed, ' ')
    ensures forall i, k :: 0 <= i < |parts| && 0 <= k < |parts[i]| ==>
      IsAlnum(parts[i][k]) && parts[i][k] in s
  {
    JoinSplit(changed, ' ');
    forall i, k | 0 <= i < |parts| && 0 <= k < |parts[i]|
      ensures IsAlnum(parts[i][k]) && parts[i][k] in s
    {
      JoinContains(parts, ' ', i);
      var c := parts[i][k];
      assert c in changed && c != ' ';
      var j :| 0 <= j < |changed| && changed[j] == c;
      assert changed[j] == s[j];
    }
  }

  /** A non-alphanumeric character separates the tokens of what precedes it
      from those of what follows it, and adds none of its own. */
  lemma TokensAround(x: string, c: char, y: string)
    requires !IsAlnum(c)
    ensures Tokens(x + [c] + y) == Tokens(x) + Tokens(y)
  {
    var cx, cy := ChangeSymbols(x, " "), ChangeSymbols(y, " ");
    ChangeSymbolsAppend(x + [c], y, " ");
    ChangeSymbolsAppend(x, [c], " ");
    assert ChangeSymbols([c], " ") == " ";
    assert ChangeSymbols(x + [c] + y, " ") == cx + [' '] + cy;
    SplitAround(cx, cy, ' ');
    NonEmptyAppend(Split(cx, ' '), Split(cy, ' '));
  }

  /** A non-empty run of alphanumeric characters is one token, and the empty
      text has none. */
  lemma TokensOfRun(s: string)
    requires forall i :: 0 <= i < |s| ==> IsAlnum(s[i])
    ensures Tokens(s) == (if |s| == 0 then [] else [s])
  {
    var changed := ChangeSymbols(s, " ");
    assert changed == s;
    assert ' ' !in s by {
      forall i | 0 <= i < |s| ensures s[i] != ' ' { assert IsAlnum(s[i]); }
    }
    NonEmptyAppend([s], []);
  }

  /** Truncation at the first tag: the longest prefix holding no tag. */
  function TakeUntilTag(cfg: Config, parts: seq<string>): (r: seq<string>)
    ensures r <= parts
    ensures forall i :: 0 <= i < |r| ==> !IsTag(cfg, r[i])
    ensures |r| < |parts| ==> IsTag(cfg, parts[|r|])
  {
    if |parts| == 0 then []
    else if IsTag(cfg, parts[0]) then []
    else [parts[0]] + TakeUntilTag(cfg, parts[1..])
  }

  // ---------------------------------------------------------- format_filename

  /** The words `format_filename` keeps: the words of the lower-cased name
      before the first tag. */
  function FormattedWords(cfg: Config, fileName: string): (r: seq<string>)
    ensures var words := Tokens(Lower(SplitExtension(fileName).name));
      && r <= words
      && (|r| < |words| ==> IsTag(cfg, words[|r|]))
    ensures forall i :: 0 <= i < |r| ==> IsFormattedWord(cfg, r[i])
  {
    var name := Lower(SplitExtension(fileName).name);
    var words := Tokens(name);
    TokensOfLowerAreLower(name, words);
    KeptWordsAreFormatted(cfg, words);
    TakeUntilTag(cfg, words)
  }

  lemma KeptWordsAreFormatted(cfg: Config, words: seq<string>)
    requires forall i :: 0 <= i < |words| ==> |words[i]| > 0 && IsLowerAlnum(words[i])
    ensures forall i :: 0 <= i < |TakeUntilTag(cfg, words)| ==> IsFormattedWord(cfg, TakeUntilTag(cfg, words)[i])
  {
    var r := TakeUntilTag(cfg, words);
    forall i | 0 <= i < |r| ensures IsFormattedWord(cfg, r[i]) {
      assert r[i] == words[i];
    }
  }

  lemma TokensOfLowerAreLower(name: string, words: seq<string>)
    requires forall j :: 0 <= j < |name| ==> !('A' <= name[j] <= 'Z')
    requires words == Tokens(name)
    ensures forall i :: 0 <= i < |words| ==> IsLowerAlnum(words[i])
  {
    forall i, k | 0 <= i < |words| && 0 <= k < |words[i]|
      ensures IsDigit(words[i][k]) || 'a' <= words[i][k] <= 'z'
    {
      assert IsAlnum(words[i][k]) && words[i][k] in name;
    }
  }

  /** A character of a formatted name: a space, a digit or a lower-case letter. */
  predicate IsNameChar(c: char)
  {
    c == ' ' || IsDigit(c) || 'a' <= c <= 'z'
  }

  /** Formatted words joined by spaces hold only name characters. */
  lemma JoinedNameChars(words: seq<string>)
    requires forall i :: 0 <= i < |words| ==> IsLowerAlnum(words[i])
    ensures forall k :: 0 <= k < |Join(words, ' ')| ==> IsNameChar(Join(words, ' ')[k])
  {
    JoinChars(words, ' ', IsNameChar);
  }

  /** A word of a formatted name: non-empty, lower-case letters and digits,
      not a tag. */
  predicate IsFormattedWord(cfg: Config, w: string)
  {
    |w| > 0 && IsLowerAlnum(w) && !IsTag(cfg, w)
  }

  /** `format_filename`: the kept words joined by single spaces, followed by
      the original extension. */
  function FormatFilename(cfg: Config, fileName: string): (r: string)
    ensures SplitExtension(r) ==
      NameExt(Join(FormattedWords(cfg, fileName), ' '), SplitExtension(fileName).ext)
  {
    var words := FormattedWords(cfg, fileName);
    var ext := SplitExtension(fileName).ext;
    FormattedSplit(words, ext);
    Join(words, ' ') + ext
  }

  /** A name made of formatted words splits back into that name and the
      extension it was given. */
  lemma FormattedSplit(words: seq<string>, ext: string)
    requires forall i :: 0 <= i < |words| ==> IsLowerAlnum(words[i])
    requires ext == "" || (ext[0] == '.' && '.' !in ext[1..])
    ensures SplitExtension(Join(words, ' ') + ext) == NameExt(Join(words, ' '), ext)
  {
    var name := Join(words, ' ');
    if ext != "" {
      SplitExtensionOfExt(name, ext);
    } else {
      JoinedHasNoDot(words);
      assert name + ext == name;
    }
  }

  lemma SplitExtensionOfExt(name: string, ext: string)
    requires ext != "" && ext[0] == '.' && '.' !in ext[1..]
    ensures SplitExtension(name + ext) == NameExt(name, ext)
  {
    assert ext == "." + ext[1..];
    SplitExtensionOfDotted(name, ext[1..]);
  }

  lemma JoinedHasNoDot(words: seq<string>)
    requires forall i :: 0 <= i < |words| ==> IsLowerAlnum(words[i])
    ensures '.' !in Join(words, ' ')
  {
    var name := Join(words, ' ');
    JoinedNameChars(words);
    forall k | 0 <= k < |name| ensures name[k] != '.' {
      assert IsNameChar(name[k]);
    }
  }

  /** Formatting a formatted name changes nothing. */
  lemma FormatFilenameIdempotent(cfg: Config, fileName: string)
    ensures FormatFilename(cfg, FormatFilename(cfg, fileName)) == FormatFilename(cfg, fileName)
  {
    var words := FormattedWords(cfg, fileName);
    var r := FormatFilename(cfg, fileName);
    var name := Join(words, ' ');
    JoinedNameChars(words);
    LowerOfLower(name);
    assert ChangeSymbols(name, " ") == name;
    if |words| == 0 {
      assert Tokens(name) == [];
    } else {
      SplitJoin(words, ' ');
      NonEmptyKeeps(words);
      assert Tokens(name) == words;
    }
    TakeUntilTagKeeps(cfg, words);
    assert FormattedWords(cfg, r) == words;
  }

  lemma {:induction false} NonEmptyKeeps(parts: seq<string>)
    requires forall i :: 0 <= i < |parts| ==> parts[i] != ""
    ensures NonEmpty(parts) == parts
  {
    if |parts| > 0 {
      NonEmptyKeeps(parts[1..]);
      assert parts == [parts[0]] + parts[1..];
    }
  }

  lemma TakeUntilTagKeeps(cfg: Config, parts: seq<string>)
    requires forall i :: 0 <= i < |parts| ==> !IsTag(cfg, parts[i])
    ensures TakeUntilTag(cfg, parts) == parts
  {
  }

  // -------------------------------------------------- create_destination_path

  /** Which of the four library layouts a file name gets, with the parts the
      show and movie layouts are built from. */
  datatype Layout =
    | ShowLayout(showName: string, season: string, episode: string, ext: string)
    | MovieLayout(movieName: string, ext: string)
    | MiscLayout
    | NonVideoLayout

  /** The show folder name: the text before the first occurrence of the season
      marker in the whole name, less one character for the separating space,
      title-cased. A marker at index 0 makes the bound -1, which Python reads
      as "all but the last character". */
  function ShowName(name: string, season: string): string
  {
    Title(SlicePrefix(name, Find(name, season) - 1))
  }

  /** When the marker first occurs after other text, the show name is that
      text less its last character, title-cased. */
  lemma ShowNameAfterText(name: string, season: string, k: int)
    requires OccursAt(name, season, k) && k >= 1
    requires forall j :: 0 <= j < k ==> !OccursAt(name, season, j)
    ensures ShowName(name, season) == Title(name[..k - 1])
  {
    assert Find(name, season) == k;
  }

  /** When the name starts with the marker, the bound is -1 and the show name
      is the whole name less its last character. */
  lemma ShowNameMarkerFirst(name: string, season: string)
    requires |season| > 0 && season <= name
    ensures ShowName(name, season) == Title(name[..|name| - 1])
  {
    assert OccursAt(name, season, 0) by { assert name[..|season|] == season; }
    assert Find(name, season) == 0;
  }

  /** The movie folder name: the text before the first occurrence of the year
      in the whole name, title-cased, then `(year)`. The space before the
      parenthesis is the one that ended the sliced prefix. */
  function MovieName(name: string, year: string): (r: string)
    ensures EndsWith(r, "(" + year + ")")
  {
    Title(SlicePrefix(name, Find(name, year))) + "(" + year + ")"
  }

  /** When the year first occurs at `k`, the movie folder name is the text
      before it, title-cased, then the year in parentheses. */
  lemma MovieNameAfterText(name: string, year: string, k: int)
    requires OccursAt(name, year, k)
    requires forall j :: 0 <= j < k ==> !OccursAt(name, year, j)
    ensures MovieName(name, year) == Title(name[..k]) + "(" + year + ")"
  {
    assert Find(name, year) == k;
  }

  /** The layout `create_destination_path` chooses: non-video first, then a
      show when episode information is found, then a movie when a year is
      found, and otherwise the misc folder. */
  function Classify(cfg: Config, fileName: string): (k: Layout)
    ensures k.NonVideoLayout? <==> !IsVideo(cfg, fileName)
    ensures var name := SplitExtension(fileName).name;
      k.ShowLayout? <==> IsVideo(cfg, fileName) && FindEpisodeInfo(name).Some?
    ensures var name := SplitExtension(fileName).name;
      k.MovieLayout? <==>
        IsVideo(cfg, fileName) && FindEpisodeInfo(name).None? && FindYear(cfg, name).Some?
    ensures k.ShowLayout? ==>
      IsSeasonWord(k.season) && IsEpisodeWord(k.episode) && k.ext == SplitExtension(fileName).ext
    ensures k.ShowLayout? ==> k.showName == ShowName(SplitExtension(fileName).name, k.season)
    ensures k.MovieLayout? ==> k.ext == SplitExtension(fileName).ext
    ensures var name := SplitExtension(fileName).name;
      k.MovieLayout? ==>
        FindYear(cfg, name).Some? && k.movieName == MovieName(name, FindYear(cfg, name).value)
  {
    if !IsVideo(cfg, fileName) then NonVideoLayout
    else
      var ne := SplitExtension(fileName);
      match FindEpisodeInfo(ne.name)
      case Some((season, episode)) => ShowLayout(ShowName(ne.name, season), season, episode, ne.ext)
      case None =>
        match FindYear(cfg, ne.name)
        case Some(year) => MovieLayout(MovieName(ne.name, year), ne.ext)
        case None => MiscLayout
  }

  /** `root/Show/Season NN/Show - sNNeNN.ext` */
  function ShowPath(root: string, showName: string, season: string, episode: string, ext: string)
    : (p: string)
    requires |season| >= 1
    ensures EndsWith(p, ext)
  {
    var last := showName + " - " + season + episode + ext;
    PathJoinAll(root, [showName, "Season " + season[1..], last])
  }

  /** `root/Movie (YYYY)/Movie (YYYY).ext` */
  function MoviePath(root: string, movieName: string, ext: string): (p: string)
    ensures EndsWith(p, ext)
  {
    PathJoinAll(root, [movieName, movieName + ext])
  }

  /** Read back, a show path under a non-empty root is the root's components
      followed by the show folder, the `Season N` folder (the season marker
      without its `s`) and the file `Show - sNNeNN.ext`. */
  lemma ShowPathComponents(root: string, showName: string, season: string, episode: string, ext: string)
    requires |root| > 0 && IsComponent(showName) && |season| >= 1
    requires '/' !in season && '/' !in episode && '/' !in ext
    ensures Split(ShowPath(root, showName, season, episode, ext), '/') ==
      Components(root) + [showName, "Season " + season[1..], showName + " - " + season + episode + ext]
  {
    var folder := "Season " + season[1..];
    var last := showName + " - " + season + episode + ext;
    assert '/' !in folder by {
      assert forall i :: 0 <= i < |folder| ==> folder[i] in "Season " || folder[i] in season;
    }
    assert '/' !in last by {
      assert forall i :: 0 <= i < |last| ==>
        last[i] in showName || last[i] in " - " || last[i] in season || last[i] in episode || last[i] in ext;
    }
    var parts := [showName, folder, last];
    assert forall i :: 0 <= i < |parts| ==> IsComponent(parts[i]);
    PathJoinAllComponents(root, parts);
  }

  /** Read back, a movie path under a non-empty root is the root's components
      followed by the movie folder and the file named after it. */
  lemma MoviePathComponents(root: string, movieName: string, ext: string)
    requires |root| > 0 && IsComponent(movieName) && '/' !in ext
    ensures Split(MoviePath(root, movieName, ext), '/') == Components(root) + [movieName, movieName + ext]
  {
    var last := movieName + ext;
    assert '/' !in last by {
      assert forall i :: 0 <= i < |last| ==> last[i] in movieName || last[i] in ext;
    }
    var parts := [movieName, last];
    assert forall i :: 0 <= i < |parts| ==> IsComponent(parts[i]);
    PathJoinAllComponents(root, parts);
  }

  /** The path of a layout whose misc and non-video destinations are built
      with `os.path.join`. */
  function LayoutPath(cfg: Config, fileName: string, k: Layout): string
    requires k.ShowLayout? ==> |k.season| >= 1
  {
    match k
    case ShowLayout(n, s, e, ext) => ShowPath(cfg.showDestination, n, s, e, ext)
    case MovieLayout(m, ext) => MoviePath(cfg.movieDestination, m, ext)
    case MiscLayout => PathJoin(cfg.miscDestination, fileName)
    case NonVideoLayout => PathJoin(cfg.nonVideoDestination, fileName)
  }

  /** `create_destination_path` of the newer revision. */
  function CreateDestinationPath(cfg: Config, fileName: string): string
  {
    LayoutPath(cfg, fileName, Classify(cfg, fileName))
  }

  /** Every destination ends with the file's extension; the misc and non-video
      destinations end with the whole file name. */
  lemma DestinationKeepsExtension(cfg: Config, fileName: string)
    ensures EndsWith(CreateDestinationPath(cfg, fileName), SplitExtension(fileName).ext)
    ensures Classify(cfg, fileName).MiscLayout? || Classify(cfg, fileName).NonVideoLayout? ==>
      EndsWith(CreateDestinationPath(cfg, fileName), fileName)
  {
    LayoutPathKeepsExtension(cfg, fileName, Classify(cfg, fileName));
  }

  lemma LayoutPathKeepsExtension(cfg: Config, fileName: string, k: Layout)
    requires k.ShowLayout? ==> |k.season| >= 1
    requires k.ShowLayout? || k.MovieLayout? ==> k.ext == SplitExtension(fileName).ext
    ensures EndsWith(LayoutPath(cfg, fileName, k), SplitExtension(fileName).ext)
    ensures k.MiscLayout? || k.NonVideoLayout? ==> EndsWith(LayoutPath(cfg, fileName, k), fileName)
  {
    if k.MiscLayout? || k.NonVideoLayout? {
      SuffixOfName(fileName, LayoutPath(cfg, fileName, k));
    }
  }

  /** A path ending in a file name ends in that name's extension. */
  lemma SuffixOfName(fileName: string, p: string)
    requires EndsWith(p, fileName)
    ensures EndsWith(p, SplitExtension(fileName).ext)
  {
    var ne := SplitExtension(fileName);
    assert fileName[|fileName| - |ne.ext|..] == ne.ext;
    assert p[|p| - |ne.ext|..] == fileName[|fileName| - |ne.ext|..];
  }

  /** The configured root a layout's destination is placed under. */
  function RootOf(cfg: Config, k: Layout): string
  {
    match k
    case ShowLayout(_, _, _, _) => cfg.showDestination
    case MovieLayout(_, _) => cfg.movieDestination
    case MiscLayout => cfg.miscDestination
    case NonVideoLayout => cfg.nonVideoDestination
  }

  /** `os.path.join` keeps the root of a path component that does not start
      with `/`. */
  predicate Relative(s: string)
  {
    |s| == 0 || s[0] != '/'
  }

  lemma TitledPrefixHasNoSlash(name: string, k: int)
    requires '/' !in name
    ensures '/' !in Title(SlicePrefix(name, k))
  {
    var t := SlicePrefix(name, k);
    forall i | 0 <= i < |t| ensures Title(t)[i] != '/' {
      assert t[i] == name[i];
    }
  }

  lemma LayoutUnderRoot(cfg: Config, fileName: string, k: Layout)
    requires Relative(fileName)
    requires k.ShowLayout? ==> |k.season| >= 1 && '/' !in k.showName
    requires k.MovieLayout? ==> |k.movieName| > 0 && k.movieName[0] != '/'
    ensures RootOf(cfg, k) <= LayoutPath(cfg, fileName, k)
  {
    match k
    case ShowLayout(n, season, e, ext) =>
      var parts := [n, "Season " + season[1..], n + " - " + season + e + ext];
      assert Relative(parts[2]) by {
        if |n| > 0 { assert parts[2][0] == n[0]; } else { assert parts[2][0] == ' '; }
      }
      assert forall i :: 0 <= i < |parts| ==> Relative(parts[i]);
    case MovieLayout(m, ext) =>
      var parts := [m, m + ext];
      assert parts[1][0] == m[0];
      assert forall i :: 0 <= i < |parts| ==> Relative(parts[i]);
    case MiscLayout =>
    case NonVideoLayout =>
  }

  /** A formatted file name's destination lies under the root of its layout:
      no component the layout joins can start with `/`. */
  lemma FormattedDestinationUnderRoot(cfg: Config, fileName: string)
    ensures var f := FormatFilename(cfg, fileName);
      RootOf(cfg, Classify(cfg, f)) <= CreateDestinationPath(cfg, f)
  {
    var f := FormatFilename(cfg, fileName);
    var words := FormattedWords(cfg, fileName);
    var ne := SplitExtension(f);
    assert ne.name == Join(words, ' ');
    JoinedNameChars(words);
    assert '/' !in ne.name by {
      forall j | 0 <= j < |ne.name| ensures ne.name[j] != '/' { assert IsNameChar(ne.name[j]); }
    }
    assert Relative(f) by {
      if |f| > 0 {
        if |ne.name| > 0 { assert f[0] == ne.name[0]; } else { assert f == ne.ext; }
      }
    }
    var k := Classify(cfg, f);
    if k.ShowLayout? {
      TitledPrefixHasNoSlash(ne.name, Find(ne.name, k.season) - 1);
    }
    if k.MovieLayout? {
      var y := FindYear(cfg, ne.name).value;
      TitledPrefixHasNoSlash(ne.name, Find(ne.name, y));
      var t := Title(SlicePrefix(ne.name, Find(ne.name, y)));
      assert k.movieName == t + "(" + y + ")";
      if |t| > 0 { assert k.movieName[0] == t[0]; } else { assert k.movieName[0] == '('; }
    }
    LayoutUnderRoot(cfg, f, k);
  }
}
