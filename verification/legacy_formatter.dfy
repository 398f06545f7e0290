/** `FileFormatter` of plexFormatter.py, the older revision. It shares
    `split_extension`, `is_tag`, `find_year`, `find_episode_info` and the show
    and movie layouts with the newer one, and differs in `remove_symbols`,
    `format_filename` and the misc and non-video destinations. */
module LegacyFormatter {
  import opened Strings
  import opened Settings
  import opened Paths
  import opened Sequences
  import F = FileFormatter

  /** `is_video` of this revision strips the dot by slicing instead of
      `removeprefix`. */
  predicate IsVideo(cfg: Config, fileName: string)
  {
    var ext := F.SplitExtension(fileName).ext;
    if ext == "" then false else Lower(ext[1..]) in cfg.extensions
  }

  /** Both revisions classify the same files as videos. */
  lemma IsVideoAgrees(cfg: Config, fileName: string)
    ensures IsVideo(cfg, fileName) == F.IsVideo(cfg, fileName)
  {
  }

  /** `remove_symbols`. */
  function RemoveSymbols(word: string): string
  {
    if |word| == 0 then ""
    else if IsAlnum(word[0]) then [word[0]] + RemoveSymbols(word[1..])
    else RemoveSymbols(word[1..])
  }

  /** `remove_symbols` keeps exactly the alphanumeric characters, each as
      often as it occurs, in their original order. */
  lemma {:induction false} RemoveSymbolsKeepsAlnum(word: string)
    ensures var r := RemoveSymbols(word);
      && (forall i :: 0 <= i < |r| ==> IsAlnum(r[i]))
      && (forall c :: IsAlnum(c) ==> multiset(r)[c] == multiset(word)[c])
      && IsSubsequence(r, word)
  {
    if |word| > 0 {
      RemoveSymbolsKeepsAlnum(word[1..]);
      assert word == [word[0]] + word[1..];
    }
  }

  /** The newer revision's `change_symbols` with an empty replacement is this
      revision's `remove_symbols`. */
  lemma {:induction false} RemoveSymbolsIsChangeSymbols(word: string)
    ensures RemoveSymbols(word) == F.ChangeSymbols(word, "")
  {
    if |word| > 0 {
      RemoveSymbolsIsChangeSymbols(word[1..]);
    }
  }

  /** `remove_symbols` applied to every part. */
  function RemoveSymbolsAll(parts: seq<string>): (r: seq<string>)
    ensures |r| == |parts|
    ensures forall i :: 0 <= i < |r| ==> r[i] == RemoveSymbols(parts[i])
  {
    if |parts| == 0 then [] else [RemoveSymbols(parts[0])] + RemoveSymbolsAll(parts[1..])
  }

  /** The parts of a lower-cased name: split on `.` and space only, symbols
      stripped from each part, empty parts kept. */
  function Parts(name: string): (r: seq<string>)
    ensures |r| >= 1
    ensures forall i, k :: 0 <= i < |r| && 0 <= k < |r[i]| ==> IsAlnum(r[i][k])
  {
    var split := Split(ReplaceChar(name, '.', ' '), ' ');
    forall i | 0 <= i < |split| { RemoveSymbolsKeepsAlnum(split[i]); }
    RemoveSymbolsAll(split)
  }

  /** The words `format_filename` of this revision keeps. */
  function FormattedWords(cfg: Config, fileName: string): (r: seq<string>)
    ensures var parts := Parts(Lower(F.SplitExtension(fileName).name));
      && r <= parts
      && (|r| < |parts| ==> F.IsTag(cfg, parts[|r|]))
    ensures forall i :: 0 <= i < |r| ==> IsLowerAlnum(r[i]) && !F.IsTag(cfg, r[i])
  {
    var name := Lower(F.SplitExtension(fileName).name);
    var parts := Parts(name);
    PartsOfLowerAreLower(name);
    F.TakeUntilTag(cfg, parts)
  }

  lemma PartsOfLowerAreLower(name: string)
    requires forall j :: 0 <= j < |name| ==> !('A' <= name[j] <= 'Z')
    ensures forall i :: 0 <= i < |Parts(name)| ==> IsLowerAlnum(Parts(name)[i])
  {
    var split := Split(ReplaceChar(name, '.', ' '), ' ');
    JoinSplit(ReplaceChar(name, '.', ' '), ' ');
    forall i, k | 0 <= i < |Parts(name)| && 0 <= k < |Parts(name)[i]|
      ensures IsDigit(Parts(name)[i][k]) || 'a' <= Parts(name)[i][k] <= 'z'
    {
      var c := Parts(name)[i][k];
      RemoveSymbolsKeepsAlnum(split[i]);
      assert multiset(RemoveSymbols(split[i]))[c] > 0;
      assert c in split[i];
      JoinContains(split, ' ', i);
      assert c in ReplaceChar(name, '.', ' ');
    }
  }

  /** `format_filename` of this revision. */
  function FormatFilename(cfg: Config, fileName: string): (r: string)
    ensures F.SplitExtension(r) ==
      F.NameExt(Join(FormattedWords(cfg, fileName), ' '), F.SplitExtension(fileName).ext)
  {
    var words := FormattedWords(cfg, fileName);
    var ext := F.SplitExtension(fileName).ext;
    F.FormattedSplit(words, ext);
    Join(words, ' ') + ext
  }

  lemma RemoveSymbolsOfAlnum(word: string)
    requires forall i :: 0 <= i < |word| ==> IsAlnum(word[i])
    ensures RemoveSymbols(word) == word
  {
    if |word| > 0 {
      RemoveSymbolsOfAlnum(word[1..]);
      assert word == [word[0]] + word[1..];
    }
  }

  lemma RemoveSymbolsAllOfAlnum(parts: seq<string>)
    requires forall i, k :: 0 <= i < |parts| && 0 <= k < |parts[i]| ==> IsAlnum(parts[i][k])
    ensures RemoveSymbolsAll(parts) == parts
  {
    forall i | 0 <= i < |parts| ensures RemoveSymbols(parts[i]) == parts[i] {
      RemoveSymbolsOfAlnum(parts[i]);
    }
  }

  /** Formatting a name this revision has already formatted changes nothing. */
  lemma FormatFilenameIdempotent(cfg: Config, fileName: string)
    ensures FormatFilename(cfg, FormatFilename(cfg, fileName)) == FormatFilename(cfg, fileName)
  {
    var words := FormattedWords(cfg, fileName);
    var r := FormatFilename(cfg, fileName);
    var name := Join(words, ' ');
    F.JoinedNameChars(words);
    LowerOfLower(name);
    assert ReplaceChar(name, '.', ' ') == name;
    if |words| == 0 {
      assert Parts(name) == [""];
      var again := FormattedWords(cfg, r);
      assert again == [] || again == [""];
    } else {
      SplitJoin(words, ' ');
      RemoveSymbolsAllOfAlnum(words);
      assert Parts(name) == words;
      F.TakeUntilTagKeeps(cfg, words);
      assert FormattedWords(cfg, r) == words;
    }
  }

  lemma {:induction false} ConcatRemoveSplit(s: string, sep: char)
    requires !IsAlnum(sep)
    ensures Concat(RemoveSymbolsAll(Split(s, sep))) == RemoveSymbols(s)
  {
    if |s| > 0 {
      ConcatRemoveSplit(s[1..], sep);
      var rest := Split(s[1..], sep);
      if s[0] != sep {
        assert [s[0]] + rest[0] == [s[0]] + rest[0];
        assert RemoveSymbols([s[0]] + rest[0]) ==
          (if IsAlnum(s[0]) then [s[0]] else "") + RemoveSymbols(rest[0]) by {
          assert ([s[0]] + rest[0])[1..] == rest[0];
        }
        assert RemoveSymbolsAll(rest) == [RemoveSymbols(rest[0])] + RemoveSymbolsAll(rest[1..]);
        assert RemoveSymbolsAll([[s[0]] + rest[0]] + rest[1..]) ==
          [RemoveSymbols([s[0]] + rest[0])] + RemoveSymbolsAll(rest[1..]);
      }
    }
  }

  lemma {:induction false} ConcatSplit(s: string, sep: char)
    requires !IsAlnum(sep)
    requires forall i :: 0 <= i < |s| ==> IsAlnum(s[i]) || s[i] == sep
    ensures Concat(Split(s, sep)) == RemoveSymbols(s)
  {
    if |s| > 0 {
      var tail := s[1..];
      assert forall i :: 0 <= i < |tail| ==> tail[i] == s[i + 1];
      ConcatSplit(tail, sep);
      var rest := Split(tail, sep);
      if s[0] != sep {
        var first := [s[0]] + rest[0];
        assert Split(s, sep) == [first] + rest[1..];
        calc {
          Concat(Split(s, sep));
          first + Concat(rest[1..]);
          [s[0]] + (rest[0] + Concat(rest[1..]));
          [s[0]] + Concat(rest);
          [s[0]] + RemoveSymbols(tail);
        }
      } else {
        assert Split(s, sep) == [""] + rest;
        assert Concat([""] + rest) == Concat(rest);
      }
    }
  }

  lemma {:induction false} ConcatNonEmpty(parts: seq<string>)
    ensures Concat(F.NonEmpty(parts)) == Concat(parts)
  {
    if |parts| > 0 {
      ConcatNonEmpty(parts[1..]);
    }
  }

  lemma {:induction false} RemoveSymbolsReplaced(s: string, a: char, b: char)
    requires !IsAlnum(a) && !IsAlnum(b)
    ensures RemoveSymbols(ReplaceChar(s, a, b)) == RemoveSymbols(s)
  {
    if |s| > 0 {
      RemoveSymbolsReplaced(s[1..], a, b);
      assert ReplaceChar(s, a, b)[1..] == ReplaceChar(s[1..], a, b);
    }
  }

  lemma {:induction false} RemoveSymbolsChanged(s: string)
    ensures RemoveSymbols(F.ChangeSymbols(s, " ")) == RemoveSymbols(s)
  {
    if |s| > 0 {
      RemoveSymbolsChanged(s[1..]);
      var c := F.ConvertSymbol(s[0], " ");
      assert F.ChangeSymbols(s, " ") == c + F.ChangeSymbols(s[1..], " ");
      assert RemoveSymbols(c + F.ChangeSymbols(s[1..], " ")) ==
        RemoveSymbols(c) + RemoveSymbols(F.ChangeSymbols(s[1..], " ")) by {
        RemoveSymbolsAppend(c, F.ChangeSymbols(s[1..], " "));
      }
    }
  }

  lemma {:induction false} RemoveSymbolsAppend(a: string, b: string)
    ensures RemoveSymbols(a + b) == RemoveSymbols(a) + RemoveSymbols(b)
  {
    if |a| > 0 {
      RemoveSymbolsAppend(a[1..], b);
      assert (a + b)[1..] == a[1..] + b;
    } else {
      assert a + b == b;
    }
  }

  /** Before truncation both revisions keep exactly the same characters, the
      alphanumeric ones of the name in order; they differ only in where the
      word boundaries fall (this revision splits on `.` and space only and
      keeps empty parts, the newer one splits at every symbol and drops them). */
  lemma RevisionsKeepSameCharacters(name: string)
    ensures Concat(Parts(name)) == RemoveSymbols(name)
    ensures Concat(F.Tokens(name)) == RemoveSymbols(name)
  {
    ConcatRemoveSplit(ReplaceChar(name, '.', ' '), ' ');
    RemoveSymbolsReplaced(name, '.', ' ');
    var changed := F.ChangeSymbols(name, " ");
    ConcatNonEmpty(Split(changed, ' '));
    ConcatSplit(changed, ' ');
    RemoveSymbolsChanged(name);
  }

  /** The path of a layout in this revision: shows and movies as in the newer
      one, misc and non-video files by plain concatenation of root and name. */
  function LayoutPath(cfg: Config, fileName: string, k: F.Layout): string
    requires k.ShowLayout? ==> |k.season| >= 1
  {
    match k
    case ShowLayout(n, s, e, ext) => F.ShowPath(cfg.showDestination, n, s, e, ext)
    case MovieLayout(m, ext) => F.MoviePath(cfg.movieDestination, m, ext)
    case MiscLayout => cfg.miscDestination + fileName
    case NonVideoLayout => cfg.nonVideoDestination + fileName
  }

  /** `create_destination_path` of this revision. Its layout choice is the
      newer revision's: the code is the same and `IsVideoAgrees` shows the
      video test is too. */
  function CreateDestinationPath(cfg: Config, fileName: string): string
  {
    LayoutPath(cfg, fileName, F.Classify(cfg, fileName))
  }

  /** The two revisions build the same show and movie paths. Misc and
      non-video paths are the root with the name appended, and they agree
      with the newer revision's `os.path.join` whenever the root ends in `/`
      and the name does not start with one. */
  lemma DestinationsAgree(cfg: Config, fileName: string)
    ensures var k := F.Classify(cfg, fileName);
      k.ShowLayout? || k.MovieLayout? ==>
        CreateDestinationPath(cfg, fileName) == F.CreateDestinationPath(cfg, fileName)
    ensures var k := F.Classify(cfg, fileName);
      k.MiscLayout? || k.NonVideoLayout? ==>
        CreateDestinationPath(cfg, fileName) == F.RootOf(cfg, k) + fileName
    ensures var k := F.Classify(cfg, fileName);
      var root := F.RootOf(cfg, k);
      (k.MiscLayout? || k.NonVideoLayout?) && EndsWith(root, "/") && F.Relative(fileName) ==>
        CreateDestinationPath(cfg, fileName) == F.CreateDestinationPath(cfg, fileName)
  {
    var k := F.Classify(cfg, fileName);
    assert CreateDestinationPath(cfg, fileName) == LayoutPath(cfg, fileName, k);
    assert F.CreateDestinationPath(cfg, fileName) == F.LayoutPath(cfg, fileName, k);
  }

  /** Every destination of this revision ends with the file's extension. */
  lemma DestinationKeepsExtension(cfg: Config, fileName: string)
    ensures EndsWith(CreateDestinationPath(cfg, fileName), F.SplitExtension(fileName).ext)
  {
    var k := F.Classify(cfg, fileName);
    assert CreateDestinationPath(cfg, fileName) == LayoutPath(cfg, fileName, k);
    if k.MiscLayout? || k.NonVideoLayout? {
      F.SuffixOfName(fileName, LayoutPath(cfg, fileName, k));
    }
  }
}
