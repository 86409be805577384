/**
 * The icon-collection loop and its own, older glob matcher.
 *
 * `LoadIcons` walks the SVG files in order: a file the glob rejects or whose
 * text is unavailable is skipped, a file that fails to load yields one
 * diagnostic carrying its path, and every other file yields an icon.  The
 * matcher differs from the one of `GlobUtils`: it has no file-name-only rule,
 * and its `**` retries recurse on re-joined strings over start positions
 * before the end of the path only.
 */
module SvgUtils {
  import opened Wrappers
  import opened Text
  import opened GlobUtils
  import opened StringUtils
  import opened XmlUtils

  // ---------------------------------------------------------------------------
  // The older glob matcher
  // ---------------------------------------------------------------------------

  /**
   * What the private `MatchesGlobPattern` decides on split segments: like
   * `PartsMatch`, except that a non-final `**` retries the rest of the pattern,
   * as a fresh match, on the path from every position `pathIndex..|pathParts|-1`.
   */
  predicate LegacyPartsMatch(pathParts: seq<string>, pathIndex: nat, patternParts: seq<string>, patternIndex: nat)
    requires pathIndex <= |pathParts| && patternIndex <= |patternParts|
    decreases |patternParts| - patternIndex, |pathParts| - pathIndex
  {
    if patternIndex < |patternParts| && pathIndex < |pathParts| then
      if patternParts[patternIndex] == "**" then
        var rest := patternParts[patternIndex + 1..];
        patternIndex == |patternParts| - 1 ||
        exists i {:trigger LegacyPartsMatch(pathParts[i..], 0, rest, 0)} :: pathIndex <= i < |pathParts| && LegacyPartsMatch(pathParts[i..], 0, rest, 0)
      else
        Wildcard(pathParts[pathIndex], patternParts[patternIndex]) &&
        LegacyPartsMatch(pathParts, pathIndex + 1, patternParts, patternIndex + 1)
    else
      patternIndex == |patternParts| && pathIndex == |pathParts|
  }

  /** What the private `MatchesGlobPattern(filePath, globPattern)` returns. */
  predicate LegacyGlob(filePath: string, globPattern: string)
  {
    LegacyPartsMatch(Split(Normalize(filePath), '/'), 0, Split(Normalize(globPattern), '/'), 0)
  }

  /** Re-joining a suffix of the segments of a normalised text and splitting it again gives that suffix back. */
  lemma RejoinedSuffix(s: string, k: nat)
    requires '\\' !in s && k < |Split(s, '/')|
    ensures var parts := Split(s, '/');
            Split(Normalize(Join(parts[k..], '/')), '/') == parts[k..]
  {
    var parts := Split(s, '/');
    SplitKeepsAbsence(s, '/', '\\');
    var rest := parts[k..];
    assert forall i :: 0 <= i < |rest| ==> rest[i] == parts[k + i];
    JoinKeepsAbsence(rest, '/', '\\');
    var joined := Join(rest, '/');
    assert Normalize(joined) == joined;
    SplitJoin(rest, '/');
  }

  /** The pattern of a `**` retry is shorter than the pattern being matched. */
  lemma RetryPatternShorter(globPattern: string, k: nat)
    requires 1 <= k < |Split(Normalize(globPattern), '/')|
    ensures |Join(Split(Normalize(globPattern), '/')[k..], '/')| < |globPattern|
  {
    var parts := Split(Normalize(globPattern), '/');
    JoinSplit(Normalize(globPattern), '/');
    JoinSuffixShorter(parts, k, '/');
  }

  /**
   * The recursive call on the rejoined remainders: it decides the same match
   * on the same parts, and its pattern is shorter.
   */
  lemma Retry(filePath: string, globPattern: string, i: nat, k: nat)
    requires i < |Split(Normalize(filePath), '/')|
    requires 1 <= k < |Split(Normalize(globPattern), '/')|
    ensures var pathParts, patternParts := Split(Normalize(filePath), '/'), Split(Normalize(globPattern), '/');
            var remainingPattern := Join(patternParts[k..], '/');
            LegacyGlob(Join(pathParts[i..], '/'), remainingPattern) == LegacyPartsMatch(pathParts[i..], 0, patternParts[k..], 0) &&
            |remainingPattern| < |globPattern|
  {
    RejoinedSuffix(Normalize(filePath), i);
    RejoinedSuffix(Normalize(globPattern), k);
    RetryPatternShorter(globPattern, k);
  }

  /** The private `SvgUtils.MatchesGlobPattern`. */
  method MatchesGlobPattern(filePath: string, globPattern: string) returns (matched: bool)
    ensures matched == LegacyGlob(filePath, globPattern)
    decreases |globPattern|
  {
    var normalizedPath := Normalize(filePath);
    var normalizedPattern := Normalize(globPattern);
    var patternParts := Split(normalizedPattern, '/');
    var pathParts := Split(normalizedPath, '/');
    var patternIndex: nat, pathIndex: nat := 0, 0;
    while patternIndex < |patternParts| && pathIndex < |pathParts|
      invariant patternIndex <= |patternParts| && pathIndex <= |pathParts|
      invariant LegacyPartsMatch(pathParts, pathIndex, patternParts, patternIndex) == LegacyGlob(filePath, globPattern)
      decreases |patternParts| - patternIndex
    {
      var patternPart := patternParts[patternIndex];
      if patternPart == "**" {
        if patternIndex == |patternParts| - 1 {
          return true;
        }
        var rest := patternParts[patternIndex + 1..];
        for i: nat := pathIndex to |pathParts|
          invariant forall k {:trigger LegacyPartsMatch(pathParts[k..], 0, rest, 0)} :: pathIndex <= k < i ==> !LegacyPartsMatch(pathParts[k..], 0, rest, 0)
        {
          var remainingPath := Join(pathParts[i..], '/');
          var remainingPattern := Join(rest, '/');
          Retry(filePath, globPattern, i, patternIndex + 1);
          var m := MatchesGlobPattern(remainingPath, remainingPattern);
          if m {
            assert LegacyPartsMatch(pathParts, pathIndex, patternParts, patternIndex);
            return true;
          }
          assert !LegacyPartsMatch(pathParts[i..], 0, rest, 0);
        }
        assert !LegacyPartsMatch(pathParts, pathIndex, patternParts, patternIndex);
        return false;
      } else {
        var segmentMatches := GlobUtils.MatchesWildcard(pathParts[pathIndex], patternPart);
        if segmentMatches {
          patternIndex := patternIndex + 1;
          pathIndex := pathIndex + 1;
        } else {
          return false;
        }
      }
    }
    return patternIndex == |patternParts| && pathIndex == |pathParts|;
  }

  /**
   * The `<` bound of the retry loop loses nothing: the older matcher decides
   * exactly what `PartsMatch` decides, because a retry of a non-empty rest of
   * the pattern from the end of the path always fails.
   */
  lemma {:induction false} LegacyIsPartsMatch(pathParts: seq<string>, pathIndex: nat,
                                              patternParts: seq<string>, patternIndex: nat)
    requires pathIndex <= |pathParts| && patternIndex <= |patternParts|
    ensures LegacyPartsMatch(pathParts, pathIndex, patternParts, patternIndex) ==
            PartsMatch(pathParts, pathIndex, patternParts, patternIndex)
    decreases |patternParts| - patternIndex, |pathParts| - pathIndex
  {
    if patternIndex < |patternParts| && pathIndex < |pathParts| {
      if patternParts[patternIndex] == "**" {
        if patternIndex < |patternParts| - 1 {
          var next := patternIndex + 1;
          var rest := patternParts[next..];
          forall i | pathIndex <= i < |pathParts|
            ensures LegacyPartsMatch(pathParts[i..], 0, rest, 0) == PartsMatch(pathParts, i, patternParts, next)
          {
            LegacyIsPartsMatch(pathParts[i..], 0, rest, 0);
            PartsMatchOffset(pathParts, i, i, patternParts, next, next);
          }
          PathUsedUp(pathParts, patternParts, next);
          InnerDoubleStar(pathParts, pathIndex, patternParts, patternIndex);
          if PartsMatch(pathParts, pathIndex, patternParts, patternIndex) {
            var i :| pathIndex <= i <= |pathParts| && PartsMatch(pathParts, i, patternParts, next);
            assert i < |pathParts|;
            assert LegacyPartsMatch(pathParts[i..], 0, rest, 0);
          }
          if LegacyPartsMatch(pathParts, pathIndex, patternParts, patternIndex) {
            var i :| pathIndex <= i < |pathParts| && LegacyPartsMatch(pathParts[i..], 0, rest, 0);
            assert PartsMatch(pathParts, i, patternParts, next);
          }
        }
      } else {
        LegacyIsPartsMatch(pathParts, pathIndex + 1, patternParts, patternIndex + 1);
      }
    }
  }

  /** For a pattern with a `/`, the two matchers agree. */
  lemma LegacyAgreesOnDirectoryPatterns(filePath: string, globPattern: string)
    requires '/' in Normalize(globPattern)
    ensures LegacyGlob(filePath, globPattern) == GlobMatch(filePath, globPattern)
  {
    LegacyIsPartsMatch(Split(Normalize(filePath), '/'), 0, Split(Normalize(globPattern), '/'), 0);
  }

  /** A text splits into one segment exactly when it holds no separator. */
  lemma OneSegment(s: string, c: char)
    ensures |Split(s, c)| == 1 <==> c !in s
  {
    if c !in s {
      SplitNoSeparator(s, c);
    } else {
      JoinSplit(s, c);
    }
  }

  /**
   * The older matcher has no file-name-only rule: a single-segment pattern
   * other than `**` must match the whole path, which therefore has no `/`.
   */
  lemma LegacyWholePath(filePath: string, globPattern: string)
    requires '/' !in Normalize(globPattern) && Normalize(globPattern) != "**"
    ensures LegacyGlob(filePath, globPattern) <==>
            '/' !in Normalize(filePath) && Wildcard(Normalize(filePath), Normalize(globPattern))
  {
    var path, pattern := Normalize(filePath), Normalize(globPattern);
    SplitNoSeparator(pattern, '/');
    OneSegment(path, '/');
    var pathParts := Split(path, '/');
    assert LegacyGlob(filePath, globPattern) == LegacyPartsMatch(pathParts, 0, [pattern], 0);
    assert LegacyPartsMatch(pathParts, 0, [pattern], 0) ==
           (Wildcard(pathParts[0], pattern) && LegacyPartsMatch(pathParts, 1, [pattern], 1));
    assert LegacyPartsMatch(pathParts, 1, [pattern], 1) == (|pathParts| == 1);
    if |pathParts| == 1 {
      SplitNoSeparator(path, '/');
      assert pathParts[0] == path;
    }
  }

  /**
   * A file in a directory, selected by its own name: `GlobUtils` matches it
   * through the file-name-only rule, the older matcher does not.
   */
  lemma NestedFileSelectedOnlyByGlobUtils(dir: string, name: string)
    requires '\\' !in dir && '\\' !in name && '/' !in name && '*' !in name
    ensures GlobMatch(dir + "/" + name, name)
    ensures !LegacyGlob(dir + "/" + name, name)
  {
    var path := dir + "/" + name;
    assert forall i | 0 <= i < |path| :: path[i] != '\\' by {
      forall i | 0 <= i < |path| ensures path[i] != '\\' {
        if i < |dir| {
          assert path[i] == dir[i];
        } else if i > |dir| {
          assert path[i] == name[i - |dir| - 1];
        }
      }
    }
    assert Normalize(path) == path;
    assert Normalize(name) == name;
    assert path[|dir|] == '/';
    LastIndexAt(dir, name, '/');
    assert FileName(path) == name;
    assert '*' in "**";
    LegacyWholePath(path, name);
  }

  /** `home.svg` selects `icons/home.svg` for `GlobUtils`, but not for the older matcher. */
  lemma LegacyIgnoresFileNameRule()
    ensures GlobMatch("icons/home.svg", "home.svg")
    ensures !LegacyGlob("icons/home.svg", "home.svg")
  {
    var dir, name := "icons", "home.svg";
    PlainNames(dir, name);
    NestedFileSelectedOnlyByGlobUtils(dir, name);
  }

  /** The names of the example hold no backslash, and the file name no slash and no star. */
  lemma PlainNames(dir: string, name: string)
    requires dir == "icons" && name == "home.svg"
    ensures '\\' !in dir && '\\' !in name && '/' !in name && '*' !in name
    ensures dir + "/" + name == "icons/home.svg"
  {
  }

  // ---------------------------------------------------------------------------
  // Root attributes
  // ---------------------------------------------------------------------------

  /** The filter on root attributes: by local name only, so `xmlns:xlink` (local name `xlink`) passes. */
  predicate KeptOnRoot(a: Attribute)
  {
    a.name.localName != "xmlns" && a.name.localName != "class"
  }

  /** The `Where` of the root attributes. */
  function RootAttributes(attributes: seq<Attribute>): (r: seq<Attribute>)
    ensures forall a | a in r :: a in attributes && KeptOnRoot(a)
    ensures forall a | a in attributes && KeptOnRoot(a) :: a in r
  {
    if attributes == [] then []
    else (if KeptOnRoot(attributes[0]) then [attributes[0]] else []) + RootAttributes(attributes[1..])
  }

  /** No two attributes of the list share a local name. */
  predicate DistinctLocalNames(attributes: seq<Attribute>)
  {
    forall i, j :: 0 <= i < j < |attributes| ==> attributes[i].name.localName != attributes[j].name.localName
  }

  /** `ToDictionary` keyed by local name: `None` where a key repeats and the source throws. */
  function ToDictionary(attributes: seq<Attribute>): (r: Option<map<string, string>>)
  {
    if attributes == [] then Some(map[])
    else
      var last := attributes[|attributes| - 1];
      match ToDictionary(attributes[..|attributes| - 1])
      case None => None
      case Some(m) =>
        if last.name.localName in m then None
        else Some(m[last.name.localName := last.value])
  }

  /**
   * A dictionary that exists holds, for every attribute, its local name mapped
   * to its value, and no key other than those local names.
   */
  lemma {:induction false} ToDictionaryContents(attributes: seq<Attribute>)
    requires ToDictionary(attributes).Some?
    ensures var m := ToDictionary(attributes).value;
            (forall i | 0 <= i < |attributes| ::
               attributes[i].name.localName in m && m[attributes[i].name.localName] == attributes[i].value) &&
            (forall k | k in m :: exists i | 0 <= i < |attributes| :: attributes[i].name.localName == k)
  {
    if attributes != [] {
      var n := |attributes| - 1;
      var front := attributes[..n];
      ToDictionaryContents(front);
      var m := ToDictionary(front).value;
      assert forall i | 0 <= i < n :: front[i] == attributes[i];
      forall k | k in ToDictionary(attributes).value
        ensures exists i | 0 <= i < |attributes| :: attributes[i].name.localName == k
      {
        if k != attributes[n].name.localName {
          var i :| 0 <= i < n && front[i].name.localName == k;
          assert attributes[i].name.localName == k;
        }
      }
    }
  }

  /** The dictionary exists exactly when the local names are distinct; otherwise the source throws. */
  lemma {:induction false} ToDictionaryDefined(attributes: seq<Attribute>)
    ensures ToDictionary(attributes).Some? <==> DistinctLocalNames(attributes)
  {
    if attributes != [] {
      var n := |attributes| - 1;
      var front, last := attributes[..n], attributes[n];
      ToDictionaryDefined(front);
      assert forall i | 0 <= i < n :: front[i] == attributes[i];
      if ToDictionary(front).Some? {
        var m := ToDictionary(front).value;
        ToDictionaryContents(front);
        if last.name.localName in m {
          var i :| 0 <= i < n && front[i].name.localName == last.name.localName;
          assert attributes[i].name.localName == attributes[n].name.localName;
        } else {
          forall i, j | 0 <= i < j < |attributes|
            ensures attributes[i].name.localName != attributes[j].name.localName
          {
            if j == n {
              assert front[i].name.localName in m;
            }
          }
        }
      } else {
        var i, j :| 0 <= i < j < n && front[i].name.localName == front[j].name.localName;
        assert attributes[i].name.localName == attributes[j].name.localName;
      }
    }
  }

  /**
   * The icon's attribute map: every root attribute other than `xmlns` and
   * `class`, keyed by local name, when those local names are distinct.
   */
  lemma AttributeMap(attributes: seq<Attribute>)
    ensures var r := ToDictionary(RootAttributes(attributes));
            r.Some? <==> DistinctLocalNames(RootAttributes(attributes))
    ensures var r := ToDictionary(RootAttributes(attributes));
            r.Some? ==>
              "xmlns" !in r.value && "class" !in r.value &&
              (forall a | a in attributes && KeptOnRoot(a) ::
                 a.name.localName in r.value && r.value[a.name.localName] == a.value) &&
              (forall k | k in r.value :: exists a | a in attributes && KeptOnRoot(a) :: a.name.localName == k)
  {
    var kept := RootAttributes(attributes);
    ToDictionaryDefined(kept);
    if ToDictionary(kept).Some? {
      var m := ToDictionary(kept).value;
      ToDictionaryContents(kept);
      forall a | a in attributes && KeptOnRoot(a)
        ensures a.name.localName in m && m[a.name.localName] == a.value
      {
        var i :| 0 <= i < |kept| && kept[i] == a;
      }
      forall k | k in m
        ensures exists a | a in attributes && KeptOnRoot(a) :: a.name.localName == k
      {
        var i :| 0 <= i < |kept| && kept[i].name.localName == k;
        assert kept[i] in kept;
      }
    }
  }

  /** A prefixed namespace declaration on the root is kept, under the prefix as key. */
  lemma PrefixDeclarationKept()
    ensures var attributes := [Attribute(XName("", "xmlns"), "http://www.w3.org/2000/svg"),
                               Attribute(XName(XmlnsNamespace, "xlink"), "http://www.w3.org/1999/xlink")];
            ToDictionary(RootAttributes(attributes)) == Some(map["xlink" := "http://www.w3.org/1999/xlink"])
  {
    var attributes := [Attribute(XName("", "xmlns"), "http://www.w3.org/2000/svg"),
                       Attribute(XName(XmlnsNamespace, "xlink"), "http://www.w3.org/1999/xlink")];
    assert !KeptOnRoot(attributes[0]);
    assert KeptOnRoot(attributes[1]);
    assert attributes[1..] == [attributes[1]] && attributes[1..][1..] == [];
    assert RootAttributes(attributes[1..]) == [attributes[1]];
    assert RootAttributes(attributes) == [attributes[1]];
    assert [attributes[1]][..0] == [];
  }

  // ---------------------------------------------------------------------------
  // LoadIcons
  // ---------------------------------------------------------------------------

  /** An additional file of the compilation: its path and its text, which may be unavailable. */
  datatype SvgFile = SvgFile(path: string, text: Option<string>)

  /** The icon handed to the emitter. */
  datatype IconInfo = IconInfo(propertyName: string, name: string, attributes: map<string, string>, innerContent: string)

  /** The library calls the loop relies on, which are not part of this model. */
  datatype Host = Host(
    fileNameWithoutExtension: string -> string,
    parse: string -> Option<Element>,
    serialize: Element -> string,
    serializeComment: string -> string)

  /** What happens to one file. */
  datatype Outcome = Skipped | Loaded(icon: IconInfo) | Failed(path: string)

  /** The body of the loop for one file; `Failed` is the `catch`. */
  function FileOutcome(file: SvgFile, globPattern: Option<string>, host: Host): Outcome
  {
    if globPattern.Some? && !LegacyGlob(file.path, globPattern.value) then Skipped
    else if file.text.None? then Skipped
    else
      var fileName := host.fileNameWithoutExtension(file.path);
      match host.parse(file.text.value)
      case None => Failed(file.path)
      case Some(svgElement) =>
        match ToDictionary(RootAttributes(svgElement.attributes))
        case None => Failed(file.path)
        case Some(attributes) =>
          match InnerXml(svgElement.nodes, host.serialize, host.serializeComment)
          case None => Failed(file.path)
          case Some(innerContent) => Loaded(IconInfo(PascalCase(fileName), fileName, attributes, innerContent))
  }

  /** The icons collected from `files`, in order. */
  function Icons(files: seq<SvgFile>, globPattern: Option<string>, host: Host): seq<IconInfo>
  {
    if files == [] then []
    else
      var o := FileOutcome(files[|files| - 1], globPattern, host);
      Icons(files[..|files| - 1], globPattern, host) + (if o.Loaded? then [o.icon] else [])
  }

  /** The paths of the files that failed to load, in order: one diagnostic each. */
  function Failures(files: seq<SvgFile>, globPattern: Option<string>, host: Host): seq<string>
  {
    if files == [] then []
    else
      var o := FileOutcome(files[|files| - 1], globPattern, host);
      Failures(files[..|files| - 1], globPattern, host) + (if o.Failed? then [o.path] else [])
  }

  /** `SvgUtils.LoadIcons`: the icons collected, and the paths reported as parse errors. */
  method LoadIcons(svgFiles: seq<SvgFile>, globPattern: Option<string>, host: Host)
    returns (icons: seq<IconInfo>, diagnostics: seq<string>)
    ensures icons == Icons(svgFiles, globPattern, host)
    ensures diagnostics == Failures(svgFiles, globPattern, host)
  {
    icons, diagnostics := [], [];
    for k := 0 to |svgFiles|
      invariant icons == Icons(svgFiles[..k], globPattern, host)
      invariant diagnostics == Failures(svgFiles[..k], globPattern, host)
    {
      var file := svgFiles[k];
      assert svgFiles[..k + 1][..k] == svgFiles[..k];
      assert svgFiles[..k + 1][k] == file;
      if globPattern.Some? {
        var matches := MatchesGlobPattern(file.path, globPattern.value);
        if !matches {
          continue;
        }
      }
      var fileName := host.fileNameWithoutExtension(file.path);
      var propertyName := ConvertToPascalCase(fileName);
      if file.text.None? {
        continue;
      }
      var doc := host.parse(file.text.value);
      if doc.None? {
        diagnostics := diagnostics + [file.path];
        continue;
      }
      var svgElement := doc.value;
      var attributes := ToDictionary(RootAttributes(svgElement.attributes));
      if attributes.None? {
        diagnostics := diagnostics + [file.path];
        continue;
      }
      var innerContent := GetInnerXml(svgElement, host.serialize, host.serializeComment);
      if innerContent.None? {
        diagnostics := diagnostics + [file.path];
        continue;
      }
      icons := icons + [IconInfo(propertyName, fileName, attributes.value, innerContent.value)];
    }
    assert svgFiles[..|svgFiles|] == svgFiles;
  }

  /**
   * Files are handled one at a time and a failure does not stop the loop: the
   * results for `a + b` are those for `a` followed by those for `b`.
   */
  lemma {:induction false} LoadIconsAppend(a: seq<SvgFile>, b: seq<SvgFile>, globPattern: Option<string>, host: Host)
    ensures Icons(a + b, globPattern, host) == Icons(a, globPattern, host) + Icons(b, globPattern, host)
    ensures Failures(a + b, globPattern, host) == Failures(a, globPattern, host) + Failures(b, globPattern, host)
    decreases |b|
  {
    if b == [] {
      assert a + b == a;
    } else {
      var n := |b| - 1;
      assert (a + b)[..|a + b| - 1] == a + b[..n];
      assert (a + b)[|a + b| - 1] == b[n];
      LoadIconsAppend(a, b[..n], globPattern, host);
    }
  }

  /** Every file yields at most one icon or one diagnostic; the counts add up to at most the number of files. */
  lemma {:induction false} LoadIconsAccounting(files: seq<SvgFile>, globPattern: Option<string>, host: Host)
    ensures |Icons(files, globPattern, host)| + |Failures(files, globPattern, host)| <= |files|
    ensures globPattern.None? && (forall f | f in files :: f.text.Some?) ==>
              |Icons(files, globPattern, host)| + |Failures(files, globPattern, host)| == |files|
  {
    if files != [] {
      var n := |files| - 1;
      assert forall f | f in files[..n] :: f in files;
      assert files[n] in files;
      LoadIconsAccounting(files[..n], globPattern, host);
    }
  }

  /**
   * Each icon is named after a file: its raw name is the file name without
   * extension and its property name is the PascalCase form of that name.
   */
  lemma {:induction false} IconNames(files: seq<SvgFile>, globPattern: Option<string>, host: Host)
    ensures forall icon | icon in Icons(files, globPattern, host) ::
              icon.propertyName == PascalCase(icon.name) &&
              exists f | f in files :: icon.name == host.fileNameWithoutExtension(f.path)
  {
    if files != [] {
      var n := |files| - 1;
      assert forall f | f in files[..n] :: f in files;
      assert files[n] in files;
      IconNames(files[..n], globPattern, host);
    }
  }

  /** A file the glob rejects and a file without text are skipped without a diagnostic. */
  lemma SkippedSilently(file: SvgFile, globPattern: Option<string>, host: Host)
    requires (globPattern.Some? && !LegacyGlob(file.path, globPattern.value)) || file.text.None?
    ensures Icons([file], globPattern, host) == [] && Failures([file], globPattern, host) == []
  {
    assert [file][..0] == [];
  }

  /** Without a pattern, a file with text is never skipped: it yields an icon or a diagnostic naming it. */
  lemma EveryFileConsidered(file: SvgFile, host: Host)
    requires file.text.Some?
    ensures Icons([file], None, host) != [] || Failures([file], None, host) == [file.path]
  {
    assert [file][..0] == [];
  }

  /** A file whose text does not parse yields exactly one diagnostic naming it, and no icon. */
  lemma ParseFailureReported(file: SvgFile, globPattern: Option<string>, host: Host)
    requires globPattern.None? || LegacyGlob(file.path, globPattern.value)
    requires file.text.Some? && host.parse(file.text.value).None?
    ensures Icons([file], globPattern, host) == [] && Failures([file], globPattern, host) == [file.path]
  {
    assert [file][..0] == [];
  }
}
