/**
 * The segment-wise glob matcher: `*` inside one path segment, `**` over whole
 * segments, case-insensitive comparison, and the rule that a pattern without `/`
 * is matched against the file name only.
 *
 * Each loop of the source is a method proved equal to a specification function
 * (`Wildcard`, `PartsMatch`, `GlobMatch`); the properties of the matcher are
 * lemmas about those functions, among them soundness with respect to textbook
 * glob semantics (`StarMatch`, `SegmentsMatch`) and the inputs on which the
 * matcher is stricter than that semantics.
 */
module GlobUtils {
  import opened Text

  /** `Replace('\\', '/')`, applied to the path and to the pattern before matching. */
  function Normalize(s: string): (r: string)
    ensures |r| == |s| && '\\' !in r
    ensures forall i :: 0 <= i < |s| ==> r[i] == (if s[i] == '\\' then '/' else s[i])
  {
    Replace(s, '\\', '/')
  }

  /** The file name of a normalised path: the text after its last `/`, or the whole path. */
  function FileName(path: string): string
  {
    if '/' in path then path[LastIndexOf(path, '/') + 1..] else path
  }

  /** `pattern.EndsWith("*", StringComparison.Ordinal)`. */
  predicate EndsWithStar(pattern: string)
  {
    |pattern| > 0 && pattern[|pattern| - 1] == '*'
  }

  // ---------------------------------------------------------------------------
  // MatchesWildcard
  // ---------------------------------------------------------------------------

  /**
   * The search loop of the wildcard matcher, from part `i` at search position
   * `cur`: each non-empty part is looked up, leftmost and ignoring case, from the
   * current position, and the position moves past it; the first part must be
   * found at 0. The result is the final position, or -1 when the loop fails.
   */
  function Scan(text: string, parts: seq<string>, i: nat, cur: nat): (r: int)
    requires i <= |parts| && cur <= |text|
    ensures r == -1 || cur <= r <= |text|
    decreases |parts| - i
  {
    if i == |parts| then cur
    else if parts[i] == "" then Scan(text, parts, i + 1, cur)
    else
      var found := IndexOfIgnoreCase(text, parts[i], cur);
      if found == -1 || (i == 0 && found != 0) then -1
      else Scan(text, parts, i + 1, found + |parts[i]|)
  }

  /** What `MatchesWildcard(text, pattern)` returns. */
  predicate Wildcard(text: string, pattern: string)
  {
    if pattern == "*" then true
    else if '*' !in pattern then EqualsIgnoreCase(text, pattern)
    else
      var r := Scan(text, Split(pattern, '*'), 0, 0);
      r != -1 && (EndsWithStar(pattern) || r == |text|)
  }

  /** Matches one path segment against one pattern segment that may contain `*`. */
  method MatchesWildcard(text: string, pattern: string) returns (matched: bool)
    ensures matched == Wildcard(text, pattern)
  {
    if pattern == "*" {
      return true;
    }
    if '*' !in pattern {
      return EqualsIgnoreCase(text, pattern);
    }
    var parts := Split(pattern, '*');
    var currentIndex := FindParts(text, parts);
    if currentIndex == -1 {
      return false;
    }
    if !EndsWithStar(pattern) && currentIndex != |text| {
      return false;
    }
    return true;
  }

  /**
   * The loop of `MatchesWildcard` over the pieces of the pattern: the position
   * after the last piece found, or -1 where the loop returns false.
   */
  method FindParts(text: string, parts: seq<string>) returns (end: int)
    ensures end == Scan(text, parts, 0, 0)
  {
    var currentIndex: nat := 0;
    for i := 0 to |parts|
      invariant currentIndex <= |text|
      invariant Scan(text, parts, i, currentIndex) == Scan(text, parts, 0, 0)
    {
      var part := parts[i];
      if part == "" {
        continue;
      }
      var foundIndex := IndexOfIgnoreCase(text, part, currentIndex);
      if foundIndex == -1 {
        return -1;
      }
      if i == 0 && foundIndex != 0 {
        return -1;
      }
      ScanFound(text, parts, i, currentIndex, foundIndex);
      currentIndex := foundIndex + |part|;
    }
    return currentIndex;
  }

  // ---------------------------------------------------------------------------
  // MatchesPatternParts and MatchesGlobPattern
  // ---------------------------------------------------------------------------

  /**
   * What `MatchesPatternParts(pathParts, pathIndex, patternParts, patternIndex)`
   * returns: segments are matched pairwise while both lists have some left; `**`
   * as the last pattern segment accepts, `**` elsewhere retries the rest of the
   * pattern from every position `pathIndex..|pathParts|`; otherwise both lists
   * must be used up together.
   */
  predicate PartsMatch(pathParts: seq<string>, pathIndex: nat, patternParts: seq<string>, patternIndex: nat)
    requires pathIndex <= |pathParts| && patternIndex <= |patternParts|
    decreases |patternParts| - patternIndex, |pathParts| - pathIndex
  {
    if patternIndex < |patternParts| && pathIndex < |pathParts| then
      if patternParts[patternIndex] == "**" then
        var next := patternIndex + 1;
        patternIndex == |patternParts| - 1 ||
        exists i :: pathIndex <= i <= |pathParts| && PartsMatch(pathParts, i, patternParts, next)
      else
        Wildcard(pathParts[pathIndex], patternParts[patternIndex]) &&
        PartsMatch(pathParts, pathIndex + 1, patternParts, patternIndex + 1)
    else
      patternIndex == |patternParts| && pathIndex == |pathParts|
  }

  /** Matches path segments from `pathFrom` against pattern segments from `patternFrom`. */
  method MatchesPatternParts(pathParts: seq<string>, pathFrom: nat, patternParts: seq<string>, patternFrom: nat)
    returns (matched: bool)
    requires pathFrom <= |pathParts| && patternFrom <= |patternParts|
    ensures matched == PartsMatch(pathParts, pathFrom, patternParts, patternFrom)
    decreases |patternParts| - patternFrom
  {
    var pathIndex: nat, patternIndex: nat := pathFrom, patternFrom;
    while patternIndex < |patternParts| && pathIndex < |pathParts|
      invariant patternFrom <= patternIndex <= |patternParts| && pathIndex <= |pathParts|
      invariant PartsMatch(pathParts, pathIndex, patternParts, patternIndex)
                == PartsMatch(pathParts, pathFrom, patternParts, patternFrom)
      decreases |patternParts| - patternIndex
    {
      var patternPart := patternParts[patternIndex];
      if patternPart == "**" {
        if patternIndex == |patternParts| - 1 {
          return true;
        }
        var next := patternIndex + 1;
        for i: nat := pathIndex to |pathParts| + 1
          invariant forall k :: pathIndex <= k < i ==> !PartsMatch(pathParts, k, patternParts, next)
        {
          var rest := MatchesPatternParts(pathParts, i, patternParts, next);
          if rest {
            assert PartsMatch(pathParts, pathIndex, patternParts, patternIndex);
            return true;
          }
        }
        return false;
      }
      var segment := MatchesWildcard(pathParts[pathIndex], patternPart);
      if segment {
        patternIndex := patternIndex + 1;
        pathIndex := pathIndex + 1;
      } else {
        return false;
      }
    }
    return patternIndex == |patternParts| && pathIndex == |pathParts|;
  }

  /** What `MatchesGlobPattern(filePath, globPattern)` returns. */
  predicate GlobMatch(filePath: string, globPattern: string)
  {
    var path := Normalize(filePath);
    var pattern := Normalize(globPattern);
    if '/' !in pattern then Wildcard(FileName(path), pattern)
    else PartsMatch(Split(path, '/'), 0, Split(pattern, '/'), 0)
  }

  /** Matches a file path against a glob pattern. */
  method MatchesGlobPattern(filePath: string, globPattern: string) returns (matched: bool)
    ensures matched == GlobMatch(filePath, globPattern)
  {
    var normalizedPath := Normalize(filePath);
    var normalizedPattern := Normalize(globPattern);
    if '/' !in normalizedPattern {
      var fileName := if '/' in normalizedPath
        then normalizedPath[LastIndexOf(normalizedPath, '/') + 1..]
        else normalizedPath;
      assert fileName == FileName(normalizedPath);
      matched := MatchesWildcard(fileName, normalizedPattern);
      return;
    }
    var patternParts := Split(normalizedPattern, '/');
    var pathParts := Split(normalizedPath, '/');
    matched := MatchesPatternParts(pathParts, 0, patternParts, 0);
    assert matched == PartsMatch(Split(Normalize(filePath), '/'), 0, Split(Normalize(globPattern), '/'), 0);
  }

  // ---------------------------------------------------------------------------
  // Properties of the whole matcher
  // ---------------------------------------------------------------------------

  /** Backslashes are forward slashes: matching the normalised inputs gives the same answer. */
  lemma BackslashIsSlash(filePath: string, globPattern: string)
    ensures GlobMatch(filePath, globPattern) == GlobMatch(Normalize(filePath), Normalize(globPattern))
  {
    assert Normalize(Normalize(filePath)) == Normalize(filePath);
    assert Normalize(Normalize(globPattern)) == Normalize(globPattern);
  }

  /** A pattern without `/` is matched against the last segment of the path only. */
  lemma FileNameOnlyRule(filePath: string, globPattern: string)
    requires '/' !in Normalize(globPattern)
    ensures var segments := Split(Normalize(filePath), '/');
            GlobMatch(filePath, globPattern) == Wildcard(segments[|segments| - 1], Normalize(globPattern))
  {
    var path := Normalize(filePath);
    var segments := Split(path, '/');
    LastPieceAfterLastSeparator(path, '/');
    if '/' !in path {
      assert LastIndexOf(path, '/') == -1;
      assert path[0..] == path;
    }
    assert FileName(path) == segments[|segments| - 1];
  }

  /** Under a pattern without `/`, two paths with the same last segment match alike. */
  lemma FileNameOnlyIgnoresDirectories(path1: string, path2: string, globPattern: string)
    requires '/' !in Normalize(globPattern)
    requires var s1, s2 := Split(Normalize(path1), '/'), Split(Normalize(path2), '/');
             s1[|s1| - 1] == s2[|s2| - 1]
    ensures GlobMatch(path1, globPattern) == GlobMatch(path2, globPattern)
  {
    FileNameOnlyRule(path1, globPattern);
    FileNameOnlyRule(path2, globPattern);
  }

  /** The empty pattern matches exactly the paths whose last segment is empty. */
  lemma EmptyPattern(filePath: string)
    ensures var segments := Split(Normalize(filePath), '/');
            GlobMatch(filePath, "") <==> segments[|segments| - 1] == ""
  {
    FileNameOnlyRule(filePath, "");
  }

  /** `**` alone matches every path, the empty one included. */
  lemma DoubleStarMatchesEverything(filePath: string)
    ensures GlobMatch(filePath, "**")
  {
    assert Normalize("**") == "**";
    assert "*" == [] + ['*'] + "" && "**" == [] + ['*'] + "*";
    SplitPrefix([], "", '*');
    SplitPrefix([], "*", '*');
    var parts := Split("**", '*');
    assert parts == ["", "", ""];
    var text := FileName(Normalize(filePath));
    assert Scan(text, parts, 3, 0) == 0;
    assert Scan(text, parts, 0, 0) == 0;
  }

  /** `*` matches any segment; a segment pattern without `*` is a case-insensitive comparison. */
  lemma WildcardWithoutEmbeddedStar(text: string, pattern: string)
    ensures Wildcard(text, "*")
    ensures '*' !in pattern ==> (Wildcard(text, pattern) <==> EqualsIgnoreCase(text, pattern))
  {
  }

  /**
   * Without `**`, a match pairs path and pattern segments one to one: the counts
   * left over agree and each segment matches the one at the same position.
   */
  lemma {:induction false} PartsWithoutDoubleStar(pathParts: seq<string>, pathIndex: nat,
                                                  patternParts: seq<string>, patternIndex: nat)
    requires pathIndex <= |pathParts| && patternIndex <= |patternParts|
    requires forall k :: patternIndex <= k < |patternParts| ==> patternParts[k] != "**"
    ensures var path, pattern := pathParts[pathIndex..], patternParts[patternIndex..];
            PartsMatch(pathParts, pathIndex, patternParts, patternIndex) <==>
            (|path| == |pattern| && forall k :: 0 <= k < |pattern| ==> Wildcard(path[k], pattern[k]))
    decreases |patternParts| - patternIndex
  {
    var path, pattern := pathParts[pathIndex..], patternParts[patternIndex..];
    if patternIndex < |patternParts| && pathIndex < |pathParts| {
      PartsWithoutDoubleStar(pathParts, pathIndex + 1, patternParts, patternIndex + 1);
      assert path[1..] == pathParts[pathIndex + 1..];
      assert pattern[1..] == patternParts[patternIndex + 1..];
      if |path| == |pattern| && forall k :: 0 <= k < |pattern| ==> Wildcard(path[k], pattern[k]) {
        forall k | 0 <= k < |pattern| - 1 ensures Wildcard(path[1..][k], pattern[1..][k]) {
          assert Wildcard(path[k + 1], pattern[k + 1]);
        }
        assert Wildcard(path[0], pattern[0]);
      }
      if PartsMatch(pathParts, pathIndex, patternParts, patternIndex) {
        forall k | 0 <= k < |pattern| ensures Wildcard(path[k], pattern[k]) {
          if k > 0 {
            assert Wildcard(path[1..][k - 1], pattern[1..][k - 1]);
          }
        }
      }
    }
  }

  /** A final `**` accepts as soon as it is reached with at least one path segment left. */
  lemma TrailingDoubleStar(pathParts: seq<string>, pathIndex: nat, patternParts: seq<string>)
    requires |patternParts| >= 1 && patternParts[|patternParts| - 1] == "**"
    requires pathIndex <= |pathParts|
    ensures PartsMatch(pathParts, pathIndex, patternParts, |patternParts| - 1) <==> pathIndex < |pathParts|
  {
  }

  /**
   * A `**` that is not last consumes any number of segments, zero included: the
   * match holds iff the rest of the pattern matches from some position
   * `pathIndex..|pathParts|`.
   */
  lemma InnerDoubleStar(pathParts: seq<string>, pathIndex: nat, patternParts: seq<string>, patternIndex: nat)
    requires pathIndex < |pathParts| && patternIndex < |patternParts| - 1
    requires patternParts[patternIndex] == "**"
    ensures PartsMatch(pathParts, pathIndex, patternParts, patternIndex) <==>
            RestMatchesFromSome(pathParts, pathIndex, patternParts, patternIndex + 1)
    ensures PartsMatch(pathParts, pathIndex, patternParts, patternIndex + 1) ==>
            PartsMatch(pathParts, pathIndex, patternParts, patternIndex)
  {
    var next := patternIndex + 1;
    if PartsMatch(pathParts, pathIndex, patternParts, next) {
      assert pathIndex <= pathIndex <= |pathParts| && PartsMatch(pathParts, pathIndex, patternParts, next);
    }
  }

  /** The pattern from `patternIndex` matches the path from some position at or after `pathIndex`. */
  ghost predicate RestMatchesFromSome(pathParts: seq<string>, pathIndex: nat, patternParts: seq<string>, patternIndex: nat)
    requires pathIndex <= |pathParts| && patternIndex <= |patternParts|
  {
    exists i :: pathIndex <= i <= |pathParts| && PartsMatch(pathParts, i, patternParts, patternIndex)
  }

  /** Once the path is used up, only the used-up pattern matches: there is nothing left for `**`. */
  lemma PathUsedUp(pathParts: seq<string>, patternParts: seq<string>, patternIndex: nat)
    requires patternIndex <= |patternParts|
    ensures PartsMatch(pathParts, |pathParts|, patternParts, patternIndex) <==> patternIndex == |patternParts|
  {
  }

  /** Matching depends only on the segments left: dropping consumed segments from the front changes nothing. */
  lemma {:induction false} PartsMatchOffset(pathParts: seq<string>, d: nat, pathIndex: nat,
                                            patternParts: seq<string>, e: nat, patternIndex: nat)
    requires d <= pathIndex <= |pathParts| && e <= patternIndex <= |patternParts|
    ensures PartsMatch(pathParts[d..], pathIndex - d, patternParts[e..], patternIndex - e) ==
            PartsMatch(pathParts, pathIndex, patternParts, patternIndex)
    decreases |patternParts| - patternIndex, |pathParts| - pathIndex
  {
    var path, pattern := pathParts[d..], patternParts[e..];
    var a, b := pathIndex - d, patternIndex - e;
    if patternIndex < |patternParts| && pathIndex < |pathParts| {
      assert path[a] == pathParts[pathIndex] && pattern[b] == patternParts[patternIndex];
      if patternParts[patternIndex] == "**" {
        if patternIndex < |patternParts| - 1 {
          var next := patternIndex + 1;
          forall j | pathIndex <= j <= |pathParts|
            ensures PartsMatch(path, j - d, pattern, b + 1) == PartsMatch(pathParts, j, patternParts, next)
          {
            PartsMatchOffset(pathParts, d, j, patternParts, e, next);
          }
          InnerDoubleStar(pathParts, pathIndex, patternParts, patternIndex);
          InnerDoubleStar(path, a, pattern, b);
          if PartsMatch(pathParts, pathIndex, patternParts, patternIndex) {
            var j :| pathIndex <= j <= |pathParts| && PartsMatch(pathParts, j, patternParts, next);
            assert a <= j - d <= |path| && PartsMatch(path, j - d, pattern, b + 1);
          }
          if PartsMatch(path, a, pattern, b) {
            var i :| a <= i <= |path| && PartsMatch(path, i, pattern, b + 1);
            assert PartsMatch(path, (i + d) - d, pattern, b + 1);
            assert pathIndex <= i + d <= |pathParts| && PartsMatch(pathParts, i + d, patternParts, next);
          }
        }
      } else {
        PartsMatchOffset(pathParts, d, pathIndex + 1, patternParts, e, patternIndex + 1);
      }
    }
  }

  // ---------------------------------------------------------------------------
  // Comparison with textbook glob semantics
  // ---------------------------------------------------------------------------

  /** Textbook matching of one segment: `*` matches any run of characters, the rest ignoring case. */
  ghost predicate StarMatch(text: string, pattern: string)
    decreases |pattern|
  {
    if pattern == [] then text == []
    else if pattern[0] == '*' then exists k :: 0 <= k <= |text| && StarMatch(text[k..], pattern[1..])
    else |text| > 0 && Fold(text[0]) == Fold(pattern[0]) && StarMatch(text[1..], pattern[1..])
  }

  /** Textbook matching of segment lists: `**` matches any number of whole segments, zero included. */
  ghost predicate SegmentsMatch(path: seq<string>, pattern: seq<string>)
    decreases |pattern|
  {
    if pattern == [] then path == []
    else if pattern[0] == "**" then exists k :: 0 <= k <= |path| && SegmentsMatch(path[k..], pattern[1..])
    else |path| > 0 && StarMatch(path[0], pattern[0]) && SegmentsMatch(path[1..], pattern[1..])
  }

  /** `*` matches everything. */
  lemma StarMatchesAll(text: string)
    ensures StarMatch(text, "*")
  {
    assert StarMatch(text[|text|..], "");
  }

  /** A star-free pattern matches exactly the texts equal to it ignoring case. */
  lemma {:induction false} StarMatchLiteral(text: string, literal: string)
    requires '*' !in literal
    ensures StarMatch(text, literal) <==> EqualsIgnoreCase(text, literal)
    decreases |literal|
  {
    if literal != [] && |text| > 0 {
      StarMatchLiteral(text[1..], literal[1..]);
      if EqualsIgnoreCase(text, literal) {
        assert Fold(text[0]) == Fold(literal[0]);
        assert EqualsIgnoreCase(text[1..], literal[1..]) by {
          forall i | 0 <= i < |text| - 1 ensures Fold(text[1..][i]) == Fold(literal[1..][i]) {
            assert Fold(text[i + 1]) == Fold(literal[i + 1]);
          }
        }
      }
      if Fold(text[0]) == Fold(literal[0]) && EqualsIgnoreCase(text[1..], literal[1..]) {
        forall i | 0 <= i < |text| ensures Fold(text[i]) == Fold(literal[i]) {
          if i > 0 {
            assert Fold(text[1..][i - 1]) == Fold(literal[1..][i - 1]);
          }
        }
      }
    }
  }

  /** A star-free prefix of the pattern must meet an equal (ignoring case) prefix of the text. */
  lemma {:induction false} StarMatchLiteralPrefix(text: string, literal: string, rest: string)
    requires '*' !in literal
    requires |literal| <= |text| && EqualsIgnoreCase(text[..|literal|], literal)
    requires StarMatch(text[|literal|..], rest)
    ensures StarMatch(text, literal + rest)
    decreases |literal|
  {
    if literal == [] {
      assert literal + rest == rest;
      assert text[|literal|..] == text;
    } else {
      assert Fold(text[..|literal|][0]) == Fold(literal[0]);
      assert EqualsIgnoreCase(text[1..][..|literal| - 1], literal[1..]) by {
        forall i | 0 <= i < |literal| - 1
          ensures Fold(text[1..][..|literal| - 1][i]) == Fold(literal[1..][i])
        {
          assert Fold(text[..|literal|][i + 1]) == Fold(literal[i + 1]);
        }
      }
      assert text[1..][|literal| - 1..] == text[|literal|..];
      StarMatchLiteralPrefix(text[1..], literal[1..], rest);
      assert (literal + rest)[1..] == literal[1..] + rest;
    }
  }

  /** The pattern text from part `i` on, parts separated by `*`. */
  function Tail(parts: seq<string>, i: nat): string
    requires i < |parts|
  {
    Join(parts[i..], '*')
  }

  /** Unfolding `Tail` once. */
  lemma TailStep(parts: seq<string>, i: nat)
    requires i < |parts| - 1
    ensures Tail(parts, i) == parts[i] + ("*" + Tail(parts, i + 1))
  {
    assert parts[i..][1..] == parts[i + 1..];
    assert parts[i] + "*" + Tail(parts, i + 1) == parts[i] + ("*" + Tail(parts, i + 1));
  }

  /** A leading `*` may skip any prefix of the text. */
  lemma StarSkips(text: string, k: nat, rest: string)
    requires k <= |text| && StarMatch(text[k..], rest)
    ensures StarMatch(text, "*" + rest)
  {
    assert ("*" + rest)[0] == '*' && ("*" + rest)[1..] == rest;
  }

  /**
   * After a star (part `i >= 1`), a successful search from `cur` shows that the
   * rest of the text matches `*` followed by the remaining pattern.
   */
  lemma {:induction false} ScanSound(text: string, parts: seq<string>, i: nat, cur: nat)
    requires 1 <= i < |parts| && cur <= |text|
    requires forall k :: 0 <= k < |parts| ==> '*' !in parts[k]
    requires Scan(text, parts, i, cur) != -1
    requires parts[|parts| - 1] == "" || Scan(text, parts, i, cur) == |text|
    ensures StarMatch(text[cur..], "*" + Tail(parts, i))
    decreases |parts| - i, 1
  {
    if i == |parts| - 1 {
      ScanSoundLast(text, parts, cur);
    } else if parts[i] == "" {
      TailStep(parts, i);
      var t := Tail(parts, i + 1);
      ScanSound(text, parts, i + 1, cur);
      assert text[cur..][0..] == text[cur..];
      StarSkips(text[cur..], 0, "*" + t);
      assert Tail(parts, i) == "*" + t;
    } else {
      ScanSoundFound(text, parts, i, cur);
    }
  }

  /** The last step of `ScanSound`: the last part is empty, or found exactly at the end of the text. */
  lemma ScanSoundLast(text: string, parts: seq<string>, cur: nat)
    requires 2 <= |parts| && cur <= |text|
    requires '*' !in parts[|parts| - 1]
    requires Scan(text, parts, |parts| - 1, cur) != -1
    requires parts[|parts| - 1] == "" || Scan(text, parts, |parts| - 1, cur) == |text|
    ensures StarMatch(text[cur..], "*" + Tail(parts, |parts| - 1))
  {
    var p := parts[|parts| - 1];
    assert parts[|parts| - 1..] == [p];
    assert Tail(parts, |parts| - 1) == p;
    if p == "" {
      StarMatchesAll(text[cur..]);
      assert "*" + p == "*";
    } else {
      var found, next := ScanStep(text, parts, |parts| - 1, cur);
      LiteralAtEnd(text, found, next, p);
      SkipTo(text, cur, found, p);
    }
  }

  /** A literal found exactly at the end of the text matches the rest of the text from there. */
  lemma LiteralAtEnd(text: string, found: nat, next: nat, literal: string)
    requires '*' !in literal
    requires next == found + |literal| == |text|
    requires EqualsIgnoreCase(text[found..next], literal)
    ensures StarMatch(text[found..], literal)
  {
    assert text[found..next] == text[found..];
    StarMatchLiteral(text[found..], literal);
  }

  /** The search goes on after part `i` when it is found at `found`. */
  lemma ScanFound(text: string, parts: seq<string>, i: nat, cur: nat, found: int)
    requires i < |parts| && cur <= |text| && parts[i] != ""
    requires found == IndexOfIgnoreCase(text, parts[i], cur) && found != -1 && (i != 0 || found == 0)
    ensures found + |parts[i]| <= |text|
    ensures Scan(text, parts, i, cur) == Scan(text, parts, i + 1, found + |parts[i]|)
  {
  }

  /** One step of a successful search: a non-empty part `i` is found at `found`, and the search goes on after it. */
  lemma ScanStep(text: string, parts: seq<string>, i: nat, cur: nat) returns (found: nat, next: nat)
    requires i < |parts| && cur <= |text| && parts[i] != ""
    requires Scan(text, parts, i, cur) != -1
    ensures next == found + |parts[i]| && cur <= found && next <= |text|
    ensures EqualsIgnoreCase(text[found..next], parts[i])
    ensures i == 0 ==> found == 0
    ensures Scan(text, parts, i, cur) == Scan(text, parts, i + 1, next)
  {
    found := IndexOfIgnoreCase(text, parts[i], cur);
    next := found + |parts[i]|;
  }

  /** The step of `ScanSound` where part `i` is not empty and not last. */
  lemma {:induction false} ScanSoundFound(text: string, parts: seq<string>, i: nat, cur: nat)
    requires 1 <= i < |parts| - 1 && cur <= |text| && parts[i] != ""
    requires forall k :: 0 <= k < |parts| ==> '*' !in parts[k]
    requires Scan(text, parts, i, cur) != -1
    requires parts[|parts| - 1] == "" || Scan(text, parts, i, cur) == |text|
    ensures StarMatch(text[cur..], "*" + Tail(parts, i))
    decreases |parts| - i, 0
  {
    var p := parts[i];
    var t := Tail(parts, i + 1);
    var found, next := ScanStep(text, parts, i, cur);
    ScanSound(text, parts, i + 1, next);
    LiteralAt(text, found, next, p, "*" + t);
    SkipTo(text, cur, found, p + ("*" + t));
    TailStep(parts, i);
  }

  /** A literal found at `found`, followed by a match of `rest`, matches `literal + rest` from there. */
  lemma LiteralAt(text: string, found: nat, next: nat, literal: string, rest: string)
    requires '*' !in literal
    requires next == found + |literal| && next <= |text|
    requires EqualsIgnoreCase(text[found..next], literal)
    requires StarMatch(text[next..], rest)
    ensures StarMatch(text[found..], literal + rest)
  {
    var suffix := text[found..];
    assert suffix[..|literal|] == text[found..next];
    assert suffix[|literal|..] == text[next..];
    StarMatchLiteralPrefix(suffix, literal, rest);
  }

  /** A leading `*` may skip everything from `cur` up to `found`. */
  lemma SkipTo(text: string, cur: nat, found: nat, rest: string)
    requires cur <= found <= |text| && StarMatch(text[found..], rest)
    ensures StarMatch(text[cur..], "*" + rest)
  {
    assert text[cur..][found - cur..] == text[found..];
    StarSkips(text[cur..], found - cur, rest);
  }

  /** A pattern holding `*` splits into at least two parts, and it ends with `*` iff its last part is empty. */
  lemma StarSplit(pattern: string)
    requires '*' in pattern
    ensures var parts := Split(pattern, '*');
            |parts| >= 2 && pattern == Tail(parts, 0) &&
            (EndsWithStar(pattern) <==> parts[|parts| - 1] == "")
  {
    var parts := Split(pattern, '*');
    JoinSplit(pattern, '*');
    assert parts[0..] == parts;
    JoinLast(parts, '*');
    var last := parts[|parts| - 1];
    if last != "" {
      assert pattern[|pattern| - 1] == last[|last| - 1];
    }
  }

  /** Whatever `MatchesWildcard` accepts, textbook glob matching accepts too. */
  lemma WildcardSound(text: string, pattern: string)
    requires Wildcard(text, pattern)
    ensures StarMatch(text, pattern)
  {
    if pattern == "*" {
      StarMatchesAll(text);
    } else if '*' !in pattern {
      StarMatchLiteral(text, pattern);
    } else {
      StarSplit(pattern);
      var parts := Split(pattern, '*');
      TailStep(parts, 0);
      var p := parts[0];
      if p == "" {
        ScanSound(text, parts, 1, 0);
        assert text[0..] == text;
        assert pattern == "*" + Tail(parts, 1);
      } else {
        ScanSound(text, parts, 1, |p|);
        assert text[..|p|] == text[0..|p|];
        StarMatchLiteralPrefix(text, p, "*" + Tail(parts, 1));
        assert pattern == p + ("*" + Tail(parts, 1));
      }
    }
  }

  /**
   * The search from part `i` ends just after the last part when that part is not
   * empty: the last part is found, ignoring case, right before the final position.
   */
  lemma {:induction false} ScanEndsWithLastPart(text: string, parts: seq<string>, i: nat, cur: nat)
    requires i < |parts| && cur <= |text|
    requires parts[|parts| - 1] != ""
    requires Scan(text, parts, i, cur) != -1
    ensures var r, last := Scan(text, parts, i, cur), parts[|parts| - 1];
            |last| <= r && MatchesAt(text, last, r - |last|)
    decreases |parts| - i
  {
    if parts[i] == "" {
      ScanEndsWithLastPart(text, parts, i + 1, cur);
    } else {
      var found, next := ScanStep(text, parts, i, cur);
      if i < |parts| - 1 {
        ScanEndsWithLastPart(text, parts, i + 1, next);
      } else {
        assert Scan(text, parts, i + 1, next) == next;
        assert MatchesAt(text, parts[i], found);
      }
    }
  }

  /**
   * Anchoring of a pattern with embedded `*`: a non-empty first part is a prefix
   * of the text, and when the pattern does not end in `*` its last part is a
   * suffix of the text (both ignoring case).
   */
  lemma WildcardAnchoring(text: string, pattern: string)
    requires '*' in pattern && pattern != "*"
    requires Wildcard(text, pattern)
    ensures var parts := Split(pattern, '*');
            MatchesAt(text, parts[0], 0) &&
            (!EndsWithStar(pattern) ==>
               |parts[|parts| - 1]| <= |text| && MatchesAt(text, parts[|parts| - 1], |text| - |parts[|parts| - 1]|))
  {
    StarSplit(pattern);
    var parts := Split(pattern, '*');
    if !EndsWithStar(pattern) {
      ScanEndsWithLastPart(text, parts, 0, 0);
    }
    if parts[0] == "" {
      assert text[0..0] == parts[0];
    }
  }

  /** The leftmost search is not textbook globbing: `*ab` fails on `abab`. */
  lemma LeftmostSearchMissesLaterOccurrence()
    ensures StarMatch("abab", "*ab")
    ensures !Wildcard("abab", "*ab")
  {
    assert "abab"[2..] == "ab";
    StarMatchLiteral("ab", "ab");
    assert ("*ab")[1..] == "ab";
    SplitNoSeparator("ab", '*');
    assert "*ab" == [] + ['*'] + "ab";
    SplitPrefix([], "ab", '*');
    assert MatchesAt("abab", "ab", 0);
    assert IndexOfIgnoreCase("abab", "ab", 0) == 0;
  }

  /** Whatever `MatchesPatternParts` accepts, textbook segment matching accepts too. */
  lemma {:induction false} PartsMatchSound(pathParts: seq<string>, pathIndex: nat,
                                           patternParts: seq<string>, patternIndex: nat)
    requires pathIndex <= |pathParts| && patternIndex <= |patternParts|
    requires PartsMatch(pathParts, pathIndex, patternParts, patternIndex)
    ensures SegmentsMatch(pathParts[pathIndex..], patternParts[patternIndex..])
    decreases |patternParts| - patternIndex, |pathParts| - pathIndex
  {
    var path, pattern := pathParts[pathIndex..], patternParts[patternIndex..];
    if patternIndex < |patternParts| && pathIndex < |pathParts| {
      assert pattern[1..] == patternParts[patternIndex + 1..];
      if patternParts[patternIndex] == "**" {
        if patternIndex == |patternParts| - 1 {
          assert path[|path|..] == [] && pattern[1..] == [];
        } else {
          var i :| pathIndex <= i <= |pathParts| && PartsMatch(pathParts, i, patternParts, patternIndex + 1);
          PartsMatchSound(pathParts, i, patternParts, patternIndex + 1);
          assert path[i - pathIndex..] == pathParts[i..];
        }
      } else {
        WildcardSound(pathParts[pathIndex], patternParts[patternIndex]);
        PartsMatchSound(pathParts, pathIndex + 1, patternParts, patternIndex + 1);
        assert path[1..] == pathParts[pathIndex + 1..];
      }
    }
  }

  /** A final `**` reached when the path is used up matches nothing, unlike textbook globbing: pattern `a` then `**` fails on `a`. */
  lemma TrailingDoubleStarNeedsASegment()
    ensures SegmentsMatch(["a"], ["a", "**"])
    ensures !PartsMatch(["a"], 0, ["a", "**"], 0)
  {
    StarMatchLiteral("a", "a");
    assert ["a"][1..] == [] && ["a", "**"][1..] == ["**"];
    assert SegmentsMatch([][0..], ["**"][1..]);
    assert PartsMatch(["a"], 1, ["a", "**"], 1) == false;
  }
}
