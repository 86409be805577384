/**
 * `PathUtils.GetRelativePath`: the relative path from a base directory to a
 * target, computed on `/`-separated segments compared ignoring case.
 *
 * The relative path is specified by `RelativePath` and checked against an
 * independent reading of paths: `Resolve` walks a segment list, and resolving
 * the result of `RelativePath` from the base gives back the target.
 */
module PathUtils {
  import opened Text

  /** `s.TrimEnd(c)`: `s` without its trailing run of `c`. */
  function TrimEnd(s: string, c: char): string
  {
    if s != [] && s[|s| - 1] == c then TrimEnd(s[..|s| - 1], c) else s
  }

  /** `TrimEnd` keeps a prefix that does not end in `c` and removes only copies of `c`. */
  lemma {:induction false} TrimEndProperties(s: string, c: char)
    ensures var r := TrimEnd(s, c);
            |r| <= |s| && r == s[..|r|] && (r == [] || r[|r| - 1] != c) &&
            forall k :: |r| <= k < |s| ==> s[k] == c
  {
    if s != [] && s[|s| - 1] == c {
      TrimEndProperties(s[..|s| - 1], c);
      var r := TrimEnd(s, c);
      assert s[..|s| - 1][..|r|] == s[..|r|];
    }
  }

  /** Appending a copy of `c` changes nothing once trailing copies are trimmed. */
  lemma TrimEndAppend(s: string, c: char)
    ensures TrimEnd(s + [c], c) == TrimEnd(s, c)
  {
    assert (s + [c])[..|s|] == s;
  }

  /** The `Where(s => !string.IsNullOrEmpty(s))` over split segments. */
  function WithoutEmpty(parts: seq<string>): (r: seq<string>)
    ensures forall i :: 0 <= i < |r| ==> r[i] != "" && r[i] in parts
  {
    if parts == [] then []
    else (if parts[0] == "" then [] else [parts[0]]) + WithoutEmpty(parts[1..])
  }

  /** A path after `Replace('\\', '/').TrimEnd('/')`. */
  function Clean(fullPath: string): string
  {
    TrimEnd(Replace(fullPath, '\\', '/'), '/')
  }

  /** The non-empty segments of a cleaned path. */
  function Segments(fullPath: string): seq<string>
  {
    WithoutEmpty(Split(Clean(fullPath), '/'))
  }

  /** Segments are non-empty and hold neither separator. */
  lemma SegmentsPlain(fullPath: string)
    ensures var r := Segments(fullPath);
            forall i :: 0 <= i < |r| ==> r[i] != "" && '/' !in r[i] && '\\' !in r[i]
  {
    var replaced := Replace(fullPath, '\\', '/');
    var cleaned := Clean(fullPath);
    TrimEndProperties(replaced, '/');
    assert forall x | x in cleaned :: x in replaced;
    var parts := Split(cleaned, '/');
    SplitKeepsAbsence(cleaned, '/', '\\');
    assert forall x | x in parts :: '/' !in x && '\\' !in x;
  }

  /**
   * The number of leading segments on which two lists agree ignoring case:
   * at most the length of either, and the first disagreement, if any, follows it.
   */
  function CommonLength(a: seq<string>, b: seq<string>): (r: nat)
    ensures r <= |a| && r <= |b|
    ensures forall i :: 0 <= i < r ==> EqualsIgnoreCase(a[i], b[i])
    ensures r < |a| && r < |b| ==> !EqualsIgnoreCase(a[r], b[r])
  {
    if a == [] || b == [] || !EqualsIgnoreCase(a[0], b[0]) then 0
    else 1 + CommonLength(a[1..], b[1..])
  }

  /** A prefix length with the two properties of `CommonLength` is `CommonLength`. */
  lemma CommonLengthUnique(a: seq<string>, b: seq<string>, n: nat)
    requires n <= |a| && n <= |b|
    requires forall i :: 0 <= i < n ==> EqualsIgnoreCase(a[i], b[i])
    requires n == |a| || n == |b| || !EqualsIgnoreCase(a[n], b[n])
    ensures CommonLength(a, b) == n
  {
  }

  /** `n` segments `..`. */
  function Ups(n: nat): (r: seq<string>)
    ensures |r| == n && forall i :: 0 <= i < n ==> r[i] == ".."
  {
    if n == 0 then [] else [".."] + Ups(n - 1)
  }

  /** One more `..` at the end. */
  lemma UpsSnoc(n: nat)
    ensures Ups(n + 1) == Ups(n) + [".."]
  {
    assert Ups(n + 1) == Ups(n) + [".."];
  }

  /** The segments of the relative path from the directory `fromParts` to `toParts`. */
  function RelativeSteps(fromParts: seq<string>, toParts: seq<string>): seq<string>
  {
    var commonLength := CommonLength(fromParts, toParts);
    Ups(|fromParts| - commonLength) + toParts[commonLength..]
  }

  /** What `GetRelativePath` returns for the full paths `fullRelativeTo` and `fullPath`. */
  function RelativePath(fullRelativeTo: string, fullPath: string): string
  {
    if EqualsIgnoreCase(Clean(fullPath), Clean(fullRelativeTo)) then "."
    else Join(RelativeSteps(Segments(fullRelativeTo), Segments(fullPath)), '/')
  }

  /**
   * `PathUtils.GetRelativePath`; `getFullPath` stands for `Path.GetFullPath`,
   * which depends on the file system and the working directory.
   */
  method GetRelativePath(relativeTo: string, path: string, getFullPath: string -> string) returns (r: string)
    ensures r == RelativePath(getFullPath(relativeTo), getFullPath(path))
  {
    var normalizedRelativeTo := TrimEnd(Replace(getFullPath(relativeTo), '\\', '/'), '/');
    var normalizedPath := TrimEnd(Replace(getFullPath(path), '\\', '/'), '/');
    if EqualsIgnoreCase(normalizedPath, normalizedRelativeTo) {
      return ".";
    }
    var fromParts := WithoutEmpty(Split(normalizedRelativeTo, '/'));
    var toParts := WithoutEmpty(Split(normalizedPath, '/'));
    var relativeParts := BuildRelativeParts(fromParts, toParts);
    return Join(relativeParts, '/');
  }

  /** The loop counting the leading segments the two paths share, ignoring case. */
  method CountCommon(fromParts: seq<string>, toParts: seq<string>) returns (commonLength: nat)
    ensures commonLength == CommonLength(fromParts, toParts)
  {
    commonLength := 0;
    var minLength := if |fromParts| < |toParts| then |fromParts| else |toParts|;
    for i := 0 to minLength
      invariant commonLength == i
      invariant forall k :: 0 <= k < i ==> EqualsIgnoreCase(fromParts[k], toParts[k])
    {
      if !EqualsIgnoreCase(fromParts[i], toParts[i]) {
        break;
      }
      commonLength := commonLength + 1;
    }
    CommonLengthUnique(fromParts, toParts, commonLength);
  }

  /**
   * The three loops of `GetRelativePath`: count the common prefix, then one
   * `..` per remaining base segment, then the remaining target segments.
   */
  method BuildRelativeParts(fromParts: seq<string>, toParts: seq<string>) returns (relativeParts: seq<string>)
    ensures relativeParts == RelativeSteps(fromParts, toParts)
  {
    var commonLength := CountCommon(fromParts, toParts);
    relativeParts := [];
    for i := commonLength to |fromParts|
      invariant relativeParts == Ups(i - commonLength)
    {
      UpsSnoc(i - commonLength);
      relativeParts := relativeParts + [".."];
    }
    for i := commonLength to |toParts|
      invariant relativeParts == Ups(|fromParts| - commonLength) + toParts[commonLength..i]
    {
      SliceExtend(toParts, commonLength, i);
      AppendAssociates(Ups(|fromParts| - commonLength), toParts[commonLength..i], [toParts[i]]);
      relativeParts := relativeParts + [toParts[i]];
    }
    assert toParts[commonLength..|toParts|] == toParts[commonLength..];
  }

  lemma AppendAssociates(a: seq<string>, b: seq<string>, c: seq<string>)
    ensures a + b + c == a + (b + c)
  {
  }

  /** A slice grows by one element at its end. */
  lemma SliceExtend(parts: seq<string>, from: nat, to: nat)
    requires from <= to < |parts|
    ensures parts[from..to + 1] == parts[from..to] + [parts[to]]
  {
  }

  // ---------------------------------------------------------------------------
  // Resolving a relative path
  // ---------------------------------------------------------------------------

  /** Walks `steps` from the directory `current`: `..` goes up, `.` stays, any other segment goes down. */
  function Resolve(current: seq<string>, steps: seq<string>): seq<string>
    decreases |steps|
  {
    if steps == [] then current
    else
      var next :=
        if steps[0] == ".." then (if current == [] then [] else current[..|current| - 1])
        else if steps[0] == "." then current
        else current + [steps[0]];
      Resolve(next, steps[1..])
  }

  /** Two segment lists name the same directory, ignoring case. */
  predicate SameSegments(a: seq<string>, b: seq<string>)
  {
    |a| == |b| && forall i :: 0 <= i < |a| ==> EqualsIgnoreCase(a[i], b[i])
  }

  /** `k` steps up from a directory at least `k` deep drop its last `k` segments. */
  lemma {:induction false} ResolveUps(current: seq<string>, k: nat, rest: seq<string>)
    requires k <= |current|
    ensures Resolve(current, Ups(k) + rest) == Resolve(current[..|current| - k], rest)
  {
    if k > 0 {
      var steps := Ups(k) + rest;
      assert steps[0] == ".." && steps[1..] == Ups(k - 1) + rest;
      ResolveUps(current[..|current| - 1], k - 1, rest);
      assert current[..|current| - 1][..|current| - 1 - (k - 1)] == current[..|current| - k];
    } else {
      assert Ups(0) + rest == rest;
      assert current[..|current|] == current;
    }
  }

  /** Plain segments go down one level each. */
  lemma {:induction false} ResolvePlain(current: seq<string>, rest: seq<string>)
    requires forall i :: 0 <= i < |rest| ==> rest[i] != ".." && rest[i] != "."
    ensures Resolve(current, rest) == current + rest
    decreases |rest|
  {
    if rest == [] {
      assert current + rest == current;
    } else {
      ResolvePlain(current + [rest[0]], rest[1..]);
      assert current + [rest[0]] + rest[1..] == current + rest;
    }
  }

  /** Splitting a join of non-empty, separator-free segments and dropping empty pieces gives the segments back. */
  lemma SegmentsOfJoin(parts: seq<string>)
    requires forall i :: 0 <= i < |parts| ==> parts[i] != "" && '/' !in parts[i]
    ensures WithoutEmpty(Split(Join(parts, '/'), '/')) == parts
  {
    if parts == [] {
      assert Split("", '/') == [""];
    } else {
      SplitJoin(parts, '/');
      AllNonEmpty(parts);
    }
  }

  /** Dropping empty strings from a list without any changes nothing. */
  lemma {:induction false} AllNonEmpty(parts: seq<string>)
    requires forall i :: 0 <= i < |parts| ==> parts[i] != ""
    ensures WithoutEmpty(parts) == parts
  {
    if parts != [] {
      AllNonEmpty(parts[1..]);
      assert [parts[0]] + parts[1..] == parts;
    }
  }

  /** The relative steps are plain segments or `..`: non-empty and free of both separators. */
  lemma StepsPlain(fromParts: seq<string>, toParts: seq<string>)
    requires forall i :: 0 <= i < |toParts| ==> toParts[i] != "" && '/' !in toParts[i] && '\\' !in toParts[i]
    ensures var steps := RelativeSteps(fromParts, toParts);
            forall i :: 0 <= i < |steps| ==> steps[i] != "" && '/' !in steps[i] && '\\' !in steps[i]
  {
    var c := CommonLength(fromParts, toParts);
    var ups := Ups(|fromParts| - c);
    var steps := RelativeSteps(fromParts, toParts);
    forall i | 0 <= i < |steps| ensures steps[i] != "" && '/' !in steps[i] && '\\' !in steps[i] {
      if i >= |ups| {
        assert steps[i] == toParts[c + i - |ups|];
      } else {
        assert steps[i] == "..";
      }
    }
  }

  /**
   * Walking the relative steps from the base ends at the target, segment by
   * segment and ignoring case, when the target's segments are plain names.
   */
  lemma ResolveSteps(fromParts: seq<string>, toParts: seq<string>)
    requires forall i :: 0 <= i < |toParts| ==> toParts[i] != ".." && toParts[i] != "."
    ensures SameSegments(Resolve(fromParts, RelativeSteps(fromParts, toParts)), toParts)
  {
    var c := CommonLength(fromParts, toParts);
    var tail := toParts[c..];
    ResolveUps(fromParts, |fromParts| - c, tail);
    assert fromParts[..|fromParts| - (|fromParts| - c)] == fromParts[..c];
    assert forall i | 0 <= i < |tail| :: tail[i] == toParts[c + i];
    ResolvePlain(fromParts[..c], tail);
    var resolved := fromParts[..c] + tail;
    forall i | 0 <= i < |resolved| ensures EqualsIgnoreCase(resolved[i], toParts[i]) {
      if i >= c {
        assert resolved[i] == toParts[i];
      }
    }
  }

  /**
   * Resolving the result from the base gives back the target, segment by
   * segment and ignoring case, whenever the paths differ and the target's
   * segments are plain names, as those of a full path are.
   */
  lemma RelativePathResolves(fullRelativeTo: string, fullPath: string)
    requires !EqualsIgnoreCase(Clean(fullPath), Clean(fullRelativeTo))
    requires forall s | s in Segments(fullPath) :: s != ".." && s != "."
    ensures SameSegments(Resolve(Segments(fullRelativeTo), WithoutEmpty(Split(RelativePath(fullRelativeTo, fullPath), '/'))),
                         Segments(fullPath))
  {
    var fromParts, toParts := Segments(fullRelativeTo), Segments(fullPath);
    SegmentsPlain(fullPath);
    StepsPlain(fromParts, toParts);
    SegmentsOfJoin(RelativeSteps(fromParts, toParts));
    assert forall i | 0 <= i < |toParts| :: toParts[i] in toParts;
    ResolveSteps(fromParts, toParts);
  }

  /** Below the base, the result is the rest of the target, without any `..`. */
  lemma TargetUnderBase(fullRelativeTo: string, fullPath: string)
    requires !EqualsIgnoreCase(Clean(fullPath), Clean(fullRelativeTo))
    requires var fromParts, toParts := Segments(fullRelativeTo), Segments(fullPath);
             |fromParts| <= |toParts| && forall i :: 0 <= i < |fromParts| ==> EqualsIgnoreCase(fromParts[i], toParts[i])
    ensures var fromParts, toParts := Segments(fullRelativeTo), Segments(fullPath);
            RelativePath(fullRelativeTo, fullPath) == Join(toParts[|fromParts|..], '/')
  {
    var fromParts, toParts := Segments(fullRelativeTo), Segments(fullPath);
    CommonLengthUnique(fromParts, toParts, |fromParts|);
    assert Ups(0) + toParts[|fromParts|..] == toParts[|fromParts|..];
  }

  /** The result never holds a backslash. */
  lemma NoBackslash(fullRelativeTo: string, fullPath: string)
    ensures '\\' !in RelativePath(fullRelativeTo, fullPath)
  {
    if !EqualsIgnoreCase(Clean(fullPath), Clean(fullRelativeTo)) {
      var fromParts, toParts := Segments(fullRelativeTo), Segments(fullPath);
      SegmentsPlain(fullPath);
      StepsPlain(fromParts, toParts);
      JoinKeepsAbsence(RelativeSteps(fromParts, toParts), '/', '\\');
    }
  }

  /** The same path, to itself, is `.`. */
  lemma SamePath(fullPath: string)
    ensures RelativePath(fullPath, fullPath) == "."
  {
    assert EqualsIgnoreCase(Clean(fullPath), Clean(fullPath));
  }

  /** A trailing `/` or `\` on the base changes nothing. */
  lemma TrailingSeparatorIgnored(fullRelativeTo: string, fullPath: string, sep: char)
    requires sep == '/' || sep == '\\'
    ensures RelativePath(fullRelativeTo + [sep], fullPath) == RelativePath(fullRelativeTo, fullPath)
  {
    var replaced := Replace(fullRelativeTo, '\\', '/');
    assert Replace(fullRelativeTo + [sep], '\\', '/') == replaced + ['/'];
    TrimEndAppend(replaced, '/');
    assert Clean(fullRelativeTo + [sep]) == Clean(fullRelativeTo);
  }

  /** Dropping empty pieces from the split of a text with one `c` doubled: the first piece and the rest agree. */
  lemma {:induction false} SplitDoubled(x: string, y: string, c: char)
    ensures var r1, r2 := Split(x + [c, c] + y, c), Split(x + [c] + y, c);
            r1[0] == r2[0] && WithoutEmpty(r1[1..]) == WithoutEmpty(r2[1..])
  {
    var s1, s2 := x + [c, c] + y, x + [c] + y;
    if x == [] {
      assert s1[1..] == [c] + y && s2[1..] == y;
      assert ([c] + y)[1..] == y;
      var r1 := Split(s1, c);
      assert r1 == [""] + ([""] + Split(y, c));
      assert r1[1..] == [""] + Split(y, c);
    } else {
      SplitDoubled(x[1..], y, c);
      assert s1[1..] == x[1..] + [c, c] + y && s2[1..] == x[1..] + [c] + y;
      var r1, r2 := Split(s1[1..], c), Split(s2[1..], c);
      if x[0] == c {
        assert WithoutEmpty(r1) == (if r1[0] == "" then [] else [r1[0]]) + WithoutEmpty(r1[1..]);
        assert WithoutEmpty(r2) == (if r2[0] == "" then [] else [r2[0]]) + WithoutEmpty(r2[1..]);
        assert ([""] + r1)[1..] == r1 && ([""] + r2)[1..] == r2;
      } else {
        assert ([[x[0]] + r1[0]] + r1[1..])[1..] == r1[1..];
        assert ([[x[0]] + r2[0]] + r2[1..])[1..] == r2[1..];
      }
    }
  }

  /** Doubling a non-final separator leaves the segments unchanged: empty segments are dropped. */
  lemma SegmentsIgnoreDoubledSeparator(x: string, y: string)
    requires y != [] && y[|y| - 1] != '/' && y[|y| - 1] != '\\'
    ensures Segments(x + "//" + y) == Segments(x + "/" + y)
  {
    var rx, ry := Replace(x, '\\', '/'), Replace(y, '\\', '/');
    var s1, s2 := rx + ['/', '/'] + ry, rx + ['/'] + ry;
    CleanAround(x, "//", y);
    CleanAround(x, "/", y);
    SplitDoubled(rx, ry, '/');
    WithoutEmptyFirst(Split(s1, '/'));
    WithoutEmptyFirst(Split(s2, '/'));
  }

  /** A path whose last character is no separator keeps every character through `Clean`. */
  lemma CleanAround(x: string, mid: string, y: string)
    requires '\\' !in mid && y != [] && y[|y| - 1] != '/' && y[|y| - 1] != '\\'
    ensures Clean(x + mid + y) == Replace(x, '\\', '/') + mid + Replace(y, '\\', '/')
  {
    var ry := Replace(y, '\\', '/');
    var r := Replace(x, '\\', '/') + mid + ry;
    ReplaceAppend(x, mid, '\\', '/');
    ReplaceAppend(x + mid, y, '\\', '/');
    assert Replace(mid, '\\', '/') == mid;
    assert r[|r| - 1] == ry[|y| - 1];
  }

  /** Dropping empty segments, one segment at a time from the front. */
  lemma WithoutEmptyFirst(parts: seq<string>)
    requires parts != []
    ensures WithoutEmpty(parts) == (if parts[0] == "" then [] else [parts[0]]) + WithoutEmpty(parts[1..])
  {
  }

  /**
   * Two spellings of one directory that differ in more than case and
   * separators give the empty path and not `.`.
   */
  lemma SameSegmentsGiveEmptyPath(fullRelativeTo: string, fullPath: string)
    requires !EqualsIgnoreCase(Clean(fullPath), Clean(fullRelativeTo))
    requires Segments(fullRelativeTo) == Segments(fullPath)
    ensures RelativePath(fullRelativeTo, fullPath) == ""
  {
    var parts := Segments(fullPath);
    assert forall i | 0 <= i < |parts| :: EqualsIgnoreCase(parts[i], parts[i]);
    CommonLengthUnique(parts, parts, |parts|);
    assert Ups(0) + parts[|parts|..] == [];
  }

  /** `/a//b` and `/a/b` name the same directory, yet the relative path between them is empty. */
  lemma DoubledSeparatorGivesEmptyPath()
    ensures RelativePath("/a//b", "/a/b") == ""
  {
    assert "/a" + "//" + "b" == "/a//b";
    assert "/a" + "/" + "b" == "/a/b";
    SegmentsIgnoreDoubledSeparator("/a", "b");
    CleanAround("/a", "//", "b");
    CleanAround("/a", "/", "b");
    assert |Clean("/a//b")| != |Clean("/a/b")|;
    SameSegmentsGiveEmptyPath("/a//b", "/a/b");
  }
}
