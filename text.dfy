/**
 * The string primitives of the .NET base library that the core relies on:
 * character replacement, `Split` and `string.Join` on one separator,
 * ordinal case-insensitive comparison and search, and `LastIndexOf`.
 * Case folding and digit tests are restricted to ASCII.
 */
module Text {

  /** Case folding used by `StringComparison.OrdinalIgnoreCase` (ASCII letters only). */
  function Fold(c: char): char
  {
    if 'A' <= c <= 'Z' then (c as int + 32) as char else c
  }

  /** `char.ToUpperInvariant` restricted to ASCII letters. */
  function ToUpper(c: char): (u: char)
    ensures 'a' <= c <= 'z' ==> 'A' <= u <= 'Z' && Fold(u) == c
    ensures !('a' <= c <= 'z') ==> u == c
  {
    if 'a' <= c <= 'z' then (c as int - 32) as char else c
  }

  /** `char.IsDigit` restricted to ASCII digits. */
  predicate IsDigit(c: char)
  {
    '0' <= c <= '9'
  }

  /** `string.Equals(a, b, StringComparison.OrdinalIgnoreCase)`. */
  predicate EqualsIgnoreCase(a: string, b: string)
  {
    |a| == |b| && forall i :: 0 <= i < |a| ==> Fold(a[i]) == Fold(b[i])
  }

  /** `s.Replace(from, to)` on characters. */
  function Replace(s: string, from: char, to: char): (r: string)
    ensures |r| == |s|
    ensures forall i :: 0 <= i < |s| ==> r[i] == (if s[i] == from then to else s[i])
    ensures from != to ==> from !in r
  {
    if s == [] then []
    else [if s[0] == from then to else s[0]] + Replace(s[1..], from, to)
  }

  /** Replacement works character by character, so it distributes over concatenation. */
  lemma ReplaceAppend(a: string, b: string, from: char, to: char)
    ensures Replace(a + b, from, to) == Replace(a, from, to) + Replace(b, from, to)
  {
    var l, r := Replace(a + b, from, to), Replace(a, from, to) + Replace(b, from, to);
    assert |l| == |r|;
    forall i | 0 <= i < |l| ensures l[i] == r[i]
    {
      if i < |a| {
        assert (a + b)[i] == a[i];
      } else {
        assert (a + b)[i] == b[i - |a|];
      }
    }
  }

  /** `s.Split(c)`: every maximal run of characters other than `c`, including empty ones. */
  function Split(s: string, c: char): (parts: seq<string>)
    ensures |parts| >= 1
    ensures forall i :: 0 <= i < |parts| ==> c !in parts[i]
  {
    if s == [] then [""]
    else
      var rest := Split(s[1..], c);
      if s[0] == c then [""] + rest
      else [[s[0]] + rest[0]] + rest[1..]
  }

  /** `string.Join(c, parts)`. */
  function Join(parts: seq<string>, c: char): string
  {
    if parts == [] then ""
    else if |parts| == 1 then parts[0]
    else parts[0] + [c] + Join(parts[1..], c)
  }

  /** Joining the pieces of a split gives the original text back. */
  lemma {:induction false} JoinSplit(s: string, c: char)
    ensures Join(Split(s, c), c) == s
  {
    if s != [] {
      var rest := Split(s[1..], c);
      JoinSplit(s[1..], c);
      if s[0] == c {
        assert Split(s, c) == [""] + rest;
        assert ([""] + rest)[1..] == rest;
      } else {
        var parts := Split(s, c);
        assert parts == [[s[0]] + rest[0]] + rest[1..];
        if |rest| == 1 {
          assert Join(parts, c) == [s[0]] + rest[0];
        } else {
          assert parts[1..] == rest[1..];
          assert Join(rest, c) == rest[0] + [c] + Join(rest[1..], c);
          assert Join(parts, c) == [s[0]] + rest[0] + [c] + Join(rest[1..], c);
        }
      }
    }
  }

  /** Splitting a join of separator-free pieces gives the pieces back. */
  lemma {:induction false} SplitJoin(parts: seq<string>, c: char)
    requires |parts| >= 1
    requires forall i :: 0 <= i < |parts| ==> c !in parts[i]
    ensures Split(Join(parts, c), c) == parts
  {
    if |parts| == 1 {
      SplitNoSeparator(parts[0], c);
    } else {
      SplitJoin(parts[1..], c);
      SplitPrefix(parts[0], Join(parts[1..], c), c);
      assert [parts[0]] + parts[1..] == parts;
    }
  }

  /** A separator-free text splits into itself. */
  lemma {:induction false} SplitNoSeparator(s: string, c: char)
    requires c !in s
    ensures Split(s, c) == [s]
  {
    if s != [] {
      SplitNoSeparator(s[1..], c);
      assert [s[0]] + s[1..] == s;
    }
  }

  /** Splitting `p + [c] + t`, where `p` holds no separator, puts `p` in front of the split of `t`. */
  lemma {:induction false} SplitPrefix(p: string, t: string, c: char)
    requires c !in p
    ensures Split(p + [c] + t, c) == [p] + Split(t, c)
  {
    if p == [] {
      assert [c] + t == p + [c] + t;
      assert ([c] + t)[1..] == t;
    } else {
      SplitPrefix(p[1..], t, c);
      assert (p + [c] + t)[1..] == p[1..] + [c] + t;
      assert [p[0]] + p[1..] == p;
    }
  }

  /** The join of all pieces but the last, the separator and the last piece. */
  lemma {:induction false} JoinLast(parts: seq<string>, c: char)
    requires |parts| >= 2
    ensures Join(parts, c) == Join(parts[..|parts| - 1], c) + [c] + parts[|parts| - 1]
  {
    if |parts| > 2 {
      JoinLast(parts[1..], c);
      assert parts[1..][..|parts| - 2] == parts[..|parts| - 1][1..];
    }
  }

  /** A join is at least as long as the number of separators it inserts. */
  lemma {:induction false} JoinLength(parts: seq<string>, c: char)
    requires |parts| >= 1
    ensures |Join(parts, c)| >= |parts| - 1 + |parts[|parts| - 1]|
  {
    if |parts| > 1 {
      JoinLength(parts[1..], c);
    }
  }

  /** Joining any suffix that drops at least one piece gives a strictly shorter text. */
  lemma {:induction false} JoinSuffixShorter(parts: seq<string>, k: nat, c: char)
    requires 1 <= k <= |parts|
    ensures |Join(parts[k..], c)| < |Join(parts, c)| || (k == |parts| && Join(parts, c) == [])
  {
    if |parts| == 1 {
    } else {
      assert Join(parts, c) == parts[0] + [c] + Join(parts[1..], c);
      if k > 1 {
        JoinSuffixShorter(parts[1..], k - 1, c);
        assert parts[1..][k - 1..] == parts[k..];
      }
    }
  }

  /** A character absent from the text is absent from every piece of its split. */
  lemma {:induction false} SplitKeepsAbsence(s: string, c: char, x: char)
    requires x !in s
    ensures forall i :: 0 <= i < |Split(s, c)| ==> x !in Split(s, c)[i]
  {
    if s != [] {
      assert forall y | y in s[1..] :: y in s;
      SplitKeepsAbsence(s[1..], c, x);
      assert s[0] in s;
    }
  }

  /** A character other than the separator, absent from every piece, is absent from the join. */
  lemma {:induction false} JoinKeepsAbsence(parts: seq<string>, c: char, x: char)
    requires x != c
    requires forall i :: 0 <= i < |parts| ==> x !in parts[i]
    ensures x !in Join(parts, c)
  {
    if |parts| > 1 {
      JoinKeepsAbsence(parts[1..], c, x);
      assert parts[0] == parts[0];
    }
  }

  /** `s.IndexOf(c)`: the first position of `c`, or -1. */
  function IndexOf(s: string, c: char): (r: int)
    ensures -1 <= r < |s|
    ensures r >= 0 ==> s[r] == c && c !in s[..r]
    ensures r == -1 ==> c !in s
  {
    if s == [] then -1
    else if s[0] == c then 0
    else
      var k := IndexOf(s[1..], c);
      if k == -1 then -1
      else assert s[..k + 1] == [s[0]] + s[1..][..k]; k + 1
  }

  /** A split has one more piece than the text has separators. */
  lemma {:induction false} SplitCount(s: string, c: char)
    ensures |Split(s, c)| == multiset(s)[c] + 1
  {
    if s != [] {
      SplitCount(s[1..], c);
      assert s == [s[0]] + s[1..];
      assert multiset(s) == multiset([s[0]]) + multiset(s[1..]);
    }
  }

  /** A separator appended to the text adds an empty last piece. */
  lemma {:induction false} SplitAppendSeparator(s: string, c: char)
    ensures Split(s + [c], c) == Split(s, c) + [""]
  {
    if s == [] {
      assert [c][1..] == [];
    } else {
      SplitAppendSeparator(s[1..], c);
      assert (s + [c])[1..] == s[1..] + [c];
      var rest := Split(s[1..], c);
      if s[0] != c {
        assert (rest + [""])[0] == rest[0];
        assert (rest + [""])[1..] == rest[1..] + [""];
      }
    }
  }

  /** `s.LastIndexOf(c)`: the last position of `c`, or -1. */
  function LastIndexOf(s: string, c: char): (r: int)
    ensures -1 <= r < |s|
    ensures r >= 0 ==> s[r] == c
    ensures forall k :: r < k < |s| ==> s[k] != c
  {
    if s == [] then -1
    else if s[|s| - 1] == c then |s| - 1
    else LastIndexOf(s[..|s| - 1], c)
  }

  /** The text after the last separator is the last piece of the split. */
  lemma LastPieceAfterLastSeparator(s: string, c: char)
    ensures var parts := Split(s, c);
            parts[|parts| - 1] == s[LastIndexOf(s, c) + 1..]
  {
    var parts := Split(s, c);
    var last := parts[|parts| - 1];
    JoinSplit(s, c);
    if |parts| == 1 {
      assert s == last;
      NoLastIndex(s, c);
      assert s[0..] == s;
    } else {
      JoinLast(parts, c);
      var front := Join(parts[..|parts| - 1], c);
      assert s == front + [c] + last;
      LastIndexAt(front, last, c);
    }
  }

  /** Without the character, there is no last position of it. */
  lemma NoLastIndex(s: string, c: char)
    requires c !in s
    ensures LastIndexOf(s, c) == -1
  {
  }

  /** The separator between `front` and a separator-free `last` is the last one: `last` follows it. */
  lemma LastIndexAt(front: string, last: string, c: char)
    requires c !in last
    ensures var s := front + [c] + last;
            s[LastIndexOf(s, c) + 1..] == last
  {
    var s := front + [c] + last;
    assert s[|front|] == c;
    assert s[|front| + 1..] == last;
  }

  /** The text matches `part`, ignoring case, at position `k`. */
  predicate MatchesAt(text: string, part: string, k: nat)
  {
    k + |part| <= |text| && EqualsIgnoreCase(text[k..k + |part|], part)
  }

  /**
   * `text.IndexOf(part, start, StringComparison.OrdinalIgnoreCase)`: the leftmost
   * position at or after `start` where `part` occurs, or -1.
   */
  function IndexOfIgnoreCase(text: string, part: string, start: nat): (r: int)
    requires start <= |text|
    ensures r == -1 || (start <= r && MatchesAt(text, part, r))
    ensures r == -1 ==> forall k :: start <= k <= |text| ==> !MatchesAt(text, part, k)
    ensures r != -1 ==> forall k :: start <= k < r ==> !MatchesAt(text, part, k)
    decreases |text| - start
  {
    if start + |part| > |text| then -1
    else if MatchesAt(text, part, start) then start
    else if start == |text| then -1
    else IndexOfIgnoreCase(text, part, start + 1)
  }
}
