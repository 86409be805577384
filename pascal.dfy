/**
 * The identifier deriver: a two-flag state machine that turns a kebab-case
 * icon name into a PascalCase property name.  A hyphen directly after a digit
 * becomes `_` (so `0-1` and `01` stay distinct); any other hyphen is dropped
 * and upper-cases the next non-digit character.
 */
module StringUtils {
  import opened Text

  /** The characters a kebab-case icon name is made of. */
  predicate KebabChar(c: char)
  {
    'a' <= c <= 'z' || 'A' <= c <= 'Z' || IsDigit(c) || c == '-'
  }

  /** The characters a C# identifier made from a kebab-case name is made of. */
  predicate IdentifierChar(c: char)
  {
    'a' <= c <= 'z' || 'A' <= c <= 'Z' || IsDigit(c) || c == '_'
  }

  /**
   * The state machine run on `s`, starting from the flags `capitalizeNext`
   * and `lastWasDigit`: the text appended to the builder.
   */
  function Convert(s: string, capitalizeNext: bool, lastWasDigit: bool): string
  {
    if s == [] then ""
    else
      var c := s[0];
      if c == '-' then
        (if lastWasDigit then "_" else "") + Convert(s[1..], !lastWasDigit, false)
      else if IsDigit(c) then
        [c] + Convert(s[1..], false, true)
      else
        [if capitalizeNext then ToUpper(c) else c] + Convert(s[1..], false, false)
  }

  /** `ConvertToPascalCase` as a function: the state machine from its initial flags. */
  function PascalCase(kebabCase: string): string
  {
    Convert(kebabCase, true, false)
  }

  /** `StringUtils.ConvertToPascalCase`: one pass over the characters with two flags. */
  method ConvertToPascalCase(kebabCase: string) returns (result: string)
    ensures result == PascalCase(kebabCase)
  {
    result := "";
    var capitalizeNext := true;
    var lastWasDigit := false;
    for i := 0 to |kebabCase|
      invariant result + Convert(kebabCase[i..], capitalizeNext, lastWasDigit) == PascalCase(kebabCase)
    {
      var ch := kebabCase[i];
      assert kebabCase[i..][1..] == kebabCase[i + 1..];
      ghost var rest := kebabCase[i + 1..];
      if ch == '-' {
        if lastWasDigit {
          Associates(result, "_", Convert(rest, false, false));
          result := result + "_";
          capitalizeNext := false;
        } else {
          assert "" + Convert(rest, true, false) == Convert(rest, true, false);
          capitalizeNext := true;
        }
        lastWasDigit := false;
      } else if IsDigit(ch) {
        Associates(result, [ch], Convert(rest, false, true));
        result := result + [ch];
        lastWasDigit := true;
        capitalizeNext := false;
      } else {
        if capitalizeNext {
          Associates(result, [ToUpper(ch)], Convert(rest, false, false));
          result := result + [ToUpper(ch)];
          capitalizeNext := false;
        } else {
          Associates(result, [ch], Convert(rest, false, false));
          result := result + [ch];
        }
        lastWasDigit := false;
      }
    }
  }

  /** Concatenation regroups. */
  lemma Associates(a: string, b: string, c: string)
    ensures a + (b + c) == (a + b) + c
  {
  }

  /** No hyphen survives: each one is dropped or becomes `_`. */
  lemma {:induction false} ConvertNoHyphen(s: string, capitalizeNext: bool, lastWasDigit: bool)
    ensures '-' !in Convert(s, capitalizeNext, lastWasDigit)
  {
    if s != [] {
      var c := s[0];
      if c == '-' {
        ConvertNoHyphen(s[1..], !lastWasDigit, false);
      } else {
        ConvertNoHyphen(s[1..], false, IsDigit(c));
        ToUpperIdempotent(c);
        assert Convert(s, capitalizeNext, lastWasDigit)
            == [if capitalizeNext then ToUpper(c) else c] + Convert(s[1..], false, IsDigit(c));
      }
    }
  }

  /** A name made of letters, digits and hyphens becomes one made of letters, digits and underscores. */
  lemma {:induction false} ConvertIdentifier(s: string, capitalizeNext: bool, lastWasDigit: bool)
    requires forall c | c in s :: KebabChar(c)
    ensures forall c | c in Convert(s, capitalizeNext, lastWasDigit) :: IdentifierChar(c)
  {
    if s != [] {
      assert forall c | c in s[1..] :: c in s;
      if s[0] == '-' {
        ConvertIdentifier(s[1..], !lastWasDigit, false);
      } else if IsDigit(s[0]) {
        ConvertIdentifier(s[1..], false, true);
      } else {
        ConvertIdentifier(s[1..], false, false);
        assert s[0] in s;
        var u := if capitalizeNext then ToUpper(s[0]) else s[0];
        assert IdentifierChar(u);
        assert Convert(s, capitalizeNext, lastWasDigit) == [u] + Convert(s[1..], false, false);
      }
    }
  }

  // ---------------------------------------------------------------------------
  // A word-level reference: split on hyphens, capitalise each word, and glue a
  // word to its predecessor with `_` when the predecessor ends in a digit.
  // ---------------------------------------------------------------------------

  /** The word with its first character upper-cased. */
  function Capitalize(w: string): (r: string)
    ensures |r| == |w|
    ensures |w| > 0 ==> r[0] == ToUpper(w[0]) && r[1..] == w[1..]
  {
    if w == [] then [] else [ToUpper(w[0])] + w[1..]
  }

  predicate EndsWithDigit(w: string)
  {
    |w| > 0 && IsDigit(w[|w| - 1])
  }

  /** How a word that follows `prev` (and a hyphen) is written: capitalised unless `prev` ends in a digit. */
  function Word(prev: string, w: string): string
  {
    if EndsWithDigit(prev) then w else Capitalize(w)
  }

  /** The words `parts`, each preceded by a hyphen, when the word before them was `prev`. */
  function Glue(prev: string, parts: seq<string>): string
    decreases |parts|
  {
    if parts == [] then ""
    else (if EndsWithDigit(prev) then "_" else "") + Word(prev, parts[0]) + Glue(parts[0], parts[1..])
  }

  /** The PascalCase name built word by word. */
  function PascalByWords(kebabCase: string): string
  {
    var words := Split(kebabCase, '-');
    Capitalize(words[0]) + Glue(words[0], words[1..])
  }

  /** A text with a hyphen splits at its first hyphen. */
  lemma {:induction false} FirstHyphen(s: string) returns (w: string, t: string)
    requires '-' in s
    ensures s == w + "-" + t && '-' !in w
  {
    if s[0] == '-' {
      w, t := "", s[1..];
    } else {
      var w', t' := FirstHyphen(s[1..]);
      w, t := [s[0]] + w', t';
    }
  }

  /** The machine on a text that starts with `c`. */
  lemma ConvertCons(c: char, rest: string, capitalizeNext: bool, lastWasDigit: bool)
    requires c != '-'
    ensures Convert([c] + rest, capitalizeNext, lastWasDigit) ==
            [if capitalizeNext then ToUpper(c) else c] + Convert(rest, false, IsDigit(c))
  {
    assert ([c] + rest)[1..] == rest;
  }

  /** A non-empty hyphen-free word runs through the machine as a unit and leaves its last character's flags. */
  lemma {:induction false} ConvertWord(w: string, t: string, capitalizeNext: bool, lastWasDigit: bool)
    requires w != [] && '-' !in w
    ensures Convert(w + t, capitalizeNext, lastWasDigit) ==
            (if capitalizeNext then Capitalize(w) else w) + Convert(t, false, EndsWithDigit(w))
  {
    var c, tail := w[0], w[1..];
    assert w == [c] + tail;
    assert w + t == [c] + (tail + t);
    ConvertCons(c, tail + t, capitalizeNext, lastWasDigit);
    var u := if capitalizeNext then ToUpper(c) else c;
    assert (if capitalizeNext then Capitalize(w) else w) == [u] + tail;
    if tail == [] {
      assert tail + t == t;
    } else {
      assert '-' !in tail by { assert forall x | x in tail :: x in w; }
      ConvertWord(tail, t, false, IsDigit(c));
      assert tail[|tail| - 1] == w[|w| - 1];
      Associates([u], tail, Convert(t, false, EndsWithDigit(w)));
    }
  }

  /** The machine on a text that starts with a hyphen. */
  lemma ConvertHyphen(rest: string, capitalizeNext: bool, lastWasDigit: bool)
    ensures Convert("-" + rest, capitalizeNext, lastWasDigit) ==
            (if lastWasDigit then "_" else "") + Convert(rest, !lastWasDigit, false)
  {
    assert ("-" + rest)[1..] == rest;
  }

  /** A word and the hyphen after it: the word as `Word` writes it, then the separator `Glue` writes. */
  lemma ConvertWordHyphen(prev: string, w: string, t: string)
    requires '-' !in w
    ensures Convert(w + "-" + t, !EndsWithDigit(prev), false) ==
            Word(prev, w) + ((if EndsWithDigit(w) then "_" else "") + Convert(t, !EndsWithDigit(w), false))
  {
    var cap := !EndsWithDigit(prev);
    if w == [] {
      assert w + "-" + t == "-" + t;
      ConvertHyphen(t, cap, false);
    } else {
      assert w + "-" + t == w + ("-" + t);
      ConvertWord(w, "-" + t, cap, false);
      ConvertHyphen(t, false, EndsWithDigit(w));
    }
  }

  /** A hyphen-free text is a single word. */
  lemma ConvertOneWord(s: string, prev: string)
    requires '-' !in s
    ensures Convert(s, !EndsWithDigit(prev), false) == Word(prev, s)
  {
    if s != [] {
      ConvertWord(s, "", !EndsWithDigit(prev), false);
      assert s + "" == s;
    }
  }

  /** The state machine and the word-level reference agree after any word `prev`. */
  lemma {:induction false} ConvertByWords(s: string, prev: string)
    ensures var words := Split(s, '-');
            Convert(s, !EndsWithDigit(prev), false) == Word(prev, words[0]) + Glue(words[0], words[1..])
    decreases |s|
  {
    var words := Split(s, '-');
    if '-' !in s {
      SplitNoSeparator(s, '-');
      assert words[1..] == [];
      ConvertOneWord(s, prev);
    } else {
      var w, t := FirstHyphen(s);
      SplitPrefix(w, t, '-');
      var parts := Split(t, '-');
      assert words == [w] + parts;
      assert words[0] == w && words[1..] == parts;
      ConvertByWords(t, w);
      ConvertWordHyphen(prev, w, t);
      var sep := if EndsWithDigit(w) then "_" else "";
      assert Glue(w, parts) == sep + Word(w, parts[0]) + Glue(parts[0], parts[1..]);
      Associates(sep, Word(w, parts[0]), Glue(parts[0], parts[1..]));
    }
  }

  /** The state machine builds the name word by word. */
  lemma PascalCaseByWords(kebabCase: string)
    ensures PascalCase(kebabCase) == PascalByWords(kebabCase)
  {
    ConvertByWords(kebabCase, "");
  }

  /** The number of hyphens the machine drops: those not directly after a digit. */
  function DroppedHyphens(s: string, afterDigit: bool): nat
  {
    if s == [] then 0
    else (if s[0] == '-' && !afterDigit then 1 else 0) + DroppedHyphens(s[1..], IsDigit(s[0]))
  }

  /** Every character but a dropped hyphen yields exactly one output character. */
  lemma {:induction false} ConvertLength(s: string, capitalizeNext: bool, lastWasDigit: bool)
    ensures |Convert(s, capitalizeNext, lastWasDigit)| == |s| - DroppedHyphens(s, lastWasDigit)
  {
    if s != [] {
      if s[0] == '-' {
        ConvertLength(s[1..], !lastWasDigit, false);
      } else {
        ConvertLength(s[1..], false, IsDigit(s[0]));
      }
    }
  }

  /** The output is as long as the input less the dropped hyphens. */
  lemma PascalCaseLength(kebabCase: string)
    ensures |PascalCase(kebabCase)| == |kebabCase| - DroppedHyphens(kebabCase, false)
  {
    ConvertLength(kebabCase, true, false);
  }

  /** Upper-casing is idempotent. */
  lemma ToUpperIdempotent(c: char)
    ensures ToUpper(ToUpper(c)) == ToUpper(c)
  {
  }

  /** A hyphen-free text only has its first character upper-cased. */
  lemma HyphenFree(t: string)
    requires '-' !in t
    ensures PascalCase(t) == Capitalize(t)
  {
    if t != [] {
      ConvertWord(t, "", true, false);
      assert t + "" == t;
    }
  }

  /** The first character glued on is `_` or already upper-cased. */
  lemma {:induction false} GlueStartsUpper(prev: string, parts: seq<string>)
    decreases |parts|
    ensures var g := Glue(prev, parts);
            g == [] || ToUpper(g[0]) == g[0]
  {
    if parts != [] {
      var w := parts[0];
      if !EndsWithDigit(prev) && w == [] {
        GlueStartsUpper(w, parts[1..]);
        assert Glue(prev, parts) == Glue(w, parts[1..]);
      } else if !EndsWithDigit(prev) {
        ToUpperIdempotent(w[0]);
      }
    }
  }

  /** Converting a converted name changes nothing. */
  lemma PascalCaseIdempotent(kebabCase: string)
    ensures PascalCase(PascalCase(kebabCase)) == PascalCase(kebabCase)
  {
    var p := PascalCase(kebabCase);
    ConvertNoHyphen(kebabCase, true, false);
    HyphenFree(p);
    PascalCaseByWords(kebabCase);
    var words := Split(kebabCase, '-');
    GlueStartsUpper(words[0], words[1..]);
    if words[0] != [] {
      ToUpperIdempotent(words[0][0]);
    }
    if p != [] {
      assert ToUpper(p[0]) == p[0];
      assert [p[0]] + p[1..] == p;
    }
  }

  /** A name given as its hyphen-separated words is built by the word-level reference. */
  lemma PascalCaseOfWords(words: seq<string>)
    requires |words| >= 1 && forall i :: 0 <= i < |words| ==> '-' !in words[i]
    ensures PascalCase(Join(words, '-')) == Capitalize(words[0]) + Glue(words[0], words[1..])
  {
    SplitJoin(words, '-');
    PascalCaseByWords(Join(words, '-'));
  }

  /** Hyphens between letters are dropped and the next letter is upper-cased. */
  lemma ExampleWords()
    ensures PascalCase("multi-word-name") == "MultiWordName"
  {
    var words := ["multi", "word", "name"];
    assert Join(words, '-') == "multi-word-name";
    assert Capitalize("multi") + Glue("multi", ["word", "name"]) == "MultiWordName";
    PascalCaseOfWords(words);
  }

  /** A leading hyphen leaves nothing behind, and the empty name stays empty. */
  lemma ExampleLeadingHyphen()
    ensures PascalCase("") == ""
    ensures PascalCase("-icon") == "Icon"
  {
    var words := ["", "icon"];
    assert Join(words, '-') == "-icon";
    assert Capitalize("") + Glue("", ["icon"]) == "Icon";
    PascalCaseOfWords(words);
  }

  /** A trailing hyphen leaves nothing behind. */
  lemma ExampleTrailingHyphen()
    ensures PascalCase("icon-") == "Icon"
  {
    var words := ["icon", ""];
    assert Join(words, '-') == "icon-";
    assert Capitalize("icon") + Glue("icon", [""]) == "Icon";
    PascalCaseOfWords(words);
  }

  /** A doubled hyphen leaves nothing behind. */
  lemma ExampleDoubledHyphen()
    ensures PascalCase("icon--home") == "IconHome"
  {
    var words := ["icon", "", "home"];
    assert Join(words, '-') == "icon--home";
    assert Capitalize("icon") + Glue("icon", ["", "home"]) == "IconHome";
    PascalCaseOfWords(words);
  }

  /** A hyphen between digits becomes `_`, keeping `0-1` apart from `01`. */
  lemma ExampleDigitHyphenDigit()
    ensures PascalCase("arrow-down-0-1") == "ArrowDown0_1"
  {
    var words := ["arrow", "down", "0", "1"];
    assert Join(words, '-') == "arrow-down-0-1";
    assert Capitalize("arrow") + Glue("arrow", ["down", "0", "1"]) == "ArrowDown0_1";
    PascalCaseOfWords(words);
  }

  /** Digits without a hyphen between them stay together. */
  lemma ExampleDigitsJoined()
    ensures PascalCase("arrow-down-01") == "ArrowDown01"
  {
    var words := ["arrow", "down", "01"];
    assert Join(words, '-') == "arrow-down-01";
    assert Capitalize("arrow") + Glue("arrow", ["down", "01"]) == "ArrowDown01";
    PascalCaseOfWords(words);
  }

  /** After a digit and a hyphen the next letter is not upper-cased. */
  lemma ExampleDigitHyphenLetter()
    ensures PascalCase("test-5-end") == "Test5_end"
  {
    var words := ["test", "5", "end"];
    assert Join(words, '-') == "test-5-end";
    assert Capitalize("test") + Glue("test", ["5", "end"]) == "Test5_end";
    PascalCaseOfWords(words);
  }

  /** A digit cancels the pending capital for the letter after it. */
  lemma ExampleDigitThenLetter()
    ensures PascalCase("icon-2x") == "Icon2x"
  {
    var words := ["icon", "2x"];
    assert Join(words, '-') == "icon-2x";
    assert Capitalize("icon") + Glue("icon", ["2x"]) == "Icon2x";
    PascalCaseOfWords(words);
  }

  /** Capitals already present are kept and nothing is lower-cased. */
  lemma ExampleCapitalsKept()
    ensures PascalCase("UPPER-CASE") == "UPPERCASE"
  {
    var words := ["UPPER", "CASE"];
    assert Join(words, '-') == "UPPER-CASE";
    assert Capitalize("UPPER") + Glue("UPPER", ["CASE"]) == "UPPERCASE";
    PascalCaseOfWords(words);
  }
}
