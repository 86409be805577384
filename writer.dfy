/**
 * `SourceWriter`: a text buffer with an indentation level, used to emit the
 * generated C# source.  A line is written with four spaces per indentation
 * level in front of it; multi-line text is cut at `\n` and a `\r` before the
 * cut is dropped.
 *
 * What the buffer receives is specified by `Rendered`, and the cutting into
 * lines by `Lines`, which is proved equal to the reference reading "split at
 * every `\n`, then drop one trailing `\r` from each piece".
 */
module SourceWriting {
  import opened Text

  /** `Environment.NewLine`, fixed to one line feed. */
  const NewLine: string := "\n"

  /** The indentation unit: `CharsPerIndentation` copies of `IndentationChar`. */
  const CharsPerIndentation: nat := 4

  /** The values of a C# `int`. */
  newtype Int32 = x: int | -0x8000_0000 <= x < 0x8000_0000

  /**
   * C# `int` arithmetic in an unchecked context: the mathematical result
   * reduced modulo 2^32 into the range of `int`.
   */
  function Wrap32(x: int): (r: Int32)
    ensures (r as int - x) % 0x1_0000_0000 == 0
    ensures -0x8000_0000 <= x < 0x8000_0000 ==> r as int == x
  {
    var m := (x + 0x8000_0000) % 0x1_0000_0000;
    assert x + 0x8000_0000 == (x + 0x8000_0000) / 0x1_0000_0000 * 0x1_0000_0000 + m;
    (m - 0x8000_0000) as Int32
  }

  /**
   * The count handed to `Append(IndentationChar, count)` at indentation
   * `level`: `CharsPerIndentation * level`, wrapped to an `int`.
   */
  function IndentWidth(level: Int32): Int32
  {
    Wrap32(CharsPerIndentation * level as int)
  }

  /** `Append(char, count)` accepts the count: it throws on a negative one. */
  predicate IndentFits(level: Int32)
  {
    IndentWidth(level) >= 0
  }

  /** Popping after pushing restores the level, wrap-around included. */
  lemma {:induction false} PushPopRestores(level: Int32)
    ensures Wrap32(Wrap32(level as int + 1) as int - 1) == level
  {
    if level as int == 0x7FFF_FFFF {
      assert Wrap32(level as int + 1) as int == -0x8000_0000;
    } else {
      assert Wrap32(level as int + 1) as int == level as int + 1;
    }
  }

  /**
   * Large levels wrap: 2^29 gives the count `int.MinValue`, which `Append`
   * refuses, and 2^30 gives the count 0, so no spaces at all are written.
   */
  lemma IndentationOverflow()
    ensures IndentWidth(0x2000_0000) == -0x8000_0000 && !IndentFits(0x2000_0000)
    ensures IndentWidth(0x4000_0000) == 0 && IndentFits(0x4000_0000)
    ensures Wrap32(0x7FFF_FFFF + 1) == -0x8000_0000
  {
    assert CharsPerIndentation * 0x2000_0000 == 0x8000_0000;
    assert CharsPerIndentation * 0x4000_0000 == 0x1_0000_0000;
  }

  /** `count` spaces. */
  function Spaces(count: nat): (r: string)
    ensures |r| == count && forall i :: 0 <= i < count ==> r[i] == ' '
  {
    if count == 0 then "" else Spaces(count - 1) + " "
  }

  /** A line without the one `\r` that may end it. */
  function StripCR(line: string): string
  {
    if line != [] && line[|line| - 1] == '\r' then line[..|line| - 1] else line
  }

  /**
   * The lines `GetNextLine` hands out, one call after another: the text up to
   * the first `\n` without a trailing `\r`, then the lines of the rest; the
   * empty text is one empty line.
   */
  function Lines(text: string): seq<string>
    decreases |text|
  {
    if text == [] then [""]
    else
      var lineLength := IndexOf(text, '\n');
      if lineLength == -1 then [StripCR(text)]
      else [StripCR(text[..lineLength])] + Lines(text[lineLength + 1..])
  }

  /** A non-empty text without `\n` is one line. */
  lemma LinesLast(text: string)
    requires text != [] && IndexOf(text, '\n') == -1
    ensures Lines(text) == [StripCR(text)]
  {
  }

  /** The first line of a text, up to its first `\n`, and the lines after it. */
  lemma LinesBreak(text: string, lineLength: nat)
    requires lineLength == IndexOf(text, '\n')
    ensures Lines(text) == [StripCR(text[..lineLength])] + Lines(text[lineLength + 1..])
  {
  }

  /** Dropping a `\r` before position `n` is `StripCR` of the first `n` characters. */
  lemma StripSlice(text: string, n: nat)
    requires n <= |text|
    ensures (if n > 0 && text[n - 1] == '\r' then text[..n - 1] else text[..n]) == StripCR(text[..n])
  {
    if n > 0 {
      assert text[..n][n - 1] == text[n - 1];
      assert text[..n][..n - 1] == text[..n - 1];
    }
  }

  /** Each piece of a split, without a trailing `\r`. */
  function StripEach(parts: seq<string>): (r: seq<string>)
    ensures |r| == |parts| && forall i :: 0 <= i < |parts| ==> r[i] == StripCR(parts[i])
  {
    if parts == [] then [] else [StripCR(parts[0])] + StripEach(parts[1..])
  }

  /** The lines, each indented by `width` spaces and followed by a new line. */
  function Block(width: nat, lines: seq<string>): string
  {
    if lines == [] then ""
    else Block(width, lines[..|lines| - 1]) + Spaces(width) + lines[|lines| - 1] + NewLine
  }

  /** What `WriteLine(text)` appends at indentation `level`, where it does not throw. */
  function Rendered(level: Int32, text: string): string
    requires level == 0 || IndentFits(level)
  {
    if level == 0 then text + NewLine else Block(IndentWidth(level) as int, Lines(text))
  }

  /** `Lines` cuts at every `\n` and drops one trailing `\r` per piece: it agrees with `Split`. */
  lemma {:induction false} LinesAreSplit(text: string)
    ensures Lines(text) == StripEach(Split(text, '\n'))
    decreases |text|
  {
    if text == [] {
    } else {
      var k := IndexOf(text, '\n');
      if k == -1 {
        SplitNoSeparator(text, '\n');
      } else {
        var line, rest := text[..k], text[k + 1..];
        assert text == line + ['\n'] + rest;
        SplitPrefix(line, rest, '\n');
        LinesAreSplit(rest);
        assert StripEach([line] + Split(rest, '\n'))[1..] == StripEach(Split(rest, '\n'));
      }
    }
  }

  /** There is one line per `\n`, plus one, and no line holds a `\n`. */
  lemma LinesShape(text: string)
    ensures |Lines(text)| == multiset(text)['\n'] + 1
    ensures forall i :: 0 <= i < |Lines(text)| ==> '\n' !in Lines(text)[i]
  {
    LinesAreSplit(text);
    SplitCount(text, '\n');
    var parts := Split(text, '\n');
    forall i | 0 <= i < |parts| ensures '\n' !in StripCR(parts[i]) {
      assert forall x | x in StripCR(parts[i]) :: x in parts[i];
    }
  }

  /** A text ending in `\n` has one more line, an empty one. */
  lemma TrailingNewlineAddsEmptyLine(text: string)
    ensures Lines(text + "\n") == Lines(text) + [""]
  {
    LinesAreSplit(text + "\n");
    LinesAreSplit(text);
    SplitAppendSeparator(text, '\n');
    var parts := Split(text, '\n');
    assert StripEach(parts + [""]) == StripEach(parts) + [""];
  }

  /** One more line at the end of a block. */
  lemma BlockSnoc(width: nat, lines: seq<string>, line: string)
    ensures Block(width, lines + [line]) == Block(width, lines) + Spaces(width) + line + NewLine
  {
    assert (lines + [line])[..|lines|] == lines;
  }

  /** Writing one more indented line after a block extends the block by that line. */
  lemma BlockStep(start: string, width: nat, lines: seq<string>, line: string)
    ensures start + Block(width, lines) + Spaces(width) + line + NewLine
            == start + Block(width, lines + [line])
  {
    BlockSnoc(width, lines, line);
    AppendLineAssociates(start, Block(width, lines), Spaces(width), line);
  }

  lemma AppendLineAssociates(start: string, block: string, indent: string, line: string)
    ensures start + block + indent + line + NewLine == start + (block + indent + line + NewLine)
  {
  }

  /** The lines written so far and the lines of what remains make up the lines of the whole text. */
  lemma LinesConsumed(written: seq<string>, next: string, remaining: seq<string>, rest: seq<string>, final: bool, all: seq<string>)
    requires written + remaining == all
    requires final ==> remaining == [next]
    requires !final ==> remaining == [next] + rest
    ensures final ==> written + [next] == all
    ensures !final ==> written + [next] + rest == all
  {
    if !final {
      assert written + [next] + rest == written + ([next] + rest);
    }
  }

  /** Blocks of lines concatenate. */
  lemma {:induction false} BlockAppend(width: nat, a: seq<string>, b: seq<string>)
    ensures Block(width, a + b) == Block(width, a) + Block(width, b)
    decreases |b|
  {
    if b == [] {
      assert a + b == a;
    } else {
      var n := |b| - 1;
      assert (a + b)[..|a + b| - 1] == a + b[..n];
      assert (a + b)[|a + b| - 1] == b[n];
      BlockAppend(width, a, b[..n]);
      AppendLineAssociates(Block(width, a), Block(width, b[..n]), Spaces(width), b[n]);
    }
  }

  /** Indented, a text ending in `\n` and the empty text each write an extra indented empty line. */
  lemma IndentedEmptyLines(level: Int32, text: string)
    requires level != 0 && IndentFits(level)
    ensures Rendered(level, "") == Spaces(IndentWidth(level) as int) + NewLine
    ensures Rendered(level, text + "\n") == Rendered(level, text) + Spaces(IndentWidth(level) as int) + NewLine
  {
    var width := IndentWidth(level) as int;
    TrailingNewlineAddsEmptyLine(text);
    BlockAppend(width, Lines(text), [""]);
    assert Block(width, [""]) == Spaces(width) + "" + NewLine;
  }

  /** A `\r` before the line end is kept at indentation 0 and dropped when indented. */
  lemma CarriageReturnOnlyDroppedWhenIndented()
    ensures Rendered(0, "a\r") == "a\r\n"
    ensures Rendered(1, "a\r") == "    a\n"
  {
    assert IndexOf("a\r", '\n') == -1;
    assert StripCR("a\r") == "a";
    assert Lines("a\r") == ["a"];
    assert IndentWidth(1) == 4;
    assert Block(4, ["a"]) == Block(4, []) + Spaces(4) + "a" + NewLine;
    assert Spaces(4) == "    ";
  }

  /** `SourceWriter`. */
  class SourceWriter {
    /** The text written so far (the `StringBuilder`). */
    var sb: string
    /** The indentation level, a C# `int`; the property setter keeps it non-negative, `PopIndentation` does not. */
    var indentation: Int32

    /** A new writer: nothing written, indentation 0. */
    constructor()
      ensures sb == "" && indentation == 0
    {
      sb := "";
      indentation := 0;
    }

    /** The `Indentation` setter: a negative value throws and changes nothing; `ok` is false then. */
    method SetIndentation(value: Int32) returns (ok: bool)
      modifies this
      ensures ok == (value >= 0)
      ensures sb == old(sb)
      ensures indentation == if ok then value else old(indentation)
    {
      if value < 0 {
        return false;
      }
      indentation := value;
      return true;
    }

    /** `PushIndentation`: one level more, wrapping from `int.MaxValue` to `int.MinValue`. */
    method PushIndentation()
      modifies this
      ensures indentation == Wrap32(old(indentation) as int + 1) && sb == old(sb)
    {
      indentation := Wrap32(indentation as int + 1);
    }

    /** `PopIndentation`: one level less, without a lower bound, wrapping from `int.MinValue` to `int.MaxValue`. */
    method PopIndentation()
      modifies this
      ensures indentation == Wrap32(old(indentation) as int - 1) && sb == old(sb)
    {
      indentation := Wrap32(indentation as int - 1);
    }

    /**
     * `AddIndentation`: four spaces per level, the count computed as a
     * wrapping `int`. When the count is negative the repeated `Append`
     * throws before writing anything; `ok` is false then.
     */
    method AddIndentation() returns (ok: bool)
      modifies this
      ensures indentation == old(indentation)
      ensures ok == IndentFits(indentation)
      ensures sb == if ok then old(sb) + Spaces(IndentWidth(indentation) as int) else old(sb)
    {
      var count := IndentWidth(indentation);
      if count < 0 {
        return false;
      }
      sb := sb + Spaces(count as int);
      return true;
    }

    /** The body of the `do` loop of `WriteLine(string)`: the indentation, one line and a new line. */
    method WriteIndented(line: string) returns (ok: bool)
      modifies this
      ensures indentation == old(indentation)
      ensures ok == IndentFits(indentation)
      ensures sb == if ok then old(sb) + Spaces(IndentWidth(indentation) as int) + line + NewLine else old(sb)
    {
      ok := AddIndentation();
      if !ok {
        return;
      }
      sb := sb + line;
      sb := sb + NewLine;
    }

    /** `WriteLine(char)`: the indentation, the character and a new line. */
    method WriteLineChar(value: char) returns (ok: bool)
      modifies this
      ensures indentation == old(indentation)
      ensures ok == IndentFits(indentation)
      ensures sb == if ok then old(sb) + Spaces(IndentWidth(indentation) as int) + [value] + NewLine else old(sb)
    {
      ok := AddIndentation();
      if !ok {
        return;
      }
      sb := sb + [value];
      sb := sb + NewLine;
    }

    /**
     * `WriteLine(string)`: at indentation 0 the text as it is and a new line;
     * otherwise each line of the text, indented, with a new line.
     */
    method WriteLine(text: string) returns (ok: bool)
      modifies this
      ensures indentation == old(indentation)
      ensures ok == (indentation == 0 || IndentFits(indentation))
      ensures sb == if ok then old(sb) + Rendered(indentation, text) else old(sb)
    {
      if indentation == 0 {
        sb := sb + text + NewLine;
        return true;
      }
      var isFinalLine := false;
      var remainingText := text;
      ghost var start := sb;
      ghost var written: seq<string> := [];
      while !isFinalLine
        invariant indentation == old(indentation) != 0 && start == old(sb)
        invariant isFinalLine ==> written == Lines(text)
        invariant !isFinalLine ==> written + Lines(remainingText) == Lines(text)
        invariant !IndentFits(indentation) ==> !isFinalLine && sb == start
        invariant IndentFits(indentation) ==> sb == start + Block(IndentWidth(indentation) as int, written)
        decreases |remainingText| + (if isFinalLine then 0 else 1)
      {
        var nextLine, rest, finalLine := GetNextLine(remainingText);
        isFinalLine := finalLine;
        var added := WriteIndented(nextLine);
        if !added {
          return false;
        }
        BlockStep(start, IndentWidth(indentation) as int, written, nextLine);
        LinesConsumed(written, nextLine, Lines(remainingText), Lines(rest), finalLine, Lines(text));
        written := written + [nextLine];
        remainingText := rest;
      }
      return true;
    }

    /** `WriteLine()`: an empty line. */
    method WriteEmptyLine()
      modifies this
      ensures sb == old(sb) + NewLine && indentation == old(indentation)
    {
      sb := sb + NewLine;
    }

    /** `ToSourceText`: the text written, to be taken only when back at indentation 0 and non-empty. */
    method ToSourceText() returns (text: string)
      requires indentation == 0 && |sb| > 0
      ensures text == sb
    {
      text := sb;
    }

    /** `Reset`: empties the buffer and returns to indentation 0. */
    method Reset()
      modifies this
      ensures sb == "" && indentation == 0
    {
      sb := "";
      indentation := 0;
    }

    /**
     * `GetNextLine`: the next line of `remainingText` and what follows its
     * `\n`; `isFinalLine` when there is no `\n` left.
     */
    static method GetNextLine(remainingText: string) returns (next: string, rest: string, isFinalLine: bool)
      ensures isFinalLine <==> '\n' !in remainingText
      ensures isFinalLine ==> rest == [] && Lines(remainingText) == [next]
      ensures !isFinalLine ==> |rest| < |remainingText| && Lines(remainingText) == [next] + Lines(rest)
    {
      if remainingText == [] {
        return [], [], true;
      }
      var lineLength := IndexOf(remainingText, '\n');
      if lineLength == -1 {
        LinesLast(remainingText);
        lineLength := |remainingText|;
        isFinalLine := true;
        rest := [];
        assert remainingText[..lineLength] == remainingText;
      } else {
        LinesBreak(remainingText, lineLength);
        rest := remainingText[lineLength + 1..];
        isFinalLine := false;
      }
      StripSlice(remainingText, lineLength);
      if lineLength > 0 && remainingText[lineLength - 1] == '\r' {
        lineLength := lineLength - 1;
      }
      next := remainingText[..lineLength];
    }
  }
}
