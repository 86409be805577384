# SvgIconGenerator core, modelled in Dafny

SvgIconGenerator is a C# source generator. It collects the SVG files of a
project and emits C# properties, one per icon. Each property carries the
icon's name, its root attributes, and its inner markup without namespaces.
This project models the generator's algorithmic core and proves properties of
that model:

* `GlobUtils` (glob.dfy) is the segment-wise glob matcher.
  * `*` matches inside a segment and `**` matches whole segments, backtracking over `**`.
  * Comparison ignores ASCII case.
  * A pattern without `/` is matched against the file name only.
  * The in-segment matcher searches for the leftmost occurrence of each literal part.
* `SvgUtils` (svg.dfy) is the icon-collection loop `LoadIcons`, with its own, older glob matcher.
  * It holds the filter that keeps the root attributes other than `xmlns` and `class`.
  * It holds the per-file accounting of icons and diagnostics.
* `StringUtils` (pascal.dfy) is the kebab-case to PascalCase state machine that names the properties.
* `XmlUtils` (xml.dfy) holds `RemoveNamespace` and `GetInnerXml`.
  * `RemoveNamespace` rebuilds an element tree without namespaces and without namespace declarations.
  * `GetInnerXml` concatenates what the children of the root contribute.
* `PathUtils` (paths.dfy) is `GetRelativePath`, the relative path from a base directory to a file.
* `SourceWriting` (writer.dfy) is the class `SourceWriter`.
  * It holds a text buffer and an indentation level.
  * `WriteLine` indents every line of multi-line text.
* `Text` (text.dfy) models the .NET string operations the core calls.
  * These are `Replace`, `Split`, `string.Join`, `IndexOf`, `LastIndexOf`, ordinal case-insensitive comparison and search, and `ToUpperInvariant`.
* `Wrappers` (wrappers.dfy) holds `Option`.

Each loop of `GlobUtils`, `StringUtils`, `GetInnerXml`, `LoadIcons`,
`GetRelativePath` and `SourceWriter` becomes a Dafny `method` with a `while`
or `for` loop. Its postcondition ties the result to a specification function.
The recursive tree rebuild of `RemoveNamespace`, including its two `foreach`
loops, is a recursive function. So are the LINQ filters: `Where` and
`ToDictionary` over the root attributes, and `Where` over the path segments. The source's
promises are then proved as lemmas about those functions. `SourceWriter` is a
class whose methods state the new buffer and indentation.

Exceptions are modelled as values:

* `None` when `XElement.Add` would reject a duplicate attribute.
* `Failed(path)` in `LoadIcons`.
* `ok == false` when the `Indentation` setter or `StringBuilder.Append` would throw.

Library code the core calls is a parameter:

* `Path.GetFullPath`.
* `Path.GetFileNameWithoutExtension`.
* `XDocument.Parse`.
* Element and comment serialisation.

What the code does, where a reader of its comments or names might expect otherwise:

* The root-attribute filter tests the local name only, as the comment at `SvgUtils.cs:34` says ("all attributes except xmlns and class"). So a prefixed declaration such as `xmlns:xlink="…"` (local name `xlink`) is kept (`SvgUtils.PrefixDeclarationKept`).
* The in-segment wildcard matcher is not the textbook glob.
  * It is sound (`GlobUtils.WildcardSound`) but not complete: `*ab` does not match `abab` (`GlobUtils.LeftmostSearchMissesLaterOccurrence`).
  * The end check that the comment at `GlobUtils.cs:103` describes ("ensure we matched to the end") tests only the position the leftmost search reached. A later occurrence of the last part is never tried.
* `**` on its own matches every path, including the empty one (`GlobUtils.DoubleStarMatchesEverything`).
* `""` matches a path whose last segment is empty, such as `icons/` (`GlobUtils.EmptyPattern`). The test `MatchesGlobPattern_EmptyPattern_NoMatch` checks only `icons/home.svg`, which `""` indeed does not match.
* The comments at `GlobUtils.cs:45` and `GlobUtils.cs:47` say that `**` matches zero or more path segments and that a final `**` matches everything. A final `**` is reached only while at least one path segment remains, so `a/**` does not match `a` (`GlobUtils.TrailingDoubleStarNeedsASegment`).
* The older matcher in `SvgUtils` has no file-name-only rule. So `home.svg` selects `icons/home.svg` in `GlobUtils` but not in `LoadIcons` (`SvgUtils.LegacyIgnoresFileNameRule`).
  * Its `**` retry bound `<`, against `<=` in `GlobUtils`, makes no difference to any result (`SvgUtils.LegacyIsPartsMatch`).
* Text children of the root are appended as their raw value, unescaped (`XmlUtils.TextIsNotEscaped`).
* The `int` indentation wraps around in C#. `PushIndentation` at `int.MaxValue` gives `int.MinValue`, and the space count `4 * indentation` wraps too. At level 2^29 the count is `int.MinValue`, so writing an indented line throws. At level 2^30 the count is 0, so the line is written without indentation (`SourceWriting.IndentationOverflow`).

## Model

Source paths are relative to the repository root.

| member | source | states |
|---|---|---|
| Text.Replace | src/SvgIconGenerator/GlobUtils.cs:15-16 | the result has the input's length; every occurrence of the old character is replaced and every other character is kept; the old character no longer occurs |
| Text.Split | src/SvgIconGenerator/GlobUtils.cs:28-29 | a split has at least one piece, and no piece contains the separator |
| Text.JoinSplit | src/SvgIconGenerator/SvgUtils.cs:85-86 | joining the pieces of a split with the same separator gives back the original text |
| Text.SplitJoin | src/SvgIconGenerator/SvgUtils.cs:85-86 | splitting a join of separator-free pieces gives back exactly those pieces |
| Text.IndexOf | src/SvgIconGenerator/SourceWriter.cs:91 | the result is -1 exactly when the character is absent; otherwise it is the position of its first occurrence |
| Text.LastIndexOf | src/SvgIconGenerator/GlobUtils.cs:22 | the result is -1 or a position holding the character, and no later position holds it |
| Text.LastPieceAfterLastSeparator | src/SvgIconGenerator/GlobUtils.cs:21-23 | the text after the last separator (the whole text when there is none) is the last piece of the split |
| Text.IndexOfIgnoreCase | src/SvgIconGenerator/GlobUtils.cs:93 | the result is -1 exactly when the part occurs nowhere from the start position on (ignoring case); otherwise it is the leftmost such occurrence |
| Text.ToUpper | src/SvgIconGenerator/StringUtils.cs:45 | a lower-case ASCII letter becomes its upper-case letter, which folds back to it; every other character is unchanged |
| GlobUtils.Normalize | src/SvgIconGenerator/GlobUtils.cs:15-16 | the normalised text has the same length and no backslash; each backslash becomes `/` and every other character is kept |
| GlobUtils.MatchesGlobPattern | src/SvgIconGenerator/GlobUtils.cs:12-32 | the method decides exactly `GlobMatch`, whose properties are the lemmas below |
| GlobUtils.MatchesPatternParts | src/SvgIconGenerator/GlobUtils.cs:37-70 | the `while` loop with its recursive `**` retries decides exactly `PartsMatch` from the given indices |
| GlobUtils.MatchesWildcard | src/SvgIconGenerator/GlobUtils.cs:75-108 | the method decides exactly `Wildcard`: `*`, then a star-free pattern, then the leftmost scan of the parts with the start and end checks |
| GlobUtils.FindParts | src/SvgIconGenerator/GlobUtils.cs:84-101 | the `for` loop over the parts ends at the search position `Scan` computes, or at -1 exactly where the loop returns false |
| GlobUtils.Scan | src/SvgIconGenerator/GlobUtils.cs:84-101 | the final search position is -1 or lies between the starting position and the end of the text: the search never moves back |
| GlobUtils.BackslashIsSlash | src/SvgIconGenerator/GlobUtils.cs:15-16 | matching the path and the pattern is the same as matching their `\`-to-`/` normalisations |
| GlobUtils.FileNameOnlyRule | src/SvgIconGenerator/GlobUtils.cs:19-25 | a pattern without `/` matches exactly when it wildcard-matches the last segment of the normalised path |
| GlobUtils.FileNameOnlyIgnoresDirectories | src/SvgIconGenerator/GlobUtils.cs:19-25 | for a pattern without `/`, two paths with the same last segment are matched alike, whatever their directories |
| GlobUtils.EmptyPattern | src/SvgIconGenerator/GlobUtils.cs:19-25 | the empty pattern matches exactly the paths whose last segment is empty, and no path with a non-empty last segment |
| GlobUtils.DoubleStarMatchesEverything | src/SvgIconGenerator/GlobUtils.cs:84-107 | `**` on its own matches every path, the empty one included: it is a file-name pattern whose parts are all empty |
| GlobUtils.WildcardWithoutEmbeddedStar | src/SvgIconGenerator/GlobUtils.cs:77-81 | `*` matches every text; a pattern without `*` matches exactly the texts equal to it ignoring case |
| GlobUtils.PartsWithoutDoubleStar | src/SvgIconGenerator/GlobUtils.cs:39-69 | without `**`, the parts match exactly when path and pattern have equally many remaining segments and each segment wildcard-matches the pattern segment at its position |
| GlobUtils.TrailingDoubleStar | src/SvgIconGenerator/GlobUtils.cs:46-47 | a final `**` matches exactly when at least one path segment remains |
| GlobUtils.InnerDoubleStar | src/SvgIconGenerator/GlobUtils.cs:50-55 | a non-final `**` matches exactly when the rest of the pattern matches from some path position i with pathIndex <= i <= the segment count; consuming no segment is among the options |
| GlobUtils.PathUsedUp | src/SvgIconGenerator/GlobUtils.cs:39-69 | once the path is used up, the parts match exactly when the pattern is used up too |
| GlobUtils.WildcardSound | src/SvgIconGenerator/GlobUtils.cs:84-107 | whatever the wildcard matcher accepts also matches under the textbook reading of `*` as any run of characters, ignoring case |
| GlobUtils.WildcardAnchoring | src/SvgIconGenerator/GlobUtils.cs:97-105 | an accepted text starts with the first part; unless the pattern ends in `*`, it also ends with the last part |
| GlobUtils.LeftmostSearchMissesLaterOccurrence | src/SvgIconGenerator/GlobUtils.cs:93-105 | `abab` matches `*ab` under the textbook reading, but the leftmost search rejects it |
| GlobUtils.PartsMatchSound | src/SvgIconGenerator/GlobUtils.cs:37-70 | whatever the segment matcher accepts also matches under the textbook reading of `**` as zero or more segments |
| GlobUtils.TrailingDoubleStarNeedsASegment | src/SvgIconGenerator/GlobUtils.cs:39-47 | `a/**` does not match the path `a`, although `**` could match zero segments |
| StringUtils.ConvertToPascalCase | src/SvgIconGenerator/StringUtils.cs:7-57 | the loop over the characters with the two flags builds exactly `PascalCase`, the state machine run from "capitalise next" and "last was not a digit" |
| StringUtils.ConvertHyphen | src/SvgIconGenerator/StringUtils.cs:19-34 | a hyphen after a digit is written as `_` and cancels capitalisation; any other hyphen is dropped and capitalises the next letter |
| StringUtils.ConvertCons | src/SvgIconGenerator/StringUtils.cs:35-53 | another character is written once, upper-cased only when capitalisation is pending; afterwards nothing is pending, and "last was a digit" holds exactly when it was a digit |
| StringUtils.ConvertNoHyphen | src/SvgIconGenerator/StringUtils.cs:19-34 | the output never contains `-` |
| StringUtils.ConvertIdentifier | src/SvgIconGenerator/StringUtils.cs:17-54 | an input of ASCII letters, digits and hyphens gives an output of ASCII letters, digits and underscores only |
| StringUtils.PascalCaseLength | src/SvgIconGenerator/StringUtils.cs:17-54 | the output length is the input length minus the number of hyphens not directly after a digit |
| StringUtils.PascalCaseByWords | src/SvgIconGenerator/StringUtils.cs:7-57 | the state machine agrees with a word-level reading: split at `-`, capitalise each word unless the previous word ends in a digit, and put `_` between a digit and the next word |
| StringUtils.PascalCaseOfWords | src/SvgIconGenerator/StringUtils.cs:7-57 | for hyphen-free words, the name of their hyphenated join is the first word capitalised, followed by the glued remaining words |
| StringUtils.HyphenFree | src/SvgIconGenerator/StringUtils.cs:41-53 | a name without hyphens gets its first character upper-cased and is otherwise unchanged |
| StringUtils.PascalCaseIdempotent | src/SvgIconGenerator/StringUtils.cs:7-57 | converting an already converted name changes nothing |
| StringUtils.ExampleWords | tests/SvgIconGenerator.Tests/StringUtilsTests.cs:13 | `multi-word-name` gives `MultiWordName` |
| StringUtils.ExampleLeadingHyphen | tests/SvgIconGenerator.Tests/StringUtilsTests.cs:41-71 | the empty name gives the empty name; `-icon` gives `Icon` |
| StringUtils.ExampleTrailingHyphen | tests/SvgIconGenerator.Tests/StringUtilsTests.cs:70 | `icon-` gives `Icon` |
| StringUtils.ExampleDoubledHyphen | tests/SvgIconGenerator.Tests/StringUtilsTests.cs:73 | `icon--home` gives `IconHome` |
| StringUtils.ExampleDigitHyphenDigit | tests/SvgIconGenerator.Tests/StringUtilsTests.cs:21 | `arrow-down-0-1` gives `ArrowDown0_1` |
| StringUtils.ExampleDigitsJoined | tests/SvgIconGenerator.Tests/StringUtilsTests.cs:31 | `arrow-down-01` gives `ArrowDown01` |
| StringUtils.ExampleDigitHyphenLetter | tests/SvgIconGenerator.Tests/StringUtilsTests.cs:23 | `test-5-end` gives `Test5_end`: no capital after a digit's hyphen |
| StringUtils.ExampleDigitThenLetter | tests/SvgIconGenerator.Tests/StringUtilsTests.cs:32 | `icon-2x` gives `Icon2x`: a digit cancels the pending capital |
| StringUtils.ExampleCapitalsKept | tests/SvgIconGenerator.Tests/StringUtilsTests.cs:61 | `UPPER-CASE` gives `UPPERCASE`: nothing is lower-cased |
| XmlUtils.RemoveNamespace | src/SvgIconGenerator/XmlUtils.cs:36-62 | it fails exactly when some `Add` in the tree would reject a duplicate attribute name; otherwise the rebuilt element has the input's local name, no namespace and distinct attribute names |
| XmlUtils.StripAttributes | src/SvgIconGenerator/XmlUtils.cs:42-46 | no attributes are added, and every kept attribute has no namespace |
| XmlUtils.StripAttributesKeeps | src/SvgIconGenerator/XmlUtils.cs:42-46 | every attribute that is not a namespace declaration is kept, under its local name and with its value; every kept attribute comes from such an attribute |
| XmlUtils.StripAttributesAppend | src/SvgIconGenerator/XmlUtils.cs:42-46 | the filter works attribute by attribute, so the kept attributes stay in their original order |
| XmlUtils.StripAttributesPlain | src/SvgIconGenerator/XmlUtils.cs:42-46 | attributes that have no namespace and are not `xmlns` pass through unchanged |
| XmlUtils.StripNamespaceFree | src/SvgIconGenerator/XmlUtils.cs:36-62 | after rebuilding, no element or attribute anywhere in the tree has a namespace |
| XmlUtils.StripDeclarationFree | src/SvgIconGenerator/XmlUtils.cs:36-62 | unless an attribute named `xmlns` sits in a foreign namespace, no namespace declaration remains anywhere in the rebuilt tree |
| XmlUtils.StripSameShape | src/SvgIconGenerator/XmlUtils.cs:49-59 | the rebuilt tree has the input's shape: the same children in the same order, with text, comments and instructions unchanged |
| XmlUtils.StripFixedPoint | src/SvgIconGenerator/XmlUtils.cs:36-62 | a tree already free of namespaces and declarations is rebuilt as itself |
| XmlUtils.StripIdempotent | src/SvgIconGenerator/XmlUtils.cs:36-62 | rebuilding twice gives the same tree as rebuilding once |
| XmlUtils.LinkAttributesCollide | src/SvgIconGenerator/XmlUtils.cs:45 | an element carrying both `href` and `xlink:href` cannot be rebuilt: both become `href` |
| XmlUtils.GetInnerXml | src/SvgIconGenerator/XmlUtils.cs:8-34 | the loop over the children builds exactly `InnerXml`, the in-order concatenation of what each child contributes |
| XmlUtils.InnerXmlAppend | src/SvgIconGenerator/XmlUtils.cs:13-31 | the markup of two runs of children is the markup of the first followed by that of the second |
| XmlUtils.InnerXmlFails | src/SvgIconGenerator/XmlUtils.cs:23-29 | the inner markup fails exactly when some child element cannot be rebuilt |
| XmlUtils.EmptyInnerXml | src/SvgIconGenerator/XmlUtils.cs:12-33 | an element without children has the inner markup `""` |
| XmlUtils.TextIsNotEscaped | src/SvgIconGenerator/XmlUtils.cs:17-19 | a text child `a<b` is appended as `a<b`, unescaped |
| SvgUtils.MatchesGlobPattern | src/SvgIconGenerator/SvgUtils.cs:58-104 | the older matcher, including its recursion on re-joined strings, decides exactly `LegacyGlob` |
| SvgUtils.RejoinedSuffix | src/SvgIconGenerator/SvgUtils.cs:85-86 | re-joining a suffix of the segments and normalising and splitting it again gives back that suffix, so the recursive call sees the same segments |
| SvgUtils.RetryPatternShorter | src/SvgIconGenerator/SvgUtils.cs:86-87 | the re-joined pattern of a retry is strictly shorter than the pattern, so the recursion ends |
| SvgUtils.LegacyIsPartsMatch | src/SvgIconGenerator/SvgUtils.cs:66-103 | the older segment matcher, with its retry bound `<`, decides exactly what `GlobUtils.PartsMatch` decides with `<=` |
| SvgUtils.LegacyAgreesOnDirectoryPatterns | src/SvgIconGenerator/SvgUtils.cs:58-104 | for a pattern containing `/`, both matchers decide alike |
| SvgUtils.LegacyWholePath | src/SvgIconGenerator/SvgUtils.cs:66-103 | a pattern without `/` (other than `**`) matches exactly a single-segment path that wildcard-matches it: there is no file-name-only rule |
| SvgUtils.NestedFileSelectedOnlyByGlobUtils | src/SvgIconGenerator/SvgUtils.cs:58-104 | a plain file name selects that file inside any directory in `GlobUtils`, but never in the older matcher |
| SvgUtils.LegacyIgnoresFileNameRule | src/SvgIconGenerator/SvgUtils.cs:58-104 | `home.svg` selects `icons/home.svg` in `GlobUtils` but not in the older matcher |
| SvgUtils.RootAttributes | src/SvgIconGenerator/SvgUtils.cs:35-36 | the kept root attributes are exactly those whose local name is neither `xmlns` nor `class` |
| SvgUtils.ToDictionaryContents | src/SvgIconGenerator/SvgUtils.cs:37 | a successful `ToDictionary` maps every attribute's local name to its value, and holds no other key |
| SvgUtils.ToDictionaryDefined | src/SvgIconGenerator/SvgUtils.cs:37 | `ToDictionary` succeeds exactly when the local names are distinct |
| SvgUtils.AttributeMap | src/SvgIconGenerator/SvgUtils.cs:35-37 | the attribute map exists exactly when the kept local names are distinct; it then has no `xmlns` or `class` key and maps exactly the kept attributes' local names to their values |
| SvgUtils.PrefixDeclarationKept | src/SvgIconGenerator/SvgUtils.cs:36 | `xmlns="…"` is dropped, but `xmlns:xlink="…"` is kept under the key `xlink` |
| SvgUtils.LoadIcons | src/SvgIconGenerator/SvgUtils.cs:10-56 | the loop over the files returns exactly the icons `Icons` and the diagnostics `Failures` of the per-file outcomes |
| SvgUtils.LoadIconsAppend | src/SvgIconGenerator/SvgUtils.cs:14-52 | the icons and diagnostics of two runs of files are those of the first followed by those of the second: input order is kept, and one file's failure does not affect the rest |
| SvgUtils.LoadIconsAccounting | src/SvgIconGenerator/SvgUtils.cs:14-52 | each file gives at most one icon or diagnostic; without a pattern, and with every text available, each gives exactly one |
| SvgUtils.IconNames | src/SvgIconGenerator/SvgUtils.cs:22-47 | every icon's property name is the PascalCase of its raw name, and its raw name is some input file's name without extension |
| SvgUtils.SkippedSilently | src/SvgIconGenerator/SvgUtils.cs:17-26 | a file the pattern rejects, or whose text is unavailable, gives no icon and no diagnostic |
| SvgUtils.EveryFileConsidered | src/SvgIconGenerator/SvgUtils.cs:17-18 | without a pattern, a file with text gives an icon or a diagnostic carrying its path |
| SvgUtils.ParseFailureReported | src/SvgIconGenerator/SvgUtils.cs:31-52 | a selected file whose text does not parse gives no icon and exactly one diagnostic, carrying its path |
| PathUtils.TrimEndProperties | src/SvgIconGenerator/PathUtils.cs:15-16 | trimming keeps a prefix that does not end in the trimmed character, and drops only copies of that character |
| PathUtils.WithoutEmpty | src/SvgIconGenerator/PathUtils.cs:23-24 | every remaining piece is non-empty and comes from the input |
| PathUtils.SegmentsPlain | src/SvgIconGenerator/PathUtils.cs:23-24 | every segment is non-empty and contains neither `/` nor `\` |
| PathUtils.CommonLength | src/SvgIconGenerator/PathUtils.cs:27-34 | the common length is at most either segment count; the segments before it are equal ignoring case, and the next pair, if both exist, differs |
| PathUtils.CommonLengthUnique | src/SvgIconGenerator/PathUtils.cs:27-34 | any length with those three properties is the common length |
| PathUtils.Ups | src/SvgIconGenerator/PathUtils.cs:40-43 | n steps up are exactly n copies of `..` |
| PathUtils.CountCommon | src/SvgIconGenerator/PathUtils.cs:27-34 | the counting loop with its `break` computes exactly the common length |
| PathUtils.BuildRelativeParts | src/SvgIconGenerator/PathUtils.cs:37-49 | the two loops build exactly `RelativeSteps`: one `..` per base segment after the common prefix, then the target's segments after it |
| PathUtils.GetRelativePath | src/SvgIconGenerator/PathUtils.cs:12-52 | the method returns exactly `RelativePath` of the two full paths |
| PathUtils.RelativePathResolves | src/SvgIconGenerator/PathUtils.cs:12-52 | when the paths differ and the target has no `.` or `..` segment, resolving the result from the base gives the target's segments, up to case |
| PathUtils.ResolveSteps | src/SvgIconGenerator/PathUtils.cs:37-49 | resolving the relative steps from the base segments gives the target segments, up to case |
| PathUtils.TargetUnderBase | src/SvgIconGenerator/PathUtils.cs:40-49 | when the base's segments are a prefix of the target's, the result is the target's remaining segments joined with `/`, with no `..` |
| PathUtils.NoBackslash | src/SvgIconGenerator/PathUtils.cs:15-51 | the result never contains `\` |
| PathUtils.SamePath | src/SvgIconGenerator/PathUtils.cs:19-20 | the relative path from a path to itself is `.` |
| PathUtils.TrailingSeparatorIgnored | src/SvgIconGenerator/PathUtils.cs:15-16 | a trailing `/` or `\` on the base changes nothing |
| PathUtils.SegmentsIgnoreDoubledSeparator | src/SvgIconGenerator/PathUtils.cs:23-24 | a doubled `/` gives the same segments as a single one, because empty segments are dropped |
| PathUtils.SameSegmentsGiveEmptyPath | src/SvgIconGenerator/PathUtils.cs:19-51 | on full paths that are spelled differently but have equal segments, the segment logic gives `""`; a `Path.GetFullPath` that collapses doubled separators never hands it such a pair |
| PathUtils.DoubledSeparatorGivesEmptyPath | src/SvgIconGenerator/PathUtils.cs:19-51 | on the full paths `/a//b` and `/a/b`, taken as already resolved, the segment logic gives `""`, not `.` |
| SourceWriting.Spaces | src/SvgIconGenerator/SourceWriter.cs:77-78 | the indentation text holds exactly the requested number of spaces |
| SourceWriting.Wrap32 | src/SvgIconGenerator/SourceWriter.cs:13 | the wrapped value is a C# `int` that differs from the exact result by a multiple of 2^32, and equals it when it is in range |
| SourceWriting.PushPopRestores | src/SvgIconGenerator/SourceWriter.cs:33-34 | popping after pushing restores every level, `int.MaxValue` included |
| SourceWriting.IndentationOverflow | src/SvgIconGenerator/SourceWriter.cs:77-78 | at level 2^29 the wrapped space count is `int.MinValue`, which `Append` refuses; at level 2^30 it is 0; pushing from `int.MaxValue` gives `int.MinValue` |
| SourceWriting.LinesAreSplit | src/SvgIconGenerator/SourceWriter.cs:80-112 | the lines `GetNextLine` yields one after another are the pieces of the text split at `\n`, each with one trailing `\r` removed |
| SourceWriting.LinesShape | src/SvgIconGenerator/SourceWriter.cs:80-112 | there is one line more than the text has `\n`, and no line contains `\n` |
| SourceWriting.TrailingNewlineAddsEmptyLine | src/SvgIconGenerator/SourceWriter.cs:98-102 | a text ending in `\n` has one extra, empty, last line |
| SourceWriting.BlockAppend | src/SvgIconGenerator/SourceWriter.cs:53-60 | writing two runs of lines is writing the first run and then the second |
| SourceWriting.IndentedEmptyLines | src/SvgIconGenerator/SourceWriter.cs:82-102 | at a non-zero level whose space count fits, empty text writes one indented empty line, and a trailing `\n` adds one more |
| SourceWriting.CarriageReturnOnlyDroppedWhenIndented | src/SvgIconGenerator/SourceWriter.cs:45-60 | at level 0, `a\r` is written verbatim; at level 1 its `\r` is dropped |
| SourceWriting.SourceWriter.constructor | src/SvgIconGenerator/SourceWriter.cs:12-13 | a new writer has an empty buffer and indentation 0 |
| SourceWriting.SourceWriter.SetIndentation | src/SvgIconGenerator/SourceWriter.cs:15-31 | a negative value fails and leaves everything unchanged; any other value is stored exactly, and the buffer is untouched |
| SourceWriting.SourceWriter.PushIndentation | src/SvgIconGenerator/SourceWriter.cs:33 | the indentation grows by exactly 1 as a wrapping `int`, and the buffer is untouched |
| SourceWriting.SourceWriter.PopIndentation | src/SvgIconGenerator/SourceWriter.cs:34 | the indentation shrinks by exactly 1 as a wrapping `int`, with no lower bound, and the buffer is untouched |
| SourceWriting.SourceWriter.AddIndentation | src/SvgIconGenerator/SourceWriter.cs:77-78 | it appends the wrapped count `4 * indentation` of spaces, or fails without change when that count is negative |
| SourceWriting.SourceWriter.WriteIndented | src/SvgIconGenerator/SourceWriter.cs:57-59 | it appends the indentation, the line and one newline, or fails without change where the indentation fails |
| SourceWriting.SourceWriter.WriteLineChar | src/SvgIconGenerator/SourceWriter.cs:36-41 | it appends the indentation's spaces, the character and one newline, or fails without change where the indentation fails |
| SourceWriting.SourceWriter.WriteLine | src/SvgIconGenerator/SourceWriter.cs:43-61 | it appends exactly `Rendered`: the text and a newline at level 0, otherwise every line indented and followed by a newline; a level whose space count is negative fails on the first line, with nothing written |
| SourceWriting.SourceWriter.WriteEmptyLine | src/SvgIconGenerator/SourceWriter.cs:63 | it appends one newline and nothing else |
| SourceWriting.SourceWriter.ToSourceText | src/SvgIconGenerator/SourceWriter.cs:65-69 | it requires indentation 0 and a non-empty buffer, and returns the buffer |
| SourceWriting.SourceWriter.Reset | src/SvgIconGenerator/SourceWriter.cs:71-75 | the buffer is emptied and the indentation set to 0 |
| SourceWriting.SourceWriter.GetNextLine | src/SvgIconGenerator/SourceWriter.cs:80-112 | the line is final exactly when no `\n` remains; the returned line is the first of `Lines`, and the rest, which is strictly shorter, yields the remaining lines |

## Left out

* Reading files is not modelled. `AdditionalText` and `GetText` become `SvgFile.text`, and an unavailable text is `None`. `SourceText`, the UTF-8 encoding and the `CancellationToken` are left out.
* `Path.GetFullPath` depends on the file system and the working directory, so it is a parameter of `PathUtils.GetRelativePath`. It is treated as an arbitrary function, and the lemmas are stated about the full paths.
* `PathUtils.DoubledSeparatorGivesEmptyPath` and `PathUtils.SameSegmentsGiveEmptyPath` are about full paths that still differ in spelling. The real `Path.GetFullPath` collapses a doubled separator, so `GetRelativePath("/a//b", "/a/b")` returns `.` in the program. What `Path.GetFullPath` does to a path is not part of this model.
* `Path.GetFileNameWithoutExtension`, `XDocument.Parse` and the two serialisations (`XElement.ToString(SaveOptions.DisableFormatting)` and a comment's `ToString`) are library code. They are the fields of `SvgUtils.Host` or parameters. Only tree-level properties are proved, not the serialised text.
* `StringComparison.OrdinalIgnoreCase`, `char.ToUpperInvariant` and `char.IsDigit` are modelled on ASCII only. Other Unicode letters and digits are treated as plain characters.
* `Environment.NewLine` is the constant `"\n"`.
* `SvgUtils.MatchesWildcard` is character for character the same code as `GlobUtils.MatchesWildcard`, so the older matcher calls the `GlobUtils` model instead of a copy.
* `SvgUtils.LoadIcons`: diagnostics carry the file's path only. The diagnostic descriptor, its ID and the exception message are left out.
* `SvgUtils.LoadIcons`: every exception in the `try` block is a `Failed` outcome. The causes modelled are a failed parse, duplicate keys in `ToDictionary`, and a duplicate attribute in `RemoveNamespace`. An exception raised inside a library parameter is not modelled.
* `SvgUtils.ToDictionaryContents`: the attribute map is a Dafny `map`, which has no order. The insertion order of the C# `Dictionary` is not modelled.
* The `?` wildcard in the doc comment of `MatchesGlobPattern` is not implemented in the code: `?` is a literal character there, and so it is in the model.
* Some loops are split into helper methods so that each proof stays small:
  * `GlobUtils.FindParts` is the `for` loop of `MatchesWildcard`.
  * `PathUtils.CountCommon` and `PathUtils.BuildRelativeParts` are the three loops of `GetRelativePath`.
  * `SourceWriting.SourceWriter.WriteIndented` is the body of the `do` loop of `WriteLine(string)`.
* `SourceWriting.SourceWriter.GetNextLine` works on strings rather than spans. The `ref` parameter becomes a second result, `rest`, which the caller assigns.
* The `Indentation` property getter is the field `indentation`. The setter's exception is the result `ok == false`, with nothing changed.
* `ToSourceText`'s `Debug.Assert` is a precondition, and the result is the buffer text rather than a `SourceText`.
* The emitter that turns icons into C# declarations is not part of this model. Neither is the Roslyn pipeline (`IconGenerator`, `RoslynUtils`, `ClassInfo`), the injected attribute source or the polyfills. They are host plumbing, or code outside the modelled files.
