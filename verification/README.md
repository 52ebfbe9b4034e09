# text-wrap-fit-box, modelled in Dafny

This project models the core of the Java library `net.kemitix.text.fit`. The core has three parts:

- **`TextLineWrapImpl`.** It turns a text into lines for a box. Newlines become spaces and the text is split on spaces. Each word is measured with one trailing space. The words are then packed greedily into lines no wider than the first box.
- **`BoxFitterImpl`.** It finds the largest font size at which the wrapped lines fit the boxes' heights. It bisects the range `[0, 10000)` and rejects any answer of 2 or less.
- **`StreamZipper`.** It pairs two lists index by index, up to the shorter length.

Font measurement is supplied by the caller:
- The word wrapper gets `widthOf: string -> nat`, the width of a string in the current font.
- The fitter gets `Metrics`, the width and height of a string at a font size.

Both return values already truncated to an integer, as `Double.intValue` does in the source.

Modules:

- `JavaStrings` (`java_strings.dfy`) models the `java.lang.String` operations the wrapper depends on, with Java's edge cases:
  - `split` on a one-character literal delimiter: `"".split(" ")` is `[""]`, `" ".split(" ")` is empty, and trailing empty pieces are dropped.
  - `String.join`.
  - `strip`, using `Character.isWhitespace`.
- `StreamZipper` (`stream_zipper.dfy`): `zip` and `limit`.
- `TextLineWrap` (`text_line_wrap.dfy`) has these parts:
  - `WrapWords` is the imperative packing loop. It is proved against the specification function `Groups`, which builds the line groups one `Place` step at a time.
  - Lemmas prove that `Groups` keeps word order and the width bound, breaks greedily, and leaves only the first group possibly empty.
  - `GreedyPackingIsUnique` proves that `Groups` is the only grouping with these properties.
  - `Wrapped` is the pure multi-box `wrap`, which the fitter uses.
- `BoxFitter` (`box_fitter.dfy`): `fitMinMax`, `fit`, `tooManyLines`, `wrapLines`, `lineSizes` and `sumLineHeights`, all as pure functions, over `TextLineWrapImpl` as the wrapper.

The `WordWrapper` interface promises more than its implementation delivers:
- Its multi-box `wrap` is to fill the boxes in order, and to throw `NotEnoughSpace` when the lines do not fit (src/main/java/net/kemitix/text/fit/WordWrapper.java:27-44).
- The library also declares a `WordTooLong` exception (src/main/java/net/kemitix/text/fit/WordTooLong.java:8).

`TextLineWrapImpl` does none of this, and this model follows the code:
- `wrapWords` reads only the first box's width.
- It always returns a list holding exactly one list of lines.
- It never throws.
- A word wider than the box becomes a line of its own.

`BoxFitterImpl` accepts any `WordWrapper`, but the library wires it to `TextLineWrapImpl` (src/main/java/net/kemitix/text/fit/TextFit.java:8). With that wrapper, the fitter's `catch (WordTooLong | NotEnoughSpace)` branch can never be taken. `tooManyLines` compares the single list of lines with the first box only. Some tests expect the interface's multi-box behaviour instead: an empty result for two boxes, `NotEnoughSpace` from `fit`, and text spilling into a second box. No property is taken from those tests.

## Model

| member | source | states |
|---|---|---|
| `TextLineWrap.WrapWords` | src/main/java/net/kemitix/text/fit/TextLineWrapImpl.java:39-62 | the loop over the words, with its running width `end` and the current line, returns exactly one list: the packed lines of the first box's width, without the empty ones |
| `TextLineWrap.WrapBoxes` | src/main/java/net/kemitix/text/fit/TextLineWrapImpl.java:27-37 | the multi-box `wrap` (newlines joined as spaces, split on spaces, measured, packed) returns the multi-box wrap result |
| `TextLineWrap.Wrap` | src/main/java/net/kemitix/text/fit/TextLineWrapImpl.java:14-25 | the single-box `wrap` equals element 0 of the multi-box wrap for one `width × width` box, that is, the packed lines for `width` |
| `TextLineWrap.Wrapped` | src/main/java/net/kemitix/text/fit/TextLineWrapImpl.java:43-61 | the multi-box result always holds exactly one list of lines, whatever the number of boxes, and none of its lines is the empty string |
| `TextLineWrap.NonEmpty` | src/main/java/net/kemitix/text/fit/TextLineWrapImpl.java:58-61 | every line the filter keeps has length > 0, and there are never more of them than input lines |
| `TextLineWrap.NonEmptySingle` | src/main/java/net/kemitix/text/fit/TextLineWrapImpl.java:59-60 | a single line is kept exactly when its length is > 0 |
| `TextLineWrap.NonEmptyAppend` | src/main/java/net/kemitix/text/fit/TextLineWrapImpl.java:59-61 | the filter works line by line: filtering a concatenation gives the filtered parts concatenated, so the kept lines keep their order and their repeats |
| `TextLineWrap.NonEmptyFromInput` | src/main/java/net/kemitix/text/fit/TextLineWrapImpl.java:59-61 | every kept line is one of the input lines |
| `TextLineWrap.NonEmptyKeepsAll` | src/main/java/net/kemitix/text/fit/TextLineWrapImpl.java:59-61 | every input line of length > 0 is kept |
| `TextLineWrap.Lines` | src/main/java/net/kemitix/text/fit/TextLineWrapImpl.java:45-61 | the lines for one box are never empty strings, and there are never more lines than words |
| `TextLineWrap.AtMostOneLinePerWord` | src/main/java/net/kemitix/text/fit/TextLineWrapImpl.java:45-61 | each group yields at most one line and an empty group none, so the filtered lines are at most as many as the grouped words |
| `TextLineWrap.Normalize` | src/main/java/net/kemitix/text/fit/TextLineWrapImpl.java:34 | newlines joined as spaces: the result is the text with each newline replaced by a space, cut before the trailing newlines that `split` drops; no newline is left |
| `TextLineWrap.Words` | src/main/java/net/kemitix/text/fit/TextLineWrapImpl.java:34-35 | newlines separate words like spaces, so no word contains a space or a newline; each word is measured with one trailing space |
| `TextLineWrap.KeepsNonEmpty` | src/main/java/net/kemitix/text/fit/TextLineWrapImpl.java:59-61 | filtering lines that are all non-empty returns them unchanged |
| `TextLineWrap.WordLengths` | src/main/java/net/kemitix/text/fit/TextLineWrapImpl.java:64-79 | one word per piece, in order, whose width is the measured width of the piece followed by a space |
| `TextLineWrap.Place` | src/main/java/net/kemitix/text/fit/TextLineWrapImpl.java:49-56 | one loop step never leaves the grouping without an open line |
| `TextLineWrap.Groups` | src/main/java/net/kemitix/text/fit/TextLineWrapImpl.java:45-57 | the line groups of the loop always include the open (last) group |
| `TextLineWrap.GroupsFlatten` | src/main/java/net/kemitix/text/fit/TextLineWrapImpl.java:48-57 | order is kept: the groups put one after the other are exactly the input words, none dropped or repeated |
| `TextLineWrap.GroupsEndWithLastWord` | src/main/java/net/kemitix/text/fit/TextLineWrapImpl.java:54-57 | the last word always goes into the last line, which is therefore non-empty |
| `TextLineWrap.GroupsNonEmpty` | src/main/java/net/kemitix/text/fit/TextLineWrapImpl.java:49-55 | every group after the first holds at least one word |
| `TextLineWrap.FirstGroupEmpty` | src/main/java/net/kemitix/text/fit/TextLineWrapImpl.java:46-53 | the first group is empty exactly when there are no words or the first word alone exceeds the width. In that case the loop closes an empty line |
| `TextLineWrap.GroupsFitWidth` | src/main/java/net/kemitix/text/fit/TextLineWrapImpl.java:49-55 | width bound: every line of two or more words has total width ≤ the width. Only a single word can be wider, and no error is raised |
| `TextLineWrap.GroupsGreedy` | src/main/java/net/kemitix/text/fit/TextLineWrapImpl.java:49 | greedy maximality: for each line but the last, adding the next line's first word would exceed the width |
| `TextLineWrap.GroupsIsGreedyPacking` | src/main/java/net/kemitix/text/fit/TextLineWrapImpl.java:45-57 | the loop's grouping meets every part of the greedy-packing definition |
| `TextLineWrap.GreedyPackingIsUnique` | src/main/java/net/kemitix/text/fit/TextLineWrapImpl.java:45-57 | any grouping that meets the greedy-packing definition equals the loop's grouping |
| `TextLineWrap.OneLineWhenFits` | src/main/java/net/kemitix/text/fit/TextLineWrapImpl.java:48-56 | words whose widths sum to at most the width form a single line |
| `TextLineWrap.SpillLastWord` | src/main/java/net/kemitix/text/fit/TextLineWrapImpl.java:49-55 | if all but the last word fit and the last one does not, the last word goes alone onto a second line |
| `TextLineWrap.MaxWordsOnOneLine` | src/test/java/net/kemitix/text/fit/TextLineWrapTest.java:78-82 | `n` non-empty words of width `k` with `n*k ≤ width` come out as one line, the words joined with spaces |
| `TextLineWrap.OneWordTooMany` | src/test/java/net/kemitix/text/fit/TextLineWrapTest.java:85-91 | with one such word more than fits, the result is the first `n` words as one line, then the last word |
| `TextLineWrap.WordsRebuildText` | src/main/java/net/kemitix/text/fit/TextLineWrapImpl.java:34-35 | the words joined with single spaces give the newline-free text back without its whole trailing run of spaces, which `split` drops: what follows is only spaces, and the join never ends on a space of the text |
| `TextLineWrap.WordsOfEmptyText` | src/main/java/net/kemitix/text/fit/TextLineWrapImpl.java:34-35 | empty text is one empty word, measured as the width of a single space |
| `TextLineWrap.EmptyTextNoLines` | src/test/java/net/kemitix/text/fit/TextLineWrapTest.java:66-69 | empty text wraps to an empty list of lines |
| `TextLineWrap.EmptyTextOneEmptyList` | src/test/java/net/kemitix/text/fit/TextLineWrapTest.java:139-143 | for a list of boxes, empty text wraps to a list holding one empty list |
| `JavaStrings.JavaSplit` | src/main/java/net/kemitix/text/fit/TextLineWrapImpl.java:34-35 | without the delimiter in the input, `split` gives the input alone; otherwise its last piece is never empty (trailing empty pieces are dropped). No piece contains the delimiter, and every character of a piece comes from the input |
| `JavaStrings.JoinSwapSeparator` | src/main/java/net/kemitix/text/fit/TextLineWrapImpl.java:34 | re-joining pieces free of the old separator with a new one-character separator keeps the length and replaces exactly the separators |
| `JavaStrings.JoinJavaSplit` | src/main/java/net/kemitix/text/fit/TextLineWrapImpl.java:34-35 | joining the pieces of `split` with the delimiter gives a prefix of the input, and the rest is delimiters only |
| `JavaStrings.JoinJavaSplitEnd` | src/main/java/net/kemitix/text/fit/TextLineWrapImpl.java:34 | the joined pieces of `split` stop exactly where the input's trailing run of delimiters starts: the join is empty or its last position is not a delimiter in the input |
| `JavaStrings.JoinSplitAll` | src/main/java/net/kemitix/text/fit/TextLineWrapImpl.java:34 | before trailing empty pieces are dropped, joining the pieces with the delimiter gives the input back |
| `JavaStrings.Strip` | src/main/java/net/kemitix/text/fit/BoxFitterImpl.java:99 | `strip` gives the infix of the line that follows its leading whitespace and is followed only by whitespace. It starts and ends with non-whitespace, and it is empty exactly when the line is all whitespace |
| `BoxFitter.LineSizes` | src/main/java/net/kemitix/text/fit/BoxFitterImpl.java:93-101 | one height per line, in order: the height of that line with its whitespace stripped |
| `BoxFitter.WrapLines` | src/main/java/net/kemitix/text/fit/BoxFitterImpl.java:83-91 | the measured wrap holds exactly one list, because the wrapper returns one list of lines; that list is the stripped height of each of the wrapper's lines, in order |
| `BoxFitter.SumLineHeightsAppend` | src/main/java/net/kemitix/text/fit/BoxFitterImpl.java:103-108 | the sum of line heights is additive over concatenation |
| `BoxFitter.SumLineHeights` | src/main/java/net/kemitix/text/fit/BoxFitterImpl.java:103-108 | no line is higher than the sum of the heights, a single line sums to its own height, and the sum is 0 exactly when every line is 0 high (so no lines sum to 0) |
| `BoxFitter.TooManyLines` | src/main/java/net/kemitix/text/fit/BoxFitterImpl.java:73-81 | `tooManyLines` holds iff some index below both list lengths names a box whose line heights sum to more than its height. Boxes past the shorter list are ignored |
| `BoxFitter.Fits` | src/main/java/net/kemitix/text/fit/BoxFitterImpl.java:63-64 | a probe at a size succeeds iff the lines wrapped to the first box's width have summed heights ≤ the first box's height |
| `BoxFitter.FitMinMax` | src/main/java/net/kemitix/text/fit/BoxFitterImpl.java:52-71 | for `0 ≤ min < max` the bisection terminates with `min ≤ r < max`, so `(0, 10000)` gives a result in `[0, 9999]`. The result is the starting `min` or a size that fits, and `r + 1` is the starting `max` or a size that does not fit |
| `BoxFitter.FitMinMaxIsLargest` | src/main/java/net/kemitix/text/fit/BoxFitterImpl.java:52-71 | if fitting is monotone, every size in `(min, r]` fits and none in `(r, max)` does |
| `BoxFitter.Fit` | src/main/java/net/kemitix/text/fit/BoxFitterImpl.java:36-50 | `fit` reports "too long to fit" exactly when the search gives ≤ 2. Any size it returns lies in `[3, 9999]` and fits |
| `BoxFitter.FitIsLargest` | src/main/java/net/kemitix/text/fit/BoxFitterImpl.java:43-49 | if fitting is monotone, `fit` returns the largest fitting size below 10000. It reports "too long" exactly when no size from 3 to 9999 fits |
| `BoxFitter.FitBox` | src/main/java/net/kemitix/text/fit/BoxFitterImpl.java:25-34 | the single-box `fit` is the list `fit` with that box alone, so its answer is also ≥ 3 and fits |
| `StreamZipper.Limit` | src/main/java/net/kemitix/text/fit/StreamZipper.java:45-50 | the limit is the smaller of the two list sizes |
| `StreamZipper.Zip` | src/main/java/net/kemitix/text/fit/StreamZipper.java:36-58 | the result has length `min(|a|, |b|)`, and its i-th item is `zipper(a[i], b[i])` |
| `StreamZipper.ZipPairsProject` | src/test/java/net/kemitix/text/fit/StreamZipperTest.java:24-39 | zipping into pairs and projecting gives the prefixes of both lists as long as the result |
| `StreamZipper.ZipEqualLengths` | src/main/java/net/kemitix/text/fit/StreamZipper.java:41-57 | for lists of equal length every item of both lists is used exactly once, in order |
| `StreamZipper.ZipEmpty` | src/main/java/net/kemitix/text/fit/StreamZipper.java:41-49 | if either list is empty, the result is empty |
| `StreamZipper.ZipSwap` | src/main/java/net/kemitix/text/fit/StreamZipper.java:45-58 | zipping `b` with `a` using the argument-swapped function gives the same sequence |

## Left out

- AWT measurement is not modelled. This covers `Font.getStringBounds`, `FontRenderContext`, `Graphics2D` and the font factory. It is replaced by the parameters `widthOf` and `Metrics`, which return truncated integer extents. The double-to-int truncation is therefore part of those parameters.
- Box extents are integers. The source compares integer sums with a box's `double` width and height. For an integer `n`, `n > d` holds exactly when `n > floor(d)`, so using the floors changes no comparison.
- 32-bit overflow is not modelled. This applies to the running width `end`, to the sum of line heights and to `max + min`. No overflow can happen for `max ≤ 10000`, and the others need more than 2^31 pixels.
- Every entry point needs at least one box (`WrapWords`, `WrapBoxes`, `Wrapped`, `Fit`). With an empty list, the source's `boxes.get(0)` throws `IndexOutOfBoundsException`.
- FitMinMax: requires `0 ≤ min`, which the source does not check. The only caller starts at 0. With a negative `min`, Java's truncating division can make `mid == max`, and the recursion might not end.
- The `catch (WordTooLong | NotEnoughSpace)` branch of `fitMinMax` has no separate path. The fitter is modelled over `TextLineWrapImpl`, the wrapper `TextFit.fitter()` supplies, which never throws either exception, so the branch is dead. A different `WordWrapper` is not modelled.
- The multi-box behaviour the `WordWrapper` interface promises is not modelled because `TextLineWrapImpl` does not implement it. This covers filling later boxes in order, `WordTooLong` and `NotEnoughSpace`. The same holds for the tests that expect it.
- Monotonicity of `fit` in the box size is not proved. It depends on how the measurements behave. The "largest fitting size" results take a monotone probe as a hypothesis.
- The number of probes (logarithmic in 10000) is not stated.
- The concrete font sizes in the fitter tests are not modelled, because they depend on the metrics of a real TrueType font.
- The private `StreamZipper` constructor, which throws `UnsupportedOperationException`, is not modelled. It is only reflection-level plumbing.
- Java strings are UTF-16, and Dafny characters are Unicode scalar values. `length() > 0` and `strip` mean the same under both views, because the whitespace characters are all in the Basic Multilingual Plane.
