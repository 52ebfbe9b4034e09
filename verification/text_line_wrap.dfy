/** `TextLineWrapImpl`: splits a text into words, measures each word and packs
    the words greedily into lines no wider than the first box.

    Font measurement is a parameter: `widthOf(s)` is the width of `s` in the
    current font, already truncated to an integer as `Double.intValue` does.
 */
module TextLineWrap {
  import opened JavaStrings

  /** A word and the truncated width of the word followed by one space. */
  datatype Word = Word(text: string, width: nat)

  /** A rectangle's extent. The source compares integer sums against the
      rectangle's `double` width and height; `n > d` for an integer `n` holds
      exactly when `n > floor(d)`, so the floors are kept here. */
  datatype Box = Box(width: int, height: int)

  /** Sum of the word widths, accumulated from the left as the packing loop does. */
  function SumWidth(ws: seq<Word>): nat
    decreases |ws|
  {
    if ws == [] then 0 else SumWidth(ws[..|ws| - 1]) + ws[|ws| - 1].width
  }

  /** All groups one after the other. */
  function Flatten(gs: seq<seq<Word>>): seq<Word>
    decreases |gs|
  {
    if gs == [] then [] else Flatten(gs[..|gs| - 1]) + gs[|gs| - 1]
  }

  /** One step of the packing loop: `w` joins the open (last) group when the
      group's running width plus `w` stays within `width`, and otherwise the
      open group is closed and `w` starts a new one. */
  function Place(g: seq<seq<Word>>, w: Word, width: int): (r: seq<seq<Word>>)
    requires |g| >= 1
    ensures |r| >= 1
  {
    var open := g[|g| - 1];
    if SumWidth(open) + w.width > width then g + [[w]]
    else g[..|g| - 1] + [open + [w]]
  }

  /** The line groups the packing loop builds, before they are rendered and
      filtered: the words placed one by one from a single empty group. The
      first group stays empty when the very first word already does not fit. */
  function Groups(words: seq<Word>, width: int): (g: seq<seq<Word>>)
    ensures |g| >= 1
    decreases |words|
  {
    if words == [] then [[]]
    else Place(Groups(words[..|words| - 1], width), words[|words| - 1], width)
  }

  /** The break before group `k + 1` was forced: that group's first word would
      have taken group `k` past the width. */
  predicate BreakForced(g: seq<seq<Word>>, k: int, width: int)
    requires 0 <= k < |g| - 1
  {
    g[k + 1] != [] && SumWidth(g[k]) + g[k + 1][0].width > width
  }

  /** What one step does to the groups: the earlier groups stay, and either a
      new group `[w]` follows the open one or the open one grows by `w`. */
  lemma PlaceShape(g: seq<seq<Word>>, w: Word, width: int)
    requires |g| >= 1
    ensures var r, open := Place(g, w, width), g[|g| - 1];
      (forall k :: 0 <= k < |g| - 1 ==> r[k] == g[k]) &&
      (SumWidth(open) + w.width > width ==> |r| == |g| + 1 && r[|g| - 1] == open && r[|g|] == [w]) &&
      (SumWidth(open) + w.width <= width ==> |r| == |g| && r[|g| - 1] == open + [w])
  {
  }

  /** The two outcomes of one step, as whole groupings. */
  lemma PlaceCases(closed: seq<seq<Word>>, open: seq<Word>, w: Word, width: int)
    ensures SumWidth(open) + w.width > width ==>
      Place(closed + [open], w, width) == closed + [open] + [[w]]
    ensures SumWidth(open) + w.width <= width ==>
      Place(closed + [open], w, width) == closed + [open + [w]]
  {
    var g := closed + [open];
    assert g[|g| - 1] == open && g[..|g| - 1] == closed;
  }

  /** The groups of one more word are one more step. */
  lemma GroupsStep(words: seq<Word>, i: nat, width: int)
    requires i < |words|
    ensures Groups(words[..i + 1], width) == Place(Groups(words[..i], width), words[i], width)
  {
    assert words[..i + 1][..i] == words[..i];
  }

  /** Only the first group may be empty. */
  predicate OnlyFirstMayBeEmpty(g: seq<seq<Word>>) {
    forall k :: 1 <= k < |g| ==> g[k] != []
  }

  /** Every group of two or more words fits the width. */
  predicate WithinWidth(g: seq<seq<Word>>, width: int) {
    forall k :: 0 <= k < |g| && |g[k]| >= 2 ==> SumWidth(g[k]) <= width
  }

  /** Every break between groups was forced. */
  predicate Greedy(g: seq<seq<Word>>, width: int) {
    forall k :: 0 <= k < |g| - 1 ==> BreakForced(g, k, width)
  }

  function Texts(ws: seq<Word>): (r: seq<string>)
    ensures |r| == |ws| && forall i :: 0 <= i < |ws| ==> r[i] == ws[i].text
  {
    seq(|ws|, i requires 0 <= i < |ws| => ws[i].text)
  }

  /** Each group as a line: its words joined with single spaces. */
  function Render(gs: seq<seq<Word>>): (r: seq<string>)
    ensures |r| == |gs| && forall i :: 0 <= i < |gs| ==> r[i] == Join(Texts(gs[i]), " ")
  {
    seq(|gs|, i requires 0 <= i < |gs| => Join(Texts(gs[i]), " "))
  }

  /** The lines of length greater than zero, in their order. */
  function NonEmpty(lines: seq<string>): (r: seq<string>)
    ensures |r| <= |lines|
    ensures forall i :: 0 <= i < |r| ==> |r[i]| > 0
    decreases |lines|
  {
    if lines == [] then []
    else
      var last := lines[|lines| - 1];
      NonEmpty(lines[..|lines| - 1]) + (if |last| > 0 then [last] else [])
  }

  /** A single line survives the filter exactly when it is non-empty. */
  lemma NonEmptySingle(l: string)
    ensures NonEmpty([l]) == if |l| > 0 then [l] else []
  {
    assert [l][..0] == [];
  }

  /** The filter works line by line: filtering a concatenation is the
      concatenation of the filtered parts, so order and repeats are kept. */
  lemma {:induction false} NonEmptyAppend(a: seq<string>, b: seq<string>)
    ensures NonEmpty(a + b) == NonEmpty(a) + NonEmpty(b)
    decreases |b|
  {
    if b == [] {
      assert a + b == a;
    } else {
      var init := b[..|b| - 1];
      assert (a + b)[..|a + b| - 1] == a + init;
      assert (a + b)[|a + b| - 1] == b[|b| - 1];
      NonEmptyAppend(a, init);
    }
  }

  /** Every line the filter keeps comes from the input. */
  lemma {:induction false} NonEmptyFromInput(lines: seq<string>)
    ensures forall l :: l in NonEmpty(lines) ==> l in lines
    decreases |lines|
  {
    if lines != [] {
      var init, last := lines[..|lines| - 1], lines[|lines| - 1];
      var kept := if |last| > 0 then [last] else [];
      assert NonEmpty(lines) == NonEmpty(init) + kept;
      NonEmptyFromInput(init);
      forall l | l in NonEmpty(lines) ensures l in lines {
        if l in NonEmpty(init) {
          var j :| 0 <= j < |init| && init[j] == l;
          assert lines[j] == l;
        } else {
          assert l in kept;
        }
      }
    }
  }

  /** Every non-empty input line is kept by the filter. */
  lemma NonEmptyKeepsAll(lines: seq<string>)
    ensures forall j :: 0 <= j < |lines| && |lines[j]| > 0 ==> lines[j] in NonEmpty(lines)
  {
    forall j | 0 <= j < |lines| && |lines[j]| > 0
      ensures lines[j] in NonEmpty(lines)
    {
      var a, l, b := lines[..j], lines[j], lines[j + 1..];
      assert lines == a + [l] + b;
      NonEmptyAppend(a + [l], b);
      NonEmptyAppend(a, [l]);
      NonEmptySingle(l);
      assert NonEmpty(lines) == NonEmpty(a) + [l] + NonEmpty(b);
      assert NonEmpty(lines)[|NonEmpty(a)|] == l;
    }
  }

  /** The lines `wrapWords` produces for one box of the given width: none of
      them is empty, and there are never more lines than words. */
  function Lines(words: seq<Word>, width: int): (r: seq<string>)
    ensures forall i :: 0 <= i < |r| ==> |r[i]| > 0
    ensures |r| <= |words|
  {
    GroupsFlatten(words, width);
    AtMostOneLinePerWord(Groups(words, width));
    NonEmpty(Render(Groups(words, width)))
  }

  /** `text.split("\n")` joined again with spaces: every newline becomes a
      space, and the result ends just before the run of newlines at the very
      end of the text, which `split` drops. */
  function Normalize(text: string): (r: string)
    ensures |r| <= |text|
    ensures forall i :: 0 <= i < |r| ==> r[i] == if text[i] == '\n' then ' ' else text[i]
    ensures forall i :: |r| <= i < |text| ==> text[i] == '\n'
    ensures r == [] || text[|r| - 1] != '\n'
    ensures '\n' !in r
  {
    JoinJavaSplit(text, '\n');
    JoinJavaSplitEnd(text, '\n');
    JoinSwapSeparator(JavaSplit(text, '\n'), '\n', ' ');
    Join(JavaSplit(text, '\n'), " ")
  }

  /** `wordLengths`: each piece with the width of the piece plus a space. */
  function WordLengths(pieces: seq<string>, widthOf: string -> nat): (ws: seq<Word>)
    ensures |ws| == |pieces|
    ensures forall i :: 0 <= i < |ws| ==> ws[i] == Word(pieces[i], widthOf(pieces[i] + " "))
  {
    seq(|pieces|, i requires 0 <= i < |pieces| => Word(pieces[i], widthOf(pieces[i] + " ")))
  }

  /** The measured words of `text`: its normalized form split on spaces.
      Newlines separate words like spaces, so no word contains either, and
      each word is measured with one trailing space. */
  function Words(text: string, widthOf: string -> nat): (ws: seq<Word>)
    ensures forall i :: 0 <= i < |ws| ==> ' ' !in ws[i].text && '\n' !in ws[i].text
    ensures forall i :: 0 <= i < |ws| ==> ws[i].width == widthOf(ws[i].text + " ")
  {
    WordLengths(JavaSplit(Normalize(text), ' '), widthOf)
  }

  /** The multi-box `wrap`: one list of lines, sized by the first box only. */
  function Wrapped(text: string, widthOf: string -> nat, boxes: seq<Box>): (r: seq<seq<string>>)
    requires |boxes| > 0
    ensures |r| == 1
    ensures forall l :: l in r[0] ==> |l| > 0
  {
    [Lines(Words(text, widthOf), boxes[0].width)]
  }

  /** `wrapWords`: one pass over the words with a running width `end`; a line
      is closed when the next word would take it past the first box's width. */
  method WrapWords(words: seq<Word>, boxes: seq<Box>) returns (r: seq<seq<string>>)
    requires |boxes| > 0
    ensures r == [Lines(words, boxes[0].width)]
  {
    var width := boxes[0].width;
    var lines: seq<string> := [];
    var end: int := 0;
    var line: seq<string> := [];
    ghost var closed: seq<seq<Word>> := [];
    ghost var open: seq<Word> := [];
    for i := 0 to |words|
      invariant closed + [open] == Groups(words[..i], width)
      invariant lines == Render(closed)
      invariant line == Texts(open)
      invariant end == SumWidth(open)
    {
      var word := words[i];
      GroupsStep(words, i, width);
      PlaceCases(closed, open, word, width);
      ghost var next := Place(closed + [open], word, width);
      if end + word.width > width {
        RenderAppend(closed, open);
        lines := lines + [Join(line, " ")];
        line := [];
        end := 0;
        closed, open := closed + [open], [];
      }
      SumWidthAppend(open, word);
      TextsAppend(open, word);
      line := line + [word.text];
      end := end + word.width;
      open := open + [word];
      assert closed + [open] == next;
    }
    assert words[..|words|] == words;
    RenderAppend(closed, open);
    lines := lines + [Join(line, " ")];
    r := [NonEmpty(lines)];
  }

  /** The multi-box `wrap`: newlines to spaces, split into measured words, pack. */
  method WrapBoxes(text: string, widthOf: string -> nat, boxes: seq<Box>) returns (r: seq<seq<string>>)
    requires |boxes| > 0
    ensures r == Wrapped(text, widthOf, boxes)
  {
    var source := Join(JavaSplit(text, '\n'), " ");
    var words := WordLengths(JavaSplit(source, ' '), widthOf);
    r := WrapWords(words, boxes);
  }

  /** The single-box `wrap`: the first (and only) entry of the multi-box wrap
      for a square box of side `width`. */
  method Wrap(text: string, widthOf: string -> nat, width: int) returns (r: seq<string>)
    ensures r == Wrapped(text, widthOf, [Box(width, width)])[0]
    ensures r == Lines(Words(text, widthOf), width)
  {
    var all := WrapBoxes(text, widthOf, [Box(width, width)]);
    r := all[0];
  }

  lemma TextsAppend(ws: seq<Word>, w: Word)
    ensures Texts(ws + [w]) == Texts(ws) + [w.text]
  {
  }

  lemma RenderAppend(gs: seq<seq<Word>>, g: seq<Word>)
    ensures Render(gs + [g]) == Render(gs) + [Join(Texts(g), " ")]
  {
  }

  // ---------------------------------------------------------------------
  // Properties of the packing

  lemma {:induction false} FlattenAppend(gs: seq<seq<Word>>, g: seq<Word>)
    ensures Flatten(gs + [g]) == Flatten(gs) + g
  {
    assert (gs + [g])[..|gs|] == gs;
  }

  /** A non-empty sequence is its front followed by its last element. */
  lemma InitLast<T>(s: seq<T>)
    requires s != []
    ensures s[..|s| - 1] + [s[|s| - 1]] == s
  {
  }

  /** One step appends the placed word to the words already grouped. */
  lemma FlattenPlace(g: seq<seq<Word>>, w: Word, width: int)
    requires |g| >= 1
    ensures Flatten(Place(g, w, width)) == Flatten(g) + [w]
  {
    var front, open := g[..|g| - 1], g[|g| - 1];
    if SumWidth(open) + w.width > width {
      FlattenAppend(g, [w]);
    } else {
      FlattenAppend(front, open + [w]);
      assert Flatten(g) == Flatten(front) + open;
      assert Flatten(front) + (open + [w]) == Flatten(front) + open + [w];
    }
  }

  /** Order is kept and nothing is dropped or repeated: the groups together are
      exactly the input words. */
  lemma {:induction false} GroupsFlatten(words: seq<Word>, width: int)
    ensures Flatten(Groups(words, width)) == words
    decreases |words|
  {
    if words != [] {
      var init, w := words[..|words| - 1], words[|words| - 1];
      var g := Groups(init, width);
      assert Groups(words, width) == Place(g, w, width);
      GroupsFlatten(init, width);
      FlattenPlace(g, w, width);
      InitLast(words);
    }
  }

  /** A group yields at most one line, and an empty group none, so the
      filtered lines are never more than the words in the groups. */
  lemma {:induction false} AtMostOneLinePerWord(gs: seq<seq<Word>>)
    ensures |NonEmpty(Render(gs))| <= |Flatten(gs)|
    decreases |gs|
  {
    if gs != [] {
      var front, last := gs[..|gs| - 1], gs[|gs| - 1];
      var line := Join(Texts(last), " ");
      InitLast(gs);
      RenderAppend(front, last);
      NonEmptyAppend(Render(front), [line]);
      NonEmptySingle(line);
      AtMostOneLinePerWord(front);
      if last == [] {
        assert Texts(last) == [];
      }
    }
  }

  /** The last group ends with the last word. */
  lemma GroupsEndWithLastWord(words: seq<Word>, width: int)
    requires words != []
    ensures var g := Groups(words, width);
      g[|g| - 1] != [] && g[|g| - 1][|g[|g| - 1]| - 1] == words[|words| - 1]
  {
    var prev := Groups(words[..|words| - 1], width);
    var w := words[|words| - 1];
    var open := prev[|prev| - 1];
    if SumWidth(open) + w.width <= width {
      assert Groups(words, width)[|prev| - 1] == open + [w];
    }
  }

  /** Only the first group can be empty. */
  lemma {:induction false} GroupsNonEmpty(words: seq<Word>, width: int)
    ensures OnlyFirstMayBeEmpty(Groups(words, width))
    decreases |words|
  {
    if words != [] {
      var prev := Groups(words[..|words| - 1], width);
      GroupsNonEmpty(words[..|words| - 1], width);
      PlaceShape(prev, words[|words| - 1], width);
      var g := Groups(words, width);
      assert g == Place(prev, words[|words| - 1], width);
      forall k | 1 <= k < |g|
        ensures g[k] != []
      {
        if k < |prev| - 1 {
          assert g[k] == prev[k];
          assert prev[k] != [];
        } else if k == |prev| - 1 {
          assert g[k] == prev[k] || g[k] == prev[k] + [words[|words| - 1]];
        } else {
          assert g[k] == [words[|words| - 1]];
        }
      }
    }
  }

  /** The first group is empty exactly when there are no words or the first
      word alone is wider than the box. */
  lemma {:induction false} FirstGroupEmpty(words: seq<Word>, width: int)
    ensures Groups(words, width)[0] == [] <==> (words == [] || words[0].width > width)
    decreases |words|
  {
    if words != [] {
      var init := words[..|words| - 1];
      var prev := Groups(init, width);
      PlaceShape(prev, words[|words| - 1], width);
      if init == [] {
        assert SumWidth(prev[0]) == 0;
      } else {
        FirstGroupEmpty(init, width);
        GroupsEndWithLastWord(init, width);
        assert init[0] == words[0];
      }
    }
  }

  lemma SumWidthAppend(ws: seq<Word>, w: Word)
    ensures SumWidth(ws + [w]) == SumWidth(ws) + w.width
  {
    assert (ws + [w])[..|ws|] == ws;
  }

  /** Width bound: a line of two or more words fits the width; only a word on
      its own can be wider, and that raises no error. */
  lemma {:induction false} GroupsFitWidth(words: seq<Word>, width: int)
    ensures WithinWidth(Groups(words, width), width)
    decreases |words|
  {
    if words != [] {
      var prev := Groups(words[..|words| - 1], width);
      var w := words[|words| - 1];
      GroupsFitWidth(words[..|words| - 1], width);
      SumWidthAppend(prev[|prev| - 1], w);
      PlaceShape(prev, w, width);
      var g := Groups(words, width);
      assert g == Place(prev, w, width);
      forall k | 0 <= k < |g| && |g[k]| >= 2
        ensures SumWidth(g[k]) <= width
      {
        if k < |prev| - 1 {
          assert g[k] == prev[k];
        }
      }
    }
  }

  /** Greedy maximality: every line but the last is closed only because the
      first word of the next line would have taken it past the width. */
  lemma {:induction false} GroupsGreedy(words: seq<Word>, width: int)
    ensures Greedy(Groups(words, width), width)
    decreases |words|
  {
    if words != [] {
      var prev := Groups(words[..|words| - 1], width);
      var w := words[|words| - 1];
      var open := prev[|prev| - 1];
      GroupsGreedy(words[..|words| - 1], width);
      GroupsNonEmpty(words[..|words| - 1], width);
      PlaceShape(prev, w, width);
      var g := Groups(words, width);
      assert g == Place(prev, w, width);
      forall k | 0 <= k < |g| - 1
        ensures BreakForced(g, k, width)
      {
        if k < |prev| - 1 {
          assert BreakForced(prev, k, width);
          if k + 1 == |prev| - 1 && SumWidth(open) + w.width <= width {
            assert open != [];
            assert g[k + 1][0] == open[0];
          }
        }
      }
    }
  }

  /** What makes a grouping of `words` the greedy one, stated without the
      loop: the groups spell out the words in order, only the first may be
      empty (and it is empty exactly when there is no word or the first word
      alone is too wide), a group of two or more words fits, and every break is
      forced. */
  predicate IsGreedyPacking(p: seq<seq<Word>>, words: seq<Word>, width: int)
  {
    |p| >= 1 && Flatten(p) == words && OnlyFirstMayBeEmpty(p) &&
    (p[0] == [] <==> (words == [] || words[0].width > width)) &&
    WithinWidth(p, width) && Greedy(p, width)
  }

  /** The packing loop builds a greedy packing. */
  lemma GroupsIsGreedyPacking(words: seq<Word>, width: int)
    ensures IsGreedyPacking(Groups(words, width), words, width)
  {
    GroupsFlatten(words, width);
    GroupsNonEmpty(words, width);
    FirstGroupEmpty(words, width);
    GroupsFitWidth(words, width);
    GroupsGreedy(words, width);
  }

  /** Undoes one `Place`: the last word leaves the last group, and the group
      goes too if it becomes empty (unless it is the only one). */
  function Unplace(p: seq<seq<Word>>): (q: seq<seq<Word>>)
    requires |p| >= 1 && p[|p| - 1] != []
    ensures |q| >= 1
  {
    var last := p[|p| - 1];
    var h := last[..|last| - 1];
    if h == [] && |p| > 1 then p[..|p| - 1] else p[..|p| - 1] + [h]
  }

  /** In a greedy packing of some words the last group holds the last word,
      and removing it leaves a grouping of the other words. */
  lemma GreedyLastGroup(p: seq<seq<Word>>, words: seq<Word>, width: int)
    requires IsGreedyPacking(p, words, width) && words != []
    ensures p[|p| - 1] != []
    ensures p[|p| - 1][|p[|p| - 1]| - 1] == words[|words| - 1]
    ensures Flatten(Unplace(p)) == words[..|words| - 1]
  {
    var front, g := p[..|p| - 1], p[|p| - 1];
    assert p == front + [g];
    FlattenAppend(front, g);
    var h := g[..|g| - 1];
    assert g == h + [g[|g| - 1]];
    assert Flatten(front) + h + [g[|g| - 1]] == words;
    if h == [] && |p| > 1 {
      assert Unplace(p) == front;
    } else {
      FlattenAppend(front, h);
    }
  }

  lemma UnplaceOnlyFirstMayBeEmpty(p: seq<seq<Word>>, words: seq<Word>, width: int)
    requires IsGreedyPacking(p, words, width) && words != [] && p[|p| - 1] != []
    ensures OnlyFirstMayBeEmpty(Unplace(p))
  {
    GreedyLastGroup(p, words, width);
    var q := Unplace(p);
    forall k | 1 <= k < |q| ensures q[k] != [] {
      if k < |p| - 1 {
        assert q[k] == p[k];
      }
    }
  }

  lemma UnplaceFirstGroup(p: seq<seq<Word>>, words: seq<Word>, width: int)
    requires IsGreedyPacking(p, words, width) && words != [] && p[|p| - 1] != []
    ensures var init := words[..|words| - 1];
      Unplace(p)[0] == [] <==> (init == [] || init[0].width > width)
  {
    GreedyLastGroup(p, words, width);
    var init := words[..|words| - 1];
    var q := Unplace(p);
    if init != [] { assert init[0] == words[0]; }
    if |p| == 1 {
      assert q[0] == p[0][..|p[0]| - 1];
      if q[0] == [] {
        assert Flatten(q) == [] by { assert q == [[]]; }
      } else {
        assert init != [] by { assert Flatten(q) == q[0]; }
      }
    } else {
      assert q[0] == p[0];
      if init == [] {
        FlattenEmptyFirst(q);
      }
    }
  }

  lemma UnplaceWithinWidth(p: seq<seq<Word>>, words: seq<Word>, width: int)
    requires IsGreedyPacking(p, words, width) && words != [] && p[|p| - 1] != []
    ensures WithinWidth(Unplace(p), width)
  {
    GreedyLastGroup(p, words, width);
    var q := Unplace(p);
    var g := p[|p| - 1];
    forall k | 0 <= k < |q| && |q[k]| >= 2 ensures SumWidth(q[k]) <= width {
      if k < |p| - 1 {
        assert q[k] == p[k];
      } else {
        assert q[k] == g[..|g| - 1];
        SumWidthPrefix(g, |g| - 1);
      }
    }
  }

  lemma UnplaceGreedy(p: seq<seq<Word>>, words: seq<Word>, width: int)
    requires IsGreedyPacking(p, words, width) && words != [] && p[|p| - 1] != []
    ensures Greedy(Unplace(p), width)
  {
    GreedyLastGroup(p, words, width);
    var q := Unplace(p);
    var g := p[|p| - 1];
    forall k | 0 <= k < |q| - 1 ensures BreakForced(q, k, width) {
      assert BreakForced(p, k, width);
      assert q[k] == p[k];
      if k + 1 < |p| - 1 {
        assert q[k + 1] == p[k + 1];
      } else {
        assert q[k + 1] == g[..|g| - 1] && q[k + 1][0] == g[0];
      }
    }
  }

  /** Placing the last word again rebuilds the packing. */
  lemma PlaceUnplace(p: seq<seq<Word>>, words: seq<Word>, width: int)
    requires IsGreedyPacking(p, words, width) && words != [] && p[|p| - 1] != []
    ensures Place(Unplace(p), words[|words| - 1], width) == p
  {
    GreedyLastGroup(p, words, width);
    var x := words[|words| - 1];
    var g := p[|p| - 1];
    if |g| >= 2 {
      assert SumWidth(g) <= width;
      PlaceGrowsLastGroup(p, x, width);
    } else if |p| > 1 {
      assert BreakForced(p, |p| - 2, width);
      PlaceStartsGroup(p, x, width);
    } else {
      assert Flatten(p) == p[0];
      assert words[0] == x;
      assert g == [x] && p == [[x]];
      assert x.width <= width;
      var q: seq<seq<Word>> := [[]];
      assert q[..0] == [] && q[0] + [x] == [x];
      assert SumWidth(q[0]) == 0;
      assert Unplace(p) == q;
    }
  }

  lemma PlaceGrowsLastGroup(p: seq<seq<Word>>, x: Word, width: int)
    requires |p| >= 1 && |p[|p| - 1]| >= 2 && p[|p| - 1][|p[|p| - 1]| - 1] == x
    requires SumWidth(p[|p| - 1]) <= width
    ensures Place(Unplace(p), x, width) == p
  {
    var g := p[|p| - 1];
    var h := g[..|g| - 1];
    assert g == h + [x];
    SumWidthAppend(h, x);
    var q := Unplace(p);
    assert q == p[..|p| - 1] + [h];
    assert q[..|q| - 1] == p[..|p| - 1];
  }

  lemma PlaceStartsGroup(p: seq<seq<Word>>, x: Word, width: int)
    requires |p| >= 2 && p[|p| - 1] == [x]
    requires SumWidth(p[|p| - 2]) + x.width > width
    ensures Place(Unplace(p), x, width) == p
  {
    var g := p[|p| - 1];
    assert g[..|g| - 1] == [];
    assert Unplace(p) == p[..|p| - 1];
  }

  /** There is only one greedy packing, so it is the one the loop builds. */
  lemma {:induction false} GreedyPackingIsUnique(p: seq<seq<Word>>, words: seq<Word>, width: int)
    requires IsGreedyPacking(p, words, width)
    ensures p == Groups(words, width)
    decreases |words|
  {
    if words != [] {
      var init := words[..|words| - 1];
      GreedyLastGroup(p, words, width);
      UnplaceOnlyFirstMayBeEmpty(p, words, width);
      UnplaceFirstGroup(p, words, width);
      UnplaceWithinWidth(p, words, width);
      UnplaceGreedy(p, words, width);
      GreedyPackingIsUnique(Unplace(p), init, width);
      PlaceUnplace(p, words, width);
    }
  }

  /** Groups that spell out no words are all empty. */
  lemma {:induction false} FlattenEmptyFirst(gs: seq<seq<Word>>)
    requires gs != [] && Flatten(gs) == []
    ensures gs[0] == []
    decreases |gs|
  {
    if |gs| > 1 {
      assert gs[..|gs| - 1][0] == gs[0];
      FlattenEmptyFirst(gs[..|gs| - 1]);
    }
  }

  /** Sums of widths never shrink as words are added. */
  lemma {:induction false} SumWidthPrefix(ws: seq<Word>, n: nat)
    requires n <= |ws|
    ensures SumWidth(ws[..n]) <= SumWidth(ws)
    decreases |ws|
  {
    if n < |ws| {
      assert ws[..|ws| - 1][..n] == ws[..n];
      SumWidthPrefix(ws[..|ws| - 1], n);
    } else {
      assert ws[..n] == ws;
    }
  }

  /** Words whose widths add up to no more than the width make a single line. */
  lemma {:induction false} OneLineWhenFits(words: seq<Word>, width: int)
    requires SumWidth(words) <= width
    ensures Groups(words, width) == [words]
    decreases |words|
  {
    if words != [] {
      var init := words[..|words| - 1];
      SumWidthPrefix(words, |words| - 1);
      OneLineWhenFits(init, width);
      assert init + [words[|words| - 1]] == words;
    }
  }

  /** When all but the last word fit and the last one does not, the last word
      spills alone onto a second line. */
  lemma SpillLastWord(words: seq<Word>, width: int)
    requires words != []
    requires SumWidth(words[..|words| - 1]) <= width < SumWidth(words)
    ensures Groups(words, width) == [words[..|words| - 1], [words[|words| - 1]]]
  {
    OneLineWhenFits(words[..|words| - 1], width);
  }

  /** `n` words of width `k` each are `n * k` wide. */
  lemma {:induction false} UniformSumWidth(words: seq<Word>, k: nat)
    requires forall i :: 0 <= i < |words| ==> words[i].width == k
    ensures SumWidth(words) == |words| * k
    decreases |words|
  {
    if words != [] {
      UniformSumWidth(words[..|words| - 1], k);
    }
  }

  lemma JoinNonEmpty(parts: seq<string>, sep: string)
    requires parts != [] && parts[0] != []
    ensures Join(parts, sep) != []
  {
  }

  /** `n` equal words whose total width fits come out as one line, the words
      joined with spaces. */
  lemma MaxWordsOnOneLine(words: seq<Word>, k: nat, width: int)
    requires words != []
    requires forall i :: 0 <= i < |words| ==> words[i].width == k && words[i].text != []
    requires |words| * k <= width
    ensures Lines(words, width) == [Join(Texts(words), " ")]
  {
    UniformSumWidth(words, k);
    OneLineWhenFits(words, width);
    JoinNonEmpty(Texts(words), " ");
  }

  /** One equal word more than fits: the last word moves to a second line. */
  lemma OneWordTooMany(words: seq<Word>, k: nat, width: int)
    requires |words| >= 2
    requires forall i :: 0 <= i < |words| ==> words[i].width == k && words[i].text != []
    requires (|words| - 1) * k <= width < |words| * k
    ensures Lines(words, width) == [Join(Texts(words[..|words| - 1]), " "), words[|words| - 1].text]
  {
    var init, last := words[..|words| - 1], words[|words| - 1];
    UniformSumWidth(words, k);
    UniformSumWidth(init, k);
    SpillLastWord(words, width);
    JoinNonEmpty(Texts(init), " ");
    assert Texts([last]) == [last.text];
    var rendered := Render([init, [last]]);
    assert rendered == [Join(Texts(init), " "), last.text];
    KeepsNonEmpty(rendered);
  }

  /** Filtering lines that are all non-empty changes nothing. */
  lemma {:induction false} KeepsNonEmpty(lines: seq<string>)
    requires forall i :: 0 <= i < |lines| ==> lines[i] != []
    ensures NonEmpty(lines) == lines
    decreases |lines|
  {
    if lines != [] {
      var init, last := lines[..|lines| - 1], lines[|lines| - 1];
      KeepsNonEmpty(init);
      assert |last| > 0;
      assert NonEmpty(lines) == init + [last];
      assert init + [last] == lines;
    }
  }

  // ---------------------------------------------------------------------
  // Properties of the word split

  /** The words, joined with single spaces, give back the normalized text
      without its trailing run of spaces, which `split` drops whole. */
  lemma WordsRebuildText(text: string, widthOf: string -> nat)
    ensures var j := Join(Texts(Words(text, widthOf)), " ");
      var source := Normalize(text);
      |j| <= |source| && source[..|j|] == j &&
      (forall i :: |j| <= i < |source| ==> source[i] == ' ') &&
      (j == [] || source[|j| - 1] != ' ')
  {
    var pieces := JavaSplit(Normalize(text), ' ');
    assert Texts(Words(text, widthOf)) == pieces;
    JoinJavaSplit(Normalize(text), ' ');
    JoinJavaSplitEnd(Normalize(text), ' ');
  }

  /** Empty text is one empty word: `"".split(" ")` is `[""]`. */
  lemma WordsOfEmptyText(widthOf: string -> nat)
    ensures Words("", widthOf) == [Word("", widthOf(" "))]
  {
    assert JavaSplit("", '\n') == [""];
    assert Normalize("") == "";
    assert JavaSplit("", ' ') == [""];
    assert "" + " " == " ";
  }

  /** A lone empty word renders to empty lines only, all filtered away. */
  lemma EmptyWordNoLines(w: Word, width: int)
    requires w.text == ""
    ensures Lines([w], width) == []
  {
    var start: seq<seq<Word>> := [[]];
    assert [w][..0] == [];
    assert Groups([w], width) == Place(start, w, width);
    assert start[..0] == [] && start[0] == [];
    assert start[0] + [w] == [w];
    var g := Groups([w], width);
    assert g == [[], [w]] || g == [[w]];
    assert Texts([]) == [] && Texts([w]) == [""];
    var rendered := Render(g);
    assert rendered == ["", ""] || rendered == [""];
    var one: seq<string> := [""];
    var two: seq<string> := ["", ""];
    assert one[..0] == [] && two[..1] == one;
    assert NonEmpty(one) == [];
    assert NonEmpty(two) == [];
  }

  /** Empty text gives no lines. */
  lemma EmptyTextNoLines(widthOf: string -> nat, width: int)
    ensures Lines(Words("", widthOf), width) == []
  {
    WordsOfEmptyText(widthOf);
    EmptyWordNoLines(Word("", widthOf(" ")), width);
  }

  /** Empty text wrapped for boxes gives one empty list of lines. */
  lemma EmptyTextOneEmptyList(widthOf: string -> nat, boxes: seq<Box>)
    requires |boxes| > 0
    ensures Wrapped("", widthOf, boxes) == [[]]
  {
    EmptyTextNoLines(widthOf, boxes[0].width);
  }
}
