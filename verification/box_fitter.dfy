/** `BoxFitterImpl`: finds the largest font size at which the wrapped text's
    lines fit the box heights, by bisection over `[0, MaxFontSize)`.

    The font factory and the rendering context are replaced by `Metrics`:
    the truncated width and height of a string rendered at a font size.
 */
module BoxFitter {
  import opened JavaStrings
  import opened TextLineWrap
  import StreamZipper

  /** `MAX_FONT_SIZE`: the exclusive upper end of the search. */
  const MaxFontSize: int := 10000

  /** String extents at a font size, each truncated to an integer as
      `Double.intValue` does. */
  datatype Metrics = Metrics(width: (int, string) -> nat, height: (int, string) -> nat)

  /** `FitEnvironment`: what stays fixed during one search. */
  datatype FitEnvironment = FitEnvironment(text: string, metrics: Metrics, boxes: seq<Box>)

  /** The outcome of `fit`: a size, or the "text is too long to fit" error. */
  datatype FitResult = Fitted(size: int) | TooLongToFit

  /** The width measure the word wrapper sees for the font of the given size. */
  function WidthAt(m: Metrics, size: int): string -> nat
  {
    s => m.width(size, s)
  }

  /** `lineSizes`: the height of each line with its surrounding whitespace stripped. */
  function LineSizes(m: Metrics, size: int, lines: seq<string>): (r: seq<nat>)
    ensures |r| == |lines|
    ensures forall i :: 0 <= i < |lines| ==> r[i] == m.height(size, Strip(lines[i]))
    decreases |lines|
  {
    if lines == [] then []
    else [m.height(size, Strip(lines[0]))] + LineSizes(m, size, lines[1..])
  }

  /** `wrapLines`: wrap the text for the boxes at this size and measure every line. */
  function WrapLines(e: FitEnvironment, size: int): (r: seq<seq<nat>>)
    requires |e.boxes| > 0
    ensures |r| == 1
    ensures r[0] == LineSizes(e.metrics, size, Wrapped(e.text, WidthAt(e.metrics, size), e.boxes)[0])
  {
    var perBox := Wrapped(e.text, WidthAt(e.metrics, size), e.boxes);
    seq(|perBox|, i requires 0 <= i < |perBox| => LineSizes(e.metrics, size, perBox[i]))
  }

  /** `sumLineHeights`: the total of the (already truncated) line heights. No
      single line is higher than the total, and the total is 0 exactly when
      every line is 0 high (in particular when there are no lines). */
  function SumLineHeights(heights: seq<nat>): (total: nat)
    ensures forall i :: 0 <= i < |heights| ==> heights[i] <= total
    ensures total == 0 <==> forall i :: 0 <= i < |heights| ==> heights[i] == 0
    ensures |heights| == 1 ==> total == heights[0]
    decreases |heights|
  {
    if heights == [] then 0 else heights[0] + SumLineHeights(heights[1..])
  }

  /** `tooManyLines`: some box, paired by index with the measured lines meant
      for it, gets lines whose heights add up to more than its height; boxes
      past the shorter of the two lists are ignored. */
  function TooManyLines(linesPerBox: seq<seq<nat>>, boxes: seq<Box>): (r: bool)
    ensures r <==> exists i :: 0 <= i < |linesPerBox| && i < |boxes| &&
                     SumLineHeights(linesPerBox[i]) > boxes[i].height
  {
    true in StreamZipper.Zip(linesPerBox, boxes,
                             (heights: seq<nat>, box: Box) => SumLineHeights(heights) > box.height)
  }

  /** One probe of the search: the text wrapped at `size` does not overflow.
      Only the first box matters: the text fits exactly when its lines, wrapped
      to the first box's width, add up to no more than that box's height. */
  predicate Fits(e: FitEnvironment, size: int)
    requires |e.boxes| > 0
    ensures Fits(e, size) <==>
      SumLineHeights(LineSizes(e.metrics, size, Lines(Words(e.text, WidthAt(e.metrics, size)), e.boxes[0].width)))
        <= e.boxes[0].height
  {
    !TooManyLines(WrapLines(e, size), e.boxes)
  }

  /** The probe as the search consumes it. The source also treats a
      `WordTooLong` or `NotEnoughSpace` thrown by the wrapper as "does not
      fit"; the wrapper never throws either, so that path is absent here. */
  function Probe(e: FitEnvironment): (fits: int -> bool)
    requires |e.boxes| > 0
    ensures forall size :: fits(size) == Fits(e, size)
  {
    size => Fits(e, size)
  }

  /** `fitMinMax`: bisection on `(min, max)`. A probe that fits moves `min` up
      to the midpoint, one that does not moves `max` down to it; the search
      stops when the two are adjacent and answers `min`. The result sits on
      the boundary: it is the starting `min` or fits, and the size above it is
      the starting `max` or does not fit. */
  function FitMinMax(min: int, max: int, fits: int -> bool): (r: int)
    requires 0 <= min < max
    ensures min <= r < max
    ensures r == min || fits(r)
    ensures r + 1 == max || !fits(r + 1)
    decreases max - min
  {
    var mid := (max + min) / 2;
    if mid == min && mid + 1 == max then mid
    else if !fits(mid) then FitMinMax(min, mid, fits)
    else FitMinMax(mid, max, fits)
  }

  /** `fit` over a list of boxes: the search from `(0, MaxFontSize)`, with any
      answer of 2 or less reported as too long to fit. */
  function Fit(text: string, metrics: Metrics, boxes: seq<Box>): (r: FitResult)
    requires |boxes| > 0
    ensures r.Fitted? ==> 3 <= r.size < MaxFontSize
    ensures r.Fitted? ==> Fits(FitEnvironment(text, metrics, boxes), r.size)
    ensures r.TooLongToFit? <==>
      FitMinMax(0, MaxFontSize, Probe(FitEnvironment(text, metrics, boxes))) <= 2
  {
    var size := FitMinMax(0, MaxFontSize, Probe(FitEnvironment(text, metrics, boxes)));
    if size <= 2 then TooLongToFit else Fitted(size)
  }

  /** `fit` for one box: the list form with that box alone. */
  function FitBox(text: string, metrics: Metrics, box: Box): (r: FitResult)
    ensures r.Fitted? ==> 3 <= r.size < MaxFontSize
    ensures r.Fitted? ==> Fits(FitEnvironment(text, metrics, [box]), r.size)
    ensures r == Fit(text, metrics, [box])
  {
    Fit(text, metrics, [box])
  }

  // ---------------------------------------------------------------------
  // Properties of the search

  /** A probe is monotone when whatever fits at a size also fits at every
      smaller size (the measurements grow with the font size). */
  ghost predicate Monotone(fits: int -> bool)
  {
    forall small, large :: 0 <= small <= large && fits(large) ==> fits(small)
  }

  /** With a monotone probe the search finds the boundary of the fitting sizes:
      everything above the starting `min` up to the result fits, and nothing
      between the result and `max` does. */
  lemma FitMinMaxIsLargest(min: int, max: int, fits: int -> bool)
    requires 0 <= min < max
    requires Monotone(fits)
    ensures forall s :: min < s <= FitMinMax(min, max, fits) ==> fits(s)
    ensures forall s :: FitMinMax(min, max, fits) < s < max ==> !fits(s)
  {
    var r := FitMinMax(min, max, fits);
    if r + 1 < max {
      assert !fits(r + 1);
    }
  }

  /** With a monotone probe, `fit` answers the largest size below
      `MaxFontSize` that fits, and reports "too long" exactly when no size
      from 3 upwards fits. */
  lemma FitIsLargest(text: string, metrics: Metrics, boxes: seq<Box>)
    requires |boxes| > 0
    requires Monotone(Probe(FitEnvironment(text, metrics, boxes)))
    ensures Fit(text, metrics, boxes).Fitted? ==>
      forall s :: Fit(text, metrics, boxes).size < s < MaxFontSize ==>
        !Fits(FitEnvironment(text, metrics, boxes), s)
    ensures Fit(text, metrics, boxes).TooLongToFit? <==>
      forall s :: 3 <= s < MaxFontSize ==> !Fits(FitEnvironment(text, metrics, boxes), s)
  {
    var fits := Probe(FitEnvironment(text, metrics, boxes));
    FitMinMaxIsLargest(0, MaxFontSize, fits);
  }

  // ---------------------------------------------------------------------
  // Properties of the probe

  /** Line heights add up over concatenation. */
  lemma {:induction false} SumLineHeightsAppend(a: seq<nat>, b: seq<nat>)
    ensures SumLineHeights(a + b) == SumLineHeights(a) + SumLineHeights(b)
    decreases |a|
  {
    if a == [] {
      assert a + b == b;
    } else {
      assert (a + b)[1..] == a[1..] + b;
      SumLineHeightsAppend(a[1..], b);
    }
  }
}
