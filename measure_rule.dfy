/** The arithmetic of `ScaleImageView.onMeasure`, lifted out of the view: the space
    left inside the paddings, the choice between the "fit bottom" and the
    "pass-through" layout, the recorded size and the vertical translation, and how
    one measure pass changes the view's recorded state. All arithmetic is Java
    `int` arithmetic. */
module MeasureRule {
  import opened JavaInt

  /** The four padding insets the view reports (`getPaddingLeft()` and so on). */
  datatype Insets = Insets(left: int, right: int, top: int, bottom: int)

  predicate InsetsAreInts(p: Insets) {
    IsInt(p.left) && IsInt(p.right) && IsInt(p.top) && IsInt(p.bottom)
  }

  /** The size left for content on one axis: `measured - before - after`,
      evaluated left to right in Java `int` arithmetic. */
  function Available(measured: int, before: int, after: int): (r: int)
    requires IsInt(measured) && IsInt(before) && IsInt(after)
    ensures IsInt(r)
    ensures r == Wrap(measured - before - after)
    ensures IsInt(measured - before - after) ==> r == measured - before - after
  {
    WrapAbsorbs(measured - before, -after);
    Sub(Sub(measured, before), after)
  }

  /** What one measure pass decides. `FitBottom` records the available width, the
      aspect-preserving height and the translation `dy`; `PassThrough` records the
      available size; `DivisionFault` is the `ArithmeticException` thrown by the
      height computation when the drawable's intrinsic width is zero, after the
      width has already been recorded. */
  datatype Measurement =
    | FitBottom(width: int, height: int, dy: int)
    | PassThrough(width: int, height: int)
    | DivisionFault(width: int)

  /** The branch condition: the view is shorter than the image and wider than it. */
  predicate ShorterAndWider(vwidth: int, vheight: int, dwidth: int, dheight: int) {
    vheight < dheight && dwidth < vwidth
  }

  /** The measure rule on the available size `vwidth` x `vheight` and the
      drawable's intrinsic size `dwidth` x `dheight`. */
  function Measure(vwidth: int, vheight: int, dwidth: int, dheight: int): (m: Measurement)
    requires IsInt(vwidth) && IsInt(vheight) && IsInt(dwidth) && IsInt(dheight)
    ensures m.width == vwidth
    ensures m.PassThrough? <==> !ShorterAndWider(vwidth, vheight, dwidth, dheight)
    ensures m.DivisionFault? <==> ShorterAndWider(vwidth, vheight, dwidth, dheight) && dwidth == 0
    ensures m.PassThrough? ==> m.height == vheight
    ensures m.FitBottom? ==> IsInt(m.height) && IsInt(m.dy)
    // the height is Java's `(dheight * vwidth) / dwidth`: the truncating quotient
    // of the wrapped product, itself wrapped (only `MinValue / -1` needs that)
    ensures m.FitBottom? ==> dwidth != 0 && m.height == Wrap(Quot(Mul(dheight, vwidth), dwidth))
    ensures m.FitBottom? && IsInt(dheight * vwidth) && !(dheight * vwidth == MinValue && dwidth == -1)
      ==> m.height == Quot(dheight * vwidth, dwidth)
    // the image's bottom edge lands on the container's bottom edge (modulo 2^32)
    ensures m.FitBottom? ==> Wrap(m.dy + m.height) == vheight
  {
    if ShorterAndWider(vwidth, vheight, dwidth, dheight) then
      match Div(Mul(dheight, vwidth), dwidth)
      case DivideByZero => DivisionFault(vwidth)
      case Value(height) =>
        WrapAbsorbs(vheight - height, height);
        FitBottom(vwidth, height, Sub(vheight, height))
    else
      PassThrough(vwidth, vheight)
  }

  /** With a positive intrinsic width, a non-negative intrinsic height and a product `dheight * vwidth` that does not
      overflow, the fit-bottom height is the truncated quotient
      `dheight * vwidth / dwidth`: the largest height whose aspect ratio does not
      exceed the image's. */
  lemma FitBottomPreservesAspect(vwidth: int, vheight: int, dwidth: int, dheight: int)
    requires IsInt(vwidth) && IsInt(vheight) && IsInt(dwidth) && IsInt(dheight)
    requires ShorterAndWider(vwidth, vheight, dwidth, dheight)
    requires 0 < dwidth && 0 <= dheight && IsInt(dheight * vwidth)
    ensures Measure(vwidth, vheight, dwidth, dheight).FitBottom?
    ensures Measure(vwidth, vheight, dwidth, dheight).height == dheight * vwidth / dwidth
    ensures var h := Measure(vwidth, vheight, dwidth, dheight).height;
      h * dwidth <= dheight * vwidth < (h + 1) * dwidth
  {
    var p := dheight * vwidth;
    assert 0 <= p by {
      if 0 < dheight { MulPositive(dheight, vwidth); }
    }
    QuotOfNonNegative(p, dwidth);
    var h := p / dwidth;
    assert p == h * dwidth + p % dwidth;
    assert (h + 1) * dwidth == h * dwidth + dwidth;
  }

  lemma MulPositive(x: int, y: int)
    requires 0 < x && 0 < y
    ensures 0 < x * y
  {
  }

  /** In the fit-bottom branch, with positive intrinsic sizes, a non-negative
      available height and no overflow, the recorded height is at least the
      image's own height, which exceeds the container's: the translation is
      negative, so the image overhangs the top and is anchored at the bottom. */
  lemma FitBottomOverhangsTop(vwidth: int, vheight: int, dwidth: int, dheight: int)
    requires IsInt(vwidth) && IsInt(vheight) && IsInt(dwidth) && IsInt(dheight)
    requires ShorterAndWider(vwidth, vheight, dwidth, dheight)
    requires 0 < dwidth && 0 <= vheight && IsInt(dheight * vwidth)
    ensures var m := Measure(vwidth, vheight, dwidth, dheight);
      m.FitBottom? && vheight < dheight <= m.height && m.dy == vheight - m.height < 0
  {
    FitBottomPreservesAspect(vwidth, vheight, dwidth, dheight);
    QuotientAtLeast(dheight, vwidth, dwidth, Measure(vwidth, vheight, dwidth, dheight).height);
  }

  /** A height whose successor overshoots the aspect ratio of a wider container
      is at least the image's own height. */
  lemma QuotientAtLeast(dheight: int, vwidth: int, dwidth: int, h: int)
    requires 0 < dwidth < vwidth && 0 < dheight
    requires dheight * vwidth < (h + 1) * dwidth
    ensures dheight <= h
  {
    assert dheight * dwidth < dheight * vwidth by {
      assert dheight * vwidth - dheight * dwidth == dheight * (vwidth - dwidth);
      MulPositive(dheight, vwidth - dwidth);
    }
  }

  /** The view's `android.graphics.Matrix`, of which only `setTranslate` is used.
      Its entries are `float`s; every value reached here is a whole number. */
  datatype Translation = Translation(tx: int, ty: int)

  /** A freshly created `Matrix` is the identity. */
  const Identity: Translation := Translation(0, 0)

  /** What the view records between passes: `mWidthSize`, `mHeightSize`, its own
      `mMatrix`, and the image matrix last handed to `setImageMatrix`. */
  datatype ViewState = ViewState(widthSize: int, heightSize: int, matrix: Translation, imageMatrix: Translation)

  /** The invariant every pass keeps: Java `int` sizes, a purely vertical
      translation, and an image matrix that is the view's own matrix. */
  predicate Consistent(s: ViewState) {
    IsInt(s.widthSize) && IsInt(s.heightSize)
    && s.matrix.tx == 0
    && s.imageMatrix == s.matrix
  }

  /** The state after `init()`: zero sizes and identity matrices. */
  const Initial: ViewState := ViewState(0, 0, Identity, Identity)

  /** The state a measurement leaves behind. The matrices change only in the
      fit-bottom branch; the pass-through branch and the division fault leave the
      translation of an earlier pass in place. `setTranslate(0, dy)` widens the
      `int` `dy` to `float`. */
  function Apply(s: ViewState, m: Measurement): (t: ViewState)
    ensures t.widthSize == m.width
    ensures !m.DivisionFault? ==> t.heightSize == m.height
    ensures m.DivisionFault? ==> t.heightSize == s.heightSize
    ensures !m.FitBottom? ==> t.matrix == s.matrix && t.imageMatrix == s.imageMatrix
    ensures m.FitBottom? ==> t.matrix == t.imageMatrix == Translation(0, ToFloat(m.dy))
  {
    match m
    case FitBottom(width, height, dy) =>
      var translated := Translation(0, ToFloat(dy));
      ViewState(width, height, translated, translated)
    case PassThrough(width, height) =>
      s.(widthSize := width, heightSize := height)
    case DivisionFault(width) =>
      s.(widthSize := width)
  }

  /** The measurement of one `onMeasure` pass, from the measured size, the
      paddings and the drawable's intrinsic size. */
  function MeasurePass(measuredWidth: int, measuredHeight: int, padding: Insets, dwidth: int, dheight: int): (m: Measurement)
    requires IsInt(measuredWidth) && IsInt(measuredHeight) && InsetsAreInts(padding)
    requires IsInt(dwidth) && IsInt(dheight)
    ensures m.width == Available(measuredWidth, padding.left, padding.right)
    ensures var vwidth, vheight := Available(measuredWidth, padding.left, padding.right),
                                   Available(measuredHeight, padding.top, padding.bottom);
      (m.PassThrough? <==> !ShorterAndWider(vwidth, vheight, dwidth, dheight))
      && (m.DivisionFault? <==> ShorterAndWider(vwidth, vheight, dwidth, dheight) && dwidth == 0)
    ensures m.PassThrough? ==> m.height == Available(measuredHeight, padding.top, padding.bottom)
  {
    Measure(Available(measuredWidth, padding.left, padding.right),
            Available(measuredHeight, padding.top, padding.bottom),
            dwidth, dheight)
  }

  /** One `onMeasure` pass as a state transition. The width is always the
      available width. Pass-through records the available height and keeps the
      matrices. With a zero intrinsic width the fit-bottom branch throws after
      recording the width, keeping the height and matrices. Otherwise fit bottom
      records Java's `(dheight * vwidth) / dwidth` and translates both matrices
      by `vheight - height`, widened to `float`. */
  function Step(s: ViewState, measuredWidth: int, measuredHeight: int, padding: Insets, dwidth: int, dheight: int): (t: ViewState)
    requires IsInt(measuredWidth) && IsInt(measuredHeight) && InsetsAreInts(padding)
    requires IsInt(dwidth) && IsInt(dheight)
    ensures t.widthSize == Available(measuredWidth, padding.left, padding.right)
    ensures var vwidth, vheight := Available(measuredWidth, padding.left, padding.right),
                                   Available(measuredHeight, padding.top, padding.bottom);
      !ShorterAndWider(vwidth, vheight, dwidth, dheight) ==>
        t.heightSize == vheight && t.matrix == s.matrix && t.imageMatrix == s.imageMatrix
    ensures var vwidth, vheight := Available(measuredWidth, padding.left, padding.right),
                                   Available(measuredHeight, padding.top, padding.bottom);
      ShorterAndWider(vwidth, vheight, dwidth, dheight) && dwidth == 0 ==>
        t.heightSize == s.heightSize && t.matrix == s.matrix && t.imageMatrix == s.imageMatrix
    ensures var vwidth, vheight := Available(measuredWidth, padding.left, padding.right),
                                   Available(measuredHeight, padding.top, padding.bottom);
      ShorterAndWider(vwidth, vheight, dwidth, dheight) && dwidth != 0 ==>
        t.heightSize == Wrap(Quot(Mul(dheight, vwidth), dwidth))
        && t.matrix == t.imageMatrix == Translation(0, ToFloat(Sub(vheight, t.heightSize)))
  {
    Apply(s, MeasurePass(measuredWidth, measuredHeight, padding, dwidth, dheight))
  }

  /** Every pass keeps the view's state consistent. */
  lemma StepPreservesConsistent(s: ViewState, measuredWidth: int, measuredHeight: int, padding: Insets, dwidth: int, dheight: int)
    requires IsInt(measuredWidth) && IsInt(measuredHeight) && InsetsAreInts(padding)
    requires IsInt(dwidth) && IsInt(dheight)
    requires Consistent(s)
    ensures Consistent(Step(s, measuredWidth, measuredHeight, padding, dwidth, dheight))
  {
  }

  /** Measuring a second time with the same inputs changes nothing. */
  lemma StepIdempotent(s: ViewState, measuredWidth: int, measuredHeight: int, padding: Insets, dwidth: int, dheight: int)
    requires IsInt(measuredWidth) && IsInt(measuredHeight) && InsetsAreInts(padding)
    requires IsInt(dwidth) && IsInt(dheight)
    ensures var t := Step(s, measuredWidth, measuredHeight, padding, dwidth, dheight);
      Step(t, measuredWidth, measuredHeight, padding, dwidth, dheight) == t
  {
  }

  /** After a fit-bottom pass whose translation fits in a `float` exactly
      (magnitude at most 2^24), the image's bottom edge lies on the container's:
      `ty + heightSize == vheight`. */
  lemma StepAnchorsBottom(s: ViewState, measuredWidth: int, measuredHeight: int, padding: Insets, dwidth: int, dheight: int)
    requires IsInt(measuredWidth) && IsInt(measuredHeight) && InsetsAreInts(padding)
    requires IsInt(dwidth) && IsInt(dheight)
    requires MeasurePass(measuredWidth, measuredHeight, padding, dwidth, dheight).FitBottom?
    requires Abs(Available(measuredHeight, padding.top, padding.bottom)
                 - Step(s, measuredWidth, measuredHeight, padding, dwidth, dheight).heightSize) <= 0x100_0000
    ensures var t := Step(s, measuredWidth, measuredHeight, padding, dwidth, dheight);
      t.matrix.tx == 0
      && t.matrix.ty + t.heightSize == Available(measuredHeight, padding.top, padding.bottom)
  {
  }

  // The host calls `onMeasure` again on every layout pass. A history of passes
  // is the sequence of their measurements (each one `MeasurePass` of that pass's
  // inputs), and the recorded state is `Apply` folded over it.

  /** The state after applying the measurements, in order, starting from `s`. */
  function Replay(s: ViewState, history: seq<Measurement>): ViewState
    decreases |history|
  {
    if history == [] then s else Replay(Apply(s, history[0]), history[1..])
  }

  /** The translation of the most recent fit-bottom measurement, or `initial` when
      there was none. */
  function LastTranslation(history: seq<Measurement>, initial: Translation): Translation
    decreases |history|
  {
    if history == [] then initial
    else
      match history[|history| - 1]
      case FitBottom(_, _, dy) => Translation(0, ToFloat(dy))
      case _ => LastTranslation(history[..|history| - 1], initial)
  }

  /** A measurement that `Measure` can produce from Java `int`s. */
  predicate InRange(m: Measurement) {
    IsInt(m.width)
    && (m.FitBottom? ==> IsInt(m.height) && IsInt(m.dy))
    && (m.PassThrough? ==> IsInt(m.height))
  }

  /** Replaying a history and then one more measurement is applying that
      measurement to the history's result. */
  lemma {:induction false} ReplaySnoc(s: ViewState, history: seq<Measurement>, m: Measurement)
    ensures Replay(s, history + [m]) == Apply(Replay(s, history), m)
    decreases |history|
  {
    if history == [] {
      assert [] + [m] == [m];
    } else {
      assert (history + [m])[1..] == history[1..] + [m];
      ReplaySnoc(Apply(s, history[0]), history[1..], m);
    }
  }

  /** After any history of passes, the view's matrix and the image matrix are
      the translation of the most recent fit-bottom pass: neither the
      pass-through branch nor a division fault ever resets them. */
  lemma {:induction false} ReplayKeepsLastTranslation(s: ViewState, history: seq<Measurement>)
    requires s.imageMatrix == s.matrix
    ensures Replay(s, history).matrix == LastTranslation(history, s.matrix)
    ensures Replay(s, history).imageMatrix == Replay(s, history).matrix
    decreases |history|
  {
    if history != [] {
      var earlier, last := history[..|history| - 1], history[|history| - 1];
      assert history == earlier + [last];
      ReplayKeepsLastTranslation(s, earlier);
      ReplaySnoc(s, earlier, last);
    }
  }

  /** Any history of measurements in `int` range keeps the state consistent. */
  lemma {:induction false} ReplayPreservesConsistent(s: ViewState, history: seq<Measurement>)
    requires Consistent(s)
    requires forall i :: 0 <= i < |history| ==> InRange(history[i])
    ensures Consistent(Replay(s, history))
    decreases |history|
  {
    if history != [] {
      assert InRange(history[0]);
      ReplayPreservesConsistent(Apply(s, history[0]), history[1..]);
    }
  }

  /** After a non-empty history the recorded width is that of the most recent
      pass, and so is the recorded height unless that pass threw. */
  lemma {:induction false} ReplayRecordsLastPass(s: ViewState, history: seq<Measurement>)
    requires history != []
    ensures var last := history[|history| - 1];
      Replay(s, history).widthSize == last.width
      && (!last.DivisionFault? ==> Replay(s, history).heightSize == last.height)
  {
    var earlier, last := history[..|history| - 1], history[|history| - 1];
    assert history == earlier + [last];
    ReplaySnoc(s, earlier, last);
  }

  /** `Measure` only produces measurements in `int` range. */
  lemma MeasureInRange(vwidth: int, vheight: int, dwidth: int, dheight: int)
    requires IsInt(vwidth) && IsInt(vheight) && IsInt(dwidth) && IsInt(dheight)
    ensures InRange(Measure(vwidth, vheight, dwidth, dheight))
  {
  }

  // Worked examples of the rule, including the edge cases of Java arithmetic.

  /** Container 1000x400, image 200x1000: fit bottom, height 5000, moved up 4600. */
  lemma ExampleTallImage()
    ensures Measure(1000, 400, 200, 1000) == FitBottom(1000, 5000, -4600)
  {
  }

  /** Container 1000x2000, image 200x1000: the container is tall enough. */
  lemma ExampleTallContainer()
    ensures Measure(1000, 2000, 200, 1000) == PassThrough(1000, 2000)
  {
  }

  /** Container 500x500, image 100x100: the container is tall enough. */
  lemma ExampleSmallImage()
    ensures Measure(500, 500, 100, 100) == PassThrough(500, 500)
  {
  }

  /** Paddings larger than the view make the available height negative: with a
      drawable of negative intrinsic size the quotient `-3 / -2` truncates to 1
      (Euclidean division would give 2). */
  lemma ExampleNegativeSizesTruncate()
    ensures Measure(3, -5, -2, -1) == FitBottom(3, 1, -6)
  {
  }

  /** A drawable with zero intrinsic width that takes the fit-bottom branch makes
      the height computation throw, after the width is recorded. */
  lemma ExampleZeroWidthDrawable()
    ensures Measure(100, 10, 0, 50) == DivisionFault(100)
  {
  }

  /** `dheight * vwidth` is an `int` product: 50000 * 50000 wraps to a negative
      number, and so does the recorded height. */
  lemma ExampleProductOverflow()
    ensures Measure(50000, 10, 10, 50000) == FitBottom(50000, -179496729, 179496739)
  {
  }

  /** A drawable with no intrinsic width reports -1: in the fit-bottom branch the
      height `5000 / -1` is negative and the image moves down. */
  lemma ExampleNoIntrinsicWidth()
    ensures Measure(100, 10, -1, 50) == FitBottom(100, -5000, 5010)
  {
  }

  /** Truncation is not floor division: `3 / -2` is -1 in Java, where floor
      division gives -2. */
  lemma ExampleTruncationNotFloor()
    ensures Measure(1, 0, -2, 3) == FitBottom(1, -1, 1)
  {
  }

  /** A translation above 2^24 is rounded when it is widened to `float`:
      179496739 lies between 2^27 and 2^28, where `float`s are 16 apart. */
  lemma ExampleTranslationRounded()
    ensures var none := Insets(0, 0, 0, 0);
      Step(Initial, 50000, 10, none, 10, 50000).matrix == Translation(0, 179496736)
  {
    ExampleProductOverflow();
  }

  /** The pass-through branch never resets the matrix: after a fit-bottom pass, a
      pass in a taller container keeps the old upward translation. */
  lemma ExampleStaleTranslation()
    ensures var none := Insets(0, 0, 0, 0);
      var first := Step(Initial, 1000, 400, none, 200, 1000);
      Step(first, 1000, 2000, none, 200, 1000)
        == ViewState(1000, 2000, Translation(0, -4600), Translation(0, -4600))
  {
  }
}
