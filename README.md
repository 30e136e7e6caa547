# ScaleImageView: a verified model of the fit-bottom measure rule

`com.snaprix.views.ScaleImageView` is an Android `ImageView` that keeps the
aspect ratio of its image. On every measure pass it subtracts the paddings from
the measured size. Then it compares that space with the drawable's intrinsic size:

- **Fit bottom.** When the view is shorter and wider than the image, the view
  fills the width. It derives the aspect-preserving height
  `dheight * vwidth / dwidth`. It translates its matrix by
  `dy = vheight - height`, so the image's bottom edge sits on the view's bottom
  edge, and hands that matrix to `setImageMatrix`.
- **Pass-through.** Otherwise it records the available size as it is, and the
  matrix is left as it was.

Every draw pass sets the drawable's bounds to `(0, 0, width, height)` from the
latest measure pass.

The project has three modules:

- `JavaInt` (`java_int.dfy`) gives Java's 32-bit `int` semantics: wrap-around
  subtraction and multiplication, division that truncates toward zero, the
  `ArithmeticException` on a zero divisor, and `MIN_VALUE / -1`. Truncating
  division is proved against its remainder characterisation, and that
  characterisation is proved to determine the quotient uniquely. It also gives
  the widening of an `int` to `float` (`ToFloat`), which `Matrix.setTranslate`
  applies to `dy`.
- `MeasureRule` (`measure_rule.dfy`) is the pure arithmetic of `onMeasure`: the
  available size, the branch, the recorded size and the translation (`Measure`).
  It also gives one pass as a transition on the recorded state (`Step`). Lemmas
  prove:
  - the recorded height and matrices of every branch, in terms of the paddings
    and the intrinsic size;
  - the aspect bounds;
  - the bottom anchoring, for translations a `float` holds exactly;
  - that the image overhangs the top edge;
  - invariant preservation;
  - idempotence;
  - over any history of passes (`Replay`), that the matrix is always the
    translation of the most recent fit-bottom pass, because nothing resets it;
  - the worked examples, including the stale translation left by a pass-through
    pass.
- `ScaleImage` (`scale_image_view.dfy`) holds the class `ScaleImageView`. Its
  fields are `widthSize`, `heightSize`, `matrix` (for `mMatrix`) and
  `imageMatrix` (the matrix last passed to `setImageMatrix`). `OnMeasure` is
  proved against `MeasureRule.Step`. `OnDraw` sets the drawable's bounds from
  the sizes that the last measure pass recorded. Beside the view are
  a minimal `Drawable` and the `DebugSwitch` that stands for the static `DEBUG`
  flag.

The model follows the code on four points that are easy to misread:

- Heights are computed with Java's `/`, which truncates toward zero.
  - It differs from Dafny's Euclidean `/` when the product `dheight * vwidth`
    is negative and not a multiple of `dwidth`. For example, `-3 / -2` is 1,
    where Euclidean division gives 2 (`ExampleNegativeSizesTruncate`).
  - It differs from floor division when the product and `dwidth` have opposite
    signs and the division is not exact. For example, `3 / -2` is -1, where
    floor division gives -2 (`ExampleTruncationNotFloor`).
- A drawable whose intrinsic width is 0 can take the fit-bottom branch. The
  division then throws after `mWidthSize` has been assigned, so that pass
  records the new width and keeps the old height and matrix.
- The product `dheight * vwidth` is a 32-bit product and can wrap around.
- `Matrix` holds `float` entries. `setTranslate(0, dy)` rounds a `dy` beyond
  2^24 in magnitude to the nearest `float` (`ExampleTranslationRounded`).

## Model

| member | source | states |
|---|---|---|
| `JavaInt.Wrap` | app/src/main/java/com/snaprix/views/ScaleImageView.java:52-53 | the Java `int` result of an exact value: in range, congruent to it modulo 2^32, equal to it when it fits |
| `JavaInt.WrapAbsorbs` | app/src/main/java/com/snaprix/views/ScaleImageView.java:52-53 | wrapping an intermediate result (`measured - padLeft`) does not change the wrapped final result |
| `JavaInt.Sub` | app/src/main/java/com/snaprix/views/ScaleImageView.java:76 | Java `int` subtraction is an `int` and equals the exact difference when that fits |
| `JavaInt.Mul` | app/src/main/java/com/snaprix/views/ScaleImageView.java:70 | Java `int` multiplication is an `int` and equals the exact product when that fits |
| `JavaInt.Quot` | app/src/main/java/com/snaprix/views/ScaleImageView.java:70 | truncating division: the remainder is smaller than the divisor in magnitude and is zero or has the dividend's sign; the quotient's magnitude is `|a| / |b|` |
| `JavaInt.QuotUnique` | app/src/main/java/com/snaprix/views/ScaleImageView.java:70 | any quotient with those remainder properties is `Quot`, so they characterise Java's `/` |
| `JavaInt.QuotOfNonNegative` | app/src/main/java/com/snaprix/views/ScaleImageView.java:70 | on a non-negative dividend and a positive divisor, truncating and Euclidean division agree |
| `JavaInt.Div` | app/src/main/java/com/snaprix/views/ScaleImageView.java:70 | Java `/` fails exactly on a zero divisor; otherwise it is the truncating quotient, except that `MIN_VALUE / -1` is `MIN_VALUE` |
| `JavaInt.QuotBounded` | app/src/main/java/com/snaprix/views/ScaleImageView.java:70 | a truncating quotient of two `int`s fits in an `int`, except for `MIN_VALUE / -1` |
| `JavaInt.Ulp` | app/src/main/java/com/snaprix/views/ScaleImageView.java:76-77 | the spacing of `float` values is 1 below 2^24 and otherwise the power of two `u` with `2^23 * u <= a < 2^24 * u`, as a 24-bit significand gives |
| `JavaInt.ToFloat` | app/src/main/java/com/snaprix/views/ScaleImageView.java:76-77 | widening an `int` to `float` gives a multiple of the `float` spacing at that magnitude, the nearest one, the even one on a tie; it is exact up to magnitude 2^24 |
| `MeasureRule.Available` | app/src/main/java/com/snaprix/views/ScaleImageView.java:48-53 | the available size is `measured - before - after` wrapped to an `int`, and it is exactly that value when it fits |
| `MeasureRule.Measure` | app/src/main/java/com/snaprix/views/ScaleImageView.java:66-84 | the recorded width is always the available width; pass-through happens exactly when the view is not shorter-and-wider and records the available height; the division fault happens exactly in the fit-bottom branch with a zero intrinsic width; the fit-bottom height is the wrapped truncating quotient of the wrapped product `dheight * vwidth` by `dwidth`, and exactly that quotient when the product fits and is not `MIN_VALUE / -1`; `dy + height` equals the available height modulo 2^32 |
| `MeasureRule.FitBottomPreservesAspect` | app/src/main/java/com/snaprix/views/ScaleImageView.java:66-70 | with a positive intrinsic width, a non-negative intrinsic height and no overflow, the branch is fit bottom and the height is `dheight * vwidth / dwidth`, with `height * dwidth <= dheight * vwidth < (height + 1) * dwidth` |
| `MeasureRule.FitBottomOverhangsTop` | app/src/main/java/com/snaprix/views/ScaleImageView.java:66-77 | with a positive intrinsic width, a non-negative available height and no overflow, `vheight < dheight <= height` and `dy == vheight - height < 0` |
| `MeasureRule.Apply` | app/src/main/java/com/snaprix/views/ScaleImageView.java:66-84 | the width is always recorded; the height is recorded unless the pass threw, which keeps the old height; the matrices change only in fit bottom, where both become the translation `(0, dy)` with `dy` widened to `float` |
| `MeasureRule.MeasurePass` | app/src/main/java/com/snaprix/views/ScaleImageView.java:46-84 | the recorded width is the available width from the paddings; the pass passes through exactly when the available size is not shorter-and-wider, and then records the available height; it throws exactly when it is shorter-and-wider with a zero intrinsic width |
| `MeasureRule.Step` | app/src/main/java/com/snaprix/views/ScaleImageView.java:46-87 | the recorded width is the available width; when the view is not shorter-and-wider the height is the available height and both matrices stay; with a zero intrinsic width the height and matrices stay; otherwise the height is Java's `(dheight * vwidth) / dwidth` and both matrices become the translation by the `float` widening of `vheight - height` |
| `MeasureRule.StepPreservesConsistent` | app/src/main/java/com/snaprix/views/ScaleImageView.java:66-84 | every pass keeps `int` sizes, no horizontal translation, and an image matrix equal to the view's matrix |
| `MeasureRule.StepIdempotent` | app/src/main/java/com/snaprix/views/ScaleImageView.java:46-87 | a second pass with the same inputs leaves the sizes and both matrices unchanged |
| `MeasureRule.StepAnchorsBottom` | app/src/main/java/com/snaprix/views/ScaleImageView.java:66-80 | after a fit-bottom pass whose `vheight - height` a `float` holds exactly, the translation is vertical and `ty + height` is the available height, so the image's bottom edge meets the view's |
| `MeasureRule.MeasureInRange` | app/src/main/java/com/snaprix/views/ScaleImageView.java:66-84 | every measurement the rule produces holds Java `int` sizes and an `int` translation |
| `MeasureRule.ReplaySnoc` | app/src/main/java/com/snaprix/views/ScaleImageView.java:46-87 | replaying a history and then one more pass is applying that pass to the history's resulting state |
| `MeasureRule.ReplayKeepsLastTranslation` | app/src/main/java/com/snaprix/views/ScaleImageView.java:76-84 | after any history of passes, the matrix and the image matrix are both the translation of the most recent fit-bottom pass, or the starting matrix if no pass took that branch |
| `MeasureRule.ReplayPreservesConsistent` | app/src/main/java/com/snaprix/views/ScaleImageView.java:66-84 | any history of in-range measurements keeps the state consistent |
| `MeasureRule.ReplayRecordsLastPass` | app/src/main/java/com/snaprix/views/ScaleImageView.java:66-84 | after any non-empty history, the recorded width is that of the last pass, and so is the height unless that pass threw |
| `MeasureRule.ExampleTallImage` | app/src/main/java/com/snaprix/views/ScaleImageView.java:66-80 | container 1000x400 with image 200x1000 records 1000x5000 and translates by -4600 |
| `MeasureRule.ExampleTallContainer` | app/src/main/java/com/snaprix/views/ScaleImageView.java:81-84 | container 1000x2000 with image 200x1000 passes through at 1000x2000 |
| `MeasureRule.ExampleSmallImage` | app/src/main/java/com/snaprix/views/ScaleImageView.java:81-84 | container 500x500 with image 100x100 passes through at 500x500 |
| `MeasureRule.ExampleNegativeSizesTruncate` | app/src/main/java/com/snaprix/views/ScaleImageView.java:70 | with negative sizes the height quotient `-3 / -2` truncates to 1 |
| `MeasureRule.ExampleZeroWidthDrawable` | app/src/main/java/com/snaprix/views/ScaleImageView.java:66-70 | a zero intrinsic width in the fit-bottom branch throws after recording the width |
| `MeasureRule.ExampleProductOverflow` | app/src/main/java/com/snaprix/views/ScaleImageView.java:70 | `50000 * 50000` wraps around, so the recorded height is negative |
| `MeasureRule.ExampleNoIntrinsicWidth` | app/src/main/java/com/snaprix/views/ScaleImageView.java:57-70 | a drawable reporting width -1 (no intrinsic width) in a 100x10 container with height 50 records height -5000 and translates down by 5010 |
| `MeasureRule.ExampleTruncationNotFloor` | app/src/main/java/com/snaprix/views/ScaleImageView.java:70 | `3 / -2` truncates to -1, not to floor's -2 |
| `MeasureRule.ExampleTranslationRounded` | app/src/main/java/com/snaprix/views/ScaleImageView.java:76-77 | the translation 179496739 is stored as the `float` 179496736 |
| `MeasureRule.ExampleStaleTranslation` | app/src/main/java/com/snaprix/views/ScaleImageView.java:76-84 | a pass-through pass after a fit-bottom pass keeps the old translation of -4600 |
| `ScaleImage.ScaleImageView.constructor` | app/src/main/java/com/snaprix/views/ScaleImageView.java:41-43 | `init()` leaves zero sizes and identity matrices, and the invariant holds |
| `ScaleImage.ScaleImageView.OnMeasure` | app/src/main/java/com/snaprix/views/ScaleImageView.java:46-87 | the new sizes and matrices are `Step` of the old ones; the invariant is kept; it throws exactly when the available size is shorter and wider than the drawable and the intrinsic width is 0 |
| `ScaleImage.ScaleImageView.OnDraw` | app/src/main/java/com/snaprix/views/ScaleImageView.java:90-100 | the drawable's bounds become `(0, 0, widthSize, heightSize)`, and nothing in the view changes |
| `ScaleImage.DebugSwitch.constructor` | app/src/main/java/com/snaprix/views/ScaleImageView.java:15 | the debug flag starts off |
| `ScaleImage.DebugSwitch.SetDebug` | app/src/main/java/com/snaprix/views/ScaleImageView.java:16-18 | sets the flag and nothing else, so no view's sizes or matrices change |

## Left out

- `MeasureSpec.getSize` decoding: `OnMeasure` takes the decoded sizes as plain `int`s.
- `super.onMeasure` and `super.onDraw`: these are framework code that the view delegates to, and they are not part of this model. `Canvas` and rendering are also out.
- What `setImageMatrix` does on screen, including its dependence on the scale type: `imageMatrix` only records the matrix handed over.
- `android.graphics.Matrix` as a general affine transform: only `setTranslate(0, dy)` is ever used, so a translation pair stands for it. Its `float` entries are held as whole numbers, since widening an `int` gives one; no other `float` arithmetic is modelled.
- `DebugSwitch`: the flag is one process-wide `static` field, while the model gives it an object of its own. Two `DebugSwitch` objects are not tied together.
- `Log.v` and `String.format` output under `DEBUG`: this is logging only. The flag is modelled, and no measured or drawn value depends on it.
- The three constructors' `Context` and `AttributeSet` arguments: they only reach the framework. Their shared `init()` is the modelled constructor.
- The crash on a missing drawable: the `Drawable` parameters are non-null, so a drawable is always assigned.
- The `ArithmeticException` propagating to the host: `OnMeasure` reports it as `threw` and keeps the fields assigned before it.
- MeasureRule.FitBottomPreservesAspect: holds only for a positive intrinsic width, a non-negative intrinsic height and a product `dheight * vwidth` that fits in an `int`. Outside that, `Measure` gives the wrapped result as written, and `ExampleProductOverflow` shows one.
- MeasureRule.FitBottomOverhangsTop: holds for a positive intrinsic width, under the same no-overflow hypothesis, and for a non-negative available height. A negative available height can only come from paddings larger than the view, or from wrap-around (`Available(0, MIN_VALUE, 0)` is `MIN_VALUE`).
- MeasureRule.StepAnchorsBottom: holds only when `vheight - height` is at most 2^24 in magnitude. Beyond that the `float` translation is rounded and the bottom edges can be up to half the spacing apart, which is 64 pixels when `|dy|` lies in `[2^30, 2^31)` (`ExampleTranslationRounded`).
