/** `ScaleImageView` and the two collaborators it touches: the drawable whose
    bounds it sets and the process-wide debug flag. */
module ScaleImage {
  import opened JavaInt
  import opened MeasureRule

  /** A drawing rectangle `(left, top, right, bottom)`. */
  datatype Rect = Rect(left: int, top: int, right: int, bottom: int)

  /** The part of a drawable the view uses: its intrinsic size (-1 when it has
      none) and its bounds, which the view sets on every draw pass. */
  class Drawable {
    const intrinsicWidth: int
    const intrinsicHeight: int
    var bounds: Rect

    constructor (intrinsicWidth: int, intrinsicHeight: int)
      requires IsInt(intrinsicWidth) && IsInt(intrinsicHeight)
      ensures this.intrinsicWidth == intrinsicWidth && this.intrinsicHeight == intrinsicHeight
      ensures bounds == Rect(0, 0, 0, 0)
    {
      this.intrinsicWidth := intrinsicWidth;
      this.intrinsicHeight := intrinsicHeight;
      bounds := Rect(0, 0, 0, 0);
    }

    predicate HasIntSize()
    {
      IsInt(intrinsicWidth) && IsInt(intrinsicHeight)
    }

    method SetBounds(left: int, top: int, right: int, bottom: int)
      modifies this`bounds
      ensures bounds == Rect(left, top, right, bottom)
    {
      bounds := Rect(left, top, right, bottom);
    }
  }

  /** The static `DEBUG` flag. It only gates log output, which is not modelled. */
  class DebugSwitch {
    var debug: bool

    constructor ()
      ensures !debug
    {
      debug := false;
    }

    method SetDebug(debug: bool)
      modifies this
      ensures this.debug == debug
    {
      this.debug := debug;
    }
  }

  /** An image view that keeps the image's aspect ratio: when the view is shorter
      and wider than its image, it fills the width and translates the scaled image
      so that its bottom edge meets the view's bottom edge. */
  class ScaleImageView {
    var widthSize: int
    var heightSize: int
    var matrix: Translation
    var imageMatrix: Translation

    /** The recorded sizes and the two matrices, as one value. */
    function State(): ViewState
      reads this
    {
      ViewState(widthSize, heightSize, matrix, imageMatrix)
    }

    ghost predicate Valid()
      reads this
    {
      Consistent(State())
    }

    /** `init()`: a new identity matrix; the size fields start at Java's default 0. */
    constructor ()
      ensures Valid() && State() == Initial
    {
      widthSize, heightSize := 0, 0;
      matrix := Identity;
      imageMatrix := Identity;
    }

    /** `onMeasure` on the sizes decoded from the two measure specs, the paddings
        and the assigned drawable. `threw` reports the `ArithmeticException` of a
        zero intrinsic width in the fit-bottom branch; then the base class's
        `onMeasure` is not reached. */
    method OnMeasure(measuredWidth: int, measuredHeight: int, padding: Insets, drawable: Drawable)
      returns (threw: bool)
      requires Valid()
      requires IsInt(measuredWidth) && IsInt(measuredHeight) && InsetsAreInts(padding)
      requires drawable.HasIntSize()
      modifies this
      ensures Valid()
      ensures State() == Step(old(State()), measuredWidth, measuredHeight, padding,
                              drawable.intrinsicWidth, drawable.intrinsicHeight)
      ensures threw <==> ShorterAndWider(Available(measuredWidth, padding.left, padding.right),
                                         Available(measuredHeight, padding.top, padding.bottom),
                                         drawable.intrinsicWidth, drawable.intrinsicHeight)
                         && drawable.intrinsicWidth == 0
    {
      var vwidth := Sub(Sub(measuredWidth, padding.left), padding.right);
      var vheight := Sub(Sub(measuredHeight, padding.top), padding.bottom);
      var dwidth := drawable.intrinsicWidth;
      var dheight := drawable.intrinsicHeight;

      if vheight < dheight && dwidth < vwidth {
        widthSize := vwidth;
        var q := Div(Mul(dheight, vwidth), dwidth);
        if q.DivideByZero? {
          return true;
        }
        heightSize := q.value;
        var dy := Sub(vheight, heightSize);
        matrix := Translation(0, ToFloat(dy));  // setTranslate(0, dy) widens dy to float
        imageMatrix := matrix;
      } else {
        widthSize := vwidth;
        heightSize := vheight;
      }
      threw := false;
    }

    /** `onDraw`: the drawable's bounds become the size recorded by the most
        recent measure pass; the view itself is unchanged. */
    method OnDraw(drawable: Drawable)
      modifies drawable`bounds
      ensures drawable.bounds == Rect(0, 0, widthSize, heightSize)
    {
      drawable.SetBounds(0, 0, widthSize, heightSize);
    }
  }

  /** A client of the specifications above: the worked examples of the rule,
      played through one view, with the debug flag toggled in between. */
  method Scenario()
  {
    var flags := new DebugSwitch();
    var view := new ScaleImageView();
    var image := new Drawable(200, 1000);
    var none := Insets(0, 0, 0, 0);

    var threw := view.OnMeasure(1000, 400, none, image);
    ExampleTallImage();
    assert !threw && view.State() == ViewState(1000, 5000, Translation(0, -4600), Translation(0, -4600));

    flags.SetDebug(true);
    threw := view.OnMeasure(1000, 400, none, image);
    assert view.State() == ViewState(1000, 5000, Translation(0, -4600), Translation(0, -4600));

    view.OnDraw(image);
    assert image.bounds == Rect(0, 0, 1000, 5000);

    threw := view.OnMeasure(1000, 2000, none, image);
    ExampleTallContainer();
    assert view.State() == ViewState(1000, 2000, Translation(0, -4600), Translation(0, -4600));

    var blank := new Drawable(0, 50);
    threw := view.OnMeasure(100, 10, none, blank);
    ExampleZeroWidthDrawable();
    assert threw && view.State() == ViewState(100, 2000, Translation(0, -4600), Translation(0, -4600));
  }
}
