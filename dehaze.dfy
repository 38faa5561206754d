/** The sequencing of `Dehaze.run`: normalise the 8-bit image to [0, 1],
    take its dark channel, estimate the atmospheric light A, compute the
    coarse transmission, refine it against the original image, recover the
    radiance and scale it back by 255.

    The guided-filter refinement is an OpenCV box-filter computation and is
    a parameter `refine` here, assumed to return a map of the shape it is
    given, and `np.argsort` is a parameter `argsort` that may break ties
    among equal dark values in any way. Where the source would divide by
    zero and go on with IEEE infinities or NaN, or raise, the model returns
    a `DehazeError`. */
module DehazeRun {
  import opened Images
  import opened Wrappers
  import opened DarkChannelStage
  import opened AtmosphericLightStage
  import opened TransmissionStage
  import opened RecoveryStage

  datatype DehazeError =
    | EmptyImage          // no pixels: the source raises ValueError before it has an A
    | ZeroLightComponent  // a component of A is 0 (as for a black image): `I / A` divides by zero
    | ZeroDenominator     // `t + A_c` is 0 at some pixel: the recovery divides by zero

  /** The refinement keeps the shape of the map it is given. */
  ghost predicate PreservesShape(refine: (Image, Grid) -> Grid) {
    forall img: Image, t: Grid :: IsRect(img) && IsGrid(t, |img|, Width(img)) ==>
      IsGrid(refine(img, t), |img|, Width(img))
  }

  /** Every sample multiplied by `k`: `/ 255` on the way in, `* 255` on the way out. */
  function Scale(img: Image, k: real): (s: Image)
    requires IsRect(img)
    ensures IsImage(s, |img|, Width(img))
    ensures forall i, j :: 0 <= i < |img| && 0 <= j < Width(img) ==>
      s[i][j] == Pixel(img[i][j].b * k, img[i][j].g * k, img[i][j].r * k)
  {
    seq(|img|, i requires 0 <= i < |img| =>
      seq(Width(img), j requires 0 <= j < Width(img) =>
        Pixel(img[i][j].b * k, img[i][j].g * k, img[i][j].r * k)))
  }

  predicate NonNegative(img: Image) {
    forall i, j :: 0 <= i < |img| && 0 <= j < |img[i]| ==>
      img[i][j].b >= 0.0 && img[i][j].g >= 0.0 && img[i][j].r >= 0.0
  }

  /** What `Dehaze.run` stores in `filteredImage`, before the cast to uint8.
      It has the input's height and width and no negative sample, and fails
      with `EmptyImage` exactly when the image has no pixels. */
  function DehazeOf(image: Frame, refine: (Image, Grid) -> Grid, argsort: seq<real> -> seq<nat>): (r: Result<Image, DehazeError>)
    requires PreservesShape(refine) && SortsEveryKey(argsort)
    ensures r.Success? ==> IsImage(r.value, |image|, Width(image)) && NonNegative(r.value)
    ensures r == Failure(EmptyImage) <==> |image| == 0 || Width(image) == 0
  {
    var h, w := |image|, Width(image);
    var norm := Scale(image, 1.0 / 255.0);
    var dark := DarkChannel(norm);
    var order := argsort(Flatten(dark));
    match AtmosphericLight(norm, dark, order)
    case None => Failure(EmptyImage)
    case Some(a) =>
      if !NonZeroLight(a) then Failure(ZeroLightComponent)
      else
        var t := refine(image, CoarseTransmission(norm, a));
        if !Divisible(t, h, w, a) then Failure(ZeroDenominator)
        else
          var out := Scale(Recovered(norm, t, a), 255.0);
          RecoveredScaledNonNegative(norm, t, a);
          Success(out)
  }

  lemma RecoveredScaledNonNegative(img: Image, t: Grid, a: Pixel)
    requires IsRect(img) && IsGrid(t, |img|, Width(img)) && Divisible(t, |img|, Width(img), a)
    ensures NonNegative(Scale(Recovered(img, t, a), 255.0))
  {
    var rec := Recovered(img, t, a);
    var out: Image := Scale(rec, 255.0);
    forall i, j | 0 <= i < |out| && 0 <= j < |out[i]|
      ensures out[i][j].b >= 0.0 && out[i][j].g >= 0.0 && out[i][j].r >= 0.0
    {
      RecoveredPixel(img, t, a, i, j, 0);
      RecoveredPixel(img, t, a, i, j, 1);
      RecoveredPixel(img, t, a, i, j, 2);
    }
  }

  /** `Dehaze.run` on a loaded image: the same stages as `DehazeOf`, the
      transmission and the recovery computed by their buffer-filling methods. */
  method Dehaze(image: Frame, refine: (Image, Grid) -> Grid, argsort: seq<real> -> seq<nat>)
    returns (r: Result<Image, DehazeError>)
    requires PreservesShape(refine) && SortsEveryKey(argsort)
    ensures r == DehazeOf(image, refine, argsort)
  {
    var h, w := |image|, Width(image);
    var norm := Scale(image, 1.0 / 255.0);
    var dark := DarkChannel(norm);
    var order := argsort(Flatten(dark));
    var light := AtmosphericLight(norm, dark, order);
    if light.None? {
      return Failure(EmptyImage);
    }
    var a := light.value;
    if !NonZeroLight(a) {
      return Failure(ZeroLightComponent);
    }
    var tEst := Transmission(norm, a);
    var t := refine(image, tEst);
    if !Divisible(t, h, w, a) {
      return Failure(ZeroDenominator);
    }
    var recovered := Recover(norm, t, a);
    r := Success(Scale(recovered, 255.0));
  }

  /** On an 8-bit image A is a pixel of the normalised image, so its
      components lie in [0, 1] and every recovery denominator is at least
      0.1: the recovery never divides by zero. */
  lemma ByteImageNeverZeroDenominator(image: Frame, refine: (Image, Grid) -> Grid, argsort: seq<real> -> seq<nat>)
    requires PreservesShape(refine) && SortsEveryKey(argsort) && IsByteImage(image)
    ensures DehazeOf(image, refine, argsort) != Failure(ZeroDenominator)
  {
    var h, w := |image|, Width(image);
    var norm := Scale(image, 1.0 / 255.0);
    var dark := DarkChannel(norm);
    var order := argsort(Flatten(dark));
    var light := AtmosphericLight(norm, dark, order);
    if light.Some? && NonZeroLight(light.value) {
      var a := light.value;
      LightNonNegative(image, norm, dark, order);
      var t := refine(image, CoarseTransmission(norm, a));
      NonNegativeLightDivides(t, h, w, a);
    }
  }

  /** A taken from a normalised 8-bit image has no negative component. */
  lemma LightNonNegative(image: Frame, norm: Image, dark: Grid, order: seq<nat>)
    requires IsByteImage(image) && norm == Scale(image, 1.0 / 255.0)
    requires IsGrid(dark, |norm|, Width(norm)) && IsArgsort(Flatten(dark), order)
    ensures AtmosphericLight(norm, dark, order).Some? ==>
      var a := AtmosphericLight(norm, dark, order).value;
      a.b >= 0.0 && a.g >= 0.0 && a.r >= 0.0
  {
    var light := AtmosphericLight(norm, dark, order);
    if light.Some? {
      var a := light.value;
      assert a in Flatten(norm);
      FlattenMember(norm, a);
      var i, j :| 0 <= i < |norm| && 0 <= j < |norm[i]| && norm[i][j] == a;
      assert norm[i][j] == Pixel(image[i][j].b / 255.0, image[i][j].g / 255.0, image[i][j].r / 255.0);
    }
  }

  /** Floored transmission is at least 0.1, so adding a non-negative
      component of A never gives zero. */
  lemma NonNegativeLightDivides(t: Grid, h: nat, w: nat, a: Pixel)
    requires IsGrid(t, h, w) && a.b >= 0.0 && a.g >= 0.0 && a.r >= 0.0
    ensures Divisible(t, h, w, a)
  {
    forall i, j, c | 0 <= i < h && 0 <= j < w && 0 <= c < 3
      ensures Max(t[i][j], T0) + Channel(a, c) != 0.0
    {
      assert Channel(a, c) >= 0.0;
    }
  }
}
