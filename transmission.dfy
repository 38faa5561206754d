/** The coarse transmission map of `Dehaze._get_transmission`: an
    uninitialised buffer the shape of the image is filled layer by layer
    with the image's channel divided by the matching component of the
    atmospheric light A, and the map is `1 - 0.95 * dark channel` of that
    buffer. */
module TransmissionStage {
  import opened Images
  import opened DarkChannelStage

  /** The haze-keeping factor omega. */
  const Omega: real := 0.95

  /** A can divide: none of its components is zero. */
  predicate NonZeroLight(a: Pixel) {
    a.b != 0.0 && a.g != 0.0 && a.r != 0.0
  }

  /** One pixel with each channel divided by its own component of A. */
  function NormalizedPixel(p: Pixel, a: Pixel): Pixel
    requires NonZeroLight(a)
  {
    Pixel(p.b / a.b, p.g / a.g, p.r / a.r)
  }

  /** The image with each channel divided by its own component of A. */
  function Normalized(img: Image, a: Pixel): (n: Image)
    requires IsRect(img) && NonZeroLight(a)
    ensures IsImage(n, |img|, Width(img))
    ensures forall i, j :: 0 <= i < |img| && 0 <= j < Width(img) ==> n[i][j] == NormalizedPixel(img[i][j], a)
  {
    seq(|img|, i requires 0 <= i < |img| =>
      seq(Width(img), j requires 0 <= j < Width(img) => NormalizedPixel(img[i][j], a)))
  }

  /** `1 - omega * d` at every entry of `d`. */
  function Complement(d: Grid, h: nat, w: nat): (t: Grid)
    requires IsGrid(d, h, w)
    ensures IsGrid(t, h, w)
    ensures forall i, j :: 0 <= i < h && 0 <= j < w ==> t[i][j] == 1.0 - Omega * d[i][j]
  {
    seq(h, i requires 0 <= i < h => seq(w, j requires 0 <= j < w => 1.0 - Omega * d[i][j]))
  }

  /** The coarse transmission of `img` under atmospheric light `a`. */
  function CoarseTransmission(img: Image, a: Pixel): (t: Grid)
    requires IsRect(img) && NonZeroLight(a)
    ensures IsGrid(t, |img|, Width(img))
  {
    Complement(DarkChannel(Normalized(img, a)), |img|, Width(img))
  }

  /** `img_t[:, :, layer] = img[:, :, layer] / A[0, layer]`: fills one layer
      of the buffer and leaves the other layers as they were. */
  method FillLayer(buf: array3<real>, img: Image, a: Pixel, layer: nat)
    requires IsImage(img, buf.Length0, buf.Length1) && buf.Length2 == 3 && layer < 3 && NonZeroLight(a)
    modifies buf
    ensures forall i, j :: 0 <= i < buf.Length0 && 0 <= j < buf.Length1 ==>
      buf[i, j, layer] == Channel(NormalizedPixel(img[i][j], a), layer)
    ensures forall i, j, c :: 0 <= i < buf.Length0 && 0 <= j < buf.Length1 && 0 <= c < 3 && c != layer ==>
      buf[i, j, c] == old(buf[i, j, c])
  {
    for i := 0 to buf.Length0
      invariant forall i', j :: 0 <= i' < i && 0 <= j < buf.Length1 ==>
        buf[i', j, layer] == Channel(NormalizedPixel(img[i'][j], a), layer)
      invariant forall i', j, c :: 0 <= i' < buf.Length0 && 0 <= j < buf.Length1 && 0 <= c < 3 && c != layer ==>
        buf[i', j, c] == old(buf[i', j, c])
    {
      for j := 0 to buf.Length1
        invariant forall i', j' :: 0 <= i' < i && 0 <= j' < buf.Length1 ==>
          buf[i', j', layer] == Channel(NormalizedPixel(img[i'][j'], a), layer)
        invariant forall j' :: 0 <= j' < j ==>
          buf[i, j', layer] == Channel(NormalizedPixel(img[i][j'], a), layer)
        invariant forall i', j', c :: 0 <= i' < buf.Length0 && 0 <= j' < buf.Length1 && 0 <= c < 3 && c != layer ==>
          buf[i', j', c] == old(buf[i', j', c])
      {
        buf[i, j, layer] := Channel(img[i][j], layer) / Channel(a, layer);
      }
    }
  }

  /** `_get_transmission(img, A)`: fills `img_t` one layer at a time, then
      takes the dark channel of the buffer. The result has the image's shape
      and is `1 - 0.95 * dark(I / A)` at every pixel. */
  method Transmission(img: Image, a: Pixel) returns (t: Grid)
    requires IsRect(img) && NonZeroLight(a)
    ensures IsGrid(t, |img|, Width(img))
    ensures forall i, j :: 0 <= i < |img| && 0 <= j < Width(img) ==>
      t[i][j] == 1.0 - Omega * DarkChannel(Normalized(img, a))[i][j]
    ensures t == CoarseTransmission(img, a)
  {
    var h, w := |img|, Width(img);
    var buf := new real[h, w, 3];
    for layer := 0 to 3
      invariant forall i, j, c :: 0 <= i < h && 0 <= j < w && 0 <= c < layer ==>
        buf[i, j, c] == Channel(NormalizedPixel(img[i][j], a), c)
    {
      FillLayer(buf, img, a, layer);
    }
    var normalized := ReadBuffer(buf);
    SameNormalized(img, a, normalized);
    t := Complement(DarkChannel(normalized), h, w);
  }

  lemma SameNormalized(img: Image, a: Pixel, m: Image)
    requires IsRect(img) && NonZeroLight(a) && IsImage(m, |img|, Width(img))
    requires forall i, j, c :: 0 <= i < |img| && 0 <= j < Width(img) && 0 <= c < 3 ==>
      Channel(m[i][j], c) == Channel(NormalizedPixel(img[i][j], a), c)
    ensures m == Normalized(img, a)
  {
    var n := Normalized(img, a);
    forall i | 0 <= i < |img| ensures m[i] == n[i] {
      forall j | 0 <= j < Width(img) ensures m[i][j] == n[i][j] {
        assert Channel(m[i][j], 0) == Channel(n[i][j], 0);
        assert Channel(m[i][j], 1) == Channel(n[i][j], 1);
        assert Channel(m[i][j], 2) == Channel(n[i][j], 2);
      }
    }
  }

  /** With non-negative samples and a positive A the normalised image is
      non-negative, so the coarse transmission never exceeds 1. */
  lemma TransmissionAtMostOne(img: Image, a: Pixel, i: nat, j: nat)
    requires IsRect(img) && a.b > 0.0 && a.g > 0.0 && a.r > 0.0
    requires forall i, j :: 0 <= i < |img| && 0 <= j < Width(img) ==>
      img[i][j].b >= 0.0 && img[i][j].g >= 0.0 && img[i][j].r >= 0.0
    requires i < |img| && j < Width(img)
    ensures CoarseTransmission(img, a)[i][j] <= 1.0
  {
    var n := Normalized(img, a);
    var x, y := DarkWitness(n, i, j);
    NormalizedBounds(img[x][y], a);
  }

  /** The transmission at a pixel is at least what that pixel alone
      suggests, `1 - 0.95 * min_c(I_c / A_c)`, because erosion only lowers
      the dark channel. */
  lemma TransmissionAtLeastPixelEstimate(img: Image, a: Pixel, i: nat, j: nat)
    requires IsRect(img) && NonZeroLight(a)
    requires i < |img| && j < Width(img)
    ensures CoarseTransmission(img, a)[i][j] >= 1.0 - Omega * ChannelMin(NormalizedPixel(img[i][j], a))
  {
    DarkBelowChannelMin(Normalized(img, a), i, j);
  }

  /** When no sample exceeds its component of a positive A, the transmission
      stays in [0.05, 1]. */
  lemma TransmissionBounds(img: Image, a: Pixel, i: nat, j: nat)
    requires IsRect(img) && a.b > 0.0 && a.g > 0.0 && a.r > 0.0
    requires forall i, j :: 0 <= i < |img| && 0 <= j < Width(img) ==>
      0.0 <= img[i][j].b <= a.b && 0.0 <= img[i][j].g <= a.g && 0.0 <= img[i][j].r <= a.r
    requires i < |img| && j < Width(img)
    ensures 1.0 - Omega <= CoarseTransmission(img, a)[i][j] <= 1.0
  {
    var n := Normalized(img, a);
    var x, y := DarkWitness(n, i, j);
    NormalizedBounds(img[x][y], a);
  }

  /** Dividing a non-negative sample by a positive component gives a
      non-negative value, at most 1 when the sample is at most the component. */
  lemma NormalizedBounds(p: Pixel, a: Pixel)
    requires a.b > 0.0 && a.g > 0.0 && a.r > 0.0
    requires p.b >= 0.0 && p.g >= 0.0 && p.r >= 0.0
    ensures ChannelMin(NormalizedPixel(p, a)) >= 0.0
    ensures p.b <= a.b && p.g <= a.g && p.r <= a.r ==> ChannelMin(NormalizedPixel(p, a)) <= 1.0
  {
    var q := NormalizedPixel(p, a);
    assert q.b >= 0.0 && q.g >= 0.0 && q.r >= 0.0;
    if p.b <= a.b && p.g <= a.g && p.r <= a.r {
      assert q.b <= 1.0;
    }
  }
}
