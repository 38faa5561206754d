/** The dark channel of `Dehaze._get_dark_channel`: the per-pixel minimum of
    the three channels, followed by an erosion with a 15 x 15 rectangular
    structuring element anchored at its centre. OpenCV's default border for
    erosion leaves out-of-image neighbours out of the minimum, so the window
    is the square of offsets -7..+7 clipped to the image. */
module DarkChannelStage {
  import opened Images

  /** Half the side of the 15 x 15 structuring element. */
  const Radius: nat := 7

  function ChannelMin(p: Pixel): (m: real)
    ensures m <= p.b && m <= p.g && m <= p.r
    ensures m == p.b || m == p.g || m == p.r
  {
    Min(Min(p.b, p.g), p.r)
  }

  /** Position `k` lies in the window of offsets -Radius..+Radius around `c`. */
  predicate Near(c: int, k: int) {
    c - Radius <= k <= c + Radius
  }

  /** First row (or column) of the window around `c`, clipped at 0. */
  function WindowLo(c: nat): (lo: nat)
    ensures lo <= c && Near(c, lo)
    ensures forall k: nat :: Near(c, k) ==> lo <= k
  {
    if c >= Radius then c - Radius else 0
  }

  /** One past the last row (or column) of the window around `c`, clipped at `n`. */
  function WindowHi(c: nat, n: nat): (hi: nat)
    requires c < n
    ensures c < hi <= n && hi <= c + Radius + 1
    ensures forall k: nat :: Near(c, k) && k < n ==> k < hi
  {
    if c + Radius + 1 <= n then c + Radius + 1 else n
  }

  /** The minimum of `row[c0..c1]`. */
  function RowMin(row: seq<real>, c0: nat, c1: nat): (r: real)
    requires c0 < c1 <= |row|
    ensures forall j :: c0 <= j < c1 ==> r <= row[j]
    ensures exists j :: c0 <= j < c1 && r == row[j]
    decreases c1 - c0
  {
    if c1 == c0 + 1 then row[c0] else Min(RowMin(row, c0, c1 - 1), row[c1 - 1])
  }

  /** The minimum of the block of rows `r0..r1` and columns `c0..c1` of `m`. */
  function BlockMin(m: Grid, r0: nat, r1: nat, c0: nat, c1: nat): (r: real)
    requires r0 < r1 <= |m| && c0 < c1
    requires forall i :: r0 <= i < r1 ==> c1 <= |m[i]|
    ensures forall i, j :: r0 <= i < r1 && c0 <= j < c1 ==> r <= m[i][j]
    ensures exists i, j :: r0 <= i < r1 && c0 <= j < c1 && r == m[i][j]
    decreases r1 - r0
  {
    if r1 == r0 + 1 then RowMin(m[r0], c0, c1)
    else Min(BlockMin(m, r0, r1 - 1, c0, c1), RowMin(m[r1 - 1], c0, c1))
  }

  /** `dark = cv2.min(cv2.min(blue, green), red)`. */
  function ChannelMinGrid(img: Image): (m: Grid)
    requires IsRect(img)
    ensures IsGrid(m, |img|, Width(img))
    ensures forall i, j :: 0 <= i < |img| && 0 <= j < Width(img) ==> m[i][j] == ChannelMin(img[i][j])
  {
    seq(|img|, i requires 0 <= i < |img| =>
      seq(Width(img), j requires 0 <= j < Width(img) => ChannelMin(img[i][j])))
  }

  /** `cv2.erode(m, 15 x 15 rectangle)` with the window clipped to the map. */
  function Erode(m: Grid, h: nat, w: nat): (e: Grid)
    requires IsGrid(m, h, w)
    ensures IsGrid(e, h, w)
  {
    seq(h, i requires 0 <= i < h =>
      seq(w, j requires 0 <= j < w =>
        BlockMin(m, WindowLo(i), WindowHi(i, h), WindowLo(j), WindowHi(j, w))))
  }

  /** `v` is the minimum channel minimum over the window around (i, j): no
      pixel of the window has a smaller one, and some pixel of it has `v`. */
  ghost predicate IsWindowMin(img: Image, i: nat, j: nat, v: real)
    requires IsRect(img)
  {
    && (forall i2, j2 :: 0 <= i2 < |img| && 0 <= j2 < Width(img) && Near(i, i2) && Near(j, j2) ==>
          v <= ChannelMin(img[i2][j2]))
    && (exists i2, j2 :: 0 <= i2 < |img| && 0 <= j2 < Width(img) && Near(i, i2) && Near(j, j2) &&
          v == ChannelMin(img[i2][j2]))
  }

  /** The dark channel: same height and width as the image, and at each pixel
      the minimum channel minimum over the window of offsets -7..+7 around
      it, clipped to the image. */
  function DarkChannel(img: Image): (d: Grid)
    requires IsRect(img)
    ensures IsGrid(d, |img|, Width(img))
    ensures forall i, j :: 0 <= i < |img| && 0 <= j < Width(img) ==> IsWindowMin(img, i, j, d[i][j])
  {
    var d := Erode(ChannelMinGrid(img), |img|, Width(img));
    ErodeIsWindowMin(img, d);
    d
  }

  lemma ErodeIsWindowMin(img: Image, d: Grid)
    requires IsRect(img) && d == Erode(ChannelMinGrid(img), |img|, Width(img))
    ensures forall i, j :: 0 <= i < |img| && 0 <= j < Width(img) ==> IsWindowMin(img, i, j, d[i][j])
  {
    forall i, j | 0 <= i < |img| && 0 <= j < Width(img)
      ensures IsWindowMin(img, i, j, d[i][j])
    {
      ErodeAt(img, d, i, j);
    }
  }

  lemma ErodeAt(img: Image, d: Grid, i: nat, j: nat)
    requires IsRect(img) && d == Erode(ChannelMinGrid(img), |img|, Width(img))
    requires i < |img| && j < Width(img)
    ensures IsWindowMin(img, i, j, d[i][j])
  {
    var h, w := |img|, Width(img);
    var m := ChannelMinGrid(img);
    var r0, r1, c0, c1 := WindowLo(i), WindowHi(i, h), WindowLo(j), WindowHi(j, w);
    var v := BlockMin(m, r0, r1, c0, c1);
    assert d[i][j] == v;
    var a, b :| r0 <= a < r1 && c0 <= b < c1 && v == m[a][b];
    assert Near(i, a) && Near(j, b) && v == ChannelMin(img[a][b]);
  }

  /** Erosion never raises a value: the dark channel at a pixel is at most
      the smallest of that pixel's own three samples. */
  lemma DarkBelowChannelMin(img: Image, i: nat, j: nat)
    requires IsRect(img) && i < |img| && j < Width(img)
    ensures DarkChannel(img)[i][j] <= ChannelMin(img[i][j])
    ensures DarkChannel(img)[i][j] <= img[i][j].b
    ensures DarkChannel(img)[i][j] <= img[i][j].g
    ensures DarkChannel(img)[i][j] <= img[i][j].r
  {
    assert IsWindowMin(img, i, j, DarkChannel(img)[i][j]);
    assert Near(i, i) && Near(j, j);
  }

  /** The pixel of the window around (i, j) whose channel minimum the dark
      channel takes there. */
  lemma DarkWitness(img: Image, i: nat, j: nat) returns (a: nat, b: nat)
    requires IsRect(img) && i < |img| && j < Width(img)
    ensures a < |img| && b < Width(img) && Near(i, a) && Near(j, b)
    ensures DarkChannel(img)[i][j] == ChannelMin(img[a][b])
  {
    var v := DarkChannel(img)[i][j];
    assert IsWindowMin(img, i, j, v);
    a, b :| 0 <= a < |img| && 0 <= b < Width(img) && Near(i, a) && Near(j, b) && v == ChannelMin(img[a][b]);
  }

  /** When neither side exceeds 8 pixels every window covers the whole image,
      so the dark channel is one value everywhere: the smallest channel
      minimum of the whole image. */
  lemma {:induction false} SmallImageUniform(img: Image, i: nat, j: nat, i2: nat, j2: nat)
    requires IsRect(img) && |img| <= Radius + 1 && Width(img) <= Radius + 1
    requires i < |img| && j < Width(img) && i2 < |img| && j2 < Width(img)
    ensures DarkChannel(img)[i][j] == DarkChannel(img)[i2][j2]
    ensures DarkChannel(img)[i][j] <= ChannelMin(img[i2][j2])
  {
    var d := DarkChannel(img);
    var a, b := DarkWitness(img, i2, j2);
    var a', b' := DarkWitness(img, i, j);
    assert IsWindowMin(img, i, j, d[i][j]) && IsWindowMin(img, i2, j2, d[i2][j2]);
    assert Near(i, a) && Near(j, b) && Near(i2, a') && Near(j2, b') && Near(i, i2) && Near(j, j2);
  }

  /** An image whose pixels all hold one triple has a dark channel equal to
      that triple's smallest sample everywhere, whatever its size. */
  lemma UniformImageDark(img: Image, p: Pixel, i: nat, j: nat)
    requires IsRect(img) && i < |img| && j < Width(img)
    requires forall i, j :: 0 <= i < |img| && 0 <= j < Width(img) ==> img[i][j] == p
    ensures DarkChannel(img)[i][j] == ChannelMin(p)
  {
    var a, b := DarkWitness(img, i, j);
  }
}
