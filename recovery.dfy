/** The radiance recovery of `Dehaze._recover`, as the code computes it.

    The transmission is first floored at 0.1 (`cv2.max(t, 0.1)`). Then, layer
    by layer, the buffer gets `I_c - A_c` and is divided in place by
    `t + A_c`; finally every negative entry is set to 0. Note the
    denominator: the code divides by `t + A_c`, which is not the inversion
    `(I_c - A_c) / t + A_c` of the haze model `I = J t + A (1 - t)`;
    `RecoveryIsNotHazeInverse` exhibits the difference. */
module RecoveryStage {
  import opened Images

  /** The floor on the transmission. */
  const T0: real := 0.1

  /** `cv2.max(t, 0.1)`. */
  function Floored(t: Grid, h: nat, w: nat): (f: Grid)
    requires IsGrid(t, h, w)
    ensures IsGrid(f, h, w)
    ensures forall i, j :: 0 <= i < h && 0 <= j < w ==> f[i][j] >= T0
    ensures forall i, j :: 0 <= i < h && 0 <= j < w ==> f[i][j] == t[i][j] || f[i][j] == T0
    ensures forall i, j :: 0 <= i < h && 0 <= j < w && t[i][j] >= T0 ==> f[i][j] == t[i][j]
  {
    seq(h, i requires 0 <= i < h => seq(w, j requires 0 <= j < w => Max(t[i][j], T0)))
  }

  /** The denominators `t + A_c` of every pixel are non-zero, so the code's
      division is defined; it is the case whenever A has no component below
      -0.1, in particular for every A taken from a normalised 8-bit image. */
  predicate Divisible(t: Grid, h: nat, w: nat, a: Pixel)
    requires IsGrid(t, h, w)
  {
    forall i, j, c :: 0 <= i < h && 0 <= j < w && 0 <= c < 3 ==>
      Max(t[i][j], T0) + Channel(a, c) != 0.0
  }

  /** One recovered sample: `(x - a) / (max(t, 0.1) + a)`, then 0 if negative. */
  function RecoverSample(x: real, t: real, a: real): (r: real)
    requires Max(t, T0) + a != 0.0
    ensures r >= 0.0
  {
    var v := (x - a) / (Max(t, T0) + a);
    if v < 0.0 then 0.0 else v
  }

  function RecoverPixel(p: Pixel, t: real, a: Pixel): (q: Pixel)
    requires forall c :: 0 <= c < 3 ==> Max(t, T0) + Channel(a, c) != 0.0
    ensures forall c :: 0 <= c < 3 ==> Channel(q, c) == RecoverSample(Channel(p, c), t, Channel(a, c))
  {
    assert Max(t, T0) + a.b != 0.0 && Max(t, T0) + a.g != 0.0 && Max(t, T0) + a.r != 0.0 by {
      assert Channel(a, 0) == a.b && Channel(a, 1) == a.g && Channel(a, 2) == a.r;
    }
    Pixel(RecoverSample(p.b, t, a.b), RecoverSample(p.g, t, a.g), RecoverSample(p.r, t, a.r))
  }

  /** The recovered image, pixel by pixel. */
  function Recovered(img: Image, t: Grid, a: Pixel): (out: Image)
    requires IsRect(img) && IsGrid(t, |img|, Width(img)) && Divisible(t, |img|, Width(img), a)
    ensures IsImage(out, |img|, Width(img))
    ensures forall i, j :: 0 <= i < |img| && 0 <= j < Width(img) ==> out[i][j] == RecoverPixel(img[i][j], t[i][j], a)
  {
    seq(|img|, i requires 0 <= i < |img| =>
      seq(Width(img), j requires 0 <= j < Width(img) => RecoverPixel(img[i][j], t[i][j], a)))
  }

  /** The value left in the buffer by the subtract-then-divide steps, before
      negatives are cleared. */
  function Quotient(x: real, f: real, a: real): real
    requires f + a != 0.0
  {
    (x - a) / (f + a)
  }

  /** `img_t[:, :, layer] = img[:, :, layer] - A[0, layer]` followed by
      `img_t[:, :, layer] /= t + A[0, layer]`; other layers are untouched. */
  method RecoverLayer(buf: array3<real>, img: Image, f: Grid, a: Pixel, layer: nat)
    requires IsImage(img, buf.Length0, buf.Length1) && IsGrid(f, buf.Length0, buf.Length1)
    requires buf.Length2 == 3 && layer < 3
    requires forall i, j :: 0 <= i < buf.Length0 && 0 <= j < buf.Length1 ==> f[i][j] + Channel(a, layer) != 0.0
    modifies buf
    ensures forall i, j :: 0 <= i < buf.Length0 && 0 <= j < buf.Length1 ==>
      buf[i, j, layer] == Quotient(Channel(img[i][j], layer), f[i][j], Channel(a, layer))
    ensures forall i, j, c :: 0 <= i < buf.Length0 && 0 <= j < buf.Length1 && 0 <= c < 3 && c != layer ==>
      buf[i, j, c] == old(buf[i, j, c])
  {
    var h, w := buf.Length0, buf.Length1;
    var al := Channel(a, layer);
    for i := 0 to h
      invariant forall i', j :: 0 <= i' < i && 0 <= j < w ==> buf[i', j, layer] == Channel(img[i'][j], layer) - al
      invariant forall i', j, c :: 0 <= i' < h && 0 <= j < w && 0 <= c < 3 && c != layer ==>
        buf[i', j, c] == old(buf[i', j, c])
    {
      for j := 0 to w
        invariant forall i', j' :: 0 <= i' < i && 0 <= j' < w ==> buf[i', j', layer] == Channel(img[i'][j'], layer) - al
        invariant forall j' :: 0 <= j' < j ==> buf[i, j', layer] == Channel(img[i][j'], layer) - al
        invariant forall i', j', c :: 0 <= i' < h && 0 <= j' < w && 0 <= c < 3 && c != layer ==>
          buf[i', j', c] == old(buf[i', j', c])
      {
        buf[i, j, layer] := Channel(img[i][j], layer) - al;
      }
    }
    for i := 0 to h
      invariant forall i', j :: 0 <= i' < i && 0 <= j < w ==>
        buf[i', j, layer] == Quotient(Channel(img[i'][j], layer), f[i'][j], al)
      invariant forall i', j :: i <= i' < h && 0 <= j < w ==> buf[i', j, layer] == Channel(img[i'][j], layer) - al
      invariant forall i', j, c :: 0 <= i' < h && 0 <= j < w && 0 <= c < 3 && c != layer ==>
        buf[i', j, c] == old(buf[i', j, c])
    {
      for j := 0 to w
        invariant forall i', j' :: 0 <= i' < i && 0 <= j' < w ==>
          buf[i', j', layer] == Quotient(Channel(img[i'][j'], layer), f[i'][j'], al)
        invariant forall j' :: 0 <= j' < j ==>
          buf[i, j', layer] == Quotient(Channel(img[i][j'], layer), f[i][j'], al)
        invariant forall i', j' :: i <= i' < h && 0 <= j' < w && (i' > i || j' >= j) ==>
          buf[i', j', layer] == Channel(img[i'][j'], layer) - al
        invariant forall i', j', c :: 0 <= i' < h && 0 <= j' < w && 0 <= c < 3 && c != layer ==>
          buf[i', j', c] == old(buf[i', j', c])
      {
        buf[i, j, layer] := buf[i, j, layer] / (f[i][j] + al);
      }
    }
  }

  /** `img_t[img_t < 0] = 0`. */
  method ClearNegatives(buf: array3<real>)
    requires buf.Length2 == 3
    modifies buf
    ensures forall i, j, c :: 0 <= i < buf.Length0 && 0 <= j < buf.Length1 && 0 <= c < 3 ==>
      buf[i, j, c] == (if old(buf[i, j, c]) < 0.0 then 0.0 else old(buf[i, j, c]))
  {
    var h, w := buf.Length0, buf.Length1;
    for i := 0 to h
      invariant forall i', j, c :: 0 <= i' < h && 0 <= j < w && 0 <= c < 3 ==>
        buf[i', j, c] == (if i' < i && old(buf[i', j, c]) < 0.0 then 0.0 else old(buf[i', j, c]))
    {
      for j := 0 to w
        invariant forall i', j', c :: 0 <= i' < h && 0 <= j' < w && 0 <= c < 3 ==>
          buf[i', j', c] == (if (i' < i || (i' == i && j' < j)) && old(buf[i', j', c]) < 0.0 then 0.0 else old(buf[i', j', c]))
      {
        for c := 0 to 3
          invariant forall i', j', c' :: 0 <= i' < h && 0 <= j' < w && 0 <= c' < 3 ==>
            buf[i', j', c'] == (if (i' < i || (i' == i && (j' < j || (j' == j && c' < c)))) && old(buf[i', j', c']) < 0.0
                                then 0.0 else old(buf[i', j', c']))
        {
          if buf[i, j, c] < 0.0 {
            buf[i, j, c] := 0.0;
          }
        }
      }
    }
  }

  /** `_recover(img, t, A)`: floors t, fills the buffer layer by layer,
      clears negatives. The result has the image's shape and at every pixel
      and channel is `(I_c - A_c) / (max(t, 0.1) + A_c)`, or 0 where that is
      negative. */
  method Recover(img: Image, t: Grid, a: Pixel) returns (out: Image)
    requires IsRect(img) && IsGrid(t, |img|, Width(img)) && Divisible(t, |img|, Width(img), a)
    ensures out == Recovered(img, t, a)
  {
    var h, w := |img|, Width(img);
    var f := Floored(t, h, w);
    var buf := new real[h, w, 3];
    for layer := 0 to 3
      invariant forall i, j, c :: 0 <= i < h && 0 <= j < w && 0 <= c < layer ==>
        buf[i, j, c] == Quotient(Channel(img[i][j], c), f[i][j], Channel(a, c))
    {
      RecoverLayer(buf, img, f, a, layer);
    }
    ClearNegatives(buf);
    out := ReadBuffer(buf);
    SameRecovered(img, t, a, out);
  }

  lemma SameRecovered(img: Image, t: Grid, a: Pixel, m: Image)
    requires IsRect(img) && IsGrid(t, |img|, Width(img)) && Divisible(t, |img|, Width(img), a)
    requires IsImage(m, |img|, Width(img))
    requires forall i, j, c :: 0 <= i < |img| && 0 <= j < Width(img) && 0 <= c < 3 ==>
      Channel(m[i][j], c) == RecoverSample(Channel(img[i][j], c), t[i][j], Channel(a, c))
    ensures m == Recovered(img, t, a)
  {
    var n := Recovered(img, t, a);
    forall i | 0 <= i < |img| ensures m[i] == n[i] {
      forall j | 0 <= j < Width(img) ensures m[i][j] == n[i][j] {
        assert Channel(m[i][j], 0) == Channel(n[i][j], 0);
        assert Channel(m[i][j], 1) == Channel(n[i][j], 1);
        assert Channel(m[i][j], 2) == Channel(n[i][j], 2);
      }
    }
  }

  /** With a non-negative A component the denominator is at least 0.1, and
      the recovered sample is 0 exactly when the sample does not exceed A;
      otherwise it is the positive value that, multiplied back by
      `max(t, 0.1) + a`, gives `x - a`. */
  lemma RecoverSampleCharacterised(x: real, t: real, a: real)
    requires a >= 0.0
    ensures Max(t, T0) + a >= T0
    ensures RecoverSample(x, t, a) == 0.0 <==> x <= a
    ensures x > a ==> RecoverSample(x, t, a) > 0.0 && RecoverSample(x, t, a) * (Max(t, T0) + a) == x - a
  {
    var d := Max(t, T0) + a;
    var v := (x - a) / d;
    assert v * d == x - a;
    if x > a {
      assert v > 0.0 by { PositiveQuotient(x - a, d); }
    } else {
      assert v <= 0.0 by { NonPositiveQuotient(x - a, d); }
    }
  }

  lemma PositiveQuotient(n: real, d: real)
    requires n > 0.0 && d > 0.0
    ensures n / d > 0.0
  {
  }

  lemma NonPositiveQuotient(n: real, d: real)
    requires n <= 0.0 && d > 0.0
    ensures n / d <= 0.0
  {
  }

  /** Every pixel of the recovered image has non-negative samples, and a
      channel whose sample does not exceed its component of a non-negative
      A comes out 0. */
  lemma RecoveredPixel(img: Image, t: Grid, a: Pixel, i: nat, j: nat, c: nat)
    requires IsRect(img) && IsGrid(t, |img|, Width(img)) && Divisible(t, |img|, Width(img), a)
    requires i < |img| && j < Width(img) && c < 3
    ensures Channel(Recovered(img, t, a)[i][j], c) >= 0.0
    ensures Channel(a, c) >= 0.0 ==>
      (Channel(Recovered(img, t, a)[i][j], c) == 0.0 <==> Channel(img[i][j], c) <= Channel(a, c))
  {
    if Channel(a, c) >= 0.0 {
      RecoverSampleCharacterised(Channel(img[i][j], c), t[i][j], Channel(a, c));
    }
  }

  /** The inversion of the haze model `I = J t + A (1 - t)` that the
      recovery step is meant to perform: `(I - A) / max(t, 0.1) + A`. */
  function HazeInverse(x: real, t: real, a: real): real {
    (x - a) / Max(t, T0) + a
  }

  /** That inversion recovers the scene radiance J from a pixel hazed with
      a transmission of at least 0.1. */
  lemma HazeInverseRoundTrip(j: real, t: real, a: real)
    requires t >= T0
    ensures HazeInverse(j * t + a * (1.0 - t), t, a) == j
  {
    var x := j * t + a * (1.0 - t);
    assert x - a == (j - a) * t;
    assert (x - a) / t == j - a;
  }

  /** The code's recovery is not that inversion: a radiance 0.5 hazed with
      t = 0.5 under A = 1 gives I = 0.75, which the inversion maps back to
      0.5 but the code maps to (0.75 - 1) / (0.5 + 1) < 0, cleared to 0. */
  lemma RecoveryIsNotHazeInverse()
    ensures HazeInverse(0.5 * 0.5 + 1.0 * (1.0 - 0.5), 0.5, 1.0) == 0.5
    ensures RecoverSample(0.5 * 0.5 + 1.0 * (1.0 - 0.5), 0.5, 1.0) == 0.0
  {
    HazeInverseRoundTrip(0.5, 0.5, 1.0);
  }
}
