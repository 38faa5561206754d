/** Image values shared by every stage of the dehazer and by the pipeline.

    A sample is a `real`, standing in exactly for the float64 (or 8-bit)
    values the program stores. An image is a list of rows of pixels; a pixel
    holds its three samples in the program's blue, green, red order. A
    single-channel map (dark channel, transmission) is a list of rows of
    samples. */
module Images {

  datatype Pixel = Pixel(b: real, g: real, r: real)

  type Image = seq<seq<Pixel>>

  type Grid = seq<seq<real>>

  /** The sample of channel `c` (0 blue, 1 green, 2 red), as `img[:, :, c]` reads it. */
  function Channel(p: Pixel, c: nat): real
    requires c < 3
  {
    if c == 0 then p.b else if c == 1 then p.g else p.r
  }

  function Min(x: real, y: real): real {
    if x <= y then x else y
  }

  function Max(x: real, y: real): real {
    if x >= y then x else y
  }

  /** Every row has `w` entries and there are `h` rows. */
  predicate IsImage(img: Image, h: nat, w: nat) {
    |img| == h && forall i :: 0 <= i < h ==> |img[i]| == w
  }

  predicate IsGrid(m: Grid, h: nat, w: nat) {
    |m| == h && forall i :: 0 <= i < h ==> |m[i]| == w
  }

  function Width<T>(rows: seq<seq<T>>): nat {
    if |rows| == 0 then 0 else |rows[0]|
  }

  /** A rectangular image: all rows as long as the first. */
  predicate IsRect(img: Image) {
    IsImage(img, |img|, Width(img))
  }

  /** An image as an array holds it: rectangular. */
  type Frame = img: Image | IsRect(img) witness []

  /** Every sample lies in the 8-bit range an image read from disk has. */
  predicate IsByteImage(img: Image) {
    forall i, j :: 0 <= i < |img| && 0 <= j < |img[i]| ==>
      0.0 <= img[i][j].b <= 255.0 && 0.0 <= img[i][j].g <= 255.0 && 0.0 <= img[i][j].r <= 255.0
  }

  /** Row-major flattening, what `reshape(height * width, ...)` does. */
  function Flatten<T>(rows: seq<seq<T>>): (s: seq<T>)
  {
    if |rows| == 0 then [] else Flatten(rows[..|rows| - 1]) + rows[|rows| - 1]
  }

  /** A rectangular table of h rows of w entries flattens to h * w entries. */
  lemma {:induction false} FlattenLength<T>(rows: seq<seq<T>>, w: nat)
    requires forall i :: 0 <= i < |rows| ==> |rows[i]| == w
    ensures |Flatten(rows)| == |rows| * w
  {
    if |rows| > 0 {
      var n := |rows| - 1;
      FlattenLength(rows[..n], w);
      assert |rows| * w == n * w + w;
    }
  }

  /** Entry (i, j) of a rectangular table of width w lands at index i * w + j
      of its flattening. */
  lemma {:induction false} FlattenAt<T>(rows: seq<seq<T>>, w: nat, i: nat, j: nat)
    requires forall i :: 0 <= i < |rows| ==> |rows[i]| == w
    requires i < |rows| && j < w
    ensures i * w + j < |Flatten(rows)| && Flatten(rows)[i * w + j] == rows[i][j]
  {
    var n := |rows| - 1;
    var init := rows[..n];
    FlattenLength(init, w);
    FlattenLength(rows, w);
    assert Flatten(rows) == Flatten(init) + rows[n];
    if i < n {
      assert i * w + j < n * w by {
        assert (i + 1) * w <= n * w by { MulMono(i + 1, n, w); }
      }
      FlattenAt(init, w, i, j);
      assert init[i] == rows[i];
    } else {
      assert i * w + j == n * w + j;
    }
  }

  lemma MulMono(a: nat, b: nat, w: nat)
    requires a <= b
    ensures a * w <= b * w
  {
  }

  /** Every entry of the flattening is an entry of some row. */
  lemma {:induction false} FlattenMember<T>(rows: seq<seq<T>>, x: T)
    requires x in Flatten(rows)
    ensures exists i, j :: 0 <= i < |rows| && 0 <= j < |rows[i]| && rows[i][j] == x
  {
    var n := |rows| - 1;
    if x in Flatten(rows[..n]) {
      FlattenMember(rows[..n], x);
      var i, j :| 0 <= i < n && 0 <= j < |rows[..n][i]| && rows[..n][i][j] == x;
      assert rows[i][j] == x;
    } else {
      var j :| 0 <= j < |rows[n]| && rows[n][j] == x;
    }
  }

  /** The image an h x w x 3 sample buffer holds, as `img_t[i, j, c]` reads it. */
  function ReadBuffer(buf: array3<real>): (img: Image)
    requires buf.Length2 == 3
    reads buf
    ensures IsImage(img, buf.Length0, buf.Length1)
    ensures forall i, j, c :: 0 <= i < buf.Length0 && 0 <= j < buf.Length1 && 0 <= c < 3 ==>
      Channel(img[i][j], c) == buf[i, j, c]
  {
    seq(buf.Length0, i requires 0 <= i < buf.Length0 reads buf =>
      seq(buf.Length1, j requires 0 <= j < buf.Length1 reads buf =>
        Pixel(buf[i, j, 0], buf[i, j, 1], buf[i, j, 2])))
  }
}
