/** The atmospheric-light estimate of `Dehaze._get_atmospheric_light`.

    The dark channel is flattened row by row and sorted by value with
    `np.argsort`; the last `n - int(0.9 * n)` sorted positions (the pixels
    with the largest dark values) are kept. Luma is computed with the BT.601
    weights; the largest luma among the kept pixels is found, and the answer
    is the pixel at the FIRST flattened position of the whole image whose
    luma equals it, which need not be one of the kept pixels.

    `np.argsort` uses an unstable sort, so the order among equal dark values
    is not specified: the estimate is stated for any ordering that sorts the
    dark values (`IsArgsort`); the dehazer takes the sort as a parameter
    that may break ties in any way (`SortsEveryKey`), and `StableArgsort`
    is one such sort. */
module AtmosphericLightStage {
  import opened Images
  import opened Wrappers
  import opened DarkChannelStage

  /** Grey level with the weights the source uses (ITU-R BT.601). */
  function Luma(p: Pixel): real {
    0.299 * p.r + 0.587 * p.g + 0.114 * p.b
  }

  /** The number of kept pixels, `n - int(0.9 * n)`; for every image size that
      fits in memory `int(0.9 * n)` equals `(9 * n) / 10`. */
  function KeepCount(n: nat): nat {
    n - (9 * n) / 10
  }

  /** The kept count is the tenth of the pixel count rounded up, so it is at
      least one for a non-empty image and never more than the image. */
  lemma KeepCountIsCeilingTenth(n: nat)
    ensures KeepCount(n) == (n + 9) / 10
    ensures 1 <= n ==> 1 <= KeepCount(n) <= n
  {
    var q := n / 10;
    var r := n % 10;
    assert n == 10 * q + r;
    assert 9 * n == 10 * (9 * q) + 9 * r;
    assert (9 * n) / 10 == 9 * q + (9 * r) / 10;
    assert (n + 9) / 10 == q + (r + 9) / 10;
  }

  predicate Indices(s: seq<nat>, n: nat) {
    forall k :: 0 <= k < |s| ==> s[k] < n
  }

  predicate Distinct(s: seq<nat>) {
    forall a, b :: 0 <= a < b < |s| ==> s[a] != s[b]
  }

  /** `s` lists positions of `key` in non-decreasing order of their key. */
  predicate SortedBy(key: seq<real>, s: seq<nat>) {
    Indices(s, |key|) && forall a, b :: 0 <= a < b < |s| ==> key[s[a]] <= key[s[b]]
  }

  /** What `np.argsort(key)` may return: every position exactly once, in
      non-decreasing order of key; the order among equal keys is free. */
  predicate IsArgsort(key: seq<real>, order: seq<nat>) {
    |order| == |key| && SortedBy(key, order) && Distinct(order) &&
    forall j :: 0 <= j < |key| ==> j in order
  }

  /** `sorted_indexes[int(0.9 * img_size)::]`. */
  function Kept(order: seq<nat>): seq<nat> {
    order[(9 * |order|) / 10..]
  }

  /** The selection keeps exactly `KeepCount(n)` distinct positions, and every
      kept position has a dark value at least that of every dropped one. */
  lemma {:induction false} KeptAreTop(dark: seq<real>, order: seq<nat>)
    requires IsArgsort(dark, order)
    ensures |Kept(order)| == KeepCount(|dark|)
    ensures Distinct(Kept(order)) && Indices(Kept(order), |dark|)
    ensures forall k, j :: k in Kept(order) && 0 <= j < |dark| && j !in Kept(order) ==> dark[j] <= dark[k]
  {
    var cut := (9 * |order|) / 10;
    var kept := Kept(order);
    forall k, j | k in kept && 0 <= j < |dark| && j !in kept
      ensures dark[j] <= dark[k]
    {
      var q :| 0 <= q < |kept| && kept[q] == k;
      assert j in order;
      var p :| 0 <= p < |order| && order[p] == j;
      assert order[cut + q] == k;
      assert p < cut;
    }
  }

  /** The largest luma among the pixels at the listed positions. */
  function MaxLuma(pixels: seq<Pixel>, kept: seq<nat>): (m: real)
    requires |kept| > 0 && Indices(kept, |pixels|)
    ensures forall k :: 0 <= k < |kept| ==> Luma(pixels[kept[k]]) <= m
    ensures exists k :: 0 <= k < |kept| && Luma(pixels[kept[k]]) == m
  {
    if |kept| == 1 then Luma(pixels[kept[0]])
    else
      var rest := MaxLuma(pixels, kept[1..]);
      assert forall k :: 1 <= k < |kept| ==> kept[k] == kept[1..][k - 1];
      Max(Luma(pixels[kept[0]]), rest)
  }

  /** `np.where(gray == m)[0][0]` from position `from` on: the first
      position whose luma is `m`. */
  function FirstWithLuma(pixels: seq<Pixel>, m: real, from: nat): (pos: nat)
    requires from <= |pixels|
    requires exists q :: from <= q < |pixels| && Luma(pixels[q]) == m
    ensures from <= pos < |pixels| && Luma(pixels[pos]) == m
    ensures forall q :: from <= q < pos ==> Luma(pixels[q]) != m
    decreases |pixels| - from
  {
    if Luma(pixels[from]) == m then from else FirstWithLuma(pixels, m, from + 1)
  }

  /** The flattened position the source picks, or `None` for an image with no
      pixels (there the source raises ValueError: `cv2.split` of an empty
      array does not unpack into three channels). The luma at the chosen
      position is the largest luma among the kept pixels, and no earlier
      position of the whole image has that luma. */
  function ChosenPosition(pixels: seq<Pixel>, dark: seq<real>, order: seq<nat>): (r: Option<nat>)
    requires |dark| == |pixels| && IsArgsort(dark, order)
    ensures r.None? <==> |pixels| == 0
    ensures r.Some? ==> r.value < |pixels|
    ensures r.Some? ==> forall k :: k in Kept(order) ==> Luma(pixels[k]) <= Luma(pixels[r.value])
    ensures r.Some? ==> exists k :: k in Kept(order) && Luma(pixels[k]) == Luma(pixels[r.value])
    ensures r.Some? ==> forall q :: 0 <= q < r.value ==> Luma(pixels[q]) != Luma(pixels[r.value])
  {
    if |pixels| == 0 then None
    else
      KeptAreTop(dark, order);
      KeepCountIsCeilingTenth(|pixels|);
      var kept := Kept(order);
      var m := MaxLuma(pixels, kept);
      var pos := FirstWithLuma(pixels, m, 0);
      Some(pos)
  }

  /** The estimate A: the BGR triple stored at the chosen position. */
  function LightOf(pixels: seq<Pixel>, dark: seq<real>, order: seq<nat>): (a: Option<Pixel>)
    requires |dark| == |pixels| && IsArgsort(dark, order)
    ensures a.None? <==> |pixels| == 0
    ensures a.Some? ==> a.value in pixels
  {
    match ChosenPosition(pixels, dark, order)
    case None => None
    case Some(pos) => Some(pixels[pos])
  }

  /** `_get_atmospheric_light(img, dark)`: flattens both and picks A. */
  function AtmosphericLight(img: Image, dark: Grid, order: seq<nat>): (a: Option<Pixel>)
    requires IsRect(img) && IsGrid(dark, |img|, Width(img))
    requires IsArgsort(Flatten(dark), order)
    ensures a.None? <==> |img| == 0 || Width(img) == 0
  {
    FlattenLength(img, Width(img));
    FlattenLength(dark, Width(img));
    LightOf(Flatten(img), Flatten(dark), order)
  }

  /** When every pixel holds the same triple, A is that triple. */
  lemma UniformLight(pixels: seq<Pixel>, dark: seq<real>, order: seq<nat>, p: Pixel)
    requires |dark| == |pixels| && IsArgsort(dark, order) && |pixels| > 0
    requires forall k :: 0 <= k < |pixels| ==> pixels[k] == p
    ensures LightOf(pixels, dark, order) == Some(p)
  {
  }

  /** The chosen pixel can lie outside the kept tenth, also when the dark
      values are the image's own dark channel, as in `Dehaze.run`. In a
      1 x 2 image of two different pixels with the same luma and a zero
      sample each (say (0, 0, 114/299) and (1, 0, 0)), both dark values are
      0, a valid argsort keeps position 1, yet the first position with the
      kept luma is 0, so A is the dropped pixel. */
  lemma ChosenMayLieOutsideKept(p: Pixel, q: Pixel)
    requires p != q && Luma(p) == Luma(q) && ChannelMin(p) == 0.0 && ChannelMin(q) == 0.0
    ensures IsRect([[p, q]]) && Flatten(DarkChannel([[p, q]])) == [0.0, 0.0]
    ensures IsArgsort([0.0, 0.0], [0, 1]) && Kept([0, 1]) == [1]
    ensures AtmosphericLight([[p, q]], DarkChannel([[p, q]]), [0, 1]) == Some(p)
  {
    TwoPixelDark([[p, q]]);
    assert IsArgsort([0.0, 0.0], [0, 1]);
    EqualLumaChoosesFirst(p, q, DarkChannel([[p, q]]), [0, 1]);
    assert Kept([0, 1]) == [1];
  }

  /** In a 1 x 2 image whose pixels have the same luma the first is
      chosen, whatever the dark values and whichever pixel the sort keeps. */
  lemma EqualLumaChoosesFirst(p: Pixel, q: Pixel, dark: Grid, order: seq<nat>)
    requires Luma(p) == Luma(q) && IsGrid(dark, 1, 2) && IsArgsort(Flatten(dark), order)
    ensures IsRect([[p, q]]) && AtmosphericLight([[p, q]], dark, order) == Some(p)
  {
    var img := [[p, q]];
    var pixels := Flatten(img);
    assert pixels == [p, q] by {
      var none: seq<seq<Pixel>> := [];
      assert img[..|img| - 1] == none;
      assert Flatten(none) == [];
      assert pixels == Flatten(none) + img[0];
    }
    FlattenLength(dark, 2);
    var r := ChosenPosition(pixels, Flatten(dark), order);
    assert Luma(p) == Luma(pixels[r.value]);
  }

  /** Both pixels of a 1 x 2 image with a zero sample in each have dark value 0. */
  lemma TwoPixelDark(img: Image)
    requires |img| == 1 && |img[0]| == 2
    requires ChannelMin(img[0][0]) == 0.0 && ChannelMin(img[0][1]) == 0.0
    ensures IsRect(img) && Flatten(DarkChannel(img)) == [0.0, 0.0]
  {
    var d := DarkChannel(img);
    var a, b := DarkWitness(img, 0, 0);
    assert a == 0 && b < 2;
    var a', b' := DarkWitness(img, 0, 1);
    assert a' == 0 && b' < 2;
    assert d[0][0] == 0.0 && d[0][1] == 0.0;
    assert d[0] == [0.0, 0.0];
    var none: seq<seq<real>> := [];
    assert d[..0] == none;
  }

  /** Insertion of position `x` after every position whose key is not larger. */
  function Insert(key: seq<real>, s: seq<nat>, x: nat): (r: seq<nat>)
    ensures |r| == |s| + 1
    ensures forall y: nat :: y in r <==> y in s || y == x
  {
    if s == [] then [x]
    else if x < |key| && s[0] < |key| && key[x] < key[s[0]] then [x] + s
    else [s[0]] + Insert(key, s[1..], x)
  }

  lemma {:induction false} InsertSorted(key: seq<real>, s: seq<nat>, x: nat)
    requires x < |key| && SortedBy(key, s)
    ensures SortedBy(key, Insert(key, s, x))
  {
    if s != [] && key[s[0]] <= key[x] {
      var t := s[1..];
      assert SortedBy(key, t) by {
        assert forall a :: 0 <= a < |t| ==> t[a] == s[a + 1];
      }
      InsertSorted(key, t, x);
      var r := Insert(key, s, x);
      var rest := Insert(key, t, x);
      assert r == [s[0]] + rest;
      forall k | 0 <= k < |rest|
        ensures key[s[0]] <= key[rest[k]]
      {
        assert rest[k] in rest;
        if rest[k] != x {
          var q :| 0 <= q < |t| && t[q] == rest[k];
          assert t[q] == s[q + 1];
        }
      }
    }
  }

  lemma {:induction false} InsertDistinct(key: seq<real>, s: seq<nat>, x: nat)
    requires Distinct(s) && x !in s
    ensures Distinct(Insert(key, s, x))
  {
    if s != [] && !(x < |key| && s[0] < |key| && key[x] < key[s[0]]) {
      var t := s[1..];
      assert Distinct(t) by {
        assert forall a :: 0 <= a < |t| ==> t[a] == s[a + 1];
      }
      assert s[0] !in t by {
        assert forall a :: 0 <= a < |t| ==> t[a] == s[a + 1];
      }
      InsertDistinct(key, t, x);
    }
  }

  /** Insertion sort of the positions `0..k` by key. */
  function SortPrefix(key: seq<real>, k: nat): (r: seq<nat>)
    requires k <= |key|
    ensures |r| == k && SortedBy(key, r) && Distinct(r)
    ensures forall y: nat :: y in r <==> y < k
  {
    if k == 0 then []
    else
      var s := SortPrefix(key, k - 1);
      InsertSorted(key, s, k - 1);
      InsertDistinct(key, s, k - 1);
      Insert(key, s, k - 1)
  }

  /** What may stand for `np.argsort`: a function that sorts every key,
      breaking ties in whatever way it likes. */
  ghost predicate SortsEveryKey(argsort: seq<real> -> seq<nat>) {
    forall key :: IsArgsort(key, argsort(key))
  }

  /** The insertion sort below is one such function. */
  lemma StableArgsortSortsEveryKey()
    ensures SortsEveryKey(StableArgsort)
  {
    forall key ensures IsArgsort(key, StableArgsort(key)) {
    }
  }

  /** One ordering `np.argsort` may return: ties kept in position order. */
  function StableArgsort(key: seq<real>): (order: seq<nat>)
    ensures IsArgsort(key, order)
  {
    SortPrefix(key, |key|)
  }
}
