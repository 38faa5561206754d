/** The `Filter` objects of `impipes/filters.py`: an object holds the image
    it was given and the last image it produced, and `run` recomputes the
    latter from the former.

    The base `Filter`, `Kernel` and `Dehaze` are one class here whose `kind`
    says which `run` it has. `cv2.imread` is the parameter `read` (it gives
    no image for a path it cannot read), `cv2.filter2D` the parameter
    `convolve`, the guided-filter refinement of `Dehaze` the parameter
    `refine`, and `np.argsort` the parameter `argsort`. */
module Filters {
  import opened Images
  import opened Wrappers
  import opened DehazeRun
  import opened AtmosphericLightStage

  /** Which subclass the object is; a `Kernel` carries its `kernel` attribute. */
  datatype FilterKind =
    | Plain
    | Kernel(kernel: seq<seq<real>>)
    | Dehaze

  /** What `setImage` is given: a path, an array, or anything else (`None` included). */
  datatype ImageArg =
    | Path(path: string)
    | Array(frame: Frame)
    | Neither

  /** The `image` attribute: never assigned (reading it raises AttributeError),
      or assigned an array or `None`. */
  datatype ImageSlot =
    | Unset
    | Held(value: Option<Frame>)

  datatype FilterError =
    | NoImageAttribute          // `self.image` read before any assignment
    | ZeroKernelSum             // the kernel's entries add up to 0
    | DehazeFailed(error: DehazeError)

  /** The sharpening kernel used when the given one is empty. */
  const DefaultKernel: seq<seq<real>> := [[1.0, 1.0, 1.0], [1.0, 20.0, 1.0], [1.0, 1.0, 1.0]]

  /** `self.kernel or DEFAULT`: an empty kernel is falsy. */
  function EffectiveKernel(kernel: seq<seq<real>>): (k: seq<seq<real>>)
    ensures |k| > 0
    ensures |kernel| > 0 ==> k == kernel
    ensures |kernel| == 0 ==> k == DefaultKernel
  {
    if |kernel| == 0 then DefaultKernel else kernel
  }

  /** `sum(line)`. */
  function RowSum(row: seq<real>): real {
    if |row| == 0 then 0.0 else RowSum(row[..|row| - 1]) + row[|row| - 1]
  }

  /** The sum of every entry of the kernel, row after row. */
  function KernelSum(kernel: seq<seq<real>>): real {
    if |kernel| == 0 then 0.0 else KernelSum(kernel[..|kernel| - 1]) + RowSum(kernel[|kernel| - 1])
  }

  /** The accumulation loop of `Kernel.run`: adds `sum(line)` for every line. */
  method KernelTotal(kernel: seq<seq<real>>) returns (total: real)
    ensures total == KernelSum(kernel)
  {
    total := 0.0;
    for k := 0 to |kernel|
      invariant total == KernelSum(kernel[..k])
    {
      assert kernel[..k + 1][..k] == kernel[..k];
      total := total + RowSum(kernel[k]);
    }
    assert kernel[..|kernel|] == kernel;
  }

  /** `np.array(kernel) / kernel_sum`: every entry divided by the total. */
  function Normalize(kernel: seq<seq<real>>, total: real): (n: seq<seq<real>>)
    requires total != 0.0
    ensures |n| == |kernel|
    ensures forall i :: 0 <= i < |n| ==> |n[i]| == |kernel[i]|
    ensures forall i, j :: 0 <= i < |n| && 0 <= j < |n[i]| ==> n[i][j] == kernel[i][j] / total
  {
    seq(|kernel|, i requires 0 <= i < |kernel| =>
      seq(|kernel[i]|, j requires 0 <= j < |kernel[i]| => kernel[i][j] / total))
  }

  /** Dividing every entry of a row divides its sum. */
  lemma {:induction false} RowSumScaled(row: seq<real>, scaled: seq<real>, total: real)
    requires total != 0.0 && |scaled| == |row|
    requires forall j :: 0 <= j < |row| ==> scaled[j] == row[j] / total
    ensures RowSum(scaled) == RowSum(row) / total
  {
    if |row| > 0 {
      var n := |row| - 1;
      RowSumScaled(row[..n], scaled[..n], total);
      AddDivided(RowSum(row[..n]), row[n], total);
    }
  }

  lemma AddDivided(x: real, y: real, total: real)
    requires total != 0.0
    ensures x / total + y / total == (x + y) / total
  {
  }

  /** Dividing every entry of a kernel divides its sum. */
  lemma {:induction false} KernelSumScaled(kernel: seq<seq<real>>, scaled: seq<seq<real>>, total: real)
    requires total != 0.0 && |scaled| == |kernel|
    requires forall i :: 0 <= i < |kernel| ==> |scaled[i]| == |kernel[i]|
    requires forall i, j :: 0 <= i < |kernel| && 0 <= j < |kernel[i]| ==> scaled[i][j] == kernel[i][j] / total
    ensures KernelSum(scaled) == KernelSum(kernel) / total
  {
    if |kernel| > 0 {
      var n := |kernel| - 1;
      KernelSumScaled(kernel[..n], scaled[..n], total);
      RowSumScaled(kernel[n], scaled[n], total);
      AddDivided(KernelSum(kernel[..n]), RowSum(kernel[n]), total);
    }
  }

  /** A kernel with a non-zero sum normalises to one whose entries add up to 1. */
  lemma NormalizedSumsToOne(kernel: seq<seq<real>>)
    requires KernelSum(kernel) != 0.0
    ensures KernelSum(Normalize(kernel, KernelSum(kernel))) == 1.0
  {
    var total := KernelSum(kernel);
    KernelSumScaled(kernel, Normalize(kernel, total), total);
    DivSelf(total);
  }

  lemma DivSelf(x: real)
    requires x != 0.0
    ensures x / x == 1.0
  {
  }

  /** The default kernel adds up to 28, so it normalises to weights 1/28 and 20/28. */
  lemma DefaultKernelSum()
    ensures KernelSum(DefaultKernel) == 28.0
    ensures Normalize(DefaultKernel, 28.0)[1][1] == 20.0 / 28.0
  {
    var ones, mid := [1.0, 1.0, 1.0], [1.0, 20.0, 1.0];
    assert RowSum([1.0]) == 1.0 by { assert [1.0][..0] == []; }
    assert RowSum([1.0, 1.0]) == 2.0 by { assert [1.0, 1.0][..1] == [1.0]; }
    assert RowSum(ones) == 3.0 by { assert ones[..2] == [1.0, 1.0]; }
    assert RowSum([1.0, 20.0]) == 21.0 by { assert [1.0, 20.0][..1] == [1.0]; }
    assert RowSum(mid) == 22.0 by { assert mid[..2] == [1.0, 20.0]; }
    assert KernelSum([ones]) == 3.0 by { var none: seq<seq<real>> := []; assert [ones][..0] == none; }
    assert KernelSum([ones, mid]) == 25.0 by { assert [ones, mid][..1] == [ones]; }
    assert DefaultKernel[..2] == [ones, mid];
  }

  class Filter {
    const kind: FilterKind
    var image: ImageSlot
    var filteredImage: Option<Image>

    /** `__init__`: `setImage` only when an image is given; nothing filtered yet. */
    constructor(kind: FilterKind, arg: ImageArg, read: string -> Option<Frame>)
      ensures this.kind == kind
      ensures arg.Path? ==> image == Held(read(arg.path))
      ensures arg.Array? ==> image == Held(Some(arg.frame))
      ensures arg.Neither? ==> image == Unset
      ensures filteredImage == None
    {
      this.kind := kind;
      image := match arg
        case Path(p) => Held(read(p))
        case Array(f) => Held(Some(f))
        case Neither => Unset;
      filteredImage := None;
    }

    /** `setImage`: a path is read, an array is stored, anything else is ignored. */
    method SetImage(arg: ImageArg, read: string -> Option<Frame>)
      modifies this
      ensures arg.Path? ==> image == Held(read(arg.path))
      ensures arg.Array? ==> image == Held(Some(arg.frame))
      ensures arg.Neither? ==> image == old(image)
      ensures filteredImage == old(filteredImage)
    {
      match arg
      case Path(p) => image := Held(read(p));
      case Array(f) => image := Held(Some(f));
      case Neither =>
    }

    /** `run` of the object's class. The base class returns what it holds;
        `Kernel` and `Dehaze` run their own computation. */
    method Run(convolve: (Frame, seq<seq<real>>) -> Image, refine: (Image, Grid) -> Grid,
               argsort: seq<real> -> seq<nat>)
      returns (r: Result<Option<Image>, FilterError>)
      requires PreservesShape(refine) && SortsEveryKey(argsort)
      modifies this
      ensures image == old(image)
      ensures kind.Plain? ==> r == Success(filteredImage) && filteredImage == old(filteredImage)
      ensures !kind.Plain? && image.Unset? ==>
        r == Failure(NoImageAttribute) && filteredImage == old(filteredImage)
      ensures !kind.Plain? && image == Held(None) ==>
        r == Success(filteredImage) && filteredImage == old(filteredImage)
      ensures kind.Kernel? && image.Held? && image.value.Some? ==>
        var k := EffectiveKernel(kind.kernel);
        if KernelSum(k) == 0.0 then r == Failure(ZeroKernelSum) && filteredImage == old(filteredImage)
        else filteredImage == Some(convolve(image.value.value, Normalize(k, KernelSum(k)))) && r == Success(filteredImage)
      ensures kind.Dehaze? && image.Held? && image.value.Some? ==>
        match DehazeOf(image.value.value, refine, argsort)
        case Failure(e) => r == Failure(DehazeFailed(e)) && filteredImage == old(filteredImage)
        case Success(out) => filteredImage == Some(out) && r == Success(filteredImage)
    {
      match kind
      case Plain => r := Success(filteredImage);
      case Kernel(_) => r := RunKernel(convolve);
      case Dehaze => r := RunDehaze(refine, argsort);
    }

    /** `Kernel.run`: reads `image` (failing when it was never set), returns
        the old result when it is `None`, and otherwise convolves it with the
        effective kernel divided by its total, stores the result and returns it. */
    method RunKernel(convolve: (Frame, seq<seq<real>>) -> Image) returns (r: Result<Option<Image>, FilterError>)
      requires kind.Kernel?
      modifies this
      ensures image == old(image)
      ensures image.Unset? ==> r == Failure(NoImageAttribute) && filteredImage == old(filteredImage)
      ensures image == Held(None) ==> r == Success(filteredImage) && filteredImage == old(filteredImage)
      ensures image.Held? && image.value.Some? ==>
        var k := EffectiveKernel(kind.kernel);
        if KernelSum(k) == 0.0 then r == Failure(ZeroKernelSum) && filteredImage == old(filteredImage)
        else filteredImage == Some(convolve(image.value.value, Normalize(k, KernelSum(k)))) && r == Success(filteredImage)
    {
      if image.Unset? {
        return Failure(NoImageAttribute);
      }
      if image.value.None? {
        return Success(filteredImage);
      }
      var kernel := EffectiveKernel(kind.kernel);
      var total := KernelTotal(kernel);
      if total == 0.0 {
        return Failure(ZeroKernelSum);
      }
      filteredImage := Some(convolve(image.value.value, Normalize(kernel, total)));
      r := Success(filteredImage);
    }

    /** `Dehaze.run`: reads `image` (failing when it was never set), returns
        the old result when it is `None`, and otherwise stores and returns
        the dehazed image; a failed computation changes nothing. */
    method RunDehaze(refine: (Image, Grid) -> Grid, argsort: seq<real> -> seq<nat>)
      returns (r: Result<Option<Image>, FilterError>)
      requires kind.Dehaze? && PreservesShape(refine) && SortsEveryKey(argsort)
      modifies this
      ensures image == old(image)
      ensures image.Unset? ==> r == Failure(NoImageAttribute) && filteredImage == old(filteredImage)
      ensures image == Held(None) ==> r == Success(filteredImage) && filteredImage == old(filteredImage)
      ensures image.Held? && image.value.Some? ==>
        match DehazeOf(image.value.value, refine, argsort)
        case Failure(e) => r == Failure(DehazeFailed(e)) && filteredImage == old(filteredImage)
        case Success(out) => filteredImage == Some(out) && r == Success(filteredImage)
    {
      if image.Unset? {
        return Failure(NoImageAttribute);
      }
      if image.value.None? {
        return Success(filteredImage);
      }
      var out := DehazeRun.Dehaze(image.value.value, refine, argsort);
      if out.Failure? {
        return Failure(DehazeFailed(out.error));
      }
      filteredImage := Some(out.value);
      r := Success(filteredImage);
    }
  }
}
