/** The chain of filters a pipeline applies: each filter, as the pipeline
    uses it (`setImage` followed by `run`), is a step from image to image,
    and the chain feeds every step's output to the next step. */
module Composition {
  import opened Images

  type Step = Image -> Image

  /** The first `|steps|` steps applied in list order: the last step is
      applied to what the ones before it produced. */
  function Fold(steps: seq<Step>, x: Image): Image {
    if |steps| == 0 then x else steps[|steps| - 1](Fold(steps[..|steps| - 1], x))
  }

  /** The same chain read from the front: apply the first step, then the rest. */
  function ApplyFromFront(steps: seq<Step>, x: Image): Image {
    if |steps| == 0 then x else ApplyFromFront(steps[1..], steps[0](x))
  }

  /** Running two chains one after the other is running their concatenation. */
  lemma {:induction false} FoldAppend(a: seq<Step>, b: seq<Step>, x: Image)
    ensures Fold(a + b, x) == Fold(b, Fold(a, x))
    decreases |b|
  {
    if |b| > 0 {
      var n := |b| - 1;
      assert (a + b)[..|a + b| - 1] == a + b[..n];
      FoldAppend(a, b[..n], x);
    } else {
      assert a + b == a;
    }
  }

  /** Both readings of the chain agree. */
  lemma {:induction false} FoldFromFront(steps: seq<Step>, x: Image)
    ensures Fold(steps, x) == ApplyFromFront(steps, x)
    decreases |steps|
  {
    if |steps| > 0 {
      var f := steps[0];
      FoldFromFront(steps[1..], f(x));
      assert steps == [f] + steps[1..];
      FoldAppend([f], steps[1..], x);
      assert [f][..0] == [];
    }
  }

  /** An empty chain returns its input, and a chain of one step is that step. */
  lemma FoldSmall(f: Step, x: Image)
    ensures Fold([], x) == x
    ensures Fold([f], x) == f(x)
  {
    assert [f][..0] == [];
  }

  /** The loop of `process`: `temp` starts as the image and every step in
      turn replaces it with its output. */
  method ApplySteps(steps: seq<Step>, x: Image) returns (temp: Image)
    ensures temp == Fold(steps, x)
    ensures temp == ApplyFromFront(steps, x)
  {
    temp := x;
    for k := 0 to |steps|
      invariant temp == Fold(steps[..k], x)
    {
      assert steps[..k + 1][..k] == steps[..k];
      temp := steps[k](temp);
    }
    assert steps[..|steps|] == steps;
    FoldFromFront(steps, x);
  }
}
