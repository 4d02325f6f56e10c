/**
 * The integer and shape logic of the unary graph nodes: the output shapes of
 * transpose, sum, mean, step and masked pooling, the backward permutation of
 * transpose, Mean's divisor and the byte offset of a step view.
 *
 * A shape is the sequence of its dimensions, outermost first (row-major).
 */
module NodeShapes {
  import opened Wrappers
  import opened Sharding

  type Shape = seq<int>

  /** elements(): the product of all dimensions. */
  function Elements(s: Shape): int
  {
    if |s| == 0 then 1 else s[0] * Elements(s[1..])
  }

  /** The elements of a concatenation multiply. */
  lemma {:induction false} ElementsAppend(a: Shape, b: Shape)
    ensures Elements(a + b) == Elements(a) * Elements(b)
  {
    if |a| > 0 {
      assert (a + b)[0] == a[0] && (a + b)[1..] == a[1..] + b;
      ElementsAppend(a[1..], b);
      var x, y := Elements(a[1..]), Elements(b);
      assert Elements(a + b) == a[0] * (x * y);
      assert a[0] * (x * y) == (a[0] * x) * y;
    } else {
      assert a + b == b;
    }
  }

  /** Truncating integer division, the semantics of C++ `/` on int. */
  function TruncDiv(a: int, b: int): (q: int)
    requires b != 0
    ensures 0 <= a ==> 0 < b ==> q == a / b
  {
    var m := (if a < 0 then -a else a) / (if b < 0 then -b else b);
    if (a < 0) == (b < 0) then m else -m
  }

  /** Truncating remainder, the semantics of C++ `%` on int: a == b * q + r. */
  function TruncMod(a: int, b: int): (r: int)
    requires b != 0
    ensures a == b * TruncDiv(a, b) + r
  {
    a - b * TruncDiv(a, b)
  }

  // ---------------------------------------------------------------- transpose

  /** Every axis names a dimension of a rank-`rank` shape. */
  predicate AxesInRange(axes: seq<int>, rank: nat)
  {
    forall i :: 0 <= i < |axes| ==> 0 <= axes[i] < rank
  }

  /** No axis is named twice. */
  predicate Distinct(axes: seq<int>)
  {
    forall i, j :: 0 <= i < j < |axes| ==> axes[i] != axes[j]
  }

  /** axes is a permutation of 0 .. |axes|-1. */
  predicate IsPermutation(axes: seq<int>)
  {
    AxesInRange(axes, |axes|) && Distinct(axes)
  }

  /** The shape s permuted by axes: dimension i of the result is dimension axes[i] of s. */
  function Permute(s: Shape, axes: seq<int>): (r: Shape)
    requires AxesInRange(axes, |s|)
    ensures |r| == |axes|
  {
    seq(|axes|, i requires 0 <= i < |axes| => s[axes[i]])
  }

  /**
   * TransposeNodeOp::newShape: abort (None) unless there is one axis per
   * dimension; otherwise output dimension i is input dimension axes[i].
   */
  method TransposeNewShape(s: Shape, axes: seq<int>) returns (r: Option<Shape>)
    requires |axes| == |s| ==> AxesInRange(axes, |s|)
    ensures r.None? <==> |s| != |axes|
    ensures r.Some? ==> |r.value| == |s| && forall i :: 0 <= i < |s| ==> r.value[i] == s[axes[i]]
  {
    if |s| != |axes| {
      return None;
    }
    var shape := s;
    for i := 0 to |s|
      invariant |shape| == |s|
      invariant forall k :: 0 <= k < i ==> shape[k] == s[axes[k]]
      invariant forall k :: i <= k < |s| ==> shape[k] == s[k]
    {
      shape := shape[i := s[axes[i]]];
    }
    return Some(shape);
  }

  /**
   * What the constructor's loop leaves in axesBw_: for every axis value that
   * occurs, the last position it occurs at; 0 for values that never occur.
   */
  ghost predicate BackwardAxes(axes: seq<int>, bw: seq<int>)
    requires AxesInRange(axes, |axes|)
  {
    |bw| == |axes|
    && (forall i :: 0 <= i < |axes| ==>
          i <= bw[axes[i]] < |axes| && axes[bw[axes[i]]] == axes[i])
    && (forall j :: 0 <= j < |axes| && j !in axes ==> bw[j] == 0)
  }

  /** The TransposeNodeOp constructor's loop: axesBw_[axes_[i]] = i for i in order, over a zeroed vector. */
  method InverseAxes(axes: seq<int>) returns (bw: seq<int>)
    requires AxesInRange(axes, |axes|)
    ensures BackwardAxes(axes, bw)
  {
    bw := seq(|axes|, _ => 0);
    for i := 0 to |axes|
      invariant |bw| == |axes|
      invariant forall k :: 0 <= k < i ==> k <= bw[axes[k]] < i && axes[bw[axes[k]]] == axes[k]
      invariant forall j :: 0 <= j < |axes| && NotAmong(axes, i, j) ==> bw[j] == 0
    {
      bw := bw[axes[i] := i];
    }
    forall j | 0 <= j < |axes| && j !in axes
      ensures bw[j] == 0
    {
      assert NotAmong(axes, |axes|, j);
    }
  }

  /** j is none of the first i axes. */
  predicate NotAmong(axes: seq<int>, i: nat, j: int)
    requires i <= |axes|
  {
    forall k :: 0 <= k < i ==> axes[k] != j
  }

  /** The distinct values among the first k axes. */
  function Image(axes: seq<int>, k: nat): set<int>
    requires k <= |axes|
  {
    set i | 0 <= i < k :: axes[i]
  }

  lemma {:induction false} ImageCard(axes: seq<int>, k: nat)
    requires k <= |axes| && Distinct(axes)
    ensures |Image(axes, k)| == k
  {
    if k > 0 {
      ImageCard(axes, k - 1);
      assert Image(axes, k) == Image(axes, k - 1) + {axes[k - 1]};
      assert axes[k - 1] !in Image(axes, k - 1);
    }
  }

  /** The axis numbers 0 .. n-1. */
  function Range(n: nat): set<int>
  {
    if n == 0 then {} else Range(n - 1) + {n - 1}
  }

  lemma {:induction false} RangeCard(n: nat)
    ensures |Range(n)| == n
    ensures forall j :: j in Range(n) <==> 0 <= j < n
  {
    if n > 0 {
      RangeCard(n - 1);
    }
  }

  lemma SubsetSameCard(a: set<int>, b: set<int>)
    requires a <= b && |a| == |b|
    ensures a == b
  {
    assert b == (b - a) + a;
  }

  /** A permutation of 0 .. n-1 names every axis (the pigeonhole principle). */
  lemma PermutationCovers(axes: seq<int>)
    requires IsPermutation(axes)
    ensures forall j :: 0 <= j < |axes| ==> j in axes
  {
    ImageCard(axes, |axes|);
    RangeCard(|axes|);
    assert Image(axes, |axes|) <= Range(|axes|);
    SubsetSameCard(Image(axes, |axes|), Range(|axes|));
    forall j | 0 <= j < |axes|
      ensures j in axes
    {
      assert j in Range(|axes|);
    }
  }

  /** For a permutation, axesBw_ is its inverse, on both sides. */
  lemma BackwardAxesInverse(axes: seq<int>, bw: seq<int>)
    requires IsPermutation(axes) && BackwardAxes(axes, bw)
    ensures forall i :: 0 <= i < |axes| ==> bw[axes[i]] == i
    ensures forall j :: 0 <= j < |axes| ==> 0 <= bw[j] < |axes| && axes[bw[j]] == j
  {
    PermutationCovers(axes);
    forall j | 0 <= j < |axes|
      ensures 0 <= bw[j] < |axes| && axes[bw[j]] == j
    {
      assert j in axes;
      var i :| 0 <= i < |axes| && axes[i] == j;
    }
  }

  /**
   * The backward pass transposes by axesBw_: doing that to the output shape
   * gives back the input shape, and permuting in the other order does too.
   */
  lemma TransposeRoundTrip(s: Shape, axes: seq<int>, bw: seq<int>)
    requires |axes| == |s| && IsPermutation(axes) && BackwardAxes(axes, bw)
    ensures AxesInRange(bw, |s|)
    ensures Permute(Permute(s, axes), bw) == s
    ensures Permute(Permute(s, bw), axes) == s
  {
    BackwardAxesInverse(axes, bw);
  }

  // ------------------------------------------------------ sum / mean / step

  /** newShape of Sum, Mean and Step: the (normalised) axis set to 1. */
  function CollapseAxis(s: Shape, axis: nat): (r: Shape)
    requires axis < |s|
    ensures |r| == |s| && r[axis] == 1
    ensures forall i :: 0 <= i < |s| && i != axis ==> r[i] == s[i]
  {
    s[axis := 1]
  }

  /** Replacing one dimension by v scales the element count by v in place of the old dimension. */
  lemma {:induction false} ElementsUpdate(s: Shape, axis: nat, v: int)
    requires axis < |s|
    ensures Elements(s[axis := v]) * s[axis] == Elements(s) * v
  {
    if axis == 0 {
      assert s[axis := v][1..] == s[1..];
    } else {
      assert s[axis := v][1..] == s[1..][axis - 1 := v];
      ElementsUpdate(s[1..], axis - 1, v);
      var e' := Elements(s[1..][axis - 1 := v]);
      calc {
        Elements(s[axis := v]) * s[axis];
        s[0] * e' * s[axis];
        { assert e' * s[1..][axis - 1] == Elements(s[1..]) * v; }
        s[0] * (Elements(s[1..]) * v);
      }
    }
  }

  /** Collapsing an axis divides the element count by that dimension. */
  lemma CollapseElements(s: Shape, axis: nat)
    requires axis < |s|
    ensures Elements(CollapseAxis(s, axis)) * s[axis] == Elements(s)
  {
    ElementsUpdate(s, axis, 1);
  }

  /** An exact multiple divides back, also under truncating division. */
  lemma TruncDivExact(q: int, b: int)
    requires b != 0
    ensures TruncDiv(q * b, b) == q
  {
    var ab := if b < 0 then -b else b;
    if q == 0 {
      assert q * b == 0;
    } else if q > 0 {
      DivExact(q, ab);
      if b > 0 {
        MulPositive(q, b);
      } else {
        MulPositive(q, -b);
        assert q * b == -(q * ab);
      }
    } else {
      DivExact(-q, ab);
      if b > 0 {
        MulPositive(-q, b);
        assert q * b == -((-q) * ab);
      } else {
        MulPositive(-q, -b);
        assert q * b == (-q) * ab;
      }
    }
  }

  lemma DivExact(q: nat, b: nat)
    requires b > 0
    ensures q * b / b == q
  {
    DivBetween(q * b, b, q);
  }

  lemma MulPositive(a: int, b: int)
    requires a > 0 && b > 0
    ensures a * b > 0
  {
  }

  /** MeanNodeOp's `left`: input elements over output elements, with C++ int division. */
  function MeanDivisor(inShape: Shape, outShape: Shape): int
    requires Elements(outShape) != 0
  {
    TruncDiv(Elements(inShape), Elements(outShape))
  }

  /** Mean divides by exactly the size of the collapsed axis. */
  lemma MeanDivisorIsAxisSize(s: Shape, axis: nat)
    requires axis < |s| && Elements(CollapseAxis(s, axis)) != 0
    ensures MeanDivisor(s, CollapseAxis(s, axis)) == s[axis]
  {
    var e := Elements(CollapseAxis(s, axis));
    CollapseElements(s, axis);
    assert Elements(s) == s[axis] * e;
    TruncDivExact(s[axis], e);
  }

  /** sizeof(float) */
  const FloatBytes := 4

  /** StepNodeOp's byte offset into the child's memory, the same for value and gradient. */
  function StepOffset(step: int, outShape: Shape): int
  {
    step * Elements(outShape) * FloatBytes
  }

  /**
   * When all dimensions before the axis are 1 (the consecutive-slice case the
   * disabled check in the source stands for), the step view starts at the
   * first element of slice `step`: step times the row-major stride of the
   * axis, in bytes.
   */
  lemma StepOffsetIsSliceStart(s: Shape, axis: nat, step: int)
    requires axis < |s|
    requires forall i :: 0 <= i < axis ==> s[i] == 1
    ensures Elements(s) == s[axis] * Elements(s[axis + 1..])
    ensures StepOffset(step, CollapseAxis(s, axis)) == step * Elements(s[axis + 1..]) * FloatBytes
  {
    var out := CollapseAxis(s, axis);
    LeadingOnesElements(s, axis);
    LeadingOnesElements(out, axis);
    assert s[axis..][1..] == s[axis + 1..];
    assert out[axis..][1..] == s[axis + 1..];
  }

  /** Leading dimensions of size 1 do not change the element count. */
  lemma {:induction false} LeadingOnesElements(s: Shape, k: nat)
    requires k <= |s|
    requires forall i :: 0 <= i < k ==> s[i] == 1
    ensures Elements(s) == Elements(s[k..])
  {
    if k == 0 {
      assert s[k..] == s;
    } else {
      LeadingOnesElements(s[1..], k - 1);
      assert s[1..][k - 1..] == s[k..];
    }
  }

  // ------------------------------------------------------- masked pooling

  /**
   * PoolingWithMaskingOp's output shape {batch, word, sentence}: the sentence
   * dimension (one fewer when isEven) split into windows of `width`, counting
   * a partial last window, with C++ int division and remainder.
   */
  function PoolingShape(x: Shape, width: int, isEven: bool): (r: Shape)
    requires |x| >= 3 && width > 0
    ensures |r| == 3 && r[0] == x[0] && r[1] == x[1]
  {
    var cols := if isEven then x[2] - 1 else x[2];
    var dimSentence := TruncDiv(cols, width) + (if TruncMod(cols, width) != 0 then 1 else 0);
    [x[0], x[1], dimSentence]
  }

  /** For a non-negative sentence length the pooled length is the ceiling of length / width. */
  lemma PoolingIsCeil(x: Shape, width: int, isEven: bool)
    requires |x| >= 3 && width > 0
    requires (if isEven then x[2] - 1 else x[2]) >= 0
    ensures PoolingShape(x, width, isEven)[2] == CeilDiv(if isEven then x[2] - 1 else x[2], width)
  {
    var cols: nat := if isEven then x[2] - 1 else x[2];
    var q := CeilDiv(cols, width);
    var r := PoolingShape(x, width, isEven)[2];
    assert cols == width * (cols / width) + cols % width;
    assert r == cols / width + (if cols % width != 0 then 1 else 0);
    assert r * width >= cols && (r > 0 ==> (r - 1) * width < cols);
    CeilUnique(cols, width, q, r);
  }

  /** Only one count of windows covers cols without a spare window. */
  lemma CeilUnique(cols: nat, width: nat, q: nat, r: nat)
    requires width > 0
    requires q * width >= cols && (q > 0 ==> (q - 1) * width < cols)
    requires r * width >= cols && (r > 0 ==> (r - 1) * width < cols)
    ensures q == r
  {
    if q < r {
      MulLe(q, r - 1, width);
    } else if r < q {
      MulLe(r, q - 1, width);
    }
  }

  /**
   * With isEven over an empty sentence dimension, cols is -1: a window wider
   * than 1 then gives one pooled position where the ceiling is 0, because the
   * truncating remainder of -1 is not 0.
   */
  lemma PoolingEvenEmpty(x: Shape, width: int)
    requires |x| >= 3 && width > 1 && x[2] == 0
    ensures PoolingShape(x, width, true)[2] == 1
  {
    assert 1 / width == 0;
    assert TruncDiv(-1, width) == 0;
  }
}
