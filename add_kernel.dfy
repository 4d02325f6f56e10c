/**
 * The CPU accumulation kernels behind Add(functor, scale, out, ins...):
 * out += scale * functor(ins...), elementwise (gAddEqual, gAddGeneric) or
 * summed along the last axis (gAddReduce), chosen by shape in Add.
 *
 * Element values and the scale are integers. The functor is abstracted as a
 * function of the index it reads in each input; the broadcast index map
 * (Shape::bindex over dims) and the broadcasting reduction
 * functional::loops are given functions.
 */
module AddKernel {
  import opened NodeShapes
  import opened Sharding

  /**
   * The functor over k inputs: f applied to one index per input, and the
   * index into input i that flat index t of the broadcast shape reads.
   */
  datatype Kernel = Kernel(f: seq<int> -> int, k: nat, bindex: (int, int) -> int)

  /** The index each input is read at for flat index t: t itself, or its broadcast index. */
  function Indices(kn: Kernel, t: int, broadcast: bool): (ix: seq<int>)
    ensures |ix| == kn.k
  {
    if broadcast then seq(kn.k, i => kn.bindex(i, t)) else seq(kn.k, _ => t)
  }

  /** functional::apply(functor, ins, indices) at flat index t. */
  function Term(kn: Kernel, t: int, broadcast: bool): int
  {
    kn.f(Indices(kn, t, broadcast))
  }

  /** The terms at flat indices from .. from+count-1 added up. */
  function SumTerms(kn: Kernel, broadcast: bool, from: int, count: nat): int
  {
    if count == 0 then 0 else SumTerms(kn, broadcast, from, count - 1) + Term(kn, from + count - 1, broadcast)
  }

  /** A run of terms splits into two consecutive runs. */
  lemma {:induction false} SumTermsSplit(kn: Kernel, broadcast: bool, from: int, a: nat, b: nat)
    ensures SumTerms(kn, broadcast, from, a + b) == SumTerms(kn, broadcast, from, a) + SumTerms(kn, broadcast, from + a, b)
  {
    if b > 0 {
      SumTermsSplit(kn, broadcast, from, a, b - 1);
    }
  }

  /** The row sums of rows 0 .. rows-1 of a rows x cols layout, added up. */
  function RowsTotal(kn: Kernel, broadcast: bool, rows: nat, cols: nat): int
  {
    if rows == 0 then 0 else RowsTotal(kn, broadcast, rows - 1, cols) + SumTerms(kn, broadcast, (rows - 1) * cols, cols)
  }

  /** The row sums gAddReduce adds to out together make up the sum over the whole broadcast shape. */
  lemma {:induction false} RowSumsAddUp(kn: Kernel, broadcast: bool, rows: nat, cols: nat)
    ensures RowsTotal(kn, broadcast, rows, cols) == SumTerms(kn, broadcast, 0, rows * cols)
  {
    if rows > 0 {
      RowSumsAddUp(kn, broadcast, rows - 1, cols);
      assert rows * cols == (rows - 1) * cols + cols;
      SumTermsSplit(kn, broadcast, 0, (rows - 1) * cols, cols);
    }
  }

  /**
   * The `same` flag loops: starting from init, stay true while every
   * input's element count equals n.
   */
  method AllEqualFrom(init: bool, counts: seq<int>, n: int) returns (same: bool)
    ensures same <==> init && AllCountsAre(counts, n)
  {
    same := init;
    for i := 0 to |counts|
      invariant same <==> init && forall j :: 0 <= j < i ==> counts[j] == n
    {
      same := same && counts[i] == n;
    }
  }

  /** Every input has n elements. */
  predicate AllCountsAre(counts: seq<int>, n: int)
  {
    forall i :: 0 <= i < |counts| ==> counts[i] == n
  }

  /** k dimensions of size 1. */
  function Ones(k: nat): (r: Shape)
    ensures |r| == k && forall i :: 0 <= i < k ==> r[i] == 1
  {
    seq(k, _ => 1)
  }

  /**
   * A shape as a fixed-rank functional::Shape holds it: left-padded with
   * dimensions of size 1 up to rank r. A shape of rank r or more is kept.
   */
  function PadTo(s: Shape, r: nat): (p: Shape)
    ensures |s| <= r ==> |p| == r
    ensures |s| <= r ==> forall i :: 0 <= i < r - |s| ==> p[i] == 1
    ensures |s| <= r ==> forall i :: r - |s| <= i < r ==> p[i] == s[i - (r - |s|)]
    ensures |s| >= r ==> p == s
  {
    if |s| >= r then s else Ones(r - |s|) + s
  }

  /** The functional::Shape comparison: both shapes padded with 1s to their common rank agree. */
  predicate SameFixedShape(a: Shape, b: Shape)
  {
    var r := if |a| < |b| then |b| else |a|;
    PadTo(a, r) == PadTo(b, r)
  }

  /** Padding with 1s keeps the element count. */
  lemma PadKeepsElements(s: Shape, r: nat)
    ensures Elements(PadTo(s, r)) == Elements(s)
  {
    if |s| < r {
      var p := PadTo(s, r);
      LeadingOnesElements(p, r - |s|);
      assert p[r - |s|..] == s;
    }
  }

  /**
   * Shapes that compare equal as fixed-rank shapes have the same element
   * count; of equal rank, they compare equal exactly when they are equal.
   */
  lemma SameFixedShapeMeaning(a: Shape, b: Shape)
    ensures SameFixedShape(a, b) ==> Elements(a) == Elements(b)
    ensures |a| == |b| ==> (SameFixedShape(a, b) <==> a == b)
  {
    var r := if |a| < |b| then |b| else |a|;
    PadKeepsElements(a, r);
    PadKeepsElements(b, r);
  }

  /** An input of lower rank whose missing leading dimensions are 1 compares equal to out. */
  lemma LowerRankMatches()
    ensures SameFixedShape([4], [1, 4]) && [4] != [1, 4]
  {
    assert PadTo([4], 2) == [1] + [4] == [1, 4];
  }

  /** Add's `broadcast` loop: true when some input's fixed-rank shape differs from out's. */
  method AnyShapeDiffers(insShapes: seq<Shape>, outShape: Shape) returns (broadcast: bool)
    ensures broadcast <==> exists i :: 0 <= i < |insShapes| && !SameFixedShape(insShapes[i], outShape)
  {
    broadcast := false;
    for i := 0 to |insShapes|
      invariant broadcast <==> exists j :: 0 <= j < i && !SameFixedShape(insShapes[j], outShape)
    {
      broadcast := broadcast || !SameFixedShape(insShapes[i], outShape);
    }
  }

  /** Every dimension is positive. */
  predicate PositiveShape(s: Shape)
  {
    forall i :: 0 <= i < |s| ==> s[i] > 0
  }

  /** gAddGeneric's `len` loop: how many times full repeats out along each axis. */
  method Repeats(full: Shape, outShape: Shape) returns (len: seq<int>)
    requires |outShape| == |full|
    requires forall i :: 0 <= i < |outShape| ==> outShape[i] != 0
    ensures |len| == |full|
    ensures forall i :: 0 <= i < |full| ==> len[i] == TruncDiv(full[i], outShape[i])
  {
    len := [];
    for i := 0 to |full|
      invariant |len| == i
      invariant forall j :: 0 <= j < i ==> len[j] == TruncDiv(full[j], outShape[j])
    {
      len := len + [TruncDiv(full[i], outShape[i])];
    }
  }

  /** The `len` array as a value: full's dimensions over out's, with C++ int division. */
  function RepeatCounts(full: Shape, outShape: Shape): seq<int>
    requires |outShape| == |full|
    requires forall i :: 0 <= i < |outShape| ==> outShape[i] != 0
  {
    seq(|full|, i requires 0 <= i < |full| => TruncDiv(full[i], outShape[i]))
  }

  /**
   * When out broadcasts into full (each dimension equal or 1), len[i] is the
   * exact repeat count: len[i] * out[i] == full[i].
   */
  lemma RepeatsExact(full: Shape, outShape: Shape, len: seq<int>)
    requires |outShape| == |full| == |len|
    requires forall i :: 0 <= i < |full| ==> outShape[i] == full[i] || outShape[i] == 1
    requires forall i :: 0 <= i < |full| ==> outShape[i] != 0 && len[i] == TruncDiv(full[i], outShape[i])
    ensures forall i :: 0 <= i < |full| ==> len[i] * outShape[i] == full[i]
  {
    forall i | 0 <= i < |full|
      ensures len[i] * outShape[i] == full[i]
    {
      if outShape[i] == 1 {
        TruncDivExact(full[i], 1);
      } else {
        TruncDivExact(1, full[i]);
      }
    }
  }

  /**
   * gAddEqual: for each index of out, add scale times the functor at that
   * index (at each input's broadcast index when broadcast is set).
   */
  method GAddEqual(kn: Kernel, outShape: Shape, out: array<int>, scale: int, broadcast: bool)
    requires Elements(outShape) <= out.Length
    modifies out
    ensures forall i :: 0 <= i < Elements(outShape) ==> out[i] == old(out[i]) + Term(kn, i, broadcast) * scale
    ensures forall i :: 0 <= i < out.Length && i >= Elements(outShape) ==> out[i] == old(out[i])
  {
    var length := Elements(outShape);
    var index := 0;
    while index < length
      invariant 0 <= index <= out.Length && (index <= length || index == 0)
      invariant forall i :: 0 <= i < index ==> out[i] == old(out[i]) + Term(kn, i, broadcast) * scale
      invariant forall i :: index <= i < out.Length ==> out[i] == old(out[i])
      decreases length - index
    {
      out[index] := out[index] + Term(kn, index, broadcast) * scale;
      index := index + 1;
    }
  }

  /** gAddReduce's row count: full's elements over its last dimension. */
  function ReduceRows(full: Shape): int
    requires |full| > 0 && full[|full| - 1] != 0
  {
    TruncDiv(Elements(full), full[|full| - 1])
  }

  /** For a positive shape the row count is the product of the leading dimensions. */
  lemma ReduceRowsLeading(full: Shape)
    requires |full| > 0 && PositiveShape(full)
    ensures ReduceRows(full) == Elements(full[..|full| - 1]) >= 1
  {
    var n := |full| - 1;
    assert full == full[..n] + [full[n]];
    ElementsAppend(full[..n], [full[n]]);
    assert Elements([full[n]]) == full[n];
    TruncDivExact(Elements(full[..n]), full[n]);
    PositiveElements(full[..n]);
  }

  lemma {:induction false} PositiveElements(s: Shape)
    requires PositiveShape(s)
    ensures Elements(s) >= 1
  {
    if |s| > 0 {
      PositiveElements(s[1..]);
      MulLe(1, s[0], Elements(s[1..]));
    }
  }

  /**
   * gAddReduce: with rows = elements / last dimension and cols = last
   * dimension of full, add scale times the sum of row j's terms to out[j].
   * The terms are read directly when every input has full's element count,
   * and through the broadcast index otherwise.
   */
  method GAddReduce(kn: Kernel, full: Shape, out: array<int>, insElems: seq<int>, scale: int)
    requires |full| > 0 && PositiveShape(full)
    requires ReduceRows(full) <= out.Length
    modifies out
    ensures var same := AllCountsAre(insElems, Elements(full));
      var cols := full[|full| - 1];
      forall j :: 0 <= j < ReduceRows(full) ==>
        out[j] == old(out[j]) + SumTerms(kn, !same, j * cols, cols) * scale
    ensures forall j :: 0 <= j < out.Length && j >= ReduceRows(full) ==> out[j] == old(out[j])
  {
    ReduceRowsLeading(full);
    var rows := ReduceRows(full);
    var cols := full[|full| - 1];
    var same := AllEqualFrom(true, insElems, Elements(full));
    for j := 0 to rows
      invariant forall r :: 0 <= r < j ==> out[r] == old(out[r]) + SumTerms(kn, !same, r * cols, cols) * scale
      invariant forall r :: j <= r < out.Length ==> out[r] == old(out[r])
    {
      var sum := 0;
      for id := 0 to cols
        invariant sum == SumTerms(kn, !same, j * cols, id)
      {
        sum := sum + Term(kn, j * cols + id, !same);
      }
      out[j] := out[j] + sum * scale;
    }
  }

  /**
   * As written, Add takes the reduce path whenever out is 1 along the last
   * axis and full is not, even when out is also collapsed along a leading
   * axis: out [1, 1] against full [3, 4] walks 3 rows into a 1-element out.
   */
  lemma ReduceOverrunsOut()
    ensures ReduceCase([1, 1], [3, 4]) && PositiveShape([3, 4])
    ensures ReduceRows([3, 4]) == 3 && Elements([1, 1]) == 1
  {
    assert Elements([3, 4]) == 12 by {
      assert [3, 4][1..] == [4] && [4][1..] == [];
    }
    assert TruncDiv(12, 4) == 3;
    assert [1, 1][1..] == [1] && [1][1..] == [];
  }

  /**
   * In the case the reduce path is meant for, out is full with the last
   * axis collapsed, and then gAddReduce's rows are exactly out's elements.
   */
  lemma ReduceRowsMatchCollapsedOut(full: Shape)
    requires |full| > 0 && PositiveShape(full)
    ensures ReduceRows(full) == Elements(CollapseAxis(full, |full| - 1))
  {
    var n := |full| - 1;
    ReduceRowsLeading(full);
    assert CollapseAxis(full, n) == full[..n] + [1];
    ElementsAppend(full[..n], [1]);
    assert Elements([1]) == 1;
  }

  /**
   * What gAddGeneric adds at index i before scaling: the functor at i when
   * out, full and every input have the same element count, and otherwise
   * functional::loops over the repeat counts `len`.
   */
  function GenericTerm(kn: Kernel, full: Shape, outShape: Shape, insElems: seq<int>,
                       loops: (seq<int>, int) -> int, i: int): int
    requires |outShape| == |full| && forall d :: 0 <= d < |outShape| ==> outShape[d] != 0
  {
    if Elements(outShape) == Elements(full) && AllCountsAre(insElems, Elements(outShape))
    then Term(kn, i, false)
    else loops(RepeatCounts(full, outShape), i)
  }

  /** gAddGeneric: add scale times GenericTerm at each index of out. */
  method GAddGeneric(kn: Kernel, full: Shape, outShape: Shape, out: array<int>, insElems: seq<int>,
                     scale: int, loops: (seq<int>, int) -> int)
    requires |outShape| == |full| && forall i :: 0 <= i < |outShape| ==> outShape[i] != 0
    requires Elements(outShape) <= out.Length
    modifies out
    ensures forall i :: 0 <= i < Elements(outShape) ==>
      out[i] == old(out[i]) + GenericTerm(kn, full, outShape, insElems, loops, i) * scale
    ensures forall i :: 0 <= i < out.Length && i >= Elements(outShape) ==> out[i] == old(out[i])
  {
    var outLength := Elements(outShape);
    var same := AllEqualFrom(outLength == Elements(full), insElems, outLength);
    var len := Repeats(full, outShape);
    assert len == RepeatCounts(full, outShape);
    var index := 0;
    while index < outLength
      invariant 0 <= index <= out.Length && (index <= outLength || index == 0)
      invariant forall i :: 0 <= i < index ==>
        out[i] == old(out[i]) + GenericTerm(kn, full, outShape, insElems, loops, i) * scale
      invariant forall i :: index <= i < out.Length ==> out[i] == old(out[i])
      decreases outLength - index
    {
      if same {
        out[index] := out[index] + Term(kn, index, false) * scale;
      } else {
        out[index] := out[index] + loops(len, index) * scale;
      }
      index := index + 1;
    }
  }

  /** Which kernel Add runs. */
  datatype Path = ReducePath | EqualPath(broadcast: bool) | GenericPath

  /** The reduce case: full is longer than 1 along the last axis, out is not. */
  predicate ReduceCase(outShape: Shape, full: Shape)
    requires |outShape| > 0 && |full| > 0
  {
    full[|full| - 1] != 1 && outShape[|outShape| - 1] == 1
  }

  /**
   * Add's dispatch: reduce when out is collapsed along the last axis but full
   * is not; otherwise gAddEqual when out has full's shape, broadcasting iff
   * some input's fixed-rank shape differs from out's; otherwise gAddGeneric.
   */
  method Dispatch(outShape: Shape, full: Shape, insShapes: seq<Shape>) returns (p: Path)
    requires |outShape| > 0 && |full| > 0
    ensures p.ReducePath? <==> ReduceCase(outShape, full)
    ensures p.EqualPath? <==> !ReduceCase(outShape, full) && outShape == full
    ensures p.GenericPath? <==> !ReduceCase(outShape, full) && outShape != full
    ensures p.EqualPath? ==> (p.broadcast <==> exists i :: 0 <= i < |insShapes| && !SameFixedShape(insShapes[i], outShape))
  {
    if full[|full| - 1] != 1 && outShape[|outShape| - 1] == 1 {
      p := ReducePath;
    } else if outShape == full {
      var broadcast := AnyShapeDiffers(insShapes, outShape);
      p := EqualPath(broadcast);
    } else {
      p := GenericPath;
    }
  }

  /** The element counts of the inputs. */
  function ElementCounts(insShapes: seq<Shape>): (counts: seq<int>)
    ensures |counts| == |insShapes|
  {
    seq(|insShapes|, i requires 0 <= i < |insShapes| => Elements(insShapes[i]))
  }

  /**
   * Add: dispatch on the shapes and run the chosen kernel. Whatever the path,
   * out is only added to: each element covered gains scale times its term,
   * and every other element is unchanged.
   */
  method Add(kn: Kernel, scale: int, out: array<int>, outShape: Shape, insShapes: seq<Shape>,
             full: Shape, loops: (seq<int>, int) -> int) returns (p: Path)
    requires kn.k == |insShapes| && |outShape| > 0 && |full| > 0
    requires Elements(outShape) <= out.Length
    requires ReduceCase(outShape, full) ==> PositiveShape(full) && ReduceRows(full) <= out.Length
    requires !ReduceCase(outShape, full) && outShape != full ==>
      |outShape| == |full| && forall i :: 0 <= i < |outShape| ==> outShape[i] != 0
    modifies out
    ensures p.ReducePath? <==> ReduceCase(outShape, full)
    ensures p.EqualPath? <==> !ReduceCase(outShape, full) && outShape == full
    ensures p.EqualPath? ==> (p.broadcast <==> exists i :: 0 <= i < |insShapes| && !SameFixedShape(insShapes[i], outShape))
    ensures p.ReducePath? ==>
      var same := AllCountsAre(ElementCounts(insShapes), Elements(full));
      var cols := full[|full| - 1];
      (forall j :: 0 <= j < ReduceRows(full) ==> out[j] == old(out[j]) + SumTerms(kn, !same, j * cols, cols) * scale)
      && (forall j :: 0 <= j < out.Length && j >= ReduceRows(full) ==> out[j] == old(out[j]))
    ensures p.EqualPath? ==>
      (forall i :: 0 <= i < Elements(outShape) ==> out[i] == old(out[i]) + Term(kn, i, p.broadcast) * scale)
      && (forall i :: 0 <= i < out.Length && i >= Elements(outShape) ==> out[i] == old(out[i]))
    ensures p.GenericPath? ==>
      (forall i :: 0 <= i < Elements(outShape) ==>
        out[i] == old(out[i]) + GenericTerm(kn, full, outShape, ElementCounts(insShapes), loops, i) * scale)
      && (forall i :: 0 <= i < out.Length && i >= Elements(outShape) ==> out[i] == old(out[i]))
  {
    p := Dispatch(outShape, full, insShapes);
    var counts := ElementCounts(insShapes);
    match p
    case ReducePath =>
      GAddReduce(kn, full, out, counts, scale);
    case EqualPath(broadcast) =>
      GAddEqual(kn, outShape, out, scale, broadcast);
    case GenericPath =>
      GAddGeneric(kn, full, outShape, out, counts, scale, loops);
  }
}
