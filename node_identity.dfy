/**
 * Node identity in the expression graph: the parameter-sensitive `equal` and
 * the memoised `hash` overrides of the unary nodes, and the storage-free
 * lifecycle of the aliasing nodes (reshape and step).
 *
 * What NaryNodeOp::equal compares and NaryNodeOp::hash digests (node type,
 * children, shape) is summarised by one value `base`; float parameters are
 * reals.
 */
module NodeIdentity {
  import opened Wrappers
  import opened NodeShapes

  /** The unary node kinds that override hash and equal, with the parameters they keep. */
  datatype Op =
    | ScalarAdd(scalar: real)
    | ScalarMult(scalar: real)
    | Clip(clip: real)
    | PReLU(alpha: real)
    | Sum(axis: int)
    | Mean(axis: int)
    | Sqrt(epsilon: real)
    | Transpose(axes: seq<int>)
    | Reshape(shape: Shape)
    | Step(step: int, axis: int)
    | Shift(shift: Shape, padValue: real)

  datatype Node = Node(base: int, op: Op)

  /** One value passed to hash_combine. */
  datatype Param = RealParam(r: real) | IntParam(i: int)

  function IntParams(xs: seq<int>): (ps: seq<Param>)
    ensures |ps| == |xs| && forall i :: 0 <= i < |xs| ==> ps[i] == IntParam(xs[i])
  {
    if |xs| == 0 then [] else IntParams(xs[..|xs| - 1]) + [IntParam(xs[|xs| - 1])]
  }

  /** The values each hash override mixes into the base hash, in order. */
  function Params(op: Op): seq<Param>
  {
    match op
    case ScalarAdd(x) => [RealParam(x)]
    case ScalarMult(x) => [RealParam(x)]
    case Clip(x) => [RealParam(x)]
    case PReLU(x) => [RealParam(x)]
    case Sum(a) => [IntParam(a)]
    case Mean(a) => [IntParam(a)]
    case Sqrt(e) => [RealParam(e)]
    case Transpose(axes) => IntParams(axes)
    case Reshape(shape) => IntParams(shape)
    case Step(s, a) => [IntParam(s), IntParam(a)]
    case Shift(shift, pad) => IntParams(shift) + [RealParam(pad)]
  }

  /** hash_combine applied to a seed and each value in turn. */
  function Fold(combine: (int, Param) -> int, seed: int, ps: seq<Param>): int
  {
    if |ps| == 0 then seed else combine(Fold(combine, seed, ps[..|ps| - 1]), ps[|ps| - 1])
  }

  /** The hash a node's override computes: the base hash with its parameters mixed in. */
  function NodeHash(baseHash: int -> int, combine: (int, Param) -> int, n: Node): int
  {
    Fold(combine, baseHash(n.base), Params(n.op))
  }

  /**
   * Parameter comparison of the equal overrides as written: the same kind
   * (the dynamic cast succeeds) and the same parameters, except that Shift
   * compares only its offsets and not padValue_.
   */
  predicate SameParamsAsWritten(a: Op, b: Op)
  {
    match (a, b)
    case (ScalarAdd(x), ScalarAdd(y)) => x == y
    case (ScalarMult(x), ScalarMult(y)) => x == y
    case (Clip(x), Clip(y)) => x == y
    case (PReLU(x), PReLU(y)) => x == y
    case (Sum(x), Sum(y)) => x == y
    case (Mean(x), Mean(y)) => x == y
    case (Sqrt(x), Sqrt(y)) => x == y
    case (Transpose(x), Transpose(y)) => x == y
    case (Reshape(x), Reshape(y)) => x == y
    case (Step(s, x), Step(t, y)) => s == t && x == y
    case (Shift(x, _), Shift(y, _)) => x == y
    case _ => false
  }

  /** equal() as written: the base nodes are equal and the parameters match as above. */
  function EqualAsWritten(a: Node, b: Node): (r: bool)
    ensures r <==> a == b || (a.base == b.base && a.op.Shift? && b.op.Shift? && a.op.shift == b.op.shift)
  {
    a.base == b.base && SameParamsAsWritten(a.op, b.op)
  }

  /** Parameter comparison with Shift also comparing padValue_. */
  predicate SameParams(a: Op, b: Op)
  {
    match (a, b)
    case (Shift(x, p), Shift(y, q)) => x == y && p == q
    case _ => SameParamsAsWritten(a, b)
  }

  /** equal() with every parameter the hash mixes in compared: exactly structural equality. */
  function Equal(a: Node, b: Node): (r: bool)
    ensures r <==> a == b
  {
    a.base == b.base && SameParams(a.op, b.op)
  }

  /** Corrected equal never holds between nodes whose hashes may differ, whatever mixing function is used. */
  lemma EqualImpliesSameHash(baseHash: int -> int, combine: (int, Param) -> int, a: Node, b: Node)
    requires Equal(a, b)
    ensures NodeHash(baseHash, combine, a) == NodeHash(baseHash, combine, b)
  {
  }

  /** Apart from Shift, the equal overrides as written already agree with the corrected one. */
  lemma AsWrittenAgreesOffShift(a: Node, b: Node)
    requires !a.op.Shift? || !b.op.Shift?
    ensures EqualAsWritten(a, b) <==> Equal(a, b)
  {
  }

  /** A mixing function that only notices a float parameter equal to 1. */
  function MarkOne(h: int, p: Param): int
  {
    if p == RealParam(1.0) then h + 1 else h
  }

  /**
   * Two Shift nodes over the same input and offsets but different pad values
   * are equal as written, yet their hash inputs differ, and for the mixing
   * function MarkOne their hashes do.
   */
  lemma ShiftEqualIgnoresPad()
    ensures var a, b := Node(0, Shift([1], 0.0)), Node(0, Shift([1], 1.0));
      EqualAsWritten(a, b) && !Equal(a, b)
      && NodeHash(x => x, MarkOne, a) != NodeHash(x => x, MarkOne, b)
  {
    var a, b := Node(0, Shift([1], 0.0)), Node(0, Shift([1], 1.0));
    var pa, pb := [IntParam(1), RealParam(0.0)], [IntParam(1), RealParam(1.0)];
    assert IntParams([1]) == [IntParam(1)];
    assert Params(a.op) == pa && Params(b.op) == pb;
    assert pa[..1] == [IntParam(1)] && pb[..1] == [IntParam(1)];
    assert Fold(MarkOne, 0, [IntParam(1)]) == 0;
    assert Fold(MarkOne, 0, pa) == 0;
    assert Fold(MarkOne, 0, pb) == 1;
  }

  /** The hash_combine loop over a parameter list (the `for(auto ax : axes_)` loops). */
  method MixParams(combine: (int, Param) -> int, seed: int, ps: seq<Param>) returns (h: int)
    ensures h == Fold(combine, seed, ps)
  {
    h := seed;
    for i := 0 to |ps|
      invariant h == Fold(combine, seed, ps[..i])
    {
      assert ps[..i + 1][..i] == ps[..i];
      h := combine(h, ps[i]);
    }
    assert ps[..|ps|] == ps;
  }

  /**
   * A node with its memoised hash: hash_ stays 0 until hash() is first
   * called, and afterwards holds the node's hash.
   */
  class HashedNode {
    const node: Node
    const baseHash: int -> int
    const combine: (int, Param) -> int
    /** hash_: 0 while not yet computed. */
    var hashCache: int

    ghost predicate Valid()
      reads this
    {
      hashCache == 0 || hashCache == NodeHash(baseHash, combine, node)
    }

    constructor (n: Node, baseHash: int -> int, combine: (int, Param) -> int)
      ensures Valid() && hashCache == 0
      ensures node == n && this.baseHash == baseHash && this.combine == combine
    {
      node := n;
      this.baseHash := baseHash;
      this.combine := combine;
      hashCache := 0;
    }

    /**
     * hash(): computed and stored while hash_ is 0, otherwise returned from
     * the cache unchanged; either way the node's hash.
     */
    method Hash() returns (h: int)
      requires Valid()
      modifies this
      ensures Valid() && h == NodeHash(baseHash, combine, node)
      ensures old(hashCache) != 0 ==> hashCache == old(hashCache)
      ensures old(hashCache) == 0 ==> hashCache == h
    {
      if hashCache == 0 {
        hashCache := MixParams(combine, baseHash(node.base), Params(node.op));
      }
      h := hashCache;
    }
  }

  /** The memory a tensor handle points at: a byte offset into its owner's memory, a byte size and a shape. */
  datatype View = View(offset: int, bytes: int, shape: Shape)

  /** The shape a reshape or step node is built with: the given shape, or the input with the step axis collapsed. */
  function AliasShape(op: Op, inShape: Shape): Shape
    requires op.Reshape? || (op.Step? && 0 <= op.axis < |inShape|)
  {
    if op.Reshape? then op.shape else CollapseAxis(inShape, op.axis)
  }

  /** Where an aliasing node's view starts in its child's memory: in place for reshape, the step offset for step. */
  function AliasOffset(op: Op, outShape: Shape): int
    requires op.Reshape? || op.Step?
  {
    if op.Reshape? then 0 else StepOffset(op.step, outShape)
  }

  /**
   * ReshapeNodeOp and StepNodeOp: nodes that own no memory and compute
   * nothing; their value and gradient are views into the child's.
   */
  class AliasNode {
    const op: Op
    const outShape: Shape
    /** destroy_ */
    var destroy: bool
    /** val_ and adj_: the handles last handed out. */
    var val: Option<View>
    var grad: Option<View>

    /** The constructors set destroy_ to false: the memory belongs to the child. */
    constructor (op: Op, inShape: Shape)
      requires op.Reshape? || (op.Step? && 0 <= op.axis < |inShape|)
      ensures this.op == op && outShape == AliasShape(op, inShape)
      ensures !destroy && val.None? && grad.None?
    {
      this.op := op;
      outShape := AliasShape(op, inShape);
      destroy := false;
      val := None;
      grad := None;
    }

    /** allocate(): no memory is reserved. */
    method Allocate() returns (bytes: nat)
      ensures bytes == 0
    {
      bytes := 0;
    }

    /** free(), forward() and backward() do nothing: they may modify nothing. */
    method Free()
    {
    }

    method Forward()
    {
    }

    method Backward()
    {
    }

    /** val(): a fresh handle on the child's value memory, moved by the node's offset, with this node's shape. */
    method Val(childVal: View) returns (v: View)
      requires op.Reshape? || op.Step?
      modifies this
      ensures v == View(childVal.offset + AliasOffset(op, outShape), childVal.bytes, outShape)
      ensures val == Some(v) && grad == old(grad) && destroy == old(destroy)
    {
      v := View(childVal.offset + AliasOffset(op, outShape), childVal.bytes, outShape);
      val := Some(v);
    }

    /** grad(): the same over the child's gradient memory. */
    method Grad(childGrad: View) returns (g: View)
      requires op.Reshape? || op.Step?
      modifies this
      ensures g == View(childGrad.offset + AliasOffset(op, outShape), childGrad.bytes, outShape)
      ensures grad == Some(g) && val == old(val) && destroy == old(destroy)
    {
      g := View(childGrad.offset + AliasOffset(op, outShape), childGrad.bytes, outShape);
      grad := Some(g);
    }
  }

  /**
   * A step node built on the step-th slice of an input whose leading
   * dimensions are 1 views exactly that slice: its value and gradient start
   * `step` row-major strides of the axis into the child's memory.
   */
  lemma StepViewIsSlice(inShape: Shape, step: int, axis: nat)
    requires axis < |inShape|
    requires forall i :: 0 <= i < axis ==> inShape[i] == 1
    ensures AliasOffset(Step(step, axis), AliasShape(Step(step, axis), inShape))
      == step * Elements(inShape[axis + 1..]) * FloatBytes
  {
    StepOffsetIsSliceStart(inShape, axis, step);
  }
}
