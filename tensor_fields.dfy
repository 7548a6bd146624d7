/**
 * A tensor field: one rank-r tensor of d^r elements at each of the
 * divisions^dims points of a grid, points stored in row-major order of
 * their grid coordinates (the last coordinate fastest).  The point
 * tensors are held by value in one buffer that the field owns.
 */
module TensorFields {
  import opened TagAlgebra
  import opened Elementwise
  import opened Wrappers
  import opened Expressions
  import opened Assignment

  // ----------------------------------------------------------------------
  // Field expressions

  /**
   * The field-level expression tree: a leaf is a field indexed by tags
   * (holding the field's point tensors), and the product, sum and scalar
   * nodes combine fields point by point.
   */
  datatype FieldExpr =
    | FieldLeaf(points: seq<seq<real>>, rank: nat, tags: Pack)
    | FieldProduct(left: FieldExpr, right: FieldExpr, inverse: bool)
    | FieldSum(left: FieldExpr, right: FieldExpr, inverse: bool)
    | FieldScale(multiplier: real, child: FieldExpr, inverse: bool)

  /** Every leaf covers `n` points of d^rank elements and is indexed by `rank` tags. */
  predicate FieldShaped(fe: FieldExpr, d: nat, n: nat)
  {
    match fe
    case FieldLeaf(points, rank, tags) =>
      |points| == n && |tags| == rank && forall k :: 0 <= k < n ==> |points[k]| == Power(d, rank)
    case FieldProduct(l, r, _) => FieldShaped(l, d, n) && FieldShaped(r, d, n)
    case FieldSum(l, r, _) => FieldShaped(l, d, n) && FieldShaped(r, d, n)
    case FieldScale(_, c, _) => FieldShaped(c, d, n)
  }

  /** The free tags of the point expressions, computed from the tags alone. */
  function FieldFree(fe: FieldExpr): Pack
  {
    match fe
    case FieldLeaf(_, _, tags) => RemoveRepeats(tags)
    case FieldProduct(l, r, _) => RemoveRepeats(FieldFree(l) + FieldFree(r))
    case FieldSum(l, _, _) => FieldFree(l)
    case FieldScale(_, c, _) => FieldFree(c)
  }

  /** Every sum in the tree joins operands with EqualPacks free lists. */
  predicate FieldCompiles(fe: FieldExpr)
  {
    match fe
    case FieldLeaf(_, _, _) => true
    case FieldProduct(l, r, _) => FieldCompiles(l) && FieldCompiles(r)
    case FieldSum(l, r, _) => FieldCompiles(l) && FieldCompiles(r) && EqualPacks(FieldFree(l), FieldFree(r))
    case FieldScale(_, c, _) => FieldCompiles(c)
  }

  /**
   * operator[] of a field expression: the tensor expression at point i,
   * built from point i of every field in the tree.  It is None exactly
   * when a tensor-level `+` or `-` would not exist.
   */
  function PointExpr(fe: FieldExpr, d: nat, n: nat, i: nat): (r: Option<Expr>)
    requires d > 0 && FieldShaped(fe, d, n) && i < n
    ensures r.Some? <==> FieldCompiles(fe)
    ensures r.Some? ==> WF(r.value, d) && Free(r.value) == FieldFree(fe)
  {
    match fe
    case FieldLeaf(points, rank, tags) =>
      var leaf := MakeLeaf(points[i], rank, tags);
      assert leaf.Some? && WF(leaf.value, d);
      leaf
    case FieldProduct(l, r, inv) =>
      var a := PointExpr(l, d, n, i);
      var b := PointExpr(r, d, n, i);
      if a.Some? && b.Some? then Some(MulExpr(a.value, b.value, inv)) else None
    case FieldSum(l, r, inv) =>
      var a := PointExpr(l, d, n, i);
      var b := PointExpr(r, d, n, i);
      if a.Some? && b.Some? then AddExpr(a.value, b.value, inv) else None
    case FieldScale(m, c, inv) =>
      var a := PointExpr(c, d, n, i);
      if a.Some? then Some(ScaleExpr(m, a.value, inv)) else None
  }

  /**
   * Point i of a field expression reads point i of its fields only: two
   * sets of fields that agree at point i give the same point expression.
   */
  lemma {:induction false} PointExprLocal(fe: FieldExpr, other: FieldExpr, d: nat, n: nat, i: nat)
    requires d > 0 && FieldShaped(fe, d, n) && FieldShaped(other, d, n) && i < n
    requires SameAt(fe, other, i)
    ensures PointExpr(fe, d, n, i) == PointExpr(other, d, n, i)
  {
    match fe
    case FieldLeaf(_, _, _) =>
    case FieldProduct(l, r, _) =>
      PointExprLocal(l, other.left, d, n, i);
      PointExprLocal(r, other.right, d, n, i);
    case FieldSum(l, r, _) =>
      PointExprLocal(l, other.left, d, n, i);
      PointExprLocal(r, other.right, d, n, i);
    case FieldScale(_, c, _) =>
      PointExprLocal(c, other.child, d, n, i);
  }

  /** Two trees of the same form whose leaves agree at point i. */
  predicate SameAt(fe: FieldExpr, other: FieldExpr, i: nat)
  {
    match fe
    case FieldLeaf(points, rank, tags) =>
      other.FieldLeaf? && other.rank == rank && other.tags == tags
      && i < |points| && i < |other.points| && other.points[i] == points[i]
    case FieldProduct(l, r, inv) =>
      other.FieldProduct? && other.inverse == inv && SameAt(l, other.left, i) && SameAt(r, other.right, i)
    case FieldSum(l, r, inv) =>
      other.FieldSum? && other.inverse == inv && SameAt(l, other.left, i) && SameAt(r, other.right, i)
    case FieldScale(m, c, inv) =>
      other.FieldScale? && other.multiplier == m && other.inverse == inv && SameAt(c, other.child, i)
  }

  // ----------------------------------------------------------------------
  // The field

  class TensorField {
    const dims: nat
    const rank: nat
    const divisions: nat
    var data: array<seq<real>>

    /**
     * The template demands dims != 0 and divisions > 4; its point type
     * Tensor<dims, rank> further demands dims > 1.
     */
    ghost predicate Valid()
      reads this, data
    {
      dims > 1 && divisions > 4 && data.Length == Power(divisions, dims)
      && forall i :: 0 <= i < data.Length ==> |data[i]| == Power(dims, rank)
    }

    /** Default construction: every point a zero tensor. */
    constructor (dims: nat, rank: nat, divisions: nat)
      requires dims > 1 && divisions > 4
      ensures Valid() && this.dims == dims && this.rank == rank && this.divisions == divisions
      ensures fresh(data) && forall i :: 0 <= i < data.Length ==> data[i] == Zeros(Power(dims, rank))
    {
      this.dims := dims;
      this.rank := rank;
      this.divisions := divisions;
      var buffer := ZeroPoints(Power(divisions, dims), Power(dims, rank));
      data := buffer;
    }

    /**
     * Construction from a vector of point tensors, as intended: they are
     * copied to the first points of the freshly allocated buffer, and every
     * later point is the default (zero) tensor the allocation made.  The
     * source names the owning handle, not the buffer it holds, as the copy's
     * destination; the model copies into the buffer.
     */
    constructor FromVector(dims: nat, rank: nat, divisions: nat, input: seq<seq<real>>)
      requires dims > 1 && divisions > 4 && |input| <= Power(divisions, dims)
      requires forall k :: 0 <= k < |input| ==> |input[k]| == Power(dims, rank)
      ensures Valid() && this.dims == dims && this.rank == rank && this.divisions == divisions
      ensures fresh(data) && data[..|input|] == input
      ensures forall i :: |input| <= i < data.Length ==> data[i] == Zeros(Power(dims, rank))
    {
      this.dims := dims;
      this.rank := rank;
      this.divisions := divisions;
      var buffer := ZeroPoints(Power(divisions, dims), Power(dims, rank));
      var i := 0;
      while i < |input|
        invariant 0 <= i <= |input|
        invariant buffer[..i] == input[..i]
        invariant forall k :: i <= k < buffer.Length ==> buffer[k] == Zeros(Power(dims, rank))
      {
        buffer[i] := input[i];
        i := i + 1;
      }
      data := buffer;
    }

    /** The copy constructor: a fresh buffer holding a copy of every point. */
    constructor Copy(other: TensorField)
      requires other.Valid()
      ensures Valid() && dims == other.dims && rank == other.rank && divisions == other.divisions
      ensures fresh(data) && data[..] == other.data[..]
    {
      dims := other.dims;
      rank := other.rank;
      divisions := other.divisions;
      var buffer := new seq<real>[other.data.Length];
      CopyPoints(other.data, buffer);
      data := buffer;
    }

    /**
     * Copy assignment as written: the fresh buffer is installed before the
     * points are copied out of `other`'s buffer, so when `other` is this
     * field the copy reads the fresh, zeroed buffer.
     */
    method CopyAssignAsWritten(other: TensorField)
      requires Valid() && other.Valid()
      requires other.dims == dims && other.rank == rank && other.divisions == divisions
      modifies this
      ensures Valid() && fresh(data)
      ensures other != this ==> data[..] == old(other.data[..])
      ensures other == this ==> forall i :: 0 <= i < data.Length ==> data[i] == Zeros(Power(dims, rank))
    {
      data := ZeroPoints(Power(divisions, dims), Power(dims, rank));
      CopyPoints(other.data, data);
    }

    /**
     * Copy assignment with the points read before the buffer is replaced:
     * the field ends up holding other's points, self-assignment included.
     */
    method CopyAssign(other: TensorField)
      requires Valid() && other.Valid()
      requires other.dims == dims && other.rank == rank && other.divisions == divisions
      modifies this
      ensures Valid() && fresh(data)
      ensures data[..] == old(other.data[..])
    {
      var buffer := ZeroPoints(Power(divisions, dims), Power(dims, rank));
      CopyPoints(other.data, buffer);
      data := buffer;
    }

    /** operator+= by a field of the same shape: point i from point i. */
    method AddAssign(other: TensorField)
      requires Valid() && other.Valid()
      requires other.dims == dims && other.rank == rank && other.divisions == divisions
      modifies data
      ensures Valid()
      ensures forall i :: 0 <= i < data.Length ==> data[i] == Plus(old(data[i]), old(other.data[i]))
    {
      var i := 0;
      while i < data.Length
        invariant 0 <= i <= data.Length
        invariant forall k :: 0 <= k < i ==> data[k] == Plus(old(data[k]), old(other.data[k]))
        invariant forall k :: i <= k < data.Length ==> data[k] == old(data[k]) && other.data[k] == old(other.data[k])
      {
        data[i] := Plus(data[i], other.data[i]);
        i := i + 1;
      }
    }

    /** operator-= by a field of the same shape. */
    method SubAssign(other: TensorField)
      requires Valid() && other.Valid()
      requires other.dims == dims && other.rank == rank && other.divisions == divisions
      modifies data
      ensures Valid()
      ensures forall i :: 0 <= i < data.Length ==> data[i] == Minus(old(data[i]), old(other.data[i]))
    {
      var i := 0;
      while i < data.Length
        invariant 0 <= i <= data.Length
        invariant forall k :: 0 <= k < i ==> data[k] == Minus(old(data[k]), old(other.data[k]))
        invariant forall k :: i <= k < data.Length ==> data[k] == old(data[k]) && other.data[k] == old(other.data[k])
      {
        data[i] := Minus(data[i], other.data[i]);
        i := i + 1;
      }
    }

    /** operator*= by a scalar: every point tensor scaled. */
    method MulAssign(s: real)
      requires Valid()
      modifies data
      ensures Valid()
      ensures forall i :: 0 <= i < data.Length ==> data[i] == Scaled(old(data[i]), s)
    {
      var i := 0;
      while i < data.Length
        invariant 0 <= i <= data.Length
        invariant forall k :: 0 <= k < i ==> data[k] == Scaled(old(data[k]), s)
        invariant forall k :: i <= k < data.Length ==> data[k] == old(data[k])
      {
        data[i] := Scaled(data[i], s);
        i := i + 1;
      }
    }

    /** operator/= by a scalar. */
    method DivAssign(s: real)
      requires Valid()
      modifies data
      ensures Valid()
      ensures forall i :: 0 <= i < data.Length ==> data[i] == Divided(old(data[i]), s)
    {
      var i := 0;
      while i < data.Length
        invariant 0 <= i <= data.Length
        invariant forall k :: 0 <= k < i ==> data[k] == Divided(old(data[k]), s)
        invariant forall k :: i <= k < data.Length ==> data[k] == old(data[k])
      {
        data[i] := Divided(data[i], s);
        i := i + 1;
      }
    }

    /** operator(): the field indexed by tags, over the field's points. */
    function Index(tags: Pack): (fe: FieldExpr)
      requires Valid() && |tags| == rank
      reads this, data
      ensures FieldShaped(fe, dims, data.Length) && FieldFree(fe) == RemoveRepeats(tags)
    {
      FieldLeaf(data[..], rank, tags)
    }

    /**
     * `f(tags...) = e`, `+= e`, `-= e` for a field expression e: at every
     * point the point's leaf takes the assignment from e's point expression.
     */
    method AssignExpr(tags: Pack, fe: FieldExpr, mode: Mode)
      requires Valid() && |tags| == rank && FieldShaped(fe, dims, data.Length) && FieldCompiles(fe)
      requires (GetRepeats(tags) == [] && FieldFree(fe) == RemoveRepeats(tags))
               || (mode == Assign && fe.FieldLeaf? && fe.tags == tags)
      modifies data
      ensures Valid()
      ensures forall i :: 0 <= i < data.Length ==>
                data[i] == AssignResult(mode, old(data[i]), tags, PointExpr(fe, dims, data.Length, i).value, dims)
    {
      var n := data.Length;
      var i := 0;
      while i < n
        invariant 0 <= i <= n && data.Length == n && Valid()
        invariant forall k :: 0 <= k < i ==>
                    data[k] == AssignResult(mode, old(data[k]), tags, PointExpr(fe, dims, n, k).value, dims)
        invariant forall k :: i <= k < n ==> data[k] == old(data[k])
      {
        var e := PointExpr(fe, dims, n, i).value;
        var buffer := new real[Power(dims, rank)];
        CopyReals(data[i], buffer);
        AssignTo(buffer, tags, e, dims, mode);
        data[i] := buffer[..];
        i := i + 1;
      }
    }

    // --------------------------------------------------------------------
    // By-value operators: the left operand is a copy, the operands are unchanged

    method Add(other: TensorField) returns (f: TensorField)
      requires Valid() && other.Valid()
      requires other.dims == dims && other.rank == rank && other.divisions == divisions
      ensures fresh(f) && fresh(f.data) && f.Valid()
      ensures f.dims == dims && f.rank == rank && f.divisions == divisions
      ensures forall i :: 0 <= i < f.data.Length ==> f.data[i] == Plus(data[i], other.data[i])
    {
      f := new TensorField.Copy(this);
      f.AddAssign(other);
    }

    method Sub(other: TensorField) returns (f: TensorField)
      requires Valid() && other.Valid()
      requires other.dims == dims && other.rank == rank && other.divisions == divisions
      ensures fresh(f) && fresh(f.data) && f.Valid()
      ensures f.dims == dims && f.rank == rank && f.divisions == divisions
      ensures forall i :: 0 <= i < f.data.Length ==> f.data[i] == Minus(data[i], other.data[i])
    {
      f := new TensorField.Copy(this);
      f.SubAssign(other);
    }

    /** `f * s` and `s * f`: both scale a copy point by point. */
    method Scale(s: real) returns (f: TensorField)
      requires Valid()
      ensures fresh(f) && fresh(f.data) && f.Valid()
      ensures f.dims == dims && f.rank == rank && f.divisions == divisions
      ensures forall i :: 0 <= i < f.data.Length ==> f.data[i] == Scaled(data[i], s)
    {
      f := new TensorField.Copy(this);
      f.MulAssign(s);
    }

    method Quotient(s: real) returns (f: TensorField)
      requires Valid()
      ensures fresh(f) && fresh(f.data) && f.Valid()
      ensures f.dims == dims && f.rank == rank && f.divisions == divisions
      ensures forall i :: 0 <= i < f.data.Length ==> f.data[i] == Divided(data[i], s)
    {
      f := new TensorField.Copy(this);
      f.DivAssign(s);
    }
  }

  /** The step between grid neighbours along axis a: divisions^(dims-a-1). */
  function StepSize(divisions: nat, dims: nat, a: nat): (r: nat)
    requires a < dims
  {
    Power(divisions, dims - a - 1)
  }

  /** The last axis is contiguous and every axis strides `divisions` times the next. */
  lemma StepSizes(divisions: nat, dims: nat, a: nat)
    requires a < dims
    ensures StepSize(divisions, dims, dims - 1) == 1
    ensures a + 1 < dims ==> StepSize(divisions, dims, a) == divisions * StepSize(divisions, dims, a + 1)
    ensures StepSize(divisions, dims, a) * Power(divisions, a + 1) == Power(divisions, dims)
  {
    PowerAdd(divisions, dims - a - 1, a + 1);
  }

  // ----------------------------------------------------------------------
  // Buffers of point tensors

  /** `new TensorType[n]`: n default (zero) point tensors of p elements. */
  method ZeroPoints(n: nat, p: nat) returns (buffer: array<seq<real>>)
    ensures fresh(buffer) && buffer.Length == n
    ensures forall i :: 0 <= i < n ==> buffer[i] == Zeros(p)
  {
    buffer := new seq<real>[n];
    var i := 0;
    while i < n
      invariant 0 <= i <= n
      invariant forall k :: 0 <= k < i ==> buffer[k] == Zeros(p)
    {
      buffer[i] := Zeros(p);
      i := i + 1;
    }
  }

  /** std::copy of whole point tensors from one buffer into another. */
  method CopyPoints(from: array<seq<real>>, into: array<seq<real>>)
    requires from.Length == into.Length
    modifies into
    ensures into[..] == old(from[..])
  {
    var i := 0;
    while i < into.Length
      invariant 0 <= i <= into.Length
      invariant forall k :: 0 <= k < i ==> into[k] == old(from[k])
      invariant forall k :: i <= k < into.Length ==> from[k] == old(from[k])
    {
      into[i] := from[i];
      i := i + 1;
    }
  }

  /** A point tensor's elements, copied into an element buffer. */
  method CopyReals(from: seq<real>, into: array<real>)
    requires |from| == into.Length
    modifies into
    ensures into[..] == from
  {
    var i := 0;
    while i < into.Length
      invariant 0 <= i <= into.Length
      invariant into[..i] == from[..i]
    {
      into[i] := from[i];
      i := i + 1;
    }
  }

  /**
   * Self-assignment `f = f` as written changes the field exactly when it
   * held a non-zero point: every point comes back zero.
   */
  method SelfAssignLoses(f: TensorField)
    requires f.Valid()
    modifies f
    ensures f.data[..] != old(f.data[..])
            <==> exists i :: 0 <= i < old(f.data.Length) && old(f.data[i]) != Zeros(Power(f.dims, f.rank))
  {
    ghost var before := f.data[..];
    f.CopyAssignAsWritten(f);
    if exists i :: 0 <= i < |before| && before[i] != Zeros(Power(f.dims, f.rank)) {
      var i :| 0 <= i < |before| && before[i] != Zeros(Power(f.dims, f.rank));
      assert f.data[..][i] != before[i];
    } else {
      assert f.data[..] == before;
    }
  }
}
