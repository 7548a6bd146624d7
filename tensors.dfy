/**
 * The dense tensor: a flat row-major buffer of d^rank elements.  Indexing
 * it with tags makes a leaf expression over its buffer; the in-place
 * operators update the buffer element by element; the by-value operators
 * copy the left operand and update the copy.
 */
module Tensors {
  import opened TagAlgebra
  import opened Elementwise
  import opened Wrappers
  import opened Expressions
  import opened Assignment

  class Tensor {
    const d: nat
    const rank: nat
    const data: array<real>

    /** The template demands more than one dimension; the buffer holds d^rank elements. */
    ghost predicate Valid()
    {
      d > 1 && data.Length == Power(d, rank)
    }

    /** Default construction: every element value-initialised (zero). */
    constructor (d: nat, rank: nat)
      requires d > 1
      ensures Valid() && this.d == d && this.rank == rank && fresh(data)
      ensures data[..] == Zeros(Power(d, rank))
    {
      var n := Power(d, rank);
      var a := new real[n];
      var i := 0;
      while i < n
        invariant 0 <= i <= n
        invariant forall k :: 0 <= k < i ==> a[k] == 0.0
      {
        a[i] := 0.0;
        i := i + 1;
      }
      this.d := d;
      this.rank := rank;
      data := a;
    }

    /**
     * Construction from a vector: its elements are copied to the front of
     * the buffer; the rest of the buffer is left uninitialised, so the
     * model says nothing about it.
     */
    constructor FromVector(d: nat, rank: nat, values: seq<real>)
      requires d > 1 && |values| <= Power(d, rank)
      ensures Valid() && this.d == d && this.rank == rank && fresh(data)
      ensures data[..|values|] == values
    {
      var a := new real[Power(d, rank)];
      var i := 0;
      while i < |values|
        invariant 0 <= i <= |values|
        invariant a[..i] == values[..i]
      {
        a[i] := values[i];
        i := i + 1;
      }
      this.d := d;
      this.rank := rank;
      data := a;
    }

    /** Construction from a raw buffer: exactly d^rank elements are copied from it. */
    constructor FromBuffer(d: nat, rank: nat, values: seq<real>)
      requires d > 1 && |values| >= Power(d, rank)
      ensures Valid() && this.d == d && this.rank == rank && fresh(data)
      ensures data[..] == values[..Power(d, rank)]
    {
      var n := Power(d, rank);
      var a := new real[n];
      var i := 0;
      while i < n
        invariant 0 <= i <= n
        invariant a[..i] == values[..i]
      {
        a[i] := values[i];
        i := i + 1;
      }
      this.d := d;
      this.rank := rank;
      data := a;
    }

    /**
     * operator(): a leaf over this buffer with every cursor at 0.  It
     * exists only when the number of tags is the rank.
     */
    function Index(tags: Pack): (r: Option<Expr>)
      requires Valid()
      reads data
      ensures r.Some? <==> |tags| == rank
      ensures r.Some? ==> r.value.Leaf? && r.value.data == data[..] && r.value.tags == tags
                          && WF(r.value, d) && Free(r.value) == RemoveRepeats(tags)
    {
      MakeLeaf(data[..], rank, tags)
    }

    /** operator*= by a scalar (both the `double` and the `T` overload). */
    method MulAssign(s: real)
      modifies data
      ensures data[..] == Scaled(old(data[..]), s)
    {
      var i := 0;
      while i < data.Length
        invariant 0 <= i <= data.Length
        invariant forall k :: 0 <= k < i ==> data[k] == old(data[k]) * s
        invariant forall k :: i <= k < data.Length ==> data[k] == old(data[k])
      {
        data[i] := data[i] * s;
        i := i + 1;
      }
      assert forall k :: 0 <= k < data.Length ==> data[..][k] == Scaled(old(data[..]), s)[k];
    }

    /** operator/= by a scalar. */
    method DivAssign(s: real)
      modifies data
      ensures data[..] == Divided(old(data[..]), s)
    {
      var i := 0;
      while i < data.Length
        invariant 0 <= i <= data.Length
        invariant forall k :: 0 <= k < i ==> data[k] == Div(old(data[k]), s)
        invariant forall k :: i <= k < data.Length ==> data[k] == old(data[k])
      {
        data[i] := Div(data[i], s);
        i := i + 1;
      }
    }

    /**
     * operator+= by a tensor of the same shape, element by element; `t += t`
     * doubles every element, since each element is read before it is written.
     */
    method AddAssign(other: Tensor)
      requires Valid() && other.Valid() && other.d == d && other.rank == rank
      modifies data
      ensures data[..] == Plus(old(data[..]), old(other.data[..]))
    {
      var i := 0;
      while i < data.Length
        invariant 0 <= i <= data.Length
        invariant forall k :: 0 <= k < i ==> data[k] == old(data[k]) + old(other.data[k])
        invariant forall k :: i <= k < data.Length ==> data[k] == old(data[k]) && other.data[k] == old(other.data[k])
      {
        data[i] := data[i] + other.data[i];
        i := i + 1;
      }
    }

    /** operator-= by a tensor of the same shape. */
    method SubAssign(other: Tensor)
      requires Valid() && other.Valid() && other.d == d && other.rank == rank
      modifies data
      ensures data[..] == Minus(old(data[..]), old(other.data[..]))
    {
      var i := 0;
      while i < data.Length
        invariant 0 <= i <= data.Length
        invariant forall k :: 0 <= k < i ==> data[k] == old(data[k]) - old(other.data[k])
        invariant forall k :: i <= k < data.Length ==> data[k] == old(data[k]) && other.data[k] == old(other.data[k])
      {
        data[i] := data[i] - other.data[i];
        i := i + 1;
      }
    }

    /** getDataCopy: the d^rank elements in storage order. */
    function GetDataCopy(): (r: seq<real>)
      requires Valid()
      reads data
      ensures |r| == Power(d, rank) && forall k :: 0 <= k < |r| ==> r[k] == data[k]
    {
      data[..]
    }

    /**
     * `T(tags...) = e`, `+= e`, `-= e`: the leaf that operator() makes over
     * this buffer takes the assignment.
     */
    method AssignExpr(tags: Pack, src: Expr, mode: Mode)
      requires Valid() && |tags| == rank && WF(src, d) && Accepts(mode, tags, src)
      modifies data
      ensures data[..] == AssignResult(mode, old(data[..]), tags, src, d)
    {
      AssignTo(data, tags, src, d, mode);
    }

    // --------------------------------------------------------------------
    // By-value operators: the left operand is a copy

    method Add(other: Tensor) returns (t: Tensor)
      requires Valid() && other.Valid() && other.d == d && other.rank == rank
      ensures fresh(t) && fresh(t.data) && t.Valid() && t.d == d && t.rank == rank
      ensures t.data[..] == Plus(data[..], other.data[..])
    {
      t := new Tensor.FromBuffer(d, rank, data[..]);
      t.AddAssign(other);
    }

    method Sub(other: Tensor) returns (t: Tensor)
      requires Valid() && other.Valid() && other.d == d && other.rank == rank
      ensures fresh(t) && fresh(t.data) && t.Valid() && t.d == d && t.rank == rank
      ensures t.data[..] == Minus(data[..], other.data[..])
    {
      t := new Tensor.FromBuffer(d, rank, data[..]);
      t.SubAssign(other);
    }

    /** `t * s` and `s * t`: both scale a copy element by element. */
    method Scale(s: real) returns (t: Tensor)
      requires Valid()
      ensures fresh(t) && fresh(t.data) && t.Valid() && t.d == d && t.rank == rank
      ensures t.data[..] == Scaled(data[..], s)
    {
      t := new Tensor.FromBuffer(d, rank, data[..]);
      assert t.data[..] == data[..];
      t.MulAssign(s);
    }

    method Quotient(s: real) returns (t: Tensor)
      requires Valid()
      ensures fresh(t) && fresh(t.data) && t.Valid() && t.d == d && t.rank == rank
      ensures t.data[..] == Divided(data[..], s)
    {
      t := new Tensor.FromBuffer(d, rank, data[..]);
      t.DivAssign(s);
    }
  }

  /** A tensor built from a full vector gives that vector back. */
  method VectorRoundTrip(d: nat, rank: nat, values: seq<real>) returns (r: seq<real>)
    requires d > 1 && |values| == Power(d, rank)
    ensures r == values
  {
    var t := new Tensor.FromVector(d, rank, values);
    r := t.GetDataCopy();
  }
}
