/**
 * A vector field: one value of the point type at each of the
 * divisions^dims points of a grid, held by value inside the field.  The
 * point type is a vector of `width` elements (a rank-r tensor has
 * dims^r of them; a scalar field, whose point type is the element type
 * itself, has width 1), and every operation updates the points in place,
 * one point at a time.
 */
module VectorFields {
  import opened TagAlgebra
  import opened Elementwise

  class VectorField {
    const dims: nat
    const divisions: nat
    const width: nat
    const data: array<seq<real>>

    /**
     * The template demands dims != 0 and divisions != 0; the field holds
     * divisions^dims points, each of the point type's width.
     */
    ghost predicate Valid()
      reads this, data
    {
      dims != 0 && divisions != 0 && data.Length == Power(divisions, dims)
      && forall i :: 0 <= i < data.Length ==> |data[i]| == width
    }

    /** A scalar field: the point type is the element type. */
    ghost predicate Scalar()
      reads this, data
    {
      Valid() && width == 1
    }

    /** Default construction: every point value-initialised (zero). */
    constructor (dims: nat, divisions: nat, width: nat)
      requires dims != 0 && divisions != 0
      ensures Valid() && this.dims == dims && this.divisions == divisions && this.width == width
      ensures fresh(data) && forall i :: 0 <= i < data.Length ==> data[i] == Zeros(width)
    {
      this.dims := dims;
      this.divisions := divisions;
      this.width := width;
      var n := Power(divisions, dims);
      var a := new seq<real>[n];
      var i := 0;
      while i < n
        invariant 0 <= i <= n
        invariant forall k :: 0 <= k < i ==> a[k] == Zeros(width)
      {
        a[i] := Zeros(width);
        i := i + 1;
      }
      data := a;
    }

    /**
     * Construction from a vector: its values are copied, in order, to the
     * first points.  The later points are not written by the source, so
     * the model says nothing about their values.
     */
    constructor FromVector(dims: nat, divisions: nat, width: nat, input: seq<seq<real>>)
      requires dims != 0 && divisions != 0 && |input| <= Power(divisions, dims)
      requires forall k :: 0 <= k < |input| ==> |input[k]| == width
      ensures Valid() && this.dims == dims && this.divisions == divisions && this.width == width
      ensures fresh(data) && data[..|input|] == input
    {
      this.dims := dims;
      this.divisions := divisions;
      this.width := width;
      var n := Power(divisions, dims);
      var a := new seq<real>[n](_ => Zeros(width));
      var i := 0;
      while i < |input|
        invariant 0 <= i <= |input|
        invariant a[..i] == input[..i]
        invariant forall k :: 0 <= k < n ==> |a[k]| == width
      {
        a[i] := input[i];
        i := i + 1;
      }
      data := a;
    }

    /** Construction from a raw buffer: exactly divisions^dims values are copied from it. */
    constructor FromBuffer(dims: nat, divisions: nat, width: nat, input: seq<seq<real>>)
      requires dims != 0 && divisions != 0 && |input| >= Power(divisions, dims)
      requires forall k :: 0 <= k < |input| ==> |input[k]| == width
      ensures Valid() && this.dims == dims && this.divisions == divisions && this.width == width
      ensures fresh(data) && data[..] == input[..Power(divisions, dims)]
    {
      this.dims := dims;
      this.divisions := divisions;
      this.width := width;
      var n := Power(divisions, dims);
      var a := new seq<real>[n];
      var i := 0;
      while i < n
        invariant 0 <= i <= n
        invariant a[..i] == input[..i]
      {
        a[i] := input[i];
        i := i + 1;
      }
      data := a;
    }

    /** The copy a by-value parameter makes: the points are copied into a new field. */
    constructor Copy(other: VectorField)
      requires other.Valid()
      ensures Valid() && dims == other.dims && divisions == other.divisions && width == other.width
      ensures fresh(data) && data[..] == other.data[..]
    {
      dims := other.dims;
      divisions := other.divisions;
      width := other.width;
      var a := new seq<real>[other.data.Length];
      var i := 0;
      while i < a.Length
        invariant 0 <= i <= a.Length
        invariant a[..i] == other.data[..i]
      {
        a[i] := other.data[i];
        i := i + 1;
      }
      data := a;
    }

    /** operator+=: point i gains point i of `other`; `f += f` doubles every point. */
    method AddAssign(other: VectorField)
      requires Valid() && other.Valid() && other.dims == dims && other.divisions == divisions && other.width == width
      modifies data
      ensures Valid()
      ensures forall i :: 0 <= i < data.Length ==> data[i] == Plus(old(data[i]), old(other.data[i]))
    {
      var i := 0;
      while i < data.Length
        invariant 0 <= i <= data.Length
        invariant forall k :: 0 <= k < i ==> data[k] == Plus(old(data[k]), old(other.data[k]))
        invariant forall k :: i <= k < data.Length ==> data[k] == old(data[k]) && other.data[k] == old(other.data[k])
      {
        data[i] := Plus(data[i], other.data[i]);
        i := i + 1;
      }
    }

    /** operator-=: point i loses point i of `other`. */
    method SubAssign(other: VectorField)
      requires Valid() && other.Valid() && other.dims == dims && other.divisions == divisions && other.width == width
      modifies data
      ensures Valid()
      ensures forall i :: 0 <= i < data.Length ==> data[i] == Minus(old(data[i]), old(other.data[i]))
    {
      var i := 0;
      while i < data.Length
        invariant 0 <= i <= data.Length
        invariant forall k :: 0 <= k < i ==> data[k] == Minus(old(data[k]), old(other.data[k]))
        invariant forall k :: i <= k < data.Length ==> data[k] == old(data[k]) && other.data[k] == old(other.data[k])
      {
        data[i] := Minus(data[i], other.data[i]);
        i := i + 1;
      }
    }

    /** operator*= by a scalar: every point scaled by it. */
    method MulAssign(s: real)
      requires Valid()
      modifies data
      ensures Valid()
      ensures forall i :: 0 <= i < data.Length ==> data[i] == Scaled(old(data[i]), s)
    {
      var i := 0;
      while i < data.Length
        invariant 0 <= i <= data.Length
        invariant forall k :: 0 <= k < i ==> data[k] == Scaled(old(data[k]), s)
        invariant forall k :: i <= k < data.Length ==> data[k] == old(data[k])
      {
        data[i] := Scaled(data[i], s);
        i := i + 1;
      }
    }

    /** operator*= by a scalar field: point i scaled by the scalar at point i. */
    method MulAssignField(scalars: VectorField)
      requires Valid() && scalars.Scalar() && scalars.dims == dims && scalars.divisions == divisions
      modifies data
      ensures Valid()
      ensures forall i :: 0 <= i < data.Length ==> data[i] == Scaled(old(data[i]), old(scalars.data[i][0]))
    {
      var i := 0;
      while i < data.Length
        invariant 0 <= i <= data.Length
        invariant forall k :: 0 <= k < i ==> data[k] == Scaled(old(data[k]), old(scalars.data[k][0]))
        invariant forall k :: i <= k < data.Length ==> data[k] == old(data[k]) && scalars.data[k] == old(scalars.data[k])
      {
        data[i] := Scaled(data[i], scalars.data[i][0]);
        i := i + 1;
      }
    }

    /** operator/= by a scalar: every point divided by it. */
    method DivAssign(s: real)
      requires Valid()
      modifies data
      ensures Valid()
      ensures forall i :: 0 <= i < data.Length ==> data[i] == Divided(old(data[i]), s)
    {
      var i := 0;
      while i < data.Length
        invariant 0 <= i <= data.Length
        invariant forall k :: 0 <= k < i ==> data[k] == Divided(old(data[k]), s)
        invariant forall k :: i <= k < data.Length ==> data[k] == old(data[k])
      {
        data[i] := Divided(data[i], s);
        i := i + 1;
      }
    }

    /** operator/= by a scalar field: point i divided by the scalar at point i. */
    method DivAssignField(scalars: VectorField)
      requires Valid() && scalars.Scalar() && scalars.dims == dims && scalars.divisions == divisions
      modifies data
      ensures Valid()
      ensures forall i :: 0 <= i < data.Length ==> data[i] == Divided(old(data[i]), old(scalars.data[i][0]))
    {
      var i := 0;
      while i < data.Length
        invariant 0 <= i <= data.Length
        invariant forall k :: 0 <= k < i ==> data[k] == Divided(old(data[k]), old(scalars.data[k][0]))
        invariant forall k :: i <= k < data.Length ==> data[k] == old(data[k]) && scalars.data[k] == old(scalars.data[k])
      {
        data[i] := Divided(data[i], scalars.data[i][0]);
        i := i + 1;
      }
    }

    /** operator[]: the value at point `index`. */
    function At(index: nat): (r: seq<real>)
      requires Valid() && index < data.Length
      reads this, data
      ensures |r| == width && r == data[index]
    {
      data[index]
    }

    // --------------------------------------------------------------------
    // By-value operators: the left (or field) operand is a copy, so neither
    // operand the caller passed changes

    method Add(other: VectorField) returns (f: VectorField)
      requires Valid() && other.Valid() && other.dims == dims && other.divisions == divisions && other.width == width
      ensures fresh(f) && fresh(f.data) && f.Valid() && f.dims == dims && f.divisions == divisions && f.width == width
      ensures forall i :: 0 <= i < f.data.Length ==> f.data[i] == Plus(data[i], other.data[i])
    {
      f := new VectorField.Copy(this);
      f.AddAssign(other);
    }

    method Sub(other: VectorField) returns (f: VectorField)
      requires Valid() && other.Valid() && other.dims == dims && other.divisions == divisions && other.width == width
      ensures fresh(f) && fresh(f.data) && f.Valid() && f.dims == dims && f.divisions == divisions && f.width == width
      ensures forall i :: 0 <= i < f.data.Length ==> f.data[i] == Minus(data[i], other.data[i])
    {
      f := new VectorField.Copy(this);
      f.SubAssign(other);
    }

    /** `f * s` and `s * f`: both scale a copy of the field. */
    method Scale(s: real) returns (f: VectorField)
      requires Valid()
      ensures fresh(f) && fresh(f.data) && f.Valid() && f.dims == dims && f.divisions == divisions && f.width == width
      ensures forall i :: 0 <= i < f.data.Length ==> f.data[i] == Scaled(data[i], s)
    {
      f := new VectorField.Copy(this);
      f.MulAssign(s);
    }

    /** `f * g` and `g * f` for a scalar field g: both scale a copy of f point by point. */
    method ScaleByField(scalars: VectorField) returns (f: VectorField)
      requires Valid() && scalars.Scalar() && scalars.dims == dims && scalars.divisions == divisions
      ensures fresh(f) && fresh(f.data) && f.Valid() && f.dims == dims && f.divisions == divisions && f.width == width
      ensures forall i :: 0 <= i < f.data.Length ==> f.data[i] == Scaled(data[i], scalars.data[i][0])
    {
      f := new VectorField.Copy(this);
      f.MulAssignField(scalars);
    }

    method Quotient(s: real) returns (f: VectorField)
      requires Valid()
      ensures fresh(f) && fresh(f.data) && f.Valid() && f.dims == dims && f.divisions == divisions && f.width == width
      ensures forall i :: 0 <= i < f.data.Length ==> f.data[i] == Divided(data[i], s)
    {
      f := new VectorField.Copy(this);
      f.DivAssign(s);
    }

    method QuotientByField(scalars: VectorField) returns (f: VectorField)
      requires Valid() && scalars.Scalar() && scalars.dims == dims && scalars.divisions == divisions
      ensures fresh(f) && fresh(f.data) && f.Valid() && f.dims == dims && f.divisions == divisions && f.width == width
      ensures forall i :: 0 <= i < f.data.Length ==> f.data[i] == Divided(data[i], scalars.data[i][0])
    {
      f := new VectorField.Copy(this);
      f.DivAssignField(scalars);
    }
  }

  /**
   * `(f + g) - g` gives back f's points, and dividing a scaled field by a
   * non-zero scalar gives back the field: the by-value operators are
   * inverse in pairs.
   */
  method AddSubRoundTrip(f: VectorField, g: VectorField) returns (r: seq<seq<real>>)
    requires f.Valid() && g.Valid() && g.dims == f.dims && g.divisions == f.divisions && g.width == f.width
    ensures r == f.data[..]
  {
    var sum := f.Add(g);
    var back := sum.Sub(g);
    forall i | 0 <= i < f.data.Length ensures back.data[i] == f.data[i] {
      MinusUndoesPlus(f.data[i], g.data[i]);
    }
    r := back.data[..];
  }

  method ScaleQuotientRoundTrip(f: VectorField, s: real) returns (r: seq<seq<real>>)
    requires f.Valid() && s != 0.0
    ensures r == f.data[..]
  {
    var scaled := f.Scale(s);
    var back := scaled.Quotient(s);
    forall i | 0 <= i < f.data.Length ensures back.data[i] == f.data[i] {
      DividedUndoesScaled(f.data[i], s);
    }
    r := back.data[..];
  }
}
