/**
 * Elementwise arithmetic on flat buffers of the element type `T`,
 * modelled as exact reals.  Every buffer operation of the library
 * (tensor, tensor-field and vector-field in-place arithmetic, the
 * gradient stencils) is stated through these.
 */
module Elementwise {

  /**
   * Division of the element type.  In C++ a zero divisor yields an IEEE
   * infinity or NaN; over the reals the model fixes the quotient to 0.
   */
  function Div(a: real, b: real): (r: real)
    ensures b != 0.0 ==> r * b == a
  {
    if b == 0.0 then 0.0 else a / b
  }

  /** A buffer of `n` value-initialised elements (`T()` is zero). */
  function Zeros(n: nat): (r: seq<real>)
    ensures |r| == n && forall k :: 0 <= k < n ==> r[k] == 0.0
  {
    seq(n, _ => 0.0)
  }

  function Plus(a: seq<real>, b: seq<real>): (r: seq<real>)
    requires |a| == |b|
    ensures |r| == |a| && forall k :: 0 <= k < |r| ==> r[k] == a[k] + b[k]
  {
    seq(|a|, k requires 0 <= k < |a| => a[k] + b[k])
  }

  function Minus(a: seq<real>, b: seq<real>): (r: seq<real>)
    requires |a| == |b|
    ensures |r| == |a| && forall k :: 0 <= k < |r| ==> r[k] == a[k] - b[k]
  {
    seq(|a|, k requires 0 <= k < |a| => a[k] - b[k])
  }

  function Scaled(a: seq<real>, s: real): (r: seq<real>)
    ensures |r| == |a| && forall k :: 0 <= k < |r| ==> r[k] == a[k] * s
  {
    seq(|a|, k requires 0 <= k < |a| => a[k] * s)
  }

  function Divided(a: seq<real>, s: real): (r: seq<real>)
    ensures |r| == |a| && forall k :: 0 <= k < |r| ==> r[k] == Div(a[k], s)
  {
    seq(|a|, k requires 0 <= k < |a| => Div(a[k], s))
  }

  /** Pointwise product and quotient of two buffers of one length. */
  function Times(a: seq<real>, b: seq<real>): (r: seq<real>)
    requires |a| == |b|
    ensures |r| == |a| && forall k :: 0 <= k < |r| ==> r[k] == a[k] * b[k]
  {
    seq(|a|, k requires 0 <= k < |a| => a[k] * b[k])
  }

  function Over(a: seq<real>, b: seq<real>): (r: seq<real>)
    requires |a| == |b|
    ensures |r| == |a| && forall k :: 0 <= k < |r| ==> r[k] == Div(a[k], b[k])
  {
    seq(|a|, k requires 0 <= k < |a| => Div(a[k], b[k]))
  }

  /** Subtraction undoes addition, and division by a non-zero scalar undoes scaling. */
  lemma MinusUndoesPlus(a: seq<real>, b: seq<real>)
    requires |a| == |b|
    ensures Minus(Plus(a, b), b) == a
  {
  }

  lemma DividedUndoesScaled(a: seq<real>, s: real)
    requires s != 0.0
    ensures Divided(Scaled(a, s), s) == a
  {
    forall k | 0 <= k < |a| ensures Divided(Scaled(a, s), s)[k] == a[k] {
      assert Scaled(a, s)[k] == a[k] * s;
      assert (a[k] * s) / s == a[k];
    }
  }
}
