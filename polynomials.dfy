/**
 * Polynomials as lists of integer coefficients, lowest degree first.
 * Addition pads the shorter list with zeros and adds pairwise;
 * multiplication accumulates, for every coefficient of the right operand,
 * a scaled and shifted copy of the left operand, starting from [0].
 * Neither operation changes its operands: the lists are values.
 */
module Polynomials {

  datatype Polynomial = Polynomial(coefs: seq<int>)

  function Max(x: int, y: int): int
  {
    if x < y then y else x
  }

  /** Coefficient k, with every coefficient outside the list read as 0. */
  function Coef(a: seq<int>, k: int): int
  {
    if 0 <= k < |a| then a[k] else 0
  }

  // ----------------------------------------------------------------------
  // Addition

  /** A reference sum: heads added, tails summed, a missing list read as zeros. */
  function Sum(a: seq<int>, b: seq<int>): (r: seq<int>)
    ensures |r| == Max(|a|, |b|)
    ensures forall k :: 0 <= k < |r| ==> r[k] == Coef(a, k) + Coef(b, k)
    decreases |a| + |b|
  {
    if a == [] then b
    else if b == [] then a
    else [a[0] + b[0]] + Sum(a[1..], b[1..])
  }

  /** Addition is commutative coefficient by coefficient, hence as lists. */
  lemma {:induction false} SumCommutes(a: seq<int>, b: seq<int>)
    ensures Sum(a, b) == Sum(b, a)
    decreases |a| + |b|
  {
    if a != [] && b != [] {
      SumCommutes(a[1..], b[1..]);
    }
  }

  /** `n * [0]`. */
  function ZeroList(n: nat): (r: seq<int>)
    ensures |r| == n && forall k :: 0 <= k < n ==> r[k] == 0
  {
    seq(n, _ => 0)
  }

  /**
   * __add__: both lists are padded with |len difference| zeros and zipped,
   * so the shorter padded list (length max(|a|, |b|)) bounds the loop.
   */
  method Add(p: Polynomial, q: Polynomial) returns (r: Polynomial)
    ensures r.coefs == Sum(p.coefs, q.coefs)
  {
    var a := p.coefs;
    var b := q.coefs;
    var diff := if |a| < |b| then |b| - |a| else |a| - |b|;
    var pad := ZeroList(diff);
    var left := a + pad;
    var right := b + pad;
    var n := if |left| < |right| then |left| else |right|;
    assert n == Max(|a|, |b|);
    var output: seq<int> := [];
    var i := 0;
    while i < n
      invariant 0 <= i <= n && |output| == i
      invariant forall k :: 0 <= k < i ==> output[k] == Coef(a, k) + Coef(b, k)
    {
      output := output + [left[i] + right[i]];
      i := i + 1;
    }
    r := Polynomial(output);
  }

  // ----------------------------------------------------------------------
  // Multiplication

  /** Σ_{i < n} a[k - i]·b[i]: coefficient k of a times the first n coefficients of b. */
  function Conv(a: seq<int>, b: seq<int>, n: nat, k: int): int
    requires n <= |b|
  {
    if n == 0 then 0 else Conv(a, b, n - 1, k) + Coef(a, k - (n - 1)) * b[n - 1]
  }

  /** No term reaches past degree |a| + n - 2. */
  lemma {:induction false} ConvBeyond(a: seq<int>, b: seq<int>, n: nat, k: int)
    requires n <= |b| && k >= |a| + n - 1
    ensures Conv(a, b, n, k) == 0
  {
    if n > 0 {
      ConvBeyond(a, b, n - 1, k);
    }
  }

  /** The length of the product: [0] for an empty right operand. */
  function ProductLength(m: nat, n: nat): (r: nat)
    ensures n == 0 ==> r == 1
    ensures n > 0 ==> r == Max(1, m + n - 1)
  {
    if n == 0 then 1 else Max(1, m + n - 1)
  }

  /** `item`: a copy of a with every coefficient scaled by s, in place. */
  method ScaleCopy(a: seq<int>, s: int) returns (item: seq<int>)
    ensures |item| == |a| && forall j :: 0 <= j < |a| ==> item[j] == a[j] * s
  {
    item := a;
    var j := 0;
    while j < |item|
      invariant 0 <= j <= |item| == |a|
      invariant forall k :: 0 <= k < j ==> item[k] == a[k] * s
      invariant forall k :: j <= k < |a| ==> item[k] == a[k]
    {
      item := item[j := item[j] * s];
      j := j + 1;
    }
  }

  /**
   * __mul__: coefficient k of the product is Σ_{i + j = k} a[j]·b[i], and
   * the product has ProductLength(|a|, |b|) coefficients.
   */
  method Mul(p: Polynomial, q: Polynomial) returns (r: Polynomial)
    ensures |r.coefs| == ProductLength(|p.coefs|, |q.coefs|)
    ensures forall k :: 0 <= k < |r.coefs| ==> r.coefs[k] == Conv(p.coefs, q.coefs, |q.coefs|, k)
  {
    var a := p.coefs;
    var b := q.coefs;
    var output := Polynomial([0]);
    var i := 0;
    while i < |b|
      invariant 0 <= i <= |b|
      invariant |output.coefs| == if i == 0 then 1 else Max(1, |a| + i - 1)
      invariant forall k :: 0 <= k < |output.coefs| ==> output.coefs[k] == Conv(a, b, i, k)
    {
      var item := ScaleCopy(a, b[i]);
      var shifted := ZeroList(i) + item;
      ghost var before := output.coefs;
      output := Add(output, Polynomial(shifted));
      assert |output.coefs| == Max(1, |a| + i) by {
        assert |shifted| == i + |a|;
      }
      forall k | 0 <= k < |output.coefs| ensures output.coefs[k] == Conv(a, b, i + 1, k) {
        StepAt(a, b, i, before, item, k);
      }
      i := i + 1;
    }
    r := output;
  }

  /**
   * One round of __mul__: coefficient k of the partial product of the
   * first i coefficients of b, plus coefficient k of the shifted, scaled
   * copy for b[i], is coefficient k of the partial product of the first i + 1.
   */
  lemma StepAt(a: seq<int>, b: seq<int>, i: nat, before: seq<int>, item: seq<int>, k: nat)
    requires i < |b|
    requires |before| == if i == 0 then 1 else Max(1, |a| + i - 1)
    requires forall k :: 0 <= k < |before| ==> before[k] == Conv(a, b, i, k)
    requires |item| == |a| && forall j :: 0 <= j < |a| ==> item[j] == a[j] * b[i]
    ensures Coef(before, k) + Coef(ZeroList(i) + item, k) == Conv(a, b, i + 1, k)
  {
    assert Coef(before, k) == Conv(a, b, i, k) by {
      if i > 0 && k >= |before| {
        ConvBeyond(a, b, i, k);
      }
    }
    ShiftedCoef(a, b[i], i, item, k);
  }

  /** Coefficient k of `i * [0] + item` is coefficient k - i of a, scaled. */
  lemma ShiftedCoef(a: seq<int>, s: int, i: nat, item: seq<int>, k: int)
    requires |item| == |a| && forall j :: 0 <= j < |a| ==> item[j] == a[j] * s
    ensures Coef(ZeroList(i) + item, k) == Coef(a, k - i) * s
  {
    var shifted := ZeroList(i) + item;
    if 0 <= k < i {
      assert shifted[k] == 0;
    } else if i <= k < i + |a| {
      assert shifted[k] == item[k - i];
    }
  }
}
