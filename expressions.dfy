/**
 * The lazy expression engine of CPP_Utils/Tensors.h.
 *
 * An indexed tensor `A(i, j)` is a leaf that points at the tensor's flat
 * row-major buffer and carries one cursor per index position
 * (`activeIndexingLocations`).  Products contract the tags their operands'
 * free lists share, sums combine operands with the same free tags, and a
 * scalar node scales its child.  `SetIndex` moves cursors by tag name and
 * `Value` reads the expression at the current cursors.
 */
module Expressions {
  import opened TagAlgebra
  import opened Wrappers
  import opened Elementwise

  type Cursors = seq<nat>

  /** Every cursor addresses one of the `d` positions of an axis. */
  predicate Below(loc: Cursors, d: nat)
  {
    forall k :: 0 <= k < |loc| ==> loc[k] < d
  }

  // ----------------------------------------------------------------------
  // Flat offsets

  /**
   * IndexBuilder: starting from 0, add the next cursor and multiply by `d`
   * for every position but the last, then add the last cursor.
   */
  function Offset(loc: Cursors, d: nat): nat
  {
    if |loc| == 0 then 0 else Offset(loc[..|loc| - 1], d) * d + loc[|loc| - 1]
  }

  /** The row-major offset written as a sum: loc[k] weighted by d^(rank-1-k). */
  function RowMajor(loc: Cursors, d: nat): nat
  {
    if |loc| == 0 then 0 else loc[0] * Power(d, |loc| - 1) + RowMajor(loc[1..], d)
  }

  lemma {:induction false} RowMajorSnoc(loc: Cursors, x: nat, d: nat)
    ensures RowMajor(loc + [x], d) == RowMajor(loc, d) * d + x
  {
    if |loc| == 0 {
      assert loc + [x] == [x];
    } else {
      assert (loc + [x])[1..] == loc[1..] + [x];
      RowMajorSnoc(loc[1..], x, d);
      var p := Power(d, |loc| - 1);
      assert Power(d, |loc|) == d * p;
      calc {
        RowMajor(loc + [x], d);
        loc[0] * (d * p) + RowMajor(loc[1..], d) * d + x;
        { assert loc[0] * (d * p) == (loc[0] * p) * d; }
        (loc[0] * p) * d + RowMajor(loc[1..], d) * d + x;
        (loc[0] * p + RowMajor(loc[1..], d)) * d + x;
      }
    }
  }

  lemma {:induction false} OffsetIsRowMajor(loc: Cursors, d: nat)
    ensures Offset(loc, d) == RowMajor(loc, d)
  {
    if |loc| > 0 {
      var init := loc[..|loc| - 1];
      OffsetIsRowMajor(init, d);
      assert init + [loc[|loc| - 1]] == loc;
      RowMajorSnoc(init, loc[|loc| - 1], d);
    }
  }

  lemma {:induction false} RowMajorBound(loc: Cursors, d: nat)
    requires Below(loc, d)
    ensures RowMajor(loc, d) < Power(d, |loc|)
  {
    if |loc| > 0 {
      RowMajorBound(loc[1..], d);
      var p := Power(d, |loc| - 1);
      assert loc[0] * p <= (d - 1) * p;
      assert (d - 1) * p + p == d * p;
    }
  }

  lemma OffsetBound(loc: Cursors, d: nat)
    requires Below(loc, d)
    ensures Offset(loc, d) < Power(d, |loc|)
  {
    OffsetIsRowMajor(loc, d);
    RowMajorBound(loc, d);
  }

  lemma DivBelow(x: nat, p: nat, d: nat)
    requires p > 0 && x < d * p
    ensures x / p < d && x % p < p && x == (x / p) * p + x % p
  {
    var q := x / p;
    if q >= d {
      MulMono(d, q, p);
    }
  }

  lemma MulMono(a: nat, b: nat, c: nat)
    requires a <= b
    ensures a * c <= b * c
  {
  }

  /** The coordinates of a flat offset: the inverse of RowMajor. */
  function Digits(x: nat, d: nat, r: nat): (c: Cursors)
    requires x < Power(d, r)
    ensures |c| == r
  {
    if r == 0 then []
    else
      var p := Power(d, r - 1);
      PowerPositive(d, r - 1);
      DivBelow(x, p, d);
      var q: nat := x / p;
      var m: nat := x % p;
      [q] + Digits(m, d, r - 1)
  }

  lemma {:induction false} DigitsSpec(x: nat, d: nat, r: nat)
    requires x < Power(d, r)
    ensures Below(Digits(x, d, r), d) && RowMajor(Digits(x, d, r), d) == x
  {
    if r > 0 {
      var p := Power(d, r - 1);
      PowerPositive(d, r - 1);
      DivBelow(x, p, d);
      var q: nat := x / p;
      var m: nat := x % p;
      DigitsSpec(m, d, r - 1);
      var c := Digits(x, d, r);
      var rest := Digits(m, d, r - 1);
      assert c == [q] + rest;
      assert c[1..] == rest;
      assert RowMajor(c, d) == q * p + RowMajor(rest, d);
    }
  }

  // ----------------------------------------------------------------------
  // Expression trees

  datatype Expr =
    | Leaf(data: seq<real>, tags: Pack, cursors: Cursors)
    | Product(left: Expr, right: Expr, inverse: bool)
    | Sum(left: Expr, right: Expr, inverse: bool)
    | Scale(multiplier: real, child: Expr, inverse: bool)

  function Size(e: Expr): nat
  {
    match e
    case Leaf(_, _, _) => 1
    case Product(l, r, _) => Size(l) + Size(r) + 1
    case Sum(l, r, _) => Size(l) + Size(r) + 1
    case Scale(_, c, _) => Size(c) + 1
  }

  /** Every leaf has one cursor per tag. */
  predicate Shaped(e: Expr)
  {
    match e
    case Leaf(_, tags, cursors) => |cursors| == |tags|
    case Product(l, r, _) => Shaped(l) && Shaped(r)
    case Sum(l, r, _) => Shaped(l) && Shaped(r)
    case Scale(_, c, _) => Shaped(c)
  }

  /** Every leaf buffer holds d^rank elements and every cursor is below d. */
  predicate InRange(e: Expr, d: nat)
  {
    match e
    case Leaf(data, tags, cursors) => |data| == Power(d, |tags|) && Below(cursors, d)
    case Product(l, r, _) => InRange(l, d) && InRange(r, d)
    case Sum(l, r, _) => InRange(l, d) && InRange(r, d)
    case Scale(_, c, _) => InRange(c, d)
  }

  predicate WF(e: Expr, d: nat)
  {
    Shaped(e) && InRange(e, d)
  }

  /**
   * The free-tag list carried in an expression's type: a leaf's tags
   * without its repeats, a product's combined lists without their repeats,
   * a sum's left list, a scalar node's child list.
   */
  function Free(e: Expr): Pack
  {
    match e
    case Leaf(_, tags, _) => RemoveRepeats(tags)
    case Product(l, r, _) => RemoveRepeats(Free(l) + Free(r))
    case Sum(l, _, _) => Free(l)
    case Scale(_, c, _) => Free(c)
  }

  /** The tags a product sums over. */
  function Contracted(l: Expr, r: Expr): Pack
  {
    GetRepeats(Free(l) + Free(r))
  }

  lemma {:induction false} FreeNoDup(e: Expr)
    ensures NoDup(Free(e))
  {
    match e
    case Leaf(_, tags, _) => RemoveRepeatsSpec(tags);
    case Product(l, r, _) => RemoveRepeatsSpec(Free(l) + Free(r));
    case Sum(l, _, _) => FreeNoDup(l);
    case Scale(_, c, _) => FreeNoDup(c);
  }

  /**
   * setIndex: a leaf moves the cursor at the first occurrence of the tag
   * and ignores tags it does not carry; inner nodes forward to every child.
   */
  function SetIndex(e: Expr, t: Tag, v: nat): (r: Expr)
    requires Shaped(e)
    ensures Shaped(r) && Size(r) == Size(e) && Free(r) == Free(e)
    ensures e.Leaf? ==> r.Leaf? && r.data == e.data && r.tags == e.tags
    ensures e.Leaf? ==> forall k :: 0 <= k < |e.cursors| ==>
              r.cursors[k] == if e.tags[k] == t && t !in e.tags[..k] then v else e.cursors[k]
  {
    match e
    case Leaf(data, tags, cursors) =>
      if KeyInPack(t, tags) then
        LocateKeyInRange(t, tags);
        var at := LocateKey(t, tags);
        assert forall k :: 0 <= k < |tags| ==> (tags[k] == t && t !in tags[..k] <==> k == at) by {
          forall k | 0 <= k < |tags| ensures tags[k] == t && t !in tags[..k] <==> k == at {
            if k > at {
              assert tags[..k][at] == t;
            }
          }
        }
        Leaf(data, tags, cursors[at := v])
      else
        e
    case Product(l, rt, inv) => Product(SetIndex(l, t, v), SetIndex(rt, t, v), inv)
    case Sum(l, rt, inv) => Sum(SetIndex(l, t, v), SetIndex(rt, t, v), inv)
    case Scale(m, c, inv) => Scale(m, SetIndex(c, t, v), inv)
  }

  lemma {:induction false} SetIndexInRange(e: Expr, t: Tag, v: nat, d: nat)
    requires WF(e, d) && v < d
    ensures WF(SetIndex(e, t, v), d)
  {
    match e
    case Leaf(_, _, _) =>
    case Product(l, r, _) =>
      SetIndexInRange(l, t, v, d);
      SetIndexInRange(r, t, v, d);
    case Sum(l, r, _) =>
      SetIndexInRange(l, t, v, d);
      SetIndexInRange(r, t, v, d);
    case Scale(_, c, _) => SetIndexInRange(c, t, v, d);
  }

  /** Set the cursors of `tags[k]` to `c[k]`, in order. */
  function SetAll(e: Expr, tags: Pack, c: Cursors): (r: Expr)
    requires Shaped(e) && |c| == |tags|
    ensures Shaped(r) && Size(r) == Size(e) && Free(r) == Free(e)
    decreases |tags|
  {
    if |tags| == 0 then e else SetAll(SetIndex(e, tags[0], c[0]), tags[1..], c[1..])
  }

  lemma {:induction false} SetAllInRange(e: Expr, tags: Pack, c: Cursors, d: nat)
    requires WF(e, d) && |c| == |tags| && Below(c, d)
    ensures WF(SetAll(e, tags, c), d)
    decreases |tags|
  {
    if |tags| > 0 {
      SetIndexInRange(e, tags[0], c[0], d);
      SetAllInRange(SetIndex(e, tags[0], c[0]), tags[1..], c[1..], d);
    }
  }

  // ----------------------------------------------------------------------
  // Values

  /** Product and quotient nodes. */
  function Combine(inverse: bool, a: real, b: real): real
  {
    if inverse then Div(a, b) else a * b
  }

  /** The tags that a trace loop may run over: each occurs at least twice. */
  predicate Traceable(reps: Pack, tags: Pack)
  {
    forall t :: t in reps ==> Count(t, tags) >= 2
  }

  /**
   * A leaf's self-trace (GetValue_Helper of the leaf): for every repeated
   * tag in turn, loop its value over 0..d-1, setting the cursors at the
   * tag's first and second occurrences; at the bottom read the buffer.
   */
  function Trace(data: seq<real>, tags: Pack, cursors: Cursors, reps: Pack, d: nat): real
    requires |data| == Power(d, |tags|) && |cursors| == |tags| && Below(cursors, d)
    requires Traceable(reps, tags)
    decreases |reps|, d + 1
  {
    if |reps| == 0 then
      OffsetBound(cursors, d);
      data[Offset(cursors, d)]
    else
      TraceLoop(data, tags, cursors, reps, d, 0)
  }

  function TraceLoop(data: seq<real>, tags: Pack, cursors: Cursors, reps: Pack, d: nat, i: nat): real
    requires |data| == Power(d, |tags|) && |cursors| == |tags| && Below(cursors, d)
    requires Traceable(reps, tags) && |reps| > 0 && i <= d
    decreases |reps|, d - i
  {
    if i == d then 0.0
    else
      Trace(data, tags, TraceCursors(tags, cursors, reps[0], i), reps[1..], d)
        + TraceLoop(data, tags, cursors, reps, d, i + 1)
  }

  /** The cursors with the first and second occurrences of `t` both set to `i`. */
  function TraceCursors(tags: Pack, cursors: Cursors, t: Tag, i: nat): (r: Cursors)
    requires |cursors| == |tags| && Count(t, tags) >= 2
    ensures |r| == |tags|
    ensures forall k :: 0 <= k < |r| ==>
              r[k] == if k == LocateNth(0, t, tags) || k == LocateNth(1, t, tags) then i else cursors[k]
  {
    LocateNthSpec(0, t, tags);
    LocateNthSpec(1, t, tags);
    cursors[LocateNth(0, t, tags) := i][LocateNth(1, t, tags) := i]
  }

  /** The value of an expression at its current cursors (getValue). */
  function Value(e: Expr, d: nat): real
    requires WF(e, d)
    decreases Size(e), 2, 0, 0
  {
    match e
    case Leaf(data, tags, cursors) =>
      var reps := GetRepeats(tags);
      if |reps| == 0 then
        if |tags| == 0 then data[0]
        else
          OffsetBound(cursors, d);
          data[Offset(cursors, d)]
      else
        GetRepeatsSpec(tags);
        Trace(data, tags, cursors, reps, d)
    case Product(l, r, inv) => Contract(l, r, inv, Contracted(l, r), d)
    case Sum(l, r, inv) => if inv then Value(l, d) - Value(r, d) else Value(l, d) + Value(r, d)
    case Scale(m, c, inv) => if inv then Div(Value(c, d), m) else m * Value(c, d)
  }

  /**
   * A product summed over the contracted tags `reps` (GetValue_Helper of
   * the product): each tag in turn takes every value 0..d-1 on both
   * operands; with nothing left to contract the operands are combined.
   * The sum starts from zero.
   */
  function Contract(l: Expr, r: Expr, inv: bool, reps: Pack, d: nat): real
    requires WF(l, d) && WF(r, d)
    decreases Size(l) + Size(r) + 1, 1, |reps|, d + 1
  {
    if |reps| == 0 then Combine(inv, Value(l, d), Value(r, d))
    else ContractLoop(l, r, inv, reps, d, 0)
  }

  function ContractLoop(l: Expr, r: Expr, inv: bool, reps: Pack, d: nat, i: nat): real
    requires WF(l, d) && WF(r, d) && |reps| > 0 && i <= d
    decreases Size(l) + Size(r) + 1, 1, |reps|, d - i
  {
    if i == d then 0.0
    else
      SetIndexInRange(l, reps[0], i, d);
      SetIndexInRange(r, reps[0], i, d);
      Contract(SetIndex(l, reps[0], i), SetIndex(r, reps[0], i), inv, reps[1..], d)
        + ContractLoop(l, r, inv, reps, d, i + 1)
  }

  // ----------------------------------------------------------------------
  // Building expressions

  /**
   * Indexing a tensor of the given rank: the IndexedTensor type only
   * exists when the number of tags equals the rank; every cursor starts
   * at 0.
   */
  function MakeLeaf(data: seq<real>, rank: nat, tags: Pack): (r: Option<Expr>)
    ensures r.Some? <==> |tags| == rank
    ensures r.Some? ==> r.value.Leaf? && r.value.data == data && r.value.tags == tags
                        && |r.value.cursors| == rank && Below(r.value.cursors, 1)
  {
    if |tags| == rank then Some(Leaf(data, tags, seq(rank, _ => 0))) else None
  }

  /** operator+ / operator-: only defined when the free lists are EqualPacks. */
  function AddExpr(l: Expr, r: Expr, inverse: bool): (s: Option<Expr>)
    ensures s.Some? <==> EqualPacks(Free(l), Free(r))
    ensures s.Some? ==> s.value.Sum? && Free(s.value) == Free(l)
  {
    if EqualPacks(Free(l), Free(r)) then Some(Sum(l, r, inverse)) else None
  }

  lemma AddExprValue(l: Expr, r: Expr, inverse: bool, d: nat)
    requires WF(l, d) && WF(r, d) && EqualPacks(Free(l), Free(r))
    ensures AddExpr(l, r, inverse).Some?
    ensures WF(AddExpr(l, r, inverse).value, d)
    ensures Value(AddExpr(l, r, inverse).value, d)
            == if inverse then Value(l, d) - Value(r, d) else Value(l, d) + Value(r, d)
    ensures forall t :: t in Free(l) <==> t in Free(r)
  {
    EqualPacksMeaning(Free(l), Free(r));
  }

  /** operator* / operator/ between expressions. */
  function MulExpr(l: Expr, r: Expr, inverse: bool): (p: Expr)
    ensures p.Product? && Size(p) > Size(l) && Size(p) > Size(r)
  {
    Product(l, r, inverse)
  }

  /**
   * The free list of a product holds the tags that exactly one operand
   * carries and the contracted list the tags both carry; both lists are
   * duplicate-free.
   */
  lemma ProductTags(l: Expr, r: Expr, inverse: bool)
    ensures forall t :: t in Free(MulExpr(l, r, inverse)) <==> (t in Free(l) <==> t !in Free(r))
    ensures forall t :: t in Contracted(l, r) <==> t in Free(l) && t in Free(r)
    ensures NoDup(Free(MulExpr(l, r, inverse))) && NoDup(Contracted(l, r))
  {
    FreeNoDup(l);
    FreeNoDup(r);
    ProductPacks(Free(l), Free(r));
    FreeNoDup(MulExpr(l, r, inverse));
  }

  /** With nothing to contract a product is the product (or quotient) of its operands. */
  lemma OuterProduct(l: Expr, r: Expr, inverse: bool, d: nat)
    requires WF(l, d) && WF(r, d)
    requires forall t :: t in Free(l) ==> t !in Free(r)
    ensures Value(MulExpr(l, r, inverse), d) == Combine(inverse, Value(l, d), Value(r, d))
  {
    ProductTags(l, r, inverse);
    EmptyWhenNoMember(Contracted(l, r));
  }

  /** Scalar multiplication (`s * e`, `e * s`) and division (`e / s`). */
  function ScaleExpr(multiplier: real, e: Expr, inverse: bool): (r: Expr)
    ensures Free(r) == Free(e) && Size(r) == Size(e) + 1
  {
    Scale(multiplier, e, inverse)
  }

  // ----------------------------------------------------------------------
  // The engine's own loops

  /**
   * getValue as the engine runs it: the trace and contraction loops add
   * into a running total (`valueThusFar`) that starts at zero.
   */
  method Evaluate(e: Expr, d: nat) returns (v: real)
    requires WF(e, d)
    ensures v == Value(e, d)
    decreases Size(e), 2, 0
  {
    match e
    case Leaf(data, tags, cursors) =>
      var reps := GetRepeats(tags);
      if |reps| == 0 {
        if |tags| == 0 {
          v := data[0];
        } else {
          OffsetBound(cursors, d);
          v := data[Offset(cursors, d)];
        }
      } else {
        GetRepeatsSpec(tags);
        v := TraceInto(0.0, data, tags, cursors, reps, d);
      }
    case Product(l, r, inv) =>
      var reps := Contracted(l, r);
      if |reps| == 0 {
        var a := Evaluate(l, d);
        var b := Evaluate(r, d);
        v := Combine(inv, a, b);
      } else {
        v := ContractInto(0.0, l, r, inv, reps, d);
      }
    case Sum(l, r, inv) =>
      var a := Evaluate(l, d);
      var b := Evaluate(r, d);
      v := if inv then a - b else a + b;
    case Scale(m, c, inv) =>
      var a := Evaluate(c, d);
      v := if inv then Div(a, m) else m * a;
  }

  /** The leaf's GetValue_Helper: adds the trace over `reps` to `acc`. */
  method TraceInto(acc: real, data: seq<real>, tags: Pack, cursors: Cursors, reps: Pack, d: nat)
    returns (total: real)
    requires |data| == Power(d, |tags|) && |cursors| == |tags| && Below(cursors, d)
    requires Traceable(reps, tags) && |reps| > 0
    ensures total == acc + TraceLoop(data, tags, cursors, reps, d, 0)
    decreases |reps|
  {
    total := acc;
    var i := 0;
    while i < d
      invariant 0 <= i <= d
      invariant total + TraceLoop(data, tags, cursors, reps, d, i)
                == acc + TraceLoop(data, tags, cursors, reps, d, 0)
    {
      var here := TraceCursors(tags, cursors, reps[0], i);
      if |reps| == 1 {
        OffsetBound(here, d);
        total := total + data[Offset(here, d)];
      } else {
        total := TraceInto(total, data, tags, here, reps[1..], d);
      }
      i := i + 1;
    }
  }

  /** The product's GetValue_Helper: adds the contraction over `reps` to `acc`. */
  method ContractInto(acc: real, l: Expr, r: Expr, inv: bool, reps: Pack, d: nat)
    returns (total: real)
    requires WF(l, d) && WF(r, d) && |reps| > 0
    ensures total == acc + ContractLoop(l, r, inv, reps, d, 0)
    decreases Size(l) + Size(r) + 1, 1, |reps|
  {
    total := acc;
    var i := 0;
    while i < d
      invariant 0 <= i <= d
      invariant total + ContractLoop(l, r, inv, reps, d, i)
                == acc + ContractLoop(l, r, inv, reps, d, 0)
    {
      SetIndexInRange(l, reps[0], i, d);
      SetIndexInRange(r, reps[0], i, d);
      var l1 := SetIndex(l, reps[0], i);
      var r1 := SetIndex(r, reps[0], i);
      if |reps| == 1 {
        var a := Evaluate(l1, d);
        var b := Evaluate(r1, d);
        total := total + Combine(inv, a, b);
      } else {
        total := ContractInto(total, l1, r1, inv, reps[1..], d);
      }
      i := i + 1;
    }
  }

  // ----------------------------------------------------------------------
  // What the engine computes

  /** Setting a duplicate-free leaf's tags from position k on writes exactly those cursors. */
  lemma {:induction false} SetAllLeaf(data: seq<real>, tags: Pack, cursors: Cursors, k: nat, c: Cursors)
    requires NoDup(tags) && |cursors| == |tags| && k <= |tags| && |c| == |tags| - k
    ensures SetAll(Leaf(data, tags, cursors), tags[k..], c) == Leaf(data, tags, cursors[..k] + c)
    decreases |tags| - k
  {
    if k == |tags| {
      assert cursors[..k] + c == cursors;
    } else {
      NoDupDistinct(tags);
      var leaf := Leaf(data, tags, cursors);
      var next := SetIndex(leaf, tags[k], c[0]);
      assert tags[k] !in tags[..k];
      assert next.cursors == cursors[k := c[0]];
      assert tags[k..][1..] == tags[k + 1..];
      SetAllLeaf(data, tags, cursors[k := c[0]], k + 1, c[1..]);
      assert cursors[k := c[0]][..k + 1] + c[1..] == cursors[..k] + c;
    }
  }

  /**
   * Reading a leaf with no repeated tags after setting its tags to the
   * coordinates c reads the buffer at the row-major offset of c.
   */
  lemma LeafEntry(data: seq<real>, tags: Pack, cursors: Cursors, c: Cursors, d: nat)
    requires WF(Leaf(data, tags, cursors), d) && GetRepeats(tags) == []
    requires |c| == |tags| && Below(c, d)
    ensures RowMajor(c, d) < |data| && WF(SetAll(Leaf(data, tags, cursors), tags, c), d)
    ensures Value(SetAll(Leaf(data, tags, cursors), tags, c), d) == data[RowMajor(c, d)]
  {
    RowMajorBound(c, d);
    SetAllInRange(Leaf(data, tags, cursors), tags, c, d);
    NoRepeatsKeepsPack(tags);
    SetAllLeaf(data, tags, cursors, 0, c);
    assert tags[0..] == tags && cursors[..0] + c == c;
    OffsetIsRowMajor(c, d);
  }

  /** The sum of the diagonal entries M[k][k] for k < n of a d-by-d matrix. */
  function Diagonal(m: seq<real>, d: nat, n: nat): real
    requires n <= d && |m| == d * d
  {
    if n == 0 then 0.0
    else
      DiagonalIndex(d, n - 1);
      Diagonal(m, d, n - 1) + m[(n - 1) * d + (n - 1)]
  }

  lemma DiagonalIndex(d: nat, k: nat)
    requires k < d
    ensures k * d + k < d * d
  {
    MulMono(k + 1, d, d);
  }

  lemma SquareSize(d: nat)
    ensures Power(d, 2) == d * d
  {
    assert Power(d, 1) == d;
  }

  /** The tag algebra of a doubled tag: one repeat, occurring at positions 0 and 1. */
  lemma PairTags(t: Tag)
    ensures Count(t, [t, t]) == 2 && GetRepeats([t, t]) == [t]
    ensures LocateNth(0, t, [t, t]) == 0 && LocateNth(1, t, [t, t]) == 1
  {
    assert [t, t][1..] == [t] && [t][1..] == [];
    assert Count(t, [t]) == 1;
    assert KeyInPack(t, [t]) && !KeyInPack(t, []);
    assert GetRepeats([t]) == [] + GetRepeats([]);
    assert LocateNth(0, t, [t]) == 0;
  }

  lemma TraceStep(m: seq<real>, t: Tag, cursors: Cursors, d: nat, i: nat)
    requires |m| == Power(d, 2) && |cursors| == 2 && Below(cursors, d) && i < d
    ensures Count(t, [t, t]) == 2 && i * d + i < |m|
    ensures TraceLoop(m, [t, t], cursors, [t], d, i)
            == m[i * d + i] + TraceLoop(m, [t, t], cursors, [t], d, i + 1)
  {
    PairTags(t);
    SquareSize(d);
    DiagonalIndex(d, i);
    var here := TraceCursors([t, t], cursors, t, i);
    assert here == [i, i];
    assert here[..1] == [i] && [i][..0] == [];
    assert Offset([i], d) == Offset([], d) * d + i == i;
    assert Offset(here, d) == Offset([i], d) * d + i;
    assert [t][1..] == [];
  }

  /** A self-traced matrix M(i, i) is the sum of its diagonal. */
  lemma TraceIsDiagonal(m: seq<real>, t: Tag, cursors: Cursors, d: nat)
    requires WF(Leaf(m, [t, t], cursors), d)
    ensures |m| == d * d
    ensures Value(Leaf(m, [t, t], cursors), d) == Diagonal(m, d, d)
  {
    SquareSize(d);
    PairTags(t);
    GetRepeatsSpec([t, t]);
    assert Value(Leaf(m, [t, t], cursors), d) == TraceLoop(m, [t, t], cursors, [t], d, 0);
    var i := d;
    while i > 0
      invariant 0 <= i <= d
      invariant TraceLoop(m, [t, t], cursors, [t], d, i) + Diagonal(m, d, i) == Diagonal(m, d, d)
    {
      i := i - 1;
      TraceStep(m, t, cursors, d, i);
    }
  }

  /** With d = 3 and M holding 1..9 in storage order, M(i, i) is 1 + 5 + 9. */
  lemma TraceExample(m: seq<real>)
    requires m == [1.0, 2.0, 3.0, 4.0, 5.0, 6.0, 7.0, 8.0, 9.0]
    ensures WF(Leaf(m, "ii", [0, 0]), 3)
    ensures Value(Leaf(m, "ii", [0, 0]), 3) == 15.0
  {
    SquareSize(3);
    assert "ii" == ['i', 'i'];
    TraceIsDiagonal(m, 'i', [0, 0], 3);
    assert Diagonal(m, 3, 1) == 1.0;
    assert Diagonal(m, 3, 2) == 6.0;
  }

  /**
   * A tag written three times is traced twice: GetRepeats keeps two copies,
   * both loops drive the first two positions, and the third position keeps
   * its cursor.  With d = 2 the value is 2 * (M[0][0][c] + M[1][1][c]).
   */
  lemma TripleTag(m: seq<real>, cursors: Cursors)
    requires |m| == 8 && |cursors| == 3 && Below(cursors, 2)
    ensures WF(Leaf(m, "iii", cursors), 2)
    ensures Value(Leaf(m, "iii", cursors), 2) == 2.0 * (m[cursors[2]] + m[6 + cursors[2]])
  {
    var tags := "iii";
    var c2 := cursors[2];
    TripleTagAlgebra();
    forall here: Cursors | |here| == 3 && Below(here, 2) && here[2] == c2
      ensures Trace(m, tags, here, "i", 2) == m[c2] + m[6 + c2]
    {
      TripleTagTrace(m, here);
    }
    var z := TraceCursors(tags, cursors, 'i', 0);
    var o := TraceCursors(tags, cursors, 'i', 1);
    assert z[2] == c2 && o[2] == c2;
    assert TraceLoop(m, tags, cursors, "ii", 2, 2) == 0.0;
  }

  /** The tag algebra of "iii": two copies of 'i' are traced, at positions 0 and 1. */
  lemma TripleTagAlgebra()
    ensures Power(2, 3) == 8
    ensures GetRepeats("iii") == "ii" && Count('i', "iii") == 3
    ensures LocateNth(0, 'i', "iii") == 0 && LocateNth(1, 'i', "iii") == 1 + LocateNth(0, 'i', "ii")
  {
    var tags := "iii";
    assert Power(2, 3) == 8 by {
      SquareSize(2);
    }
    assert tags[1..] == "ii" && "ii"[1..] == "i" && "i"[1..] == "";
    PairTags('i');
    assert "ii" == ['i', 'i'];
    assert KeyInPack('i', "ii");
  }

  /** The inner trace over the second copy of 'i', the outer one fixed by `here`. */
  lemma TripleTagTrace(m: seq<real>, here: Cursors)
    requires |m| == 8 && |here| == 3 && Below(here, 2)
    ensures Trace(m, "iii", here, "i", 2) == m[here[2]] + m[6 + here[2]]
  {
    var tags := "iii";
    var c2 := here[2];
    TripleTagAlgebra();
    var z := TraceCursors(tags, here, 'i', 0);
    var o := TraceCursors(tags, here, 'i', 1);
    TripleCursors(here, 0);
    TripleCursors(here, 1);
    assert Trace(m, tags, z, "", 2) == m[c2];
    assert Trace(m, tags, o, "", 2) == m[6 + c2];
    assert TraceLoop(m, tags, here, "i", 2, 2) == 0.0;
  }

  /** Tracing "iii" at v sets the first two cursors to v and keeps the third. */
  lemma TripleCursors(here: Cursors, v: nat)
    requires |here| == 3 && v < 2
    ensures Count('i', "iii") >= 2
    ensures TraceCursors("iii", here, 'i', v) == [v, v, here[2]]
    ensures Offset([v, v, here[2]], 2) == 6 * v + here[2]
  {
    TripleTagAlgebra();
    assert "ii" == ['i', 'i'];
    var c := [v, v, here[2]];
    assert c[..2] == [v, v] && [v, v][..1] == [v] && [v][..0] == [];
    assert Offset([v], 2) == v;
    assert Offset([v, v], 2) == 3 * v;
  }

  /** The sum over k < n of M[a][k] * v[k]. */
  function RowDot(m: seq<real>, v: seq<real>, a: nat, d: nat, n: nat): real
    requires a < d && n <= d && |m| == d * d && |v| == d
  {
    if n == 0 then 0.0
    else
      RowDot(m, v, a, d, n - 1) + RowTerm(m, v, a, d, n - 1)
  }

  /** The term M[a][k] * v[k] of a row's dot product. */
  function RowTerm(m: seq<real>, v: seq<real>, a: nat, d: nat, k: nat): real
    requires a < d && k < d && |m| == d * d && |v| == d
  {
    MulMono(a + 1, d, d);
    m[a * d + k] * v[k]
  }

  /** The tag algebra of two distinct tags. */
  lemma TwoTags(i: Tag, j: Tag)
    requires i != j
    ensures GetRepeats([j]) == [] && RemoveRepeats([j]) == [j]
    ensures GetRepeats([i, j]) == [] && RemoveRepeats([i, j]) == [i, j]
    ensures GetRepeats([j, i]) == [] && RemoveRepeats([j, i]) == [j, i]
    ensures GetRepeats([i, j] + [j]) == [j]
    ensures EqualPacks([i, j], [j, i])
  {
    assert [j][1..] == [] && [i, j][1..] == [j] && [j, i][1..] == [i] && [i][1..] == [];
    assert !KeyInPack(i, [j]) && !KeyInPack(j, [i]) && !KeyInPack(j, []) && !KeyInPack(i, []);
    assert GetRepeats([i]) == [] + GetRepeats([]);
    assert GetRepeats([j]) == [] + GetRepeats([]);
    assert GetRepeats([i, j]) == [] + GetRepeats([j]);
    assert GetRepeats([j, i]) == [] + GetRepeats([i]);
    NoRepeatsKeepsPack([j]);
    NoRepeatsKeepsPack([i, j]);
    NoRepeatsKeepsPack([j, i]);
    var ijj := [i, j] + [j];
    assert ijj == [i, j, j] && ijj[1..] == [j, j] && [j, j][1..] == [j];
    assert !KeyInPack(i, [j, j]) && KeyInPack(j, [j]);
    assert GetRepeats([j, j]) == [j] + GetRepeats([j]);
    assert GetRepeats(ijj) == [] + GetRepeats([j, j]);
    assert KeyInPack(i, [j, i]) && KeyInPack(j, [j]);
    assert RemoveType(i, []) == [] && RemoveType(j, []) == [];
    assert RemoveType(i, [i]) == [] + RemoveType(i, []);
    assert RemoveType(j, [j]) == [] + RemoveType(j, []);
    assert RemoveType(i, [j, i]) == [j] + RemoveType(i, [i]);
    assert EqualPacks([j], [j]) == EqualPacks([], []);
  }

  lemma OffsetTwo(a: nat, b: nat, d: nat)
    ensures Offset([a], d) == a && Offset([a, b], d) == a * d + b
  {
    assert [a, b][..1] == [a] && [a][..0] == [];
  }

  /** Setting either tag of a leaf over two distinct tags moves exactly that position. */
  lemma SetTwo(data: seq<real>, i: Tag, j: Tag, c: Cursors, v: nat)
    requires i != j && |c| == 2
    ensures SetIndex(Leaf(data, [i, j], c), i, v) == Leaf(data, [i, j], [v, c[1]])
    ensures SetIndex(Leaf(data, [i, j], c), j, v) == Leaf(data, [i, j], [c[0], v])
  {
    assert [i, j][..0] == [] && [i, j][..1] == [i];
  }

  lemma SetOne(data: seq<real>, j: Tag, c: Cursors, t: Tag, v: nat)
    requires |c| == 1
    ensures SetIndex(Leaf(data, [j], c), t, v) == Leaf(data, [j], if t == j then [v] else c)
  {
    assert [j][..0] == [];
  }

  lemma LeafValueTwo(m: seq<real>, i: Tag, j: Tag, a: nat, k: nat, d: nat)
    requires i != j && |m| == d * d && a < d && k < d
    ensures WF(Leaf(m, [i, j], [a, k]), d) && a * d + k < |m|
    ensures Value(Leaf(m, [i, j], [a, k]), d) == m[a * d + k]
  {
    SquareSize(d);
    MulMono(a + 1, d, d);
    TwoTags(i, j);
    OffsetTwo(a, k, d);
  }

  lemma LeafValueOne(v: seq<real>, j: Tag, k: nat, d: nat)
    requires |v| == d && k < d
    ensures WF(Leaf(v, [j], [k]), d)
    ensures Value(Leaf(v, [j], [k]), d) == v[k]
  {
    assert Power(d, 1) == d;
    assert [j][1..] == [] && !KeyInPack(j, []);
    assert GetRepeats([j]) == [] + GetRepeats([]);
    OffsetTwo(k, 0, d);
    assert |GetRepeats([j])| == 0 && |[j]| != 0;
  }

  /** One turn of a contraction loop, with the loop's first tag fixed to k. */
  lemma ContractLoopStep(l: Expr, r: Expr, inv: bool, reps: Pack, d: nat, k: nat)
    requires WF(l, d) && WF(r, d) && |reps| > 0 && k < d
    ensures WF(SetIndex(l, reps[0], k), d) && WF(SetIndex(r, reps[0], k), d)
    ensures ContractLoop(l, r, inv, reps, d, k)
            == Contract(SetIndex(l, reps[0], k), SetIndex(r, reps[0], k), inv, reps[1..], d)
               + ContractLoop(l, r, inv, reps, d, k + 1)
  {
    SetIndexInRange(l, reps[0], k, d);
    SetIndexInRange(r, reps[0], k, d);
  }

  /** With no tags left to contract, the product is the two values combined. */
  lemma ContractBase(l: Expr, r: Expr, inv: bool, d: nat)
    requires WF(l, d) && WF(r, d)
    ensures Contract(l, r, inv, [], d) == Combine(inv, Value(l, d), Value(r, d))
  {
  }

  lemma CombineProduct(x: real, y: real, x2: real, y2: real)
    requires x == x2 && y == y2
    ensures Combine(false, x, y) == x2 * y2
  {
  }

  /** M(i, j) at (a, k) times v(j) at k, with nothing left to contract. */
  lemma LeafProduct(m: seq<real>, v: seq<real>, i: Tag, j: Tag, a: nat, k: nat, d: nat)
    requires i != j && |m| == d * d && |v| == d && a < d && k < d
    ensures WF(Leaf(m, [i, j], [a, k]), d) && WF(Leaf(v, [j], [k]), d)
    ensures Contract(Leaf(m, [i, j], [a, k]), Leaf(v, [j], [k]), false, [], d) == RowTerm(m, v, a, d, k)
  {
    var l1 := Leaf(m, [i, j], [a, k]);
    var r1 := Leaf(v, [j], [k]);
    LeafValueTwo(m, i, j, a, k, d);
    LeafValueOne(v, j, k, d);
    ContractBase(l1, r1, false, d);
    CombineProduct(Value(l1, d), Value(r1, d), m[a * d + k], v[k]);
  }

  lemma MatVecStep(m: seq<real>, v: seq<real>, i: Tag, j: Tag, b: nat, cv: Cursors, a: nat, d: nat, k: nat)
    requires i != j && |m| == d * d && |v| == d && a < d && k < d
    requires |cv| == 1
    requires WF(Leaf(m, [i, j], [a, b]), d) && WF(Leaf(v, [j], cv), d)
    ensures ContractLoop(Leaf(m, [i, j], [a, b]), Leaf(v, [j], cv), false, [j], d, k)
            == RowTerm(m, v, a, d, k) + ContractLoop(Leaf(m, [i, j], [a, b]), Leaf(v, [j], cv), false, [j], d, k + 1)
  {
    var l := Leaf(m, [i, j], [a, b]);
    var r := Leaf(v, [j], cv);
    var l1 := Leaf(m, [i, j], [a, k]);
    var r1 := Leaf(v, [j], [k]);
    ContractLoopStep(l, r, false, [j], d, k);
    SetTwo(m, i, j, [a, b], k);
    SetOne(v, j, cv, j, k);
    assert SetIndex(l, j, k) == l1 && SetIndex(r, j, k) == r1;
    assert [j][1..] == [];
    LeafProduct(m, v, i, j, a, k, d);
  }

  lemma MatVecTags(m: seq<real>, v: seq<real>, i: Tag, j: Tag, cm: Cursors, cv: Cursors)
    requires i != j
    ensures Contracted(Leaf(m, [i, j], cm), Leaf(v, [j], cv)) == [j]
    ensures Free(MulExpr(Leaf(m, [i, j], cm), Leaf(v, [j], cv), false)) == [i]
  {
    TwoTags(i, j);
    assert [i, j] + [j] == [i, j, j] && [i, j, j][1..] == [j, j] && [j, j][1..] == [j] && [j][1..] == [];
    assert RemoveType(j, [j, j]) == RemoveType(j, [j]) == RemoveType(j, []) == [];
    assert RemoveType(j, [i, j, j]) == [i] + RemoveType(j, [j, j]);
    assert RemoveRepeats([i, j] + [j]) == RemoveTypes([], RemoveType(j, [i, j, j]));
  }

  /** The contraction loop of M(i, j) * v(j) at row a, summed from k = 0. */
  lemma {:induction false} MatVecLoop(m: seq<real>, v: seq<real>, i: Tag, j: Tag, b: nat, cv: Cursors, a: nat, d: nat)
    requires i != j && |m| == d * d && |v| == d && a < d && |cv| == 1
    requires WF(Leaf(m, [i, j], [a, b]), d) && WF(Leaf(v, [j], cv), d)
    ensures ContractLoop(Leaf(m, [i, j], [a, b]), Leaf(v, [j], cv), false, [j], d, 0) == RowDot(m, v, a, d, d)
  {
    var l := Leaf(m, [i, j], [a, b]);
    var r := Leaf(v, [j], cv);
    var k := d;
    while k > 0
      invariant 0 <= k <= d
      invariant ContractLoop(l, r, false, [j], d, k) + RowDot(m, v, a, d, k) == RowDot(m, v, a, d, d)
    {
      k := k - 1;
      MatVecStep(m, v, i, j, b, cv, a, d, k);
    }
  }

  /** Fixing i on the product fixes it on the matrix operand only. */
  lemma MatVecSet(m: seq<real>, v: seq<real>, i: Tag, j: Tag, cm: Cursors, cv: Cursors, a: nat, d: nat)
    requires i != j && WF(Leaf(m, [i, j], cm), d) && WF(Leaf(v, [j], cv), d) && a < d
    ensures SetIndex(MulExpr(Leaf(m, [i, j], cm), Leaf(v, [j], cv), false), i, a)
            == Product(Leaf(m, [i, j], [a, cm[1]]), Leaf(v, [j], cv), false)
  {
    SetTwo(m, i, j, cm, a);
    SetOne(v, j, cv, i, a);
  }

  /**
   * Matrix times vector, M(i, j) * v(j), contracts j: at i = a it is the
   * dot product of row a with v.
   */
  lemma MatVec(m: seq<real>, v: seq<real>, i: Tag, j: Tag, cm: Cursors, cv: Cursors, a: nat, d: nat)
    requires i != j && WF(Leaf(m, [i, j], cm), d) && WF(Leaf(v, [j], cv), d) && a < d
    ensures |m| == d * d && |v| == d
    ensures Contracted(Leaf(m, [i, j], cm), Leaf(v, [j], cv)) == [j]
    ensures Free(MulExpr(Leaf(m, [i, j], cm), Leaf(v, [j], cv), false)) == [i]
    ensures WF(SetIndex(MulExpr(Leaf(m, [i, j], cm), Leaf(v, [j], cv), false), i, a), d)
    ensures Value(SetIndex(MulExpr(Leaf(m, [i, j], cm), Leaf(v, [j], cv), false), i, a), d)
            == RowDot(m, v, a, d, d)
  {
    SquareSize(d);
    assert Power(d, 1) == d;
    MatVecTags(m, v, i, j, cm, cv);
    SetIndexInRange(MulExpr(Leaf(m, [i, j], cm), Leaf(v, [j], cv), false), i, a, d);
    MatVecSet(m, v, i, j, cm, cv, a, d);
    var l := Leaf(m, [i, j], [a, cm[1]]);
    var r := Leaf(v, [j], cv);
    MatVecTags(m, v, i, j, [a, cm[1]], cv);
    assert Value(Product(l, r, false), d) == Contract(l, r, false, [j], d) == ContractLoop(l, r, false, [j], d, 0);
    MatVecLoop(m, v, i, j, cm[1], cv, a, d);
  }

  /** The sum over k < n of x[k] * y[k]. */
  function Dot(x: seq<real>, y: seq<real>, n: nat): real
    requires n <= |x| && n <= |y|
  {
    if n == 0 then 0.0 else Dot(x, y, n - 1) + x[n - 1] * y[n - 1]
  }

  /** x(i) * y(i) contracts i and leaves nothing free. */
  lemma DotTags(x: seq<real>, y: seq<real>, i: Tag, cx: Cursors, cy: Cursors)
    ensures Contracted(Leaf(x, [i], cx), Leaf(y, [i], cy)) == [i]
    ensures Free(MulExpr(Leaf(x, [i], cx), Leaf(y, [i], cy), false)) == []
  {
    PairTags(i);
    assert [i][1..] == [] && !KeyInPack(i, []);
    assert GetRepeats([i]) == [] + GetRepeats([]);
    NoRepeatsKeepsPack([i]);
    assert [i] + [i] == [i, i] && [i, i][1..] == [i];
    assert RemoveType(i, []) == [];
    assert RemoveType(i, [i]) == [] + RemoveType(i, []);
    assert RemoveType(i, [i, i]) == [] + RemoveType(i, [i]);
    assert RemoveRepeats([i, i]) == RemoveTypes([], RemoveType(i, [i, i]));
  }

  lemma DotStep(x: seq<real>, y: seq<real>, i: Tag, cx: Cursors, cy: Cursors, d: nat, k: nat)
    requires |x| == d && |y| == d && k < d && |cx| == 1 && |cy| == 1
    requires WF(Leaf(x, [i], cx), d) && WF(Leaf(y, [i], cy), d)
    ensures ContractLoop(Leaf(x, [i], cx), Leaf(y, [i], cy), false, [i], d, k)
            == x[k] * y[k] + ContractLoop(Leaf(x, [i], cx), Leaf(y, [i], cy), false, [i], d, k + 1)
  {
    var l := Leaf(x, [i], cx);
    var r := Leaf(y, [i], cy);
    ContractLoopStep(l, r, false, [i], d, k);
    SetOne(x, i, cx, i, k);
    SetOne(y, i, cy, i, k);
    LeafValueOne(x, i, k, d);
    LeafValueOne(y, i, k, d);
    assert [i][1..] == [];
    assert Contract(Leaf(x, [i], [k]), Leaf(y, [i], [k]), false, [], d)
           == Value(Leaf(x, [i], [k]), d) * Value(Leaf(y, [i], [k]), d);
  }

  lemma {:induction false} DotLoop(x: seq<real>, y: seq<real>, i: Tag, cx: Cursors, cy: Cursors, d: nat)
    requires |x| == d && |y| == d && |cx| == 1 && |cy| == 1
    requires WF(Leaf(x, [i], cx), d) && WF(Leaf(y, [i], cy), d)
    ensures ContractLoop(Leaf(x, [i], cx), Leaf(y, [i], cy), false, [i], d, 0) == Dot(x, y, d)
  {
    var l := Leaf(x, [i], cx);
    var r := Leaf(y, [i], cy);
    var k := d;
    while k > 0
      invariant 0 <= k <= d
      invariant ContractLoop(l, r, false, [i], d, k) + Dot(x, y, k) == Dot(x, y, d)
    {
      k := k - 1;
      DotStep(x, y, i, cx, cy, d, k);
    }
  }

  /** Contracting a repeated tag across two vectors, x(i) * y(i), is their dot product. */
  lemma DotProduct(x: seq<real>, y: seq<real>, i: Tag, cx: Cursors, cy: Cursors, d: nat)
    requires WF(Leaf(x, [i], cx), d) && WF(Leaf(y, [i], cy), d)
    ensures |x| == d && |y| == d
    ensures Contracted(Leaf(x, [i], cx), Leaf(y, [i], cy)) == [i]
    ensures Free(MulExpr(Leaf(x, [i], cx), Leaf(y, [i], cy), false)) == []
    ensures Value(MulExpr(Leaf(x, [i], cx), Leaf(y, [i], cy), false), d) == Dot(x, y, d)
  {
    assert Power(d, 1) == d;
    DotTags(x, y, i, cx, cy);
    DotLoop(x, y, i, cx, cy, d);
  }

  /**
   * getValue of a contracting product as written: the running total
   * `output` is declared without an initialiser, so the loops add onto
   * whatever `start` it happens to hold.
   */
  function ProductValueAsWritten(start: real, l: Expr, r: Expr, inv: bool, d: nat): (v: real)
    requires WF(l, d) && WF(r, d)
    ensures |Contracted(l, r)| > 0 ==> v == start + Value(Product(l, r, inv), d)
    ensures |Contracted(l, r)| == 0 ==> v == Value(Product(l, r, inv), d)
  {
    var reps := Contracted(l, r);
    if |reps| == 0 then Combine(inv, Value(l, d), Value(r, d))
    else start + ContractLoop(l, r, inv, reps, d, 0)
  }

  /**
   * The smallest case that shows it: x(i) * x(i) with x = [1, 0] in two
   * dimensions is 1, while the product as written yields 1 + start.
   */
  lemma AccumulatorCounterexample(x: seq<real>, i: Tag, start: real)
    requires x == [1.0, 0.0] && start != 0.0
    ensures WF(Leaf(x, [i], [0]), 2)
    ensures Value(MulExpr(Leaf(x, [i], [0]), Leaf(x, [i], [0]), false), 2) == 1.0
    ensures ProductValueAsWritten(start, Leaf(x, [i], [0]), Leaf(x, [i], [0]), false, 2) == start + 1.0 != 1.0
  {
    assert Power(2, 1) == 2;
    DotProduct(x, x, i, [0], [0], 2);
    assert Dot(x, x, 2) == Dot(x, x, 1) + 0.0 * 0.0 == Dot(x, x, 0) + 1.0 * 1.0 + 0.0;
  }

  /**
   * A(i, j) + B(j, i): the free lists are equal up to order, so the sum
   * is accepted and keeps the left list; at i = a, j = b it reads
   * A[a][b] + B[b][a].
   */
  lemma TransposedSum(x: seq<real>, y: seq<real>, i: Tag, j: Tag, a: nat, b: nat, d: nat)
    requires i != j && |x| == d * d && |y| == d * d && a < d && b < d
    ensures AddExpr(Leaf(x, [i, j], [a, b]), Leaf(y, [j, i], [b, a]), false).Some?
    ensures Free(AddExpr(Leaf(x, [i, j], [a, b]), Leaf(y, [j, i], [b, a]), false).value) == [i, j]
    ensures a * d + b < d * d && b * d + a < d * d
    ensures WF(AddExpr(Leaf(x, [i, j], [a, b]), Leaf(y, [j, i], [b, a]), false).value, d)
    ensures Value(AddExpr(Leaf(x, [i, j], [a, b]), Leaf(y, [j, i], [b, a]), false).value, d)
            == x[a * d + b] + y[b * d + a]
  {
    TwoTags(i, j);
    LeafValueTwo(x, i, j, a, b, d);
    LeafValueTwo(y, j, i, b, a, d);
  }
}
