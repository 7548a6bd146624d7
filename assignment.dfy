/**
 * Assignment into an indexed tensor: `A(i, j) = e`, `A(i, j) += e` and
 * `A(i, j) -= e`.  The destination's tags are walked in order, first tag
 * outermost; for every combination of values the source expression has
 * those tags set and its value is stored, added or subtracted at the
 * row-major offset of the combination.  A plain `=` between two leaves of
 * the very same type instead copies the whole buffer.
 */
module Assignment {
  import opened TagAlgebra
  import opened Elementwise
  import opened Expressions

  datatype Mode = Assign | AddAssign | SubAssign

  /** What one element becomes: `=`, `+=` or `-=` of the computed value. */
  function Apply(mode: Mode, was: real, v: real): real
  {
    match mode
    case Assign => v
    case AddAssign => was + v
    case SubAssign => was - v
  }

  // ----------------------------------------------------------------------
  // The values the destination receives

  /**
   * The source's values over every combination of `tags`, in row-major
   * order: a rank-0 destination receives the source's single value.
   */
  function Fill(src: Expr, tags: Pack, d: nat): (r: seq<real>)
    requires WF(src, d)
    ensures |r| == Power(d, |tags|)
    decreases |tags|, 1, 0
  {
    if |tags| == 0 then [Value(src, d)] else FillBlocks(src, tags, d, d)
  }

  /** The first `n` blocks: the first tag set to 0, ..., n-1 in turn. */
  function FillBlocks(src: Expr, tags: Pack, d: nat, n: nat): (r: seq<real>)
    requires WF(src, d) && |tags| > 0 && n <= d
    ensures |r| == n * Power(d, |tags| - 1)
    decreases |tags|, 0, n
  {
    if n == 0 then []
    else
      SetIndexInRange(src, tags[0], n - 1, d);
      var p := Power(d, |tags| - 1);
      assert (n - 1) * p + p == n * p;
      FillBlocks(src, tags, d, n - 1) + Fill(SetIndex(src, tags[0], n - 1), tags[1..], d)
  }

  /** Block b of the fill holds the fill of the source with the first tag set to b. */
  lemma {:induction false} FillBlockAt(src: Expr, tags: Pack, d: nat, n: nat, b: nat, x: nat)
    requires WF(src, d) && |tags| > 0 && n <= d && b < n && x < Power(d, |tags| - 1)
    ensures b * Power(d, |tags| - 1) + x < n * Power(d, |tags| - 1)
    ensures WF(SetIndex(src, tags[0], b), d)
    ensures FillBlocks(src, tags, d, n)[b * Power(d, |tags| - 1) + x]
            == Fill(SetIndex(src, tags[0], b), tags[1..], d)[x]
    decreases n
  {
    SetIndexInRange(src, tags[0], b, d);
    SetIndexInRange(src, tags[0], n - 1, d);
    var p := Power(d, |tags| - 1);
    var head := FillBlocks(src, tags, d, n - 1);
    var last := Fill(SetIndex(src, tags[0], n - 1), tags[1..], d);
    assert FillBlocks(src, tags, d, n) == head + last;
    BlockIndex(b, n, p, x);
    var i := b * p + x;
    if b < n - 1 {
      FillBlockAt(src, tags, d, n - 1, b, x);
      assert (head + last)[i] == head[i];
    } else {
      assert (head + last)[i] == last[x];
    }
  }

  /** Element x of block b of n blocks of p elements. */
  lemma BlockIndex(b: nat, n: nat, p: nat, x: nat)
    requires b < n && x < p
    ensures b * p + x < n * p
    ensures b < n - 1 ==> b * p + x < (n - 1) * p
    ensures b == n - 1 ==> b * p + x == (n - 1) * p + x
  {
    MulMono(b + 1, n, p);
    if b < n - 1 {
      MulMono(b + 1, n - 1, p);
    }
  }

  /**
   * The fill at the row-major offset of coordinates c is the source's
   * value with the tags set to c.
   */
  lemma {:induction false} FillAt(src: Expr, tags: Pack, d: nat, c: Cursors)
    requires WF(src, d) && |c| == |tags| && Below(c, d)
    ensures RowMajor(c, d) < Power(d, |tags|) && WF(SetAll(src, tags, c), d)
    ensures Fill(src, tags, d)[RowMajor(c, d)] == Value(SetAll(src, tags, c), d)
    decreases |tags|
  {
    RowMajorBound(c, d);
    SetAllInRange(src, tags, c, d);
    if |tags| > 0 {
      var first := SetIndex(src, tags[0], c[0]);
      SetIndexInRange(src, tags[0], c[0], d);
      assert Below(c[1..], d);
      FillAt(first, tags[1..], d, c[1..]);
      RowMajorBound(c[1..], d);
      FillBlockAt(src, tags, d, d, c[0], RowMajor(c[1..], d));
    }
  }

  // ----------------------------------------------------------------------
  // Which assignments exist

  /**
   * The generic operators take a source whose free list is the
   * destination's free list, in the same order, and refuse a destination
   * with a repeated tag.
   */
  predicate GenericAccepts(tags: Pack, src: Expr)
  {
    GetRepeats(tags) == [] && Free(src) == RemoveRepeats(tags)
  }

  /** A leaf over the very same tags: the buffer-copying `=` overload. */
  predicate SameLeaf(tags: Pack, src: Expr)
  {
    src.Leaf? && src.tags == tags
  }

  predicate Accepts(mode: Mode, tags: Pack, src: Expr)
  {
    GenericAccepts(tags, src) || (mode == Assign && SameLeaf(tags, src))
  }

  /** `mode` applied element by element. */
  function Assigned(mode: Mode, was: seq<real>, fill: seq<real>): (r: seq<real>)
    requires |was| == |fill|
    ensures |r| == |was| && forall k :: 0 <= k < |r| ==> r[k] == Apply(mode, was[k], fill[k])
  {
    seq(|was|, k requires 0 <= k < |was| => Apply(mode, was[k], fill[k]))
  }

  /** The destination's buffer after the assignment. */
  function AssignResult(mode: Mode, was: seq<real>, tags: Pack, src: Expr, d: nat): (r: seq<real>)
    requires WF(src, d) && |was| == Power(d, |tags|)
    ensures |r| == |was|
  {
    if mode == Assign && SameLeaf(tags, src) then src.data
    else Assigned(mode, was, Fill(src, tags, d))
  }

  /**
   * Element by element: the destination at coordinates c becomes the
   * old element combined with the source at c.
   */
  lemma AssignAt(mode: Mode, was: seq<real>, tags: Pack, src: Expr, d: nat, c: Cursors)
    requires WF(src, d) && |was| == Power(d, |tags|) && GenericAccepts(tags, src)
    requires |c| == |tags| && Below(c, d)
    ensures RowMajor(c, d) < |was| && WF(SetAll(src, tags, c), d)
    ensures AssignResult(mode, was, tags, src, d)[RowMajor(c, d)]
            == Apply(mode, was[RowMajor(c, d)], Value(SetAll(src, tags, c), d))
  {
    FillAt(src, tags, d, c);
    if mode == Assign && SameLeaf(tags, src) {
      var leaf := src;
      LeafEntry(leaf.data, tags, leaf.cursors, c, d);
      assert SetAll(Leaf(leaf.data, tags, leaf.cursors), tags, c) == SetAll(src, tags, c);
    }
  }

  /**
   * The two `=` overloads agree where both apply: filling from a leaf over
   * the destination's own duplicate-free tags reproduces the leaf's buffer.
   */
  lemma LeafFillIsCopy(data: seq<real>, tags: Pack, cursors: Cursors, d: nat)
    requires WF(Leaf(data, tags, cursors), d) && GetRepeats(tags) == []
    ensures Fill(Leaf(data, tags, cursors), tags, d) == data
  {
    var f := Fill(Leaf(data, tags, cursors), tags, d);
    forall x | 0 <= x < |data| ensures f[x] == data[x] {
      var c := Digits(x, d, |tags|);
      DigitsSpec(x, d, |tags|);
      FillAt(Leaf(data, tags, cursors), tags, d, c);
      LeafEntry(data, tags, cursors, c, d);
    }
  }

  // ----------------------------------------------------------------------
  // The assignment loops

  /**
   * Equal_Helper / Plus_Helper / Minus_Helper: loop the first tag over
   * 0..d-1 and either store at `index + i` (last tag) or recurse on the
   * remaining tags at `index + i * d^(remaining)`.
   */
  method Store(data: array<real>, tags: Pack, src: Expr, d: nat, index: nat, mode: Mode)
    requires WF(src, d) && |tags| > 0
    requires index + Power(d, |tags|) <= data.Length
    modifies data
    ensures forall k :: 0 <= k < data.Length && !(index <= k < index + Power(d, |tags|)) ==> data[k] == old(data[k])
    ensures forall k :: 0 <= k < Power(d, |tags|) ==>
              data[index + k] == Apply(mode, old(data[index + k]), Fill(src, tags, d)[k])
    decreases |tags|
  {
    var p := Power(d, |tags| - 1);
    var i := 0;
    ghost var done := 0;
    while i < d
      invariant 0 <= i <= d && done == i * p
      invariant forall k :: 0 <= k < data.Length && !(index <= k < index + done) ==> data[k] == old(data[k])
      invariant forall k :: 0 <= k < done ==>
                  data[index + k] == Apply(mode, old(data[index + k]), FillBlocks(src, tags, d, i)[k])
    {
      SetIndexInRange(src, tags[0], i, d);
      var next := SetIndex(src, tags[0], i);
      ghost var before := FillBlocks(src, tags, d, i);
      ghost var block := Fill(next, tags[1..], d);
      assert FillBlocks(src, tags, d, i + 1) == before + block;
      assert i * p == done && (i + 1) * p == done + p && done + p <= Power(d, |tags|) by {
        MulMono(i + 1, d, p);
      }
      ghost var mid := data[..];
      if |tags| == 1 {
        var v := Evaluate(next, d);
        data[index + i] := Apply(mode, data[index + i], v);
        assert p == 1 && block == [v];
      } else {
        Store(data, tags[1..], next, d, index + i * p, mode);
      }
      forall k | 0 <= k < done + p
        ensures data[index + k] == Apply(mode, old(data[index + k]), (before + block)[k])
      {
        if k < done {
          assert data[index + k] == mid[index + k];
        } else {
          assert data[index + k] == data[(index + i * p) + (k - done)];
        }
      }
      i := i + 1;
      done := done + p;
    }
  }

  /**
   * operator=, operator+= and operator-= of a leaf over `tags` whose
   * buffer is `data`.  The overload must exist (`Accepts`).
   */
  method AssignTo(data: array<real>, tags: Pack, src: Expr, d: nat, mode: Mode)
    requires WF(src, d) && data.Length == Power(d, |tags|) && Accepts(mode, tags, src)
    modifies data
    ensures data[..] == AssignResult(mode, old(data[..]), tags, src, d)
  {
    if mode == Assign && SameLeaf(tags, src) {
      CopyBuffer(data, src.data);
    } else if |tags| == 0 {
      var v := Evaluate(src, d);
      data[0] := Apply(mode, data[0], v);
      assert data[..] == [Apply(mode, old(data[0]), v)];
    } else {
      ghost var was := data[..];
      ghost var fill := Fill(src, tags, d);
      Store(data, tags, src, d, 0, mode);
      forall k | 0 <= k < data.Length ensures data[..][k] == Assigned(mode, was, fill)[k] {
        assert data[0 + k] == Apply(mode, was[0 + k], fill[k]);
      }
    }
  }

  /** The buffer-copying `=`: every element taken from the source leaf. */
  method CopyBuffer(data: array<real>, from: seq<real>)
    requires data.Length == |from|
    modifies data
    ensures data[..] == from
  {
    var i := 0;
    while i < data.Length
      invariant 0 <= i <= data.Length
      invariant data[..i] == from[..i]
    {
      data[i] := from[i];
      i := i + 1;
    }
  }

  // ----------------------------------------------------------------------
  // Which assignments compile

  /**
   * C(i, j) = A(i, j) + B(j, i) exists; C(j, i) = B(i, j) does not (the
   * free lists differ in order), nor does a += onto a traced leaf.
   */
  lemma AcceptsExamples(x: seq<real>, y: seq<real>, i: Tag, j: Tag, c: Cursors)
    requires i != j
    ensures AddExpr(Leaf(x, [i, j], c), Leaf(y, [j, i], c), false).Some?
    ensures Accepts(Assign, [i, j], AddExpr(Leaf(x, [i, j], c), Leaf(y, [j, i], c), false).value)
    ensures !Accepts(Assign, [j, i], Leaf(y, [i, j], c))
    ensures !Accepts(AddAssign, [i, i], Leaf(y, [i, i], c))
    ensures Accepts(Assign, [i, i], Leaf(y, [i, i], c))
  {
    TwoTags(i, j);
    PairTags(i);
  }
}
