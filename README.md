# Einstein-notation tensors, tensor fields and polynomials in Dafny

This project models the computational core of SimulationUtilities, a small C++ and Python library for simulations. It covers:

- **Index-tag algebra** (`tag_algebra.dfy`). These are the compile-time metafunctions over packs of index tags: power, locate the n-th occurrence, membership, get-repeats, remove-type (both forms), remove-repeats and pack equality. The model writes them as total recursive functions over `seq<char>`. It reproduces their quirks: a tag occurring k times yields k-1 repeats, and pack equality removes every copy of a matched tag.
- **Lazy expression engine** (`expressions.dfy`). An `Expr` datatype has four node kinds:
  - leaves, holding a buffer and one cursor per index position;
  - products, which contract shared tags;
  - sums;
  - scalar nodes.

  `Offset` is IndexBuilder's row-major offset and `SetIndex` is setIndex. `Value` is getValue, and `Evaluate` runs getValue's accumulation loops as methods with invariants.
- **Assignment** (`assignment.dfy`). The `=`, `+=` and `-=` helpers walk the destination's tags in nested loops and write the array in storage order, at `index + i * d^remaining`.
- **Dense tensor** (`tensors.dfy`). The `Tensor` class has a `d^rank` array: constructors, `operator()`, the in-place and by-value arithmetic, and `getDataCopy`.
- **Tensor field** (`tensor_fields.dfy`). The `TensorField` class holds `divisions^dims` point tensors: constructors, copy and copy assignment, in-place and by-value arithmetic, and field expressions. `stepSize` is modelled too.
- **Gradients** (`gradients.dfy`). These are the fourth-order gradients `gradient_ignoreBoundary` and `gradient_periodicBoundary`. The model covers:
  - stencil selection by the grid coordinate `c = i / incr % divisions`;
  - neighbours that stay on the grid line;
  - the periodic wrap-around;
  - the output slot;
  - exactness of every stencil on quartics.
- **Vector field** (`vector_fields.dfy`). The `VectorField` class has per-point in-place arithmetic by a field, a scalar and a scalar field, plus the by-value operators.
- **Polynomials** (`polynomials.dfy`). These are `polynomial.__add__` (zero padding and pairwise add) and `__mul__` (shift and accumulate), both as loops.

`wrappers.dfy` holds an `Option` type and `elementwise.dfy` the elementwise buffer arithmetic.

Modelling choices:

- The element type `T` is `real`, and polynomial coefficients are `int`.
- Tags are characters.
- `size_t` index arithmetic is written over unbounded integers. The periodic offset `(c - 2 + divisions) % divisions - c` wraps around in `size_t`, but its use as `i + incr * offset` is consistent modulo 2^64. The signed value the model uses therefore gives the same address.
- The gradient writes the derivative along axis `dim - 1` at element offset `(dim - 1) * dims^rank` of the output point. In row-major order that makes the derivative direction the *first* index of the rank-r+1 tensor. The comment at `TensorFields.h:478` says it is the last. The model follows the code.

## Model

| member | source | states |
|---|---|---|
| TagAlgebra.PowerAdd | CPP_Utils/TemplateHelpers.h:7-11 | base^(m+n) = base^m · base^n for the recursive power |
| TagAlgebra.PowerPositive | CPP_Utils/TemplateHelpers.h:7-11 | a positive base gives a power of at least 1 |
| TagAlgebra.LocateNthSpec | CPP_Utils/TemplateHelpers.h:16-29 | if the key occurs more than n times, the result is an index holding the key with exactly n earlier occurrences; otherwise it is the pack length |
| TagAlgebra.LocateKeyInRange | CPP_Utils/TemplateHelpers.h:31-35 | for a present key, LocateKey is its first occurrence |
| TagAlgebra.KeyInPack | CPP_Utils/TemplateHelpers.h:39-55 | true exactly when the key is in the pack (so false on the empty pack) |
| TagAlgebra.GetRepeatsSpec | CPP_Utils/TemplateHelpers.h:99-111 | a tag occurring k ≥ 1 times appears k-1 times; the tags present are those occurring at least twice; the result is an order-preserving subsequence |
| TagAlgebra.RemoveTypeSpec | CPP_Utils/TemplateHelpers.h:116-128 | no copy of the key is left; the length drops by the key's count; every other tag keeps its count and order |
| TagAlgebra.RemoveTypesIsFilterOut | CPP_Utils/TemplateHelpers.h:130-141 | removing a pack of keys one after another equals filtering out every key at once |
| TagAlgebra.RemoveTypesSpec | CPP_Utils/TemplateHelpers.h:130-141 | the keys' counts drop to 0, all other counts are kept, and order is preserved |
| TagAlgebra.RemoveRepeatsSpec | CPP_Utils/TemplateHelpers.h:145-149 | exactly the tags occurring once, each once, in original order; duplicate-free |
| TagAlgebra.NoRepeatsKeepsPack | CPP_Utils/TemplateHelpers.h:145-149 | a pack without repeats is returned unchanged and is duplicate-free |
| TagAlgebra.ProductPacks | CPP_Utils/TemplateHelpers.h:99-149 | for duplicate-free lists, the repeats of their concatenation are the shared tags and the remaining tags are those in exactly one list |
| TagAlgebra.EqualPacksMeaning | CPP_Utils/TemplateHelpers.h:151-171 | pack equality holds iff the first pack is duplicate-free and both packs carry the same tags |
| TagAlgebra.EqualPacksPermutation | CPP_Utils/TemplateHelpers.h:151-171 | on duplicate-free packs, pack equality holds iff they are permutations of each other |
| TagAlgebra.EqualPacksCorners | CPP_Utils/TemplateHelpers.h:151-171 | ⟨⟩ = ⟨⟩; ⟨⟩ ≠ non-empty; ⟨a⟩ = ⟨a,a⟩, but ⟨a,a⟩ ≠ ⟨a,a⟩ and ⟨a,a⟩ ≠ ⟨a⟩ |
| Tensors.Tensor.Index | CPP_Utils/TemplateHelpers.h:59-63 | indexing exists iff the number of tags equals the rank; the leaf reads the tensor's buffer and its free list is the tags without repeats |
| Expressions.OffsetIsRowMajor | CPP_Utils/Tensors.h:48-67 | the IndexBuilder offset equals Σₖ loc[k]·d^(rank-1-k) |
| Expressions.OffsetBound | CPP_Utils/Tensors.h:48-67 | the offset is below d^rank when every cursor is below d |
| Expressions.DigitsSpec | CPP_Utils/Tensors.h:48-67 | every offset below d^r is the row-major offset of coordinates below d (the offset is onto) |
| Expressions.SetIndex | CPP_Utils/Tensors.h:127-135 | a leaf changes only the cursor at the tag's first occurrence, and nothing if the tag is absent; shape, size and free list are kept |
| Expressions.FreeNoDup | CPP_Utils/Tensors.h:422-482 | every expression's free list is duplicate-free |
| Expressions.MakeLeaf | CPP_Utils/Tensors.h:27-35 | a leaf exists iff tags match the rank; it has one cursor per position, all at 0 |
| Expressions.AddExpr | CPP_Utils/Tensors.h:422-449 | `+`/`-` exist iff the free lists are EqualPacks-equal; the sum keeps the left list |
| Expressions.AddExprValue | CPP_Utils/Tensors.h:362-391 | a sum's value is v1 + v2 (or v1 - v2), and both free lists hold the same tags |
| Expressions.ProductTags | CPP_Utils/Tensors.h:452-479 | a product's free tags are those in exactly one operand, its contracted tags those in both; both lists are duplicate-free |
| Expressions.OuterProduct | CPP_Utils/Tensors.h:330-341 | with nothing to contract, a product's value is v1·v2 (or v1/v2) |
| Expressions.ScaleExpr | CPP_Utils/Tensors.h:484-512 | scalar nodes keep the child's free list |
| Expressions.Evaluate | CPP_Utils/Tensors.h:69-358 | getValue with its accumulation loops yields `Value`, the accumulators starting at 0 |
| Expressions.TraceInto | CPP_Utils/Tensors.h:69-101 | the trace loops add the nested trace sum to the running total |
| Expressions.ContractInto | CPP_Utils/Tensors.h:293-326 | the contraction loops add the contraction sum to the running total |
| Expressions.LeafEntry | CPP_Utils/Tensors.h:105-118 | a leaf without repeats, its tags set to c, reads `data[offset(c)]` |
| Expressions.SetAllLeaf | CPP_Utils/Tensors.h:127-135 | setting a duplicate-free leaf's tags in order writes exactly those cursors |
| Expressions.TraceIsDiagonal | CPP_Utils/Tensors.h:69-125 | M(i,i) is the sum of the diagonal M[k][k] |
| Expressions.TraceExample | CPP_Utils/Tensors.h:69-125 | M(i,i) over 1..9 with d = 3 is 15 |
| Expressions.TripleTag | CPP_Utils/Tensors.h:69-125 | a tag written three times is traced twice over the first two positions: 2·(M[0][0][c] + M[1][1][c]) |
| Expressions.MatVec | CPP_Utils/Tensors.h:293-350 | M(i,j)·v(j) contracts j, leaves i free, and at i = a is row a dotted with v |
| Expressions.DotProduct | CPP_Utils/Tensors.h:293-350 | x(i)·y(i) contracts i, leaves nothing free, and is the dot product |
| Expressions.TransposedSum | CPP_Utils/Tensors.h:422-437 | A(i,j) + B(j,i) is accepted, keeps the list [i,j], and reads A[a][b] + B[b][a] |
| Expressions.ProductValueAsWritten | CPP_Utils/Tensors.h:345-349 | with a contraction, the product as written is its value plus whatever the uninitialised total held |
| Expressions.AccumulatorCounterexample | CPP_Utils/Tensors.h:345-349 | x(i)·x(i) with x = [1, 0] is 1, while the as-written product gives 1 + start |
| Assignment.FillAt | CPP_Utils/Tensors.h:141-169 | the fill at offset(c) is the source's value with its tags set to c |
| Assignment.FillBlockAt | CPP_Utils/Tensors.h:141-169 | element x of block b of the fill is the source with the first tag set to b |
| Assignment.AssignAt | CPP_Utils/Tensors.h:171-280 | after `=`/`+=`/`-=`, the destination at coordinates c is the old element combined with the source at c |
| Assignment.LeafFillIsCopy | CPP_Utils/Tensors.h:185-192 | the two `=` overloads agree: filling from a leaf over the same duplicate-free tags copies its buffer |
| Assignment.Store | CPP_Utils/Tensors.h:141-264 | the nested loops write exactly the d^rank entries from `index`, each combined with the fill in storage order; nothing else changes |
| Assignment.AssignTo | CPP_Utils/Tensors.h:171-280 | the destination buffer becomes the assignment result; rank 0 touches only `data[0]` |
| Assignment.CopyBuffer | CPP_Utils/Tensors.h:185-192 | the same-type `=` copies every element |
| Assignment.AcceptsExamples | CPP_Utils/Tensors.h:171-192 | C(i,j) = A(i,j) + B(j,i) exists; C(j,i) = B(i,j) and `+=` onto a traced leaf do not; the same-type copy does |
| Tensors.Tensor.constructor | CPP_Utils/Tensors.h:528-535 | every element is zero |
| Tensors.Tensor.FromVector | CPP_Utils/Tensors.h:537-540 | the vector is copied to the front |
| Tensors.Tensor.FromBuffer | CPP_Utils/Tensors.h:541-544 | exactly d^rank elements are copied |
| Tensors.Tensor.MulAssign | CPP_Utils/Tensors.h:574-582 | every element scaled |
| Tensors.Tensor.DivAssign | CPP_Utils/Tensors.h:583-591 | every element divided |
| Tensors.Tensor.AddAssign | CPP_Utils/Tensors.h:593-600 | element k gains other[k] |
| Tensors.Tensor.SubAssign | CPP_Utils/Tensors.h:602-609 | element k loses other[k] |
| Tensors.Tensor.GetDataCopy | CPP_Utils/Tensors.h:621-624 | d^rank elements in storage order |
| Tensors.Tensor.AssignExpr | CPP_Utils/Tensors.h:171-280 | the buffer becomes the assignment result |
| Tensors.Tensor.Add | CPP_Utils/Tensors.h:701-706 | a fresh tensor holding the elementwise sum |
| Tensors.Tensor.Sub | CPP_Utils/Tensors.h:707-712 | a fresh tensor holding the elementwise difference |
| Tensors.Tensor.Scale | CPP_Utils/Tensors.h:713-742 | a fresh, scaled tensor |
| Tensors.Tensor.Quotient | CPP_Utils/Tensors.h:725-748 | a fresh, divided tensor |
| Tensors.VectorRoundTrip | CPP_Utils/Tensors.h:537-624 | construction from a full vector and then getDataCopy give back the vector |
| TensorFields.PointExpr | TensorFields.h:76-158 | point i of a field expression exists iff every sum's free lists are EqualPacks-equal, and has the tree's free list |
| TensorFields.PointExprLocal | TensorFields.h:83-158 | point i depends only on point i of the fields |
| TensorFields.TensorField.constructor | TensorFields.h:341-349 | divisions^dims zero point tensors |
| TensorFields.TensorField.FromVector | TensorFields.h:350-354 | the intended copy: prefix copied into the fresh buffer, later points default (zero) |
| TensorFields.TensorField.Copy | TensorFields.h:362-367 | a fresh buffer holding every point |
| TensorFields.TensorField.CopyAssignAsWritten | TensorFields.h:369-374 | as written: a copy from another field, but self-assignment zeroes the field |
| TensorFields.TensorField.CopyAssign | TensorFields.h:369-374 | corrected: the field holds the other's points, self-assignment included |
| TensorFields.SelfAssignLoses | TensorFields.h:369-374 | `f = f` as written changes f exactly when f had a non-zero point |
| TensorFields.TensorField.AddAssign | TensorFields.h:383-390 | point i gains point i of the other |
| TensorFields.TensorField.SubAssign | TensorFields.h:391-398 | point i loses point i of the other |
| TensorFields.TensorField.MulAssign | TensorFields.h:399-405 | every point scaled |
| TensorFields.TensorField.DivAssign | TensorFields.h:406-412 | every point divided |
| TensorFields.TensorField.Index | TensorFields.h:377-381 | a field leaf over the field's points, its free list the tags without repeats |
| TensorFields.TensorField.AssignExpr | TensorFields.h:36-74 | point i receives the assignment from point i of the expression |
| TensorFields.TensorField.Add | TensorFields.h:441-446 | a fresh field of pointwise sums |
| TensorFields.TensorField.Sub | TensorFields.h:448-453 | a fresh field of pointwise differences |
| TensorFields.TensorField.Scale | TensorFields.h:455-466 | a fresh, scaled field |
| TensorFields.TensorField.Quotient | TensorFields.h:467-471 | a fresh, divided field |
| TensorFields.StepSizes | TensorFields.h:424-428 | the last axis has step 1, each axis strides `divisions` times the next, and step·divisions^(a+1) = divisions^dims |
| Gradients.AlongAxis | TensorFields.h:498-563 | moving k strides with 0 ≤ c + k < divisions stays on the grid, lands on coordinate c + k, and keeps every other coordinate |
| Gradients.NeighbourAt | TensorFields.h:505-560 | every neighbour read is inside the buffer |
| Gradients.SelectCases | TensorFields.h:500-563 | the centred stencil covers c in [2, div-3], the one-sided ones c = 0, 1, div-2, div-1; each reads inside the grid line |
| Gradients.StencilExact | TensorFields.h:509-561 | on any quartic, every numerator is 12 times the slope, so numerator/(12 dx) is exact (constants give 0, f(x) = x gives 12) |
| Gradients.TensorStencilIsPointwise | TensorFields.h:509-561 | whole-tensor stencil arithmetic is the scalar stencil in every element |
| Gradients.WrapInLine | TensorFields.h:608-613 | a wrapped offset stays on the grid line, is k, k + div or k - div, and is k when that stays on the line |
| Gradients.WithSlotOthers | TensorFields.h:491-494 | writing slot a leaves every other slot as it was |
| Gradients.AxisGrid | TensorFields.h:489-496 | axis a has stride divisions^(dims-a-1) and divisions^a grid lines' worth of blocks |
| Gradients.IgnoreBoundaryAt | TensorFields.h:498-565 | the value for point i is the derivative along the axis with the stencil its coordinate selects |
| Gradients.CloseToEnd | TensorFields.h:511-537 | the two end stencils read the samples that the selected stencil names |
| Gradients.CloseToStart | TensorFields.h:538-563 | the two start stencils read the samples that the selected stencil names |
| Gradients.PeriodicAt | TensorFields.h:595-615 | the periodic value for point i is the centred stencil on the wrapped line |
| Gradients.AcrossBoundary | TensorFields.h:606-614 | near the ends the neighbours come from the opposite side at offset ((c+k) mod div) - c |
| Gradients.IgnoreBoundaryPass | TensorFields.h:494-566 | slot a of every output point receives the derivative, other slots kept |
| Gradients.PeriodicPass | TensorFields.h:593-617 | slot a of every output point receives the periodic derivative, other slots kept |
| Gradients.GradientIgnoreBoundary | TensorFields.h:473-568 | a fresh rank-r+1 field, every slot a of every point being the non-periodic derivative along axis a |
| Gradients.GradientPeriodic | TensorFields.h:570-619 | a fresh rank-r+1 field, every slot a of every point being the periodic derivative along axis a |
| VectorFields.VectorField.constructor | VectorFields.h:14-20 | divisions^dims zero points; dims and divisions non-zero |
| VectorFields.VectorField.FromVector | VectorFields.h:21-24 | the input copied in order to the first points |
| VectorFields.VectorField.FromBuffer | VectorFields.h:25-28 | exactly divisions^dims points copied |
| VectorFields.VectorField.AddAssign | VectorFields.h:29-36 | point i gains other[i], nothing else changes |
| VectorFields.VectorField.SubAssign | VectorFields.h:37-44 | point i loses other[i], nothing else changes |
| VectorFields.VectorField.MulAssign | VectorFields.h:45-51 | every point scaled |
| VectorFields.VectorField.MulAssignField | VectorFields.h:52-59 | point i scaled by scalarField[i] |
| VectorFields.VectorField.DivAssign | VectorFields.h:60-66 | every point divided |
| VectorFields.VectorField.DivAssignField | VectorFields.h:67-74 | point i divided by scalarField[i] |
| VectorFields.VectorField.At | VectorFields.h:76-84 | the point's value, of the point type's width |
| VectorFields.VectorField.Add | VectorFields.h:108-113 | a fresh field of pointwise sums; operands unchanged |
| VectorFields.VectorField.Sub | VectorFields.h:114-119 | a fresh field of pointwise differences; operands unchanged |
| VectorFields.VectorField.Scale | VectorFields.h:120-129 | a fresh, scaled field, for both operand orders |
| VectorFields.VectorField.ScaleByField | VectorFields.h:130-141 | a fresh field scaled point by point by a scalar field, for both operand orders |
| VectorFields.VectorField.Quotient | VectorFields.h:142-146 | a fresh, divided field |
| VectorFields.VectorField.QuotientByField | VectorFields.h:147-151 | a fresh field divided point by point |
| VectorFields.AddSubRoundTrip | VectorFields.h:108-119 | (f + g) - g gives back f's points |
| VectorFields.ScaleQuotientRoundTrip | VectorFields.h:120-146 | (f · s) / s gives back f's points for s ≠ 0 |
| Polynomials.Sum | Python_Utils/Algebra.py:6-11 | the reference sum has max(\|a\|, \|b\|) coefficients, coefficient k being a[k] + b[k] with missing coefficients read as 0 |
| Polynomials.SumCommutes | Python_Utils/Algebra.py:6-11 | addition is commutative |
| Polynomials.Add | Python_Utils/Algebra.py:6-11 | the padded zip loop computes the reference sum |
| Polynomials.Mul | Python_Utils/Algebra.py:13-20 | coefficient k of the product is Σ_{i+j=k} a[j]·b[i]; the length is max(1, \|a\|+\|b\|-1), or 1 (the list [0]) for an empty right operand |
| Polynomials.ScaleCopy | Python_Utils/Algebra.py:16-18 | a copy of the coefficients, each scaled |
| Polynomials.ConvBeyond | Python_Utils/Algebra.py:13-20 | no product term reaches past degree \|a\| + n - 2 |
| Polynomials.StepAt | Python_Utils/Algebra.py:15-19 | one accumulation round turns the partial product over b[..i] into the one over b[..i+1] |

## Left out

- Stream printing of tensors, and the Algebra.py script with `print`, are I/O.
- Buffer ownership through `shared_ptr` is left out. Field buffers are arrays of point tensors, and a field expression's leaf holds a snapshot of its points.
- Aliasing between a destination and a source leaf over the same buffer is not captured. Each leaf holds a value copy of its tensor's buffer, so every read sees the pre-assignment values. The source reads the live buffer while it writes it. Take `A(i, j) = B(i, j) + A(j, i)` in two dimensions. Equal_Helper (CPP_Utils/Tensors.h:141-169) writes A[0][1] before it visits (1, 0), where it reads A[0][1] back. The source therefore stores B[1][0] + B[0][1] + old A[1][0] at A[1][0], while the model stores B[1][0] + old A[0][1]. The same gap applies point by point to a field assignment whose source reads the destination field.
- Tensors.Tensor.FromVector: says nothing about the elements beyond the input vector, which the source leaves uninitialised.
- TensorFields.TensorField.FromVector: models the intended copy onto the buffer the handle owns. At TensorFields.h:354 the source passes the array `std::shared_ptr` itself to `std::copy` as the destination. That handle has no dereference or increment operators, so the constructor does not compile once it is instantiated. As written it has no behaviour to model.
- VectorFields.VectorField.FromVector: says nothing about the points beyond the input vector, which the source does not write.
- Division by a zero scalar gives an IEEE infinity or NaN in C++. The model's division returns 0 there, and every other property is independent of that choice.
- IEEE rounding is not modelled: elements are exact reals.
- The field × tensor-expression products and the field-level 'a' node for them are not modelled. The latter is commented out in the source, so the product that returns it does not compile.
- The reinterpret-cast conversions from a vector field to a tensor field are a memory-layout trick, not logic.
- The SFINAE-restricted `operator*=(S)` and `operator/=(S)` overloads of Tensor are modelled together with the `double` ones, since both scale every element.
- Python_Utils/rk4_code.py, util.py, DirectSums.h and CPP_Utils/VectorSpace.h are not part of this model. They are floating-point numerics, plotting, file I/O, tuple forwarding and includes.
- The compile-time template mechanism is modelled as runtime checks: tags are characters, and a missing overload is a `None` result or a precondition.
- Cursor leftovers after a loop are not threaded between loops. Every cursor read in the source is preceded by a write at the same loop level, so the values read are the same.
- `size_t` wrap-around is not modelled. The periodic offsets are exact as signed integers, as explained above. Grid sizes past 2^64 are out of scope.

## Findings

| source | as written | input that shows it | evidently intended | confidence | as-written member | corrected member |
|---|---|---|---|---|---|---|
| CPP_Utils/Tensors.h:347 | the contraction total `T output;` is declared without an initialiser, and the loops add onto it | x(i)·x(i) with x = [1, 0] in two dimensions, the total starting at any non-zero value | the total starts at `T()` (zero), as the leaf's trace does at line 122 | not executed | Expressions.AccumulatorCounterexample | Expressions.Evaluate |
| TensorFields.h:369-374 | copy assignment installs the fresh buffer before copying from `other.tensorData`, so `f = f` copies the new zeroed buffer onto itself | any field with a non-zero point, assigned to itself | self-assignment leaves the field unchanged | not executed | TensorFields.TensorField.CopyAssignAsWritten | TensorFields.TensorField.CopyAssign |
