/** Cipher-by-plain dot product (src/seal/kernel/dot_seal.hpp), at any rank. */
module Dot {
  import opened Outcomes
  import opened Arithmetic
  import opened SealCiphertext
  import opened ScalarKernels
  import opened ZeroFlags
  import opened WeightedSums
  import opened Coordinates

  /** The last axes of arg0 are dotted with the first axes of arg1; the others are kept. */
  datatype Axes = Axes(kept0: seq<nat>, dotted: seq<nat>, kept1: seq<nat>)
  {
    function Arg0Shape(): seq<nat> { kept0 + dotted }

    function Arg1Shape(): seq<nat> { dotted + kept1 }

    function OutShape(): seq<nat> { kept0 + kept1 }
  }

  /** Shapes that nGraph accepts for a dot over this many axes. */
  predicate Dottable(arg0Shape: seq<nat>, arg1Shape: seq<nat>, outShape: seq<nat>, reductionAxesCount: nat)
  {
    && reductionAxesCount <= |arg0Shape| && reductionAxesCount <= |arg1Shape|
    && arg0Shape[|arg0Shape| - reductionAxesCount..] == arg1Shape[..reductionAxesCount]
    && outShape == arg0Shape[..|arg0Shape| - reductionAxesCount] + arg1Shape[reductionAxesCount..]
  }

  datatype Problem0 = Problem(x: Axes, b: Backend, args: seq<View>, weights: seq<HEPlaintext>)
  {
    ghost predicate Valid()
    {
      && b.Valid() && |args| == Size(x.Arg0Shape()) && |weights| == Size(x.Arg1Shape()) && Encodes(b, args, weights)
      && forall i :: 0 <= i < |args| ==> Usable(b, args[i])
    }
  }

  type Problem = p: Problem0 | p.Valid()
    ghost witness Problem(Axes([], [], []), Backend(LevelMatching.Context([1.0], _ => false), 0, 0, 1.0, _ => false, _ => false),
                          [View(false, false, 0, 1.0, [])], [HEPlaintext([0.0], false)])

  // ------------------------------------------------------------ the intended value

  /** Row-major position in arg0 of kept coordinate c0 and the k-th dotted coordinate. */
  function Position0(x: Axes, c0: seq<nat>, k: nat): (i: nat)
    requires InBox(x.kept0, c0) && k < Size(x.dotted)
    ensures i < Size(x.Arg0Shape())
  {
    JoinedInRange(x.kept0, x.dotted, c0, CoordAt(x.dotted, k));
    Index(x.Arg0Shape(), c0 + CoordAt(x.dotted, k))
  }

  function Position1(x: Axes, c1: seq<nat>, k: nat): (i: nat)
    requires InBox(x.kept1, c1) && k < Size(x.dotted)
    ensures i < Size(x.Arg1Shape())
  {
    JoinedInRange(x.dotted, x.kept1, CoordAt(x.dotted, k), c1);
    Index(x.Arg1Shape(), CoordAt(x.dotted, k) + c1)
  }

  lemma JoinedInRange(s: seq<nat>, t: seq<nat>, a: seq<nat>, b: seq<nat>)
    requires InBox(s, a) && InBox(t, b)
    ensures InBox(s + t, a + b) && Index(s + t, a + b) < Size(s + t)
  {
    IndexInRange(s + t, a + b);
  }

  /** The entries of arg0 that meet at an output cell, over the dotted coordinates in row-major order. */
  function Entries(p: Problem, c0: seq<nat>): (xs: seq<View>)
    requires InBox(p.x.kept0, c0)
    ensures |xs| == Size(p.x.dotted) && forall k :: 0 <= k < |xs| ==> |xs[k].slots| == p.b.slotCount
  {
    seq(Size(p.x.dotted), k requires 0 <= k < Size(p.x.dotted) => p.args[Position0(p.x, c0, k)])
  }

  function Weights(p: Problem, c1: seq<nat>): (ws: seq<HEPlaintext>)
    requires InBox(p.x.kept1, c1)
    ensures |ws| == Size(p.x.dotted) && forall k :: 0 <= k < |ws| ==> EncodeSlots(ws[k], p.b.slotCount).Ok?
  {
    seq(Size(p.x.dotted), k requires 0 <= k < Size(p.x.dotted) => p.weights[Position1(p.x, c1, k)])
  }

  /** Entry and weight at a dotted coordinate d: arg0 at c0 followed by d, arg1 at d followed by c1. */
  lemma EntriesMeet(p: Problem, c0: seq<nat>, c1: seq<nat>, d: seq<nat>)
    requires InBox(p.x.kept0, c0) && InBox(p.x.kept1, c1) && InBox(p.x.dotted, d)
    ensures InBox(p.x.kept0 + p.x.dotted, c0 + d) && InBox(p.x.dotted + p.x.kept1, d + c1)
    ensures var k, i, j := Index(p.x.dotted, d), Index(p.x.kept0 + p.x.dotted, c0 + d), Index(p.x.dotted + p.x.kept1, d + c1);
            && k < Size(p.x.dotted) && i < |p.args| && j < |p.weights|
            && Entries(p, c0)[k] == p.args[i] && Weights(p, c1)[k] == p.weights[j]
  {
    CoordAtOfIndex(p.x.dotted, d);
    JoinedInRange(p.x.kept0, p.x.dotted, c0, d);
    JoinedInRange(p.x.dotted, p.x.kept1, d, c1);
  }

  /** The products that are added up at kept coordinates c0 and c1, with small weights flushed. */
  function Products(p: Problem, c0: seq<nat>, c1: seq<nat>): (ts: seq<Slots>)
    requires InBox(p.x.kept0, c0) && InBox(p.x.kept1, c1)
    ensures |ts| == Size(p.x.dotted) && forall i :: 0 <= i < |ts| ==> |ts[i]| == p.b.slotCount
  {
    Terms(p.b, Entries(p, c0), Weights(p, c1))
  }

  /** The dot product at kept coordinates c0 and c1, with small weights flushed. */
  function Value(p: Problem, c0: seq<nat>, c1: seq<nat>): (s: Slots)
    requires InBox(p.x.kept0, c0) && InBox(p.x.kept1, c1)
    ensures |s| == p.b.slotCount
  {
    Sum(Products(p, c0, c1), p.b.slotCount)
  }

  function ExactValue(p: Problem, c0: seq<nat>, c1: seq<nat>): (s: Slots)
    requires InBox(p.x.kept0, c0) && InBox(p.x.kept1, c1)
    ensures |s| == p.b.slotCount
  {
    Sum(ExactTerms(p.b, Entries(p, c0), Weights(p, c1)), p.b.slotCount)
  }

  /**
   * The flush costs at most 1e-5 times the sum of |arg0| entries used, in each
   * part of each slot; packed weights mix the two parts.
   */
  lemma FlushIsTheOnlyLoss(p: Problem, c0: seq<nat>, c1: seq<nat>, slot: nat)
    requires InBox(p.x.kept0, c0) && InBox(p.x.kept1, c1) && slot < p.b.slotCount
    ensures Within(Value(p, c0, c1)[slot], ExactValue(p, c0, c1)[slot], Magnitudes(p.b, Entries(p, c0), Weights(p, c1), slot))
  {
    SumFlushError(p.b, Entries(p, c0), Weights(p, c1), slot);
  }

  /** The inputs are uniform and SEAL refuses nothing, so the call is bound to pass. */
  ghost predicate Sure(p: Problem, c: Common)
  {
    Uniform(p.b, c, p.args, p.weights) && p.b.RefusesNothing()
  }

  // ---------------------------------------------------------------- the flat index

  /** The kept coordinates that a flat loop index is split into. */
  function Coordinate0(x: Axes, idx: nat): (c0: seq<nat>)
    requires idx < Size(x.kept0) * Size(x.kept1)
    ensures InBox(x.kept0, c0)
  {
    Split(x.kept0, x.kept1, idx).0
  }

  function Coordinate1(x: Axes, idx: nat): (c1: seq<nat>)
    requires idx < Size(x.kept0) * Size(x.kept1)
    ensures InBox(x.kept1, c1)
  {
    Split(x.kept0, x.kept1, idx).1
  }

  /** The output index computed from the two parts is the flat index, so every cell is written exactly once. */
  lemma OutIndexIsFlat(x: Axes, idx: nat)
    requires idx < Size(x.kept0) * Size(x.kept1)
    ensures var c := Coordinate0(x, idx) + Coordinate1(x, idx);
            && Size(x.OutShape()) == Size(x.kept0) * Size(x.kept1)
            && InBox(x.OutShape(), c) && Index(x.OutShape(), c) == idx && c == CoordAt(x.OutShape(), idx)
  {
    SizeAppend(x.kept0, x.kept1);
    SplitIsCoordAt(x.kept0, x.kept1, idx);
    IndexOfCoordAt(x.OutShape(), idx);
  }

  // ------------------------------------------------------------------------ kernel

  ghost predicate Solves(p: Problem, arg0: seq<SealCiphertextWrapper>, arg1: seq<HEPlaintext>, x: Axes, b: Backend)
    reads arg0
  {
    p.x == x && p.b == b && p.weights == arg1 && Holds(arg0, p.args)
  }

  /** The running sum after k passes; before the first it is an empty ciphertext. */
  ghost predicate Partial(p: Problem, c: Common, c0: seq<nat>, c1: seq<nat>, k: nat, sum: SealCiphertextWrapper,
                          unspecified: Slots)
    requires InBox(p.x.kept0, c0) && InBox(p.x.kept1, c1) && k <= Size(p.x.dotted)
    reads sum
  {
    && Running(p.b, InputsOf(p.b, c, p.args, p.weights), Products(p, c0, c1)[..k], sum.Contents(), k == 0)
    && (k == 0 ==> sum.Contents() == Empty(unspecified))
  }

  /** The body of the loop over the dotted axes. */
  method DotTap(arg0: seq<SealCiphertextWrapper>, arg1: seq<HEPlaintext>, x: Axes, c0: seq<nat>, c1: seq<nat>, k: nat,
                sum: SealCiphertextWrapper, firstAdd: bool, b: Backend, ghost unspecified: Slots, ghost c: Common, ghost p: Problem)
    returns (sum': SealCiphertextWrapper, r: Outcome)
    requires Solves(p, arg0, arg1, x, b) && sum !in arg0
    requires InBox(x.kept0, c0) && InBox(x.kept1, c1) && k < Size(x.dotted) && (firstAdd <==> k == 0)
    requires Partial(p, c, c0, c1, k, sum, unspecified)
    modifies sum
    ensures sum' == sum || fresh(sum')
    ensures r == Pass ==> Partial(p, c, c0, c1, k + 1, sum', unspecified)
    ensures Sure(p, c) ==> r == Pass
  {
    var i0, i1 := Position0(x, c0, k), Position1(x, c1, k);
    ghost var xs, ws := Entries(p, c0), Weights(p, c1);
    assert xs[k] == p.args[i0] && ws[k] == arg1[i1];
    TakeNext(Products(p, c0, c1), k);
    EveryPairFits(b, c, p.args, p.weights, i0, i1);
    sum', r := Accumulate(sum, firstAdd, arg0[i0], arg1[i1], b, InputsOf(b, c, p.args, p.weights), Products(p, c0, c1)[..k]);
  }

  /** The loop over the dotted coordinates. */
  method SumPairs(arg0: seq<SealCiphertextWrapper>, arg1: seq<HEPlaintext>, x: Axes, c0: seq<nat>, c1: seq<nat>, b: Backend,
                  unspecified: Slots, ghost c: Common, ghost p: Problem)
    returns (sum: SealCiphertextWrapper, r: Outcome)
    requires Solves(p, arg0, arg1, x, b) && InBox(x.kept0, c0) && InBox(x.kept1, c1)
    ensures fresh(sum)
    ensures r == Pass ==> Partial(p, c, c0, c1, Size(x.dotted), sum, unspecified)
    ensures Sure(p, c) ==> r == Pass
  {
    hide Sums, Encodes, EncodeSlots;
    sum := new SealCiphertextWrapper(unspecified);
    r := Pass;
    var firstAdd := true;
    SumsNone(b.slotCount, 0);
    assert Products(p, c0, c1)[..0] == [];
    for k := 0 to Size(x.dotted)
      invariant fresh(sum) && r == Pass && Solves(p, arg0, arg1, x, b)
      invariant firstAdd <==> k == 0
      invariant Partial(p, c, c0, c1, k, sum, unspecified)
    {
      sum, r := DotTap(arg0, arg1, x, c0, c1, k, sum, firstAdd, b, unspecified, c, p);
      if r.Fail? {
        return;
      }
      firstAdd := false;
    }
  }

  /** The products that are added up in the output cell of a flat index. */
  function ProductsAt(p: Problem, idx: nat): (ts: seq<Slots>)
    requires idx < Size(p.x.kept0) * Size(p.x.kept1)
    ensures |ts| == Size(p.x.dotted)
  {
    Products(p, Coordinate0(p.x, idx), Coordinate1(p.x, idx))
  }

  /**
   * A finished output cell: the sum of its products, each up to its drift, and
   * exactly for data at one level. The dot of no pairs is left an empty ciphertext.
   */
  ghost predicate IsCell(p: Problem, products: seq<Slots>, cell: View, unspecified: Slots)
  {
    if products == [] then cell == Empty(unspecified)
    else IsSum(p.b, p.args, p.weights, products, cell.Value())
  }

  /** The products of every output cell, in row-major order. */
  function AllProducts(p: Problem): (products: seq<seq<Slots>>)
    ensures |products| == Size(p.x.kept0) * Size(p.x.kept1)
    ensures forall k :: 0 <= k < |products| ==> products[k] == ProductsAt(p, k)
  {
    var n := Size(p.x.kept0) * Size(p.x.kept1);
    seq(n, k requires 0 <= k < n => ProductsAt(p, k))
  }

  /** The list of an output coordinate holds, for every dotted coordinate, the product of the two entries that meet there. */
  lemma ProductsOfOutput(p: Problem, c0: seq<nat>, c1: seq<nat>, d: seq<nat>)
    requires InBox(p.x.kept0, c0) && InBox(p.x.kept1, c1) && InBox(p.x.dotted, d)
    ensures InBox(p.x.kept0 + p.x.kept1, c0 + c1) && InBox(p.x.kept0 + p.x.dotted, c0 + d) && InBox(p.x.dotted + p.x.kept1, d + c1)
    ensures var o, k := Index(p.x.kept0 + p.x.kept1, c0 + c1), Index(p.x.dotted, d);
            var i, j := Index(p.x.kept0 + p.x.dotted, c0 + d), Index(p.x.dotted + p.x.kept1, d + c1);
            && o < |AllProducts(p)| && |AllProducts(p)[o]| == Size(p.x.dotted) && k < Size(p.x.dotted)
            && i < |p.args| && j < |p.weights| && AllProducts(p)[o][k] == Term(p.b, p.args[i], p.weights[j])
  {
    hide Term, EncodeSlots, Split, Coordinate0, Coordinate1, Index, Size;
    EntriesMeet(p, c0, c1, d);
    PartsOfOutput(p.x, c0, c1);
  }

  /** The flat index of an output coordinate is split into its two parts. */
  lemma PartsOfOutput(x: Axes, c0: seq<nat>, c1: seq<nat>)
    requires InBox(x.kept0, c0) && InBox(x.kept1, c1)
    ensures InBox(x.kept0 + x.kept1, c0 + c1)
    ensures var o := Index(x.kept0 + x.kept1, c0 + c1);
            o < Size(x.kept0) * Size(x.kept1) && Coordinate0(x, o) == c0 && Coordinate1(x, o) == c1
  {
    var high, low := Index(x.kept0, c0), Index(x.kept1, c1);
    IndexAppend(x.kept0, x.kept1, c0, c1);
    IndexInRange(x.kept0, c0);
    IndexInRange(x.kept1, c1);
    StepInRange(high, Size(x.kept0), Size(x.kept1), low);
    DivModUnique(Index(x.kept0 + x.kept1, c0 + c1), Size(x.kept1), high, low);
    CoordAtOfIndex(x.kept0, c0);
    CoordAtOfIndex(x.kept1, c1);
  }

  /** For matrices: cell (i, j) adds up a[i, l] * b[l, j]. */
  lemma MatrixProduct(p: Problem, m: nat, k: nat, n: nat, i: nat, l: nat, j: nat, out: nat, a: nat, b: nat)
    requires p.x == Axes([m], [k], [n]) && i < m && l < k && j < n
    requires out == i * n + j && a == i * k + l && b == l * n + j
    ensures out < |AllProducts(p)| && |AllProducts(p)[out]| == k && a < |p.args| && b < |p.weights|
    ensures AllProducts(p)[out][l] == Term(p.b, p.args[a], p.weights[b])
  {
    hide Term, EncodeSlots;
    ProductsOfOutput(p, [i], [j], [l]);
    MatrixIndex(m, n, i, j);
    MatrixIndex(m, k, i, l);
    MatrixIndex(k, n, l, j);
  }

  /** Finished cells, each for its own list of products. */
  ghost predicate AreCells(p: Problem, products: seq<seq<Slots>>, cells: seq<View>, unspecified: Slots)
  {
    && |products| == |cells|
    && (cells == [] ||
        var k := |cells| - 1;
        AreCells(p, products[..k], cells[..k], unspecified) && IsCell(p, products[k], cells[k], unspecified))
  }

  lemma NextCell(p: Problem, products: seq<seq<Slots>>, cells: seq<View>, cell: View, unspecified: Slots)
    requires |cells| < |products| && AreCells(p, products[..|cells|], cells, unspecified)
    requires IsCell(p, products[|cells|], cell, unspecified)
    ensures AreCells(p, products[..|cells| + 1], cells + [cell], unspecified)
  {
    assert products[..|cells| + 1][..|cells|] == products[..|cells|] && (cells + [cell])[..|cells|] == cells;
  }

  lemma {:induction false} EachCell(p: Problem, products: seq<seq<Slots>>, cells: seq<View>, unspecified: Slots, k: nat)
    requires AreCells(p, products, cells, unspecified) && k < |cells|
    ensures IsCell(p, products[k], cells[k], unspecified)
  {
    var last := |cells| - 1;
    if k == last {
    } else {
      EachCell(p, products[..last], cells[..last], unspecified, k);
    }
  }

  /** One pass of the parallel loop. */
  method DotCell(arg0: seq<SealCiphertextWrapper>, arg1: seq<HEPlaintext>, x: Axes, idx: nat, b: Backend, unspecified: Slots,
                 ghost c: Common, ghost p: Problem, ghost products: seq<seq<Slots>>)
    returns (sum: SealCiphertextWrapper, r: Outcome)
    requires Solves(p, arg0, arg1, x, b) && products == AllProducts(p) && idx < |products|
    ensures fresh(sum)
    ensures r == Pass ==> IsCell(p, products[idx], sum.Contents(), unspecified)
    ensures Sure(p, c) ==> r == Pass
  {
    var c0, c1 := Coordinate0(x, idx), Coordinate1(x, idx);
    sum, r := SumPairs(arg0, arg1, x, c0, c1, b, unspecified, c, p);
    ghost var ts := products[idx];
    assert ts == Products(p, c0, c1) && ts[..Size(x.dotted)] == ts;
    if r == Pass && Size(x.dotted) > 0 {
      RunningIsSum(b, c, p.args, p.weights, ts, sum.Contents(), false);
    }
  }

  /** The index a pass writes to. */
  function OutIndex(x: Axes, idx: nat): (i: nat)
    requires idx < Size(x.kept0) * Size(x.kept1)
    ensures i == idx
  {
    OutIndexIsFlat(x, idx);
    Index(x.OutShape(), Coordinate0(x, idx) + Coordinate1(x, idx))
  }

  /** One pass of the parallel loop, with its write to out. */
  method DotInto(arg0: seq<SealCiphertextWrapper>, arg1: seq<HEPlaintext>, out: array<SealCiphertextWrapper>, x: Axes, idx: nat,
                 b: Backend, unspecified: Slots, ghost c: Common, ghost p: Problem, ghost products: seq<seq<Slots>>, ghost cells: seq<View>)
    returns (r: Outcome, ghost cells': seq<View>)
    requires Solves(p, arg0, arg1, x, b) && products == AllProducts(p) && |cells| == idx < |products| == out.Length
    requires AreCells(p, products[..idx], cells, unspecified) && Holds(out[..idx], cells)
    modifies out
    ensures r == Pass ==>
              |cells'| == idx + 1 && AreCells(p, products[..idx + 1], cells', unspecified) && Holds(out[..idx + 1], cells')
    ensures Sure(p, c) ==> r == Pass
  {
    hide AreCells, IsCell, Uniform, NothingSwallowed, Encodes;
    var sum;
    sum, r := DotCell(arg0, arg1, x, idx, b, unspecified, c, p, products);
    cells' := cells + [sum.Contents()];
    if r == Pass {
      NextCell(p, products, cells, sum.Contents(), unspecified);
      Store(out, OutIndex(x, idx), sum, cells);
    }
  }

  /** The loop over all pairs of kept coordinates. */
  method DotAll(arg0: seq<SealCiphertextWrapper>, arg1: seq<HEPlaintext>, out: array<SealCiphertextWrapper>, x: Axes, b: Backend,
                unspecified: Slots, ghost c: Common, ghost p: Problem) returns (r: Outcome)
    requires Solves(p, arg0, arg1, x, b) && out.Length == Size(x.kept0) * Size(x.kept1)
    modifies out
    ensures r == Pass ==> AreCells(p, AllProducts(p), Views(out[..]), unspecified)
    ensures Sure(p, c) ==> r == Pass
  {
    hide IsCell, Uniform, NothingSwallowed, Encodes;
    r := Pass;
    ghost var cells: seq<View>, products := [], AllProducts(p);
    for idx := 0 to Size(x.kept0) * Size(x.kept1)
      invariant r == Pass && Solves(p, arg0, arg1, x, b)
      invariant |cells| == idx && AreCells(p, products[..idx], cells, unspecified) && Holds(out[..idx], cells)
    {
      r, cells := DotInto(arg0, arg1, out, x, idx, b, unspecified, c, p, products, cells);
      if r.Fail? {
        return;
      }
    }
    assert out[..] == out[..out.Length] && Views(out[..]) == cells && products[..out.Length] == products;
  }

  /** Cutting the shapes at the dotted axes. */
  function Cut(arg0Shape: seq<nat>, arg1Shape: seq<nat>, reductionAxesCount: nat): (x: Axes)
    requires reductionAxesCount <= |arg0Shape| && reductionAxesCount <= |arg1Shape|
  {
    Axes(arg0Shape[..|arg0Shape| - reductionAxesCount], arg1Shape[..reductionAxesCount], arg1Shape[reductionAxesCount..])
  }

  lemma CutJoins(arg0Shape: seq<nat>, arg1Shape: seq<nat>, outShape: seq<nat>, reductionAxesCount: nat)
    requires Dottable(arg0Shape, arg1Shape, outShape, reductionAxesCount)
    ensures var x := Cut(arg0Shape, arg1Shape, reductionAxesCount);
            && x.Arg0Shape() == arg0Shape && x.Arg1Shape() == arg1Shape && x.OutShape() == outShape
            && Size(outShape) == Size(x.kept0) * Size(x.kept1)
  {
    var x := Cut(arg0Shape, arg1Shape, reductionAxesCount);
    SizeAppend(x.kept0, x.kept1);
  }

  /** dot_seal: out has one cell for every output coordinate, in row-major order. */
  method DotSeal(arg0: seq<SealCiphertextWrapper>, arg1: seq<HEPlaintext>, out: array<SealCiphertextWrapper>, arg0Shape: seq<nat>,
                 arg1Shape: seq<nat>, outShape: seq<nat>, reductionAxesCount: nat, b: Backend, unspecified: Slots,
                 ghost c: Common, ghost p: Problem) returns (r: Outcome)
    requires Dottable(arg0Shape, arg1Shape, outShape, reductionAxesCount)
    requires Solves(p, arg0, arg1, Cut(arg0Shape, arg1Shape, reductionAxesCount), b) && out.Length == Size(outShape)
    modifies out
    ensures out.Length == Size(p.x.kept0) * Size(p.x.kept1)
    ensures r == Pass ==> AreCells(p, AllProducts(p), Views(out[..]), unspecified)
    ensures Sure(p, c) ==> r == Pass
  {
    CutJoins(arg0Shape, arg1Shape, outShape, reductionAxesCount);
    r := DotAll(arg0, arg1, out, Cut(arg0Shape, arg1Shape, reductionAxesCount), b, unspecified, c, p);
  }
}
