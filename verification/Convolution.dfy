/**
 * Cipher-by-plain convolution (src/seal/kernel/convolution_seal.hpp) with the
 * axis order its callers use: batch and channel first for data and output,
 * output channel and input channel first for filters.
 */
module Convolution {
  import opened Outcomes
  import opened Arithmetic
  import opened SealCiphertext
  import opened ScalarKernels
  import opened WeightedSums
  import opened Coordinates

  datatype Geometry0 = Geometry(
    argShape: seq<nat>,      // batch, channels, spatial
    filterShape: seq<nat>,   // output channels, channels, spatial
    outShape: seq<nat>,      // batch, output channels, spatial
    movement: seq<nat>,
    dilation: seq<nat>,
    below: seq<int>,
    dataDilation: seq<nat>,
    rotate: bool)
  {
    predicate Valid()
    {
      && |argShape| == |filterShape| == |outShape| >= 2
      && |movement| == |dilation| == |below| == |dataDilation| == |argShape| - 2
      && filterShape[1] == argShape[1]
      && outShape[0] <= argShape[0] && outShape[1] <= filterShape[0]
      && (forall i :: 0 <= i < |dilation| ==> dilation[i] > 0 && dataDilation[i] > 0)
      && (forall i :: 2 <= i < |filterShape| ==> filterShape[i] > 0)
    }
  }

  type Geometry = g: Geometry0 | g.Valid() witness Geometry([0, 0], [0, 0], [0, 0], [], [], [], [], false)

  /** A convolution's data: tensors of the sizes the shapes call for, ciphertexts on the chain, every filter value encodable. */
  datatype Problem0 = Problem(g: Geometry, b: Backend, args: seq<View>, weights: seq<HEPlaintext>)
  {
    ghost predicate Valid()
    {
      && b.Valid() && |args| == Size(g.argShape) && |weights| == Size(g.filterShape)
      && (forall i :: 0 <= i < |args| ==> |args[i].slots| == b.slotCount && Usable(b, args[i]))
      && (forall i :: 0 <= i < |weights| ==> EncodeSlots(weights[i], b.slotCount).Ok?)
    }
  }

  type Problem = p: Problem0 | p.Valid()
    ghost witness Problem(Geometry([0, 0], [0, 0], [0, 0], [], [], [], [], false),
                          Backend(LevelMatching.Context([1.0], _ => false), 0, 0, 1.0, _ => false, _ => false), [], [])

  /** The box of (0, channel, window offset) that both iterators walk. */
  function TapShape(g: Geometry): (s: seq<nat>)
    ensures |s| == |g.argShape|
  {
    g.filterShape[0 := 1]
  }

  // ------------------------------------------------------------ the intended value

  /** Distance from the first data cell, on spatial axis i, of the padded, dilated position under window offset c. */
  function Displacement(g: Geometry, outCoord: seq<nat>, c: seq<nat>, i: nat): int
    requires |outCoord| == |c| == |g.outShape| && 2 <= i < |c|
  {
    g.movement[i - 2] * outCoord[i] + c[i] * g.dilation[i - 2] - g.below[i - 2]
  }

  predicate OnGrid(g: Geometry, outCoord: seq<nat>, c: seq<nat>, i: nat)
    requires |outCoord| == |c| == |g.outShape| && 2 <= i < |c|
  {
    IsGridPoint(Displacement(g, outCoord, c, i), g.dataDilation[i - 2], g.argShape[i])
  }

  /** A multiple of the dilation within the dilated extent. */
  predicate IsGridPoint(d: int, dilation: nat, extent: nat)
    requires dilation > 0
  {
    0 <= d && d % dilation == 0 && d / dilation < extent
  }

  function GridCell(d: int, dilation: nat, extent: nat): (cell: nat)
    requires dilation > 0 && IsGridPoint(d, dilation, extent)
    ensures cell < extent
  {
    d / dilation
  }

  /** The window offset lies on a source cell, not in the padding and not in a gap of the dilated data. */
  predicate AllOnGrid(g: Geometry, outCoord: seq<nat>, c: seq<nat>)
    requires |outCoord| == |c| == |g.outShape|
  {
    forall i :: 2 <= i < |c| ==> OnGrid(g, outCoord, c, i)
  }

  /** The data coordinate under a window offset, axis by axis. */
  function DataCell(g: Geometry, outCoord: seq<nat>, c: seq<nat>, i: nat): (d: nat)
    requires InBox(g.outShape, outCoord) && InBox(TapShape(g), c) && i < |c| && (i >= 2 ==> OnGrid(g, outCoord, c, i))
    ensures d < g.argShape[i]
  {
    if i == 0 then outCoord[0] else if i == 1 then c[1]
    else GridCell(Displacement(g, outCoord, c, i), g.dataDilation[i - 2], g.argShape[i])
  }

  function DataCoord(g: Geometry, outCoord: seq<nat>, c: seq<nat>): (d: seq<nat>)
    requires InBox(g.outShape, outCoord) && InBox(TapShape(g), c) && AllOnGrid(g, outCoord, c)
    ensures InBox(g.argShape, d)
  {
    seq(|c|, i requires 0 <= i < |c| => DataCell(g, outCoord, c, i))
  }

  /** The filter cell for a window offset: mirrored if the filter is rotated. */
  function FilterCoord(g: Geometry, outCoord: seq<nat>, c: seq<nat>): (f: seq<nat>)
    requires InBox(g.outShape, outCoord) && InBox(TapShape(g), c)
    ensures InBox(g.filterShape, f)
  {
    seq(|c|, i requires 0 <= i < |c| =>
      if i == 0 then outCoord[1] else if i == 1 then c[1]
      else if g.rotate then g.filterShape[i] - c[i] - 1 else c[i])
  }

  /** data * filter at one channel and window offset, where padding and gaps count as 0. */
  function Tap(p: Problem, outCoord: seq<nat>, c: seq<nat>): (t: Slots)
    requires InBox(p.g.outShape, outCoord) && InBox(TapShape(p.g), c)
    ensures |t| == p.b.slotCount
  {
    if !AllOnGrid(p.g, outCoord, c) then Zeros(p.b.slotCount)
    else
      var d, f := DataCoord(p.g, outCoord, c), FilterCoord(p.g, outCoord, c);
      IndexInRange(p.g.argShape, d);
      IndexInRange(p.g.filterShape, f);
      Term(p.b, p.args[Index(p.g.argShape, d)], p.weights[Index(p.g.filterShape, f)])
  }

  lemma TapFound(p: Problem, outCoord: seq<nat>, c: seq<nat>)
    requires InBox(p.g.outShape, outCoord) && InBox(TapShape(p.g), c)
    ensures !AllOnGrid(p.g, outCoord, c) ==> Tap(p, outCoord, c) == Zeros(p.b.slotCount)
    ensures AllOnGrid(p.g, outCoord, c) ==>
              var i, f := Index(p.g.argShape, DataCoord(p.g, outCoord, c)), Index(p.g.filterShape, FilterCoord(p.g, outCoord, c));
              i < |p.args| && f < |p.weights| && Tap(p, outCoord, c) == Term(p.b, p.args[i], p.weights[f])
  {
    if AllOnGrid(p.g, outCoord, c) {
      IndexInRange(p.g.argShape, DataCoord(p.g, outCoord, c));
      IndexInRange(p.g.filterShape, FilterCoord(p.g, outCoord, c));
    }
  }

  /** The taps of a cell, in row-major order of channel and window offset. */
  function Taps(p: Problem, outCoord: seq<nat>): (ts: seq<Slots>)
    requires InBox(p.g.outShape, outCoord)
    ensures |ts| == Size(TapShape(p.g)) && forall i :: 0 <= i < |ts| ==> |ts[i]| == p.b.slotCount
  {
    seq(Size(TapShape(p.g)), k requires 0 <= k < Size(TapShape(p.g)) => Tap(p, outCoord, CoordAt(TapShape(p.g), k)))
  }

  /** The first taps. */
  function FirstTaps(p: Problem, outCoord: seq<nat>, upto: nat): (ts: seq<Slots>)
    requires InBox(p.g.outShape, outCoord) && upto <= Size(TapShape(p.g))
    ensures |ts| == upto
  {
    Taps(p, outCoord)[..upto]
  }

  /** The convolution at one output coordinate: the sum over every channel and window offset. */
  function Value(p: Problem, outCoord: seq<nat>): (s: Slots)
    requires InBox(p.g.outShape, outCoord)
    ensures |s| == p.b.slotCount
  {
    Sum(Taps(p, outCoord), p.b.slotCount)
  }

  lemma NextTap(p: Problem, outCoord: seq<nat>, k: nat)
    requires InBox(p.g.outShape, outCoord) && k < Size(TapShape(p.g))
    ensures FirstTaps(p, outCoord, k + 1) == FirstTaps(p, outCoord, k) + [Tap(p, outCoord, CoordAt(TapShape(p.g), k))]
  {
    TakeNext(Taps(p, outCoord), k);
  }

  /** A cell of the result: the sum of its taps, each up to its drift; for data at one level exactly the convolution's value. */
  ghost predicate IsConvolution(p: Problem, outCoord: seq<nat>, s: Slots)
    requires InBox(p.g.outShape, outCoord)
  {
    && |s| == p.b.slotCount
    && (NothingSwallowed(p.b, p.args, p.weights) ==>
          Sums(Taps(p, outCoord), s, Spread(p.args)) && (Spread(p.args) == 0 ==> s == Value(p, outCoord)))
  }

  /** The inputs are uniform and SEAL refuses nothing, so the call is bound to pass. */
  ghost predicate Sure(p: Problem, c: Common)
  {
    Uniform(p.b, c, p.args, p.weights) && p.b.RefusesNothing()
  }

  /** On spatial axis i, data cell x, at its dilated position and moved up by the padding, is the one under window offset c. */
  predicate LiesUnder(g: Geometry, outCoord: seq<nat>, c: seq<nat>, i: nat, x: nat)
    requires |outCoord| == |c| == |g.outShape| && 2 <= i < |c|
  {
    x * g.dataDilation[i - 2] + g.below[i - 2] == g.movement[i - 2] * outCoord[i] + c[i] * g.dilation[i - 2]
  }

  lemma CellUnder(g: Geometry, outCoord: seq<nat>, c: seq<nat>, i: nat, x: nat)
    requires InBox(g.outShape, outCoord) && InBox(TapShape(g), c) && 2 <= i < |c| && x < g.argShape[i]
    ensures LiesUnder(g, outCoord, c, i, x) <==> OnGrid(g, outCoord, c, i) && DataCell(g, outCoord, c, i) == x
  {
    var d, l := Displacement(g, outCoord, c, i), g.dataDilation[i - 2];
    if LiesUnder(g, outCoord, c, i, x) {
      DivModUnique(d, l, x, 0);
    }
    if OnGrid(g, outCoord, c, i) && DataCell(g, outCoord, c, i) == x {
      assert d == d / l * l;
    }
  }

  /**
   * The taps in the geometry's own terms. At channel and window offset c: the
   * product of the data cell d and the filter cell f, where d is the output's
   * batch row, the channel, and the spatial cell that lies under the offset, and
   * f is the output's channel, the input's channel, and the offset, mirrored if
   * the filter is rotated.
   */
  lemma TapAt(p: Problem, outCoord: seq<nat>, c: seq<nat>, d: seq<nat>, f: seq<nat>)
    requires InBox(p.g.outShape, outCoord) && InBox(p.g.filterShape[0 := 1], c)
    requires InBox(p.g.argShape, d) && InBox(p.g.filterShape, f)
    requires d[0] == outCoord[0] && d[1] == c[1] && f[0] == outCoord[1] && f[1] == c[1]
    requires forall i :: 2 <= i < |c| ==> LiesUnder(p.g, outCoord, c, i, d[i])
    requires forall i :: 2 <= i < |c| ==> f[i] == if p.g.rotate then p.g.filterShape[i] - 1 - c[i] else c[i]
    ensures var k, a, w := Index(p.g.filterShape[0 := 1], c), Index(p.g.argShape, d), Index(p.g.filterShape, f);
            && k < |Taps(p, outCoord)| && a < |p.args| && w < |p.weights|
            && Taps(p, outCoord)[k] == Term(p.b, p.args[a], p.weights[w])
  {
    hide Term, EncodeSlots, LiesUnder, AllOnGrid, DataCoord, FilterCoord, Tap, Taps, Index, CoordAt, Size;
    DataUnder(p.g, outCoord, c, d);
    FilterUnder(p.g, outCoord, c, f);
    TapListed(p, outCoord, c);
    TapFound(p, outCoord, c);
  }

  lemma DataUnder(g: Geometry, outCoord: seq<nat>, c: seq<nat>, d: seq<nat>)
    requires InBox(g.outShape, outCoord) && InBox(TapShape(g), c) && InBox(g.argShape, d)
    requires d[0] == outCoord[0] && d[1] == c[1] && forall i :: 2 <= i < |c| ==> LiesUnder(g, outCoord, c, i, d[i])
    ensures AllOnGrid(g, outCoord, c) && DataCoord(g, outCoord, c) == d
  {
    hide LiesUnder, OnGrid;
    forall i | 2 <= i < |c| ensures OnGrid(g, outCoord, c, i) && DataCell(g, outCoord, c, i) == d[i] {
      CellUnder(g, outCoord, c, i, d[i]);
    }
  }

  lemma FilterUnder(g: Geometry, outCoord: seq<nat>, c: seq<nat>, f: seq<nat>)
    requires InBox(g.outShape, outCoord) && InBox(TapShape(g), c) && InBox(g.filterShape, f)
    requires f[0] == outCoord[1] && f[1] == c[1]
    requires forall i :: 2 <= i < |c| ==> f[i] == if g.rotate then g.filterShape[i] - 1 - c[i] else c[i]
    ensures FilterCoord(g, outCoord, c) == f
  {}

  lemma TapListed(p: Problem, outCoord: seq<nat>, c: seq<nat>)
    requires InBox(p.g.outShape, outCoord) && InBox(TapShape(p.g), c)
    ensures Index(TapShape(p.g), c) < |Taps(p, outCoord)| && Taps(p, outCoord)[Index(TapShape(p.g), c)] == Tap(p, outCoord, c)
  {
    CoordAtOfIndex(TapShape(p.g), c);
  }

  /** Where no data cell lies under the offset on some axis, in the padding or a gap of dilated data, the tap is 0. */
  lemma NoTapAt(p: Problem, outCoord: seq<nat>, c: seq<nat>, i: nat)
    requires InBox(p.g.outShape, outCoord) && InBox(p.g.filterShape[0 := 1], c) && 2 <= i < |c|
    requires forall x: nat :: x < p.g.argShape[i] ==> !LiesUnder(p.g, outCoord, c, i, x)
    ensures var k := Index(p.g.filterShape[0 := 1], c);
            k < |Taps(p, outCoord)| && Taps(p, outCoord)[k] == Zeros(p.b.slotCount)
  {
    hide Term, EncodeSlots, LiesUnder, Index, CoordAt, Size;
    assert !OnGrid(p.g, outCoord, c, i) by {
      if OnGrid(p.g, outCoord, c, i) {
        CellUnder(p.g, outCoord, c, i, DataCell(p.g, outCoord, c, i));
      }
    }
    TapListed(p, outCoord, c);
    TapFound(p, outCoord, c);
  }

  // ---------------------------------------------------------------- the transforms

  function InputTransform(g: Geometry, outCoord: seq<nat>): (t: Transform)
    requires |outCoord| == |g.outShape|
    ensures |t| == |g.argShape| && ValidTransform(t) && SourceShape(t) == g.argShape
  {
    seq(|g.argShape|, i requires 0 <= i < |g.argShape| =>
      if i == 0 then Axis(g.argShape[0], outCoord[0], 1, 1, 0, 1)
      else if i == 1 then Axis(g.argShape[1], 0, g.argShape[1], 1, 0, 1)
      else Axis(g.argShape[i], g.movement[i - 2] * outCoord[i], (g.filterShape[i] - 1) * g.dilation[i - 2] + 1,
                g.dilation[i - 2], g.below[i - 2], g.dataDilation[i - 2]))
  }

  function FilterTransform(g: Geometry, outCoord: seq<nat>): (t: Transform)
    requires |outCoord| == |g.outShape|
    ensures |t| == |g.filterShape| && ValidTransform(t) && SourceShape(t) == g.filterShape
  {
    seq(|g.filterShape|, i requires 0 <= i < |g.filterShape| =>
      if i == 0 then Axis(g.filterShape[0], outCoord[1], 1, 1, 0, 1)
      else Axis(g.filterShape[i], 0, g.filterShape[i], 1, 0, 1))
  }

  /** The two iterators walk boxes of one shape, so they stay aligned and end together. */
  lemma IteratorsAgree(g: Geometry, outCoord: seq<nat>)
    requires |outCoord| == |g.outShape|
    ensures TargetShape(InputTransform(g, outCoord)) == TapShape(g) == TargetShape(FilterTransform(g, outCoord))
  {
    var t, f := InputTransform(g, outCoord), FilterTransform(g, outCoord);
    forall i | 0 <= i < |g.argShape|
      ensures t[i].TargetLength() == TapShape(g)[i] == f[i].TargetLength()
    {
      if i >= 2 {
        StridedLength(g.filterShape[i], g.dilation[i - 2]);
      }
      StridedLength(if i == 0 then 1 else g.filterShape[i], 1);
      StridedLength(if i == 0 then 1 else g.argShape[1], 1);
    }
  }

  /** ceil(((f - 1) * l + 1) / l) == f */
  lemma StridedLength(f: nat, l: nat)
    requires l > 0
    ensures f > 0 ==> CeilDiv((f - 1) * l + 1, l) == f
    ensures CeilDiv(f, 1) == f
  {
    if f > 0 {
      assert (f - 1) * l + 1 + l - 1 == f * l + 0;
      DivModUnique(f * l, l, f, 0);
    }
  }

  lemma GridIsSource(a: Axis, c: nat)
    requires a.Valid()
    ensures var p := a.Position(c) - a.below;
            a.HasSource(c) <==> IsGridPoint(p, a.dilation, a.source)
  {
    var p := a.Position(c) - a.below;
    if 0 <= p && p % a.dilation == 0 {
      var k := p / a.dilation;
      assert p == k * a.dilation;
      if k < a.source {
        MulMono(k, a.source - 1, a.dilation);
      } else if a.source > 0 {
        MulMono(a.source, k, a.dilation);
        assert a.source * a.dilation == (a.source - 1) * a.dilation + a.dilation;
      }
    }
  }

  lemma UnitAxis(a: Axis, c: nat, position: nat)
    requires a.stride == 1 && a.dilation == 1 && a.below == 0
    requires a.start + c == position < a.source
    ensures a.HasSource(c) && a.Source(c) == position
  {
    assert a.Position(c) == position;
    DivModUnique(position, 1, position, 0);
  }

  /** One axis of the data transform against the intended value's coordinates. */
  lemma DataAxis(g: Geometry, outCoord: seq<nat>, c: seq<nat>, i: nat)
    requires InBox(g.outShape, outCoord) && InBox(TapShape(g), c) && i < |c|
    ensures InputTransform(g, outCoord)[i].HasSource(c[i]) <==> (i < 2 || OnGrid(g, outCoord, c, i))
    ensures InputTransform(g, outCoord)[i].HasSource(c[i]) ==> InputTransform(g, outCoord)[i].Source(c[i]) == DataCell(g, outCoord, c, i)
  {
    var a := InputTransform(g, outCoord)[i];
    if i < 2 {
      UnitAxis(a, c[i], if i == 0 then outCoord[0] else c[1]);
    } else {
      GridIsSource(a, c[i]);
    }
  }

  /** What the data transform looks up. */
  lemma DataLookup(g: Geometry, outCoord: seq<nat>, c: seq<nat>)
    requires InBox(g.outShape, outCoord) && InBox(TapShape(g), c)
    ensures HasSource(InputTransform(g, outCoord), c) <==> AllOnGrid(g, outCoord, c)
    ensures AllOnGrid(g, outCoord, c) ==> SourceCoord(InputTransform(g, outCoord), c) == DataCoord(g, outCoord, c)
  {
    var t := InputTransform(g, outCoord);
    forall i | 0 <= i < |t|
      ensures t[i].HasSource(c[i]) <==> (i < 2 || OnGrid(g, outCoord, c, i))
    {
      DataAxis(g, outCoord, c, i);
    }
    if AllOnGrid(g, outCoord, c) {
      forall i | 0 <= i < |t| ensures SourceCoord(t, c)[i] == DataCoord(g, outCoord, c)[i] {
        DataAxis(g, outCoord, c, i);
      }
    } else {
      var i :| 2 <= i < |c| && !OnGrid(g, outCoord, c, i);
      assert !t[i].HasSource(c[i]);
    }
  }

  /** The filter coordinate with its spatial axes reversed. */
  function Rotated(c: seq<nat>, shape: seq<nat>): (r: seq<nat>)
    requires InBox(shape, c)
    ensures InBox(shape, r)
  {
    seq(|c|, i requires 0 <= i < |c| => if i >= 2 then shape[i] - c[i] - 1 else c[i])
  }

  /** What the filter transform looks up, after a possible rotation. */
  lemma FilterLookup(g: Geometry, outCoord: seq<nat>, c: seq<nat>)
    requires InBox(g.outShape, outCoord) && InBox(TapShape(g), c)
    ensures var t, f := FilterTransform(g, outCoord), if g.rotate then Rotated(c, TapShape(g)) else c;
            HasSource(t, f) && SourceCoord(t, f) == FilterCoord(g, outCoord, c)
  {
    var t, f := FilterTransform(g, outCoord), if g.rotate then Rotated(c, TapShape(g)) else c;
    forall i | 0 <= i < |t|
      ensures t[i].HasSource(f[i]) && t[i].Source(f[i]) == FilterCoord(g, outCoord, c)[i]
    {
      UnitAxis(t[i], f[i], FilterCoord(g, outCoord, c)[i]);
    }
  }

  // ------------------------------------------------------------------------ kernel

  /** The problem a call solves: its weights, backend and geometry, and the contents of its ciphertexts. */
  ghost predicate Solves(p: Problem, arg0: seq<SealCiphertextWrapper>, arg1: seq<HEPlaintext>, g: Geometry, b: Backend)
    reads arg0
  {
    p.g == g && p.b == b && p.weights == arg1 && Holds(arg0, p.args)
  }

  /** The running sum after k passes. */
  ghost predicate Partial(p: Problem, c: Common, outCoord: seq<nat>, k: nat, sum: SealCiphertextWrapper, firstAdd: bool)
    requires InBox(p.g.outShape, outCoord) && k <= Size(TapShape(p.g))
    reads sum
  {
    Running(p.b, InputsOf(p.b, c, p.args, p.weights), FirstTaps(p, outCoord, k), sum.Contents(), firstAdd)
  }

  /** The body of the loop over both iterators. */
  method ConvolveTap(arg0: seq<SealCiphertextWrapper>, arg1: seq<HEPlaintext>, g: Geometry, outCoord: seq<nat>, k: nat,
                     sum: SealCiphertextWrapper, firstAdd: bool, b: Backend, ghost c: Common, ghost p: Problem)
    returns (sum': SealCiphertextWrapper, firstAdd': bool, r: Outcome)
    requires Solves(p, arg0, arg1, g, b) && sum !in arg0
    requires InBox(g.outShape, outCoord) && k < Size(TapShape(g)) && Partial(p, c, outCoord, k, sum, firstAdd)
    modifies sum
    ensures sum' == sum || fresh(sum')
    ensures r == Pass ==> Partial(p, c, outCoord, k + 1, sum', firstAdd')
    ensures Sure(p, c) ==> r == Pass
  {
    hide Running, Sums, Tap, AllOnGrid, EncodeSlots;
    var inputTransform, filterTransform := InputTransform(g, outCoord), FilterTransform(g, outCoord);
    IteratorsAgree(g, outCoord);
    var inputBatchCoord := CoordAt(TargetShape(inputTransform), k);
    var filterCoord := CoordAt(TargetShape(filterTransform), k);
    if g.rotate {
      filterCoord := Rotated(filterCoord, TargetShape(filterTransform));
    }
    DataLookup(g, outCoord, inputBatchCoord);
    FilterLookup(g, outCoord, inputBatchCoord);
    TapFound(p, outCoord, inputBatchCoord);
    sum', firstAdd', r := sum, firstAdd, Pass;
    ghost var inputs, taps := InputsOf(b, c, p.args, p.weights), FirstTaps(p, outCoord, k);
    NextTap(p, outCoord, k);
    if HasSource(inputTransform, inputBatchCoord) {
      var i, f := SourceIndex(inputTransform, inputBatchCoord), SourceIndex(filterTransform, filterCoord);
      IndexInRange(g.argShape, SourceCoord(inputTransform, inputBatchCoord));
      IndexInRange(g.filterShape, SourceCoord(filterTransform, filterCoord));
      EveryPairFits(b, c, p.args, p.weights, i, f);
      sum', r := Accumulate(sum, firstAdd, arg0[i], arg1[f], b, inputs, taps);
      firstAdd' := false;
    } else {
      SkipTerm(b, inputs, taps, sum.Contents(), firstAdd);
    }
  }

  /** The loop over both iterators. */
  method SumTaps(arg0: seq<SealCiphertextWrapper>, arg1: seq<HEPlaintext>, g: Geometry, outCoord: seq<nat>,
                 b: Backend, ghost c: Common, ghost p: Problem)
    returns (sum: SealCiphertextWrapper, firstAdd: bool, r: Outcome)
    requires Solves(p, arg0, arg1, g, b) && InBox(g.outShape, outCoord)
    ensures fresh(sum)
    ensures r == Pass ==> Partial(p, c, outCoord, Size(TapShape(g)), sum, firstAdd)
    ensures Sure(p, c) ==> r == Pass
  {
    IteratorsAgree(g, outCoord);
    sum := new SealCiphertextWrapper(Zeros(b.slotCount));
    firstAdd, r := true, Pass;
    var inputIt, filterIt := 0, 0;
    var inputEnd, filterEnd := Size(TargetShape(InputTransform(g, outCoord))), Size(TargetShape(FilterTransform(g, outCoord)));
    NoTaps(p, c, outCoord, sum);
    while inputIt != inputEnd && filterIt != filterEnd
      invariant 0 <= inputIt == filterIt <= inputEnd == filterEnd == Size(TapShape(g))
      invariant fresh(sum) && Solves(p, arg0, arg1, g, b) && r == Pass
      invariant Partial(p, c, outCoord, inputIt, sum, firstAdd)
      decreases inputEnd - inputIt
    {
      sum, firstAdd, r := ConvolveTap(arg0, arg1, g, outCoord, inputIt, sum, firstAdd, b, c, p);
      if r.Fail? {
        return;
      }
      inputIt := inputIt + 1;
      filterIt := filterIt + 1;
    }
  }

  lemma NoTaps(p: Problem, c: Common, outCoord: seq<nat>, sum: SealCiphertextWrapper)
    requires InBox(p.g.outShape, outCoord)
    ensures Partial(p, c, outCoord, 0, sum, true)
  {
    SumsNone(p.b.slotCount, 0);
    assert FirstTaps(p, outCoord, 0) == [];
  }

  /** One pass of the parallel loop: one output cell. */
  method ConvolveCell(arg0: seq<SealCiphertextWrapper>, arg1: seq<HEPlaintext>, g: Geometry, outCoord: seq<nat>,
                      b: Backend, ghost c: Common, ghost p: Problem)
    returns (cell: SealCiphertextWrapper, r: Outcome)
    requires Solves(p, arg0, arg1, g, b) && InBox(g.outShape, outCoord)
    ensures fresh(cell)
    ensures r == Pass ==> IsConvolution(p, outCoord, cell.Contents().Value())
    ensures Sure(p, c) ==> r == Pass
  {
    var firstAdd;
    cell, firstAdd, r := SumTaps(arg0, arg1, g, outCoord, b, c, p);
    if r.Fail? {
      return;
    }
    RunningIsSum(b, c, p.args, p.weights, FirstTaps(p, outCoord, Size(TapShape(g))), cell.Contents(), firstAdd);
    assert FirstTaps(p, outCoord, Size(TapShape(g))) == Taps(p, outCoord);
    if firstAdd {
      cell, r := EncryptedZero(b);
    }
  }

  /** The cell of a window without a source cell. */
  method EncryptedZero(b: Backend) returns (cell: SealCiphertextWrapper, r: Outcome)
    ensures fresh(cell) && (r == Pass ==> cell.Contents().Value() == Zeros(b.slotCount))
    ensures b.RefusesNothing() ==> r == Pass
  {
    cell := new SealCiphertextWrapper(Zeros(b.slotCount));
    r := Encrypt(cell, HEPlaintext([0.0], false), b);
  }

  /** convolution_seal */
  method ConvolutionSeal(arg0: seq<SealCiphertextWrapper>, arg1: seq<HEPlaintext>, out: array<SealCiphertextWrapper>,
                         g: Geometry, b: Backend, ghost c: Common, ghost p: Problem) returns (r: Outcome)
    requires Solves(p, arg0, arg1, g, b) && out.Length == Size(g.outShape)
    modifies out
    ensures r == Pass ==> forall k :: 0 <= k < out.Length ==> IsConvolution(p, CoordAt(g.outShape, k), out[k].Contents().Value())
    ensures Sure(p, c) ==> r == Pass
  {
    hide IsConvolution, Sure;
    r := Pass;
    for k := 0 to Size(g.outShape)
      invariant r == Pass && Solves(p, arg0, arg1, g, b)
      invariant forall j :: 0 <= j < k ==> IsConvolution(p, CoordAt(g.outShape, j), out[j].Contents().Value())
    {
      var cell;
      cell, r := ConvolveCell(arg0, arg1, g, CoordAt(g.outShape, k), b, c, p);
      if r.Fail? {
        return;
      }
      out[k] := cell;
    }
  }
}
