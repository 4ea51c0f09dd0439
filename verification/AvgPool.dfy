/**
 * Average pooling over ciphertexts (src/seal/kernel/avg_pool_seal.hpp) without
 * padding in the average. The running sum starts as the window's first input
 * object itself, so pooling overwrites inputs; with no padding below and
 * strides of at least 1 no later window reads an overwritten cell.
 */
module AvgPool {
  import opened Outcomes
  import opened Arithmetic
  import opened ComplexNumbers
  import opened SealCiphertext
  import opened ScalarKernels
  import opened ZeroFlags
  import opened WeightedSums
  import opened Coordinates
  import opened Pooling

  // ------------------------------------------------------------ the intended value

  predicate InRange(args: seq<View>, cells: seq<nat>)
  {
    forall i :: 0 <= i < |cells| ==> cells[i] < |args|
  }

  /** The contents of some cells. */
  function CellsOf(args: seq<View>, window: seq<nat>): (cells: seq<View>)
    requires InRange(args, window)
    ensures |cells| == |window| && forall i :: 0 <= i < |window| ==> cells[i] == args[window[i]]
  {
    seq(|window|, i requires 0 <= i < |window| => args[window[i]])
  }

  function Values(cells: seq<View>): (ts: seq<Slots>)
    ensures |ts| == |cells| && forall i :: 0 <= i < |cells| ==> ts[i] == cells[i].Value()
  {
    seq(|cells|, i requires 0 <= i < |cells| => cells[i].Value())
  }

  function Reciprocal(n: nat, packed: bool): HEPlaintext
    requires n > 0
  {
    HEPlaintext([1.0 / n as real], packed)
  }

  /** The mean as multiplication by the plaintext 1/n gives it. */
  function MeanOf(b: Backend, cells: seq<View>, packed: bool): (s: Slots)
    requires cells != [] && forall i :: 0 <= i < |cells| ==> |cells[i].slots| == b.slotCount
    ensures |s| == b.slotCount
  {
    MultiplySlots(Sum(Values(cells), b.slotCount), Factor(b, Reciprocal(|cells|, packed)))
  }

  /** The mean of some cells, each of which at most n matchings have scaled. */
  ghost predicate IsMean(b: Backend, cells: seq<View>, packed: bool, n: nat, s: Slots)
  {
    cells != [] && exists t :: Sums(Values(cells), t, n) && |t| == b.slotCount && s == MultiplySlots(t, Factor(b, Reciprocal(|cells|, packed)))
  }

  /** With no matching it is the mean itself. */
  lemma MeanExactly(b: Backend, cells: seq<View>, packed: bool, s: Slots)
    requires cells != [] && forall i :: 0 <= i < |cells| ==> |cells[i].slots| == b.slotCount
    ensures IsMean(b, cells, packed, 0, s) <==> s == MeanOf(b, cells, packed)
  {
    var ts, n := Values(cells), b.slotCount;
    SumsExactly(ts, Sum(ts, n));
    if IsMean(b, cells, packed, 0, s) {
      var t :| Sums(ts, t, 0) && |t| == n && s == MultiplySlots(t, Factor(b, Reciprocal(|cells|, packed)));
      SumsExactly(ts, t);
    }
  }

  /** The mean is exact for windows of up to 100000 cells, and flushed to 0 for larger ones. */
  lemma MeanIsExactUpTo(b: Backend, n: nat, packed: bool)
    requires n > 0 && b.slotCount > 0
    ensures EncodeSlots(Reciprocal(n, packed), b.slotCount).Ok?
    ensures n <= 100000 <==> Factor(b, Reciprocal(n, packed)) == seq(b.slotCount, _ => Real(1.0 / n as real))
    ensures n > 100000 <==> Factor(b, Reciprocal(n, packed)) == Zeros(b.slotCount)
  {
    var r := 1.0 / n as real;
    SmallIff(r, n as real);
    var one := seq(b.slotCount, _ => Real(r));
    assert one[0] == Real(r) && Zeros(b.slotCount)[0] == ZERO;
    SingleSmall(Reciprocal(n, packed), r);
  }

  lemma SingleSmall(p: HEPlaintext, r: real)
    requires p.values == [r]
    ensures p.AllSmall() <==> IsSmall(r)
  {
    assert p.values[0] == r;
  }

  lemma SmallIff(r: real, n: real)
    requires n > 0.0 && r == 1.0 / n
    ensures r > 0.0 && (IsSmall(r) <==> n > 100000.0)
  {
    assert r * n == 1.0;
    ProductBounds(r, n);
  }

  lemma ProductBounds(r: real, n: real)
    requires n > 0.0
    ensures r <= 0.0 ==> r * n <= 0.0
    ensures 0.0 < r < 0.00001 && n <= 100000.0 ==> r * n < 1.0
    ensures r >= 0.00001 && n > 100000.0 ==> r * n > 1.0
  {
    if 0.0 < r < 0.00001 && n <= 100000.0 {
      assert r * n <= r * 100000.0;
    } else if r >= 0.00001 && n > 100000.0 {
      assert r * n >= 0.00001 * n;
    }
  }

  // ----------------------------------------------------- what later windows can read

  predicate Safe(g: Geometry)
  {
    && (forall i :: 0 <= i < |g.below| ==> g.below[i] == 0)
    && (forall i :: 0 <= i < |g.strides| ==> g.strides[i] >= 1)
  }

  /** The first cell listed for a window is the one at its start. */
  lemma FirstIsStart(g: Geometry, outCoord: seq<nat>) returns (s: seq<nat>)
    requires Safe(g) && |outCoord| == |g.outShape| && Window(g, outCoord) != []
    ensures InBox(g.argShape, s) && Index(g.argShape, s) == Window(g, outCoord)[0]
    ensures forall i :: 0 <= i < |s| ==> s[i] == Start(g, outCoord, i)
  {
    var first := CellCoord(g, outCoord, 0);
    s := seq(|g.argShape|, i requires 0 <= i < |g.argShape| => Start(g, outCoord, i));
    forall i | 0 <= i < |s| ensures s[i] <= first[i] && s[i] < g.argShape[i] && Extent(g, i) > 0 {
      assert Start(g, outCoord, i) <= first[i] + Below(g, i) < Start(g, outCoord, i) + Extent(g, i);
    }
    StartIsListedFirst(g, outCoord, s);
  }

  lemma StartIsLookedUpFirst(g: Geometry, outCoord: seq<nat>, s: seq<nat>)
    requires Safe(g) && |outCoord| == |g.outShape| && InBox(g.argShape, s)
    requires forall i :: 0 <= i < |s| ==> s[i] == Start(g, outCoord, i) && Extent(g, i) > 0
    ensures Size(Box(g)) > 0 && CellAt(g, outCoord, 0) == [Index(g.argShape, s)]
  {
    var t := WindowTransform(g, outCoord);
    WindowBox(g, outCoord);
    var c: seq<nat> := seq(|s|, _ => 0);
    forall i | 0 <= i < |c| ensures c[i] < Box(g)[i] && t[i].HasSource(c[i]) && t[i].Source(c[i]) == s[i] {
      UnitSource(t[i], c[i]);
    }
    assert SourceCoord(t, c) == s;
    ZeroIsFirst(Box(g), c);
  }

  lemma StartIsListedFirst(g: Geometry, outCoord: seq<nat>, s: seq<nat>)
    requires Safe(g) && |outCoord| == |g.outShape| && InBox(g.argShape, s)
    requires forall i :: 0 <= i < |s| ==> s[i] == Start(g, outCoord, i) && Extent(g, i) > 0
    ensures Window(g, outCoord) != [] && Window(g, outCoord)[0] == Index(g.argShape, s)
  {
    StartIsLookedUpFirst(g, outCoord, s);
    var lists := Lookups(g, outCoord);
    ConcatSnoc(lists, 0);
    ConcatGrows(lists, 1);
    assert Concat(lists[..1])[0] == Index(g.argShape, s);
  }

  lemma {:induction false} ZeroIsFirst(shape: seq<nat>, c: seq<nat>)
    requires InBox(shape, c) && forall i :: 0 <= i < |c| ==> c[i] == 0
    ensures Size(shape) > 0 && Index(shape, c) == 0 && CoordAt(shape, 0) == c
  {
    if shape == [] {
    } else {
      ZeroIsFirst(Front(shape), Front(c));
      MulPositive(Size(Front(shape)), Last(shape));
    }
    CoordAtOfIndex(shape, c);
  }

  /** A window that reads the first cell of another window is not after it in row-major order. */
  lemma OverwrittenIsNotReadAgain(g: Geometry, j: nat, k: nat)
    requires Safe(g) && j < Size(g.outShape) && k < Size(g.outShape)
    requires Window(g, CoordAt(g.outShape, j)) != []
    requires Window(g, CoordAt(g.outShape, j))[0] in Window(g, CoordAt(g.outShape, k))
    ensures k <= j
  {
    var oj, ok := CoordAt(g.outShape, j), CoordAt(g.outShape, k);
    var s := FirstIsStart(g, oj);
    WindowHolds(g, ok, s);
    forall i | 0 <= i < |ok| ensures ok[i] <= oj[i] {
      assert Start(g, ok, i) <= s[i] + Below(g, i) < Start(g, ok, i) + Extent(g, i);
      if i >= 2 && ok[i] > oj[i] {
        MulMono(oj[i] + 1, ok[i], g.strides[i - 2]);
        StepUp(g.strides[i - 2], oj[i], ok[i]);
      }
    }
    IndexMonotone(g.outShape, ok, oj);
    IndexOfCoordAt(g.outShape, j);
    IndexOfCoordAt(g.outShape, k);
  }

  lemma StepUp(stride: nat, a: nat, b: nat)
    requires stride >= 1 && a < b
    ensures stride * a < stride * b
  {}

  // --------------------------------------------------------------------- one pooling

  /** The cells of every window. */
  ghost predicate AreCells(args: seq<View>, windows: seq<seq<nat>>, cells: seq<seq<View>>)
  {
    && |cells| == |windows|
    && (forall k :: 0 <= k < |windows| ==> InRange(args, windows[k]))
    && forall k {:trigger CellsOf(args, windows[k])} :: 0 <= k < |windows| ==> cells[k] == CellsOf(args, windows[k])
  }

  /** The original input with its windows and their cells, and what is known of it (Inputs). */
  datatype Job0 = Job(g: Geometry, b: Backend, packing: bool, known: Inputs, args: seq<View>, windows: seq<seq<nat>>,
                      cells: seq<seq<View>>)
  {
    ghost predicate Valid()
    {
      && b.Valid() && |args| == Size(g.argShape) && known.levels == LevelsOf(args)
      && known.clean && (known.sure ==> b.RefusesNothing())
      && (forall i :: 0 <= i < |args| ==> Usable(b, args[i]) && CellFits(b, known, args[i]))
      && AreWindows(g, windows) && AreCells(args, windows, cells)
    }
  }

  type Job = j: Job0 | j.Valid()
    ghost witness Job(Geometry([0, 0], [0, 0], [], [], []),
                      Backend(LevelMatching.Context([1.0], _ => false), 0, 0, 1.0, _ => false, _ => false),
                      false, Inputs(Levels(0, 0), Common(0, 1.0, false), true, false), [], [], [])

  /** Every input on the chain has its windows and cells; the call is bound to pass for a uniform one if SEAL refuses nothing. */
  lemma JobFor(g: Geometry, b: Backend, packing: bool, c: Common, args: seq<View>) returns (j: Job)
    requires b.Valid() && |args| == Size(g.argShape) && forall i :: 0 <= i < |args| ==> Usable(b, args[i])
    ensures j.g == g && j.b == b && j.packing == packing && j.args == args
    ensures j.known.sure <==> UniformCells(b, c, args) && b.RefusesNothing()
  {
    var windows := WindowsOf(g);
    forall k | 0 <= k < |windows| ensures InRange(args, windows[k]) {
      assert windows[k] == Window(g, CoordAt(g.outShape, k));
      forall i | 0 <= i < |windows[k]| ensures windows[k][i] < |args| {
        var s := CellCoord(g, CoordAt(g.outShape, k), i);
      }
    }
    var cells := seq(|windows|, k requires 0 <= k < |windows| => CellsOf(args, windows[k]));
    j := Job(g, b, packing, Inputs(LevelsOf(args), c, true, UniformCells(b, c, args) && b.RefusesNothing()), args, windows, cells);
  }

  lemma JobSizes(j: Job)
    ensures |j.windows| == |j.cells| == Size(j.g.outShape) && |j.args| == Size(j.g.argShape)
  {}

  // ------------------------------------------------------------------- one window

  /** One window at work: its positions and the original contents of its cells. */
  datatype Walk = Walk(b: Backend, known: Inputs, window: seq<nat>, cells: seq<View>)
  {
    ghost predicate Valid(count: nat)
    {
      && b.Valid() && known.clean && (known.sure ==> b.RefusesNothing()) && known.levels.lo <= known.levels.hi
      && |cells| == |window| && NoRepeats(window)
      && (forall i :: 0 <= i < |window| ==> window[i] < count && |cells[i].slots| == b.slotCount)
    }
  }

  /** An object still holds what it held at first, off by no more than the matchings that brought it to its level. */
  ghost predicate StillThere(b: Backend, known: Inputs, was: View, now: View)
  {
    now.isZero == was.isZero && Usable(b, now) && CellFits(b, known, now) && HoldsTerm(known.levels, was.Value(), now)
  }

  /** The running sum after n of a window's cells: the first cell's own object until an addition moves it. */
  ghost predicate Partial(w: Walk, arg: seq<SealCiphertextWrapper>, n: nat, sum: SealCiphertextWrapper?)
    requires w.Valid(|arg|) && n <= |w.window|
    reads sum
  {
    n > 0 ==>
      && sum != null
      && (sum == arg[w.window[0]] || sum !in arg)
      && Usable(w.b, sum.Contents())
      && HoldsSum(w.known.levels, Values(w.cells)[..n], sum.Contents())
      && (w.known.sure ==> Conforms(w.b, w.known.common, sum.Contents()))
  }

  /** During the walk nothing outside the window changes, and every cell is still there, but for the first once it is taken over. */
  ghost predicate Walked(w: Walk, start: seq<View>, now: seq<View>, begun: bool)
    requires w.Valid(|start|) && |now| == |start|
  {
    && (forall i :: 0 <= i < |now| && i !in w.window ==> now[i] == start[i])
    && (forall m :: 0 <= m < |w.window| && (begun ==> m > 0) ==> StillThere(w.b, w.known, w.cells[m], now[w.window[m]]))
  }

  lemma WalkedNext(w: Walk, start: seq<View>, now: seq<View>, now': seq<View>, n: nat)
    requires w.Valid(|start|) && |now| == |start| == |now'| && n < |w.window| && Walked(w, start, now, true)
    requires forall i :: 0 <= i < |now| && i != w.window[n] && i != w.window[0] ==> now'[i] == now[i]
    requires n > 0 ==> StillThere(w.b, w.known, w.cells[n], now'[w.window[n]])
    requires forall m :: 0 <= m < |w.window| && m != n ==> w.window[m] != w.window[n]
    requires forall m :: 0 < m < |w.window| ==> w.window[m] != w.window[0]
    ensures Walked(w, start, now', true)
  {
    hide StillThere;
    forall m | 0 < m < |w.window| && m != n ensures now'[w.window[m]] == now[w.window[m]] {
      assert w.window[m] != w.window[n] && w.window[m] != w.window[0];
    }
  }

  /** Cell n of a window, after the first, joins the sum. */
  method AddCell(arg: seq<SealCiphertextWrapper>, cell: nat, sum: SealCiphertextWrapper, b: Backend,
                 ghost w: Walk, ghost start: seq<View>, ghost n: nat)
    returns (sum': SealCiphertextWrapper, r: Outcome)
    requires b == w.b && w.Valid(|arg|) && NoRepeats(arg) && |start| == |arg|
    requires 0 < n < |w.window| && cell == w.window[n]
    requires Partial(w, arg, n, sum) && Walked(w, start, Views(arg), true)
    modifies arg, sum
    ensures sum' == sum || fresh(sum')
    ensures r == Pass ==> Partial(w, arg, n + 1, sum') && Walked(w, start, Views(arg), true)
    ensures w.known.sure ==> r == Pass
  {
    hide HoldsSum, HoldsTerm, InLevels;
    ghost var before, ts := Views(arg), Values(w.cells);
    Distinct(w, arg, n);
    assert StillThere(b, w.known, w.cells[n], before[w.window[n]]);
    sum', r := AddTerm(sum, arg[cell], b, w.known, ts[..n], ts[n]);
    if r == Pass {
      TakeNext(ts, n);
      StillFits(b, w.known, ts[n], before[cell], Views(arg)[cell]);
      WalkedNext(w, start, before, Views(arg), n);
    }
  }

  /** What has been matched is at one of the inputs' levels still. */
  lemma StillFits(b: Backend, known: Inputs, t: Slots, was: View, now: View)
    requires CellFits(b, known, was) && HoldsTerm(known.levels, t, now) && (known.sure ==> now == was)
    ensures CellFits(b, known, now)
  {}

  /** What happens to the first cell's object is no part of the walk. */
  lemma WalkedStill(w: Walk, start: seq<View>, now: seq<View>, now': seq<View>)
    requires w.Valid(|start|) && |now| == |start| == |now'| && w.window != [] && Walked(w, start, now, true)
    requires forall i :: 0 <= i < |now| && i != w.window[0] ==> now'[i] == now[i]
    requires forall m :: 0 < m < |w.window| ==> w.window[m] != w.window[0]
    ensures Walked(w, start, now', true)
  {
    hide StillThere;
    forall m | 0 < m < |w.window| ensures now'[w.window[m]] == now[w.window[m]] {
      assert w.window[m] != w.window[0];
    }
  }

  /** The first cell's object becomes the running sum; any other cell is added. */
  method PoolStep(arg: seq<SealCiphertextWrapper>, cell: nat, sum: SealCiphertextWrapper?, firstAdd: bool, b: Backend,
                  ghost w: Walk, ghost start: seq<View>, ghost n: nat)
    returns (sum': SealCiphertextWrapper, r: Outcome)
    requires b == w.b && w.Valid(|arg|) && NoRepeats(arg) && |start| == |arg|
    requires n < |w.window| && cell == w.window[n] && (firstAdd <==> n == 0)
    requires Partial(w, arg, n, sum) && Walked(w, start, Views(arg), n > 0)
    modifies arg, sum
    ensures sum' == sum || fresh(sum') || (firstAdd && sum' == arg[cell])
    ensures r == Pass ==> Partial(w, arg, n + 1, sum') && Walked(w, start, Views(arg), true)
    ensures w.known.sure ==> r == Pass
  {
    if firstAdd {
      sum', r := arg[cell], Pass;
      assert StillThere(b, w.known, w.cells[0], Views(arg)[w.window[0]]);
      FirstSum(w.known.levels, Values(w.cells), sum'.Contents());
    } else {
      sum', r := AddCell(arg, cell, sum, b, w, start, n);
    }
  }

  lemma FirstSum(l: Levels, ts: seq<Slots>, v: View)
    requires ts != [] && HoldsTerm(l, ts[0], v)
    ensures HoldsSum(l, ts[..1], v)
  {
    var none: seq<Slots> := [];
    SumsNone(|v.slots|, 0);
    HoldsFirst(l, none, ts[0], v);
    assert ts[..1] == none + [ts[0]];
  }

  /** The objects of different cells are different. */
  lemma Distinct(w: Walk, arg: seq<SealCiphertextWrapper>, n: nat)
    requires w.Valid(|arg|) && NoRepeats(arg) && n < |w.window|
    ensures forall i :: 0 <= i < |arg| && i != w.window[n] ==> arg[i] != arg[w.window[n]]
    ensures forall i :: 0 <= i < |arg| && i != w.window[0] ==> arg[i] != arg[w.window[0]]
    ensures forall m :: 0 <= m < |w.window| && m != n ==> w.window[m] != w.window[n]
    ensures forall m :: 0 < m < |w.window| ==> w.window[m] != w.window[0]
  {
    forall i | 0 <= i < |arg| && i != w.window[n] ensures arg[i] != arg[w.window[n]] {
      NoRepeatsMeans(arg, i, w.window[n]);
    }
    forall i | 0 <= i < |arg| && i != w.window[0] ensures arg[i] != arg[w.window[0]] {
      NoRepeatsMeans(arg, i, w.window[0]);
    }
    forall m | 0 <= m < |w.window| && m != n ensures w.window[m] != w.window[n] {
      NoRepeatsMeans(w.window, m, n);
    }
    forall m | 0 < m < |w.window| ensures w.window[m] != w.window[0] {
      NoRepeatsMeans(w.window, m, 0);
    }
  }

  /** scalar_multiply_seal(*sum, 1 / n, sum) */
  method Average(sum: SealCiphertextWrapper, n: nat, packing: bool, b: Backend, ghost cells: seq<View>, ghost matchings: nat)
    returns (r: Outcome)
    requires n == |cells| > 0 && |sum.slots| == b.slotCount && Sums(Values(cells), sum.Contents().Value(), matchings)
    modifies sum
    ensures r == Pass ==> IsMean(b, cells, packing, matchings, sum.Contents().Value())
    ensures b.RefusesNothing() ==> r == Pass
  {
    ghost var v := sum.Contents();
    r := ScalarMultiplyCP(sum, Reciprocal(n, packing), sum, b);
    if r == Pass {
      MultiplyCPRefines(b, v, Reciprocal(n, packing), v);
    }
  }

  /** How many cells the first k coordinates of a window have. */
  function Count(lookups: seq<seq<nat>>, k: nat): nat
    requires k <= |lookups|
  {
    if k == 0 then 0 else Count(lookups, k - 1) + |lookups[k - 1]|
  }

  /** What the coordinates of an output's window look up, and the list that makes. */
  ghost predicate AreLookups(g: Geometry, outCoord: seq<nat>, lookups: seq<seq<nat>>, window: seq<nat>)
    requires |outCoord| == |g.outShape|
  {
    && |lookups| == Size(Box(g)) && Count(lookups, |lookups|) == |window|
    && (forall k {:trigger CellAt(g, outCoord, k)} :: 0 <= k < |lookups| ==>
          lookups[k] == CellAt(g, outCoord, k) && Listed(lookups, window, k))
  }

  /** Coordinate k's cell, if it has one, comes next in the list. */
  predicate Listed(lookups: seq<seq<nat>>, window: seq<nat>, k: nat)
    requires k < |lookups|
  {
    && Count(lookups, k + 1) <= |window|
    && (lookups[k] != [] ==> Count(lookups, k) < |window| && window[Count(lookups, k)] == lookups[k][0])
  }

  lemma {:induction false} CountIsLength(lookups: seq<seq<nat>>, k: nat)
    requires k <= |lookups|
    ensures Count(lookups, k) == |Concat(lookups[..k])|
  {
    if k == 0 {
      assert lookups[..0] == [];
    } else {
      CountIsLength(lookups, k - 1);
      ConcatSnoc(lookups, k - 1);
    }
  }

  lemma ConcatLists(lookups: seq<seq<nat>>, k: nat)
    requires k < |lookups|
    ensures Listed(lookups, Concat(lookups), k)
  {
    CountIsLength(lookups, k);
    CountIsLength(lookups, k + 1);
    ConcatSnoc(lookups, k);
    ConcatGrows(lookups, k + 1);
    if lookups[k] != [] {
      assert Concat(lookups[..k + 1])[Count(lookups, k)] == lookups[k][0];
    }
  }

  lemma LookupsOf(j: Job, k: nat) returns (lookups: seq<seq<nat>>)
    requires k < |j.windows|
    ensures AreLookups(j.g, CoordAt(j.g.outShape, k), lookups, j.windows[k]) && NoRepeats(j.windows[k])
  {
    var outCoord := CoordAt(j.g.outShape, k);
    assert j.windows[k] == Window(j.g, outCoord);
    WindowIsDistinct(j.g, outCoord);
    lookups := Lookups(j.g, outCoord);
    LookupsAreListed(j.g, outCoord);
  }

  lemma LookupsAreListed(g: Geometry, outCoord: seq<nat>)
    requires |outCoord| == |g.outShape|
    ensures AreLookups(g, outCoord, Lookups(g, outCoord), Window(g, outCoord))
  {
    var lookups := Lookups(g, outCoord);
    forall i | 0 <= i < |lookups| ensures lookups[i] == CellAt(g, outCoord, i) && Listed(lookups, Window(g, outCoord), i) {
      ConcatLists(lookups, i);
    }
    CountIsLength(lookups, |lookups|);
    assert lookups[..|lookups|] == lookups;
  }

  /** has_source_coordinate and index of the window's k-th coordinate. */
  function LookUp(g: Geometry, outCoord: seq<nat>, k: nat): Option<nat>
    requires |outCoord| == |g.outShape| && k < Size(Box(g))
  {
    var t := WindowTransform(g, outCoord);
    WindowBox(g, outCoord);
    var inputBatchCoord := CoordAt(TargetShape(t), k);
    if HasSource(t, inputBatchCoord) then Some(SourceIndex(t, inputBatchCoord)) else None
  }

  lemma LookUpIsNext(g: Geometry, outCoord: seq<nat>, k: nat, lookups: seq<seq<nat>>, window: seq<nat>)
    requires |outCoord| == |g.outShape| && AreLookups(g, outCoord, lookups, window) && k < |lookups|
    ensures var cell := LookUp(g, outCoord, k);
            && Count(lookups, k + 1) == Count(lookups, k) + (if cell.Some? then 1 else 0) <= |window|
            && (cell.Some? ==> window[Count(lookups, k)] == cell.value)
  {
    WindowBox(g, outCoord);
    assert CellAt(g, outCoord, k) == match LookUp(g, outCoord, k) { case Some(i) => [i] case None => [] };
  }

  /** One coordinate of a window's box: its cell, if it has one, joins the sum. */
  method Visit(arg: seq<SealCiphertextWrapper>, g: Geometry, outCoord: seq<nat>, k: nat, sum: SealCiphertextWrapper?,
               firstAdd: bool, b: Backend, ghost w: Walk, ghost start: seq<View>, ghost lookups: seq<seq<nat>>, ghost n: nat)
    returns (sum': SealCiphertextWrapper?, found: bool, r: Outcome)
    requires b == w.b && w.Valid(|arg|) && NoRepeats(arg) && |start| == |arg|
    requires |outCoord| == |g.outShape| && AreLookups(g, outCoord, lookups, w.window) && k < |lookups|
    requires n == Count(lookups, k) <= |w.window| && (firstAdd <==> n == 0)
    requires Partial(w, arg, n, sum) && Walked(w, start, Views(arg), n > 0)
    modifies arg, sum
    ensures sum' == sum || fresh(sum') || sum' in arg
    ensures Count(lookups, k + 1) == n + (if found then 1 else 0) <= |w.window|
    ensures r == Pass ==> Partial(w, arg, Count(lookups, k + 1), sum') && Walked(w, start, Views(arg), Count(lookups, k + 1) > 0)
    ensures w.known.sure ==> r == Pass
  {
    hide HoldsSum, Walked, NoRepeats;
    LookUpIsNext(g, outCoord, k, lookups, w.window);
    var cell := LookUp(g, outCoord, k);
    sum', found, r := sum, cell.Some?, Pass;
    if found {
      sum', r := PoolStep(arg, cell.value, sum, firstAdd, b, w, start, n);
    }
  }

  /** The inner loop: the sum of a window's cells and their number. */
  method SumWindow(arg: seq<SealCiphertextWrapper>, g: Geometry, outCoord: seq<nat>, b: Backend,
                   ghost w: Walk, ghost start: seq<View>, ghost lookups: seq<seq<nat>>)
    returns (sum: SealCiphertextWrapper?, nElements: nat, r: Outcome)
    requires b == w.b && w.Valid(|arg|) && NoRepeats(arg) && Holds(arg, start) && Walked(w, start, start, false)
    requires |outCoord| == |g.outShape| && AreLookups(g, outCoord, lookups, w.window)
    modifies arg
    ensures sum == null || sum in arg || fresh(sum)
    ensures r == Pass ==> nElements == |w.window| && Partial(w, arg, nElements, sum) && Walked(w, start, Views(arg), nElements > 0)
    ensures w.known.sure ==> r == Pass
  {
    hide Walked, HoldsSum;
    assert Views(arg) == start;
    sum, nElements, r := null, 0, Pass;
    var firstAdd := true;
    for k := 0 to Size(Box(g))
      invariant r == Pass && nElements == Count(lookups, k) <= |w.window| && (firstAdd <==> nElements == 0)
      invariant sum == null || sum in arg || fresh(sum)
      invariant Partial(w, arg, nElements, sum) && Walked(w, start, Views(arg), nElements > 0)
    {
      var found;
      sum, found, r := Visit(arg, g, outCoord, k, sum, firstAdd, b, w, start, lookups, nElements);
      if r.Fail? {
        return;
      }
      if found {
        firstAdd := false;
        nElements := nElements + 1;
      }
    }
  }

  /** One output cell: the mean of what the window's cells held at first, or the error for a window without cells. */
  method PoolCell(arg: seq<SealCiphertextWrapper>, g: Geometry, outCoord: seq<nat>, packing: bool, b: Backend,
                  ghost w: Walk, ghost start: seq<View>, ghost lookups: seq<seq<nat>>)
    returns (sum: SealCiphertextWrapper?, r: Outcome)
    requires b == w.b && w.Valid(|arg|) && NoRepeats(arg) && Holds(arg, start) && Walked(w, start, start, false)
    requires |outCoord| == |g.outShape| && AreLookups(g, outCoord, lookups, w.window)
    modifies arg
    ensures w.window == [] ==> r.Fail?
    ensures r == Pass ==> sum != null && (sum == arg[w.window[0]] || fresh(sum))
    ensures r == Pass ==> IsMean(b, w.cells, packing, w.known.levels.hi - w.known.levels.lo, sum.Contents().Value())
    ensures r == Pass ==> Walked(w, start, Views(arg), true)
    ensures w.known.sure && w.window != [] ==> r == Pass
  {
    hide IsMean, Walked, Sums, HoldsSum, AreLookups, NoRepeats;
    var nElements;
    sum, nElements, r := SumWindow(arg, g, outCoord, b, w, start, lookups);
    if r.Fail? {
      return;
    }
    if nElements == 0 {
      return sum, Fail("AvgPool elements == 0, must be non-zero");
    }
    Distinct(w, arg, 0);
    ghost var now := Views(arg);
    assert Values(w.cells)[..nElements] == Values(w.cells);
    HoldsFinally(w.known.levels, Values(w.cells), sum.Contents());
    r := Average(sum, nElements, packing, b, w.cells, w.known.levels.hi - w.known.levels.lo);
    WalkedStill(w, start, now, Views(arg));
  }

  // ------------------------------------------------------------------- all windows

  /** The positions the first k windows' running sums started at. */
  ghost predicate AreTouched(windows: seq<seq<nat>>, k: nat, touched: set<nat>)
    requires k <= |windows|
  {
    forall t :: t in touched ==> exists e :: 0 <= e < k && windows[e] != [] && windows[e][0] == t
  }

  /** No position that an earlier window has taken over is in a later one. */
  lemma WindowIsIntact(j: Job, k: nat, touched: set<nat>)
    requires Safe(j.g) && k < |j.windows| && AreTouched(j.windows, k, touched)
    ensures forall i :: 0 <= i < |j.windows[k]| ==> j.windows[k][i] !in touched
  {
    var g, window := j.g, j.windows[k];
    assert window == Window(g, CoordAt(g.outShape, k));
    forall i | 0 <= i < |window| ensures window[i] !in touched {
      if window[i] in touched {
        var e :| 0 <= e < k && j.windows[e] != [] && j.windows[e][0] == window[i];
        assert j.windows[e] == Window(g, CoordAt(g.outShape, e));
        OverwrittenIsNotReadAgain(g, e, k);
      }
    }
  }

  /** Every cell that no window has taken over is still there. */
  ghost predicate Intact(b: Backend, known: Inputs, args: seq<View>, now: seq<View>, touched: set<nat>)
    requires |now| == |args|
  {
    forall i :: 0 <= i < |now| && i !in touched ==> StillThere(b, known, args[i], now[i])
  }

  /** After a window every cell that is untouched still is there, off by no more than its own chain of matchings. */
  lemma IntactNext(w: Walk, args: seq<View>, was: seq<View>, now: seq<View>, touched: set<nat>)
    requires |was| == |now| == |args| && w.Valid(|was|) && w.window != [] && Intact(w.b, w.known, args, was, touched)
    requires InRange(args, w.window) && w.cells == CellsOf(args, w.window) && Walked(w, was, now, true)
    ensures Intact(w.b, w.known, args, now, touched + {w.window[0]})
  {
    hide StillThere;
    forall i | 0 <= i < |now| && i !in touched && i != w.window[0] ensures StillThere(w.b, w.known, args[i], now[i]) {
      if i in w.window {
        var m :| 0 <= m < |w.window| && w.window[m] == i;
        assert StillThere(w.b, w.known, w.cells[m], now[w.window[m]]);
      }
    }
  }

  /** The walk that a window begins. */
  lemma WalkFrom(j: Job, now: seq<View>, touched: set<nat>, k: nat) returns (w: Walk)
    requires |now| == |j.args| && k < |j.windows| && Intact(j.b, j.known, j.args, now, touched) && NoRepeats(j.windows[k])
    requires forall i :: 0 <= i < |j.windows[k]| ==> j.windows[k][i] !in touched
    ensures w.Valid(|now|) && w.b == j.b && w.known == j.known && w.window == j.windows[k] && w.cells == j.cells[k]
    ensures InRange(j.args, w.window) && w.cells == CellsOf(j.args, w.window) && Walked(w, now, now, false)
  {
    hide StillThere;
    var window := j.windows[k];
    assert InRange(j.args, window) && j.cells[k] == CellsOf(j.args, window);
    w := Walk(j.b, j.known, window, j.cells[k]);
    forall m | 0 <= m < |window| ensures StillThere(j.b, j.known, w.cells[m], now[window[m]]) {
      assert StillThere(j.b, j.known, j.args[window[m]], now[window[m]]);
    }
  }

  /** The first n values are the means of their windows' cells, which at most so many matchings have scaled. */
  ghost predicate AreMeans(b: Backend, packing: bool, cells: seq<seq<View>>, matchings: nat, outs: seq<View>, n: nat)
    requires n <= |outs| && n <= |cells|
  {
    n == 0 ||
    (AreMeans(b, packing, cells, matchings, outs, n - 1) && IsMean(b, cells[n - 1], packing, matchings, outs[n - 1].Value()))
  }

  lemma {:induction false} EachMean(b: Backend, packing: bool, cells: seq<seq<View>>, matchings: nat, outs: seq<View>, n: nat, k: nat)
    requires k < n <= |outs| && n <= |cells| && AreMeans(b, packing, cells, matchings, outs, n)
    ensures IsMean(b, cells[k], packing, matchings, outs[k].Value())
  {
    hide IsMean;
    if k == n - 1 {
    } else {
      EachMean(b, packing, cells, matchings, outs, n - 1, k);
    }
  }

  lemma {:induction false} SameMeans(b: Backend, packing: bool, cells: seq<seq<View>>, matchings: nat, outs: seq<View>, more: seq<View>, n: nat)
    requires n <= |outs| && n <= |more| && n <= |cells| && outs[..n] == more[..n]
    requires AreMeans(b, packing, cells, matchings, outs, n)
    ensures AreMeans(b, packing, cells, matchings, more, n)
  {
    hide IsMean;
    if n == 0 {
    } else {
      assert outs[..n][n - 1] == more[..n][n - 1] && outs[..n][..n - 1] == outs[..n - 1] && more[..n][..n - 1] == more[..n - 1];
      SameMeans(b, packing, cells, matchings, outs, more, n - 1);
    }
  }

  /** The first outputs share objects with the input only where pooling has taken them over. */
  ghost predicate Apart(arg: seq<SealCiphertextWrapper>, outs: seq<SealCiphertextWrapper>, touched: set<nat>)
  {
    && (forall t :: t in touched ==> t < |arg|)
    && forall i :: 0 <= i < |outs| ==> outs[i] !in arg || exists t :: t in touched && outs[i] == arg[t]
  }

  lemma ApartNext(arg: seq<SealCiphertextWrapper>, outs: seq<SealCiphertextWrapper>, touched: set<nat>, first: nat,
                  out: SealCiphertextWrapper)
    requires Apart(arg, outs, touched) && first < |arg| && (out == arg[first] || out !in arg)
    ensures Apart(arg, outs + [out], touched + {first})
  {
    if out in arg {
      assert first in touched + {first} && out == arg[first];
    }
  }

  /** After some windows: the outputs so far are means, and what later windows read is intact. */
  ghost predicate Progress(j: Job, now: seq<View>, outs: seq<View>, touched: set<nat>)
  {
    && |outs| <= |j.windows| && |now| == |j.args|
    && AreTouched(j.windows, |outs|, touched)
    && Intact(j.b, j.known, j.args, now, touched)
    && AreMeans(j.b, j.packing, j.cells, Spread(j.args), outs, |outs|)
  }

  lemma NoProgress(j: Job, arg: seq<SealCiphertextWrapper>)
    ensures Progress(j, j.args, [], {}) && Apart(arg, [], {})
  {
    forall i | 0 <= i < |j.args| ensures StillThere(j.b, j.known, j.args[i], j.args[i]) {
      HoldsItself(j.known.levels, j.args[i]);
    }
  }

  lemma ProgressMeans(j: Job, now: seq<View>, outs: seq<View>, touched: set<nat>)
    requires Progress(j, now, outs, touched) && |outs| == |j.windows|
    ensures AreMeans(j.b, j.packing, j.cells, Spread(j.args), outs, |outs|)
    ensures forall k :: 0 <= k < |j.windows| ==> |j.windows[k]| > 0
  {
    hide AreMeans;
    forall k | 0 <= k < |j.windows| ensures |j.windows[k]| > 0 {
      EachMean(j.b, j.packing, j.cells, Spread(j.args), outs, |outs|, k);
      assert j.cells[k] == CellsOf(j.args, j.windows[k]);
    }
  }

  lemma NextProgress(j: Job, was: seq<View>, now: seq<View>, outs: seq<View>, touched: set<nat>, w: Walk, out: View)
    requires Progress(j, was, outs, touched) && |outs| < |j.windows| && |now| == |was|
    requires w.Valid(|was|) && w.b == j.b && w.known == j.known && w.window == j.windows[|outs|] != [] && w.cells == j.cells[|outs|]
    requires InRange(j.args, w.window) && w.cells == CellsOf(j.args, w.window) && Walked(w, was, now, true)
    requires IsMean(j.b, w.cells, j.packing, Spread(j.args), out.Value())
    ensures Progress(j, now, outs + [out], touched + {w.window[0]})
  {
    hide IsMean, Walked, StillThere;
    IntactNext(w, j.args, was, now, touched);
    AppendMean(j.b, j.packing, j.cells, Spread(j.args), outs, out);
  }

  lemma AppendMean(b: Backend, packing: bool, cells: seq<seq<View>>, matchings: nat, outs: seq<View>, out: View)
    requires |outs| < |cells| && AreMeans(b, packing, cells, matchings, outs, |outs|)
    requires IsMean(b, cells[|outs|], packing, matchings, out.Value())
    ensures AreMeans(b, packing, cells, matchings, outs + [out], |outs| + 1)
  {
    hide IsMean;
    SameMeans(b, packing, cells, matchings, outs, outs + [out], |outs|);
  }

  /** One pass of the outer loop, up to the write to out. */
  method PoolAt(arg: seq<SealCiphertextWrapper>, g: Geometry, k: nat, packing: bool, b: Backend,
                ghost j: Job, ghost touched: set<nat>, ghost outs: seq<SealCiphertextWrapper>)
    returns (cell: Option<SealCiphertextWrapper>, ghost touched': set<nat>)
    requires b == j.b && g == j.g && packing == j.packing && Safe(g) && NoRepeats(arg)
    requires k == |outs| < |j.windows| && Apart(arg, outs, touched) && Progress(j, Views(arg), Views(outs), touched)
    modifies arg
    ensures cell.Some? ==> |j.windows[k]| > 0
    ensures cell.Some? ==> Apart(arg, outs + [cell.value], touched') && Progress(j, Views(arg), Views(outs + [cell.value]), touched')
    ensures j.known.sure && |j.windows[k]| > 0 ==> cell.Some?
  {
    hide IsMean, StillThere, Intact, AreMeans, AreWindows, AreCells, CellFits, Safe, AreTouched, Apart, Walked, AreLookups, NoRepeats;
    JobSizes(j);
    ghost var was, done := Views(arg), Views(outs);
    ghost var lookups := LookupsOf(j, k);
    WindowIsIntact(j, k, touched);
    ghost var w := WalkFrom(j, was, touched, k);
    var sum, r := PoolCell(arg, g, CoordAt(g.outShape, k), packing, b, w, was, lookups);
    touched' := touched + if w.window == [] then {} else {w.window[0]};
    if r.Fail? {
      return None, touched';
    }
    var out: SealCiphertextWrapper := sum;
    OutputsKept(arg, outs, touched, w, was, Views(arg), done, Views(outs));
    NextProgress(j, was, Views(arg), done, touched, w, out.Contents());
    ApartNext(arg, outs, touched, w.window[0], out);
    assert Views(outs + [out]) == done + [out.Contents()];
    cell := Some(out);
  }

  /** Outputs that are objects of the input are outside the window, and so keep what they hold. */
  lemma OutputsKept(arg: seq<SealCiphertextWrapper>, outs: seq<SealCiphertextWrapper>, touched: set<nat>, w: Walk,
                    was: seq<View>, now: seq<View>, done: seq<View>, after: seq<View>)
    requires Apart(arg, outs, touched) && w.Valid(|arg|) && |was| == |now| == |arg| && |done| == |after| == |outs|
    requires (forall i :: 0 <= i < |w.window| ==> w.window[i] !in touched) && Walked(w, was, now, true)
    requires forall i, t :: 0 <= i < |outs| && 0 <= t < |arg| && outs[i] == arg[t] ==> done[i] == was[t] && after[i] == now[t]
    requires forall i :: 0 <= i < |outs| && outs[i] !in arg ==> after[i] == done[i]
    ensures after == done
  {
    forall i | 0 <= i < |outs| ensures after[i] == done[i] {
      if outs[i] in arg {
        var t :| t in touched && outs[i] == arg[t];
        assert t !in w.window;
      }
    }
  }

  /**
   * avg_pool_seal: every output is the mean of its original window. Cells are
   * brought to each other's levels on the way, so each may be off by as many
   * drifts as the input's levels are apart; for inputs at one level the mean is
   * exact. For uniform inputs, if SEAL refuses nothing, pooling passes exactly
   * when every window has a source cell.
   */
  method AvgPoolSeal(arg: seq<SealCiphertextWrapper>, out: array<SealCiphertextWrapper>, g: Geometry, packing: bool, b: Backend,
                     ghost j: Job) returns (r: Outcome)
    requires b == j.b && g == j.g && packing == j.packing && Safe(g)
    requires NoRepeats(arg) && Holds(arg, j.args) && out.Length == |j.windows|
    modifies arg, out
    ensures r == Pass ==> AreMeans(b, packing, j.cells, Spread(j.args), Views(out[..]), out.Length)
    ensures j.known.sure ==> (r == Pass <==> forall k :: 0 <= k < |j.windows| ==> |j.windows[k]| > 0)
  {
    hide IsMean, Progress, Apart, AreMeans, AreWindows, AreCells, CellFits, Safe, NoRepeats, Usable, LevelsOf, AllFlagged;
    JobSizes(j);
    ghost var touched, outs: seq<SealCiphertextWrapper> := {}, [];
    NoProgress(j, arg);
    ghost var now, done := Views(arg), Views(outs);
    assert now == j.args && done == [];
    for k := 0 to Size(g.outShape)
      invariant |outs| == k && outs == out[..k] && Apart(arg, outs, touched)
      invariant now == Views(arg) && done == Views(outs) && Progress(j, now, done, touched)
    {
      var cell;
      cell, touched := PoolAt(arg, g, k, packing, b, j, touched, outs);
      if cell == None {
        return Fail("AvgPool failed");
      }
      outs := outs + [cell.value];
      now, done := Views(arg), Views(outs);
      Put(out, k, cell.value);
    }
    assert out[..] == outs;
    ProgressMeans(j, now, done, touched);
    r := Pass;
  }

  method Put(out: array<SealCiphertextWrapper>, k: nat, cell: SealCiphertextWrapper)
    requires k < out.Length
    modifies out
    ensures out[..k + 1] == old(out[..k]) + [cell]
  {
    out[k] := cell;
  }

  lemma MeanHasCells(b: Backend, cells: seq<View>, packed: bool, n: nat, s: Slots)
    requires IsMean(b, cells, packed, n, s)
    ensures cells != []
  {}

  /** For inputs at one level each output is exactly its window's mean. */
  lemma MeansAreExact(j: Job, outs: seq<View>, k: nat)
    requires Spread(j.args) == 0 && k < |outs| == |j.windows| && AreMeans(j.b, j.packing, j.cells, Spread(j.args), outs, |outs|)
    ensures j.cells[k] != [] && (forall i :: 0 <= i < |j.cells[k]| ==> |j.cells[k][i].slots| == j.b.slotCount)
    ensures outs[k].Value() == MeanOf(j.b, j.cells[k], j.packing)
  {
    hide AreMeans, IsMean, Sum, Factor;
    EachMean(j.b, j.packing, j.cells, Spread(j.args), outs, |outs|, k);
    MeanHasCells(j.b, j.cells[k], j.packing, Spread(j.args), outs[k].Value());
    assert j.cells[k] == CellsOf(j.args, j.windows[k]);
    MeanExactly(j.b, j.cells[k], j.packing, outs[k].Value());
  }
}
