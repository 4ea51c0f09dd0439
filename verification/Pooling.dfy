/**
 * The windows that average and max pooling walk
 * (src/seal/kernel/avg_pool_seal.hpp, src/seal/kernel/max_pool_seal.hpp).
 */
module Pooling {
  import opened Arithmetic
  import opened Coordinates

  /** Shapes are (N, channel, spatial); window, strides and padding are spatial. */
  datatype Geometry0 = Geometry(argShape: seq<nat>, outShape: seq<nat>, window: seq<nat>, strides: seq<nat>, below: seq<nat>)
  {
    predicate Valid()
    {
      && |argShape| == |outShape| >= 2
      && |window| == |strides| == |below| == |argShape| - 2
      && outShape[0] <= argShape[0] && outShape[1] <= argShape[1]
    }
  }

  type Geometry = g: Geometry0 | g.Valid() witness Geometry([0, 0], [0, 0], [], [], [])

  // ------------------------------------------------------------ the intended window

  /** First padded position of a window, and its length, on one axis. */
  function Start(g: Geometry, outCoord: seq<nat>, i: nat): nat
    requires |outCoord| == |g.outShape| && i < |outCoord|
  {
    if i < 2 then outCoord[i] else g.strides[i - 2] * outCoord[i]
  }

  function Extent(g: Geometry, i: nat): nat
    requires i < |g.outShape|
  {
    if i < 2 then 1 else g.window[i - 2]
  }

  function Below(g: Geometry, i: nat): nat
    requires i < |g.outShape|
  {
    if i < 2 then 0 else g.below[i - 2]
  }

  /** The data coordinate s, moved up by the padding below, lies in the window of an output coordinate. */
  predicate InWindow(g: Geometry, outCoord: seq<nat>, s: seq<nat>)
    requires |outCoord| == |s| == |g.outShape|
  {
    forall i :: 0 <= i < |s| ==> Start(g, outCoord, i) <= s[i] + Below(g, i) < Start(g, outCoord, i) + Extent(g, i)
  }

  // ------------------------------------------------------------------ the transform

  function WindowTransform(g: Geometry, outCoord: seq<nat>): (t: Transform)
    requires |outCoord| == |g.outShape|
    ensures |t| == |g.argShape| && ValidTransform(t) && SourceShape(t) == g.argShape
    ensures forall i :: 0 <= i < |t| ==> t[i] == Axis(g.argShape[i], Start(g, outCoord, i), Extent(g, i), 1, Below(g, i), 1)
  {
    seq(|g.argShape|, i requires 0 <= i < |g.argShape| =>
      Axis(g.argShape[i], Start(g, outCoord, i), Extent(g, i), 1, Below(g, i), 1))
  }

  /** The box the inner loop walks. */
  function Box(g: Geometry): (s: seq<nat>)
    ensures |s| == |g.argShape|
  {
    seq(|g.argShape|, i requires 0 <= i < |g.argShape| => Extent(g, i))
  }

  lemma WindowBox(g: Geometry, outCoord: seq<nat>)
    requires |outCoord| == |g.outShape|
    ensures TargetShape(WindowTransform(g, outCoord)) == Box(g)
  {
    var t := WindowTransform(g, outCoord);
    forall i | 0 <= i < |t| ensures t[i].TargetLength() == Box(g)[i] {
      UnitStride(t[i].extent);
    }
  }

  lemma UnitStride(n: nat)
    ensures CeilDiv(n, 1) == n
  {
    DivModUnique(n, 1, n, 0);
  }

  lemma UnitSource(a: Axis, c: nat)
    requires a.stride == 1 && a.dilation == 1
    ensures a.HasSource(c) <==> 0 <= a.start + c - a.below < a.source
    ensures a.HasSource(c) ==> a.Source(c) == a.start + c - a.below
  {
    var p := a.Position(c) - a.below;
    DivModUnique(p, 1, p, 0);
  }

  /** The row-major position that the k-th coordinate of the window looks up, if it has a source cell. */
  function CellAt(g: Geometry, outCoord: seq<nat>, k: nat): (cells: seq<nat>)
    requires |outCoord| == |g.outShape| && k < Size(Box(g))
    ensures forall i :: 0 <= i < |cells| ==> cells[i] < Size(g.argShape)
  {
    WindowBox(g, outCoord);
    var t, c := WindowTransform(g, outCoord), CoordAt(Box(g), k);
    if HasSource(t, c) then IndexInRange(g.argShape, SourceCoord(t, c)); [SourceIndex(t, c)] else []
  }

  function Lookups(g: Geometry, outCoord: seq<nat>): (lists: seq<seq<nat>>)
    requires |outCoord| == |g.outShape|
    ensures |lists| == Size(Box(g))
  {
    seq(Size(Box(g)), k requires 0 <= k < Size(Box(g)) => CellAt(g, outCoord, k))
  }

  /** The positions of a window's source cells, in row-major order. */
  function Window(g: Geometry, outCoord: seq<nat>): (cells: seq<nat>)
    requires |outCoord| == |g.outShape|
  {
    Concat(Lookups(g, outCoord))
  }

  function Concat(lists: seq<seq<nat>>): seq<nat>
  {
    if lists == [] then [] else Concat(lists[..|lists| - 1]) + lists[|lists| - 1]
  }

  lemma ConcatSnoc(lists: seq<seq<nat>>, k: nat)
    requires k < |lists|
    ensures Concat(lists[..k + 1]) == Concat(lists[..k]) + lists[k]
  {
    assert lists[..k + 1][..k] == lists[..k];
  }

  lemma {:induction false} ConcatGrows(lists: seq<seq<nat>>, k: nat)
    requires k <= |lists|
    ensures Concat(lists[..k]) <= Concat(lists)
  {
    if k == |lists| {
      assert lists[..k] == lists;
    } else {
      var front := lists[..|lists| - 1];
      ConcatGrows(front, k);
      assert front[..k] == lists[..k];
    }
  }

  /** The list that contributed the j-th element, and what came before it. */
  lemma {:induction false} ConcatFrom(lists: seq<seq<nat>>, j: nat) returns (at: nat)
    requires j < |Concat(lists)| && forall k :: 0 <= k < |lists| ==> |lists[k]| <= 1
    ensures at < |lists| && lists[at] == [Concat(lists)[j]] && j == |Concat(lists[..at])|
  {
    var front := lists[..|lists| - 1];
    if j < |Concat(front)| {
      at := ConcatFrom(front, j);
      assert front[..at] == lists[..at];
    } else {
      at := |lists| - 1;
    }
  }

  // ------------------------------------------------------- the walk meets the window

  /** What one coordinate of the box looks up. */
  lemma LookupIsInWindow(g: Geometry, outCoord: seq<nat>, c: seq<nat>)
    requires |outCoord| == |g.outShape| && InBox(Box(g), c)
    requires HasSource(WindowTransform(g, outCoord), c)
    ensures var s := SourceCoord(WindowTransform(g, outCoord), c);
            && InBox(g.argShape, s) && InWindow(g, outCoord, s)
            && forall i :: 0 <= i < |s| ==> s[i] + Below(g, i) == Start(g, outCoord, i) + c[i]
  {
    var t := WindowTransform(g, outCoord);
    var s := SourceCoord(t, c);
    forall i | 0 <= i < |s| ensures s[i] + Below(g, i) == Start(g, outCoord, i) + c[i] && c[i] < Extent(g, i) {
      UnitSource(t[i], c[i]);
    }
  }

  /** Every data coordinate of the window is looked up. */
  lemma WindowIsLookedUp(g: Geometry, outCoord: seq<nat>, s: seq<nat>) returns (k: nat)
    requires |outCoord| == |g.outShape| && InBox(g.argShape, s) && InWindow(g, outCoord, s)
    ensures k < Size(Box(g)) && CellAt(g, outCoord, k) == [Index(g.argShape, s)]
  {
    var t := WindowTransform(g, outCoord);
    var c: seq<nat> := seq(|s|, i requires 0 <= i < |s| =>
      assert Start(g, outCoord, i) <= s[i] + Below(g, i); s[i] + Below(g, i) - Start(g, outCoord, i));
    forall i | 0 <= i < |c| ensures c[i] < Box(g)[i] && t[i].HasSource(c[i]) && t[i].Source(c[i]) == s[i] {
      assert Start(g, outCoord, i) <= s[i] + Below(g, i) < Start(g, outCoord, i) + Extent(g, i);
      UnitSource(t[i], c[i]);
    }
    assert SourceCoord(t, c) == s;
    CoordAtOfIndex(Box(g), c);
    k := Index(Box(g), c);
  }

  /** The data coordinate behind an entry of the list. */
  lemma CellCoord(g: Geometry, outCoord: seq<nat>, j: nat) returns (s: seq<nat>)
    requires |outCoord| == |g.outShape| && j < |Window(g, outCoord)|
    ensures InBox(g.argShape, s) && InWindow(g, outCoord, s) && Index(g.argShape, s) == Window(g, outCoord)[j] < Size(g.argShape)
  {
    var at := ConcatFrom(Lookups(g, outCoord), j);
    WindowBox(g, outCoord);
    LookupIsInWindow(g, outCoord, CoordAt(Box(g), at));
    s := SourceCoord(WindowTransform(g, outCoord), CoordAt(Box(g), at));
    IndexInRange(g.argShape, s);
    assert CellAt(g, outCoord, at) == [Index(g.argShape, s)];
  }

  lemma LookedUpIsListed(g: Geometry, outCoord: seq<nat>, k: nat, cell: nat)
    requires |outCoord| == |g.outShape| && k < Size(Box(g)) && CellAt(g, outCoord, k) == [cell]
    ensures cell in Window(g, outCoord)
  {
    var lists := Lookups(g, outCoord);
    ConcatGrows(lists, k + 1);
    ConcatSnoc(lists, k);
    assert Concat(lists[..k + 1])[|Concat(lists[..k])|] == cell;
  }

  /** The list of a window holds exactly the positions of the data coordinates inside it. */
  lemma WindowHolds(g: Geometry, outCoord: seq<nat>, s: seq<nat>)
    requires |outCoord| == |g.outShape| && InBox(g.argShape, s)
    ensures Index(g.argShape, s) in Window(g, outCoord) <==> InWindow(g, outCoord, s)
  {
    if InWindow(g, outCoord, s) {
      var k := WindowIsLookedUp(g, outCoord, s);
      LookedUpIsListed(g, outCoord, k, Index(g.argShape, s));
    }
    if Index(g.argShape, s) in Window(g, outCoord) {
      var j :| 0 <= j < |Window(g, outCoord)| && Window(g, outCoord)[j] == Index(g.argShape, s);
      var s' := CellCoord(g, outCoord, j);
      CoordAtOfIndex(g.argShape, s);
      CoordAtOfIndex(g.argShape, s');
    }
  }

  /**
   * The same in the geometry's own terms: batch and channel are the output's, and
   * on every spatial axis the padded position lies in the window that starts at
   * stride times the output coordinate.
   */
  lemma WindowIsBox(g: Geometry, outCoord: seq<nat>, s: seq<nat>)
    requires |outCoord| == |g.outShape| && InBox(g.argShape, s)
    ensures Index(g.argShape, s) in Window(g, outCoord) <==>
            && s[0] == outCoord[0] && s[1] == outCoord[1]
            && forall i :: 2 <= i < |s| ==>
                 g.strides[i - 2] * outCoord[i] <= s[i] + g.below[i - 2] < g.strides[i - 2] * outCoord[i] + g.window[i - 2]
  {
    WindowHolds(g, outCoord, s);
    forall i | 0 <= i < |s|
      ensures Start(g, outCoord, i) <= s[i] + Below(g, i) < Start(g, outCoord, i) + Extent(g, i) <==>
              if i < 2 then s[i] == outCoord[i]
              else g.strides[i - 2] * outCoord[i] <= s[i] + g.below[i - 2] < g.strides[i - 2] * outCoord[i] + g.window[i - 2]
    {}
  }

  /** So the list for an output coordinate holds the cells of its box, and nothing outside the tensor. */
  lemma WindowOfOutput(g: Geometry, windows: seq<seq<nat>>, outCoord: seq<nat>, cell: nat)
    requires AreWindows(g, windows) && InBox(g.outShape, outCoord)
    ensures Index(g.outShape, outCoord) < |windows|
    ensures cell in windows[Index(g.outShape, outCoord)] <==>
            && cell < Size(g.argShape)
            && var s := CoordAt(g.argShape, cell);
            && s[0] == outCoord[0] && s[1] == outCoord[1]
            && forall i :: 2 <= i < |s| ==>
                 g.strides[i - 2] * outCoord[i] <= s[i] + g.below[i - 2] < g.strides[i - 2] * outCoord[i] + g.window[i - 2]
  {
    CoordAtOfIndex(g.outShape, outCoord);
    assert windows[Index(g.outShape, outCoord)] == Window(g, CoordAt(g.outShape, Index(g.outShape, outCoord)));
    if cell < Size(g.argShape) {
      IndexOfCoordAt(g.argShape, cell);
      WindowIsBox(g, outCoord, CoordAt(g.argShape, cell));
    } else if cell in Window(g, outCoord) {
      var j :| 0 <= j < |Window(g, outCoord)| && Window(g, outCoord)[j] == cell;
      var s := CellCoord(g, outCoord, j);
    }
  }

  /** Two coordinates of the box that look up the same cell are the same. */
  lemma LookupIsInjective(g: Geometry, outCoord: seq<nat>, ca: seq<nat>, cb: seq<nat>)
    requires |outCoord| == |g.outShape| && InBox(Box(g), ca) && InBox(Box(g), cb)
    requires var t := WindowTransform(g, outCoord);
             HasSource(t, ca) && HasSource(t, cb) && SourceIndex(t, ca) == SourceIndex(t, cb)
    ensures ca == cb
  {
    var t := WindowTransform(g, outCoord);
    LookupIsInWindow(g, outCoord, ca);
    LookupIsInWindow(g, outCoord, cb);
    CoordAtOfIndex(g.argShape, SourceCoord(t, ca));
    CoordAtOfIndex(g.argShape, SourceCoord(t, cb));
    forall x | 0 <= x < |ca| ensures ca[x] == cb[x] {
      assert SourceCoord(t, ca)[x] + Below(g, x) == Start(g, outCoord, x) + ca[x];
    }
  }

  predicate NoRepeats<T(==)>(xs: seq<T>)
  {
    xs == [] || (xs[|xs| - 1] !in xs[..|xs| - 1] && NoRepeats(xs[..|xs| - 1]))
  }

  lemma {:induction false} NoRepeatsMeans<T>(xs: seq<T>, i: nat, j: nat)
    requires NoRepeats(xs) && i < |xs| && j < |xs| && i != j
    ensures xs[i] != xs[j]
  {
    var last := |xs| - 1;
    if i < last && j < last {
      NoRepeatsMeans(xs[..last], i, j);
    } else {
      assert xs[if i < last then i else j] in xs[..last];
    }
  }

  lemma {:induction false} NoRepeatsFrom<T>(xs: seq<T>)
    requires forall i, j :: 0 <= i < j < |xs| ==> xs[i] != xs[j]
    ensures NoRepeats(xs)
  {
    if xs == [] {
    } else {
      NoRepeatsFrom(xs[..|xs| - 1]);
    }
  }

  lemma SameCell(g: Geometry, outCoord: seq<nat>, a: nat, b: nat, cell: nat)
    requires |outCoord| == |g.outShape| && a < Size(Box(g)) && b < Size(Box(g))
    requires CellAt(g, outCoord, a) == [cell] == CellAt(g, outCoord, b)
    ensures a == b
  {
    WindowBox(g, outCoord);
    LookupIsInjective(g, outCoord, CoordAt(Box(g), a), CoordAt(Box(g), b));
    IndexOfCoordAt(Box(g), a);
    IndexOfCoordAt(Box(g), b);
  }

  /** No cell is listed twice. */
  lemma WindowIsDistinct(g: Geometry, outCoord: seq<nat>)
    requires |outCoord| == |g.outShape|
    ensures NoRepeats(Window(g, outCoord))
  {
    var lists, cells := Lookups(g, outCoord), Window(g, outCoord);
    forall i, j | 0 <= i < j < |cells| ensures cells[i] != cells[j] {
      if cells[i] == cells[j] {
        var a := ConcatFrom(lists, i);
        var b := ConcatFrom(lists, j);
        SameCell(g, outCoord, a, b, cells[i]);
      }
    }
    NoRepeatsFrom(cells);
  }

  /** The windows of a tensor, in row-major order of the output. */
  ghost predicate AreWindows(g: Geometry, windows: seq<seq<nat>>)
  {
    && |windows| == Size(g.outShape)
    && forall k {:trigger Window(g, CoordAt(g.outShape, k))} :: 0 <= k < |windows| ==> windows[k] == Window(g, CoordAt(g.outShape, k))
  }

  lemma WindowsOf(g: Geometry) returns (windows: seq<seq<nat>>)
    ensures AreWindows(g, windows)
  {
    windows := seq(Size(g.outShape), k requires 0 <= k < Size(g.outShape) => Window(g, CoordAt(g.outShape, k)));
  }

  /** The batch axis does not enter a window's positions: they are the same for any number of rows that has the outputs'. */
  lemma LeadingAxisIsIrrelevant(g: Geometry, rows: nat, outCoord: seq<nat>)
    requires outCoord == [] || g.outShape[0] <= rows
    requires InBox(g.outShape, outCoord)
    ensures Rebatched(g, rows).Valid() && Window(Rebatched(g, rows), outCoord) == Window(g, outCoord)
  {
    var h: Geometry := Rebatched(g, rows);
    assert Box(h) == Box(g);
    forall k | 0 <= k < Size(Box(g)) ensures CellAt(h, outCoord, k) == CellAt(g, outCoord, k) {
      SameCellAnyBatch(g, h, outCoord, k);
    }
    assert Lookups(h, outCoord) == Lookups(g, outCoord);
  }

  function Rebatched(g: Geometry, rows: nat): Geometry0
  {
    g.(argShape := g.argShape[0 := rows])
  }

  lemma SameCellAnyBatch(g: Geometry, h: Geometry, outCoord: seq<nat>, k: nat)
    requires h == Rebatched(g, h.argShape[0]) && InBox(g.outShape, outCoord) && Box(h) == Box(g) && k < Size(Box(g))
    ensures CellAt(h, outCoord, k) == CellAt(g, outCoord, k)
  {
    WindowBox(g, outCoord);
    WindowBox(h, outCoord);
    var t, u, c := WindowTransform(g, outCoord), WindowTransform(h, outCoord), CoordAt(Box(g), k);
    forall i | 0 <= i < |t|
      ensures t[i].HasSource(c[i]) <==> u[i].HasSource(c[i])
      ensures t[i].HasSource(c[i]) ==> t[i].Source(c[i]) == u[i].Source(c[i])
    {
      UnitSource(t[i], c[i]);
      UnitSource(u[i], c[i]);
    }
    if HasSource(t, c) {
      assert SourceCoord(t, c) == SourceCoord(u, c);
      IndexIgnoresLeading(g.argShape, SourceCoord(t, c), h.argShape[0]);
    }
  }

  lemma {:induction false} IndexIgnoresLeading(shape: seq<nat>, c: seq<nat>, rows: nat)
    requires shape != [] && InBox(shape, c) && c[0] < rows
    ensures InBox(shape[0 := rows], c) && Index(shape[0 := rows], c) == Index(shape, c)
  {
    var other := shape[0 := rows];
    if |shape| == 1 {
    } else {
      assert Front(other) == Front(shape)[0 := rows];
      IndexIgnoresLeading(Front(shape), Front(c), rows);
    }
  }
}
