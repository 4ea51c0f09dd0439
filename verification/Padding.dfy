/** Tensor padding in its three modes (src/seal/kernel/pad_seal.hpp). */
module Padding {
  import opened Outcomes
  import opened Arithmetic
  import opened Coordinates

  datatype PadMode = CONSTANT | EDGE | REFLECT

  // ---------------------------------------------------------------- reflection

  /** The triangular wave of period 2(n - 1): 0, 1, ..., n - 1, n - 2, ..., 1, 0, 1, ... */
  function Wave(x: int, n: nat): (r: int)
    requires n >= 2
    ensures 0 <= r < n
  {
    var m := x % (2 * (n - 1));
    if m < n then m else 2 * (n - 1) - m
  }

  lemma WaveMirrors(x: int, n: nat)
    requires n >= 2
    ensures Wave(-x, n) == Wave(x, n)
    ensures Wave(2 * (n - 1) - x, n) == Wave(x, n)
    ensures 0 <= x < n ==> Wave(x, n) == x
  {
    var p := 2 * (n - 1);
    NegatedRemainder(x, p);
    ModAddMultiple(-x, 1, p);
    assert -x + 1 * p == p - x;
    if 0 <= x < n {
      DivModUnique(x, p, 0, x);
    }
  }

  lemma NegatedRemainder(x: int, p: int)
    requires p > 0
    ensures (-x) % p == if x % p == 0 then 0 else p - x % p
  {
    var k, m := x / p, x % p;
    var kp := k * p;
    assert x == kp + m;
    if m == 0 {
      DivModUnique(-x, p, -k, 0);
    } else {
      assert (-k - 1) * p == -kp - p;
      DivModUnique(-x, p, -k - 1, p - m);
    }
  }

  /** One pass of the reflection loop on the offset from the start of the data. */
  function Bounce(offset: int, n: nat): int
  {
    if offset < 0 then -offset
    else if offset >= n then 2 * (n as int - 1) - offset
    else offset
  }

  function Bounces(offset: int, n: nat, times: nat): int
    decreases times
  {
    if times == 0 then offset else Bounces(Bounce(offset, n), n, times - 1)
  }

  lemma {:induction false} BounceAgain(offset: int, n: nat, times: nat)
    ensures Bounces(offset, n, times + 1) == Bounce(Bounces(offset, n, times), n)
    decreases times
  {
    if times == 0 {
      assert Bounces(Bounce(offset, n), n, 0) == Bounce(offset, n);
    } else {
      BounceAgain(Bounce(offset, n), n, times - 1);
    }
  }

  function Distance(offset: int): nat
  {
    if offset < 0 then 1 - 2 * offset else 2 * offset
  }

  lemma {:induction false} BouncesSettle(offset: int, n: nat)
    returns (times: nat)
    requires n >= 2
    ensures 0 <= Bounces(offset, n, times) < n
    decreases Distance(offset)
  {
    if 0 <= offset < n {
      times := 0;
    } else {
      var t := BouncesSettle(Bounce(offset, n), n);
      times := t + 1;
    }
  }

  lemma {:induction false} BouncesDiverge(offset: int, n: nat, times: nat)
    requires n <= 1 && !(0 <= offset < n)
    ensures !(0 <= Bounces(offset, n, times) < n)
    decreases times
  {
    if times == 0 {
    } else {
      BouncesDiverge(Bounce(offset, n), n, times - 1);
    }
  }

  /** The reflection loop stops exactly when the axis has two elements or the coordinate is already inside. */
  lemma ReflectionStopsIff(offset: int, n: nat)
    ensures (exists times: nat :: 0 <= Bounces(offset, n, times) < n) <==> n >= 2 || 0 <= offset < n
  {
    if n >= 2 {
      var t := BouncesSettle(offset, n);
    } else if 0 <= offset < n {
      assert Bounces(offset, n, 0) == offset;
    } else {
      forall times: nat ensures !(0 <= Bounces(offset, n, times) < n) {
        BouncesDiverge(offset, n, times);
      }
    }
  }

  /** No earlier bounce was inside. */
  predicate OutsideUntil(offset: int, n: nat, times: nat)
  {
    forall t :: 0 <= t < times ==> !(0 <= Bounces(offset, n, t) < n)
  }

  /** The while loop of the REFLECT branch for one coordinate: it bounces until it is inside, and that is on the wave. */
  method Reflect(c: int, below: int, n: nat) returns (newDim: int, ghost times: nat)
    requires n >= 2
    ensures newDim == below + Bounces(c - below, n, times)
    ensures OutsideUntil(c - below, n, times)
    ensures newDim == below + Wave(c - below, n)
  {
    newDim, times := c, 0;
    var doneReflecting := false;
    while !doneReflecting
      invariant newDim == below + Bounces(c - below, n, times)
      invariant OutsideUntil(c - below, n, times)
      invariant Wave(newDim - below, n) == Wave(c - below, n)
      invariant doneReflecting ==> below <= newDim < below + n
      decreases !doneReflecting, Distance(newDim - below)
    {
      WaveMirrors(newDim - below, n);
      BounceAgain(c - below, n, times);
      if newDim < below {
        var distanceOob := below - newDim;
        newDim := below + distanceOob;
        times := times + 1;
      } else if newDim >= below + n {
        var distanceOob := newDim - below - (n - 1);
        newDim := below + n - distanceOob - 1;
        times := times + 1;
      } else {
        doneReflecting := true;
      }
    }
    WaveMirrors(newDim - below, n);
  }

  // ----------------------------------------------------------------- the kernel

  datatype Geometry = Geometry(argShape: seq<nat>, outShape: seq<nat>, below: seq<int>)
  {
    predicate Valid(mode: PadMode)
    {
      && |argShape| == |outShape| == |below|
      && (mode == EDGE ==> forall i :: 0 <= i < |argShape| ==> argShape[i] >= 1)
      && (mode == REFLECT ==> forall i :: 0 <= i < |argShape| ==> argShape[i] >= 2)
    }

    /** The data coordinate an output coordinate takes its value from, axis by axis. */
    function Fold(mode: PadMode, c: seq<nat>): (s: seq<int>)
      requires Valid(mode) && |c| == |outShape|
      ensures |s| == |c|
    {
      seq(|c|, i requires 0 <= i < |c| =>
        match mode
        case CONSTANT => c[i] - below[i]
        case EDGE => if c[i] < below[i] then 0 else if c[i] >= below[i] + argShape[i] then argShape[i] - 1 else c[i] - below[i]
        case REFLECT => Wave(c[i] - below[i], argShape[i]))
    }

    predicate Inside(s: seq<int>)
    {
      |s| == |argShape| && forall i :: 0 <= i < |s| ==> 0 <= s[i] < argShape[i]
    }

    /** The value padding is meant to put at an output coordinate. */
    function ValueAt<T>(mode: PadMode, arg0: seq<T>, padVal: T, c: seq<nat>): T
      requires Valid(mode) && |c| == |outShape| && |arg0| == Size(argShape)
    {
      var s := Fold(mode, c);
      if Inside(s) then IndexInRange(argShape, AsCoord(s)); arg0[Index(argShape, AsCoord(s))] else padVal
    }

    /** The transform the kernel builds: the whole output box over the padded source. */
    function InputTransform(): (t: Transform)
      requires |argShape| == |outShape| == |below|
      ensures |t| == |argShape| && ValidTransform(t)
    {
      seq(|argShape|, i requires 0 <= i < |argShape| => Axis(argShape[i], 0, outShape[i], 1, below[i], 1))
    }

    lemma TransformMeansFold(mode: PadMode, c: seq<nat>)
      requires Valid(mode) && |c| == |outShape|
      ensures SourceShape(InputTransform()) == argShape
      ensures HasSource(InputTransform(), c) <==> Inside(Fold(CONSTANT, c))
      ensures HasSource(InputTransform(), c) ==> SourceCoord(InputTransform(), c) == AsCoord(Fold(CONSTANT, c))
    {
      var t := InputTransform();
      var s := Fold(CONSTANT, c);
      forall i | 0 <= i < |c|
        ensures t[i].HasSource(c[i]) <==> 0 <= s[i] < argShape[i]
        ensures t[i].HasSource(c[i]) ==> t[i].Source(c[i]) == s[i]
      {}
    }
  }

  function AsCoord(s: seq<int>): (c: seq<nat>)
    requires forall i :: 0 <= i < |s| ==> s[i] >= 0
    ensures |c| == |s| && forall i :: 0 <= i < |s| ==> c[i] == s[i]
  {
    seq(|s|, i requires 0 <= i < |s| => s[i])
  }

  method PadSeal<T>(arg0: seq<T>, arg1: seq<T>, out: array<T>, g: Geometry, mode: PadMode) returns (r: Outcome)
    requires g.Valid(mode) && |arg0| == Size(g.argShape) && out.Length == Size(g.outShape)
    modifies out
    ensures r == if |arg1| != 1 then Fail("Padding element must be scalar") else Pass
    ensures r == Pass ==> forall k :: 0 <= k < out.Length ==> out[k] == g.ValueAt(mode, arg0, arg1[0], CoordAt(g.outShape, k))
  {
    if |arg1| != 1 {
      return Fail("Padding element must be scalar");
    }
    var padVal := arg1[0];
    for k := 0 to Size(g.outShape)
      invariant forall j :: 0 <= j < k ==> out[j] == g.ValueAt(mode, arg0, padVal, CoordAt(g.outShape, j))
    {
      var inCoord := CoordAt(g.outShape, k);
      IndexOfCoordAt(g.outShape, k);
      var v := PadCell(arg0, padVal, g, mode, inCoord);
      out[Index(g.outShape, inCoord)] := v;
    }
    return Pass;
  }

  /** One pass of the loop, branch by branch. */
  method PadCell<T>(arg0: seq<T>, padVal: T, g: Geometry, mode: PadMode, inCoord: seq<nat>) returns (v: T)
    requires g.Valid(mode) && |arg0| == Size(g.argShape) && |inCoord| == |g.outShape|
    ensures v == g.ValueAt(mode, arg0, padVal, inCoord)
  {
    var inputTransform := g.InputTransform();
    match mode {
      case CONSTANT =>
        g.TransformMeansFold(mode, inCoord);
        if HasSource(inputTransform, inCoord) {
          IndexInRange(g.argShape, SourceCoord(inputTransform, inCoord));
          v := arg0[SourceIndex(inputTransform, inCoord)];
        } else {
          v := padVal;
        }
      case EDGE =>
        v := EdgeValue(arg0, g, inCoord, padVal);
      case REFLECT =>
        v := ReflectValue(arg0, g, inCoord, padVal);
    }
  }

  /** The EDGE branch: truncate each out-of-bound dimension. */
  method EdgeValue<T>(arg0: seq<T>, g: Geometry, inCoord: seq<nat>, ghost padVal: T) returns (v: T)
    requires g.Valid(EDGE) && |arg0| == Size(g.argShape) && |inCoord| == |g.outShape|
    ensures v == g.ValueAt(EDGE, arg0, padVal, inCoord)
  {
    var c: seq<int> := seq(|inCoord|, i requires 0 <= i < |inCoord| => inCoord[i]);
    for i := 0 to |c|
      invariant |c| == |inCoord|
      invariant forall j :: 0 <= j < i ==> c[j] == g.below[j] + g.Fold(EDGE, inCoord)[j]
      invariant forall j :: i <= j < |c| ==> c[j] == inCoord[j]
    {
      if c[i] < g.below[i] {
        c := c[i := g.below[i]];
      }
      if c[i] >= g.below[i] + g.argShape[i] {
        c := c[i := g.below[i] + g.argShape[i] - 1];
      }
    }
    v := SourceValue(arg0, g, EDGE, inCoord, c, padVal);
  }

  /** The REFLECT branch: reflect each dimension until it is inside. */
  method ReflectValue<T>(arg0: seq<T>, g: Geometry, inCoord: seq<nat>, ghost padVal: T) returns (v: T)
    requires g.Valid(REFLECT) && |arg0| == Size(g.argShape) && |inCoord| == |g.outShape|
    ensures v == g.ValueAt(REFLECT, arg0, padVal, inCoord)
  {
    var c: seq<int> := seq(|inCoord|, i requires 0 <= i < |inCoord| => inCoord[i]);
    for i := 0 to |c|
      invariant |c| == |inCoord|
      invariant forall j :: 0 <= j < i ==> c[j] == g.below[j] + g.Fold(REFLECT, inCoord)[j]
      invariant forall j :: i <= j < |c| ==> c[j] == inCoord[j]
    {
      var newDim, _ := Reflect(c[i], g.below[i], g.argShape[i]);
      c := c[i := newDim];
    }
    v := SourceValue(arg0, g, REFLECT, inCoord, c, padVal);
  }

  /** arg0[input_transform.index(c)] for a padded coordinate inside the data. */
  method SourceValue<T>(arg0: seq<T>, g: Geometry, ghost mode: PadMode, ghost inCoord: seq<nat>, c: seq<int>, ghost padVal: T)
    returns (v: T)
    requires mode != CONSTANT && g.Valid(mode) && |arg0| == Size(g.argShape) && |inCoord| == |g.outShape| == |c|
    requires forall j :: 0 <= j < |c| ==> c[j] == g.below[j] + g.Fold(mode, inCoord)[j]
    ensures v == g.ValueAt(mode, arg0, padVal, inCoord)
  {
    var s := seq(|c|, j requires 0 <= j < |c| => c[j] - g.below[j]);
    assert s == g.Fold(mode, inCoord);
    assert g.Inside(s);
    IndexInRange(g.argShape, AsCoord(s));
    v := arg0[Index(g.argShape, AsCoord(s))];
  }

  /** Where a data coordinate ends up in the padded output. */
  function Shifted(g: Geometry, s: seq<nat>): (c: seq<nat>)
    requires |g.below| == |s| && forall i :: 0 <= i < |s| ==> g.below[i] >= 0
    ensures |c| == |s| && forall i :: 0 <= i < |s| ==> c[i] == s[i] + g.below[i]
  {
    seq(|s|, i requires 0 <= i < |s| => s[i] + g.below[i])
  }

  lemma FoldUndoesShift(g: Geometry, mode: PadMode, s: seq<nat>)
    requires g.Valid(mode) && InBox(g.argShape, s) && forall i :: 0 <= i < |s| ==> g.below[i] >= 0
    ensures g.Inside(g.Fold(mode, Shifted(g, s))) && AsCoord(g.Fold(mode, Shifted(g, s))) == s
  {
    var folded := g.Fold(mode, Shifted(g, s));
    forall i | 0 <= i < |s| ensures folded[i] == s[i] {
      if mode == REFLECT {
        WaveMirrors(s[i], g.argShape[i]);
      }
    }
  }

  /** Padding with non-negative pads and then restricting to the centre gives the input back, in every mode. */
  lemma CentreOfPadding<T>(g: Geometry, mode: PadMode, arg0: seq<T>, padVal: T, s: seq<nat>)
    requires g.Valid(mode) && |arg0| == Size(g.argShape) && InBox(g.argShape, s)
    requires forall i :: 0 <= i < |s| ==> g.below[i] >= 0
    requires InBox(g.outShape, Shifted(g, s))
    ensures var k := Index(g.outShape, Shifted(g, s));
            && k < Size(g.outShape) && Index(g.argShape, s) < |arg0|
            && g.ValueAt(mode, arg0, padVal, CoordAt(g.outShape, k)) == arg0[Index(g.argShape, s)]
  {
    CoordAtOfIndex(g.outShape, Shifted(g, s));
    IndexInRange(g.argShape, s);
    FoldUndoesShift(g, mode, s);
  }

  /** CONSTANT: the data, moved up by the padding below, and the pad value everywhere else. */
  lemma ConstantPadding<T>(g: Geometry, arg0: seq<T>, padVal: T, c: seq<nat>)
    requires g.Valid(CONSTANT) && |arg0| == Size(g.argShape) && |c| == |g.outShape|
    ensures forall s :: InBox(g.argShape, s) && (forall i :: 0 <= i < |s| ==> c[i] == s[i] + g.below[i]) ==>
              Index(g.argShape, s) < |arg0| && g.ValueAt(CONSTANT, arg0, padVal, c) == arg0[Index(g.argShape, s)]
    ensures (exists i :: 0 <= i < |c| && !(g.below[i] <= c[i] < g.below[i] + g.argShape[i])) ==>
              g.ValueAt(CONSTANT, arg0, padVal, c) == padVal
  {
    var folded := g.Fold(CONSTANT, c);
    forall s | InBox(g.argShape, s) && (forall i :: 0 <= i < |s| ==> c[i] == s[i] + g.below[i])
      ensures Index(g.argShape, s) < |arg0| && g.ValueAt(CONSTANT, arg0, padVal, c) == arg0[Index(g.argShape, s)]
    {
      IndexInRange(g.argShape, s);
      assert AsCoord(folded) == s;
    }
    if i :| 0 <= i < |c| && !(g.below[i] <= c[i] < g.below[i] + g.argShape[i]) {
      assert !(0 <= folded[i] < g.argShape[i]);
    }
  }

  function Apart(x: int, y: int): nat
  {
    if x < y then y - x else x - y
  }

  /** No position of the data from below on is nearer. */
  predicate IsNearestCell(at: int, below: int, n: nat, s: nat)
  {
    forall y :: below <= y < below + n ==> Apart(at, below + s) <= Apart(at, y)
  }

  lemma NearestIsClamped(at: int, below: int, n: nat, s: nat)
    requires s < n && IsNearestCell(at, below, n, s)
    ensures s == if at < below then 0 else if at >= below + n then n - 1 else at - below
  {
    var y := if at < below then below else if at >= below + n then below + n - 1 else at;
    assert Apart(at, below + s) <= Apart(at, y);
  }

  /** EDGE: on every axis the nearest data coordinate. */
  lemma EdgePadding<T>(g: Geometry, arg0: seq<T>, padVal: T, c: seq<nat>, s: seq<nat>)
    requires g.Valid(EDGE) && |arg0| == Size(g.argShape) && |c| == |g.outShape| && InBox(g.argShape, s)
    requires forall i :: 0 <= i < |s| ==> IsNearestCell(c[i], g.below[i], g.argShape[i], s[i])
    ensures Index(g.argShape, s) < |arg0| && g.ValueAt(EDGE, arg0, padVal, c) == arg0[Index(g.argShape, s)]
  {
    hide IsNearestCell;
    IndexInRange(g.argShape, s);
    var folded := g.Fold(EDGE, c);
    forall i | 0 <= i < |s| ensures folded[i] == s[i] {
      NearestIsClamped(c[i], g.below[i], g.argShape[i], s[i]);
    }
    assert AsCoord(folded) == s;
  }

  /** x is s or its mirror image -s, moved by whole periods of 2(n - 1). */
  predicate ReflectsTo(x: int, s: int, turns: int, n: int)
  {
    x == s + turns * (2 * (n - 1)) || x == -s + turns * (2 * (n - 1))
  }

  /** REFLECT: on every axis the data coordinate that the position reflects to. */
  lemma ReflectPadding<T>(g: Geometry, arg0: seq<T>, padVal: T, c: seq<nat>, s: seq<nat>, turns: seq<int>)
    requires g.Valid(REFLECT) && |arg0| == Size(g.argShape) && |c| == |g.outShape| && InBox(g.argShape, s) && |turns| == |s|
    requires forall i :: 0 <= i < |s| ==> ReflectsTo(c[i] - g.below[i], s[i], turns[i], g.argShape[i])
    ensures Index(g.argShape, s) < |arg0| && g.ValueAt(REFLECT, arg0, padVal, c) == arg0[Index(g.argShape, s)]
  {
    hide ReflectsTo, Wave;
    IndexInRange(g.argShape, s);
    var folded := g.Fold(REFLECT, c);
    forall i | 0 <= i < |s| ensures folded[i] == s[i] {
      WavePeriods(c[i] - g.below[i], s[i], turns[i], g.argShape[i]);
    }
    assert AsCoord(folded) == s;
  }

  lemma WavePeriods(x: int, s: int, turns: int, n: nat)
    requires n >= 2 && 0 <= s < n && ReflectsTo(x, s, turns, n)
    ensures Wave(x, n) == s
  {
    var p := 2 * (n - 1);
    WaveMirrors(s, n);
    var y := if x == s + turns * p then s else -s;
    ModAddMultiple(y, turns, p);
    SameWave(x, y, n);
  }

  lemma SameWave(x: int, y: int, n: nat)
    requires n >= 2 && x % (2 * (n - 1)) == y % (2 * (n - 1))
    ensures Wave(x, n) == Wave(y, n)
  {}
}
