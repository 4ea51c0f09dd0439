/**
 * Bringing ciphertexts to a common level and scale (src/seal/seal_util.cpp,
 * src/seal/seal_util.hpp).
 */
module LevelMatching {
  import opened Outcomes
  import opened RealArithmetic
  import opened ComplexNumbers
  import opened SealCiphertext

  /** An evaluator call that changes a ciphertext's level. */
  datatype LevelCall = RescaleCall(cipher: View, chain: nat) | ModSwitchCall(cipher: View, chain: nat)

  /**
   * primes[l] is the prime dropped in going from chain index l to l - 1. refuses
   * tells which calls throw, as for a scale too large for the lower level; it is
   * left open.
   */
  datatype Context = Context(primes: seq<real>, refuses: LevelCall -> bool)
  {
    ghost predicate Valid() { forall l :: 0 <= l < |primes| ==> primes[l] > 0.0 }
  }

  const FACTOR: real := 1.02

  predicate WithinRescaleTolerance(scale0: real, scale1: real)
    requires scale0 > 0.0 && scale1 > 0.0
  {
    scale0 / scale1 <= FACTOR && scale1 / scale0 <= FACTOR
  }

  /** The product of the primes dropped between two chain indices. */
  function Dropped(ctx: Context, from: nat, to: nat): (p: real)
    requires ctx.Valid() && to <= from < |ctx.primes|
    ensures p > 0.0
  {
    if from == to then 1.0 else QuotientPositive(Dropped(ctx, from - 1, to), ctx.primes[from]); Dropped(ctx, from - 1, to) * ctx.primes[from]
  }

  lemma SwapFactors(x: real, y: real, z: real)
    ensures (x * y) * z == (x * z) * y
  {}

  /** One step drops the prime of the level it leaves, and steps multiply. */
  lemma {:induction false} DroppedSteps(ctx: Context, from: nat, mid: nat, to: nat)
    requires ctx.Valid() && to <= mid <= from < |ctx.primes|
    ensures Dropped(ctx, from, to) == Dropped(ctx, from, mid) * Dropped(ctx, mid, to)
    ensures Dropped(ctx, to, to) == 1.0 && (from == to + 1 ==> Dropped(ctx, from, to) == ctx.primes[from])
  {
    if from == mid {
    } else {
      DroppedSteps(ctx, from - 1, mid, to);
      SwapFactors(Dropped(ctx, from - 1, mid), Dropped(ctx, mid, to), ctx.primes[from]);
    }
    if from == to + 1 {
      assert Dropped(ctx, from, to) == Dropped(ctx, to, to) * ctx.primes[from];
    }
  }

  predicate OnChain(ctx: Context, v: View)
  {
    v.chain < |ctx.primes| && v.scale > 0.0
  }

  /** Evaluator::rescale_to: the scale shrinks by the dropped primes, the decoded values stay. */
  function RescaleTo(ctx: Context, v: View, chain: nat): View
    requires ctx.Valid() && OnChain(ctx, v) && chain <= v.chain
  {
    v.(chain := chain, scale := v.scale / Dropped(ctx, v.chain, chain))
  }

  /** Evaluator::mod_switch_to: scale and decoded values stay. */
  function ModSwitchTo(v: View, chain: nat): View
  {
    v.(chain := chain)
  }

  /** Assigning a scale: the stored message is now read against the new scale. */
  function Relabel(v: View, scale: real): View
    requires scale > 0.0
  {
    v.(scale := scale, slots := MapSlots(z => Scale(z, v.scale / scale), v.slots))
  }

  /** high before its scale is matched: down at low's level. */
  function Switched(ctx: Context, high: View, low: View): (v: View)
    requires ctx.Valid() && OnChain(ctx, high) && OnChain(ctx, low) && high.chain > low.chain
    ensures v.scale > 0.0 && v.chain == low.chain && v.slots == high.slots
  {
    QuotientPositive(high.scale, Dropped(ctx, high.chain, low.chain));
    if !WithinRescaleTolerance(high.scale, low.scale) then RescaleTo(ctx, high, low.chain)
    else ModSwitchTo(high, low.chain)
  }

  /** The call that brings high down to low's level. */
  function SwitchCall(high: View, low: View): LevelCall
    requires high.scale > 0.0 && low.scale > 0.0
  {
    if !WithinRescaleTolerance(high.scale, low.scale) then RescaleCall(high, low.chain) else ModSwitchCall(high, low.chain)
  }

  /** What matching leaves of the ciphertext at the higher chain index, or None where the evaluator or match_scale throws. */
  function Lowered(ctx: Context, high: View, low: View): Option<View>
    requires ctx.Valid() && OnChain(ctx, high) && OnChain(ctx, low) && high.chain > low.chain
  {
    var v := Switched(ctx, high, low);
    if ctx.refuses(SwitchCall(high, low)) then None
    else if WithinRescaleTolerance(v.scale, low.scale) then Some(Relabel(v, low.scale)) else None
  }

  /** Both ciphertexts after matching. */
  function Matched(ctx: Context, a: View, b: View): (r: Option<(View, View)>)
    requires ctx.Valid() && OnChain(ctx, a) && OnChain(ctx, b)
  {
    if a.chain == b.chain then Some((a, b))
    else if a.chain > b.chain then
      match Lowered(ctx, a, b) { case Some(a') => Some((a', b)) case None => None }
    else
      match Lowered(ctx, b, a) { case Some(b') => Some((a, b')) case None => None }
  }

  /** Read against the new scale, the stored message is what it was against the old one. */
  lemma RelabelKeepsMessage(v: View, scale: real)
    requires scale > 0.0
    ensures var v' := Relabel(v, scale);
            && v'.scale == scale && |v'.slots| == |v.slots|
            && forall i :: 0 <= i < |v.slots| ==>
                 v'.slots[i].re * scale == v.slots[i].re * v.scale && v'.slots[i].im * scale == v.slots[i].im * v.scale
  {
    var v' := Relabel(v, scale);
    forall i | 0 <= i < |v.slots|
      ensures v'.slots[i].re * scale == v.slots[i].re * v.scale && v'.slots[i].im * scale == v.slots[i].im * v.scale
    {
      ReadAgainst(v.slots[i].re, v.scale, scale, v'.slots[i].re);
      ReadAgainst(v.slots[i].im, v.scale, scale, v'.slots[i].im);
    }
  }

  lemma ReadAgainst(x: real, s: real, t: real, y: real)
    requires t > 0.0 && y == x * (s / t)
    ensures y * t == x * s
  {
    var q := s / t;
    assert q * t == s;
    RealMulAssoc(x, q, t, q * t);
  }

  method MatchScale(arg0: SealCiphertextWrapper, arg1: SealCiphertextWrapper) returns (r: Outcome)
    requires arg0 != arg1 && arg0.scale > 0.0 && arg1.scale > 0.0
    modifies arg0
    ensures WithinRescaleTolerance(old(arg0.scale), arg1.scale) ==>
              r == Pass && arg0.Contents() == Relabel(old(arg0.Contents()), arg1.scale)
    ensures r == Pass ==> arg0.scale == arg1.scale && |arg0.slots| == |old(arg0.slots)|
    ensures r == Pass ==> forall i :: 0 <= i < |arg0.slots| ==>
              && arg0.slots[i].re * arg0.scale == old(arg0.slots)[i].re * old(arg0.scale)
              && arg0.slots[i].im * arg0.scale == old(arg0.slots)[i].im * old(arg0.scale)
    ensures !WithinRescaleTolerance(old(arg0.scale), arg1.scale) ==>
              r.Fail? && arg0.Contents() == old(arg0.Contents())
  {
    var scaleOk := WithinRescaleTolerance(arg0.scale, arg1.scale);
    if !scaleOk {
      return Fail("scale does not match");
    }
    RelabelKeepsMessage(arg0.Contents(), arg1.scale);
    arg0.Set(Relabel(arg0.Contents(), arg1.scale));
    return Pass;
  }

  method MatchModulusAndScaleInplace(arg0: SealCiphertextWrapper, arg1: SealCiphertextWrapper, ctx: Context)
    returns (r: Outcome)
    requires ctx.Valid() && OnChain(ctx, arg0.Contents()) && OnChain(ctx, arg1.Contents())
    modifies arg0, arg1
    ensures match Matched(ctx, old(arg0.Contents()), old(arg1.Contents()))
            case Some(p) => r == Pass && arg0.Contents() == p.0 && arg1.Contents() == p.1
            case None => r.Fail?
    ensures old(arg0.chain) <= old(arg1.chain) ==> arg0.Contents() == old(arg0.Contents())
    ensures old(arg1.chain) <= old(arg0.chain) ==> arg1.Contents() == old(arg1.Contents())
    ensures |arg0.slots| == |old(arg0.slots)| && |arg1.slots| == |old(arg1.slots)|
    decreases if arg0.chain < arg1.chain then 1 else 0
  {
    var chainInd0, chainInd1 := arg0.chain, arg1.chain;
    if chainInd0 == chainInd1 {
      return Pass;
    }
    if chainInd0 < chainInd1 {
      r := MatchModulusAndScaleInplace(arg1, arg0, ctx);
      if r.Fail? { return; }
    }
    var rescale := !WithinRescaleTolerance(arg0.scale, arg1.scale);
    if chainInd0 > chainInd1 {
      var high := arg0.Contents();
      QuotientPositive(arg0.scale, Dropped(ctx, arg0.chain, arg1.chain));
      if ctx.refuses(SwitchCall(high, arg1.Contents())) {
        return Fail("scale out of bounds or transparent result");
      }
      if rescale {
        arg0.Set(RescaleTo(ctx, arg0.Contents(), arg1.chain));
      } else {
        arg0.Set(ModSwitchTo(arg0.Contents(), arg1.chain));
      }
      assert arg0.Contents() == Switched(ctx, high, arg1.Contents());
      chainInd0 := arg0.chain;
      assert chainInd0 == chainInd1;
      r := MatchScale(arg0, arg1);
    } else {
      r := Pass;
    }
  }

  /** Matching does not depend on the order of its arguments. */
  lemma MatchedIsSymmetric(ctx: Context, a: View, b: View)
    requires ctx.Valid() && OnChain(ctx, a) && OnChain(ctx, b)
    ensures Matched(ctx, a, b).Some? <==> Matched(ctx, b, a).Some?
    ensures Matched(ctx, a, b).Some? ==>
              Matched(ctx, a, b).value.0 == Matched(ctx, b, a).value.1 && Matched(ctx, a, b).value.1 == Matched(ctx, b, a).value.0
  {}

  /** z2 is z1 times a factor between 1/1.02 and 1.02. */
  ghost predicate CloseTo(v1: Slots, v2: Slots)
  {
    && |v1| == |v2|
    && exists f: real :: IsDriftFactor(f) && forall i :: 0 <= i < |v1| ==> v2[i] == Scale(v1[i], f)
  }

  predicate IsDriftFactor(f: real)
  {
    1.0 <= f * FACTOR && f <= FACTOR
  }

  lemma DriftBounds(s0: real, s1: real)
    requires s0 > 0.0 && s1 > 0.0 && WithinRescaleTolerance(s0, s1)
    ensures IsDriftFactor(s0 / s1)
  {
    var f, g := s0 / s1, s1 / s0;
    QuotientPositive(s0, s1);
    Reciprocals(s0, s1, f, g);
    RealMulMono(g, FACTOR, f);
  }

  lemma Reciprocals(s0: real, s1: real, f: real, g: real)
    requires s0 > 0.0 && s1 > 0.0 && f == s0 / s1 && g == s1 / s0
    ensures f * g == 1.0 == g * f
  {
    assert f * s1 == s0 && g * s0 == s1;
    CancelProduct(f, g, s0, s1);
  }

  lemma CancelProduct(f: real, g: real, s0: real, s1: real)
    requires s0 > 0.0 && f * s1 == s0 && g * s0 == s1
    ensures f * g == 1.0
  {
    RealMulAssoc(f, g, s0, s1);
    OneTimes(f * g, s0, f * s1);
  }

  lemma OneTimes(x: real, y: real, p: real)
    requires y > 0.0 && p == x * y && p == y
    ensures x == 1.0
  {
    if x < 1.0 {
      RealMulMonoStrict(x, 1.0, y);
    } else if x > 1.0 {
      RealMulMonoStrict(1.0, x, y);
    }
  }

  /**
   * What matching promises: both end at the smaller chain index, the one already
   * there is untouched, the scales agree if the levels differed, and the other's
   * decoded value moves by a factor within 1.02.
   */
  lemma MatchedLevels(ctx: Context, a: View, b: View)
    requires ctx.Valid() && OnChain(ctx, a) && OnChain(ctx, b)
    requires Matched(ctx, a, b).Some?
    ensures var (a', b') := Matched(ctx, a, b).value;
            && a'.chain == b'.chain == (if a.chain <= b.chain then a.chain else b.chain)
            && (a.chain <= b.chain ==> a' == a) && (b.chain <= a.chain ==> b' == b)
            && (a.chain != b.chain ==> a'.scale == b'.scale)
            && CloseTo(a.slots, a'.slots) && CloseTo(b.slots, b'.slots)
            && a'.isZero == a.isZero && b'.isZero == b.isZero && a'.packed == a.packed && b'.packed == b.packed
  {
    SelfClose(a.slots);
    SelfClose(b.slots);
    if a.chain > b.chain {
      LoweredClose(ctx, a, b);
    } else if b.chain > a.chain {
      LoweredClose(ctx, b, a);
    }
  }

  /**
   * A ciphertext lowered to another's level and scale keeps its message: its
   * slots times the new scale are what they were times the old scale, where only
   * the modulus was switched, or times the old scale over the primes dropped,
   * where it was rescaled because the scales were not within a factor of 1.02.
   */
  predicate KeepsMessage(ctx: Context, was: View, now: View, low: View)
    requires ctx.Valid() && OnChain(ctx, was) && OnChain(ctx, low) && was.chain > low.chain
  {
    var near := was.scale / low.scale <= 1.02 && low.scale / was.scale <= 1.02;
    var kept := if near then was.scale else was.scale / Dropped(ctx, was.chain, low.chain);
    && now.chain == low.chain && now.scale == low.scale && |now.slots| == |was.slots|
    && forall t :: 0 <= t < |was.slots| ==>
         now.slots[t].re * now.scale == was.slots[t].re * kept && now.slots[t].im * now.scale == was.slots[t].im * kept
  }

  lemma MatchingKeepsMessage(ctx: Context, high: View, low: View)
    requires ctx.Valid() && OnChain(ctx, high) && OnChain(ctx, low) && high.chain > low.chain
    requires Matched(ctx, high, low).Some?
    ensures KeepsMessage(ctx, high, Matched(ctx, high, low).value.0, low)
  {
    hide Relabel;
    RelabelKeepsMessage(Switched(ctx, high, low), low.scale);
    RelabelKeepsRest(Switched(ctx, high, low), low.scale);
  }

  lemma RelabelKeepsRest(v: View, scale: real)
    requires scale > 0.0
    ensures Relabel(v, scale).chain == v.chain
  {}

  lemma SelfClose(v: Slots)
    ensures CloseTo(v, v)
  {
    assert IsDriftFactor(1.0);
    forall i | 0 <= i < |v| ensures v[i] == Scale(v[i], 1.0) {
      assert v[i] == Complex(v[i].re, v[i].im);
    }
  }

  lemma LoweredClose(ctx: Context, high: View, low: View)
    requires ctx.Valid() && OnChain(ctx, high) && OnChain(ctx, low) && high.chain > low.chain
    requires Lowered(ctx, high, low).Some?
    ensures CloseTo(high.slots, Lowered(ctx, high, low).value.slots)
  {
    var v := Switched(ctx, high, low);
    DriftBounds(v.scale, low.scale);
  }

  /**
   * Matching fails exactly when neither the scale itself nor the rescaled one is
   * near the target, or the evaluator refuses the call that lowers the ciphertext.
   */
  lemma MatchFailsIff(ctx: Context, high: View, low: View)
    requires ctx.Valid() && OnChain(ctx, high) && OnChain(ctx, low) && high.chain > low.chain
    ensures var rescaled := high.scale / Dropped(ctx, high.chain, low.chain);
            rescaled > 0.0 &&
            (Matched(ctx, high, low) == None <==>
             if WithinRescaleTolerance(high.scale, low.scale) then ctx.refuses(ModSwitchCall(high, low.chain))
             else ctx.refuses(RescaleCall(high, low.chain)) || !WithinRescaleTolerance(rescaled, low.scale))
  {
    QuotientPositive(high.scale, Dropped(ctx, high.chain, low.chain));
  }

  // ------------------------------------------------- a whole tensor to one level

  /** Some loop index other than the skipped one leads to this object. */
  ghost predicate Visited(ciphers: seq<SealCiphertextWrapper>, skip: nat, upto: nat, x: SealCiphertextWrapper)
  {
    exists j :: 0 <= j < upto && j < |ciphers| && j != skip && ciphers[j] == x
  }

  ghost predicate AllOnChain(ctx: Context, views: seq<View>)
  {
    forall i :: 0 <= i < |views| ==> OnChain(ctx, views[i])
  }

  /** The first of the unflagged ciphertexts with the smallest chain index, found from the front. */
  function Smallest(views: seq<View>): (r: Option<nat>)
    ensures r == None <==> forall i :: 0 <= i < |views| ==> views[i].isZero
    ensures r.Some? ==>
              && r.value < |views| && !views[r.value].isZero
              && (forall i :: 0 <= i < |views| && !views[i].isZero ==> views[r.value].chain <= views[i].chain)
              && (forall i :: 0 <= i < r.value && !views[i].isZero ==> views[r.value].chain < views[i].chain)
  {
    if views == [] then None
    else
      var k := |views| - 1;
      var front := views[..k];
      var r := Smallest(front);
      assert forall i :: 0 <= i < k ==> front[i] == views[i];
      if !views[k].isZero && (r == None || views[k].chain < front[r.value].chain) then Some(k) else r
  }

  method FindSmallest(ciphers: seq<SealCiphertextWrapper>) returns (r: Option<nat>)
    ensures r == Smallest(Views(ciphers))
  {
    r := None;
    ghost var views := Views(ciphers);
    for i := 0 to |ciphers|
      invariant r == Smallest(views[..i])
    {
      assert views[..i + 1][..i] == views[..i];
      if !ciphers[i].isZero && (r == None || ciphers[i].chain < ciphers[r.value].chain) {
        r := Some(i);
      }
    }
    assert views[..|ciphers|] == views;
  }

  /** What matching to a target at or below leaves of a ciphertext. */
  ghost function MatchedTo(ctx: Context, target: View, v: View): Option<View>
    requires ctx.Valid() && OnChain(ctx, target) && OnChain(ctx, v)
  {
    match Matched(ctx, target, v) { case Some(p) => Some(p.1) case None => None }
  }

  /** The goals of matching each ciphertext to the target. */
  ghost predicate AreGoals(ctx: Context, target: View, views: seq<View>, goals: seq<Option<View>>)
    requires ctx.Valid() && OnChain(ctx, target) && AllOnChain(ctx, views)
  {
    |goals| == |views| && forall i :: 0 <= i < |views| ==> goals[i] == MatchedTo(ctx, target, views[i])
  }

  method VisitOne(smallest: SealCiphertextWrapper, cipher: SealCiphertextWrapper, ctx: Context, ghost v: View) returns (r: Outcome)
    requires ctx.Valid() && OnChain(ctx, smallest.Contents()) && OnChain(ctx, v) && smallest != cipher
    requires smallest.chain <= v.chain && !v.isZero
    requires cipher.Contents() == v || Some(cipher.Contents()) == MatchedTo(ctx, smallest.Contents(), v)
    modifies smallest, cipher
    ensures smallest.Contents() == old(smallest.Contents())
    ensures r == Pass ==> MatchedTo(ctx, smallest.Contents(), v) == Some(cipher.Contents()) && !cipher.isZero
                          && cipher.chain == smallest.chain
    ensures r.Fail? ==> MatchedTo(ctx, smallest.Contents(), v) == None
  {
    MatchedToTarget(ctx, smallest.Contents(), v);
    r := MatchModulusAndScaleInplace(smallest, cipher, ctx);
  }

  /** Matching to a target at or below the ciphertext is done after one time. */
  lemma MatchedToTarget(ctx: Context, target: View, v: View)
    requires ctx.Valid() && OnChain(ctx, target) && OnChain(ctx, v) && target.chain <= v.chain
    ensures MatchedTo(ctx, target, v).Some? ==>
              var v' := MatchedTo(ctx, target, v).value;
              && OnChain(ctx, v') && v'.chain == target.chain && v'.isZero == v.isZero
              && Matched(ctx, target, v') == Some((target, v'))
    ensures Matched(ctx, target, v).Some? ==> Matched(ctx, target, v).value.0 == target
  {}

  /** The ciphertext at position i is unflagged and one of the first k passes comes to its object. */
  ghost predicate IsLowered(ciphers: seq<SealCiphertextWrapper>, views: seq<View>, skip: nat, k: nat, i: nat)
    requires i < |ciphers| == |views|
  {
    !views[i].isZero && Visited(ciphers, skip, k, ciphers[i])
  }

  /** The ciphertexts after k passes of the second loop. */
  ghost predicate Stage(ciphers: seq<SealCiphertextWrapper>, views: seq<View>, goals: seq<Option<View>>, skip: nat, k: nat)
    requires |ciphers| == |views| == |goals|
    reads ciphers
  {
    forall i :: 0 <= i < |ciphers| ==>
      if IsLowered(ciphers, views, skip, k, i) then goals[i] == Some(ciphers[i].Contents()) else ciphers[i].Contents() == views[i]
  }

  /** One object has one view, wherever it is held. */
  ghost predicate Consistent(ciphers: seq<SealCiphertextWrapper>, views: seq<View>)
    requires |ciphers| == |views|
  {
    forall i, j :: 0 <= i < |ciphers| && 0 <= j < |ciphers| && ciphers[i] == ciphers[j] ==> views[i] == views[j]
  }

  lemma LoweredNext(ciphers: seq<SealCiphertextWrapper>, views: seq<View>, skip: nat, k: nat, i: nat)
    requires i < |ciphers| == |views| && k < |ciphers|
    ensures IsLowered(ciphers, views, skip, k + 1, i)
            <==> IsLowered(ciphers, views, skip, k, i) || (!views[i].isZero && ciphers[i] == ciphers[k] && k != skip)
  {
    if ciphers[i] == ciphers[k] && k != skip {
      assert Visited(ciphers, skip, k + 1, ciphers[k]);
    }
  }

  /** One pass of the second loop. */
  method LowerOne(ciphers: seq<SealCiphertextWrapper>, smallest: SealCiphertextWrapper, skip: nat, k: nat, ctx: Context,
                  ghost views: seq<View>, ghost goals: seq<Option<View>>)
    returns (r: Outcome)
    requires ctx.Valid() && OnChain(ctx, smallest.Contents()) && smallest !in ciphers && k < |ciphers| == |views|
    requires AllOnChain(ctx, views) && AreGoals(ctx, smallest.Contents(), views, goals) && Consistent(ciphers, views)
    requires !views[k].isZero ==> smallest.chain <= views[k].chain
    requires Stage(ciphers, views, goals, skip, k)
    modifies ciphers, smallest
    ensures smallest.Contents() == old(smallest.Contents())
    ensures r == Pass ==> Stage(ciphers, views, goals, skip, k + 1)
    ensures r.Fail? ==> IsLowered(ciphers, views, skip, |ciphers|, k) && goals[k] == None
  {
    var cipher := ciphers[k];
    r := Pass;
    if smallest.chain <= views[k].chain {
      MatchedToTarget(ctx, smallest.Contents(), views[k]);
    }
    if !cipher.isZero && k != skip {
      r := VisitOne(smallest, cipher, ctx, views[k]);
      assert Visited(ciphers, skip, |ciphers|, cipher);
    }
    forall i | 0 <= i < |ciphers| && r == Pass
      ensures if IsLowered(ciphers, views, skip, k + 1, i) then goals[i] == Some(ciphers[i].Contents())
              else ciphers[i].Contents() == views[i]
    {
      LoweredNext(ciphers, views, skip, k, i);
    }
  }

  /** The second loop: every unflagged ciphertext but the one at the skipped position is matched to the copy. */
  method LowerAll(ciphers: seq<SealCiphertextWrapper>, smallest: SealCiphertextWrapper, skip: nat, ctx: Context,
                  ghost views: seq<View>, ghost goals: seq<Option<View>>)
    returns (r: Outcome)
    requires ctx.Valid() && OnChain(ctx, smallest.Contents()) && smallest !in ciphers
    requires Holds(ciphers, views) && AllOnChain(ctx, views) && AreGoals(ctx, smallest.Contents(), views, goals)
    requires forall i :: 0 <= i < |views| && !views[i].isZero ==> smallest.chain <= views[i].chain
    modifies ciphers, smallest
    ensures smallest.Contents() == old(smallest.Contents())
    ensures r == Pass ==> Stage(ciphers, views, goals, skip, |ciphers|)
    ensures r.Fail? ==> exists i :: 0 <= i < |ciphers| && IsLowered(ciphers, views, skip, |ciphers|, i) && goals[i] == None
  {
    r := Pass;
    for k := 0 to |ciphers|
      invariant r == Pass && smallest.Contents() == old(smallest.Contents())
      invariant Stage(ciphers, views, goals, skip, k)
    {
      r := LowerOne(ciphers, smallest, skip, k, ctx, views, goals);
      if r.Fail? {
        return;
      }
    }
  }

  /** The tensor after its ciphertexts, all but the one at the skipped position, are matched to the one at position p. */
  ghost function MatchedFrom(ctx: Context, ciphers: seq<SealCiphertextWrapper>, views: seq<View>, p: nat, skip: nat): (r: Option<seq<View>>)
    requires ctx.Valid() && AllOnChain(ctx, views) && p < |ciphers| == |views|
    ensures r.Some? ==> |r.value| == |views|
  {
    if exists i :: 0 <= i < |views| && IsLowered(ciphers, views, skip, |ciphers|, i) && MatchedTo(ctx, views[p], views[i]) == None then None
    else Some(seq(|views|, i requires 0 <= i < |views| =>
      if IsLowered(ciphers, views, skip, |ciphers|, i) then MatchedTo(ctx, views[p], views[i]).value else views[i]))
  }

  /**
   * What match_to_smallest_chain_index leaves of a tensor, or None where it
   * throws. The skipped index is compared with a chain index where the position
   * was meant.
   */
  ghost function MatchedTensor(ctx: Context, ciphers: seq<SealCiphertextWrapper>, views: seq<View>): (r: Option<seq<View>>)
    requires ctx.Valid() && AllOnChain(ctx, views) && |ciphers| == |views|
    ensures r.Some? ==> |r.value| == |views|
  {
    match Smallest(views)
    case None => None
    case Some(p) => MatchedFrom(ctx, ciphers, views, p, views[p].chain)
  }

  /** Both loops, with the position to be skipped left open. */
  method LowerToSmallest(ciphers: seq<SealCiphertextWrapper>, pos: nat, skip: nat, ctx: Context) returns (r: Outcome)
    requires ctx.Valid() && AllOnChain(ctx, Views(ciphers)) && Smallest(Views(ciphers)) == Some(pos)
    modifies ciphers
    ensures match MatchedFrom(ctx, ciphers, old(Views(ciphers)), pos, skip)
            case Some(after) => r == Pass && Views(ciphers) == after
            case None => r.Fail?
  {
    var smallestCipher := new SealCiphertextWrapper.Copy(ciphers[pos]);
    ghost var views := Views(ciphers);
    ghost var goals := seq(|views|, i requires 0 <= i < |views| => MatchedTo(ctx, views[pos], views[i]));
    r := LowerAll(ciphers, smallestCipher, skip, ctx, views, goals);
    StageIsMatched(ctx, ciphers, views, pos, skip, goals, Views(ciphers));
  }

  lemma StageIsMatched(ctx: Context, ciphers: seq<SealCiphertextWrapper>, views: seq<View>, p: nat, skip: nat,
                       goals: seq<Option<View>>, after: seq<View>)
    requires ctx.Valid() && AllOnChain(ctx, views) && p < |ciphers| == |views| == |after| && AreGoals(ctx, views[p], views, goals)
    ensures (exists i :: 0 <= i < |ciphers| && IsLowered(ciphers, views, skip, |ciphers|, i) && goals[i] == None)
            ==> MatchedFrom(ctx, ciphers, views, p, skip) == None
    ensures (forall i :: 0 <= i < |ciphers| ==>
              if IsLowered(ciphers, views, skip, |ciphers|, i) then goals[i] == Some(after[i]) else after[i] == views[i])
            ==> MatchedFrom(ctx, ciphers, views, p, skip) == Some(after)
  {
    if forall i :: 0 <= i < |ciphers| ==>
         if IsLowered(ciphers, views, skip, |ciphers|, i) then goals[i] == Some(after[i]) else after[i] == views[i]
    {
      assert MatchedFrom(ctx, ciphers, views, p, skip).value == after;
    }
  }

  method MatchToSmallestChainIndex(ciphers: seq<SealCiphertextWrapper>, ctx: Context) returns (r: Result<nat>)
    requires ctx.Valid() && AllOnChain(ctx, Views(ciphers))
    modifies ciphers
    ensures match MatchedTensor(ctx, ciphers, old(Views(ciphers)))
            case Some(after) =>
              r == Ok(old(Views(ciphers))[Smallest(old(Views(ciphers))).value].chain) && Views(ciphers) == after
            case None => r.Err?
  {
    var smallest := FindSmallest(ciphers);
    if smallest == None {
      return Err("no nonzero ciphertext");
    }
    var chainInd := ciphers[smallest.value].chain;
    var lowered := LowerToSmallest(ciphers, smallest.value, chainInd, ctx);
    return if lowered.Fail? then Err(lowered.reason) else Ok(chainInd);
  }

  /** The same with the comparison that was meant. */
  method MatchToSmallestPosition(ciphers: seq<SealCiphertextWrapper>, ctx: Context) returns (r: Result<nat>)
    requires ctx.Valid() && AllOnChain(ctx, Views(ciphers))
    modifies ciphers
    ensures match Smallest(old(Views(ciphers)))
            case None => r.Err?
            case Some(p) =>
              match MatchedFrom(ctx, ciphers, old(Views(ciphers)), p, p)
              case Some(after) => r == Ok(old(Views(ciphers))[p].chain) && Views(ciphers) == after
              case None => r.Err?
  {
    var smallest := FindSmallest(ciphers);
    if smallest == None {
      return Err("no nonzero ciphertext");
    }
    var chainInd := ciphers[smallest.value].chain;
    var lowered := LowerToSmallest(ciphers, smallest.value, smallest.value, ctx);
    return if lowered.Fail? then Err(lowered.reason) else Ok(chainInd);
  }

  /** A tensor after matching: lowered ciphertexts are at the smallest level and within the drift, others are as they were. */
  lemma LoweredViews(ctx: Context, ciphers: seq<SealCiphertextWrapper>, views: seq<View>, p: nat, skip: nat, i: nat)
    requires ctx.Valid() && AllOnChain(ctx, views) && |ciphers| == |views| && Smallest(views) == Some(p)
    requires MatchedFrom(ctx, ciphers, views, p, skip).Some? && i < |views|
    ensures var after := MatchedFrom(ctx, ciphers, views, p, skip).value;
            && after[i].isZero == views[i].isZero && |after[i].slots| == |views[i].slots|
            && (IsLowered(ciphers, views, skip, |ciphers|, i) ==> after[i].chain == views[p].chain)
            && (!IsLowered(ciphers, views, skip, |ciphers|, i) || views[i].chain == views[p].chain ==> after[i] == views[i])
            && CloseTo(views[i].slots, after[i].slots)
  {
    SelfClose(views[i].slots);
    if IsLowered(ciphers, views, skip, |ciphers|, i) {
      MatchedLevels(ctx, views[p], views[i]);
    }
  }

  /** Lowering a tensor keeps the message of every ciphertext above the target. */
  lemma TensorKeepsMessages(ctx: Context, ciphers: seq<SealCiphertextWrapper>, views: seq<View>, p: nat, skip: nat, i: nat)
    requires ctx.Valid() && AllOnChain(ctx, views) && |ciphers| == |views| && Smallest(views) == Some(p)
    requires MatchedFrom(ctx, ciphers, views, p, skip).Some? && i < |views|
    requires IsLowered(ciphers, views, skip, |ciphers|, i) && views[i].chain > views[p].chain
    ensures KeepsMessage(ctx, views[i], MatchedFrom(ctx, ciphers, views, p, skip).value[i], views[p])
  {
    hide KeepsMessage, Lowered;
    MatchedIsSymmetric(ctx, views[p], views[i]);
    MatchingKeepsMessage(ctx, views[i], views[p]);
  }

  /**
   * As written: an unflagged ciphertext ends at the smallest chain index exactly
   * when it was there already or is held at a position other than that index.
   */
  lemma AsWritten(ctx: Context, ciphers: seq<SealCiphertextWrapper>, views: seq<View>, i: nat)
    requires ctx.Valid() && AllOnChain(ctx, views) && |ciphers| == |views| && i < |views| && !views[i].isZero
    requires MatchedTensor(ctx, ciphers, views).Some?
    ensures var least := views[Smallest(views).value].chain;
            var after := MatchedTensor(ctx, ciphers, views).value;
            && least <= views[i].chain && !after[i].isZero
            && (after[i].chain == least <==> views[i].chain == least || Visited(ciphers, least, |ciphers|, ciphers[i]))
  {
    var p := Smallest(views).value;
    LoweredViews(ctx, ciphers, views, p, views[p].chain, i);
  }

  /** As meant: every unflagged ciphertext ends at the smallest chain index. */
  lemma AsMeant(ctx: Context, ciphers: seq<SealCiphertextWrapper>, views: seq<View>, p: nat, i: nat)
    requires ctx.Valid() && AllOnChain(ctx, views) && |ciphers| == |views| && i < |views| && !views[i].isZero
    requires Smallest(views) == Some(p) && MatchedFrom(ctx, ciphers, views, p, p).Some?
    ensures var after := MatchedFrom(ctx, ciphers, views, p, p).value;
            after[i].chain == views[p].chain <= views[i].chain && !after[i].isZero
  {
    LoweredViews(ctx, ciphers, views, p, p, i);
    if i != p {
      assert Visited(ciphers, p, |ciphers|, ciphers[i]);
    }
  }

  /** Two ciphertexts at chain indices 1 and 2: the second stays where it is, because its position is 1. */
  method PositionOneIsSkipped(ctx: Context) returns (chains: seq<nat>)
    requires ctx.Valid() && |ctx.primes| > 2
    ensures chains == [1, 2]
  {
    var low := new SealCiphertextWrapper([]);
    var high := new SealCiphertextWrapper([]);
    low.Set(View(false, false, 1, 1.0, []));
    high.Set(View(false, false, 2, 1.0, []));
    var ciphers := [low, high];
    ghost var views := Views(ciphers);
    OnlyTheFirst(ctx, ciphers, views);
    var r := MatchToSmallestChainIndex(ciphers, ctx);
    assert low.Contents() == Views(ciphers)[0] && high.Contents() == Views(ciphers)[1];
    chains := [low.chain, high.chain];
  }

  /** With chain indices 1 and 2 the loop passes over position 1 and leaves the tensor as it was. */
  lemma OnlyTheFirst(ctx: Context, ciphers: seq<SealCiphertextWrapper>, views: seq<View>)
    requires ctx.Valid() && AllOnChain(ctx, views) && |ciphers| == |views| == 2 && ciphers[0] != ciphers[1]
    requires !views[0].isZero && !views[1].isZero && views[0].chain == 1 && views[1].chain == 2
    ensures MatchedTensor(ctx, ciphers, views) == Some(views)
  {
    assert views[..1] == [views[0]];
    assert Smallest([views[0]]) == Some(0);
    assert !Visited(ciphers, 1, 2, ciphers[1]);
    assert MatchedFrom(ctx, ciphers, views, 0, 1).value == views;
  }
}
