/**
 * The accumulation step that convolution and dot share: multiply a ciphertext
 * by a plaintext weight into a fresh ciphertext and add it to the running sum,
 * which the first product starts. Products at different levels are matched when
 * they are added. A matching that changes anything lowers a chain index, so what
 * a term can be off by is bounded by how far apart the inputs' levels are, and
 * inputs at one level are added up exactly.
 */
module WeightedSums {
  import opened Outcomes
  import opened RealArithmetic
  import opened ComplexNumbers
  import opened SealCiphertext
  import opened LevelMatching
  import opened ScalarKernels
  import opened ZeroFlags

  // ------------------------------------------------------------- sums with drift

  /** A sum of slot vectors. */
  function Sum(terms: seq<Slots>, width: nat): (s: Slots)
    requires forall i :: 0 <= i < |terms| ==> |terms[i]| == width
    ensures |s| == width
  {
    if terms == [] then Zeros(width) else AddSlots(Sum(terms[..|terms| - 1], width), terms[|terms| - 1])
  }

  lemma TakeNext<T>(xs: seq<T>, k: nat)
    requires k < |xs|
    ensures xs[..k + 1] == xs[..k] + [xs[k]]
  {}

  function ScaleSlots(s: Slots, f: real): (t: Slots)
    ensures |t| == |s| && forall i :: 0 <= i < |s| ==> t[i] == Scale(s[i], f)
  {
    MapSlots(z => Scale(z, f), s)
  }

  /** The same with every term scaled by a factor of its own. */
  function Weighed(terms: seq<Slots>, factors: seq<real>, width: nat): (s: Slots)
    requires |terms| == |factors| && forall i :: 0 <= i < |terms| ==> |terms[i]| == width
    ensures |s| == width
  {
    if terms == [] then Zeros(width)
    else
      var k := |terms| - 1;
      AddSlots(Weighed(terms[..k], factors[..k], width), ScaleSlots(terms[k], factors[k]))
  }

  /** The largest factor that n matchings can amount to. */
  function MaxDrift(n: nat): (f: real)
    ensures f >= 1.0
  {
    if n == 0 then 1.0 else
      var f := MaxDrift(n - 1);
      RealMulMono(1.0, FACTOR, f);
      FACTOR * f
  }

  predicate Drifts(f: real, n: nat)
  {
    f <= MaxDrift(n) && 1.0 <= f * MaxDrift(n)
  }

  lemma DriftsPositive(f: real, n: nat)
    requires Drifts(f, n)
    ensures f > 0.0
  {
    if f <= 0.0 { RealMulMono(f, 0.0, MaxDrift(n)); }
  }

  lemma DriftNext(f: real, n: nat, g: real)
    requires Drifts(f, n) && IsDriftFactor(g)
    ensures Drifts(f * g, n + 1)
  {
    var m := MaxDrift(n);
    DriftsPositive(f, n);
    RealMulMono(g, FACTOR, f);
    RealMulMono(f, m, FACTOR);
    assert f * g <= FACTOR * m;
    RealMulMono(1.0, g * FACTOR, f * m);
    assert (g * FACTOR) * (f * m) == (f * g) * (FACTOR * m);
  }

  lemma DriftMore(f: real, n: nat)
    requires Drifts(f, n)
    ensures Drifts(f, n + 1)
  {
    DriftNext(f, n, 1.0);
    assert f * 1.0 == f;
  }

  /** s is the sum of the terms, each scaled by what at most n matchings can do to it. */
  ghost predicate Sums(terms: seq<Slots>, s: Slots, n: nat)
  {
    (forall i :: 0 <= i < |terms| ==> |terms[i]| == |s|) && exists factors :: IsWeighed(terms, factors, s, n)
  }

  predicate IsWeighed(terms: seq<Slots>, factors: seq<real>, s: Slots, n: nat)
    requires forall i :: 0 <= i < |terms| ==> |terms[i]| == |s|
  {
    && |factors| == |terms| && s == Weighed(terms, factors, |s|)
    && forall i :: 0 <= i < |factors| ==> Drifts(factors[i], n)
  }

  lemma ScaleAdd(a: Slots, b: Slots, g: real)
    requires |a| == |b|
    ensures ScaleSlots(AddSlots(a, b), g) == AddSlots(ScaleSlots(a, g), ScaleSlots(b, g))
  {
    forall i | 0 <= i < |a| ensures Scale(Add(a[i], b[i]), g) == Add(Scale(a[i], g), Scale(b[i], g)) {
      Distribute(a[i].re, b[i].re, g);
      Distribute(a[i].im, b[i].im, g);
    }
  }

  lemma Distribute(x: real, y: real, g: real)
    ensures (x + y) * g == x * g + y * g
  {}

  lemma ScaleTwice(a: Slots, f: real, g: real, h: real)
    requires h == f * g
    ensures ScaleSlots(ScaleSlots(a, f), g) == ScaleSlots(a, h)
  {
    forall i | 0 <= i < |a| ensures ScaleSlots(ScaleSlots(a, f), g)[i] == ScaleSlots(a, h)[i] {
      assert (a[i].re * f) * g == a[i].re * (f * g) && (a[i].im * f) * g == a[i].im * (f * g);
    }
  }

  function Times(factors: seq<real>, g: real): (r: seq<real>)
    ensures |r| == |factors| && forall i :: 0 <= i < |r| ==> r[i] == factors[i] * g
  {
    seq(|factors|, i requires 0 <= i < |factors| => factors[i] * g)
  }

  lemma TimesPrefix(factors: seq<real>, g: real, k: nat)
    requires k <= |factors|
    ensures Times(factors, g)[..k] == Times(factors[..k], g)
  {
    forall i | 0 <= i < k ensures Times(factors, g)[..k][i] == Times(factors[..k], g)[i] {
      assert factors[..k][i] == factors[i];
    }
  }

  lemma {:induction false} ScaleWeighed(terms: seq<Slots>, factors: seq<real>, width: nat, g: real)
    requires |terms| == |factors| && forall i :: 0 <= i < |terms| ==> |terms[i]| == width
    ensures ScaleSlots(Weighed(terms, factors, width), g) == Weighed(terms, Times(factors, g), width)
  {
    if terms == [] {
      assert ScaleSlots(Zeros(width), g) == Zeros(width);
    } else {
      var k := |terms| - 1;
      ScaleWeighed(terms[..k], factors[..k], width, g);
      var scaled := Times(factors, g);
      var w, t := Weighed(terms[..k], factors[..k], width), ScaleSlots(terms[k], factors[k]);
      TimesPrefix(factors, g, k);
      ScaleAdd(w, t, g);
      ScaleTwice(terms[k], factors[k], g, scaled[k]);
      assert Weighed(terms, scaled, width) == AddSlots(Weighed(terms[..k], scaled[..k], width), ScaleSlots(terms[k], scaled[k]));
    }
  }

  lemma WeighedSnoc(terms: seq<Slots>, factors: seq<real>, t: Slots, f: real, width: nat)
    requires |terms| == |factors| && |t| == width && forall i :: 0 <= i < |terms| ==> |terms[i]| == width
    ensures Weighed(terms + [t], factors + [f], width) == AddSlots(Weighed(terms, factors, width), ScaleSlots(t, f))
  {
    assert (terms + [t])[..|terms|] == terms && (factors + [f])[..|terms|] == factors;
  }

  /** With no matching at all the sum is exact. */
  lemma {:induction false} SumsExactly(terms: seq<Slots>, s: Slots)
    requires forall i :: 0 <= i < |terms| ==> |terms[i]| == |s|
    ensures Sums(terms, s, 0) <==> s == Sum(terms, |s|)
  {
    var ones := seq(|terms|, _ => 1.0);
    OnesWeigh(terms, |s|);
    if s == Sum(terms, |s|) {
      assert IsWeighed(terms, ones, s, 0);
    }
    if Sums(terms, s, 0) {
      var factors :| IsWeighed(terms, factors, s, 0);
      forall i | 0 <= i < |factors| ensures factors[i] == 1.0 {
        assert Drifts(factors[i], 0) && MaxDrift(0) == 1.0;
      }
      assert factors == ones;
    }
  }

  lemma {:induction false} OnesWeigh(terms: seq<Slots>, width: nat)
    requires forall i :: 0 <= i < |terms| ==> |terms[i]| == width
    ensures Weighed(terms, seq(|terms|, _ => 1.0), width) == Sum(terms, width)
  {
    if terms == [] {
    } else {
      var k := |terms| - 1;
      OnesWeigh(terms[..k], width);
      assert seq(|terms|, _ => 1.0)[..k] == seq(k, _ => 1.0);
      ScaleByOne(terms[k]);
    }
  }

  lemma ScaleByOne(s: Slots)
    ensures ScaleSlots(s, 1.0) == s
  {
    forall i | 0 <= i < |s| ensures ScaleSlots(s, 1.0)[i] == s[i] {
      assert s[i] == Complex(s[i].re, s[i].im);
    }
  }

  lemma SumsNone(width: nat, n: nat)
    ensures Sums([], Zeros(width), n)
  {
    var none: seq<Slots> := [];
    assert IsWeighed(none, [], Zeros(width), n);
  }

  lemma {:induction false} OneDrifts(n: nat)
    ensures Drifts(1.0, n)
  {
    if n == 0 {
    } else {
      OneDrifts(n - 1);
      DriftMore(1.0, n - 1);
    }
  }

  lemma {:induction false} DriftUpTo(f: real, n: nat, m: nat)
    requires Drifts(f, n) && n <= m
    ensures Drifts(f, m)
  {
    if n == m {
    } else {
      DriftUpTo(f, n, m - 1);
      DriftMore(f, m - 1);
    }
  }

  lemma {:induction false} MaxDriftAdds(n: nat, d: nat)
    ensures MaxDrift(n + d) == MaxDrift(n) * MaxDrift(d)
    ensures MaxDrift(0) == 1.0 && MaxDrift(1) == 1.02
  {
    if d == 0 {
    } else {
      MaxDriftAdds(n, d - 1);
      var m, e := MaxDrift(n), MaxDrift(d - 1);
      assert m * (FACTOR * e) == FACTOR * (m * e);
    }
  }

  lemma DriftsMultiply(f: real, n: nat, g: real, d: nat, p: real)
    requires Drifts(f, n) && Drifts(g, d) && p == f * g
    ensures Drifts(p, n + d)
  {
    hide MaxDrift;
    var m, e := MaxDrift(n), MaxDrift(d);
    MaxDriftAdds(n, d);
    DriftsPositive(f, n);
    DriftsPositive(g, d);
    ProductsBelow(f, m, g, e);
    ProductsAbove(f, m, g, e);
  }

  lemma ProductsBelow(f: real, m: real, g: real, e: real)
    requires 0.0 < f <= m && 0.0 < g <= e
    ensures f * g <= m * e
  {
    RealMulMono(f, m, g);
    RealMulMono(g, e, m);
    assert m * g == g * m && m * e == e * m;
  }

  lemma ProductsAbove(f: real, m: real, g: real, e: real)
    requires 1.0 <= f * m && 1.0 <= g * e
    ensures 1.0 <= (f * g) * (m * e)
  {
    var x, y := f * m, g * e;
    RealMulMono(1.0, x, y);
    assert x * y == (f * g) * (m * e);
  }

  /** t is s scaled by what at most n matchings can do to it. */
  ghost predicate ScaledBy(s: Slots, t: Slots, n: nat)
  {
    exists g :: Drifts(g, n) && t == ScaleSlots(s, g)
  }

  lemma ScaledSelf(s: Slots, n: nat)
    ensures ScaledBy(s, s, n)
  {
    OneDrifts(n);
    ScaleByOne(s);
  }

  lemma ScaledUpTo(s: Slots, t: Slots, n: nat, m: nat)
    requires ScaledBy(s, t, n) && n <= m
    ensures ScaledBy(s, t, m)
  {
    var g :| Drifts(g, n) && t == ScaleSlots(s, g);
    DriftUpTo(g, n, m);
  }

  lemma CloseIsScaled(s: Slots, t: Slots)
    requires CloseTo(s, t)
    ensures ScaledBy(s, t, 1)
  {
    var h :| IsDriftFactor(h) && forall i :: 0 <= i < |s| ==> t[i] == Scale(s[i], h);
    assert MaxDrift(1) == FACTOR * MaxDrift(0);
    assert t == ScaleSlots(s, h) && Drifts(h, 1);
  }

  lemma ScaledAgain(s: Slots, t: Slots, u: Slots, n: nat, d: nat)
    requires ScaledBy(s, t, n) && ScaledBy(t, u, d)
    ensures ScaledBy(s, u, n + d)
  {
    var g :| Drifts(g, n) && t == ScaleSlots(s, g);
    var h :| Drifts(h, d) && u == ScaleSlots(t, h);
    var p := g * h;
    DriftsMultiply(g, n, h, d, p);
    ScaleTwice(s, g, h, p);
  }

  /** A scaled sum is a sum whose terms have drifted further. */
  lemma SumsScaled(terms: seq<Slots>, s: Slots, w: Slots, n: nat, d: nat)
    requires Sums(terms, s, n) && ScaledBy(s, w, d)
    ensures Sums(terms, w, n + d)
  {
    hide Drifts, Weighed;
    var factors :| IsWeighed(terms, factors, s, n);
    var g :| Drifts(g, d) && w == ScaleSlots(s, g);
    ScaleWeighed(terms, factors, |s|, g);
    TimesDrift(factors, n, g, d);
    assert IsWeighed(terms, Times(factors, g), w, n + d);
  }

  lemma TimesDrift(factors: seq<real>, n: nat, g: real, d: nat)
    requires Drifts(g, d) && forall i :: 0 <= i < |factors| ==> Drifts(factors[i], n)
    ensures forall i :: 0 <= i < |factors| ==> Drifts(Times(factors, g)[i], n + d)
  {
    hide Drifts;
    forall i | 0 <= i < |factors| ensures Drifts(Times(factors, g)[i], n + d) {
      DriftsMultiply(factors[i], n, g, d, Times(factors, g)[i]);
    }
  }

  lemma SumsUpTo(terms: seq<Slots>, s: Slots, n: nat, m: nat)
    requires Sums(terms, s, n) && n <= m
    ensures Sums(terms, s, m)
  {
    ScaledSelf(s, m - n);
    SumsScaled(terms, s, s, n, m - n);
  }

  /** One more term, which may have drifted as far as the others. */
  lemma SumsJoin(terms: seq<Slots>, s: Slots, n: nat, t: Slots, w: Slots)
    requires Sums(terms, s, n) && |t| == |s| && ScaledBy(t, w, n)
    ensures Sums(terms + [t], AddSlots(s, w), n)
  {
    var factors :| IsWeighed(terms, factors, s, n);
    var g :| Drifts(g, n) && w == ScaleSlots(t, g);
    WeighedSnoc(terms, factors, t, g, |s|);
    assert forall i :: 0 <= i < |factors| ==> (factors + [g])[i] == factors[i];
    assert IsWeighed(terms + [t], factors + [g], AddSlots(s, w), n);
  }

  // ------------------------------------------------------------- levels and drift

  /** A range of chain indices. */
  datatype Levels = Levels(lo: nat, hi: nat)

  /** An unflagged ciphertext is at one of these levels. */
  predicate InLevels(l: Levels, v: View)
  {
    !v.isZero ==> l.lo <= v.chain <= l.hi
  }

  predicate AllFlagged(views: seq<View>)
  {
    forall i :: 0 <= i < |views| ==> views[i].isZero
  }

  /** The least and greatest chain index of the unflagged ciphertexts. */
  function LevelsOf(views: seq<View>): (l: Levels)
    ensures l.lo <= l.hi && forall i :: 0 <= i < |views| ==> InLevels(l, views[i])
  {
    if views == [] then Levels(0, 0)
    else
      var front, v := views[..|views| - 1], views[|views| - 1];
      var l := LevelsOf(front);
      assert forall i :: 0 <= i < |front| ==> front[i] == views[i];
      if v.isZero then l
      else if AllFlagged(front) then Levels(v.chain, v.chain)
      else Levels(if v.chain < l.lo then v.chain else l.lo, if v.chain > l.hi then v.chain else l.hi)
  }

  lemma {:induction false} LevelsAreTaken(views: seq<View>)
    ensures AllFlagged(views) ==> LevelsOf(views).lo == LevelsOf(views).hi
    ensures !AllFlagged(views) ==>
              && (exists i :: 0 <= i < |views| && !views[i].isZero && views[i].chain == LevelsOf(views).lo)
              && (exists i :: 0 <= i < |views| && !views[i].isZero && views[i].chain == LevelsOf(views).hi)
  {
    if views == [] {
    } else {
      var k := |views| - 1;
      var front, l := views[..k], LevelsOf(views);
      LevelsAreTaken(front);
      if !AllFlagged(front) {
        var i :| 0 <= i < k && !front[i].isZero && front[i].chain == LevelsOf(front).lo;
        var j :| 0 <= j < k && !front[j].isZero && front[j].chain == LevelsOf(front).hi;
        assert !views[i].isZero && !views[j].isZero && views[i].chain == front[i].chain && views[j].chain == front[j].chain;
        assert l.lo == views[k].chain || l.lo == views[i].chain;
        assert l.hi == views[k].chain || l.hi == views[j].chain;
      } else {
        assert forall i :: 0 <= i < k ==> views[i] == front[i];
        assert !views[k].isZero ==> l == Levels(views[k].chain, views[k].chain);
      }
    }
  }

  /** How far apart the levels are. */
  function Spread(views: seq<View>): nat
  {
    LevelsOf(views).hi - LevelsOf(views).lo
  }

  /** It is the largest difference of two unflagged ciphertexts' chain indices, so 0 exactly if all are at one level. */
  lemma SpreadIsLargest(views: seq<View>)
    ensures forall i, j :: 0 <= i < |views| && 0 <= j < |views| && !views[i].isZero && !views[j].isZero ==>
              views[i].chain - views[j].chain <= Spread(views)
    ensures Spread(views) > 0 ==>
              exists i, j :: 0 <= i < |views| && 0 <= j < |views| && !views[i].isZero && !views[j].isZero
                             && views[i].chain - views[j].chain == Spread(views)
  {
    LevelsAreTaken(views);
    var l := LevelsOf(views);
    forall i, j | 0 <= i < |views| && 0 <= j < |views| && !views[i].isZero && !views[j].isZero
      ensures views[i].chain - views[j].chain <= Spread(views)
    {
      assert InLevels(l, views[i]) && InLevels(l, views[j]);
    }
    if l.lo < l.hi {
      var i :| 0 <= i < |views| && !views[i].isZero && views[i].chain == l.hi;
      var j :| 0 <= j < |views| && !views[j].isZero && views[j].chain == l.lo;
    }
  }

  /** v denotes t, off by what as many matchings as it can have been through have done. */
  ghost predicate HoldsTerm(l: Levels, t: Slots, v: View)
  {
    InLevels(l, v) && if v.isZero then t == v.Value() else ScaledBy(t, v.slots, l.hi - v.chain)
  }

  /** v denotes the sum of the terms, each off by that much. */
  ghost predicate HoldsSum(l: Levels, terms: seq<Slots>, v: View)
  {
    InLevels(l, v) && Sums(terms, v.Value(), if v.isZero then 0 else l.hi - v.chain)
  }

  lemma HoldsFinally(l: Levels, terms: seq<Slots>, v: View)
    requires HoldsSum(l, terms, v) && l.lo <= l.hi
    ensures Sums(terms, v.Value(), l.hi - l.lo)
  {
    SumsUpTo(terms, v.Value(), if v.isZero then 0 else l.hi - v.chain, l.hi - l.lo);
  }

  lemma HoldsItself(l: Levels, v: View)
    requires InLevels(l, v)
    ensures HoldsTerm(l, v.Value(), v)
  {
    if !v.isZero { ScaledSelf(v.slots, l.hi - v.chain); }
  }

  /** A ciphertext that nothing but zeros went before is the whole sum. */
  lemma HoldsFirst(l: Levels, terms: seq<Slots>, t: Slots, v: View)
    requires HoldsTerm(l, t, v) && Sums(terms, Zeros(|v.slots|), 0)
    ensures HoldsSum(l, terms + [t], v)
  {
    var width, n := |v.slots|, if v.isZero then 0 else l.hi - v.chain;
    if v.isZero { ScaledSelf(t, 0); }
    var w := v.Value();
    assert ScaledBy(t, w, n);
    SumsUpTo(terms, Zeros(width), 0, n);
    SumsJoin(terms, Zeros(width), n, t, w);
    AddZeros(w, width);
  }

  /** Matching leaves a term that has drifted by one more at most, for at least one level. */
  lemma HoldsMatched(b: Backend, l: Levels, t: Slots, v0: View, v1: View)
    requires b.Valid() && Usable(b, v0) && Usable(b, v1) && !v0.isZero && !v1.isZero && Matched(b.ctx, v0, v1).Some?
    requires InLevels(l, v0) && HoldsTerm(l, t, v1)
    ensures HoldsTerm(l, t, Matched(b.ctx, v0, v1).value.1)
  {
    var v := Matched(b.ctx, v0, v1).value.1;
    MatchedLevels(b.ctx, v0, v1);
    MatchedScales(v1, v);
    ScaledAgain(t, v1.slots, v.slots, l.hi - v1.chain, v1.chain - v.chain);
  }

  lemma MatchedScales(was: View, now: View)
    requires CloseTo(was.slots, now.slots) && now.chain <= was.chain && (now.chain == was.chain ==> now == was)
    ensures ScaledBy(was.slots, now.slots, was.chain - now.chain)
  {
    if now.chain == was.chain {
      ScaledSelf(was.slots, 0);
    } else {
      CloseIsScaled(was.slots, now.slots);
      ScaledUpTo(was.slots, now.slots, 1, was.chain - now.chain);
    }
  }

  /** The sum so far and a term, brought to one level and added. */
  lemma HoldsNext(b: Backend, l: Levels, terms: seq<Slots>, v0: View, t: Slots, v1: View, o: View)
    requires b.Valid() && Usable(b, v0) && Usable(b, v1) && AddCC(b, v0, v1, o).Ok? && |o.slots| == b.slotCount
    requires HoldsSum(l, terms, v0) && HoldsTerm(l, t, v1) && |t| == b.slotCount
    ensures HoldsSum(l, terms + [t], AddCC(b, v0, v1, o).value)
  {
    hide Sums, ScaledBy, CloseTo;
    var n, v := b.slotCount, AddCC(b, v0, v1, o).value;
    if v0.isZero {
      if v1.isZero {
        HoldsFirst(l, terms, t, v);
      } else {
        HoldsFirst(l, terms, t, v1);
      }
    } else if v1.isZero {
      ScaledSelf(t, l.hi - v0.chain);
      SumsJoin(terms, v0.slots, l.hi - v0.chain, t, t);
      AddZeros(v0.slots, n);
    } else {
      HoldsMatched(b, l, t, v0, v1);
      var (w0, w1) := Matched(b.ctx, v0, v1).value;
      MatchedLevels(b.ctx, v0, v1);
      MatchedScales(v0, w0);
      SumsScaled(terms, v0.slots, w0.slots, l.hi - v0.chain, v0.chain - w0.chain);
      SumsJoin(terms, w0.slots, l.hi - w0.chain, t, w1.slots);
    }
  }

  /** A term of zeros changes nothing. */
  lemma SumsSkip(terms: seq<Slots>, s: Slots, n: nat)
    requires Sums(terms, s, n)
    ensures Sums(terms + [Zeros(|s|)], s, n)
  {
    ScaledSelf(Zeros(|s|), n);
    SumsJoin(terms, s, n, Zeros(|s|), Zeros(|s|));
    AddZeros(s, |s|);
  }

  // -------------------------------------------------------------- one accumulation

  /** Level, scale and packing shared by a tensor's unflagged ciphertexts. */
  datatype Common = Common(chain: nat, scale: real, packed: bool)

  predicate Conforms(b: Backend, c: Common, v: View)
  {
    && |v.slots| == b.slotCount
    && (!v.isZero ==> v.chain == c.chain && v.scale == c.scale && v.packed == c.packed)
  }

  function Squared(c: Common): Common
  {
    c.(scale := Square(c.scale))
  }

  /** A weight the multiplication kernel accepts at this level. */
  predicate GoodWeight(b: Backend, c: Common, p: HEPlaintext)
  {
    EncodeSlots(p, b.slotCount).Ok? && (p.IsSingleValue() || c.chain > 0)
  }

  function Term(b: Backend, v: View, p: HEPlaintext): (t: Slots)
    requires |v.slots| == b.slotCount && EncodeSlots(p, b.slotCount).Ok?
    ensures |t| == b.slotCount
  {
    MultiplySlots(v.Value(), Factor(b, p))
  }

  ghost predicate GoodLevel(b: Backend, c: Common)
  {
    b.Valid() && c.chain < |b.ctx.primes| && c.scale > 0.0
  }

  /** One level, scale and packing throughout. */
  ghost predicate UniformCells(b: Backend, c: Common, cells: seq<View>)
  {
    GoodLevel(b, c) && forall i :: 0 <= i < |cells| ==> Conforms(b, c, cells[i])
  }

  /** The same, with weights that can be multiplied in. */
  ghost predicate Uniform(b: Backend, c: Common, args: seq<View>, weights: seq<HEPlaintext>)
  {
    UniformCells(b, c, args) && forall i :: 0 <= i < |weights| ==> GoodWeight(b, c, weights[i])
  }

  /** No product of a ciphertext and a weight is one that SEAL refuses and the kernel passes over. */
  ghost predicate NothingSwallowed(b: Backend, args: seq<View>, weights: seq<HEPlaintext>)
  {
    forall i, j :: 0 <= i < |args| && 0 <= j < |weights| ==> !Swallowed(b, args[i], weights[j])
  }

  /**
   * What is known of a kernel's inputs: the levels they are at, whether no
   * product is swallowed (clean), and whether every call is bound to pass (sure),
   * because all have one level, scale and packing and SEAL refuses nothing.
   */
  datatype Inputs = Inputs(levels: Levels, common: Common, clean: bool, sure: bool)

  ghost function InputsOf(b: Backend, c: Common, args: seq<View>, weights: seq<HEPlaintext>): Inputs
  {
    Inputs(LevelsOf(args), c, NothingSwallowed(b, args, weights), Uniform(b, c, args, weights) && b.RefusesNothing())
  }

  /** What that says of one ciphertext. */
  ghost predicate CellFits(b: Backend, k: Inputs, v: View)
  {
    InLevels(k.levels, v) && (k.sure ==> GoodLevel(b, k.common) && b.RefusesNothing() && Conforms(b, k.common, v))
  }

  /** And of one product. */
  ghost predicate PairFits(b: Backend, k: Inputs, v: View, p: HEPlaintext)
  {
    CellFits(b, k, v) && (k.clean ==> !Swallowed(b, v, p)) && (k.sure ==> GoodWeight(b, k.common, p))
  }

  lemma EveryPairFits(b: Backend, c: Common, args: seq<View>, weights: seq<HEPlaintext>, i: nat, j: nat)
    requires i < |args| && j < |weights|
    ensures PairFits(b, InputsOf(b, c, args, weights), args[i], weights[j])
  {}

  /** Conforming ciphertexts can be added, and their sum conforms. */
  lemma ConformingSum(b: Backend, c: Common, v0: View, v1: View, o: View)
    requires GoodLevel(b, c) && b.RefusesNothing()
    requires Conforms(b, c, v0) && Conforms(b, c, v1) && |o.slots| == b.slotCount
    ensures Usable(b, v0) && Usable(b, v1)
    ensures AddCC(b, v0, v1, o).Ok? && Conforms(b, c, AddCC(b, v0, v1, o).value)
    ensures !v0.isZero && !v1.isZero ==> Matched(b.ctx, v0, v1) == Some((v0, v1))
  {}

  lemma AddKeepsUsable(b: Backend, v0: View, v1: View, o: View)
    requires b.Valid() && Usable(b, v0) && Usable(b, v1) && |o.slots| == b.slotCount && AddCC(b, v0, v1, o).Ok?
    ensures Usable(b, AddCC(b, v0, v1, o).value)
    ensures !v0.isZero && !v1.isZero ==> Matched(b.ctx, v0, v1).Some? && Usable(b, Matched(b.ctx, v0, v1).value.1)
  {
    if !v0.isZero && !v1.isZero { MatchedLevels(b.ctx, v0, v1); }
  }

  /** A term joins an existing sum; the term's own ciphertext may be brought to the sum's level. */
  method AddTerm(sum: SealCiphertextWrapper, prod: SealCiphertextWrapper, b: Backend, ghost k: Inputs, ghost terms: seq<Slots>,
                 ghost t: Slots)
    returns (sum': SealCiphertextWrapper, r: Outcome)
    requires b.Valid() && sum != prod && Usable(b, sum.Contents()) && Usable(b, prod.Contents()) && |t| == b.slotCount
    requires CellFits(b, k, prod.Contents()) && (k.sure ==> Conforms(b, k.common, sum.Contents()))
    requires k.clean ==> HoldsSum(k.levels, terms, sum.Contents()) && HoldsTerm(k.levels, t, prod.Contents())
    modifies sum, prod
    ensures sum' == sum || fresh(sum')
    ensures r == Pass ==> Usable(b, sum'.Contents()) && Usable(b, prod.Contents()) && prod.isZero == old(prod.isZero)
    ensures r == Pass && k.clean ==> HoldsSum(k.levels, terms + [t], sum'.Contents()) && HoldsTerm(k.levels, t, prod.Contents())
    ensures k.sure ==> r == Pass && Conforms(b, k.common, sum'.Contents()) && prod.Contents() == old(prod.Contents())
  {
    hide Sums, HoldsSum, HoldsTerm, CloseTo;
    ghost var v0, v1 := sum.Contents(), prod.Contents();
    if k.sure {
      ConformingSum(b, k.common, v0, v1, v0);
    }
    sum', r := ScalarAddCC(sum, prod, sum, b);
    if r == Pass {
      AddKeepsUsable(b, v0, v1, v0);
      AddedHolds(b, k, terms, v0, t, v1, sum'.Contents(), prod.Contents());
    }
  }

  lemma AddedHolds(b: Backend, k: Inputs, terms: seq<Slots>, v0: View, t: Slots, v1: View, sum: View, prod: View)
    requires b.Valid() && Usable(b, v0) && Usable(b, v1) && AddCC(b, v0, v1, v0) == Ok(sum) && |t| == b.slotCount
    requires prod == if v0.isZero || v1.isZero then v1 else match Matched(b.ctx, v0, v1) { case Some(p) => p.1 case None => v1 }
    requires k.clean ==> HoldsSum(k.levels, terms, v0) && HoldsTerm(k.levels, t, v1)
    ensures prod.isZero == v1.isZero
    ensures k.clean ==> HoldsSum(k.levels, terms + [t], sum) && HoldsTerm(k.levels, t, prod)
  {
    hide Sums, ScaledBy, CloseTo;
    if k.clean {
      HoldsNext(b, k.levels, terms, v0, t, v1, v0);
      if !v0.isZero && !v1.isZero {
        HoldsMatched(b, k.levels, t, v0, v1);
      }
    }
  }

  /** What the multiplication leaves of a fresh product. */
  lemma ProductIsTerm(b: Backend, k: Inputs, v: View, p: HEPlaintext, o: View)
    requires b.Valid() && Usable(b, v) && |o.slots| == b.slotCount && EncodeSlots(p, b.slotCount).Ok? && PairFits(b, k, v, p)
    ensures MultiplyCP(b, v, p, o).Ok? ==> Usable(b, MultiplyCP(b, v, p, o).value)
    ensures MultiplyCP(b, v, p, o).Ok? ==> InLevels(k.levels, MultiplyCP(b, v, p, o).value)
    ensures MultiplyCP(b, v, p, o).Ok? && k.clean ==> MultiplyCP(b, v, p, o).value.Value() == Term(b, v, p)
    ensures k.sure ==> MultiplyCP(b, v, p, o).Ok? && Conforms(b, Squared(k.common), MultiplyCP(b, v, p, o).value)
  {
    if MultiplyCP(b, v, p, o).Ok? {
      MultiplyCPRefines(b, v, p, o);
    }
  }

  /** The same inputs' products. */
  function Multiplied(k: Inputs): Inputs
  {
    k.(common := Squared(k.common))
  }

  /** The product, in a fresh ciphertext. */
  method MultiplyInto(x: SealCiphertextWrapper, p: HEPlaintext, b: Backend, ghost k: Inputs)
    returns (prod: SealCiphertextWrapper, r: Outcome)
    requires b.Valid() && Usable(b, x.Contents()) && EncodeSlots(p, b.slotCount).Ok? && PairFits(b, k, x.Contents(), p)
    ensures fresh(prod) && (r == Pass ==> Usable(b, prod.Contents()) && CellFits(b, Multiplied(k), prod.Contents()))
    ensures r == Pass && k.clean ==> HoldsTerm(k.levels, Term(b, x.Contents(), p), prod.Contents())
    ensures k.sure ==> r == Pass
  {
    prod := new SealCiphertextWrapper(Zeros(b.slotCount));
    ProductIsTerm(b, k, x.Contents(), p, Empty(Zeros(b.slotCount)));
    r := ScalarMultiplyCP(x, p, prod, b);
    if r == Pass {
      HoldsItself(k.levels, prod.Contents());
    }
  }

  /**
   * The running sum of some terms. Until the first product it is still an empty
   * ciphertext, and all terms so far are 0.
   */
  ghost predicate Running(b: Backend, k: Inputs, terms: seq<Slots>, sum: View, firstAdd: bool)
  {
    if firstAdd then k.clean ==> Sums(terms, Zeros(b.slotCount), 0)
    else Usable(b, sum) && (k.clean ==> HoldsSum(k.levels, terms, sum)) && (k.sure ==> Conforms(b, Squared(k.common), sum))
  }

  /** A product joins the running sum. */
  method Accumulate(sum: SealCiphertextWrapper, firstAdd: bool, x: SealCiphertextWrapper, p: HEPlaintext, b: Backend,
                    ghost k: Inputs, ghost terms: seq<Slots>)
    returns (sum': SealCiphertextWrapper, r: Outcome)
    requires b.Valid() && sum != x && Usable(b, x.Contents()) && EncodeSlots(p, b.slotCount).Ok?
    requires PairFits(b, k, x.Contents(), p) && Running(b, k, terms, sum.Contents(), firstAdd)
    modifies sum
    ensures sum' == sum || fresh(sum')
    ensures r == Pass ==> Running(b, k, terms + [Term(b, x.Contents(), p)], sum'.Contents(), false)
    ensures k.sure ==> r == Pass
  {
    hide HoldsSum, HoldsTerm, Sums, PairFits, Term, EncodeSlots;
    var prod;
    ghost var t := Term(b, x.Contents(), p);
    prod, r := MultiplyInto(x, p, b, k);
    if r.Fail? {
      return sum, r;
    }
    if firstAdd {
      if k.clean { HoldsFirst(k.levels, terms, t, prod.Contents()); }
      return prod, Pass;
    }
    ghost var v := x.Contents();
    sum', r := AddTerm(sum, prod, b, Multiplied(k), terms, t);
    assert x.Contents() == v;
  }

  /** A position without a source cell adds nothing. */
  lemma SkipTerm(b: Backend, k: Inputs, terms: seq<Slots>, sum: View, firstAdd: bool)
    requires Running(b, k, terms, sum, firstAdd)
    ensures Running(b, k, terms + [Zeros(b.slotCount)], sum, firstAdd)
  {
    if k.clean {
      var s := if firstAdd then Zeros(b.slotCount) else sum.Value();
      SumsSkip(terms, s, if firstAdd || sum.isZero then 0 else k.levels.hi - sum.chain);
    }
  }

  /**
   * A finished sum, when no product was swallowed: each term may be off by as
   * many matchings as the inputs' levels are apart, so for inputs at one level
   * it is the plain sum.
   */
  ghost predicate IsSum(b: Backend, args: seq<View>, weights: seq<HEPlaintext>, terms: seq<Slots>, s: Slots)
  {
    && |s| == b.slotCount
    && (NothingSwallowed(b, args, weights) ==>
          Sums(terms, s, Spread(args)) && (Spread(args) == 0 ==> s == Sum(terms, |s|)))
  }

  lemma RunningIsSum(b: Backend, c: Common, args: seq<View>, weights: seq<HEPlaintext>, terms: seq<Slots>,
                     sum: View, firstAdd: bool)
    requires Running(b, InputsOf(b, c, args, weights), terms, sum, firstAdd)
    ensures IsSum(b, args, weights, terms, if firstAdd then Zeros(b.slotCount) else sum.Value())
  {
    hide Sum, LevelsOf;
    var s, l := if firstAdd then Zeros(b.slotCount) else sum.Value(), LevelsOf(args);
    if NothingSwallowed(b, args, weights) {
      if firstAdd {
        SumsUpTo(terms, s, 0, Spread(args));
      } else {
        HoldsFinally(l, terms, sum);
      }
      if Spread(args) == 0 {
        SumsExactly(terms, s);
      }
    }
  }

  // ------------------------------------------------------ sums of products in order

  predicate Encodes(b: Backend, xs: seq<View>, ws: seq<HEPlaintext>)
  {
    && (forall i :: 0 <= i < |xs| ==> |xs[i].slots| == b.slotCount)
    && (forall i :: 0 <= i < |ws| ==> EncodeSlots(ws[i], b.slotCount).Ok?)
  }

  /** Ciphertexts times plaintexts. */
  function Terms(b: Backend, xs: seq<View>, ws: seq<HEPlaintext>): (ts: seq<Slots>)
    requires |xs| == |ws| && Encodes(b, xs, ws)
    ensures |ts| == |xs| && forall i :: 0 <= i < |xs| ==> ts[i] == Term(b, xs[i], ws[i])
  {
    seq(|xs|, i requires 0 <= i < |xs| => Term(b, xs[i], ws[i]))
  }

  /** The same with no weight flushed to zero. */
  function ExactTerms(b: Backend, xs: seq<View>, ws: seq<HEPlaintext>): (ts: seq<Slots>)
    requires |xs| == |ws| && Encodes(b, xs, ws)
    ensures |ts| == |xs| && forall i :: 0 <= i < |xs| ==> ts[i] == MultiplySlots(xs[i].Value(), UnflushedFactor(b, ws[i]))
  {
    seq(|xs|, i requires 0 <= i < |xs| => MultiplySlots(xs[i].Value(), UnflushedFactor(b, ws[i])))
  }

  /** What flushing can cost one slot of a sum, over 1e-5: the sum of each term's share. */
  function Magnitudes(b: Backend, xs: seq<View>, ws: seq<HEPlaintext>, i: nat): Complex
    requires |xs| == |ws| && i < b.slotCount && Encodes(b, xs, ws)
  {
    if xs == [] then ZERO
    else
      var k := |xs| - 1;
      Add(Magnitudes(b, xs[..k], ws[..k], i), FlushBound(ws[k], xs[k].Value()[i]))
  }

  /** One more term adds its entry's absolute values, or their sum to both parts where a packed weight mixes them. */
  lemma MagnitudesNext(b: Backend, xs: seq<View>, ws: seq<HEPlaintext>, x: View, w: HEPlaintext, i: nat)
    requires |xs| == |ws| && i < b.slotCount && Encodes(b, xs, ws) && Encodes(b, xs + [x], ws + [w]) && |x.slots| == b.slotCount
    ensures Magnitudes(b, [], [], i) == ZERO
    ensures var before, after, z := Magnitudes(b, xs, ws, i), Magnitudes(b, xs + [x], ws + [w], i), x.Value()[i];
            var re, im := if z.re < 0.0 then -z.re else z.re, if z.im < 0.0 then -z.im else z.im;
            if w.packed && |w.values| != 1 then after == Complex(before.re + re + im, before.im + re + im)
            else after == Complex(before.re + re, before.im + im)
  {
    assert (xs + [x])[..|xs|] == xs && (ws + [w])[..|ws|] == ws;
  }

  lemma WithinAdd(w: Complex, e: Complex, m: Complex, p: Complex, q: Complex, n: Complex)
    requires Within(w, e, m) && Within(p, q, n)
    ensures Within(Add(w, p), Add(e, q), Add(m, n))
  {}

  lemma SumOfNone(width: nat)
    ensures forall none: seq<Slots> :: none == [] ==> Sum(none, width) == Zeros(width)
  {}

  lemma SumAt(ts: seq<Slots>, width: nat, i: nat)
    requires ts != [] && i < width && forall k :: 0 <= k < |ts| ==> |ts[k]| == width
    ensures Sum(ts, width)[i] == Add(Sum(ts[..|ts| - 1], width)[i], ts[|ts| - 1][i])
  {}

  /** The last step of both sums, in one slot. */
  lemma LastStep(b: Backend, xs: seq<View>, ws: seq<HEPlaintext>, i: nat)
    requires 0 < |xs| == |ws| && Encodes(b, xs, ws) && i < b.slotCount
    ensures var k := |xs| - 1;
            && Sum(Terms(b, xs, ws), b.slotCount)[i] == Add(Sum(Terms(b, xs[..k], ws[..k]), b.slotCount)[i], Terms(b, xs, ws)[k][i])
            && Sum(ExactTerms(b, xs, ws), b.slotCount)[i]
               == Add(Sum(ExactTerms(b, xs[..k], ws[..k]), b.slotCount)[i], ExactTerms(b, xs, ws)[k][i])
  {
    hide Sum, EncodeSlots, UnflushedFactor, Term;
    var k := |xs| - 1;
    var ts, es := Terms(b, xs, ws), ExactTerms(b, xs, ws);
    SumAt(ts, b.slotCount, i);
    SumAt(es, b.slotCount, i);
    assert ts[..k] == Terms(b, xs[..k], ws[..k]) && es[..k] == ExactTerms(b, xs[..k], ws[..k]);
  }

  /** One term of the sum, flushed and exact. */
  lemma TermFlushError(b: Backend, xs: seq<View>, ws: seq<HEPlaintext>, k: nat, i: nat)
    requires k < |xs| == |ws| && Encodes(b, xs, ws) && i < b.slotCount
    ensures Within(Terms(b, xs, ws)[k][i], ExactTerms(b, xs, ws)[k][i], FlushBound(ws[k], xs[k].Value()[i]))
  {
    hide Within, FlushBound, EncodeSlots, Factor, UnflushedFactor;
    FlushError(b, ws[k], xs[k].Value()[i], i);
  }

  /** Flushing small weights moves a sum by at most 1e-5 times the sum of the absolute values it weighs. */
  lemma {:induction false} SumFlushError(b: Backend, xs: seq<View>, ws: seq<HEPlaintext>, i: nat)
    requires |xs| == |ws| && Encodes(b, xs, ws) && i < b.slotCount
    ensures Within(Sum(Terms(b, xs, ws), b.slotCount)[i], Sum(ExactTerms(b, xs, ws), b.slotCount)[i], Magnitudes(b, xs, ws, i))
  {
    if xs == [] {
      SumOfNone(b.slotCount);
    } else {
      hide EncodeSlots, FlushBound, Within, Term, UnflushedFactor, Sum, Terms, ExactTerms;
      var k := |xs| - 1;
      SumFlushError(b, xs[..k], ws[..k], i);
      TermFlushError(b, xs, ws, k, i);
      LastStep(b, xs, ws, i);
      WithinAdd(Sum(Terms(b, xs[..k], ws[..k]), b.slotCount)[i], Sum(ExactTerms(b, xs[..k], ws[..k]), b.slotCount)[i],
                Magnitudes(b, xs[..k], ws[..k], i),
                Terms(b, xs, ws)[k][i], ExactTerms(b, xs, ws)[k][i], FlushBound(ws[k], xs[k].Value()[i]));
    }
  }
}
