/**
 * The zero flag as a shortcut: evaluated with the kernels of ScalarKernels, an
 * expression denotes what plain slot arithmetic gives, up to the flush of
 * weights below 1e-5. The places where a kernel does not meet this are stated
 * exactly.
 */
module ZeroFlags {
  import opened Outcomes
  import opened RealArithmetic
  import opened ComplexNumbers
  import opened SealCiphertext
  import opened LevelMatching
  import opened ScalarKernels

  /** The slots a plaintext stands for in a sum, when it can be encoded. */
  function Addend(b: Backend, p: HEPlaintext): (s: Slots)
    requires EncodeSlots(p, b.slotCount).Ok?
    ensures |s| == b.slotCount
  {
    EncodeSlots(p, b.slotCount).value
  }

  /** The slots a plaintext stands for in a product: one value is a real factor, small weights count as 0. */
  function Factor(b: Backend, p: HEPlaintext): (s: Slots)
    requires EncodeSlots(p, b.slotCount).Ok?
    ensures |s| == b.slotCount
  {
    if p.AllSmall() then Zeros(b.slotCount) else UnflushedFactor(b, p)
  }

  function UnflushedFactor(b: Backend, p: HEPlaintext): (s: Slots)
    requires EncodeSlots(p, b.slotCount).Ok?
    ensures |s| == b.slotCount
  {
    if p.IsSingleValue() then seq(b.slotCount, _ => Real(p.values[0])) else Addend(b, p)
  }

  lemma AddCCRefines(b: Backend, v0: View, v1: View, o: View)
    requires b.Valid() && Usable(b, v0) && Usable(b, v1) && |o.slots| == b.slotCount
    requires AddCC(b, v0, v1, o).Ok?
    ensures var v := AddCC(b, v0, v1, o).value;
            && (v0.isZero || v1.isZero || v0.chain == v1.chain ==> v.Value() == AddSlots(v0.Value(), v1.Value()))
            && exists w0, w1 :: CloseTo(v0.Value(), w0) && CloseTo(v1.Value(), w1) && v.Value() == AddSlots(w0, w1)
  {
    var n := b.slotCount;
    AddZeros(v0.Value(), n);
    AddZeros(v1.Value(), n);
    if !v0.isZero && !v1.isZero {
      MatchedLevels(b.ctx, v0, v1);
    } else {
      SelfClose(v0.Value());
      SelfClose(v1.Value());
    }
  }

  lemma MultiplyCCRefines(b: Backend, v0: View, v1: View, o: View)
    requires b.Valid() && Usable(b, v0) && Usable(b, v1) && |o.slots| == b.slotCount
    requires MultiplyCC(b, v0, v1, o).Ok?
    ensures var v := MultiplyCC(b, v0, v1, o).value;
            && (v0.isZero || v1.isZero || v0.chain == v1.chain ==> v.Value() == MultiplySlots(v0.Value(), v1.Value()))
            && exists w0, w1 :: CloseTo(v0.Value(), w0) && CloseTo(v1.Value(), w1) && v.Value() == MultiplySlots(w0, w1)
  {
    var n := b.slotCount;
    MultiplyZeros(v0.Value(), n);
    MultiplyZeros(v1.Value(), n);
    if !v0.isZero && !v1.isZero {
      MatchedLevels(b.ctx, v0, v1);
    } else {
      SelfClose(v0.Value());
      SelfClose(v1.Value());
    }
  }

  /** An unflagged sum or difference is at its operands' common level and scale. */
  lemma SumLevels(b: Backend, v0: View, v1: View, o: View)
    requires b.Valid() && Usable(b, v0) && Usable(b, v1) && |o.slots| == b.slotCount && !v0.isZero && !v1.isZero
    ensures AddCC(b, v0, v1, o).Ok? ==>
              var v := AddCC(b, v0, v1, o).value;
              if v0.chain <= v1.chain then v.chain == v0.chain && v.scale == v0.scale
              else v.chain == v1.chain && v.scale == v1.scale
    ensures SubtractCC(b, v0, v1, o).Ok? ==>
              var v := SubtractCC(b, v0, v1, o).value;
              v.chain == v0.chain == v1.chain && v.scale == v0.scale == v1.scale
  {
    if Matched(b.ctx, v0, v1).Some? {
      MatchedLevels(b.ctx, v0, v1);
    }
  }

  /**
   * A product of two ciphertexts is one level below theirs, with the product of
   * the scales over the prime dropped.
   */
  lemma ProductLevels(b: Backend, v0: View, v1: View, o: View)
    requires b.Valid() && Usable(b, v0) && Usable(b, v1) && |o.slots| == b.slotCount && !v0.isZero && !v1.isZero
    requires MultiplyCC(b, v0, v1, o).Ok?
    ensures var (low, high) := if v0.chain <= v1.chain then (v0, v1) else (v1, v0);
            var v := MultiplyCC(b, v0, v1, o).value;
            && low.chain < |b.ctx.primes| && v.chain + 1 == low.chain
            && v.scale * b.ctx.primes[low.chain] == low.scale * if low.chain < high.chain then low.scale else high.scale
  {
    hide MapSlots, MultiplySlots;
    MatchedLevels(b.ctx, v0, v1);
    var (w0, w1) := Matched(b.ctx, v0, v1).value;
    ProductScale(b, w0, w1, o.packed);
  }

  lemma ProductScale(b: Backend, v0: View, v1: View, packed: bool)
    requires b.Valid() && |v0.slots| == |v1.slots| && v0.chain == v1.chain < |b.ctx.primes| && Product(b, v0, v1, packed).Ok?
    ensures var v := Product(b, v0, v1, packed).value;
            v.chain + 1 == v0.chain && v.scale * b.ctx.primes[v0.chain] == v0.scale * v1.scale
  {
    var x, q := v0.scale * v1.scale, b.ctx.primes[v0.chain];
    assert x / q * q == x;
  }

  /** A product with a plaintext keeps its level and squares its scale; what is encrypted starts at the top. */
  lemma PlainLevels(b: Backend, v: View, p: HEPlaintext, o: View)
    requires |v.slots| == b.slotCount
    ensures MultiplyCP(b, v, p, o).Ok? && !v.isZero && !p.AllSmall() && !Swallowed(b, v, p) ==>
              var r := MultiplyCP(b, v, p, o).value;
              r.chain == v.chain && r.scale == v.scale * v.scale
    ensures Encrypted(b, p, o).Ok? && !p.IsSingleZero() ==>
              Encrypted(b, p, o).value.chain == b.topChain && Encrypted(b, p, o).value.scale == b.scale
  {}

  /** Subtraction has no level matching: it goes through only at equal levels, and is then exact. */
  lemma SubtractCCRefines(b: Backend, v0: View, v1: View, o: View)
    requires Usable(b, v0) && Usable(b, v1) && |o.slots| == b.slotCount
    ensures SubtractCC(b, v0, v1, o).Ok? <==>
            v0.isZero || v1.isZero || (v0.chain == v1.chain && v0.scale == v1.scale && !b.refuses(SubtractCall(v0, v1)))
    ensures SubtractCC(b, v0, v1, o).Ok? ==> SubtractCC(b, v0, v1, o).value.Value() == SubtractSlots(v0.Value(), v1.Value())
  {
    SubtractZeros(v0.Value(), b.slotCount);
    SubtractZeros(v1.Value(), b.slotCount);
    SubtractZeros(Zeros(b.slotCount), b.slotCount);
    assert Negate(ZERO) == ZERO;
    assert NegateSlots(Zeros(b.slotCount)) == Zeros(b.slotCount);
  }

  /** Encrypting into an output that is not flagged, then clearing its flag, loses only a lone zero. */
  lemma EncryptThenClear(b: Backend, p: HEPlaintext, o: View)
    requires |o.slots| == b.slotCount && Encrypted(b, p, o).Ok?
    ensures Encrypted(b, p, o).value.(isZero := false).Value() == Addend(b, p)
            <==> (p.IsSingleZero() ==> o.slots == Zeros(b.slotCount))
  {
    if p.IsSingleZero() {
      assert Addend(b, p) == Zeros(b.slotCount);
    }
  }

  /**
   * cipher + plaintext denotes the sum exactly when neither defect bites: a
   * flagged operand with a lone plaintext 0 (the flag encrypt has just set is
   * taken down again and stale slots show), or a lone nonzero value marked as
   * complex packed (add_plain adds it to the real parts only).
   */
  lemma AddCPRefinesIff(b: Backend, v: View, p: HEPlaintext, o: View)
    requires |v.slots| == |o.slots| == b.slotCount && b.slotCount > 0
    requires EncodeSlots(p, b.slotCount).Ok? && AddCP(b, v, p, o).Ok?
    ensures AddCP(b, v, p, o).value.Value() == AddSlots(v.Value(), Addend(b, p))
            <==> (if v.isZero then p.IsSingleZero() ==> o.slots == Zeros(b.slotCount)
                  else p.IsSingleValue() && p.packed ==> p.values[0] == 0.0)
  {
    var n := b.slotCount;
    AddZeros(Addend(b, p), n);
    if v.isZero {
      EncryptThenClear(b, p, o);
    } else if p.IsSingleZero() {
      assert Addend(b, p) == Zeros(n);
      AddZeros(v.slots, n);
    } else if p.IsSingleValue() {
      var r, sum := AddCP(b, v, p, o).value.Value(), AddSlots(v.Value(), Addend(b, p));
      if p.packed {
        assert r[0] != sum[0];
      } else {
        assert r == sum;
      }
    }
  }

  /** The values encode to the same slots whether they are marked as packed or not. */
  predicate PackingAgnostic(p: HEPlaintext)
  {
    if p.IsSingleValue() then p.values[0] == 0.0 else forall i :: 1 <= i < |p.values| ==> p.values[i] == 0.0
  }

  /** Where the values go: one to a slot, or two where they are packed, and a lone one to every slot. */
  lemma EncodedSlot(p: HEPlaintext, n: nat, i: nat)
    requires EncodeSlots(p, n).Ok? && i < n
    ensures EncodeSlots(p, n).value[i] ==
            if |p.values| == 1 then Complex(p.values[0], if p.packed then p.values[0] else 0.0)
            else if p.packed then Complex(ValueAt(p.values, 2 * i), ValueAt(p.values, 2 * i + 1))
            else Complex(ValueAt(p.values, i), 0.0)
  {
    if |p.values| != 1 && p.packed {
      ComplexPacking.PackLength(p.values);
      if 2 * i < |p.values| { PackedAt(p.values, i); }
    }
  }

  /** How many slots a plaintext's values take. */
  function SlotsNeeded(values: seq<real>, packed: bool): nat
  {
    if |values| == 1 then 0 else if packed then (|values| + 1) / 2 else |values|
  }

  lemma EncodesIff(p: HEPlaintext, n: nat)
    ensures EncodeSlots(p, n).Ok? <==> SlotsNeeded(p.values, p.packed) <= n
  {
    ComplexPacking.PackLength(p.values);
  }

  /** Marked with the other packing, a plaintext encodes to the same slots exactly when it is agnostic of packing. */
  lemma RepackedIff(p: HEPlaintext, n: nat)
    requires n > 0 && EncodeSlots(p, n).Ok? && EncodeSlots(p.(packed := !p.packed), n).Ok?
    ensures EncodeSlots(p, n) == EncodeSlots(p.(packed := !p.packed), n) <==> PackingAgnostic(p)
  {
    var xs := p.values;
    var packed, plain := EncodeSlots(HEPlaintext(xs, true), n).value, EncodeSlots(HEPlaintext(xs, false), n).value;
    if |xs| == 1 {
      assert packed[0] == Complex(xs[0], xs[0]) && plain[0] == Real(xs[0]);
    } else {
      ComplexPacking.PackLength(xs);
      forall i | 0 <= i < n ensures packed[i] == Complex(ValueAt(xs, 2 * i), ValueAt(xs, 2 * i + 1)) && plain[i] == Real(ValueAt(xs, i)) {
        if i < (|xs| + 1) / 2 { PackedAt(xs, i); }
      }
      PairsAreSingles(xs, packed, plain);
    }
  }

  function ValueAt(xs: seq<real>, i: nat): real
  {
    if i < |xs| then xs[i] else 0.0
  }

  lemma {:induction false} PackedAt(xs: seq<real>, i: nat)
    requires 2 * i < |xs|
    ensures i < |ComplexPacking.Pack(xs)| && ComplexPacking.Pack(xs)[i] == Complex(xs[2 * i], ValueAt(xs, 2 * i + 1))
  {
    if i == 0 {
    } else {
      PackedAt(xs[2..], i - 1);
    }
  }

  lemma PairsAreSingles(xs: seq<real>, packed: Slots, plain: Slots)
    requires |packed| == |plain| >= |xs| && |packed| > 0
    requires forall i :: 0 <= i < |packed| ==>
               packed[i] == Complex(ValueAt(xs, 2 * i), ValueAt(xs, 2 * i + 1)) && plain[i] == Real(ValueAt(xs, i))
    ensures packed == plain <==> forall i :: 1 <= i < |xs| ==> xs[i] == 0.0
  {
    if packed == plain {
      forall i | 1 <= i < |xs| ensures xs[i] == 0.0 {
        TailVanishes(xs, packed, plain, i);
      }
    }
    if forall i :: 1 <= i < |xs| ==> xs[i] == 0.0 {
      forall i | 0 <= i < |packed| ensures packed[i] == plain[i] {
        assert ValueAt(xs, 2 * i + 1) == 0.0 && ValueAt(xs, 2 * i) == ValueAt(xs, i);
      }
    }
  }

  lemma {:induction false} TailVanishes(xs: seq<real>, packed: Slots, plain: Slots, i: nat)
    requires |packed| == |plain| >= |xs| && packed == plain && 1 <= i < |xs|
    requires forall k :: 0 <= k < |packed| ==>
               packed[k] == Complex(ValueAt(xs, 2 * k), ValueAt(xs, 2 * k + 1)) && plain[k] == Real(ValueAt(xs, k))
    ensures xs[i] == 0.0
  {
    var k := i / 2;
    assert packed[k] == plain[k] == Real(ValueAt(xs, k));
    assert packed[k] == Complex(ValueAt(xs, 2 * k), ValueAt(xs, 2 * k + 1));
    assert ValueAt(xs, 2 * k) == ValueAt(xs, k) && ValueAt(xs, 2 * k + 1) == 0.0;
    if i == 2 * k {
      TailVanishes(xs, packed, plain, k);
    }
  }

  /**
   * cipher - plaintext. For a flagged ciphertext the negated values are encrypted
   * with the ciphertext's packing mark instead of their own, and a lone 0 leaves
   * stale slots: the result denotes the difference exactly when neither does harm.
   */
  lemma SubtractCPRefinesIff(b: Backend, v: View, p: HEPlaintext, o: View)
    requires |v.slots| == |o.slots| == b.slotCount && b.slotCount > 0
    requires EncodeSlots(p, b.slotCount).Ok? && SubtractCP(b, v, p, o).Ok?
    ensures SubtractCP(b, v, p, o).value.Value() == SubtractSlots(v.Value(), Addend(b, p))
            <==> (v.isZero ==> if p.IsSingleZero() then o.slots == Zeros(b.slotCount) else v.packed == p.packed || PackingAgnostic(p))
  {
    var n := b.slotCount;
    if v.isZero {
      var q := p.Negated(v.packed);
      SubtractZeros(Addend(b, p), n);
      EncryptThenClear(b, q, o);
      assert p.IsSingleZero() <==> q.IsSingleZero();
      EncodesIff(p.Negated(p.packed), n);
      EncodesIff(p, n);
      EncodeNegated(p, n);
      if v.packed != p.packed {
        assert p.Negated(p.packed) == q.(packed := !q.packed);
        RepackedIff(q, n);
        NegatedIsAgnostic(p, q);
      }
    }
  }

  lemma NegatedIsAgnostic(p: HEPlaintext, q: HEPlaintext)
    requires q == p.Negated(q.packed)
    ensures PackingAgnostic(q) <==> PackingAgnostic(p)
  {
    if PackingAgnostic(q) {
      forall i | 1 <= i < |p.values| ensures p.values[i] == 0.0 {
        assert q.values[i] == 0.0;
      }
    }
  }

  /** It fails for a flagged ciphertext exactly when the values do not fit the slots in the ciphertext's packing, or SEAL refuses. */
  lemma SubtractCPFailsIff(b: Backend, v: View, p: HEPlaintext, o: View)
    requires |v.slots| == b.slotCount && v.isZero
    ensures SubtractCP(b, v, p, o).Err? <==>
            b.refuses(EncodeCall(p.Negated(v.packed), b.topChain, b.scale)) || SlotsNeeded(p.values, v.packed) > b.slotCount
  {
    EncodesIff(p.Negated(v.packed), b.slotCount);
  }

  /** Two values packed into one slot cannot be subtracted from an unpacked flagged ciphertext, and one value comes out wrong. */
  lemma FlaggedSubtractionLosesPacking(b: Backend, v: View, o: View, x: real, y: real)
    requires |v.slots| == |o.slots| == b.slotCount == 1 && v.isZero && !v.packed && x != 0.0
    ensures EncodeSlots(HEPlaintext([x, y], true), 1).Ok? && SubtractCP(b, v, HEPlaintext([x, y], true), o).Err?
    ensures var p, r := HEPlaintext([x], true), SubtractCP(b, v, HEPlaintext([x], true), o);
            r.Ok? ==> r.value.Value() != SubtractSlots(v.Value(), Addend(b, p))
  {
    SubtractCPFailsIff(b, v, HEPlaintext([x, y], true), o);
    EncodesIff(HEPlaintext([x, y], true), 1);
    if SubtractCP(b, v, HEPlaintext([x], true), o).Ok? {
      SubtractCPRefinesIff(b, v, HEPlaintext([x], true), o);
    }
  }

  lemma {:induction false} PackNegated(xs: seq<real>, ys: seq<real>)
    requires |xs| == |ys| && forall i :: 0 <= i < |xs| ==> ys[i] == -xs[i]
    ensures ComplexPacking.Pack(ys) == NegateSlots(ComplexPacking.Pack(xs))
  {
    if |xs| <= 1 {
    } else {
      PackNegated(xs[2..], ys[2..]);
    }
  }

  lemma EncodeNegated(p: HEPlaintext, n: nat)
    requires EncodeSlots(p, n).Ok?
    ensures EncodeSlots(p.Negated(p.packed), n).Ok?
    ensures EncodeSlots(p.Negated(p.packed), n).value == NegateSlots(EncodeSlots(p, n).value)
  {
    var q := p.Negated(p.packed);
    PackNegated(p.values, q.values);
    ComplexPacking.PackLength(p.values);
    ComplexPacking.PackLength(q.values);
  }

  /** plaintext - cipher goes through negation and addition and has the defects of the latter. */
  lemma SubtractPCRefinesIff(b: Backend, p: HEPlaintext, v: View, o: View)
    requires |v.slots| == |o.slots| == b.slotCount && b.slotCount > 0
    requires EncodeSlots(p, b.slotCount).Ok? && SubtractPC(b, p, v, o).Ok?
    ensures SubtractPC(b, p, v, o).value.Value() == SubtractSlots(Addend(b, p), v.Value())
            <==> (if v.isZero then p.IsSingleZero() ==> o.slots == Zeros(b.slotCount)
                  else p.IsSingleValue() && p.packed ==> p.values[0] == 0.0)
  {
    if v.isZero {
      SubtractZeros(Addend(b, p), b.slotCount);
      EncryptThenClear(b, p, o);
    } else {
      var tmp := View(false, false, v.chain, v.scale, NegateSlots(v.slots));
      AddCPRefinesIff(b, tmp, p, o);
      var n := b.slotCount;
      assert AddSlots(NegateSlots(v.slots), Addend(b, p)) == SubtractSlots(Addend(b, p), v.slots);
    }
  }

  /**
   * Multiplication by a plaintext denotes the product with small weights as 0,
   * unless SEAL refuses to make a product of several values: that goes
   * unreported, and the ciphertext itself shows.
   */
  lemma MultiplyCPRefines(b: Backend, v: View, p: HEPlaintext, o: View)
    requires |v.slots| == |o.slots| == b.slotCount
    requires EncodeSlots(p, b.slotCount).Ok? && MultiplyCP(b, v, p, o).Ok?
    ensures MultiplyCP(b, v, p, o).value.Value() == MultiplySlots(v.Value(), Factor(b, p))
            <==> (Swallowed(b, v, p) ==> v.slots == MultiplySlots(v.slots, Factor(b, p)))
  {
    MultiplyZeros(v.Value(), b.slotCount);
    MultiplyZeros(Factor(b, p), b.slotCount);
    if !v.isZero && !p.AllSmall() && p.IsSingleValue() {
      assert MapSlots(z => Multiply(z, Real(p.values[0])), v.slots) == MultiplySlots(v.slots, Factor(b, p));
    }
  }

  /** The part of a product's bound that one operand contributes: with a packed factor both parts mix. */
  function FlushBound(p: HEPlaintext, z: Complex): Complex
  {
    if p.packed && !p.IsSingleValue() then Complex(Abs(z.re) + Abs(z.im), Abs(z.re) + Abs(z.im)) else Parts(z)
  }

  /** What the flush costs: at most 1e-5 of the other operand, part by part, or of both its parts for packed weights. */
  lemma FlushError(b: Backend, p: HEPlaintext, z: Complex, i: nat)
    requires EncodeSlots(p, b.slotCount).Ok? && i < b.slotCount
    ensures Within(Multiply(z, Factor(b, p)[i]), Multiply(z, UnflushedFactor(b, p)[i]), FlushBound(p, z))
    ensures var got, exact, mixed := Multiply(z, Factor(b, p)[i]), Multiply(z, UnflushedFactor(b, p)[i]), p.packed && |p.values| != 1;
            var re, im := if z.re < 0.0 then -z.re else z.re, if z.im < 0.0 then -z.im else z.im;
            && -0.00001 * (if mixed then re + im else re) <= got.re - exact.re <= 0.00001 * (if mixed then re + im else re)
            && -0.00001 * (if mixed then re + im else im) <= got.im - exact.im <= 0.00001 * (if mixed then re + im else im)
  {
    var f := UnflushedFactor(b, p)[i];
    if p.AllSmall() {
      SmallFactor(b, p, i);
      if p.packed && !p.IsSingleValue() {
        SmallComplexProduct(z, f);
      } else {
        SmallRealProduct(z, f);
      }
      MultiplyReal(z, ZERO);
    } else {
      assert Within(Multiply(z, f), Multiply(z, f), FlushBound(p, z));
    }
    BoundInNumbers(p, z, Multiply(z, Factor(b, p)[i]), Multiply(z, f));
  }

  lemma BoundInNumbers(p: HEPlaintext, z: Complex, got: Complex, exact: Complex)
    requires Within(got, exact, FlushBound(p, z))
    ensures var mixed := p.packed && |p.values| != 1;
            var re, im := if z.re < 0.0 then -z.re else z.re, if z.im < 0.0 then -z.im else z.im;
            && -0.00001 * (if mixed then re + im else re) <= got.re - exact.re <= 0.00001 * (if mixed then re + im else re)
            && -0.00001 * (if mixed then re + im else im) <= got.im - exact.im <= 0.00001 * (if mixed then re + im else im)
  {}

  lemma SmallFactor(b: Backend, p: HEPlaintext, i: nat)
    requires EncodeSlots(p, b.slotCount).Ok? && i < b.slotCount && p.AllSmall()
    ensures var f := UnflushedFactor(b, p)[i];
            -FLUSH <= f.re <= FLUSH && -FLUSH <= f.im <= FLUSH && (!p.packed || p.IsSingleValue() ==> f.im == 0.0)
  {
    if !p.IsSingleValue() {
      if !p.packed && i < |p.values| {
        assert UnflushedFactor(b, p)[i] == Real(p.values[i]);
      } else if p.packed && 2 * i < |p.values| {
        PackedAt(p.values, i);
      } else {
        ComplexPacking.PackLength(p.values);
      }
    }
  }

  /** The absolute values of both parts. */
  function Parts(z: Complex): Complex
  {
    Complex(Abs(z.re), Abs(z.im))
  }

  /** Both parts differ by at most 1e-5 times a bound of their own. */
  predicate Within(a: Complex, b: Complex, bound: Complex)
  {
    Abs(a.re - b.re) <= 0.00001 * bound.re && Abs(a.im - b.im) <= 0.00001 * bound.im
  }

  lemma MultiplyReal(z: Complex, f: Complex)
    requires f.im == 0.0
    ensures Multiply(z, f) == Complex(z.re * f.re, z.im * f.re)
  {
    assert z.im * f.im == 0.0 && z.re * f.im == 0.0;
  }

  lemma SmallShare(y: real, f: real) returns (p: real)
    requires -0.00001 <= f <= 0.00001 && y >= 0.0
    ensures p == f * y && -0.00001 * y <= p <= 0.00001 * y
  {
    p := f * y;
    RealMulMono(-0.00001, f, y);
    RealMulMono(f, 0.00001, y);
  }

  lemma SmallProduct(x: real, f: real) returns (p: real)
    requires -0.00001 <= f <= 0.00001
    ensures p == x * f && -0.00001 * Abs(x) <= p <= 0.00001 * Abs(x)
  {
    p := SmallShare(Abs(x), f);
    if x < 0.0 {
      assert x * f == -(f * Abs(x));
      p := -p;
    }
  }

  /** A small factor's product is within its share of 0. */
  lemma SmallComplexProduct(z: Complex, f: Complex)
    requires -0.00001 <= f.re <= 0.00001 && -0.00001 <= f.im <= 0.00001
    ensures var w := Abs(z.re) + Abs(z.im); Within(ZERO, Multiply(z, f), Complex(w, w))
  {
    var a := SmallProduct(z.re, f.re);
    var b := SmallProduct(z.im, f.im);
    var c := SmallProduct(z.re, f.im);
    var d := SmallProduct(z.im, f.re);
    assert Multiply(z, f) == Complex(a - b, c + d);
    SumsWithin(a, b, c, d, Abs(z.re), Abs(z.im));
  }

  lemma SmallRealProduct(z: Complex, f: Complex)
    requires -0.00001 <= f.re <= 0.00001 && f.im == 0.0
    ensures Within(ZERO, Multiply(z, f), Parts(z))
  {
    var a := SmallProduct(z.re, f.re);
    var d := SmallProduct(z.im, f.re);
    MultiplyReal(z, f);
  }

  lemma SumsWithin(a: real, b: real, c: real, d: real, x: real, y: real)
    requires -0.00001 * x <= a <= 0.00001 * x && -0.00001 * y <= b <= 0.00001 * y
    requires -0.00001 * x <= c <= 0.00001 * x && -0.00001 * y <= d <= 0.00001 * y
    ensures Within(ZERO, Complex(a - b, c + d), Complex(x + y, x + y))
  {}

  // ------------------------------------------------------------------ expressions

  datatype Expr =
    | Leaf(view: View)
    | AddE(left: Expr, right: Expr)
    | SubtractE(left: Expr, right: Expr)
    | MultiplyE(left: Expr, right: Expr)
    | AddPlainE(left: Expr, plain: HEPlaintext)
    | SubtractPlainE(left: Expr, plain: HEPlaintext)
    | PlainSubtractE(plain: HEPlaintext, left: Expr)
    | MultiplyPlainE(left: Expr, plain: HEPlaintext)

  /** A result the next kernel can use; an evaluator rejects anything else as invalid. */
  function Checked(b: Backend, r: Result<View>): (r': Result<View>)
    ensures r'.Ok? ==> r == r' && Usable(b, r'.value)
  {
    if r.Ok? && !Usable(b, r.value) then Err("ciphertext is not valid") else r
  }

  /** The output handed to a kernel: its own first operand, or a fresh empty ciphertext. */
  function Output(first: View, inPlace: bool, unspecified: Slots): View
  {
    if inPlace then first else Empty(unspecified)
  }

  function Run(b: Backend, e: Expr, inPlace: bool, unspecified: Slots): (r: Result<View>)
    requires b.Valid()
    ensures r.Ok? ==> Usable(b, r.value)
  {
    match e
    case Leaf(v) => Checked(b, Ok(v))
    case AddE(l, r) => RunTwo(b, e, Run(b, l, inPlace, unspecified), Run(b, r, inPlace, unspecified), inPlace, unspecified)
    case SubtractE(l, r) => RunTwo(b, e, Run(b, l, inPlace, unspecified), Run(b, r, inPlace, unspecified), inPlace, unspecified)
    case MultiplyE(l, r) => RunTwo(b, e, Run(b, l, inPlace, unspecified), Run(b, r, inPlace, unspecified), inPlace, unspecified)
    case AddPlainE(l, p) => RunPlain(b, e, Run(b, l, inPlace, unspecified), p, inPlace, unspecified)
    case SubtractPlainE(l, p) => RunPlain(b, e, Run(b, l, inPlace, unspecified), p, inPlace, unspecified)
    case PlainSubtractE(p, l) => RunPlain(b, e, Run(b, l, inPlace, unspecified), p, inPlace, unspecified)
    case MultiplyPlainE(l, p) => RunPlain(b, e, Run(b, l, inPlace, unspecified), p, inPlace, unspecified)
  }

  function RunTwo(b: Backend, e: Expr, l: Result<View>, r: Result<View>, inPlace: bool, unspecified: Slots): (res: Result<View>)
    requires b.Valid() && (l.Ok? ==> Usable(b, l.value)) && (r.Ok? ==> Usable(b, r.value))
    ensures res.Ok? ==> Usable(b, res.value)
  {
    if l.Err? then l else if r.Err? then r
    else
      var o := Output(l.value, inPlace, unspecified);
      Checked(b, if e.AddE? then AddCC(b, l.value, r.value, o)
                 else if e.SubtractE? then SubtractCC(b, l.value, r.value, o)
                 else MultiplyCC(b, l.value, r.value, o))
  }

  function RunPlain(b: Backend, e: Expr, l: Result<View>, p: HEPlaintext, inPlace: bool, unspecified: Slots): (res: Result<View>)
    requires l.Ok? ==> Usable(b, l.value)
    ensures res.Ok? ==> Usable(b, res.value)
  {
    if l.Err? then l
    else
      var o := Output(l.value, inPlace, unspecified);
      Checked(b, if e.AddPlainE? then AddCP(b, l.value, p, o)
                 else if e.SubtractPlainE? then SubtractCP(b, l.value, p, o)
                 else if e.PlainSubtractE? then SubtractPC(b, p, l.value, o)
                 else MultiplyCP(b, l.value, p, o))
  }

  /** The value of the expression in plain slot arithmetic, without any flags. */
  function Meaning(b: Backend, e: Expr): (s: Slots)
    requires Encodable(b, e)
    ensures |s| == b.slotCount
  {
    match e
    case Leaf(v) => v.Value()
    case AddE(l, r) => AddSlots(Meaning(b, l), Meaning(b, r))
    case SubtractE(l, r) => SubtractSlots(Meaning(b, l), Meaning(b, r))
    case MultiplyE(l, r) => MultiplySlots(Meaning(b, l), Meaning(b, r))
    case AddPlainE(l, p) => AddSlots(Meaning(b, l), Addend(b, p))
    case SubtractPlainE(l, p) => SubtractSlots(Meaning(b, l), Addend(b, p))
    case PlainSubtractE(p, l) => SubtractSlots(Addend(b, p), Meaning(b, l))
    case MultiplyPlainE(l, p) => MultiplySlots(Meaning(b, l), Factor(b, p))
  }

  /** Every leaf has the backend's slots and every plaintext fits them. */
  predicate Encodable(b: Backend, e: Expr)
  {
    match e
    case Leaf(v) => |v.slots| == b.slotCount
    case AddE(l, r) => Encodable(b, l) && Encodable(b, r)
    case SubtractE(l, r) => Encodable(b, l) && Encodable(b, r)
    case MultiplyE(l, r) => Encodable(b, l) && Encodable(b, r)
    case AddPlainE(l, p) => Encodable(b, l) && EncodeSlots(p, b.slotCount).Ok?
    case SubtractPlainE(l, p) => Encodable(b, l) && EncodeSlots(p, b.slotCount).Ok?
    case PlainSubtractE(p, l) => Encodable(b, l) && EncodeSlots(p, b.slotCount).Ok?
    case MultiplyPlainE(l, p) => Encodable(b, l) && EncodeSlots(p, b.slotCount).Ok?
  }

  /**
   * The values of the expression in plain slot arithmetic, when each operand of
   * an addition or multiplication of two ciphertexts may be off by the factor,
   * within 1.02, of bringing it to the other's level.
   */
  ghost predicate Denotes(b: Backend, e: Expr, s: Slots)
    requires Encodable(b, e)
    decreases e, 0
  {
    |s| == b.slotCount &&
    match e
    case Leaf(v) => s == v.Value()
    case AddE(l, r) => exists x, y :: Drifted(b, l, x) && Drifted(b, r, y) && s == AddSlots(x, y)
    case MultiplyE(l, r) => exists x, y :: Drifted(b, l, x) && Drifted(b, r, y) && s == MultiplySlots(x, y)
    case SubtractE(l, r) => exists x, y :: Denotes(b, l, x) && Denotes(b, r, y) && s == SubtractSlots(x, y)
    case AddPlainE(l, p) => exists x :: Denotes(b, l, x) && s == AddSlots(x, Addend(b, p))
    case SubtractPlainE(l, p) => exists x :: Denotes(b, l, x) && s == SubtractSlots(x, Addend(b, p))
    case PlainSubtractE(p, l) => exists x :: Denotes(b, l, x) && s == SubtractSlots(Addend(b, p), x)
    case MultiplyPlainE(l, p) => exists x :: Denotes(b, l, x) && s == MultiplySlots(x, Factor(b, p))
  }

  ghost predicate Drifted(b: Backend, e: Expr, x: Slots)
    requires Encodable(b, e)
    decreases e, 1
  {
    |x| == b.slotCount && exists w :: Denotes(b, e, w) && CloseTo(w, x)
  }

  lemma DriftedFrom(b: Backend, e: Expr, w: Slots, x: Slots)
    requires Encodable(b, e) && Denotes(b, e, w) && CloseTo(w, x)
    ensures Drifted(b, e, x)
  {}

  /** Two ciphertexts whose levels need no matching. */
  predicate SameLevel(v0: View, v1: View)
  {
    v0.isZero || v1.isZero || v0.chain == v1.chain
  }

  /** Every ciphertext addition and multiplication of the expression finds its operands at one level. */
  ghost predicate OneLevel(b: Backend, e: Expr, inPlace: bool, unspecified: Slots)
    requires b.Valid()
  {
    match e
    case Leaf(v) => true
    case AddE(l, r) => OneLevel(b, l, inPlace, unspecified) && OneLevel(b, r, inPlace, unspecified) && Level(b, l, r, inPlace, unspecified)
    case SubtractE(l, r) => OneLevel(b, l, inPlace, unspecified) && OneLevel(b, r, inPlace, unspecified)
    case MultiplyE(l, r) => OneLevel(b, l, inPlace, unspecified) && OneLevel(b, r, inPlace, unspecified) && Level(b, l, r, inPlace, unspecified)
    case AddPlainE(l, p) => OneLevel(b, l, inPlace, unspecified)
    case SubtractPlainE(l, p) => OneLevel(b, l, inPlace, unspecified)
    case PlainSubtractE(p, l) => OneLevel(b, l, inPlace, unspecified)
    case MultiplyPlainE(l, p) => OneLevel(b, l, inPlace, unspecified)
  }

  ghost predicate Level(b: Backend, l: Expr, r: Expr, inPlace: bool, unspecified: Slots)
    requires b.Valid()
  {
    var l', r' := Run(b, l, inPlace, unspecified), Run(b, r, inPlace, unspecified);
    l'.Ok? && r'.Ok? ==> SameLevel(l'.value, r'.value)
  }

  /** No operation of the expression meets one of the stated defects. */
  ghost predicate Clean(b: Backend, e: Expr, inPlace: bool, unspecified: Slots)
    requires b.Valid()
  {
    match e
    case Leaf(v) => true
    case AddE(l, r) => Clean(b, l, inPlace, unspecified) && Clean(b, r, inPlace, unspecified)
    case SubtractE(l, r) => Clean(b, l, inPlace, unspecified) && Clean(b, r, inPlace, unspecified)
    case MultiplyE(l, r) => Clean(b, l, inPlace, unspecified) && Clean(b, r, inPlace, unspecified)
    case AddPlainE(l, p) => Clean(b, l, inPlace, unspecified) && PlainAddsCleanly(Run(b, l, inPlace, unspecified), p)
    case SubtractPlainE(l, p) => Clean(b, l, inPlace, unspecified) && PlainSubtractsCleanly(Run(b, l, inPlace, unspecified), p)
    case PlainSubtractE(p, l) => Clean(b, l, inPlace, unspecified) && PlainAddsCleanly(Run(b, l, inPlace, unspecified), p)
    case MultiplyPlainE(l, p) => Clean(b, l, inPlace, unspecified) && MultipliesCleanly(b, Run(b, l, inPlace, unspecified), p)
  }

  predicate PlainAddsCleanly(r: Result<View>, p: HEPlaintext)
  {
    r.Ok? ==> if r.value.isZero then !p.IsSingleZero() else p.IsSingleValue() && p.packed ==> p.values[0] == 0.0
  }

  predicate PlainSubtractsCleanly(r: Result<View>, p: HEPlaintext)
  {
    r.Ok? && r.value.isZero ==> !p.IsSingleZero() && (r.value.packed == p.packed || PackingAgnostic(p))
  }

  predicate MultipliesCleanly(b: Backend, r: Result<View>, p: HEPlaintext)
  {
    r.Ok? ==> !Swallowed(b, r.value, p)
  }

  /** One addition or multiplication of two ciphertexts. */
  lemma TwoRefine(b: Backend, e: Expr, l': View, r': View, o: View, s: View)
    requires b.Valid() && Encodable(b, e) && (e.AddE? || e.MultiplyE?)
    requires Usable(b, l') && Usable(b, r') && |o.slots| == b.slotCount && |s.slots| == b.slotCount
    requires Denotes(b, e.left, l'.Value()) && Denotes(b, e.right, r'.Value())
    requires Ok(s) == if e.AddE? then AddCC(b, l', r', o) else MultiplyCC(b, l', r', o)
    ensures Denotes(b, e, s.Value())
    ensures SameLevel(l', r') ==>
              s.Value() == if e.AddE? then AddSlots(l'.Value(), r'.Value()) else MultiplySlots(l'.Value(), r'.Value())
  {
    if e.AddE? {
      AddCCRefines(b, l', r', o);
      var x, y :| CloseTo(l'.Value(), x) && CloseTo(r'.Value(), y) && s.Value() == AddSlots(x, y);
      DriftedFrom(b, e.left, l'.Value(), x);
      DriftedFrom(b, e.right, r'.Value(), y);
    } else {
      MultiplyCCRefines(b, l', r', o);
      var x, y :| CloseTo(l'.Value(), x) && CloseTo(r'.Value(), y) && s.Value() == MultiplySlots(x, y);
      DriftedFrom(b, e.left, l'.Value(), x);
      DriftedFrom(b, e.right, r'.Value(), y);
    }
  }

  /** One operation with a plaintext operand. */
  lemma PlainRefines(b: Backend, e: Expr, p: HEPlaintext, l': View, o: View, s: View)
    requires Encodable(b, e) && (e.AddPlainE? || e.SubtractPlainE? || e.PlainSubtractE? || e.MultiplyPlainE?) && p == e.plain
    requires |l'.slots| == |o.slots| == |s.slots| == b.slotCount && b.slotCount > 0 && Denotes(b, e.left, l'.Value())
    requires if e.SubtractPlainE? then PlainSubtractsCleanly(Ok(l'), p)
             else if e.MultiplyPlainE? then MultipliesCleanly(b, Ok(l'), p) else PlainAddsCleanly(Ok(l'), p)
    requires Ok(s) == if e.AddPlainE? then AddCP(b, l', p, o) else if e.SubtractPlainE? then SubtractCP(b, l', p, o)
                      else if e.PlainSubtractE? then SubtractPC(b, p, l', o) else MultiplyCP(b, l', p, o)
    ensures Denotes(b, e, s.Value())
    ensures s.Value() == if e.AddPlainE? then AddSlots(l'.Value(), Addend(b, p))
                         else if e.SubtractPlainE? then SubtractSlots(l'.Value(), Addend(b, p))
                         else if e.PlainSubtractE? then SubtractSlots(Addend(b, p), l'.Value())
                         else MultiplySlots(l'.Value(), Factor(b, p))
  {
    match e
    case AddPlainE(_, _) => AddCPRefinesIff(b, l', p, o);
    case SubtractPlainE(_, _) => SubtractCPRefinesIff(b, l', p, o);
    case PlainSubtractE(_, _) => SubtractPCRefinesIff(b, p, l', o);
    case MultiplyPlainE(_, _) => MultiplyCPRefines(b, l', p, o);
  }

  /**
   * With or without in-place outputs, evaluation with flags denotes what
   * arithmetic without them gives, up to the drift of matching levels; where
   * every ciphertext operation finds its operands at one level it is exact.
   */
  lemma {:induction false} FlagsRefineArithmetic(b: Backend, e: Expr, inPlace: bool, unspecified: Slots)
    requires b.Valid() && b.slotCount > 0 && |unspecified| == b.slotCount && Encodable(b, e)
    requires Clean(b, e, inPlace, unspecified) && Run(b, e, inPlace, unspecified).Ok?
    ensures Denotes(b, e, Run(b, e, inPlace, unspecified).value.Value())
    ensures OneLevel(b, e, inPlace, unspecified) ==> Run(b, e, inPlace, unspecified).value.Value() == Meaning(b, e)
  {
    match e
    case Leaf(v) =>
    case AddE(l, r) =>
      FlagsRefineArithmetic(b, l, inPlace, unspecified);
      FlagsRefineArithmetic(b, r, inPlace, unspecified);
      var l', r' := Run(b, l, inPlace, unspecified).value, Run(b, r, inPlace, unspecified).value;
      TwoRefine(b, e, l', r', Output(l', inPlace, unspecified), Run(b, e, inPlace, unspecified).value);
    case MultiplyE(l, r) =>
      FlagsRefineArithmetic(b, l, inPlace, unspecified);
      FlagsRefineArithmetic(b, r, inPlace, unspecified);
      var l', r' := Run(b, l, inPlace, unspecified).value, Run(b, r, inPlace, unspecified).value;
      TwoRefine(b, e, l', r', Output(l', inPlace, unspecified), Run(b, e, inPlace, unspecified).value);
    case SubtractE(l, r) =>
      FlagsRefineArithmetic(b, l, inPlace, unspecified);
      FlagsRefineArithmetic(b, r, inPlace, unspecified);
      var l', r' := Run(b, l, inPlace, unspecified).value, Run(b, r, inPlace, unspecified).value;
      SubtractCCRefines(b, l', r', Output(l', inPlace, unspecified));
    case AddPlainE(l, p) =>
      FlagsRefineArithmetic(b, l, inPlace, unspecified);
      PlainStep(b, e, l, p, inPlace, unspecified);
    case SubtractPlainE(l, p) =>
      FlagsRefineArithmetic(b, l, inPlace, unspecified);
      PlainStep(b, e, l, p, inPlace, unspecified);
    case PlainSubtractE(p, l) =>
      FlagsRefineArithmetic(b, l, inPlace, unspecified);
      PlainStep(b, e, l, p, inPlace, unspecified);
    case MultiplyPlainE(l, p) =>
      FlagsRefineArithmetic(b, l, inPlace, unspecified);
      PlainStep(b, e, l, p, inPlace, unspecified);
  }

  lemma PlainStep(b: Backend, e: Expr, l: Expr, p: HEPlaintext, inPlace: bool, unspecified: Slots)
    requires b.Valid() && b.slotCount > 0 && |unspecified| == b.slotCount && Encodable(b, e)
    requires (e.AddPlainE? || e.SubtractPlainE? || e.PlainSubtractE? || e.MultiplyPlainE?) && l == e.left && p == e.plain
    requires Clean(b, e, inPlace, unspecified) && Run(b, e, inPlace, unspecified).Ok? && Run(b, l, inPlace, unspecified).Ok?
    requires Denotes(b, l, Run(b, l, inPlace, unspecified).value.Value())
    requires OneLevel(b, l, inPlace, unspecified) ==> Run(b, l, inPlace, unspecified).value.Value() == Meaning(b, l)
    ensures Denotes(b, e, Run(b, e, inPlace, unspecified).value.Value())
    ensures OneLevel(b, l, inPlace, unspecified) ==> Run(b, e, inPlace, unspecified).value.Value() == Meaning(b, e)
  {
    var l' := Run(b, l, inPlace, unspecified).value;
    PlainRefines(b, e, p, l', Output(l', inPlace, unspecified), Run(b, e, inPlace, unspecified).value);
  }

  /** Without any drift the values an expression denotes include its meaning. */
  lemma {:induction false} MeaningIsDenoted(b: Backend, e: Expr)
    requires Encodable(b, e)
    ensures Denotes(b, e, Meaning(b, e))
    decreases e, 0
  {
    match e
    case Leaf(v) =>
    case AddE(l, r) => DriftedMeaning(b, l); DriftedMeaning(b, r);
    case MultiplyE(l, r) => DriftedMeaning(b, l); DriftedMeaning(b, r);
    case SubtractE(l, r) => MeaningIsDenoted(b, l); MeaningIsDenoted(b, r);
    case AddPlainE(l, p) => MeaningIsDenoted(b, l);
    case SubtractPlainE(l, p) => MeaningIsDenoted(b, l);
    case PlainSubtractE(p, l) => MeaningIsDenoted(b, l);
    case MultiplyPlainE(l, p) => MeaningIsDenoted(b, l);
  }

  lemma {:induction false} DriftedMeaning(b: Backend, e: Expr)
    requires Encodable(b, e)
    ensures Drifted(b, e, Meaning(b, e))
    decreases e, 1
  {
    MeaningIsDenoted(b, e);
    SelfClose(Meaning(b, e));
  }

  // --------------------------------------------------------------- packing marks

  predicate OfTwo(e: Expr)
  {
    e.AddE? || e.SubtractE? || e.MultiplyE?
  }

  /** Every ciphertext and plaintext of the expression has this packing mark. */
  predicate Marked(e: Expr, packed: bool)
  {
    if e.Leaf? then e.view.packed == packed
    else Marked(e.left, packed) && if OfTwo(e) then Marked(e.right, packed) else e.plain.packed == packed
  }

  /** When an operation on two ciphertexts of one mark passes it on; elsewhere the output keeps the mark it had. */
  predicate TwoKeepMark(e: Expr, l': View, r': View, o: View, packed: bool)
  {
    || o.packed == packed
    || (e.AddE? && !(l'.isZero && r'.isZero))
    || (e.SubtractE? && !l'.isZero && r'.isZero)
  }

  lemma TwoKeepMarkIff(b: Backend, e: Expr, l': View, r': View, o: View, s: View)
    requires b.Valid() && Usable(b, l') && Usable(b, r') && l'.packed == r'.packed && OfTwo(e)
    requires Ok(s) == if e.AddE? then AddCC(b, l', r', o) else if e.SubtractE? then SubtractCC(b, l', r', o) else MultiplyCC(b, l', r', o)
    ensures s.packed == l'.packed <==> TwoKeepMark(e, l', r', o, l'.packed)
  {
    if !l'.isZero && !r'.isZero && Matched(b.ctx, l', r').Some? {
      MatchedLevels(b.ctx, l', r');
    }
  }

  /** The same for a plaintext operand; plaintext - cipher goes through an unpacked ciphertext. */
  predicate PlainKeepsMark(e: Expr, l': View, p: HEPlaintext, o: View, packed: bool)
  {
    var single := p.IsSingleValue() && !p.IsSingleZero();
    if e.AddPlainE? then l'.isZero || !single || o.packed == packed
    else if e.SubtractPlainE? then l'.isZero || o.packed == packed
    else if e.PlainSubtractE? then l'.isZero || (if single then o.packed == packed else !packed)
    else (!l'.isZero && !p.AllSmall()) || o.packed == packed
  }

  lemma PlainKeepsMarkIff(b: Backend, e: Expr, l': View, p: HEPlaintext, o: View, s: View)
    requires |l'.slots| == b.slotCount && l'.packed == p.packed
    requires !e.Leaf? && !OfTwo(e)
    requires Ok(s) == if e.AddPlainE? then AddCP(b, l', p, o) else if e.SubtractPlainE? then SubtractCP(b, l', p, o)
                      else if e.PlainSubtractE? then SubtractPC(b, p, l', o) else MultiplyCP(b, l', p, o)
    ensures s.packed == l'.packed <==> PlainKeepsMark(e, l', p, o, l'.packed)
  {}

  /** Every operation of the expression keeps the mark. */
  ghost predicate MarksKept(b: Backend, e: Expr, packed: bool, inPlace: bool, unspecified: Slots)
    requires b.Valid()
  {
    e.Leaf? ||
    (MarksKept(b, e.left, packed, inPlace, unspecified) &&
     if OfTwo(e) then
       MarksKept(b, e.right, packed, inPlace, unspecified) && TwoMarksKept(b, e, e.left, e.right, packed, inPlace, unspecified)
     else PlainMarkKept(b, e, e.left, e.plain, packed, inPlace, unspecified))
  }

  predicate TwoMarksKept(b: Backend, e: Expr, l: Expr, r: Expr, packed: bool, inPlace: bool, unspecified: Slots)
    requires b.Valid()
  {
    var l', r' := Run(b, l, inPlace, unspecified), Run(b, r, inPlace, unspecified);
    l'.Ok? && r'.Ok? ==> TwoKeepMark(e, l'.value, r'.value, Output(l'.value, inPlace, unspecified), packed)
  }

  predicate PlainMarkKept(b: Backend, e: Expr, l: Expr, p: HEPlaintext, packed: bool, inPlace: bool, unspecified: Slots)
    requires b.Valid()
  {
    var l' := Run(b, l, inPlace, unspecified);
    l'.Ok? ==> PlainKeepsMark(e, l'.value, p, Output(l'.value, inPlace, unspecified), packed)
  }

  /** Then the result has it. */
  lemma {:induction false} MarkSurvives(b: Backend, e: Expr, packed: bool, inPlace: bool, unspecified: Slots)
    requires b.Valid() && Marked(e, packed) && MarksKept(b, e, packed, inPlace, unspecified) && Run(b, e, inPlace, unspecified).Ok?
    ensures Run(b, e, inPlace, unspecified).value.packed == packed
  {
    hide AddCC, SubtractCC, MultiplyCC, AddCP, SubtractCP, SubtractPC, MultiplyCP, TwoKeepMark, PlainKeepsMark, Usable;
    if !e.Leaf? {
      var l := e.left;
      MarkSurvives(b, l, packed, inPlace, unspecified);
      var l', s := Run(b, l, inPlace, unspecified).value, Run(b, e, inPlace, unspecified).value;
      var o := Output(l', inPlace, unspecified);
      if OfTwo(e) {
        MarkSurvives(b, e.right, packed, inPlace, unspecified);
        TwoKeepMarkIff(b, e, l', Run(b, e.right, inPlace, unspecified).value, o, s);
      } else {
        UsableSlots(b, l');
        PlainKeepsMarkIff(b, e, l', e.plain, o, s);
      }
    }
  }

  lemma UsableSlots(b: Backend, v: View)
    requires Usable(b, v)
    ensures |v.slots| == b.slotCount
  {}

  /** The expression subtracts no ciphertext from a plaintext. */
  predicate NoPlainMinusCipher(e: Expr)
  {
    e.Leaf? || (!e.PlainSubtractE? && NoPlainMinusCipher(e.left) && (OfTwo(e) ==> NoPlainMinusCipher(e.right)))
  }

  /** Without complex packing marks are always kept; with it, in place and unless a ciphertext is subtracted from a plaintext. */
  lemma {:induction false} MarksAreKept(b: Backend, e: Expr, packed: bool, inPlace: bool, unspecified: Slots)
    requires b.Valid() && Marked(e, packed) && (!packed || (inPlace && NoPlainMinusCipher(e)))
    ensures MarksKept(b, e, packed, inPlace, unspecified)
  {
    hide Run;
    if !e.Leaf? {
      MarksAreKept(b, e.left, packed, inPlace, unspecified);
      if Run(b, e.left, inPlace, unspecified).Ok? {
        MarkSurvives(b, e.left, packed, inPlace, unspecified);
      }
      if OfTwo(e) {
        MarksAreKept(b, e.right, packed, inPlace, unspecified);
      }
    }
  }

  /**
   * So what decrypting shows is the meaning decoded with the operands' packing;
   * a packed result that is only flagged shows half as many zeros.
   */
  lemma DecryptsToMeaning(b: Backend, e: Expr, packed: bool, inPlace: bool, unspecified: Slots)
    requires b.Valid() && b.slotCount > 0 && |unspecified| == b.slotCount && Encodable(b, e)
    requires Clean(b, e, inPlace, unspecified) && OneLevel(b, e, inPlace, unspecified) && Run(b, e, inPlace, unspecified).Ok?
    requires Marked(e, packed) && MarksKept(b, e, packed, inPlace, unspecified)
    ensures var v, values := Run(b, e, inPlace, unspecified).value, DecodeValues(Meaning(b, e), packed);
            && Decrypted(v).packed == packed && Decrypted(v).values <= values
            && (Decrypted(v).values == values <==> !(v.isZero && packed))
  {
    FlagsRefineArithmetic(b, e, inPlace, unspecified);
    MarkSurvives(b, e, packed, inPlace, unspecified);
    var v := Run(b, e, inPlace, unspecified).value;
    if v.isZero {
      DecodedZeros(b.slotCount, packed);
    }
  }

  lemma DecodedZeros(n: nat, packed: bool)
    ensures forall i :: 0 <= i < |DecodeValues(Zeros(n), packed)| ==> DecodeValues(Zeros(n), packed)[i] == 0.0
  {
    forall i | 0 <= i < |DecodeValues(Zeros(n), packed)| ensures DecodeValues(Zeros(n), packed)[i] == 0.0 {
      if packed {
        ComplexPacking.UnpackAt(Zeros(n), i / 2);
        assert i == 2 * (i / 2) || i == 2 * (i / 2) + 1;
      }
    }
  }

  /**
   * The difference of two packed ciphertexts in a fresh output holds the right
   * slots but is marked as not packed: decrypting it shows half of the values,
   * and a packed ciphertext cannot be added to it.
   */
  lemma PackedDifferenceLosesMark(b: Backend, v0: View, v1: View, unspecified: Slots)
    requires b.Valid() && b.slotCount > 0 && Usable(b, v0) && Usable(b, v1) && !v0.isZero && !v1.isZero && v0.packed && v1.packed
    requires v0.chain == v1.chain && v0.scale == v1.scale && !b.refuses(SubtractCall(v0, v1))
    ensures var r := Run(b, SubtractE(Leaf(v0), Leaf(v1)), false, unspecified);
            && r.Ok? && r.value.Value() == SubtractSlots(v0.slots, v1.slots) && !r.value.packed
            && 2 * |Decrypted(r.value).values| == |Decrypted(v0).values| == |Decrypted(v1).values|
            && Run(b, AddE(SubtractE(Leaf(v0), Leaf(v1)), Leaf(v0)), false, unspecified).Err?
  {
    var e := SubtractE(Leaf(v0), Leaf(v1));
    assert Run(b, Leaf(v0), false, unspecified) == Ok(v0) && Run(b, Leaf(v1), false, unspecified) == Ok(v1);
    var r := Run(b, e, false, unspecified);
    assert AddCC(b, r.value, v0, Empty(unspecified)).Err?;
  }

  lemma ZeroFlagsInPlace(b: Backend, v: View)
    requires |v.slots| == b.slotCount
    ensures MultiplyCP(b, v, HEPlaintext([0.0], false), v) == Ok(v.(isZero := true))
  {
    assert HEPlaintext([0.0], false).AllSmall();
  }

  lemma ZeroUnflagsInPlace(b: Backend, v: View)
    requires |v.slots| == b.slotCount && !b.refuses(EncodeCall(HEPlaintext([0.0], false), b.topChain, b.scale))
    ensures AddCP(b, v.(isZero := true), HEPlaintext([0.0], false), v.(isZero := true)) == Ok(v.(isZero := false, packed := false))
  {}

  /** v * 0, then + 0, in place: the multiplication flags v, the addition takes the flag down again, and v shows. */
  lemma StaleAfterMultiplication(b: Backend, v: View, unspecified: Slots)
    requires b.Valid() && b.slotCount > 0 && |v.slots| == b.slotCount && OnChain(b.ctx, v)
    requires !b.refuses(EncodeCall(HEPlaintext([0.0], false), b.topChain, b.scale))
    ensures var zero := HEPlaintext([0.0], false);
            var e := AddPlainE(MultiplyPlainE(Leaf(v), zero), zero);
            && Encodable(b, e) && Meaning(b, e) == Zeros(b.slotCount)
            && Run(b, e, true, unspecified).Ok? && Run(b, e, true, unspecified).value.Value() == v.slots
  {
    var zero, n := HEPlaintext([0.0], false), b.slotCount;
    ZeroFlagsInPlace(b, v);
    ZeroUnflagsInPlace(b, v);
    MultiplyZeros(v.Value(), n);
    AddZeros(Zeros(n), n);
    assert Addend(b, zero) == Zeros(n);
    var product := MultiplyPlainE(Leaf(v), zero);
    assert Run(b, Leaf(v), true, unspecified) == Ok(v);
    assert zero.AllSmall();
    assert Run(b, product, true, unspecified) == Ok(v.(isZero := true));
    assert Meaning(b, product) == Zeros(n);
  }
}
