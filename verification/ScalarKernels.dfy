/**
 * The scalar kernels on wrappers with a zero flag: add, subtract, multiply and
 * encrypt (src/seal/kernel/add_seal.cpp, subtract_seal.cpp, multiply_seal.cpp,
 * src/seal/he_seal_backend.cpp). Each kernel is a method on the heap, because
 * out may alias an argument and may be made to point at another object, and is
 * proved against a function on views. ZeroFlags shows that the shortcuts taken
 * for flagged operands refine plain slot arithmetic.
 */
module ScalarKernels {
  import opened Outcomes
  import opened RealArithmetic
  import opened ComplexNumbers
  import opened ComplexPacking
  import opened SealCiphertext
  import opened LevelMatching

  datatype HEPlaintext = HEPlaintext(values: seq<real>, packed: bool)
  {
    predicate IsSingleValue() { |values| == 1 }

    predicate IsSingleZero() { |values| == 1 && values[0] == 0.0 }

    /** Every weight is below the threshold at which multiplication flushes to zero. */
    predicate AllSmall() { forall i :: 0 <= i < |values| ==> IsSmall(values[i]) }

    function Negated(packing: bool): HEPlaintext
    {
      HEPlaintext(seq(|values|, i requires 0 <= i < |values| => -values[i]), packing)
    }
  }

  const FLUSH: real := 0.00001

  predicate IsSmall(x: real)
  {
    -FLUSH < x < FLUSH
  }

  /** A call into SEAL that may throw for a reason slots do not show. */
  datatype SealCall =
    | EncodeCall(plain: HEPlaintext, chain: nat, scale: real)
    | AddPlainCall(cipher: View, plain: HEPlaintext)
    | SubtractPlainCall(cipher: View, plain: HEPlaintext)
    | MultiplyPlainCall(cipher: View, plain: HEPlaintext)
    | AddCall(left: View, right: View)
    | SubtractCall(left: View, right: View)
    | MultiplyCall(left: View, right: View)

  /**
   * refuses tells which calls throw because values or scales are too large or
   * the result is transparent, and late which of those throw only when the
   * result is there, as for a transparent one. Both are left open, and every
   * result holds whatever they are.
   */
  datatype Backend = Backend(ctx: Context, slotCount: nat, topChain: nat, scale: real, refuses: SealCall -> bool, late: SealCall -> bool)
  {
    ghost predicate Valid()
    {
      ctx.Valid() && topChain < |ctx.primes| && scale > 0.0
    }

    ghost predicate RefusesNothing()
    {
      forall call :: !refuses(call)
    }
  }

  /** HESealBackend::encode: the slots a plaintext is encoded to. */
  function EncodeSlots(p: HEPlaintext, n: nat): (r: Result<Slots>)
    ensures r.Ok? ==> |r.value| == n
  {
    if p.IsSingleValue() then
      Ok(seq(n, _ => if p.packed then Complex(p.values[0], p.values[0]) else Real(p.values[0])))
    else
      var vals := if p.packed then Pack(p.values) else seq(|p.values|, i requires 0 <= i < |p.values| => Real(p.values[i]));
      if |vals| > n then Err("Cannot encode") else Ok(vals + Zeros(n - |vals|))
  }

  /** The same at a level and scale, where the encoder may find a value too large. */
  function Encode(b: Backend, p: HEPlaintext, chain: nat, scale: real): (r: Result<Slots>)
    ensures r.Ok? ==> EncodeSlots(p, b.slotCount) == r
  {
    if b.refuses(EncodeCall(p, chain, scale)) then Err("encoded values are too large") else EncodeSlots(p, b.slotCount)
  }

  /** HESealBackend::decode: the values of decoded slots. */
  function DecodeValues(slots: Slots, packed: bool): (xs: seq<real>)
    ensures |xs| == if packed then 2 * |slots| else |slots|
  {
    if packed then Unpack(slots) else seq(|slots|, i requires 0 <= i < |slots| => slots[i].re)
  }

  /** HESealBackend::decrypt: a flagged ciphertext gives one 0 for every slot. */
  function Decrypted(v: View): HEPlaintext
  {
    HEPlaintext(if v.isZero then seq(|v.slots|, _ => 0.0) else DecodeValues(v.slots, v.packed), v.packed)
  }

  /** A view that can take part in evaluator operations. */
  predicate Usable(b: Backend, v: View)
  {
    |v.slots| == b.slotCount && (!v.isZero ==> OnChain(b.ctx, v))
  }

  // -------------------------------------------------------------- specifications

  /** encrypt: zero is only flagged, and an old flag is never taken down. */
  function Encrypted(b: Backend, p: HEPlaintext, o: View): Result<View>
  {
    match Encode(b, p, b.topChain, b.scale)
    case Err(e) => Err(e)
    case Ok(slots) =>
      if p.IsSingleZero() then Ok(o.(isZero := true, packed := p.packed))
      else Ok(o.(packed := p.packed, chain := b.topChain, scale := b.scale, slots := slots))
  }

  /** Add or subtract through the evaluator, which wants equal levels and scales. */
  function Combined(v0: View, v1: View, refused: bool, packed: bool, slots: Slots): Result<View>
  {
    if v0.chain != v1.chain || v0.scale != v1.scale || refused then Err("parameter or scale mismatch")
    else Ok(View(false, packed, v0.chain, v0.scale, slots))
  }

  function AddCC(b: Backend, v0: View, v1: View, o: View): Result<View>
    requires b.Valid() && Usable(b, v0) && Usable(b, v1)
  {
    if v0.isZero && v1.isZero then Ok(o.(isZero := true))
    else if v0.isZero then Ok(v1)
    else if v1.isZero then Ok(v0)
    else if v0.packed != v1.packed then Err("complex packing differs")
    else match Matched(b.ctx, v0, v1)
      case None => Err("scale does not match")
      case Some(p) => Combined(p.0, p.1, b.refuses(AddCall(p.0, p.1)), p.1.packed, AddSlots(p.0.slots, p.1.slots))
  }

  function AddCP(b: Backend, v: View, p: HEPlaintext, o: View): Result<View>
    requires |v.slots| == b.slotCount
  {
    if v.isZero then
      match Encrypted(b, p, o) { case Err(e) => Err(e) case Ok(r) => Ok(r.(isZero := false)) }
    else if p.IsSingleZero() then Ok(v)
    else if p.IsSingleValue() then
      if b.refuses(AddPlainCall(v, p)) then Err("cannot add plaintext")
      else Ok(View(false, o.packed, v.chain, v.scale, MapSlots(z => Add(z, Real(p.values[0])), v.slots)))
    else match Encode(b, p, v.chain, v.scale)
      case Err(e) => Err(e)
      case Ok(slots) =>
        if b.refuses(AddPlainCall(v, p)) then Err("cannot add plaintext")
        else Ok(View(false, v.packed, v.chain, v.scale, AddSlots(v.slots, slots)))
  }

  function MultiplyCC(b: Backend, v0: View, v1: View, o: View): Result<View>
    requires b.Valid() && Usable(b, v0) && Usable(b, v1)
  {
    if v0.isZero || v1.isZero then Ok(o.(isZero := true))
    else match Matched(b.ctx, v0, v1)
      case None => Err("scale does not match")
      case Some(p) => Product(b, p.0, p.1, o.packed)
  }

  /** multiply, relinearize and rescale_to_next on operands at one level. */
  function Product(b: Backend, v0: View, v1: View, packed: bool): Result<View>
    requires b.Valid() && |v0.slots| == |v1.slots| && v0.chain == v1.chain < |b.ctx.primes|
  {
    if v0.chain == 0 || v1.chain == 0 then Err("Multiplicative depth limit reached")
    else if b.refuses(MultiplyCall(v0, v1)) then Err("scale out of bounds or transparent result")
    else Ok(View(false, packed, v0.chain - 1, v0.scale * v1.scale / b.ctx.primes[v0.chain], MultiplySlots(v0.slots, v1.slots)))
  }

  /** The evaluator throws after copying the ciphertext and before multiplying it. */
  predicate RefusedEarly(b: Backend, v: View, p: HEPlaintext)
  {
    b.refuses(MultiplyPlainCall(v, p)) && !b.late(MultiplyPlainCall(v, p))
  }

  /** A plaintext of several values whose product is not made: the exception is caught and logged, and out is a copy of the ciphertext. */
  predicate Swallowed(b: Backend, v: View, p: HEPlaintext)
  {
    !v.isZero && !p.AllSmall() && !p.IsSingleValue() && RefusedEarly(b, v, p)
  }

  function MultiplyCP(b: Backend, v: View, p: HEPlaintext, o: View): Result<View>
    requires |v.slots| == b.slotCount
  {
    if v.isZero || p.AllSmall() then Ok(o.(isZero := true))
    else if p.IsSingleValue() then
      if b.refuses(MultiplyPlainCall(v, p)) then Err("cannot multiply plaintext")
      else Ok(View(false, v.packed, v.chain, Square(v.scale), MapSlots(z => Multiply(z, Real(p.values[0])), v.slots)))
    else match Encode(b, p, v.chain, v.scale)
      case Err(e) => Err(e)
      case Ok(slots) =>
        if v.chain == 0 then Err("Multiplicative depth exceeded")
        else if Swallowed(b, v, p) then Ok(v)
        else Ok(View(false, v.packed, v.chain, Square(v.scale), MultiplySlots(v.slots, slots)))
  }

  function SubtractCC(b: Backend, v0: View, v1: View, o: View): Result<View>
    requires |v0.slots| == |v1.slots|
  {
    if v0.isZero && v1.isZero then Ok(o.(isZero := true))
    else if v0.isZero then Ok(v1.(isZero := false, packed := o.packed, slots := NegateSlots(v1.slots)))
    else if v1.isZero then Ok(v0)
    else Combined(v0, v1, b.refuses(SubtractCall(v0, v1)), o.packed, SubtractSlots(v0.slots, v1.slots))
  }

  function SubtractCP(b: Backend, v: View, p: HEPlaintext, o: View): Result<View>
    requires |v.slots| == b.slotCount
  {
    if v.isZero then
      match Encrypted(b, p.Negated(v.packed), o) { case Err(e) => Err(e) case Ok(r) => Ok(r.(isZero := false)) }
    else match Encode(b, p, v.chain, v.scale)
      case Err(e) => Err(e)
      case Ok(slots) =>
        if b.refuses(SubtractPlainCall(v, p)) then Err("cannot subtract plaintext")
        else Ok(View(false, o.packed, v.chain, v.scale, SubtractSlots(v.slots, slots)))
  }

  function SubtractPC(b: Backend, p: HEPlaintext, v: View, o: View): Result<View>
    requires |v.slots| == b.slotCount
  {
    if v.isZero then
      match Encrypted(b, p, o) { case Err(e) => Err(e) case Ok(r) => Ok(r.(isZero := false)) }
    else
      match AddCP(b, View(false, false, v.chain, v.scale, NegateSlots(v.slots)), p, o)
      { case Err(e) => Err(e) case Ok(r) => Ok(r.(isZero := false)) }
  }

  // -------------------------------------------------------------------- kernels

  method Encrypt(output: SealCiphertextWrapper, input: HEPlaintext, b: Backend) returns (r: Outcome)
    modifies output
    ensures match Encrypted(b, input, old(output.Contents()))
            case Ok(v) => r == Pass && output.Contents() == v
            case Err(e) => r == Fail(e) && output.Contents() == old(output.Contents())
  {
    var plaintext := Encode(b, input, b.topChain, b.scale);
    if plaintext.Err? { return Fail(plaintext.reason); }
    if input.IsSingleValue() && input.values[0] == 0.0 {
      output.isZero := true;
    } else {
      output.chain, output.scale, output.slots := b.topChain, b.scale, plaintext.value;
    }
    output.packed := input.packed;
    r := Pass;
  }

  method Decrypt(input: SealCiphertextWrapper) returns (output: HEPlaintext)
    ensures output == Decrypted(input.Contents())
  {
    var values;
    if input.isZero {
      values := seq(|input.slots|, _ => 0.0);
    } else if input.packed {
      values := ComplexVecToRealVec(input.slots);
    } else {
      var slots := input.slots;
      values := seq(|slots|, i requires 0 <= i < |slots| => slots[i].re);
    }
    output := HEPlaintext(values, input.packed);
  }

  method ScalarAddCC(arg0: SealCiphertextWrapper, arg1: SealCiphertextWrapper, out: SealCiphertextWrapper, b: Backend)
    returns (out': SealCiphertextWrapper, r: Outcome)
    requires b.Valid() && Usable(b, arg0.Contents()) && Usable(b, arg1.Contents())
    modifies arg0, arg1, out
    ensures match AddCC(b, old(arg0.Contents()), old(arg1.Contents()), old(out.Contents()))
            case Ok(v) => r == Pass && out'.Contents() == v
            case Err(_) => r.Fail?
    ensures out' != out ==> fresh(out') && unchanged(arg0, arg1, out)
    ensures old(arg0.isZero) != old(arg1.isZero) ==> out' != out
    ensures old(arg0.isZero) && old(arg1.isZero) ==> (out != arg0 ==> unchanged(arg0)) && (out != arg1 ==> unchanged(arg1))
    ensures r == Pass && !old(arg0.isZero) && !old(arg1.isZero) ==>
              var matched := Matched(b.ctx, old(arg0.Contents()), old(arg1.Contents()));
              && matched.Some?
              && (arg0 != out ==> arg0.Contents() == matched.value.0)
              && (arg1 != out ==> arg1.Contents() == matched.value.1)
  {
    out', r := out, Pass;
    if arg0.isZero && arg1.isZero {
      out.isZero := true;
    } else if arg0.isZero {
      out' := new SealCiphertextWrapper.Copy(arg1);
    } else if arg1.isZero {
      out' := new SealCiphertextWrapper.Copy(arg0);
    } else {
      if arg0.packed != arg1.packed { return out, Fail("complex packing differs"); }
      r := MatchModulusAndScaleInplace(arg0, arg1, b.ctx);
      if r.Fail? { return; }
      var sum := Combined(arg0.Contents(), arg1.Contents(), b.refuses(AddCall(arg0.Contents(), arg1.Contents())), out.packed,
                          AddSlots(arg0.slots, arg1.slots));
      if sum.Err? { return out, Fail(sum.reason); }
      var packing := arg1.packed;
      out.chain, out.scale, out.slots := sum.value.chain, sum.value.scale, sum.value.slots;
      out.packed := packing;
      out.isZero := false;
    }
  }

  method ScalarAddCP(arg0: SealCiphertextWrapper, arg1: HEPlaintext, out: SealCiphertextWrapper, b: Backend)
    returns (out': SealCiphertextWrapper, r: Outcome)
    requires |arg0.slots| == b.slotCount
    modifies out
    ensures match AddCP(b, old(arg0.Contents()), arg1, old(out.Contents()))
            case Ok(v) => r == Pass && out'.Contents() == v
            case Err(_) => r.Fail?
    ensures out' != out ==> fresh(out') && unchanged(out)
  {
    out', r := out, Pass;
    if arg0.isZero {
      r := Encrypt(out, arg1, b);
      if r == Pass { out.isZero := false; }
      return;
    }
    var addZero := arg1.IsSingleValue() && arg1.values[0] == 0.0;
    if addZero {
      out' := new SealCiphertextWrapper.Copy(arg0);
    } else if arg1.IsSingleValue() {
      var value := arg1.values[0];
      if b.refuses(AddPlainCall(arg0.Contents(), arg1)) { return out, Fail("cannot add plaintext"); }
      out.chain, out.scale, out.slots := arg0.chain, arg0.scale, MapSlots(z => Add(z, Real(value)), arg0.slots);
    } else {
      var p := Encode(b, arg1, arg0.chain, arg0.scale);
      if p.Err? { return out, Fail(p.reason); }
      if b.refuses(AddPlainCall(arg0.Contents(), arg1)) { return out, Fail("cannot add plaintext"); }
      out.chain, out.scale, out.slots := arg0.chain, arg0.scale, AddSlots(arg0.slots, p.value);
      out.packed := arg0.packed;
    }
    out'.isZero := false;
  }

  method ScalarMultiplyCC(arg0: SealCiphertextWrapper, arg1: SealCiphertextWrapper, out: SealCiphertextWrapper, b: Backend)
    returns (r: Outcome)
    requires b.Valid() && Usable(b, arg0.Contents()) && Usable(b, arg1.Contents())
    modifies arg0, arg1, out
    ensures match MultiplyCC(b, old(arg0.Contents()), old(arg1.Contents()), old(out.Contents()))
            case Ok(v) => r == Pass && out.Contents() == v
            case Err(_) => r.Fail?
  {
    r := Pass;
    if arg0.isZero || arg1.isZero {
      out.isZero := true;
    } else {
      out.isZero := false;
      r := MatchModulusAndScaleInplace(arg0, arg1, b.ctx);
      if r.Fail? { return; }
      var product := Product(b, arg0.Contents(), arg1.Contents(), out.packed);
      if product.Err? { return Fail(product.reason); }
      out.Set(product.value);
    }
  }

  method ScalarMultiplyCP(arg0: SealCiphertextWrapper, arg1: HEPlaintext, out: SealCiphertextWrapper, b: Backend)
    returns (r: Outcome)
    requires |arg0.slots| == b.slotCount
    modifies out
    ensures match MultiplyCP(b, old(arg0.Contents()), arg1, old(out.Contents()))
            case Ok(v) => r == Pass && out.Contents() == v
            case Err(_) => r.Fail?
  {
    r := Pass;
    if arg0.isZero {
      out.isZero := true;
      return;
    }
    if arg1.AllSmall() {
      out.isZero := true;
    } else {
      var v := arg0.Contents();
      out.isZero := false;
      var packing := arg0.packed;
      if arg1.IsSingleValue() {
        var value := arg1.values[0];
        if b.refuses(MultiplyPlainCall(v, arg1)) { return Fail("cannot multiply plaintext"); }
        out.chain, out.scale, out.slots :=
          arg0.chain, Square(arg0.scale), MapSlots(z => Multiply(z, Real(value)), arg0.slots);
      } else {
        var p := Encode(b, arg1, arg0.chain, arg0.scale);
        if p.Err? { return Fail(p.reason); }
        if arg0.chain == 0 { return Fail("Multiplicative depth exceeded"); }
        if RefusedEarly(b, v, arg1) {
          out.chain, out.scale, out.slots := arg0.chain, arg0.scale, arg0.slots;
        } else {
          out.chain, out.scale, out.slots := arg0.chain, Square(arg0.scale), MultiplySlots(arg0.slots, p.value);
        }
      }
      out.packed := packing;
    }
  }

  method ScalarSubtractCC(arg0: SealCiphertextWrapper, arg1: SealCiphertextWrapper, out: SealCiphertextWrapper, b: Backend)
    returns (out': SealCiphertextWrapper, r: Outcome)
    requires |arg0.slots| == |arg1.slots|
    modifies out
    ensures match SubtractCC(b, old(arg0.Contents()), old(arg1.Contents()), old(out.Contents()))
            case Ok(v) => r == Pass && out'.Contents() == v
            case Err(_) => r.Fail?
    ensures out' != out ==> fresh(out') && unchanged(out)
  {
    out', r := out, Pass;
    if arg0.isZero && arg1.isZero {
      out.isZero := true;
    } else if arg0.isZero {
      out.chain, out.scale, out.slots := arg1.chain, arg1.scale, NegateSlots(arg1.slots);
      out.isZero := false;
    } else if arg1.isZero {
      out' := new SealCiphertextWrapper.Copy(arg0);
      out'.isZero := false;
    } else {
      var difference := Combined(arg0.Contents(), arg1.Contents(), b.refuses(SubtractCall(arg0.Contents(), arg1.Contents())), out.packed,
                                 SubtractSlots(arg0.slots, arg1.slots));
      if difference.Err? { return out, Fail(difference.reason); }
      out.Set(difference.value);
    }
  }

  method ScalarSubtractCP(arg0: SealCiphertextWrapper, arg1: HEPlaintext, out: SealCiphertextWrapper, b: Backend)
    returns (r: Outcome)
    requires |arg0.slots| == b.slotCount
    modifies out
    ensures match SubtractCP(b, old(arg0.Contents()), arg1, old(out.Contents()))
            case Ok(v) => r == Pass && out.Contents() == v
            case Err(_) => r.Fail?
  {
    r := Pass;
    if arg0.isZero {
      var tmp := arg1.Negated(arg0.packed);
      r := Encrypt(out, tmp, b);
    } else {
      var p := Encode(b, arg1, arg0.chain, arg0.scale);
      if p.Err? { return Fail(p.reason); }
      if b.refuses(SubtractPlainCall(arg0.Contents(), arg1)) { return Fail("cannot subtract plaintext"); }
      out.chain, out.scale, out.slots := arg0.chain, arg0.scale, SubtractSlots(arg0.slots, p.value);
    }
    if r == Pass { out.isZero := false; }
  }

  method ScalarSubtractPC(arg0: HEPlaintext, arg1: SealCiphertextWrapper, out: SealCiphertextWrapper, b: Backend)
    returns (out': SealCiphertextWrapper, r: Outcome)
    requires |arg1.slots| == b.slotCount
    modifies out
    ensures match SubtractPC(b, arg0, old(arg1.Contents()), old(out.Contents()))
            case Ok(v) => r == Pass && out'.Contents() == v
            case Err(_) => r.Fail?
    ensures out' != out ==> fresh(out') && unchanged(out)
  {
    out' := out;
    if arg1.isZero {
      r := Encrypt(out, arg0, b);
    } else {
      var tmp := new SealCiphertextWrapper(Zeros(b.slotCount));
      // scalar_negate_seal
      tmp.chain, tmp.scale, tmp.slots := arg1.chain, arg1.scale, NegateSlots(arg1.slots);
      out', r := ScalarAddCP(tmp, arg0, out, b);
    }
    if r == Pass { out'.isZero := false; }
  }
}
