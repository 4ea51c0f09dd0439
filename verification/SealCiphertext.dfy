/**
 * Ciphertext wrappers (src/seal/seal_ciphertext_wrapper.hpp) over an idealised
 * evaluator: a ciphertext is the slot vector it decrypts and decodes to,
 * together with its level and scale, and the evaluator works on slots exactly.
 */
module SealCiphertext {
  import opened ComplexNumbers

  type Slots = seq<Complex>

  /** A wrapper's fields as one value. */
  datatype View = View(isZero: bool, packed: bool, chain: nat, scale: real, slots: Slots)
  {
    /** What the wrapper denotes: 0 when flagged, otherwise its decryption. */
    function Value(): (v: Slots)
      ensures |v| == |slots|
    {
      if isZero then Zeros(|slots|) else slots
    }
  }

  function Zeros(n: nat): (v: Slots)
    ensures |v| == n && forall i :: 0 <= i < n ==> v[i] == ZERO
  {
    seq(n, _ => ZERO)
  }

  class SealCiphertextWrapper {
    var isZero: bool
    var packed: bool
    var chain: nat
    var scale: real
    var slots: Slots

    function Contents(): View
      reads this
    {
      View(isZero, packed, chain, scale, slots)
    }

    /** An empty ciphertext: what decrypting it would give is unspecified. */
    constructor (unspecified: Slots)
      ensures Contents() == Empty(unspecified)
    {
      isZero, packed, chain, scale, slots := false, false, 0, 1.0, unspecified;
    }

    constructor Copy(other: SealCiphertextWrapper)
      ensures Contents() == other.Contents()
    {
      isZero, packed, chain, scale, slots := other.isZero, other.packed, other.chain, other.scale, other.slots;
    }

    method Set(v: View)
      modifies this
      ensures Contents() == v
    {
      isZero, packed, chain, scale, slots := v.isZero, v.packed, v.chain, v.scale, v.slots;
    }
  }

  /** The objects' contents, in order. */
  ghost predicate Holds(objects: seq<SealCiphertextWrapper>, views: seq<View>)
    reads objects
  {
    |objects| == |views| && forall i :: 0 <= i < |views| ==> objects[i].Contents() == views[i]
  }

  ghost function Views(objects: seq<SealCiphertextWrapper>): (views: seq<View>)
    reads objects
    ensures Holds(objects, views)
  {
    seq(|objects|, i requires 0 <= i < |objects| reads objects => objects[i].Contents())
  }

  /** The next output is stored. */
  method Store(out: array<SealCiphertextWrapper>, at: nat, cell: SealCiphertextWrapper, ghost views: seq<View>)
    requires at == |views| < out.Length && Holds(out[..at], views)
    modifies out
    ensures Holds(out[..at + 1], views + [cell.Contents()])
  {
    out[at] := cell;
    assert out[..at + 1] == old(out[..at]) + [cell];
  }

  function Empty(unspecified: Slots): View
  {
    View(false, false, 0, 1.0, unspecified)
  }

  /** Slot-wise arithmetic. */
  function MapSlots(f: Complex -> Complex, a: Slots): (c: Slots)
    ensures |c| == |a| && forall i :: 0 <= i < |a| ==> c[i] == f(a[i])
  {
    seq(|a|, i requires 0 <= i < |a| => f(a[i]))
  }

  function AddSlots(a: Slots, b: Slots): (c: Slots)
    requires |a| == |b|
    ensures |c| == |a| && forall i :: 0 <= i < |a| ==> c[i] == Add(a[i], b[i])
  {
    seq(|a|, i requires 0 <= i < |a| => Add(a[i], b[i]))
  }

  function MultiplySlots(a: Slots, b: Slots): (c: Slots)
    requires |a| == |b|
    ensures |c| == |a| && forall i :: 0 <= i < |a| ==> c[i] == Multiply(a[i], b[i])
  {
    seq(|a|, i requires 0 <= i < |a| => Multiply(a[i], b[i]))
  }

  function NegateSlots(a: Slots): (c: Slots)
    ensures |c| == |a| && forall i :: 0 <= i < |a| ==> c[i] == Negate(a[i])
  {
    seq(|a|, i requires 0 <= i < |a| => Negate(a[i]))
  }

  function SubtractSlots(a: Slots, b: Slots): (c: Slots)
    requires |a| == |b|
    ensures |c| == |a| && forall i :: 0 <= i < |a| ==> c[i] == Subtract(a[i], b[i])
  {
    seq(|a|, i requires 0 <= i < |a| => Subtract(a[i], b[i]))
  }

  lemma AddZeros(a: Slots, n: nat)
    requires |a| == n
    ensures AddSlots(a, Zeros(n)) == a && AddSlots(Zeros(n), a) == a
  {
    forall i | 0 <= i < n ensures AddSlots(a, Zeros(n))[i] == a[i] && AddSlots(Zeros(n), a)[i] == a[i] {
      assert a[i] == Complex(a[i].re, a[i].im);
    }
  }

  lemma SubtractZeros(a: Slots, n: nat)
    requires |a| == n
    ensures SubtractSlots(a, Zeros(n)) == a && SubtractSlots(Zeros(n), a) == NegateSlots(a)
  {
    forall i | 0 <= i < n ensures SubtractSlots(a, Zeros(n))[i] == a[i] && SubtractSlots(Zeros(n), a)[i] == Negate(a[i]) {
      assert a[i] == Complex(a[i].re, a[i].im);
    }
  }

  lemma MultiplyZeros(a: Slots, n: nat)
    requires |a| == n
    ensures MultiplySlots(a, Zeros(n)) == Zeros(n) && MultiplySlots(Zeros(n), a) == Zeros(n)
  {
    forall i | 0 <= i < n ensures MultiplySlots(a, Zeros(n))[i] == ZERO && MultiplySlots(Zeros(n), a)[i] == ZERO {}
  }
}
