/**
 * Why the scalar forms in RnsCiphertext are right: they commute with decryption
 * for any number of components and any key, and they agree with encoding the
 * constant polynomial, transforming it and working coefficient by coefficient.
 */
module PlainOpsCommute {
  import opened Arithmetic
  import opened Rns
  import opened ScalarEncoding
  import opened RnsCiphertext

  /** The first c terms of c_0 + c_1 s + c_2 s^2 + ... at one modulus and slot. */
  ghost function Terms(shape: Layout, d: seq<nat>, s: nat, c: nat, j: nat, t: nat): nat
    requires |d| == shape.Length() && c <= shape.size && j < |shape.moduli| && t < shape.n
  {
    if c == 0 then 0 else Terms(shape, d, s, c - 1, j, t) + shape.At(d, c - 1, j, t) * Pow(s, c - 1)
  }

  /** Decryption of one slot under the key value s held at that modulus and slot. */
  ghost function Decrypt(shape: Layout, d: seq<nat>, s: nat, j: nat, t: nat): nat
    requires |d| == shape.Length() && j < |shape.moduli| && t < shape.n && shape.moduli[j] > 0
  {
    Terms(shape, d, s, shape.size, j, t) % shape.moduli[j]
  }

  /** For the two components of a fresh ciphertext and the three of a product. */
  lemma DecryptOfTwoAndThree(shape: Layout, d: seq<nat>, s: nat, j: nat, t: nat)
    requires |d| == shape.Length() && j < |shape.moduli| && t < shape.n && shape.moduli[j] > 0
    ensures shape.size == 2 ==> Decrypt(shape, d, s, j, t) == (shape.At(d, 0, j, t) + shape.At(d, 1, j, t) * s) % shape.moduli[j]
    ensures shape.size == 3 ==>
              Decrypt(shape, d, s, j, t)
              == (shape.At(d, 0, j, t) + shape.At(d, 1, j, t) * s + shape.At(d, 2, j, t) * (s * s)) % shape.moduli[j]
  {
    assert Pow(s, 0) == 1 && Pow(s, 1) == s * 1 == s && Pow(s, 2) == s * Pow(s, 1) == s * s;
    if shape.size >= 2 {
      assert Terms(shape, d, s, 0, j, t) == 0;
      assert Terms(shape, d, s, 1, j, t) == shape.At(d, 0, j, t) * Pow(s, 0) == shape.At(d, 0, j, t);
      assert Terms(shape, d, s, 2, j, t) == shape.At(d, 0, j, t) + shape.At(d, 1, j, t) * Pow(s, 1);
    }
    if shape.size == 3 {
      assert Terms(shape, d, s, 3, j, t) == Terms(shape, d, s, 2, j, t) + shape.At(d, 2, j, t) * Pow(s, 2);
    }
  }

  lemma {:induction false} TermsAfterAdd(shape: Layout, d: seq<nat>, d': seq<nat>, vals: seq<int>, s: nat, c: nat, j: nat, t: nat)
    requires |d| == shape.Length() && c <= shape.size && j < |shape.moduli| && t < shape.n
    requires |vals| == |shape.moduli| && forall k :: 0 <= k < |shape.moduli| ==> shape.moduli[k] > 0
    requires shape.Related(d, d', AddAt(vals, shape.moduli, |shape.moduli|))
    ensures Terms(shape, d', s, c, j, t) % shape.moduli[j]
            == (Terms(shape, d, s, c, j, t) + if c > 0 then vals[j] else 0) % shape.moduli[j]
  {
    var q := shape.moduli[j];
    if c == 0 {
    } else {
      TermsAfterAdd(shape, d, d', vals, s, c - 1, j, t);
      assert shape.Has(c - 1, j, t);
      var x := shape.At(d, c - 1, j, t);
      var prev, prev' := Terms(shape, d, s, c - 1, j, t), Terms(shape, d', s, c - 1, j, t);
      if c == 1 {
        assert Pow(s, 0) == 1;
        assert Terms(shape, d, s, 0, j, t) == Terms(shape, d', s, 0, j, t) == 0;
        assert Terms(shape, d', s, 1, j, t) == (x + vals[j]) % q;
        ModAdd(x + vals[j], 0, q);
      } else {
        var term := x * Pow(s, c - 1);
        ModAdd(prev', term, q);
        ModAdd(prev + vals[j], term, q);
        assert prev + vals[j] + term == prev + term + vals[j];
      }
    }
  }

  lemma {:induction false} TermsAfterMultiply(shape: Layout, d: seq<nat>, d': seq<nat>, vals: seq<int>, s: nat, c: nat, j: nat, t: nat)
    requires |d| == shape.Length() && c <= shape.size && j < |shape.moduli| && t < shape.n
    requires |vals| == |shape.moduli| && forall k :: 0 <= k < |shape.moduli| ==> shape.moduli[k] > 0
    requires shape.Related(d, d', MultiplyAt(vals, shape.moduli, shape.size, 0))
    ensures Terms(shape, d', s, c, j, t) % shape.moduli[j] == (Terms(shape, d, s, c, j, t) * vals[j]) % shape.moduli[j]
  {
    hide Pow;
    var q := shape.moduli[j];
    if c > 0 {
      TermsAfterMultiply(shape, d, d', vals, s, c - 1, j, t);
      assert shape.Has(c - 1, j, t);
      var x, w := shape.At(d, c - 1, j, t), Pow(s, c - 1);
      var prev, prev' := Terms(shape, d, s, c - 1, j, t), Terms(shape, d', s, c - 1, j, t);
      assert shape.At(d', c - 1, j, t) == (x * vals[j]) % q;
      ProductOfReduced(x, vals[j], w, q);
      SumOfCongruent(prev', prev * vals[j], (x * vals[j]) % q * w, (x * w) * vals[j], q);
      assert prev * vals[j] + (x * w) * vals[j] == (prev + x * w) * vals[j];
    } else {
      assert 0 * vals[j] == 0;
    }
  }

  lemma ProductOfReduced(x: int, v: int, w: int, q: int)
    requires q > 0
    ensures ((x * v) % q * w) % q == ((x * w) * v) % q
  {
    ModMul(x * v, w, q);
    assert (x * v) * w == (x * w) * v;
  }

  lemma SumOfCongruent(a: int, a': int, b: int, b': int, q: int)
    requires q > 0 && a % q == a' % q && b % q == b' % q
    ensures (a + b) % q == (a' + b') % q
  {
    ModAdd(a, b, q);
    ModAdd(a', b', q);
  }

  /** Adding a plaintext and then decrypting is decrypting and then adding the encoded integer. */
  lemma AddPlainCommutes(shape: Layout, d: seq<nat>, d': seq<nat>, value: real, scale: real, n: int, s: nat, j: nat, t: nat)
    requires shape.size > 0 && IsNearest(value * scale, n) && ValidModuli(shape.moduli) && j < |shape.moduli| && t < shape.n
    requires |d| == shape.Length() && value != 0.0
    requires Encoding(value, scale, Level(shape.moduli)).Ok?
    requires shape.Related(d, d', AddAt(Encoding(value, scale, Level(shape.moduli)).value, shape.moduli, |shape.moduli|))
    ensures Decrypt(shape, d', s, j, t) == (Decrypt(shape, d, s, j, t) + n) % shape.moduli[j]
  {
    var vals := Encoding(value, scale, Level(shape.moduli)).value;
    var q, m := shape.moduli[j], n;
    EncodingIsNearest(value, scale, Level(shape.moduli), n);
    TermsAfterAdd(shape, d, d', vals, s, shape.size, j, t);
    assert vals[j] == m % q;
    ModAdd(Terms(shape, d, s, shape.size, j, t), m, q);
    ModAdd(m, Terms(shape, d, s, shape.size, j, t), q);
  }

  /** Multiplying by a plaintext and then decrypting is decrypting and then multiplying. */
  lemma MultiplyPlainCommutes(shape: Layout, d: seq<nat>, d': seq<nat>, value: real, scale: real, n: int, s: nat, j: nat, t: nat)
    requires IsNearest(value * scale, n) && ValidModuli(shape.moduli) && j < |shape.moduli| && t < shape.n
    requires |d| == shape.Length() && value != 0.0
    requires Encoding(value, scale, Level(shape.moduli)).Ok?
    requires shape.Related(d, d', MultiplyAt(Encoding(value, scale, Level(shape.moduli)).value, shape.moduli, shape.size, 0))
    ensures Decrypt(shape, d', s, j, t) == (Decrypt(shape, d, s, j, t) * n) % shape.moduli[j]
  {
    var vals := Encoding(value, scale, Level(shape.moduli)).value;
    var q, m := shape.moduli[j], n;
    EncodingIsNearest(value, scale, Level(shape.moduli), n);
    var whole := Terms(shape, d, s, shape.size, j, t);
    TermsAfterMultiply(shape, d, d', vals, s, shape.size, j, t);
    assert vals[j] == m % q;
    ModMul(whole, m, q);
    ModMul(m, whole, q);
    assert m * whole == whole * m && (m % q) * whole == whole * (m % q);
  }

  // --------------------------------------------- the general polynomial form

  /** Value of a polynomial at a point, modulo q: what one slot of the transformed plaintext holds. */
  function Evaluate(poly: seq<int>, root: nat, q: nat): nat
    requires q > 0
  {
    EvaluateRaw(poly, root) % q
  }

  function EvaluateRaw(poly: seq<int>, root: nat): int
  {
    if poly == [] then 0 else poly[0] + root * EvaluateRaw(poly[1..], root)
  }

  /** Each further coefficient comes with the next power of the point. */
  lemma {:induction false} EvaluateNext(poly: seq<int>, a: int, root: nat)
    ensures EvaluateRaw([], root) == 0 && EvaluateRaw(poly + [a], root) == EvaluateRaw(poly, root) + a * Pow(root, |poly|)
  {
    if poly == [] {
      assert [] + [a] == [a] && [a][1..] == [] && Pow(root, 0) == 1;
    } else {
      var low, p := EvaluateRaw(poly[1..], root), Pow(root, |poly| - 1);
      assert (poly + [a])[1..] == poly[1..] + [a];
      EvaluateNext(poly[1..], a, root);
      assert root * (low + a * p) == root * low + a * (root * p);
    }
  }

  function ConstantPoly(m: int, n: nat): seq<int>
    requires n > 0
  {
    [m] + seq(n - 1, _ => 0)
  }

  lemma {:induction false} ZerosEvaluate(poly: seq<int>, root: nat)
    requires forall i :: 0 <= i < |poly| ==> poly[i] == 0
    ensures EvaluateRaw(poly, root) == 0
  {
    if poly == [] {
    } else {
      ZerosEvaluate(poly[1..], root);
    }
  }

  /** A constant polynomial has the same residue in every slot, whatever the transform's points. */
  lemma ConstantEverywhere(m: int, n: nat, root: nat, q: nat)
    requires n > 0 && q > 0
    ensures Evaluate(ConstantPoly(m, n), root, q) == m % q
  {
    ZerosEvaluate(ConstantPoly(m, n)[1..], root);
  }

  /** The scalar forms leave exactly what polynomial addition and the dyadic product would. */
  lemma ScalarFormIsPolynomialForm(shape: Layout, d: seq<nat>, added: seq<nat>, multiplied: seq<nat>,
                                   value: real, scale: real, n: int, roots: (nat, nat) -> nat, i: nat, j: nat, t: nat)
    requires IsNearest(value * scale, n) && ValidModuli(shape.moduli) && |d| == shape.Length() && shape.Has(i, j, t) && value != 0.0
    requires shape.Reduced(d)
    requires Encoding(value, scale, Level(shape.moduli)).Ok?
    requires shape.Related(d, added, AddAt(Encoding(value, scale, Level(shape.moduli)).value, shape.moduli, |shape.moduli|))
    requires shape.Related(d, multiplied, MultiplyAt(Encoding(value, scale, Level(shape.moduli)).value, shape.moduli, shape.size, 0))
    ensures var plain := Evaluate(ConstantPoly(n, shape.n), roots(j, t), shape.moduli[j]);
            && shape.At(added, i, j, t) == (shape.At(d, i, j, t) + if i == 0 then plain else 0) % shape.moduli[j]
            && shape.At(multiplied, i, j, t) == (shape.At(d, i, j, t) * plain) % shape.moduli[j]
  {
    ConstantEverywhere(n, shape.n, roots(j, t), shape.moduli[j]);
    EncodingIsNearest(value, scale, Level(shape.moduli), n);
    var x := shape.At(d, i, j, t);
    assert x < shape.moduli[j];
    DivModUnique(x, shape.moduli[j], 0, x);
  }
}
