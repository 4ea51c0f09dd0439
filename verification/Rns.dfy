/**
 * The residue number system underneath a modulus chain: machine words, the
 * coefficient moduli of one encryption level, and the Chinese remainder facts
 * that make a residue vector stand for one signed integer.
 */
module Rns {
  import opened Arithmetic

  const WORD: nat := 0x1_0000_0000_0000_0000
  const MODULUS_BOUND: nat := 0x4000_0000_0000_0000

  type Word = x: nat | x < WORD

  lemma WordIsPowerOfTwo()
    ensures Pow(2, 62) == MODULUS_BOUND && Pow(2, 64) == WORD
  {
    assert Pow(2, 8) == 256;
    PowAdd(2, 8, 8);
    PowAdd(2, 16, 16);
    PowAdd(2, 32, 32);
    PowAdd(2, 62, 2);
    assert Pow(2, 2) == 4;
  }

  ghost predicate Divides(d: int, n: int)
    requires d > 0
  {
    n % d == 0
  }

  lemma DividesWitness(d: int, n: int, k: int)
    requires d > 0 && n == k * d
    ensures Divides(d, n)
  {
    DivModUnique(n, d, k, 0);
  }

  lemma DividesCombination(d: int, a: int, b: int, x: int, y: int)
    requires d > 0 && Divides(d, a) && Divides(d, b)
    ensures Divides(d, a * x + b * y)
  {
    var p, r := a / d, b / d;
    assert a == p * d && b == r * d;
    assert a * x + b * y == (p * x + r * y) * d by {
      assert (p * d) * x == (p * x) * d && (r * d) * y == (r * y) * d;
    }
    DividesWitness(d, a * x + b * y, p * x + r * y);
  }

  ghost predicate Coprime(a: nat, b: nat)
  {
    forall d: int :: d > 0 && Divides(d, a) && Divides(d, b) ==> d == 1
  }

  /** Euclid's algorithm, run for its coefficients. */
  lemma {:induction false} Bezout(a: nat, b: nat) returns (x: int, y: int)
    requires a > 0 || b > 0
    ensures a * x + b * y > 0
    ensures Divides(a * x + b * y, a) && Divides(a * x + b * y, b)
    decreases b
  {
    if b == 0 {
      x, y := 1, 0;
      DividesWitness(a, a, 1);
    } else {
      var u, v := Bezout(b, a % b);
      var k := a / b;
      x, y := v, u - k * v;
      assert a == k * b + a % b;
      var g := b * u + a % b * v;
      assert a * x + b * y == g by {
        assert a * v == (k * b) * v + a % b * v;
        assert b * (u - k * v) == b * u - (k * b) * v;
      }
      DividesCombination(g, b, a % b, k, 1);
    }
  }

  lemma CoprimeBezout(a: nat, b: nat) returns (x: int, y: int)
    requires Coprime(a, b) && a > 0
    ensures a * x + b * y == 1
  {
    x, y := Bezout(a, b);
    var g := a * x + b * y;
    assert g > 0 && Divides(g, a) && Divides(g, b);
  }

  lemma CoprimeProduct(a: nat, b: nat, c: nat)
    requires a > 0 && Coprime(a, c) && Coprime(b, c)
    ensures Coprime(a * b, c)
  {
    var x, y := CoprimeBezout(a, c);
    forall d: int | d > 0 && Divides(d, a * b) && Divides(d, c)
      ensures d == 1
    {
      DividesCombination(d, a * b, c, x, b * y);
      assert (a * b) * x + c * (b * y) == b * (a * x + c * y);
      assert b * (a * x + c * y) == b;
      assert Divides(d, b);
    }
  }

  lemma CoprimeFactorsDivide(a: nat, b: nat, n: int)
    requires a > 0 && b > 0 && Coprime(a, b)
    requires Divides(a, n) && Divides(b, n)
    ensures a * b > 0 && Divides(a * b, n)
  {
    MulPositive(a, b);
    var x, y := CoprimeBezout(a, b);
    var l, k := n / a, n / b;
    assert n == l * a && n == k * b;
    assert n == (x * k + y * l) * (a * b) by {
      assert n == n * (a * x + b * y) == n * (a * x) + n * (b * y);
      assert n * (a * x) == (k * b) * (a * x) == (x * k) * (a * b);
      assert n * (b * y) == (l * a) * (b * y) == (y * l) * (a * b);
      assert (x * k) * (a * b) + (y * l) * (a * b) == (x * k + y * l) * (a * b);
    }
    DividesWitness(a * b, n, x * k + y * l);
  }

  /** What the encryption parameters promise of one level's moduli. */
  ghost predicate ValidModuli(qs: seq<nat>)
  {
    && |qs| > 0
    && (forall j :: 0 <= j < |qs| ==> 1 < qs[j] < MODULUS_BOUND && qs[j] % 2 == 1)
    && (forall i, j :: 0 <= i < j < |qs| ==> Coprime(qs[i], qs[j]))
  }

  function Product(qs: seq<nat>): nat
  {
    if qs == [] then 1 else qs[0] * Product(qs[1..])
  }

  lemma {:induction false} ProductAppends(qs: seq<nat>, q: nat)
    ensures Product([]) == 1 && Product(qs + [q]) == Product(qs) * q
  {
    if qs == [] {
      assert qs + [q] == [q] && [q][1..] == [];
    } else {
      assert (qs + [q])[1..] == qs[1..] + [q];
      ProductAppends(qs[1..], q);
      MulAssoc(qs[0], Product(qs[1..]), q);
    }
  }

  function Residues(x: int, qs: seq<nat>): (rs: seq<int>)
    requires forall j :: 0 <= j < |qs| ==> qs[j] > 0
  {
    seq(|qs|, j requires 0 <= j < |qs| => x % qs[j])
  }

  lemma {:induction false} ProductPositive(qs: seq<nat>)
    requires forall j :: 0 <= j < |qs| ==> qs[j] > 0
    ensures Product(qs) > 0
  {
    if qs == [] {
    } else {
      ProductPositive(qs[1..]);
      MulPositive(qs[0], Product(qs[1..]));
    }
  }

  lemma {:induction false} ProductOdd(qs: seq<nat>)
    requires forall j :: 0 <= j < |qs| ==> qs[j] % 2 == 1
    ensures Product(qs) % 2 == 1
  {
    if qs == [] {
    } else {
      ProductOdd(qs[1..]);
      ModMul(qs[0], Product(qs[1..]), 2);
    }
  }

  lemma {:induction false} ProductBelow(qs: seq<nat>)
    requires forall j :: 0 <= j < |qs| ==> qs[j] < MODULUS_BOUND
    ensures Product(qs) <= Pow(MODULUS_BOUND, |qs|)
  {
    if qs == [] {
    } else {
      ProductBelow(qs[1..]);
      MulMonoBoth(qs[0], MODULUS_BOUND, Product(qs[1..]), Pow(MODULUS_BOUND, |qs| - 1));
    }
  }

  lemma {:induction false} CoprimeToProduct(q: nat, qs: seq<nat>)
    requires q > 0
    requires forall j :: 0 <= j < |qs| ==> qs[j] > 0 && Coprime(q, qs[j])
    ensures Coprime(q, Product(qs))
  {
    if qs == [] {
      forall d: int | d > 0 && Divides(d, q) && Divides(d, 1)
        ensures d == 1
      {
        assert 1 == (1 / d) * d + 1 % d;
        if d > 1 { DivModUnique(1, d, 0, 1); }
      }
    } else {
      CoprimeToProduct(q, qs[1..]);
      assert Coprime(qs[0], q) && Coprime(Product(qs[1..]), q);
      CoprimeProduct(qs[0], Product(qs[1..]), q);
    }
  }

  lemma {:induction false} ProductDivides(qs: seq<nat>, n: int)
    requires forall j :: 0 <= j < |qs| ==> qs[j] > 0 && Divides(qs[j], n)
    requires forall i, j :: 0 <= i < j < |qs| ==> Coprime(qs[i], qs[j])
    ensures Product(qs) > 0 && Divides(Product(qs), n)
  {
    ProductPositive(qs);
    if qs == [] {
      DividesWitness(1, n, n);
    } else {
      ProductDivides(qs[1..], n);
      CoprimeToProduct(qs[0], qs[1..]);
      CoprimeFactorsDivide(qs[0], Product(qs[1..]), n);
    }
  }

  predicate Centred(x: int, q: int)
  {
    -q < 2 * x < q
  }

  /**
   * Chinese remainder uniqueness for signed integers: inside (-Q/2, Q/2) equal
   * residue vectors mean equal integers.
   */
  lemma ResiduesDetermine(qs: seq<nat>, a: int, b: int)
    requires ValidModuli(qs)
    requires Centred(a, Product(qs)) && Centred(b, Product(qs))
    requires Residues(a, qs) == Residues(b, qs)
    ensures a == b
  {
    forall j | 0 <= j < |qs| ensures Divides(qs[j], a - b) {
      assert Residues(a, qs)[j] == Residues(b, qs)[j];
      ModEqualIffDivides(a, b, qs[j]);
    }
    ProductDivides(qs, a - b);
    var q := Product(qs);
    var k := (a - b) / q;
    assert a - b == k * q;
    if k > 0 {
      MulMono(1, k, q);
    } else if k < 0 {
      MulMono(k, -1, q);
    }
  }

  /** Number of bits of n, as total_coeff_modulus_bit_count reports it. */
  function BitCount(n: nat): nat
  {
    if n == 0 then 0 else 1 + BitCount(n / 2)
  }

  lemma {:induction false} BitCountBounds(n: nat)
    requires n > 0
    ensures BitCount(n) > 0
    ensures Pow(2, BitCount(n) - 1) <= n < Pow(2, BitCount(n))
  {
    if n > 1 {
      BitCountBounds(n / 2);
    } else {
      assert BitCount(1) == 1;
    }
  }

  /** A word buffer of one limb per modulus holds every integer below Q. */
  lemma ProductFitsLimbs(qs: seq<nat>)
    requires ValidModuli(qs)
    ensures BitCount(Product(qs)) <= 62 * |qs| + 1
    ensures Product(qs) <= Pow(2, 62 * |qs|)
  {
    hide Product, BitCount;
    ProductBelow(qs);
    WordIsPowerOfTwo();
    PowMul(2, 62, |qs|);
    ProductPositive(qs);
    BitCountBounds(Product(qs));
    if BitCount(Product(qs)) > 62 * |qs| + 1 {
      PowPositive(2, 62 * |qs|);
      PowMonotone(2, 62 * |qs| + 1, BitCount(Product(qs)) - 1);
    }
  }
}
