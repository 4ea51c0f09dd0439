/** Result types shared by the models of functions that throw. */
module Outcomes {
  datatype Result<+T> = Ok(value: T) | Err(reason: string)

  datatype Outcome = Pass | Fail(reason: string)

  datatype Option<+T> = None | Some(value: T)
}

/** Integer facts that several models share: powers, quotients and remainders. */
module Arithmetic {
  function Pow(b: nat, n: nat): nat
  {
    if n == 0 then 1 else b * Pow(b, n - 1)
  }

  lemma {:induction false} PowAdd(b: nat, m: nat, n: nat)
    ensures Pow(b, m + n) == Pow(b, m) * Pow(b, n)
  {
    if m == 0 {
    } else {
      PowAdd(b, m - 1, n);
      assert Pow(b, m + n) == b * (Pow(b, m - 1) * Pow(b, n));
      assert b * (Pow(b, m - 1) * Pow(b, n)) == (b * Pow(b, m - 1)) * Pow(b, n) by {
        MulAssoc(b, Pow(b, m - 1), Pow(b, n));
      }
    }
  }

  lemma {:induction false} PowMul(b: nat, m: nat, n: nat)
    ensures Pow(Pow(b, m), n) == Pow(b, m * n)
  {
    if n == 0 {
      assert m * n == 0;
    } else {
      PowMul(b, m, n - 1);
      assert m * n == m + m * (n - 1);
      PowAdd(b, m, m * (n - 1));
    }
  }

  lemma {:induction false} PowPositive(b: nat, n: nat)
    requires b > 0
    ensures Pow(b, n) > 0
  {
    if n == 0 {
    } else {
      PowPositive(b, n - 1);
      MulPositive(b, Pow(b, n - 1));
    }
  }

  lemma {:induction false} PowMonotone(b: nat, m: nat, n: nat)
    requires b > 0 && m <= n
    ensures Pow(b, m) <= Pow(b, n)
  {
    if m == n {
    } else {
      PowMonotone(b, m, n - 1);
      PowPositive(b, n - 1);
      MulAtLeast(b, Pow(b, n - 1));
    }
  }

  lemma MulAssoc(a: int, b: int, c: int)
    ensures a * (b * c) == (a * b) * c
  {}

  lemma MulPositive(a: int, b: int)
    requires a > 0 && b > 0
    ensures a * b > 0
  {}

  lemma MulAtLeast(a: int, b: int)
    requires a > 0 && b >= 0
    ensures a * b >= b
  {}

  lemma MulMono(a: int, b: int, c: int)
    requires a <= b && c >= 0
    ensures a * c <= b * c
  {}

  lemma MulMonoBoth(a: int, b: int, c: int, d: int)
    requires 0 <= a <= b && 0 <= c <= d
    ensures a * c <= b * d
  {
    MulMono(a, b, c);
    MulMono(c, d, b);
  }

  /** Quotient and remainder are determined by their defining equation. */
  lemma DivModUnique(x: int, q: int, k: int, r: int)
    requires 0 <= r < q
    requires x == k * q + r
    ensures x / q == k && x % q == r
  {
    var d := x / q - k;
    assert x == (x / q) * q + x % q;
    assert d * q == r - x % q by {
      assert d * q == (x / q) * q - k * q;
    }
    if d > 0 {
      MulMono(1, d, q);
    } else if d < 0 {
      MulMono(d, -1, q);
    }
  }

  lemma ModAddMultiple(x: int, k: int, q: int)
    requires q > 0
    ensures (x + k * q) % q == x % q
  {
    assert x == (x / q) * q + x % q;
    assert (x / q + k) * q == (x / q) * q + k * q;
    DivModUnique(x + k * q, q, x / q + k, x % q);
  }

  lemma ModAdd(a: int, b: int, q: int)
    requires q > 0
    ensures (a + b) % q == (a % q + b) % q
    ensures (a + b) % q == (a % q + b % q) % q
  {
    var ka, ra, kb, rb := a / q, a % q, b / q, b % q;
    assert a == ra + ka * q && b == rb + kb * q;
    ModAddMultiple(ra + b, ka, q);
    ModAddMultiple(ra + rb, kb, q);
    assert a + b == (ra + b) + ka * q && ra + b == (ra + rb) + kb * q;
  }

  lemma ModMul(a: int, b: int, q: int)
    requires q > 0
    ensures (a * b) % q == (a % q * b) % q == (a % q * (b % q)) % q
  {
    assert a == a % q + (a / q) * q && b == b % q + (b / q) * q;
    assert a * b == a % q * b + (a / q * b) * q by {
      assert (a % q + (a / q) * q) * b == a % q * b + ((a / q) * q) * b;
      assert ((a / q) * q) * b == (a / q * b) * q;
    }
    ModAddMultiple(a % q * b, a / q * b, q);
    assert a % q * b == a % q * (b % q) + (a % q * (b / q)) * q by {
      assert a % q * (b % q + (b / q) * q) == a % q * (b % q) + a % q * ((b / q) * q);
      assert a % q * ((b / q) * q) == (a % q * (b / q)) * q by { MulAssoc(a % q, b / q, q); }
    }
    ModAddMultiple(a % q * (b % q), a % q * (b / q), q);
  }

  /** Equal remainders are the same as a divisible difference. */
  lemma ModEqualIffDivides(a: int, b: int, q: int)
    requires q > 0
    ensures a % q == b % q <==> (a - b) % q == 0
  {
    var d, r := (a - b) / q, (a - b) % q;
    var rest := b + r;
    assert a == rest + d * q;
    ModAddMultiple(rest, d, q);
    if a % q == b % q {
      SameRemainder(b, r, q);
    }
  }

  /** Adding less than the modulus without changing the remainder is adding 0. */
  lemma SameRemainder(b: int, r: int, q: int)
    requires 0 <= r < q && (b + r) % q == b % q
    ensures r == 0
  {
    var k, k' := b / q, (b + r) / q;
    assert b == k * q + b % q && b + r == k' * q + b % q;
    assert r == (k' - k) * q;
    if k' > k {
      MulMono(1, k' - k, q);
    } else if k' < k {
      MulMono(k' - k, -1, q);
    }
  }

  /** Quotient and remainder of a number below a product. */
  lemma QuotientInRange(k: nat, d: nat, rest: nat)
    requires k < d * rest
    ensures rest > 0 && 0 <= k / rest < d && k % rest < rest && k == k / rest * rest + k % rest
  {
    assert rest != 0;
    assert k == k / rest * rest + k % rest;
    if k / rest >= d { MulMono(d, k / rest, rest); }
    if k / rest < 0 { MulMono(k / rest, -1, rest); }
  }
}

/** Absolute values and monotonicity of products of reals. */
module RealArithmetic {
  function Abs(x: real): (r: real)
    ensures r >= 0.0
  {
    if x < 0.0 then -x else x
  }

  lemma RealProductPositive(x: real, y: real, p: real)
    requires x > 0.0 && y > 0.0 && p == x * y
    ensures p > 0.0
  {}

  function Square(x: real): (y: real)
    ensures x > 0.0 ==> y > 0.0
  {
    var y := x * x;
    if x > 0.0 then RealProductPositive(x, x, y); y else y
  }

  lemma RealMulMono(a: real, b: real, c: real)
    requires a <= b && c >= 0.0
    ensures a * c <= b * c
  {}

  lemma RealMulMonoStrict(a: real, b: real, c: real)
    requires a < b && c > 0.0
    ensures a * c < b * c
  {}

  lemma RealMulAssoc(x: real, y: real, z: real, p: real)
    requires p == y * z
    ensures (x * y) * z == x * p
  {}

  lemma QuotientPositive(x: real, y: real)
    requires x > 0.0 && y > 0.0
    ensures x * y > 0.0 && x / y > 0.0
  {
    if x / y <= 0.0 { assert x == x / y * y; }
  }
}
