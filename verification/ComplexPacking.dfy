/** Complex slot values and their arithmetic. */
module ComplexNumbers {
  datatype Complex = Complex(re: real, im: real)

  const ZERO := Complex(0.0, 0.0)

  function Real(x: real): Complex
  {
    Complex(x, 0.0)
  }

  function Add(a: Complex, b: Complex): Complex
  {
    Complex(a.re + b.re, a.im + b.im)
  }

  function Negate(a: Complex): Complex
  {
    Complex(-a.re, -a.im)
  }

  function Subtract(a: Complex, b: Complex): Complex
  {
    Add(a, Negate(b))
  }

  function Multiply(a: Complex, b: Complex): Complex
  {
    Complex(a.re * b.re - a.im * b.im, a.re * b.im + a.im * b.re)
  }

  /** Change of scale label: the decoded value is multiplied by a real. */
  function Scale(a: Complex, f: real): Complex
  {
    Complex(a.re * f, a.im * f)
  }

  /** They are the complex numbers: a commutative ring over the reals in which the imaginary unit squares to -1. */
  lemma ComplexLaws(a: Complex, b: Complex, c: Complex, x: real)
    ensures Add(a, ZERO) == a && Add(a, b) == Add(b, a) && Add(Add(a, b), c) == Add(a, Add(b, c)) && Add(a, Negate(a)) == ZERO
    ensures Subtract(Add(a, b), b) == a
    ensures Multiply(Real(1.0), a) == a && Multiply(a, b) == Multiply(b, a)
    ensures Multiply(a, Add(b, c)) == Add(Multiply(a, b), Multiply(a, c))
    ensures Multiply(Complex(0.0, 1.0), Complex(0.0, 1.0)) == Real(-1.0)
    ensures Multiply(Real(x), a) == Scale(a, x) && a == Add(Real(a.re), Multiply(Real(a.im), Complex(0.0, 1.0)))
  {
    Distributes(a, b, c);
  }

  lemma Distributes(a: Complex, b: Complex, c: Complex)
    ensures Multiply(a, Add(b, c)) == Add(Multiply(a, b), Multiply(a, c))
  {}
}

/** Packing of real vectors into complex ones and back (src/seal/client_util.hpp). */
module ComplexPacking {
  import opened ComplexNumbers

  /** Consecutive pairs; an odd last element is paired with 0. */
  function Pack(xs: seq<real>): seq<Complex>
  {
    if |xs| == 0 then []
    else if |xs| == 1 then [Complex(xs[0], 0.0)]
    else [Complex(xs[0], xs[1])] + Pack(xs[2..])
  }

  function Unpack(cs: seq<Complex>): (xs: seq<real>)
    ensures |xs| == 2 * |cs|
  {
    if cs == [] then [] else [cs[0].re, cs[0].im] + Unpack(cs[1..])
  }

  lemma {:induction false} PackLength(xs: seq<real>)
    ensures |Pack(xs)| == (|xs| + 1) / 2
  {
    if |xs| <= 1 {
    } else {
      PackLength(xs[2..]);
    }
  }

  lemma {:induction false} PackAppendPair(xs: seq<real>, a: real, b: real)
    requires |xs| % 2 == 0
    ensures Pack(xs + [a, b]) == Pack(xs) + [Complex(a, b)]
  {
    if |xs| == 0 {
      assert xs + [a, b] == [a, b];
    } else {
      assert (xs + [a, b])[2..] == xs[2..] + [a, b];
      PackAppendPair(xs[2..], a, b);
    }
  }

  lemma {:induction false} PackAppendLast(xs: seq<real>, a: real)
    requires |xs| % 2 == 0
    ensures Pack(xs + [a]) == Pack(xs) + [Complex(a, 0.0)]
  {
    if |xs| == 0 {
      assert xs + [a] == [a];
    } else {
      assert (xs + [a])[2..] == xs[2..] + [a];
      PackAppendLast(xs[2..], a);
    }
  }

  lemma {:induction false} UnpackAppend(cs: seq<Complex>, c: Complex)
    ensures Unpack(cs + [c]) == Unpack(cs) + [c.re, c.im]
  {
    if cs == [] {
      assert cs + [c] == [c];
    } else {
      assert (cs + [c])[1..] == cs[1..] + [c];
      UnpackAppend(cs[1..], c);
    }
  }

  /** Unpacking undoes packing, up to one trailing 0 for an odd length. */
  lemma {:induction false} UnpackPack(xs: seq<real>)
    ensures Unpack(Pack(xs)) == if |xs| % 2 == 0 then xs else xs + [0.0]
  {
    if |xs| == 0 {
    } else if |xs| == 1 {
      assert Unpack([Complex(xs[0], 0.0)]) == [xs[0], 0.0];
    } else {
      UnpackPack(xs[2..]);
      assert xs == [xs[0], xs[1]] + xs[2..];
    }
  }

  /** Packing undoes unpacking, with no remainder. */
  lemma {:induction false} PackUnpack(cs: seq<Complex>)
    ensures Pack(Unpack(cs)) == cs
  {
    if cs == [] {
    } else {
      assert Unpack(cs)[2..] == Unpack(cs[1..]);
      PackUnpack(cs[1..]);
    }
  }

  lemma {:induction false} UnpackPrefix(cs: seq<Complex>, n: nat)
    requires n <= |cs|
    ensures Unpack(cs[..n]) == Unpack(cs)[..2 * n]
  {
    if n == 0 {
    } else {
      assert cs[..n][1..] == cs[1..][..n - 1];
      UnpackPrefix(cs[1..], n - 1);
    }
  }

  lemma {:induction false} UnpackAt(cs: seq<Complex>, i: nat)
    requires i < |cs|
    ensures Unpack(cs)[2 * i] == cs[i].re && Unpack(cs)[2 * i + 1] == cs[i].im
  {
    if i == 0 {
    } else {
      UnpackAt(cs[1..], i - 1);
    }
  }

  /** real_vec_to_complex_vec */
  method RealVecToComplexVec(input: seq<real>) returns (output: seq<Complex>)
    ensures output == Pack(input)
  {
    output := [];
    var complexParts := [0.0, 0.0];
    for i := 0 to |input|
      invariant |complexParts| == 2
      invariant i == |input| ==> output == Pack(input)
      invariant i < |input| && i % 2 == 0 ==> output == Pack(input[..i]) && complexParts == [0.0, 0.0]
      invariant i < |input| && i % 2 == 1 ==> output == Pack(input[..i - 1]) && complexParts == [input[i - 1], 0.0]
    {
      complexParts := complexParts[i % 2 := input[i]];
      if i % 2 == 1 || i == |input| - 1 {
        output := output + [Complex(complexParts[0], complexParts[1])];
        complexParts := [0.0, 0.0];
        if i % 2 == 1 {
          PackAppendPair(input[..i - 1], input[i - 1], input[i]);
          assert input[..i + 1] == input[..i - 1] + [input[i - 1], input[i]];
        } else {
          PackAppendLast(input[..i], input[i]);
          assert input[..i + 1] == input[..i] + [input[i]];
        }
        assert i + 1 == |input| ==> input[..i + 1] == input;
      }
    }
  }

  /** complex_vec_to_real_vec */
  method ComplexVecToRealVec(input: seq<Complex>) returns (output: seq<real>)
    ensures output == Unpack(input)
  {
    output := [];
    for i := 0 to |input|
      invariant output == Unpack(input[..i])
    {
      UnpackAppend(input[..i], input[i]);
      assert input[..i + 1] == input[..i] + [input[i]];
      output := output + [input[i].re];
      output := output + [input[i].im];
    }
    assert input[..|input|] == input;
  }
}
