/**
 * Encoding of one real value into its residues modulo every prime of a level
 * (src/seal/seal_util.cpp, encode). Doubles are modelled as reals: every
 * operation used here on doubles is exact except the product value * scale.
 */
module ScalarEncoding {
  import opened Outcomes
  import opened Arithmetic
  import opened RealArithmetic
  import opened Rns

  /** C's round: to nearest, halves away from zero. */
  function Round(x: real): int
  {
    if x < 0.0 then -(-x + 0.5).Floor else (x + 0.5).Floor
  }

  /** n is the integer nearest to x, and of two equally near ones the one further from 0. */
  predicate IsNearest(x: real, n: int)
  {
    && -0.5 <= x - n as real <= 0.5
    && (x - n as real == 0.5 ==> x < 0.0) && (x - n as real == -0.5 ==> x > 0.0)
  }

  lemma RoundIsNearest(x: real, n: int)
    ensures n == Round(x) <==> IsNearest(x, n)
  {}

  /** static_cast<int>(log2(x)): the logarithm truncated toward zero. */
  function TruncLog2(x: real): int
    requires x > 0.0
    decreases if x >= 2.0 then x.Floor else (1.0 / x).Floor
  {
    if x >= 2.0 then
      HalvingShrinks(x); 1 + TruncLog2(x / 2.0)
    else if x > 0.5 then 0
    else
      DoublingShrinks(x); TruncLog2(2.0 * x) - 1
  }

  lemma HalvingShrinks(x: real)
    requires x >= 2.0
    ensures (if x / 2.0 >= 2.0 then (x / 2.0).Floor else (1.0 / (x / 2.0)).Floor) < x.Floor
  {
    ReciprocalBelow(x / 2.0);
  }

  lemma ReciprocalBelow(y: real)
    requires y >= 1.0
    ensures 1.0 / y <= 1.0 && (1.0 / y).Floor <= 1
  {
    var r := 1.0 / y;
    assert r * y == 1.0;
    if r > 1.0 { RealMulMonoStrict(1.0, r, y); }
  }

  lemma DoublingShrinks(x: real)
    requires 0.0 < x <= 0.5
    ensures 2.0 * x < 2.0
    ensures 0 <= (1.0 / (2.0 * x)).Floor < (1.0 / x).Floor
  {
    var y := 1.0 / x;
    assert y * x == 1.0;
    assert y >= 2.0 by {
      if y < 2.0 { RealMulMonoStrict(y, 2.0, x); }
    }
    assert 1.0 / (2.0 * x) == y / 2.0;
  }

  lemma {:induction false} TruncLog2Bounds(x: real)
    requires x > 0.0
    ensures x < 1.0 ==> TruncLog2(x) <= 0
    ensures x >= 1.0 ==> TruncLog2(x) >= 0 && x < Pow(2, TruncLog2(x) + 1) as real
    decreases if x >= 2.0 then x.Floor else (1.0 / x).Floor
  {
    if x >= 2.0 {
      HalvingShrinks(x);
      TruncLog2Bounds(x / 2.0);
    } else if x <= 0.5 {
      DoublingShrinks(x);
      TruncLog2Bounds(2.0 * x);
      assert TruncLog2(1.0) == 0;
    } else {
      assert Pow(2, 1) == 2;
    }
  }

  /** 2^-n */
  function Halved(n: nat): real
  {
    if n == 0 then 1.0 else Halved(n - 1) / 2.0
  }

  /** t is log2(x), truncated: x is in [2^t, 2^(t + 1)) from 1 on, and in (2^(t - 1), 2^t] below. */
  predicate IsTruncatedLog(x: real, t: int)
    requires x > 0.0
  {
    if x >= 1.0 then t >= 0 && Pow(2, t) as real <= x < Pow(2, t + 1) as real
    else t <= 0 && Halved(1 - t) < x <= Halved(-t)
  }

  lemma LogOfHalf(x: real, t: int)
    requires x >= 2.0 && IsTruncatedLog(x / 2.0, t)
    ensures IsTruncatedLog(x, t + 1)
  {
    assert Pow(2, t + 1) == 2 * Pow(2, t) && Pow(2, t + 2) == 2 * Pow(2, t + 1);
  }

  lemma LogOfDouble(x: real, t: int)
    requires 0.0 < x < 0.5 && IsTruncatedLog(2.0 * x, t)
    ensures IsTruncatedLog(x, t - 1)
  {
    assert Halved(1 - t) == Halved(-t) / 2.0 && Halved(2 - t) == Halved(1 - t) / 2.0;
  }

  lemma LogNearOne(x: real)
    requires 0.5 < x < 2.0
    ensures IsTruncatedLog(x, 0)
  {
    assert Pow(2, 0) == 1 && Pow(2, 1) == 2;
    assert Halved(0) == 1.0 && Halved(1) == 0.5;
  }

  lemma {:induction false} TruncLog2IsLogarithm(x: real)
    requires x > 0.0
    ensures IsTruncatedLog(x, TruncLog2(x))
    decreases if x >= 2.0 then x.Floor else (1.0 / x).Floor
  {
    hide IsTruncatedLog;
    if x >= 2.0 {
      HalvingShrinks(x);
      TruncLog2IsLogarithm(x / 2.0);
      LogOfHalf(x, TruncLog2(x / 2.0));
    } else if x > 0.5 {
      LogNearOne(x);
    } else {
      DoublingShrinks(x);
      TruncLog2IsLogarithm(2.0 * x);
      LogOfFraction(x);
    }
  }

  lemma LogOfFraction(x: real)
    requires 0.0 < x <= 0.5 && IsTruncatedLog(2.0 * x, TruncLog2(2.0 * x))
    ensures IsTruncatedLog(x, TruncLog2(2.0 * x) - 1)
  {
    if x == 0.5 {
      assert TruncLog2(1.0) == 0;
      assert Halved(0) == 1.0 && Halved(1) == 0.5 && Halved(2) == 0.25;
    } else {
      LogOfDouble(x, TruncLog2(2.0 * x));
    }
  }

  lemma TruncLog2Below(x: real, n: int)
    requires x > 0.0 && n >= 0
    ensures n > 0 ==> (TruncLog2(x) < n <==> x < Pow(2, n) as real)
    ensures TruncLog2(x) < 0 <==> x <= 0.5
  {
    TruncLog2IsLogarithm(x);
    var t := TruncLog2(x);
    PowPositive(2, n);
    if x >= 1.0 {
      if t < n { PowMonotone(2, t + 1, n); } else { PowMonotone(2, n, t); }
    } else if x > 0.5 {
      assert t == 0;
    } else {
      DoublingShrinks(x);
      TruncLog2Bounds(2.0 * x);
      assert TruncLog2(1.0) == 0;
    }
  }

  /** The bit count that chooses between the three paths. */
  function CoeffBitCount(v: real): int
    requires v != 0.0
  {
    TruncLog2(Abs(v)) + 2
  }

  predicate AtMost(x: int, bound: int)
  {
    -bound <= x <= bound
  }

  function Signed(isNegative: bool, magnitude: int): int
  {
    if isNegative then -magnitude else magnitude
  }

  lemma RoundMagnitude(v: real)
    requires v != 0.0
    ensures CoeffBitCount(v) < 2 ==> AtMost(Round(v), 1)
    ensures CoeffBitCount(v) >= 2 ==> AtMost(Round(v), Pow(2, CoeffBitCount(v) - 1))
  {
    TruncLog2Bounds(Abs(v));
    if CoeffBitCount(v) >= 2 {
      PowPositive(2, CoeffBitCount(v) - 1);
    }
  }

  /** One level of the modulus chain, as the context data describes it. */
  datatype Level = Level(moduli: seq<nat>)
  {
    ghost predicate Valid() { ValidModuli(moduli) }

    function TotalBitCount(): nat { BitCount(Product(moduli)) }
  }

  predicate ScaleOutOfBounds(scale: real, level: Level)
  {
    scale <= 0.0 || TruncLog2(scale) >= level.TotalBitCount()
  }

  /** The guards of encode, and the residues it is meant to leave. */
  function Encoding(value: real, scale: real, level: Level): (r: Result<seq<int>>)
    requires value != 0.0
    requires forall j :: 0 <= j < |level.moduli| ==> level.moduli[j] > 0
  {
    if ScaleOutOfBounds(scale, level) then Err("scale out of bounds")
    else
      NonzeroProduct(value, scale);
      if CoeffBitCount(value * scale) >= level.TotalBitCount() then Err("encoded value is too large")
      else Ok(Residues(Round(value * scale), level.moduli))
  }

  lemma NonzeroProduct(x: real, y: real)
    requires x != 0.0 && y != 0.0
    ensures x * y != 0.0
  {}

  predicate AreResidues(rs: seq<int>, n: int, qs: seq<nat>)
    requires forall j :: 0 <= j < |qs| ==> qs[j] > 0
  {
    |rs| == |qs| && forall j :: 0 <= j < |qs| ==> rs[j] == n % qs[j]
  }

  /** What is accepted is encoded as the residues of the integer nearest to value * scale. */
  lemma EncodingIsNearest(value: real, scale: real, level: Level, n: int)
    requires level.Valid() && value != 0.0 && Encoding(value, scale, level).Ok? && IsNearest(value * scale, n)
    ensures AreResidues(Encoding(value, scale, level).value, n, level.moduli)
  {
    RoundIsNearest(value * scale, n);
  }

  /** The size guard keeps the rounded value inside (-Q/2, Q/2), strictly because Q is odd. */
  lemma GuardCentres(v: real, level: Level)
    requires level.Valid() && v != 0.0
    requires CoeffBitCount(v) < level.TotalBitCount()
    ensures Centred(Round(v), Product(level.moduli))
  {
    var q := Product(level.moduli);
    ProductPositive(level.moduli);
    ProductOdd(level.moduli);
    BitCountBounds(q);
    RoundMagnitude(v);
    var bits := CoeffBitCount(v);
    if bits < 2 {
      ProductExceedsOne(level.moduli);
    } else {
      PowMonotone(2, bits, BitCount(q) - 1);
      assert Pow(2, bits) == 2 * Pow(2, bits - 1);
    }
  }

  lemma ProductExceedsOne(qs: seq<nat>)
    requires ValidModuli(qs)
    ensures Product(qs) >= 3
  {
    var rest := Product(qs[1..]);
    assert forall j :: 0 <= j < |qs[1..]| ==> qs[1..][j] == qs[j + 1];
    ProductPositive(qs[1..]);
    MulMono(1, rest, qs[0]);
    assert qs[0] * rest == rest * qs[0];
  }

  /**
   * What is accepted, with Q of the level between 2^(bits - 1) and 2^bits: a
   * positive scale below 2^bits and a scaled value below 2^(bits - 2), except
   * that Q = 3 has room for nothing above one half.
   */
  lemma AcceptedIff(value: real, scale: real, level: Level)
    requires level.Valid() && value != 0.0
    ensures var bits := level.TotalBitCount();
            && bits >= 2 && Pow(2, bits - 1) <= Product(level.moduli) < Pow(2, bits)
            && (Encoding(value, scale, level).Ok? <==>
                && 0.0 < scale < Pow(2, bits) as real
                && if bits >= 3 then Abs(value * scale) < Pow(2, bits - 2) as real else Abs(value * scale) <= 0.5)
  {
    var q, bits := Product(level.moduli), level.TotalBitCount();
    ProductExceedsOne(level.moduli);
    BitCountBounds(q);
    assert bits >= 2 by {
      assert Pow(2, 1) == 2;
    }
    if scale > 0.0 {
      NonzeroProduct(value, scale);
      TruncLog2Below(scale, bits);
      TruncLog2Below(Abs(value * scale), bits - 2);
    }
  }

  /** Encoding is injective on rounded values: the residues determine the signed integer. */
  lemma EncodingInjective(v1: real, s1: real, v2: real, s2: real, level: Level)
    requires level.Valid() && v1 != 0.0 && v2 != 0.0
    requires Encoding(v1, s1, level).Ok? && Encoding(v2, s2, level).Ok?
    ensures Encoding(v1, s1, level) == Encoding(v2, s2, level) <==> Round(v1 * s1) == Round(v2 * s2)
  {
    NonzeroProduct(v1, s1);
    NonzeroProduct(v2, s2);
    GuardCentres(v1 * s1, level);
    GuardCentres(v2 * s2, level);
    if Encoding(v1, s1, level) == Encoding(v2, s2, level) {
      ResiduesDetermine(level.moduli, Round(v1 * s1), Round(v2 * s2));
    }
  }

  // ---------------------------------------------------------------- SEAL words

  /** seal::util::barrett_reduce_128 on the 128-bit number hi * 2^64 + lo. */
  function BarrettReduce128(lo: Word, hi: Word, q: nat): (r: Word)
    requires 0 < q < WORD
    ensures r < q
  {
    (lo + hi * WORD) % q
  }

  /** seal::util::negate_uint_mod */
  function NegateUintMod(x: nat, q: nat): nat
    requires x < q
  {
    if x == 0 then 0 else q - x
  }

  lemma NegateIsNegation(c: nat, q: nat)
    requires q > 0
    ensures NegateUintMod(c % q, q) == Signed(true, c) % q
  {
    var k: int, n: int := c / q, Signed(true, c);
    assert c == k * q + c % q;
    if c % q == 0 {
      assert n == (-k) * q;
      DivModUnique(n, q, -k, 0);
    } else {
      assert n == (-k - 1) * q + (q - c % q);
      DivModUnique(n, q, -k - 1, q - c % q);
    }
  }

  /** The number a little-endian word buffer stands for. */
  function LimbValue(ls: seq<Word>): nat
  {
    if ls == [] then 0 else ls[0] + WORD * LimbValue(ls[1..])
  }

  lemma {:induction false} LimbValueAppend(ls: seq<Word>, d: Word)
    ensures LimbValue(ls + [d]) == LimbValue(ls) + d * Pow(WORD, |ls|)
  {
    if ls == [] {
      assert ls + [d] == [d];
    } else {
      assert (ls + [d])[1..] == ls[1..] + [d];
      LimbValueAppend(ls[1..], d);
      assert WORD * (d * Pow(WORD, |ls| - 1)) == d * (WORD * Pow(WORD, |ls| - 1));
    }
  }

  lemma {:induction false} LimbValueZeros(ls: seq<Word>, n: nat)
    requires n <= |ls|
    requires forall i :: n <= i < |ls| ==> ls[i] == 0
    ensures LimbValue(ls) == LimbValue(ls[..n])
    decreases |ls| - n
  {
    if n < |ls| {
      LimbValueZeros(ls, n + 1);
      assert ls[..n + 1] == ls[..n] + [ls[n]];
      LimbValueAppend(ls[..n], ls[n]);
    } else {
      assert ls[..n] == ls;
    }
  }

  /** fmod for a non-negative dividend and a whole divisor. */
  function Fmod(x: real, m: nat): real
    requires x >= 0.0 && m > 0
  {
    x - (m * (x / m as real).Floor) as real
  }

  lemma QuotientBounds(x: real, y: real, k: int, m: nat)
    requires m > 0 && y * m as real == x
    requires k as real <= y < k as real + 1.0
    ensures m * k <= x.Floor < m * k + m
    ensures 0.0 <= x - (m * k) as real < m as real
  {
    ScaledBelow(x, y, k, m);
    ScaledAbove(x, y, k + 1, m);
    assert m * (k + 1) == m * k + m;
  }

  lemma ScaledBelow(x: real, y: real, k: int, m: nat)
    requires m > 0 && y * m as real == x && k as real <= y
    ensures (m * k) as real <= x && m * k <= x.Floor
  {
    CastProduct(m, k);
    RealMulMono(k as real, y, m as real);
  }

  lemma ScaledAbove(x: real, y: real, k: int, m: nat)
    requires m > 0 && y * m as real == x && y < k as real
    ensures x < (m * k) as real && x.Floor < m * k
  {
    CastProduct(m, k);
    RealMulMonoStrict(y, k as real, m as real);
  }

  lemma CastProduct(m: int, k: int)
    ensures (m * k) as real == m as real * k as real
  {}

  /** Dividing without flooring loses no digit: floors of quotients are quotients of floors. */
  lemma FloorDivision(x: real, m: nat)
    requires x >= 0.0 && m > 0
    ensures (x / m as real).Floor == x.Floor / m
    ensures 0.0 <= Fmod(x, m) < m as real && Fmod(x, m).Floor == x.Floor % m
  {
    var k := (x / m as real).Floor;
    QuotientBounds(x, x / m as real, k, m);
    DivModUnique(x.Floor, m, k, x.Floor - m * k);
  }

  // ------------------------------------------------------------- the three paths

  method StoreSmall(coeffu: Word, isNegative: bool, qs: seq<nat>, destination: array<int>)
    requires ValidModuli(qs) && destination.Length == |qs|
    modifies destination
    ensures destination[..] == Residues(Signed(isNegative, coeffu), qs)
  {
    if isNegative {
      for j := 0 to |qs|
        invariant forall i :: 0 <= i < j ==> destination[i] == Signed(true, coeffu) % qs[i]
      {
        destination[j] := NegateUintMod(coeffu % qs[j], qs[j]);
        NegateIsNegation(coeffu, qs[j]);
      }
    } else {
      for j := 0 to |qs|
        invariant forall i :: 0 <= i < j ==> destination[i] == coeffu % qs[i]
      {
        destination[j] := coeffu % qs[j];
      }
    }
  }

  method StoreDouble(lo: Word, hi: Word, isNegative: bool, qs: seq<nat>, destination: array<int>)
    requires ValidModuli(qs) && destination.Length == |qs|
    modifies destination
    ensures destination[..] == Residues(Signed(isNegative, lo + hi * WORD), qs)
  {
    ghost var n := lo + hi * WORD;
    if isNegative {
      for j := 0 to |qs|
        invariant forall i :: 0 <= i < j ==> destination[i] == Signed(true, n) % qs[i]
      {
        destination[j] := NegateUintMod(BarrettReduce128(lo, hi, qs[j]), qs[j]);
        NegateIsNegation(n, qs[j]);
      }
    } else {
      for j := 0 to |qs|
        invariant forall i :: 0 <= i < j ==> destination[i] == n % qs[i]
      {
        destination[j] := BarrettReduce128(lo, hi, qs[j]);
      }
    }
  }

  lemma NextLimb(filled: seq<Word>, rest: nat, n: nat, count: nat)
    requires rest >= 1 && |filled| <= count && n < Pow(WORD, count)
    requires n == LimbValue(filled) + rest * Pow(WORD, |filled|)
    ensures |filled| < count
    ensures n == LimbValue(filled + [rest % WORD]) + rest / WORD * Pow(WORD, |filled| + 1)
  {
    var power := Pow(WORD, |filled|);
    MulMono(1, rest, power);
    LimbValueAppend(filled, rest % WORD);
    LowDigit(rest / WORD, rest % WORD, WORD, power);
  }

  lemma LowDigit(d: int, m: int, word: int, power: int)
    ensures (d * word + m) * power == m * power + d * (word * power)
  {
    MulAssoc(d, word, power);
    assert (d * word + m) * power == (d * word) * power + m * power;
  }

  /** The digit loop: n is written limb by limb, never past the end of the buffer. */
  method ExtractLimbs(n: nat, count: nat) returns (coeffu: array<Word>)
    requires n < Pow(WORD, count)
    ensures fresh(coeffu) && coeffu.Length == count
    ensures LimbValue(coeffu[..]) == n
  {
    var coeffd := n as real;
    coeffu := new Word[count](_ => 0);
    var ptr := 0;
    assert coeffu[..0] == [];
    while coeffd >= 1.0
      invariant 0 <= ptr <= count && coeffd >= 0.0
      invariant n == LimbValue(coeffu[..ptr]) + coeffd.Floor * Pow(WORD, ptr)
      invariant forall i :: ptr <= i < count ==> coeffu[i] == 0
      decreases coeffd.Floor
    {
      ghost var filled := coeffu[..ptr];
      FloorDivision(coeffd, WORD);
      NextLimb(filled, coeffd.Floor, n, count);
      coeffu[ptr] := Fmod(coeffd, WORD).Floor;
      assert coeffu[..ptr + 1] == filled + [coeffu[ptr]];
      ptr := ptr + 1;
      coeffd := coeffd / WORD as real;
    }
    LimbValueZeros(coeffu[..], ptr);
    assert coeffu[..][..ptr] == coeffu[..ptr];
  }

  lemma SingleLimb(d: Word)
    ensures LimbValue([d]) == d
  {
    assert [d][1..] == [];
  }

  lemma HornerStep(v: seq<Word>, k: nat, hi: Word, q: nat)
    requires 0 < q < WORD && k + 1 < |v| && hi % q == LimbValue(v[k + 1..]) % q
    ensures BarrettReduce128(v[k], hi, q) == LimbValue(v[k..]) % q
    ensures BarrettReduce128(v[k], hi, q) % q == LimbValue(v[k..]) % q
  {
    var lo, rest := v[k], LimbValue(v[k + 1..]);
    assert v[k..][1..] == v[k + 1..];
    DivModUnique(BarrettReduce128(lo, hi, q), q, 0, BarrettReduce128(lo, hi, q));
    ModMul(hi, WORD, q);
    ModMul(rest, WORD, q);
    ModAdd(lo, hi * WORD, q);
    ModAdd(lo, rest * WORD, q);
  }

  /** Reduction of a limb buffer modulo every prime, from the top limb down. */
  method DecomposeSingleCoeff(value: array<Word>, qs: seq<nat>, destination: array<int>)
    requires ValidModuli(qs) && value.Length == destination.Length == |qs|
    modifies destination
    ensures |qs| == 1 ==> destination[0] == value[0]
    ensures |qs| > 1 ==> destination[..] == Residues(LimbValue(value[..]), qs)
  {
    var count := |qs|;
    ghost var v := value[..];
    if count == 1 {
      destination[0] := value[0];
      return;
    }
    var valueCopy := new Word[count](_ => 0);
    for j := 0 to count
      invariant value[..] == v
      invariant forall i :: 0 <= i < j ==> destination[i] == LimbValue(v) % qs[i]
    {
      destination[j] := ReduceFromTop(value, valueCopy, qs[j]);
    }
  }

  method ReduceFromTop(value: array<Word>, valueCopy: array<Word>, q: nat) returns (r: nat)
    requires valueCopy != value && valueCopy.Length == value.Length > 1 && 0 < q < WORD
    modifies valueCopy
    ensures r == LimbValue(value[..]) % q
  {
    ghost var v := value[..];
    for i := 0 to value.Length
      invariant forall j :: 0 <= j < i ==> valueCopy[j] == v[j]
    {
      valueCopy[i] := value[i];
    }
    var k := value.Length - 1;
    assert v[k..] == [v[k]];
    SingleLimb(v[k]);
    ghost var expected: int := LimbValue(v[k..]) % q;
    while k != 0
      invariant 0 <= k < value.Length
      invariant forall i :: 0 <= i < k ==> valueCopy[i] == v[i]
      invariant expected == LimbValue(v[k..]) % q == valueCopy[k] % q
      invariant k < value.Length - 1 ==> valueCopy[k] == expected
    {
      k := k - 1;
      HornerStep(v, k, valueCopy[k + 1], q);
      expected := LimbValue(v[k..]) % q;
      valueCopy[k] := BarrettReduce128(valueCopy[k], valueCopy[k + 1], q);
    }
    assert v[0..] == v;
    r := valueCopy[0];
  }

  /** Above 128 bits the level has at least three moduli, so the one-modulus shortcut never runs. */
  lemma SlowPathShape(v: real, level: Level)
    requires level.Valid() && v != 0.0
    requires 128 < CoeffBitCount(v) < level.TotalBitCount()
    ensures |level.moduli| >= 3
    ensures AtMost(Round(v), Pow(WORD, |level.moduli|) - 1)
  {
    ProductFitsLimbs(level.moduli);
    RoundMagnitude(v);
    PowMonotone(2, CoeffBitCount(v) - 1, 62 * |level.moduli|);
    LimbsExceedModuli(|level.moduli|);
  }

  lemma LimbsExceedModuli(count: nat)
    requires count > 0
    ensures Pow(2, 62 * count) < Pow(WORD, count)
  {
    WordIsPowerOfTwo();
    PowMul(2, 64, count);
    PowAdd(2, 62 * count, 2 * count);
    assert 64 * count == 62 * count + 2 * count;
    PowMonotone(2, 1, 2 * count);
    assert Pow(2, 1) == 2;
    PowPositive(2, 62 * count);
    MulMono(2, Pow(2, 2 * count), Pow(2, 62 * count));
  }

  method StoreLarge(n: nat, isNegative: bool, qs: seq<nat>, destination: array<int>)
    requires ValidModuli(qs) && |qs| > 1 && destination.Length == |qs|
    requires n < Pow(WORD, |qs|)
    modifies destination
    ensures destination[..] == Residues(Signed(isNegative, n), qs)
  {
    var coeffu := ExtractLimbs(n, |qs|);
    var decomposed := new int[|qs|];
    DecomposeSingleCoeff(coeffu, qs, decomposed);
    ghost var residues := decomposed[..];
    forall j | 0 <= j < |qs| ensures decomposed[j] == n % qs[j] {
      assert residues[j] == n % qs[j];
    }
    if isNegative {
      for j := 0 to |qs|
        invariant forall i :: 0 <= i < |qs| ==> decomposed[i] == n % qs[i]
        invariant forall i :: 0 <= i < j ==> destination[i] == Signed(true, n) % qs[i]
      {
        destination[j] := NegateUintMod(decomposed[j], qs[j]);
        NegateIsNegation(n, qs[j]);
      }
    } else {
      for j := 0 to |qs|
        invariant forall i :: 0 <= i < |qs| ==> decomposed[i] == n % qs[i]
        invariant forall i :: 0 <= i < j ==> destination[i] == n % qs[i]
      {
        destination[j] := decomposed[j];
      }
    }
  }

  lemma FastPathRange(v: real)
    requires v != 0.0
    ensures CoeffBitCount(v) <= 64 ==> AtMost(Round(v), WORD - 1)
    ensures CoeffBitCount(v) <= 128 ==> AtMost(Round(v), WORD * WORD - 1)
  {
    RoundMagnitude(v);
    WordIsPowerOfTwo();
    PowAdd(2, 64, 64);
    assert Pow(2, 128) == 2 * Pow(2, 127) && Pow(2, 64) == 2 * Pow(2, 63);
    var bits := CoeffBitCount(v);
    if 2 <= bits <= 128 {
      PowMonotone(2, bits - 1, 127);
      if bits <= 64 {
        PowMonotone(2, bits - 1, 63);
      }
    }
  }

  /** encode: whichever path the bit count picks, the result is the same residues. */
  method Encode(value: real, scale: real, level: Level) returns (r: Result<seq<int>>)
    requires level.Valid() && value != 0.0
    ensures r == Encoding(value, scale, level)
    ensures forall n: int :: r.Ok? && IsNearest(value * scale, n) ==> AreResidues(r.value, n, level.moduli)
  {
    var qs := level.moduli;
    forall n: int | Encoding(value, scale, level).Ok? && IsNearest(value * scale, n)
      ensures AreResidues(Encoding(value, scale, level).value, n, level.moduli)
    {
      EncodingIsNearest(value, scale, level, n);
    }
    if ScaleOutOfBounds(scale, level) {
      return Err("scale out of bounds");
    }
    NonzeroProduct(value, scale);
    var scaled := value * scale;
    var bits := CoeffBitCount(scaled);
    if bits >= level.TotalBitCount() {
      return Err("encoded value is too large");
    }
    var destination := new int[|qs|];
    var isNegative := scaled < 0.0;
    var coeffd := if isNegative then -Round(scaled) else Round(scaled);
    FastPathRange(scaled);
    if bits <= 64 {
      StoreSmall(coeffd, isNegative, qs, destination);
    } else if bits <= 128 {
      FloorDivision(coeffd as real, WORD);
      var lo := Fmod(coeffd as real, WORD).Floor;
      var hi := (coeffd as real / WORD as real).Floor;
      assert coeffd == coeffd / WORD * WORD + coeffd % WORD;
      StoreDouble(lo, hi, isNegative, qs, destination);
    } else {
      SlowPathShape(scaled, level);
      StoreLarge(coeffd, isNegative, qs, destination);
    }
    return Ok(destination[..]);
  }
}
