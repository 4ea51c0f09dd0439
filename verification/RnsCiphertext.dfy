/**
 * Plaintext addition and multiplication written straight into a ciphertext's
 * residues (src/seal/seal_util.cpp, src/seal/seal_util.hpp), and the proof that
 * they commute with decryption under any key.
 */
module RnsCiphertext {
  import opened Outcomes
  import opened Arithmetic
  import opened Rns
  import opened ScalarEncoding

  /** Position of slot t, modulus j, component i in the flat buffer of k moduli and n slots. */
  function Position(k: nat, n: nat, i: nat, j: nat, t: nat): nat
  {
    (i * k + j) * n + t
  }

  lemma PositionInRange(size: nat, k: nat, n: nat, i: nat, j: nat, t: nat)
    requires i < size && j < k && t < n
    ensures Position(k, n, i, j, t) < size * k * n
  {
    MulMono(i + 1, size, k);
    assert (i + 1) * k == i * k + k;
    MulMono(i * k + j + 1, size * k, n);
    assert (i * k + j + 1) * n == (i * k + j) * n + n;
  }

  /** Which positions lie in the block that starts at component i, modulus j. */
  lemma BlockMembership(k: nat, n: nat, i: nat, j: nat, i': nat, j': nat, t': nat)
    requires j < k && j' < k && t' < n
    ensures Position(k, n, i, j, 0) <= Position(k, n, i', j', t') < Position(k, n, i, j, 0) + n
            <==> i' == i && j' == j
  {
    var p := Position(k, n, i', j', t');
    var b, b' := i * k + j, i' * k + j';
    DivModUnique(p, n, b', t');
    if b * n <= p < b * n + n {
      DivModUnique(p, n, b, p - b * n);
    }
    DivModUnique(b, k, i, j);
    DivModUnique(b', k, i', j');
  }

  /** The bit mask -static_cast<int64_t>(b) as an unsigned word, and its effect in a conjunction. */
  function Mask(b: bool): Word
  {
    if b then WORD - 1 else 0
  }

  function AndMask(x: Word, mask: Word): Word
    requires mask == 0 || mask == WORD - 1
  {
    if mask == 0 then 0 else x
  }

  /** Word addition and subtraction, which wrap. */
  function AddWord(x: Word, y: Word): Word
  {
    (x + y) % WORD
  }

  function SubWord(x: Word, y: Word): Word
  {
    (x - y) % WORD
  }

  /** The branchless sum is exact modular addition: nothing wraps for moduli below 2^62. */
  lemma BranchlessAdd(x: nat, scalar: nat, q: nat)
    requires x < q && scalar < q < MODULUS_BOUND
    ensures AddWord(x, scalar) == x + scalar
    ensures SubWord(AddWord(x, scalar), AndMask(q, Mask(AddWord(x, scalar) >= q))) == (x + scalar) % q
  {
    var sum := x + scalar;
    DivModUnique(sum, q, if sum >= q then 1 else 0, if sum >= q then sum - q else sum);
  }

  /** add_poly_scalar_coeffmod with result and poly the same block, as its caller uses it. */
  method AddPolyScalarCoeffmod(data: array<nat>, start: nat, coeffCount: nat, scalar: nat, q: nat)
    requires start + coeffCount <= data.Length && scalar < q < MODULUS_BOUND
    requires forall p :: start <= p < start + coeffCount ==> data[p] < q
    modifies data
    ensures forall p :: 0 <= p < data.Length ==>
              data[p] == if start <= p < start + coeffCount then (old(data[p]) + scalar) % q else old(data[p])
  {
    var remaining: nat, at: nat := coeffCount, start;
    while remaining != 0
      invariant at + remaining == start + coeffCount && start <= at
      invariant forall p :: 0 <= p < data.Length ==>
                  data[p] == if start <= p < at then (old(data[p]) + scalar) % q else old(data[p])
      invariant forall p :: at <= p < start + coeffCount ==> data[p] < q
    {
      remaining := remaining - 1;
      BranchlessAdd(data[at], scalar, q);
      var sum := AddWord(data[at], scalar);
      data[at] := SubWord(sum, AndMask(q, Mask(sum >= q)));
      at := at + 1;
    }
  }

  /** seal::util::multiply_poly_scalar_coeffmod on one block. */
  method MultiplyPolyScalarCoeffmod(data: array<nat>, start: nat, coeffCount: nat, scalar: nat, q: nat)
    requires start + coeffCount <= data.Length && q > 0
    modifies data
    ensures forall p :: 0 <= p < data.Length ==>
              data[p] == if start <= p < start + coeffCount then (old(data[p]) * scalar) % q else old(data[p])
  {
    for at := start to start + coeffCount
      invariant forall p :: 0 <= p < data.Length ==>
                  data[p] == if start <= p < at then (old(data[p]) * scalar) % q else old(data[p])
    {
      data[at] := (data[at] * scalar) % q;
    }
  }

  /** One coefficient of a flat buffer, looked up by its three coordinates. */
  datatype Layout = Layout(size: nat, moduli: seq<nat>, n: nat)
  {
    function Length(): nat { size * |moduli| * n }

    ghost predicate Has(i: int, j: int, t: int)
    {
      0 <= i < size && 0 <= j < |moduli| && 0 <= t < n
    }

    ghost function At(d: seq<nat>, i: nat, j: nat, t: nat): nat
      requires |d| == Length() && Has(i, j, t)
    {
      PositionInRange(size, |moduli|, n, i, j, t);
      d[Position(|moduli|, n, i, j, t)]
    }

    ghost predicate Reduced(d: seq<nat>)
      requires |d| == Length()
    {
      forall i, j, t :: Has(i, j, t) ==> At(d, i, j, t) < moduli[j]
    }

    /** Every coefficient of d' comes from the one of d in the same place. */
    ghost predicate Related(d: seq<nat>, d': seq<nat>, f: (nat, nat, nat) -> nat)
      requires |d| == Length()
    {
      |d'| == Length() && forall i, j, t :: Has(i, j, t) ==> At(d', i, j, t) == f(i, j, At(d, i, j, t))
    }
  }

  /** What adding vals[j] to component 0 does, once the moduli below uptoJ are done. */
  function AddAt(vals: seq<int>, qs: seq<nat>, uptoJ: nat): (nat, nat, nat) -> nat
    requires |vals| == |qs| && forall j :: 0 <= j < |qs| ==> qs[j] > 0
  {
    (i: nat, j: nat, x: nat) => if i == 0 && j < uptoJ && j < |qs| then (x + vals[j]) % qs[j] else x
  }

  /** What multiplying by vals[j] does, once all blocks before (uptoI, uptoJ) are done. */
  function MultiplyAt(vals: seq<int>, qs: seq<nat>, uptoI: nat, uptoJ: nat): (nat, nat, nat) -> nat
    requires |vals| == |qs| && forall j :: 0 <= j < |qs| ==> qs[j] > 0
  {
    (i: nat, j: nat, x: nat) =>
      if (i < uptoI || (i == uptoI && j < uptoJ)) && j < |qs| then (x * vals[j]) % qs[j] else x
  }

  /** The checks multiply_plain_inplace makes before it touches the ciphertext. */
  function MultiplyPlan(value: real, scale: real, level: Level): (r: Result<seq<int>>)
    requires value != 0.0
    requires forall j :: 0 <= j < |level.moduli| ==> level.moduli[j] > 0
    ensures r.Ok? ==> |r.value| == |level.moduli|
    ensures r.Ok? ==> forall j :: 0 <= j < |r.value| ==> 0 <= r.value[j] < level.moduli[j]
  {
    match Encoding(value, scale, level)
    case Err(reason) => Err(reason)
    case Ok(vals) => if ScaleOutOfBounds(scale * scale, level) then Err("scale out of bounds") else Ok(vals)
  }

  method PlanMultiply(value: real, scale: real, level: Level) returns (r: Result<seq<int>>)
    requires level.Valid() && value != 0.0
    ensures r == MultiplyPlan(value, scale, level)
  {
    r := Encode(value, scale, level);
    if r.Ok? && ScaleOutOfBounds(scale * scale, level) {
      r := Err("scale out of bounds");
    }
  }

  class Ciphertext {
    const level: Level
    const size: nat
    const coeffCount: nat
    const data: array<nat>
    var scale: real

    constructor (level: Level, size: nat, coeffCount: nat, data: array<nat>, scale: real)
      ensures this.level == level && this.size == size && this.coeffCount == coeffCount
      ensures this.data == data && this.scale == scale
    {
      this.level, this.size, this.coeffCount, this.data, this.scale := level, size, coeffCount, data, scale;
    }

    function Shape(): Layout
    {
      Layout(size, level.moduli, coeffCount)
    }

    ghost predicate Valid()
      reads data
    {
      level.Valid() && size > 0 && data.Length == Shape().Length() && Shape().Reduced(data[..])
    }

    /** seal::Ciphertext::is_transparent: nothing beyond the first component. */
    ghost predicate Transparent()
      requires data.Length == Shape().Length()
      reads data
    {
      size < 2 || forall i, j, t :: i >= 1 && Shape().Has(i, j, t) ==> Shape().At(data[..], i, j, t) == 0
    }

    method IsTransparent() returns (r: bool)
      requires data.Length == Shape().Length()
      ensures r == Transparent()
    {
      if size < 2 { return true; }
      var shape := Shape();
      var k := |level.moduli|;
      assert Position(k, coeffCount, 1, 0, 0) == k * coeffCount;
      MulMono(1, size * 1, k * coeffCount);
      MulAssoc(size, k, coeffCount);
      r := true;
      ghost var worst := k * coeffCount;
      for p := k * coeffCount to data.Length
        invariant r ==> forall x :: k * coeffCount <= x < p ==> data[x] == 0
        invariant !r ==> k * coeffCount <= worst < data.Length && data[worst] != 0
      {
        if r && data[p] != 0 { r := false; worst := p; }
      }
      if r {
        forall i, j, t | i >= 1 && shape.Has(i, j, t) ensures shape.At(data[..], i, j, t) == 0 {
          PositionInRange(size, k, coeffCount, i, j, t);
          MulMono(1, i, k);
          MulMono(k, i * k + j, coeffCount);
        }
      } else {
        var i, j, t := Locate(size, k, coeffCount, worst);
        if i == 0 { PositionInRange(1, k, coeffCount, 0, j, t); }
        assert shape.Has(i, j, t) && shape.At(data[..], i, j, t) != 0;
      }
    }

    /** add_plain_inplace: the encoded value goes into component 0 only and the scale stays. */
    method AddPlainInplace(value: real) returns (r: Outcome)
      requires Valid() && value != 0.0
      modifies data
      ensures Valid()
      ensures Encoding(value, scale, level).Err? ==>
                r == Fail(Encoding(value, scale, level).reason) && data[..] == old(data[..])
      ensures Encoding(value, scale, level).Ok? ==>
                && Shape().Related(old(data[..]), data[..],
                                   AddAt(Encoding(value, scale, level).value, level.moduli, |level.moduli|))
                && r == if Transparent() then Fail("result ciphertext is transparent") else Pass
    {
      var plain := Encode(value, scale, level);
      if plain.Err? {
        return Fail(plain.reason);
      }
      var vals, qs, shape := plain.value, level.moduli, Shape();
      var k, n := |qs|, coeffCount;
      ghost var before := data[..];
      for j := 0 to k
        invariant shape.Related(before, data[..], AddAt(vals, qs, j))
      {
        ghost var mid := data[..];
        PositionInRangeBlock(size, k, n, 0, j);
        BlockBounded(shape, before, mid, AddAt(vals, qs, j), 0, j);
        AddPolyScalarCoeffmod(data, j * n, n, vals[j], qs[j]);
        BlockStep(shape, before, mid, data[..], AddAt(vals, qs, j), AddAt(vals, qs, j + 1), 0, j,
                  x => (x + vals[j]) % qs[j]);
      }
      RelatedReduced(shape, before, data[..], AddAt(vals, qs, k));
      var transparent := IsTransparent();
      r := if transparent then Fail("result ciphertext is transparent") else Pass;
    }

    /** multiply_plain_inplace: every component is multiplied and the scale is squared. */
    method MultiplyPlainInplace(value: real) returns (r: Outcome)
      requires Valid() && value != 0.0
      modifies data, this`scale
      ensures Valid()
      ensures var plan := MultiplyPlan(value, old(scale), level);
              match plan
              case Err(reason) => r == Fail(reason) && data[..] == old(data[..]) && scale == old(scale)
              case Ok(vals) =>
                && Shape().Related(old(data[..]), data[..], MultiplyAt(vals, level.moduli, size, 0))
                && scale == old(scale) * old(scale)
                && r == if Transparent() then Fail("result ciphertext is transparent") else Pass
    {
      var plan := PlanMultiply(value, scale, level);
      if plan.Err? {
        return Fail(plan.reason);
      }
      MultiplyBlocks(plan.value);
      scale := scale * scale;
      var transparent := IsTransparent();
      r := if transparent then Fail("result ciphertext is transparent") else Pass;
    }

    method MultiplyBlocks(vals: seq<int>)
      requires Valid() && |vals| == |level.moduli|
      requires forall j :: 0 <= j < |vals| ==> 0 <= vals[j] < level.moduli[j]
      modifies data
      ensures Valid()
      ensures Shape().Related(old(data[..]), data[..], MultiplyAt(vals, level.moduli, size, 0))
    {
      var qs, shape := level.moduli, Shape();
      var k, n := |qs|, coeffCount;
      ghost var before := data[..];
      for i := 0 to size
        invariant shape.Related(before, data[..], MultiplyAt(vals, qs, i, 0))
      {
        for j := 0 to k
          invariant shape.Related(before, data[..], MultiplyAt(vals, qs, i, j))
        {
          ghost var mid := data[..];
          PositionInRangeBlock(size, k, n, i, j);
          MultiplyPolyScalarCoeffmod(data, (i * k + j) * n, n, vals[j], qs[j]);
          BlockStep(shape, before, mid, data[..], MultiplyAt(vals, qs, i, j), MultiplyAt(vals, qs, i, j + 1), i, j,
                    x => (x * vals[j]) % qs[j]);
        }
      }
      RelatedReduced(shape, before, data[..], MultiplyAt(vals, qs, size, 0));
    }
  }

  lemma PositionInRangeBlock(size: nat, k: nat, n: nat, i: nat, j: nat)
    requires i < size && j < k
    ensures Position(k, n, i, j, 0) + n <= size * k * n
  {
    if n > 0 {
      PositionInRange(size, k, n, i, j, n - 1);
    }
  }

  /** Every position is some component, modulus and slot. */
  lemma Locate(size: nat, k: nat, n: nat, p: nat) returns (i: nat, j: nat, t: nat)
    requires p < size * k * n
    ensures i < size && j < k && t < n && Position(k, n, i, j, t) == p
  {
    QuotientInRange(p, size * k, n);
    t := p % n;
    var b := p / n;
    QuotientInRange(b, size, k);
    j := b % k;
    i := b / k;
  }

  lemma BlockBounded(shape: Layout, before: seq<nat>, mid: seq<nat>, f: (nat, nat, nat) -> nat, i: nat, j: nat)
    requires |before| == shape.Length() && shape.Related(before, mid, f) && shape.Reduced(before)
    requires shape.size > i && j < |shape.moduli|
    requires forall x :: f(i, j, x) == x
    ensures Position(|shape.moduli|, shape.n, i, j, 0) + shape.n <= |mid|
    ensures forall p :: Position(|shape.moduli|, shape.n, i, j, 0) <= p < Position(|shape.moduli|, shape.n, i, j, 0) + shape.n
              ==> mid[p] < shape.moduli[j]
  {
    var b := Position(|shape.moduli|, shape.n, i, j, 0);
    PositionInRangeBlock(shape.size, |shape.moduli|, shape.n, i, j);
    forall p | b <= p < b + shape.n ensures mid[p] < shape.moduli[j] {
      assert shape.Has(i, j, p - b);
      assert shape.At(mid, i, j, p - b) == f(i, j, shape.At(before, i, j, p - b));
      assert Position(|shape.moduli|, shape.n, i, j, p - b) == p;
    }
  }

  /** Rewriting one block moves the relation forward by exactly that block. */
  lemma BlockStep(shape: Layout, before: seq<nat>, mid: seq<nat>, after: seq<nat>,
                  f: (nat, nat, nat) -> nat, g: (nat, nat, nat) -> nat, i: nat, j: nat, op: nat -> int)
    requires |before| == shape.Length() && shape.Related(before, mid, f)
    requires i < shape.size && j < |shape.moduli| && |after| == |mid|
    requires var b := Position(|shape.moduli|, shape.n, i, j, 0);
             forall p :: 0 <= p < |mid| ==> after[p] == if b <= p < b + shape.n then op(mid[p]) else mid[p]
    requires forall i': nat, j': nat, x: nat :: j' < |shape.moduli| ==>
               g(i', j', x) == if i' == i && j' == j then op(f(i, j, x)) else f(i', j', x)
    ensures shape.Related(before, after, g)
  {
    forall i', j', t' | shape.Has(i', j', t')
      ensures shape.At(after, i', j', t') == g(i', j', shape.At(before, i', j', t'))
    {
      PositionInRange(shape.size, |shape.moduli|, shape.n, i', j', t');
      BlockMembership(|shape.moduli|, shape.n, i, j, i', j', t');
      assert shape.At(mid, i', j', t') == f(i', j', shape.At(before, i', j', t'));
    }
  }

  lemma RelatedReduced(shape: Layout, d: seq<nat>, d': seq<nat>, f: (nat, nat, nat) -> nat)
    requires |d| == shape.Length() && shape.Related(d, d', f) && shape.Reduced(d)
    requires forall i: nat, j: nat, x: nat :: j < |shape.moduli| && x < shape.moduli[j] ==> f(i, j, x) < shape.moduli[j]
    ensures shape.Reduced(d')
  {
  }
}
