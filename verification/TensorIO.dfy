/**
 * Whole-tensor reads and writes (src/he_plain_tensor.cpp,
 * src/seal/he_seal_cipher_tensor.cpp): a batched tensor keeps one plaintext or
 * ciphertext for each position and in it one value for each row of the batch.
 */
module TensorIO {
  import opened Outcomes
  import opened Arithmetic
  import opened ComplexPacking
  import opened SealCiphertext
  import opened ScalarKernels
  import opened Pooling

  // -------------------------------------------------------------- the value layout

  /** Value j of element i is at i + j * n of a buffer of batch rows of n values. */
  function At(n: nat, batch: nat, i: nat, j: nat): (k: nat)
    requires i < n && j < batch
    ensures k < n * batch && k % n == i && k / n == j
  {
    MulMono(j + 1, batch, n);
    DivModUnique(i + j * n, n, j, i);
    i + j * n
  }

  /** Every place of the buffer is one (i, j). */
  lemma AtIsOnto(n: nat, batch: nat, k: nat)
    requires k < n * batch
    ensures n > 0 && k % n < n && 0 <= k / n < batch && At(n, batch, k % n, k / n) == k
  {
    assert n * batch == batch * n;
    QuotientInRange(k, batch, n);
  }

  function Gathered(source: seq<real>, n: nat, batch: nat): (rows: seq<seq<real>>)
    requires |source| == n * batch
    ensures |rows| == n && forall i :: 0 <= i < n ==> |rows[i]| == batch
  {
    seq(n, i requires 0 <= i < n => GatheredRow(source, n, batch, i))
  }

  function GatheredRow(source: seq<real>, n: nat, batch: nat, i: nat): (row: seq<real>)
    requires |source| == n * batch && i < n
    ensures |row| == batch
  {
    seq(batch, j requires 0 <= j < batch => source[At(n, batch, i, j)])
  }

  /** The single-element branch copies the buffer as it stands. */
  lemma SingleRow(source: seq<real>, batch: nat)
    requires |source| == batch
    ensures GatheredRow(source, 1, batch, 0) == source
  {
    forall j | 0 <= j < batch ensures GatheredRow(source, 1, batch, 0)[j] == source[j] {
      assert At(1, batch, 0, j) == j;
    }
  }

  /** Without batching each row is one value. */
  lemma UnbatchedRow(source: seq<real>, n: nat, i: nat)
    requires |source| == n * 1 && i < n
    ensures GatheredRow(source, n, 1, i) == [source[i]]
  {
    assert At(n, 1, i, 0) == i;
  }

  /** What reading rows of at least batch values puts into the buffer. */
  function Scattered(rows: seq<seq<real>>, batch: nat): (target: seq<real>)
    requires forall i :: 0 <= i < |rows| ==> |rows[i]| >= batch
    ensures |target| == |rows| * batch
  {
    seq(|rows| * batch, k requires 0 <= k < |rows| * batch => AtIsOnto(|rows|, batch, k); rows[k % |rows|][k / |rows|])
  }

  /** Scattering what was gathered gives the buffer back; longer rows make no difference. */
  lemma ScatterGather(source: seq<real>, n: nat, batch: nat, rows: seq<seq<real>>)
    requires |source| == n * batch == |rows| * batch && |rows| == n
    requires forall i :: 0 <= i < n ==> |rows[i]| >= batch
    ensures Scattered(rows, batch) == source <==> forall i :: 0 <= i < n ==> rows[i][..batch] == GatheredRow(source, n, batch, i)
  {
    var target := Scattered(rows, batch);
    if forall i :: 0 <= i < n ==> rows[i][..batch] == GatheredRow(source, n, batch, i) {
      forall k | 0 <= k < n * batch ensures target[k] == source[k] {
        AtIsOnto(n, batch, k);
        assert rows[k % n][..batch][k / n] == GatheredRow(source, n, batch, k % n)[k / n];
      }
    }
    if target == source {
      forall i | 0 <= i < n ensures rows[i][..batch] == GatheredRow(source, n, batch, i) {
        forall j | 0 <= j < batch ensures rows[i][..batch][j] == GatheredRow(source, n, batch, i)[j] {
          assert target[At(n, batch, i, j)] == source[At(n, batch, i, j)];
        }
      }
    }
  }

  /** Copies one row out of the source buffer. */
  method GatherRow(source: seq<real>, n: nat, batch: nat, i: nat) returns (values: seq<real>)
    requires |source| == n * batch && i < n
    ensures values == GatheredRow(source, n, batch, i)
  {
    values := [];
    for j := 0 to batch
      invariant values == GatheredRow(source, n, batch, i)[..j]
    {
      var k := At(n, batch, i, j);
      assert GatheredRow(source, n, batch, i)[j] == source[k];
      values := values + [source[k]];
    }
  }

  /** Copies one row into its places of the target buffer. */
  method ScatterRow(target: array<real>, n: nat, batch: nat, i: nat, values: seq<real>)
    requires target.Length == n * batch && i < n && |values| >= batch
    modifies target
    ensures forall k :: 0 <= k < target.Length ==>
              target[k] == if k % n == i && 0 <= k / n < batch then values[k / n] else old(target[k])
  {
    for j := 0 to batch
      invariant forall k :: 0 <= k < target.Length ==>
                  target[k] == if k % n == i && 0 <= k / n < j then values[k / n] else old(target[k])
    {
      var at := At(n, batch, i, j);
      target[at] := values[j];
      forall k | 0 <= k < target.Length
        ensures target[k] == if k % n == i && 0 <= k / n < j + 1 then values[k / n] else old(target[k])
      {
        AtIsOnto(n, batch, k);
      }
    }
  }

  /** The first rows have been copied to their places. */
  ghost predicate FilledTo(target: seq<real>, rows: seq<seq<real>>, batch: nat, count: nat)
    requires count <= |rows|
  {
    && (forall i :: 0 <= i < count ==> |rows[i]| >= batch)
    && (rows == [] ||
        forall k :: 0 <= k < |target| && k % |rows| < count ==> 0 <= k / |rows| < batch && target[k] == rows[k % |rows|][k / |rows|])
  }

  lemma NoneFilled(target: seq<real>, rows: seq<seq<real>>, batch: nat)
    ensures FilledTo(target, rows, batch, 0)
  {}

  /** The next row of the target. */
  method FillRow(target: array<real>, batch: nat, i: nat, values: seq<real>, ghost rows: seq<seq<real>>, n: nat)
    requires target.Length == n * batch && i < n == |rows| && rows[i] == values && |values| >= batch
    requires FilledTo(target[..], rows, batch, i)
    modifies target
    ensures FilledTo(target[..], rows, batch, i + 1)
  {
    ScatterRow(target, n, batch, i, values);
    forall k | 0 <= k < target.Length && k % n < i + 1 ensures 0 <= k / n < batch && target[..][k] == rows[k % n][k / n] {
      AtIsOnto(n, batch, k);
      assert old(target[..])[k] == old(target[k]);
    }
  }

  lemma Filled(target: seq<real>, rows: seq<seq<real>>, batch: nat)
    requires |target| == |rows| * batch && FilledTo(target, rows, batch, |rows|)
    ensures (forall i :: 0 <= i < |rows| ==> |rows[i]| >= batch) && target == Scattered(rows, batch)
  {
    forall k | 0 <= k < |target| ensures target[k] == Scattered(rows, batch)[k] {
      AtIsOnto(|rows|, batch, k);
    }
  }

  // ------------------------------------------------------------------ plain tensors

  class HEPlainTensor {
    const batchSize: nat
    const batched: bool
    var plaintexts: seq<HEPlaintext>

    ghost predicate Valid()
      reads this
    {
      batchSize > 0 && (batchSize > 1 ==> batched)
    }

    ghost function Rows(): (rows: seq<seq<real>>)
      reads this
      ensures |rows| == |plaintexts|
    {
      seq(|plaintexts|, i requires 0 <= i < |plaintexts| reads this => plaintexts[i].values)
    }

    constructor (batchSize: nat, batched: bool, count: nat)
      requires batchSize > 0 && (batchSize > 1 ==> batched)
      ensures Valid() && this.batchSize == batchSize && |plaintexts| == count
    {
      this.batchSize, this.batched, plaintexts := batchSize, batched, seq(count, _ => HEPlaintext([], false));
    }

    /** The values of element i, by the branch the writer takes. */
    method ElementValues(source: seq<real>, n: nat, i: nat) returns (values: seq<real>)
      requires Valid() && |source| == n * batchSize && i < n
      ensures values == GatheredRow(source, n, batchSize, i)
    {
      if n == 1 {
        SingleRow(source, batchSize);
        if batchSize > 1 && batched {
          values := [];
          for j := 0 to batchSize
            invariant values == source[..j]
          {
            values := values + [source[j * 1]];
          }
        } else {
          values := [source[0]];
        }
      } else if batchSize > 1 {
        values := GatherRow(source, n, batchSize, i);
      } else {
        UnbatchedRow(source, n, i);
        values := [source[i]];
      }
    }

    method Write(source: seq<real>)
      requires Valid() && |source| == |plaintexts| * batchSize
      modifies this`plaintexts
      ensures |plaintexts| == |old(plaintexts)| && Rows() == Gathered(source, |plaintexts|, batchSize)
    {
      var n := |plaintexts|;
      for i := 0 to n
        invariant |plaintexts| == n
        invariant forall k :: 0 <= k < i ==> plaintexts[k].values == GatheredRow(source, n, batchSize, k)
      {
        var values := ElementValues(source, n, i);
        plaintexts := plaintexts[i := plaintexts[i].(values := values)];
      }
    }

    /**
     * Reading several plaintexts fails exactly when one has fewer values than the
     * batch has rows. A lone one is copied without a check: if it is short, the
     * copy goes on into the memory that lies beyond its values.
     */
    method Read(target: array<real>, beyond: seq<real>) returns (r: Outcome)
      requires Valid() && target.Length == |plaintexts| * batchSize && |beyond| >= batchSize
      modifies target
      ensures r == Pass <==> |plaintexts| == 1 || forall i :: 0 <= i < |Rows()| ==> |Rows()[i]| >= batchSize
      ensures r == Pass && (forall i :: 0 <= i < |Rows()| ==> |Rows()[i]| >= batchSize) ==> target[..] == Scattered(Rows(), batchSize)
      ensures |plaintexts| == 1 ==> target[..] == (Rows()[0] + beyond)[..batchSize]
    {
      var n := |plaintexts|;
      if n == 1 {
        var memory := plaintexts[0].values + beyond;
        for j := 0 to batchSize
          invariant forall k :: 0 <= k < j ==> target[k] == memory[k]
        {
          target[j] := memory[j];
        }
        if |Rows()[0]| >= batchSize {
          forall k | 0 <= k < batchSize ensures target[k] == Scattered(Rows(), batchSize)[k] {
            assert k / 1 == k;
          }
        }
        return Pass;
      }
      hide FilledTo, Scattered;
      ghost var rows := Rows();
      NoneFilled(target[..], rows, batchSize);
      for i := 0 to n
        invariant FilledTo(target[..], rows, batchSize, i)
      {
        var values := plaintexts[i].values;
        if |values| < batchSize {
          assert |Rows()[i]| < batchSize;
          return Fail("values size is smaller than batch size");
        }
        FillRow(target, batchSize, i, values, rows, n);
      }
      Filled(target[..], rows, batchSize);
      r := Pass;
    }

    /** Reading a tensor back after writing all of it gives the same buffer. */
    method WriteThenRead(source: seq<real>, target: array<real>, beyond: seq<real>) returns (r: Outcome)
      requires Valid() && |source| == |plaintexts| * batchSize == target.Length && |beyond| >= batchSize
      modifies this`plaintexts, target
      ensures r == Pass && target[..] == source
    {
      Write(source);
      ghost var rows := Rows();
      assert |plaintexts| == 1 ==> rows[0] == plaintexts[0].values;
      r := Read(target, beyond);
      forall i | 0 <= i < |rows| ensures rows[i][..batchSize] == GatheredRow(source, |rows|, batchSize, i) {
        assert rows[i][..batchSize] == rows[i];
      }
      ScatterGather(source, |rows|, batchSize, rows);
    }
  }

  // ----------------------------------------------------------------- cipher tensors

  /** A plaintext's values as they come back from encrypting into a wrapper and decrypting it. */
  function Returned(b: Backend, p: HEPlaintext, o: View): seq<real>
    requires Encrypted(b, p, o).Ok?
  {
    Decrypted(Encrypted(b, p, o).value).values
  }

  predicate AllZero(xs: seq<real>)
  {
    forall i :: 0 <= i < |xs| ==> xs[i] == 0.0
  }

  /**
   * The values come back exactly when the wrapper was not flagged zero before,
   * or holds them anyway: encrypt never takes an old flag down, and a flagged
   * ciphertext decrypts to one 0 for every slot.
   */
  lemma ReturnedIff(b: Backend, p: HEPlaintext, o: View)
    requires p.values != [] && b.slotCount > 0 && |o.slots| == b.slotCount && Encrypted(b, p, o).Ok?
    ensures |Returned(b, p, o)| >= |p.values| && Returned(b, p, o)[..|p.values|] == p.values
            <==> (o.isZero ==> AllZero(p.values) && |p.values| <= b.slotCount)
  {
    var back, n := Returned(b, p, o), |p.values|;
    if o.isZero || p.IsSingleZero() {
      assert back == seq(b.slotCount, _ => 0.0);
      if n <= b.slotCount && AllZero(p.values) {
        assert back[..n] == p.values;
      }
      if n <= b.slotCount && back[..n] == p.values {
        forall i | 0 <= i < n ensures p.values[i] == 0.0 { assert back[..n][i] == 0.0; }
      }
    } else {
      FreshReturns(b, p);
    }
  }

  /** A value written over an old zero flag reads back as 0. */
  lemma StaleFlagHidesValue(b: Backend, x: real, o: View)
    requires b.slotCount > 0 && |o.slots| == b.slotCount && o.isZero && x != 0.0
    requires Encrypted(b, HEPlaintext([x], false), o).Ok?
    ensures Returned(b, HEPlaintext([x], false), o)[..1] == [0.0] != [x]
  {}

  /** Decoding undoes encoding on the values there are. */
  lemma FreshReturns(b: Backend, p: HEPlaintext)
    requires p.values != [] && b.slotCount > 0 && EncodeSlots(p, b.slotCount).Ok?
    ensures var back := DecodeValues(EncodeSlots(p, b.slotCount).value, p.packed);
            |back| >= |p.values| && back[..|p.values|] == p.values
  {
    var slots, n := EncodeSlots(p, b.slotCount).value, |p.values|;
    var back := DecodeValues(slots, p.packed);
    if p.IsSingleValue() {
      if p.packed { UnpackAt(slots, 0); }
      assert back[0] == p.values[0];
    } else if p.packed {
      PackLength(p.values);
      var m := |Pack(p.values)|;
      assert slots[..m] == Pack(p.values);
      UnpackPrefix(slots, m);
      UnpackPack(p.values);
      assert back[..2 * m][..n] == back[..n];
    } else {
      assert back[..n] == p.values;
    }
  }

  class HESealCipherTensor {
    const batchSize: nat
    const elementCount: nat
    const backend: Backend
    const complexPacking: bool
    var ciphertexts: seq<SealCiphertextWrapper>

    ghost predicate Valid()
      reads this, ciphertexts
    {
      && batchSize > 0 && backend.slotCount > 0 && NoRepeats(ciphertexts)
      && forall i :: 0 <= i < |ciphertexts| ==> |ciphertexts[i].slots| == backend.slotCount
    }

    ghost function Views(): (views: seq<View>)
      reads this, ciphertexts
      ensures |views| == |ciphertexts| && forall i :: 0 <= i < |views| ==> views[i] == ciphertexts[i].Contents()
    {
      seq(|ciphertexts|, i requires 0 <= i < |ciphertexts| reads this, ciphertexts => ciphertexts[i].Contents())
    }

    /** A fresh tensor: its own empty ciphertexts, none flagged. */
    constructor (batchSize: nat, count: nat, backend: Backend, complexPacking: bool, unspecified: Slots)
      requires batchSize > 0 && backend.slotCount == |unspecified| > 0
      ensures Valid() && this.batchSize == batchSize && this.backend == backend && this.complexPacking == complexPacking
      ensures |ciphertexts| == count && elementCount == count * batchSize
      ensures forall i :: 0 <= i < count ==> fresh(ciphertexts[i]) && !ciphertexts[i].isZero
    {
      this.batchSize, this.elementCount, this.backend, this.complexPacking := batchSize, count * batchSize, backend, complexPacking;
      ciphertexts := [];
      new;
      for i := 0 to count
        invariant |ciphertexts| == i && fresh(set x | x in ciphertexts)
        invariant forall k, l :: 0 <= k < l < i ==> ciphertexts[k] != ciphertexts[l]
        invariant forall k :: 0 <= k < i ==> ciphertexts[k].Contents() == Empty(unspecified)
      {
        var c := new SealCiphertextWrapper(unspecified);
        ciphertexts := ciphertexts + [c];
      }
      NoRepeatsFrom(ciphertexts);
    }

    method SetElements(elements: seq<SealCiphertextWrapper>) returns (r: Outcome)
      requires batchSize > 0
      modifies this`ciphertexts
      ensures r == Pass <==> |elements| == elementCount / batchSize
      ensures ciphertexts == if r == Pass then elements else old(ciphertexts)
    {
      if |elements| != elementCount / batchSize {
        return Fail("Wrong number of elements set");
      }
      ciphertexts := elements;
      r := Pass;
    }

    /** The plaintext that is encrypted into element i. */
    function Row(source: seq<real>, n: nat, i: nat): HEPlaintext
      requires |source| == n * batchSize && i < n
    {
      HEPlaintext(GatheredRow(source, n, batchSize, i), complexPacking)
    }

    /** The values encrypted into element i, by the branch the writer takes. */
    method ElementValues(source: seq<real>, n: nat, i: nat) returns (values: seq<real>)
      requires batchSize > 0 && |source| == n * batchSize && i < n
      ensures values == GatheredRow(source, n, batchSize, i)
    {
      if n == 1 {
        SingleRow(source, batchSize);
        values := source[..batchSize];
      } else if batchSize > 1 {
        values := GatherRow(source, n, batchSize, i);
      } else {
        UnbatchedRow(source, n, i);
        values := source[i..i + 1];
      }
    }

    /** The plaintexts a whole-tensor write encrypts. */
    function Plains(source: seq<real>, n: nat): (ps: seq<HEPlaintext>)
      requires |source| == n * batchSize
      ensures |ps| == n
    {
      seq(n, i requires 0 <= i < n => Row(source, n, i))
    }

    predicate AllEncode(ps: seq<HEPlaintext>)
    {
      forall i :: 0 <= i < |ps| ==> Encode(backend, ps[i], backend.topChain, backend.scale).Ok?
    }

    /** Each of the first n ciphertexts holds its plaintext, encrypted over what was there. */
    predicate AreEncrypted(ps: seq<HEPlaintext>, olds: seq<View>, news: seq<View>, n: nat)
      requires n <= |ps| == |olds| == |news|
    {
      forall i :: 0 <= i < n ==> Encrypted(backend, ps[i], olds[i]) == Ok(news[i])
    }

    method Write(source: seq<real>) returns (r: Outcome)
      requires Valid() && |source| == |ciphertexts| * batchSize
      modifies ciphertexts
      ensures Valid()
      ensures r == Pass <==> AllEncode(Plains(source, |ciphertexts|))
      ensures r == Pass ==> AreEncrypted(Plains(source, |ciphertexts|), old(Views()), Views(), |ciphertexts|)
    {
      hide Encrypted, Encode, GatheredRow, NoRepeats;
      ghost var ps, olds := Plains(source, |ciphertexts|), Views();
      for i := 0 to |ciphertexts|
        invariant Valid() && AllEncode(ps[..i]) && AreEncrypted(ps, olds, Views(), i)
        invariant forall k :: i <= k < |ciphertexts| ==> ciphertexts[k].Contents() == olds[k]
      {
        var values := ElementValues(source, |ciphertexts|, i);
        var p := HEPlaintext(values, complexPacking);
        assert p == ps[i];
        var encrypted := WriteElement(i, p, olds);
        if encrypted.Fail? {
          return encrypted;
        }
        assert ps[..i + 1] == ps[..i] + [p];
      }
      assert ps[..|ciphertexts|] == ps;
      r := Pass;
    }

    /** Encrypts one element; the others stay as they are. */
    method WriteElement(i: nat, p: HEPlaintext, ghost olds: seq<View>) returns (r: Outcome)
      requires Valid() && i < |ciphertexts| == |olds| && ciphertexts[i].Contents() == olds[i]
      modifies ciphertexts[i]
      ensures Valid() && (r == Pass <==> Encode(backend, p, backend.topChain, backend.scale).Ok?)
      ensures r == Pass ==> Encrypted(backend, p, olds[i]) == Ok(ciphertexts[i].Contents())
      ensures forall k :: 0 <= k < |ciphertexts| && k != i ==> ciphertexts[k].Contents() == old(ciphertexts[k].Contents())
    {
      forall k | 0 <= k < |ciphertexts| && k != i ensures ciphertexts[k] != ciphertexts[i] {
        NoRepeatsMeans(ciphertexts, k, i);
      }
      r := Encrypt(ciphertexts[i], p, backend);
    }

    /** What decrypting each element gives. */
    ghost function Rows(): (rows: seq<seq<real>>)
      reads this, ciphertexts
      ensures |rows| == |ciphertexts|
    {
      seq(|ciphertexts|, i requires 0 <= i < |ciphertexts| reads this, ciphertexts => Decrypted(ciphertexts[i].Contents()).values)
    }

    /** The single-element branch decodes straight into the target. */
    method ReadSingle(target: array<real>) returns (r: Outcome)
      requires Valid() && |ciphertexts| == 1 && target.Length == batchSize
      modifies target
      ensures r == Pass <==> |Rows()[0]| >= batchSize
      ensures r == Pass ==> target[..] == Scattered(Rows(), batchSize)
    {
      var p := Decrypt(ciphertexts[0]);
      assert Rows()[0] == p.values;
      if |p.values| < batchSize {
        return Fail("fewer values than the batch has rows");
      }
      for j := 0 to batchSize
        invariant forall k :: 0 <= k < j ==> target[k] == p.values[k]
      {
        target[j] := p.values[j];
      }
      forall k | 0 <= k < batchSize ensures target[k] == Scattered(Rows(), batchSize)[k] {
        DivModUnique(k, 1, k, 0);
      }
      r := Pass;
    }

    method Read(target: array<real>) returns (r: Outcome)
      requires Valid() && target.Length == |ciphertexts| * batchSize
      modifies target
      ensures r == Pass <==> forall i :: 0 <= i < |Rows()| ==> |Rows()[i]| >= batchSize
      ensures r == Pass ==> target[..] == Scattered(Rows(), batchSize)
    {
      var n := |ciphertexts|;
      if n == 1 {
        r := ReadSingle(target);
        return;
      }
      hide Decrypted, NoRepeats, FilledTo, Scattered;
      ghost var rows := Rows();
      NoneFilled(target[..], rows, batchSize);
      for i := 0 to n
        invariant rows == Rows() && FilledTo(target[..], rows, batchSize, i)
      {
        var p := Decrypt(ciphertexts[i]);
        assert rows[i] == p.values;
        if |p.values| < batchSize {
          return Fail("fewer values than the batch has rows");
        }
        FillRow(target, batchSize, i, p.values, rows, n);
      }
      Filled(target[..], rows, batchSize);
      r := Pass;
    }

    /** Every element that was flagged zero is written with zeros, few enough for one to a slot. */
    predicate FlagsDoNoHarm(source: seq<real>, olds: seq<View>)
      requires |source| == |olds| * batchSize
    {
      forall i :: 0 <= i < |olds| && olds[i].isZero ==> AllZero(Row(source, |olds|, i).values) && batchSize <= backend.slotCount
    }

    lemma RoundTrip(source: seq<real>, olds: seq<View>, news: seq<View>, rows: seq<seq<real>>)
      requires batchSize > 0 && backend.slotCount > 0 && |source| == |olds| * batchSize && |rows| == |news| == |olds|
      requires forall i :: 0 <= i < |olds| ==> |olds[i].slots| == backend.slotCount
      requires AreEncrypted(Plains(source, |olds|), olds, news, |olds|)
      requires forall i :: 0 <= i < |rows| ==> rows[i] == Decrypted(news[i]).values
      ensures (forall i :: 0 <= i < |rows| ==> |rows[i]| >= batchSize) && Scattered(rows, batchSize) == source
              <==> FlagsDoNoHarm(source, olds)
    {
      forall i | 0 <= i < |olds|
        ensures |rows[i]| >= batchSize && rows[i][..batchSize] == GatheredRow(source, |olds|, batchSize, i)
                <==> (olds[i].isZero ==> AllZero(Row(source, |olds|, i).values) && batchSize <= backend.slotCount)
      {
        assert Encrypted(backend, Plains(source, |olds|)[i], olds[i]) == Ok(news[i]);
        ReturnedIff(backend, Row(source, |olds|, i), olds[i]);
      }
      if forall i :: 0 <= i < |rows| ==> |rows[i]| >= batchSize {
        ScatterGather(source, |olds|, batchSize, rows);
      }
    }

    /**
     * Reading back after writing the whole tensor gives the same buffer exactly
     * when old zero flags do no harm. A fresh tensor has none.
     */
    method WriteThenRead(source: seq<real>, target: array<real>) returns (written: Outcome, r: Outcome)
      requires Valid() && |source| == |ciphertexts| * batchSize == target.Length
      modifies ciphertexts, target
      ensures written == Pass <==> AllEncode(Plains(source, |ciphertexts|))
      ensures written == Pass ==> (r == Pass && target[..] == source <==> FlagsDoNoHarm(source, old(Views())))
    {
      hide Encrypted, GatheredRow, NoRepeats, Scattered, Decrypted;
      ghost var olds := Views();
      written := Write(source);
      if written.Fail? { return written, written; }
      ghost var rows := Rows();
      RoundTrip(source, olds, Views(), rows);
      r := Read(target);
      assert Rows() == rows;
    }
  }
}
