/**
 * Row-major coordinates and the coordinate transforms the tensor kernels walk.
 * nGraph's CoordinateTransform is not part of the repository; this is the part
 * of it the kernels rely on, as the comments in
 * src/seal/kernel/convolution_seal.hpp describe it: the row-major enumeration
 * of a strided box laid over a padded and dilated source.
 */
module Coordinates {
  import opened Arithmetic

  function Size(shape: seq<nat>): nat
  {
    if shape == [] then 1 else Size(Front(shape)) * Last(shape)
  }

  function Front(s: seq<nat>): seq<nat>
    requires s != []
  {
    s[..|s| - 1]
  }

  function Last(s: seq<nat>): nat
    requires s != []
  {
    s[|s| - 1]
  }

  predicate InBox(shape: seq<nat>, c: seq<nat>)
  {
    |c| == |shape| && forall i :: 0 <= i < |shape| ==> c[i] < shape[i]
  }

  /** Row-major position: the last coordinate moves fastest. */
  function Index(shape: seq<nat>, c: seq<nat>): nat
    requires InBox(shape, c)
  {
    if shape == [] then 0 else Index(Front(shape), Front(c)) * Last(shape) + Last(c)
  }

  /** The k-th coordinate of a shape in row-major order. */
  function CoordAt(shape: seq<nat>, k: nat): (c: seq<nat>)
    requires k < Size(shape)
    ensures InBox(shape, c)
  {
    if shape == [] then []
    else
      QuotientInRange(k, Size(Front(shape)), Last(shape));
      CoordAt(Front(shape), k / Last(shape)) + [k % Last(shape)]
  }

  lemma {:induction false} IndexInRange(shape: seq<nat>, c: seq<nat>)
    requires InBox(shape, c)
    ensures Index(shape, c) < Size(shape)
  {
    if shape == [] {
    } else {
      IndexInRange(Front(shape), Front(c));
      StepInRange(Index(Front(shape), Front(c)), Size(Front(shape)), Last(shape), Last(c));
    }
  }

  lemma StepInRange(high: nat, d: nat, rest: nat, low: nat)
    requires high < d && low < rest
    ensures high * rest + low < d * rest
  {
    MulMono(high + 1, d, rest);
  }

  /** Index and CoordAt are inverse: the enumeration visits every coordinate once. */
  lemma {:induction false} IndexOfCoordAt(shape: seq<nat>, k: nat)
    requires k < Size(shape)
    ensures Index(shape, CoordAt(shape, k)) == k
  {
    if shape == [] {
    } else {
      QuotientInRange(k, Size(Front(shape)), Last(shape));
      IndexOfCoordAt(Front(shape), k / Last(shape));
      assert Front(CoordAt(shape, k)) == CoordAt(Front(shape), k / Last(shape));
    }
  }

  lemma {:induction false} CoordAtOfIndex(shape: seq<nat>, c: seq<nat>)
    requires InBox(shape, c)
    ensures Index(shape, c) < Size(shape) && CoordAt(shape, Index(shape, c)) == c
  {
    IndexInRange(shape, c);
    if shape == [] {
    } else {
      CoordAtOfIndex(Front(shape), Front(c));
      DivModUnique(Index(shape, c), Last(shape), Index(Front(shape), Front(c)), Last(c));
      assert c == Front(c) + [Last(c)];
    }
  }

  /** Row-major order extends the componentwise order. */
  lemma {:induction false} IndexMonotone(shape: seq<nat>, a: seq<nat>, b: seq<nat>)
    requires InBox(shape, a) && InBox(shape, b)
    requires forall i :: 0 <= i < |shape| ==> a[i] <= b[i]
    ensures Index(shape, a) <= Index(shape, b)
  {
    if shape == [] {
    } else {
      IndexMonotone(Front(shape), Front(a), Front(b));
      MulMono(Index(Front(shape), Front(a)), Index(Front(shape), Front(b)), Last(shape));
    }
  }

  /** The size of a shape put together from two parts, and the coordinates of the parts. */
  lemma {:induction false} SizeAppend(s: seq<nat>, t: seq<nat>)
    ensures Size(s + t) == Size(s) * Size(t)
  {
    if t == [] {
      assert s + t == s;
    } else {
      assert Front(s + t) == s + Front(t);
      SizeAppend(s, Front(t));
      MulAssoc(Size(s), Size(Front(t)), Last(t));
    }
  }

  lemma {:induction false} IndexAppend(s: seq<nat>, t: seq<nat>, a: seq<nat>, b: seq<nat>)
    requires InBox(s, a) && InBox(t, b)
    ensures InBox(s + t, a + b)
    ensures Index(s + t, a + b) == Index(s, a) * Size(t) + Index(t, b)
  {
    if t == [] {
      assert s + t == s && a + b == a;
    } else {
      assert Front(s + t) == s + Front(t) && Front(a + b) == a + Front(b);
      IndexAppend(s, Front(t), a, Front(b));
      HornerStep(Index(s, a), Size(Front(t)), Index(Front(t), Front(b)), Last(t));
    }
  }

  /** In a matrix, row i and column j are at i * n + j. */
  lemma MatrixIndex(m: nat, n: nat, i: nat, j: nat)
    requires i < m && j < n
    ensures InBox([m] + [n], [i] + [j]) && Index([m] + [n], [i] + [j]) == i * n + j
    ensures Index([m], [i]) == i && Index([n], [j]) == j && Size([n]) == n
  {
    IndexAppend([m], [n], [i], [j]);
    assert Front([m]) == [] == Front([n]) && Front([i]) == [] == Front([j]);
  }

  lemma HornerStep(x: int, rest: int, low: int, n: int)
    ensures (x * rest + low) * n == x * (rest * n) + low * n
  {
    MulAssoc(x, rest, n);
  }

  /** The two parts a flat index of s + t is split into. */
  function Split(s: seq<nat>, t: seq<nat>, k: nat): (c: (seq<nat>, seq<nat>))
    requires k < Size(s) * Size(t)
    ensures InBox(s, c.0) && InBox(t, c.1)
  {
    QuotientInRange(k, Size(s), Size(t));
    (CoordAt(s, k / Size(t)), CoordAt(t, k % Size(t)))
  }

  /** Splitting a flat index gives the coordinate of the whole, part by part. */
  lemma SplitIsCoordAt(s: seq<nat>, t: seq<nat>, k: nat)
    requires k < Size(s) * Size(t)
    ensures k < Size(s + t) && Split(s, t, k).0 + Split(s, t, k).1 == CoordAt(s + t, k)
  {
    SizeAppend(s, t);
    QuotientInRange(k, Size(s), Size(t));
    SplitIndex(s, t, k, k / Size(t), k % Size(t));
  }

  lemma SplitIndex(s: seq<nat>, t: seq<nat>, k: nat, high: nat, low: nat)
    requires high < Size(s) && low < Size(t) && k == high * Size(t) + low < Size(s + t)
    ensures CoordAt(s, high) + CoordAt(t, low) == CoordAt(s + t, k)
  {
    IndexAppend(s, t, CoordAt(s, high), CoordAt(t, low));
    IndexOfCoordAt(s, high);
    IndexOfCoordAt(t, low);
    CoordAtOfIndex(s + t, CoordAt(s, high) + CoordAt(t, low));
  }

  // ----------------------------------------------------------------- transforms

  function CeilDiv(a: nat, b: nat): nat
    requires b > 0
  {
    (a + b - 1) / b
  }

  /** One axis: source extent, start and extent of the box, stride, padding below, dilation. */
  datatype Axis = Axis(source: nat, start: nat, extent: nat, stride: nat, below: int, dilation: nat)
  {
    predicate Valid() { stride > 0 && dilation > 0 }

    function TargetLength(): nat
      requires Valid()
    {
      CeilDiv(extent, stride)
    }

    /** Position in the padded, dilated source. */
    function Position(c: nat): nat { start + c * stride }

    predicate HasSource(c: nat)
      requires Valid()
    {
      var p := Position(c) - below;
      0 <= p && source > 0 && p < (source - 1) * dilation + 1 && p % dilation == 0
    }

    function Source(c: nat): (r: nat)
      requires Valid() && HasSource(c)
      ensures r < source
    {
      var p := Position(c) - below;
      assert p / dilation < source by {
        assert p == p / dilation * dilation;
        if p / dilation >= source { MulMono(source, p / dilation, dilation); }
      }
      p / dilation
    }
  }

  type Transform = seq<Axis>

  predicate ValidTransform(t: Transform)
  {
    forall i :: 0 <= i < |t| ==> t[i].Valid()
  }

  function TargetShape(t: Transform): (s: seq<nat>)
    requires ValidTransform(t)
    ensures |s| == |t|
  {
    seq(|t|, i requires 0 <= i < |t| => t[i].TargetLength())
  }

  function SourceShape(t: Transform): (s: seq<nat>)
    ensures |s| == |t|
  {
    seq(|t|, i requires 0 <= i < |t| => t[i].source)
  }

  predicate HasSource(t: Transform, c: seq<nat>)
    requires ValidTransform(t) && |c| == |t|
  {
    forall i :: 0 <= i < |t| ==> t[i].HasSource(c[i])
  }

  function SourceCoord(t: Transform, c: seq<nat>): (r: seq<nat>)
    requires ValidTransform(t) && |c| == |t| && HasSource(t, c)
    ensures InBox(SourceShape(t), r)
  {
    seq(|t|, i requires 0 <= i < |t| => t[i].Source(c[i]))
  }

  /** The row-major position in the source tensor of a target coordinate. */
  function SourceIndex(t: Transform, c: seq<nat>): nat
    requires ValidTransform(t) && |c| == |t| && HasSource(t, c)
  {
    Index(SourceShape(t), SourceCoord(t, c))
  }
}
