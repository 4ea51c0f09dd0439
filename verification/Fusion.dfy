/**
 * The BoundedRelu fusion (src/pass/he_fusion.cpp): in a graph,
 * Minimum(Relu(x), alpha) is replaced by BoundedRelu(x, alpha). nGraph's graph
 * and matcher are not part of the repository; a graph is modelled as its nodes
 * in topological order, and replacing a node puts the new one in its place,
 * where all its users find it.
 */
module Fusion {
  import opened Coordinates

  datatype Op =
    | Parameter(index: nat)
    | Constant(values: seq<real>)
    | Relu(arg: nat)
    | Broadcast(arg: nat, axes: set<nat>)
    | Minimum(left: nat, right: nat)
    | BoundedRelu(arg: nat, alpha: real)
    | Other(kind: nat, args: seq<nat>)

  datatype Node = Node(op: Op, isF32: bool, shape: seq<nat>)

  // ---------------------------------------------------------------------- meaning

  function PositivePart(f: real): real
  {
    if f > 0.0 then f else 0.0
  }

  function Smaller(x: real, y: real): real
  {
    if x < y then x else y
  }

  /** The element-wise function of the BoundedRelu kernel. */
  function Bounded(f: real, alpha: real): real
  {
    if f > alpha then alpha else if f > 0.0 then f else 0.0
  }

  /** They are the larger of two values, the smaller of two, and a value moved to the nearest in [0, alpha]. */
  lemma ElementFunctions(f: real, x: real, alpha: real)
    ensures PositivePart(f) >= 0.0 && PositivePart(f) >= f && (PositivePart(f) == 0.0 || PositivePart(f) == f)
    ensures Smaller(f, x) <= f && Smaller(f, x) <= x && (Smaller(f, x) == f || Smaller(f, x) == x)
    ensures alpha >= 0.0 ==>
              && 0.0 <= Bounded(f, alpha) <= alpha
              && (0.0 <= f <= alpha ==> Bounded(f, alpha) == f)
              && (f < 0.0 ==> Bounded(f, alpha) == 0.0) && (f > alpha ==> Bounded(f, alpha) == alpha)
    ensures alpha < 0.0 ==> Bounded(f, alpha) == if f > alpha then alpha else 0.0
  {}

  /** The entries of a coordinate or shape on the axes that are kept. */
  function Without(c: seq<nat>, axes: set<nat>): (r: seq<nat>)
    ensures |r| <= |c|
  {
    if c == [] then []
    else
      var front := Without(c[..|c| - 1], axes);
      if |c| - 1 in axes then front else front + [c[|c| - 1]]
  }

  lemma {:induction false} WithoutInBox(shape: seq<nat>, c: seq<nat>, axes: set<nat>)
    requires InBox(shape, c)
    ensures InBox(Without(shape, axes), Without(c, axes))
  {
    if c == [] {
    } else {
      WithoutInBox(shape[..|shape| - 1], c[..|c| - 1], axes);
    }
  }

  /** If no rank is lost, no axis is broadcast. */
  lemma {:induction false} WithoutNone(shape: seq<nat>, c: seq<nat>, axes: set<nat>)
    requires |shape| == |c| && |Without(shape, axes)| == |shape|
    ensures Without(c, axes) == c && Without(shape, axes) == shape
  {
    if c == [] {
    } else {
      WithoutNone(shape[..|shape| - 1], c[..|c| - 1], axes);
      assert c == c[..|c| - 1] + [c[|c| - 1]] && shape == shape[..|shape| - 1] + [shape[|shape| - 1]];
    }
  }

  predicate SameKind(a: Node, b: Node)
  {
    a.isF32 == b.isF32 && a.shape == b.shape
  }

  /** Arguments come earlier, and types and shapes agree the way nGraph's operations require. */
  predicate WellFormedAt(g: seq<Node>, i: nat)
    requires i < |g|
  {
    var n := g[i];
    match n.op
    case Parameter(_) => true
    case Constant(values) => |values| == Size(n.shape)
    case Relu(a) => a < i && SameKind(n, g[a])
    case Broadcast(a, axes) => a < i && n.isF32 == g[a].isF32 && Without(n.shape, axes) == g[a].shape
    case Minimum(l, r) => l < i && r < i && SameKind(n, g[l]) && SameKind(n, g[r])
    case BoundedRelu(a, _) => a < i && SameKind(n, g[a])
    case Other(_, args) => forall k :: 0 <= k < |args| ==> args[k] < i
  }

  predicate WellFormed(g: seq<Node>)
  {
    forall i :: 0 <= i < |g| ==> WellFormedAt(g, i)
  }

  /** Parameters' values, and the meaning of the operations not modelled: their results element by element. */
  datatype World = World(params: (nat, nat) -> real, other: (nat, seq<seq<real>>, nat) -> real)

  /** The value of node i. */
  function Eval(g: seq<Node>, w: World, i: nat): (v: seq<real>)
    requires WellFormed(g) && i < |g|
    ensures |v| == Size(g[i].shape)
    decreases i
  {
    assert WellFormedAt(g, i);
    var n := Size(g[i].shape);
    match g[i].op
    case Parameter(p) => seq(n, k requires 0 <= k < n => w.params(p, k))
    case Constant(values) => values
    case Relu(a) => var x := Eval(g, w, a); seq(n, k requires 0 <= k < n => PositivePart(x[k]))
    case Broadcast(a, axes) => var x := Eval(g, w, a); seq(n, k requires 0 <= k < n => x[BroadcastFrom(g, i, k)])
    case Minimum(l, r) =>
      var x, y := Eval(g, w, l), Eval(g, w, r);
      seq(n, k requires 0 <= k < n => Smaller(x[k], y[k]))
    case BoundedRelu(a, alpha) => var x := Eval(g, w, a); seq(n, k requires 0 <= k < n => Bounded(x[k], alpha))
    case Other(kind, args) =>
      var xs := seq(|args|, k requires 0 <= k < |args| => Eval(g, w, args[k]));
      seq(n, k requires 0 <= k < n => w.other(kind, xs, k))
  }

  /** The source position of a broadcast element. */
  function BroadcastFrom(g: seq<Node>, i: nat, k: nat): (from: nat)
    requires i < |g| && WellFormedAt(g, i) && g[i].op.Broadcast? && k < Size(g[i].shape)
    ensures from < Size(g[g[i].op.arg].shape)
  {
    var c := CoordAt(g[i].shape, k);
    WithoutInBox(g[i].shape, c, g[i].op.axes);
    IndexInRange(Without(g[i].shape, g[i].op.axes), Without(c, g[i].op.axes));
    Index(g[g[i].op.arg].shape, Without(c, g[i].op.axes))
  }

  // ------------------------------------------------------------------ the rewriting

  /** What the pattern binds: the Relu's input and the node under a possible broadcast. */
  datatype Match = NoMatch | Match(reluInput: nat, alpha: nat)

  /** Minimum(Relu(x), Skip(alpha, Broadcast)), arguments as given. */
  function MatchArguments(g: seq<Node>, first: nat, second: nat): Match
    requires WellFormed(g) && first < |g| && second < |g|
  {
    if !g[first].op.Relu? then NoMatch
    else
      assert WellFormedAt(g, second);
      Match(g[first].op.arg, if g[second].op.Broadcast? then g[second].op.arg else second)
  }

  /** Minimum is commutative, so its arguments are tried in both orders. */
  function MatchRoot(g: seq<Node>, root: nat): (m: Match)
    requires WellFormed(g) && root < |g|
    ensures m.Match? ==> m.reluInput < root && m.alpha < root
  {
    assert WellFormedAt(g, root);
    match g[root].op
    case Minimum(l, r) =>
      assert WellFormedAt(g, l) && WellFormedAt(g, r);
      var m := MatchArguments(g, l, r);
      if m.Match? && Accepted(g, root, m) then m else MatchArguments(g, r, l)
    case _ => NoMatch
  }

  /** The callback's conditions on what was bound. */
  predicate Accepted(g: seq<Node>, root: nat, m: Match)
    requires root < |g| && m.Match? && m.reluInput < |g| && m.alpha < |g|
  {
    g[root].isF32 && g[m.alpha].op.Constant? && SameKind(g[m.alpha], g[m.reluInput])
  }

  predicate Fuses(g: seq<Node>, root: nat)
    requires WellFormed(g) && root < |g|
  {
    var m := MatchRoot(g, root);
    m.Match? && Accepted(g, root, m)
  }

  /** Minimum of a Relu and a constant, plain or broadcast and in either order, is fused if types and shapes agree. */
  lemma PatternFuses(g: seq<Node>, root: nat, relu: nat, other: nat, alpha: nat)
    requires WellFormed(g) && root < |g| && g[root].op in {Minimum(relu, other), Minimum(other, relu)}
    requires relu < |g| && other < |g| && alpha < |g| && g[relu].op.Relu? && g[alpha].op.Constant?
    requires other == alpha || (g[other].op.Broadcast? && g[other].op.arg == alpha)
    requires g[root].isF32 && g[alpha].shape == g[root].shape
    ensures Fuses(g, root) && AlphaValues(g, root) == g[alpha].op.values && MatchRoot(g, root).reluInput == g[relu].op.arg
  {
    assert WellFormedAt(g, root) && WellFormedAt(g, relu) && WellFormedAt(g, other);
  }

  /** The values of alpha, one for each element. */
  function AlphaValues(g: seq<Node>, root: nat): (a: seq<real>)
    requires WellFormed(g) && root < |g| && Fuses(g, root)
  {
    g[MatchRoot(g, root).alpha].op.values
  }

  lemma AlphaFits(g: seq<Node>, root: nat)
    requires WellFormed(g) && root < |g| && Fuses(g, root)
    ensures var m := MatchRoot(g, root);
            |AlphaValues(g, root)| == Size(g[root].shape) && SameKind(g[root], g[m.reluInput]) && SameKind(g[root], g[m.alpha])
  {
    var m := MatchRoot(g, root);
    assert WellFormedAt(g, root) && WellFormedAt(g, m.alpha);
    assert WellFormedAt(g, g[root].op.left) && WellFormedAt(g, g[root].op.right);
  }

  class Graph {
    var nodes: seq<Node>

    /** construct_bounded_relu on one candidate root: only alpha's first element is read. */
    method ConstructBoundedRelu(root: nat) returns (fused: bool)
      requires WellFormed(nodes) && root < |nodes|
      requires Fuses(nodes, root) ==> AlphaValues(nodes, root) != []
      modifies this`nodes
      ensures fused <==> Fuses(old(nodes), root)
      ensures nodes == if fused then Fused(old(nodes), root) else old(nodes)
      ensures WellFormed(nodes)
    {
      var m := MatchRoot(nodes, root);
      if m.NoMatch? {
        return false;
      }
      if !nodes[root].isF32 {
        return false;
      }
      if !nodes[m.alpha].op.Constant? {
        return false;
      }
      if nodes[m.alpha].isF32 != nodes[m.reluInput].isF32 {
        return false;
      }
      if nodes[m.alpha].shape != nodes[m.reluInput].shape {
        return false;
      }
      var alphaVal := nodes[m.alpha].op.values[0];
      FusedIsWellFormed(nodes, root);
      nodes := nodes[root := Node(BoundedRelu(m.reluInput, alphaVal), nodes[m.reluInput].isF32, nodes[m.reluInput].shape)];
      fused := true;
    }
  }

  function Fused(g: seq<Node>, root: nat): (h: seq<Node>)
    requires WellFormed(g) && root < |g| && Fuses(g, root) && AlphaValues(g, root) != []
    ensures |h| == |g|
  {
    var m := MatchRoot(g, root);
    g[root := Node(BoundedRelu(m.reluInput, AlphaValues(g, root)[0]), g[m.reluInput].isF32, g[m.reluInput].shape)]
  }

  lemma FusedIsWellFormed(g: seq<Node>, root: nat)
    requires WellFormed(g) && root < |g| && Fuses(g, root) && AlphaValues(g, root) != []
    ensures WellFormed(Fused(g, root))
    ensures forall i :: 0 <= i < |g| ==> SameKind(g[i], Fused(g, root)[i])
  {
    var h := Fused(g, root);
    AlphaFits(g, root);
    forall i | 0 <= i < |g| ensures WellFormedAt(h, i) {
      assert WellFormedAt(g, i);
    }
  }

  // --------------------------------------------------------------------- the results

  /** BoundedRelu is Minimum of Relu for every input exactly when the bounds agree and are not negative. */
  lemma BoundedIsMinimumIff(alpha: real, c: real)
    ensures (forall f: real :: Bounded(f, alpha) == Smaller(PositivePart(f), c)) <==> c == alpha && alpha >= 0.0
  {
    var high := (if alpha > c then alpha else c) + (if alpha > 0.0 then alpha else -alpha) + (if c > 0.0 then c else -c) + 1.0;
    assert Bounded(high, alpha) == alpha && Smaller(PositivePart(high), c) == c;
    if alpha < 0.0 {
      assert Bounded(alpha, alpha) == 0.0;
    }
  }

  /** Where BoundedRelu with one bound and Minimum of Relu with another agree. */
  predicate AgreesAt(x: real, alpha: real, c: real)
  {
    if x > alpha then c == alpha else PositivePart(x) <= c
  }

  predicate UniformAndNonNegative(alpha: seq<real>)
    requires alpha != []
  {
    alpha[0] >= 0.0 && forall k :: 0 <= k < |alpha| ==> alpha[k] == alpha[0]
  }

  /** What the replaced Minimum computes: element by element, against alpha's own elements. */
  lemma RootMeaning(g: seq<Node>, w: World, root: nat)
    requires WellFormed(g) && root < |g| && Fuses(g, root)
    ensures var x, alpha := Eval(g, w, MatchRoot(g, root).reluInput), AlphaValues(g, root);
            && |x| == |alpha| == |Eval(g, w, root)|
            && forall k :: 0 <= k < |alpha| ==> Eval(g, w, root)[k] == Smaller(PositivePart(x[k]), alpha[k])
  {
    var m := MatchRoot(g, root);
    AlphaFits(g, root);
    assert WellFormedAt(g, root);
    var (l, r) := (g[root].op.left, g[root].op.right);
    assert WellFormedAt(g, l) && WellFormedAt(g, r);
    var first := MatchArguments(g, l, r);
    var second := if first.Match? && Accepted(g, root, first) then r else l;
    if g[second].op.Broadcast? {
      TrivialBroadcast(g, w, second);
    }
    assert Eval(g, w, second) == AlphaValues(g, root);
  }

  /** A broadcast to the shape its argument already has changes nothing. */
  lemma TrivialBroadcast(g: seq<Node>, w: World, i: nat)
    requires WellFormed(g) && i < |g| && g[i].op.Broadcast? && g[i].op.arg < |g| && g[g[i].op.arg].shape == g[i].shape
    ensures Eval(g, w, i) == Eval(g, w, g[i].op.arg)
  {
    assert WellFormedAt(g, i);
    forall k | 0 <= k < Size(g[i].shape) ensures Eval(g, w, i)[k] == Eval(g, w, g[i].op.arg)[k] {
      WithoutNone(g[i].shape, CoordAt(g[i].shape, k), g[i].op.axes);
      IndexOfCoordAt(g[i].shape, k);
    }
  }

  /** Nodes before the root do not see the change. */
  lemma {:induction false} EarlierNodesAgree(g: seq<Node>, w: World, root: nat, i: nat)
    requires WellFormed(g) && root < |g| && Fuses(g, root) && AlphaValues(g, root) != [] && i < root
    ensures WellFormed(Fused(g, root)) && Eval(Fused(g, root), w, i) == Eval(g, w, i)
    decreases i
  {
    FusedIsWellFormed(g, root);
    assert WellFormedAt(g, i);
    match g[i].op
    case Parameter(_) =>
    case Constant(_) =>
    case Relu(a) => EarlierNodesAgree(g, w, root, a);
    case Broadcast(a, _) => EarlierNodesAgree(g, w, root, a);
    case Minimum(l, r) => EarlierNodesAgree(g, w, root, l); EarlierNodesAgree(g, w, root, r);
    case BoundedRelu(a, _) => EarlierNodesAgree(g, w, root, a);
    case Other(_, args) =>
      forall k | 0 <= k < |args| { EarlierNodesAgree(g, w, root, args[k]); }
      assert seq(|args|, k requires 0 <= k < |args| => Eval(g, w, args[k]))
             == seq(|args|, k requires 0 <= k < |args| => Eval(Fused(g, root), w, args[k]));
  }

  /** The replaced root keeps its value exactly for inputs on which the two functions agree. */
  lemma RootAgreesIff(g: seq<Node>, w: World, root: nat)
    requires WellFormed(g) && root < |g| && Fuses(g, root) && AlphaValues(g, root) != []
    ensures WellFormed(Fused(g, root))
    ensures var x, alpha := Eval(g, w, MatchRoot(g, root).reluInput), AlphaValues(g, root);
            && |x| == |alpha|
            && (Eval(Fused(g, root), w, root) == Eval(g, w, root) <==>
                forall k :: 0 <= k < |alpha| ==> AgreesAt(x[k], alpha[0], alpha[k]))
  {
    FusedIsWellFormed(g, root);
    RootMeaning(g, w, root);
    AlphaFits(g, root);
    EarlierNodesAgree(g, w, root, MatchRoot(g, root).reluInput);
    var before, after := Eval(g, w, root), Eval(Fused(g, root), w, root);
    var x, alpha := Eval(g, w, MatchRoot(g, root).reluInput), AlphaValues(g, root);
    forall k | 0 <= k < |alpha|
      ensures after[k] == Bounded(x[k], alpha[0]) && before[k] == Smaller(PositivePart(x[k]), alpha[k])
    {}
    forall k | 0 <= k < |alpha| ensures after[k] == before[k] <==> AgreesAt(x[k], alpha[0], alpha[k]) {}
    if forall k :: 0 <= k < |alpha| ==> AgreesAt(x[k], alpha[0], alpha[k]) {
      assert after == before;
    }
    if after == before {
      forall k | 0 <= k < |alpha| ensures AgreesAt(x[k], alpha[0], alpha[k]) {
        assert after[k] == before[k];
      }
    }
  }

  /** With a uniform, non-negative alpha the value of every node of every graph is kept. */
  lemma {:induction false} FusionKeepsEveryValue(g: seq<Node>, w: World, root: nat, i: nat)
    requires WellFormed(g) && root < |g| && Fuses(g, root) && AlphaValues(g, root) != []
    requires UniformAndNonNegative(AlphaValues(g, root)) && i < |g|
    ensures WellFormed(Fused(g, root)) && Eval(Fused(g, root), w, i) == Eval(g, w, i)
    decreases i
  {
    FusedIsWellFormed(g, root);
    assert WellFormedAt(g, i);
    if i == root {
      RootAgreesIff(g, w, root);
      BoundedIsMinimumIff(AlphaValues(g, root)[0], AlphaValues(g, root)[0]);
    } else {
      match g[i].op
      case Parameter(_) =>
      case Constant(_) =>
      case Relu(a) => FusionKeepsEveryValue(g, w, root, a);
      case Broadcast(a, _) => FusionKeepsEveryValue(g, w, root, a);
      case Minimum(l, r) => FusionKeepsEveryValue(g, w, root, l); FusionKeepsEveryValue(g, w, root, r);
      case BoundedRelu(a, _) => FusionKeepsEveryValue(g, w, root, a);
      case Other(_, args) =>
        forall k | 0 <= k < |args| { FusionKeepsEveryValue(g, w, root, args[k]); }
        assert seq(|args|, k requires 0 <= k < |args| => Eval(g, w, args[k]))
               == seq(|args|, k requires 0 <= k < |args| => Eval(Fused(g, root), w, args[k]));
    }
  }

  /**
   * With any other alpha there are inputs that tell the two graphs apart, if
   * the fused node's input can take any value: a parameter, or an operation
   * that is not modelled. Which inputs those are RootAgreesIff says for any node.
   */
  lemma FusionBreaksOtherwise(g: seq<Node>, root: nat, w: World) returns (w': World)
    requires WellFormed(g) && root < |g| && Fuses(g, root) && AlphaValues(g, root) != []
    requires var op := g[MatchRoot(g, root).reluInput].op; op.Parameter? || op.Other?
    requires !UniformAndNonNegative(AlphaValues(g, root))
    ensures WellFormed(Fused(g, root)) && Eval(Fused(g, root), w', root) != Eval(g, w', root)
  {
    var alpha := AlphaValues(g, root);
    var e := 0;
    if alpha[0] >= 0.0 {
      e :| 0 <= e < |alpha| && alpha[e] != alpha[0];
    }
    var f: real := if alpha[0] < 0.0 then alpha[0] else alpha[0] + 1.0;
    if alpha[0] < 0.0 {
      assert !AgreesAt(alpha[0], alpha[0], alpha[0]);
    }
    w' := World((p, k) => f, (kind, xs, k) => f);
    RootAgreesIff(g, w', root);
    assert WellFormedAt(g, MatchRoot(g, root).reluInput);
    assert Eval(g, w', MatchRoot(g, root).reluInput)[e] == f;
    assert !AgreesAt(f, alpha[0], alpha[e]);
  }
}
