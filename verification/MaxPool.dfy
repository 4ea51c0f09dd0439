/**
 * Max pooling (src/seal/kernel/max_pool_seal.hpp and the MaxPool case of
 * src/seal/he_seal_executable.cpp): the index lists, the local kernels, and
 * the remote form that sends one window at a time to the client.
 */
module MaxPool {
  import opened Outcomes
  import opened ComplexNumbers
  import opened SealCiphertext
  import opened ScalarKernels
  import opened Coordinates
  import opened Pooling
  import opened TcpMessage
  import opened CipherMessages
  import opened OffloadRounds
  import HeSealClient

  // ------------------------------------------------------------------- index lists

  /** The index-list form: list k holds the source cells of output k's window, in row-major order. */
  method MaximizeList(g: Geometry, ghost windows: seq<seq<nat>>) returns (maximizeList: array<seq<nat>>)
    requires AreWindows(g, windows)
    ensures fresh(maximizeList) && maximizeList[..] == windows
  {
    maximizeList := new seq<nat>[Size(g.outShape)](_ => []);
    for k := 0 to Size(g.outShape)
      invariant maximizeList[..k] == windows[..k]
    {
      IndexOfCoordAt(g.outShape, k);
      var cells := ListWindow(g, k, windows);
      maximizeList[Index(g.outShape, CoordAt(g.outShape, k))] := cells;
    }
    assert maximizeList[..] == maximizeList[..|windows|];
  }

  method ListWindow(g: Geometry, k: nat, ghost windows: seq<seq<nat>>) returns (cells: seq<nat>)
    requires AreWindows(g, windows) && k < |windows|
    ensures cells == windows[k]
  {
    cells := [];
    var outCoord := CoordAt(g.outShape, k);
    var t := WindowTransform(g, outCoord);
    WindowBox(g, outCoord);
    ghost var lists := Lookups(g, outCoord);
    for i := 0 to Size(Box(g))
      invariant cells == Concat(lists[..i])
    {
      ConcatSnoc(lists, i);
      var c := CoordAt(TargetShape(t), i);
      if HasSource(t, c) {
        cells := cells + [SourceIndex(t, c)];
      }
    }
    assert lists[..|lists|] == lists;
    assert windows[k] == Window(g, outCoord);
  }

  // ------------------------------------------------------------------ local kernels

  /** Lane b of some rows. */
  function Column(rows: seq<seq<real>>, n: nat, b: nat): (xs: seq<real>)
    requires b < n && forall i :: 0 <= i < |rows| ==> |rows[i]| == n
    ensures |xs| == |rows|
  {
    seq(|rows|, i requires 0 <= i < |rows| => rows[i][b])
  }

  /** Lane by lane, the largest of the rows' values. */
  function Maxima(rows: seq<seq<real>>, n: nat): (xs: seq<real>)
    requires rows != [] && forall i :: 0 <= i < |rows| ==> |rows[i]| == n
    ensures |xs| == n
  {
    seq(n, b requires 0 <= b < n => HeSealClient.Largest(Column(rows, n, b)))
  }

  /** What one output's inner loop leaves in max_vals, or the failed size check. */
  function LocalMax(rows: seq<seq<real>>): Result<seq<real>>
  {
    if rows == [] then Ok([])
    else if forall i :: 0 <= i < |rows| ==> |rows[i]| == |rows[0]| then Ok(Maxima(rows, |rows[0]|))
    else Err("arg values size doesn't match max_vals.size()")
  }

  lemma MaximaSnoc(rows: seq<seq<real>>, row: seq<real>, n: nat)
    requires rows != [] && |row| == n && forall i :: 0 <= i < |rows| ==> |rows[i]| == n
    ensures Maxima(rows + [row], n)
            == seq(n, b requires 0 <= b < n => if Maxima(rows, n)[b] < row[b] then row[b] else Maxima(rows, n)[b])
  {
    forall b | 0 <= b < n
      ensures Maxima(rows + [row], n)[b] == if Maxima(rows, n)[b] < row[b] then row[b] else Maxima(rows, n)[b]
    {
      assert Column(rows + [row], n, b) == Column(rows, n, b) + [row[b]];
      assert (Column(rows, n, b) + [row[b]])[..|rows|] == Column(rows, n, b);
    }
  }

  /** One more row: max_vals starts as the first and is then raised lane by lane. */
  method RaiseTo(maxVals: seq<real>, firstMax: bool, argVals: seq<real>, ghost rows: seq<seq<real>>)
    returns (maxVals': seq<real>, r: Outcome)
    requires firstMax <==> rows == []
    requires LocalMax(rows) == Ok(maxVals)
    ensures match LocalMax(rows + [argVals])
            case Ok(m) => r == Pass && maxVals' == m
            case Err(_) => r.Fail?
  {
    if firstMax {
      assert Maxima([argVals], |argVals|) == argVals by {
        forall b | 0 <= b < |argVals| ensures Maxima([argVals], |argVals|)[b] == argVals[b] {
          assert Column([argVals], |argVals|, b) == [argVals[b]];
        }
      }
      return argVals, Pass;
    }
    assert rows[0] == (rows + [argVals])[0];
    if |argVals| != |maxVals| {
      assert |(rows + [argVals])[|rows|]| != |rows[0]|;
      return maxVals, Fail("arg values size doesn't match max_vals.size()");
    }
    maxVals' := maxVals;
    for i := 0 to |argVals|
      invariant |maxVals'| == |maxVals|
      invariant forall b :: 0 <= b < i ==> maxVals'[b] == if maxVals[b] < argVals[b] then argVals[b] else maxVals[b]
      invariant forall b :: i <= b < |maxVals| ==> maxVals'[b] == maxVals[b]
    {
      maxVals' := maxVals'[i := if maxVals'[i] < argVals[i] then argVals[i] else maxVals'[i]];
    }
    MaximaSnoc(rows, argVals, |argVals|);
    r := Pass;
  }

  /** The values an output's window holds, row by row. */
  function Rows(values: seq<seq<real>>, cells: seq<nat>, k: nat): (rows: seq<seq<real>>)
    requires k <= |cells| && forall i :: 0 <= i < |cells| ==> cells[i] < |values|
    ensures |rows| == k
  {
    seq(k, i requires 0 <= i < k => values[cells[i]])
  }

  lemma LocalMaxPrefix(rows: seq<seq<real>>, k: nat)
    requires k <= |rows| && LocalMax(rows).Ok?
    ensures LocalMax(rows[..k]).Ok?
  {}

  /** The window of one output, for a kernel over plaintexts. */
  method MaxPoolCell(arg: seq<HEPlaintext>, cells: seq<nat>, ghost values: seq<seq<real>>) returns (result: HEPlaintext, r: Outcome)
    requires |values| == |arg| && forall i :: 0 <= i < |arg| ==> values[i] == arg[i].values
    requires forall i :: 0 <= i < |cells| ==> cells[i] < |arg|
    ensures match LocalMax(Rows(values, cells, |cells|))
            case Ok(m) => r == Pass && result == HEPlaintext(m, false)
            case Err(_) => r.Fail?
  {
    var firstMax, maxVals := true, [];
    ghost var rows := Rows(values, cells, |cells|);
    r := Pass;
    for k := 0 to |cells|
      invariant r == Pass && (firstMax <==> k == 0) && LocalMax(rows[..k]) == Ok(maxVals)
    {
      assert rows[..k + 1] == rows[..k] + [arg[cells[k]].values];
      maxVals, r := RaiseTo(maxVals, firstMax, arg[cells[k]].values, rows[..k]);
      if r.Fail? {
        if LocalMax(rows).Ok? { LocalMaxPrefix(rows, k + 1); }
        return HEPlaintext([], false), r;
      }
      firstMax := false;
    }
    assert rows[..|cells|] == rows;
    result := HEPlaintext(maxVals, false);
  }

  /** The kernel over plaintexts. */
  method MaxPoolPlain(arg: seq<HEPlaintext>, out: array<HEPlaintext>, g: Geometry, ghost values: seq<seq<real>>,
                      ghost windows: seq<seq<nat>>) returns (r: Outcome)
    requires |values| == |arg| == Size(g.argShape) && forall i :: 0 <= i < |arg| ==> values[i] == arg[i].values
    requires AreWindows(g, windows) && InTensor(windows, |arg|) && out.Length == |windows|
    modifies out
    ensures r == Pass <==> forall k :: 0 <= k < |windows| ==> LocalMax(Rows(values, windows[k], |windows[k]|)).Ok?
    ensures r == Pass ==> forall k :: 0 <= k < out.Length ==>
              out[k] == HEPlaintext(LocalMax(Rows(values, windows[k], |windows[k]|)).value, false)
  {
    r := Pass;
    for k := 0 to Size(g.outShape)
      invariant r == Pass && forall i :: 0 <= i < k ==> LocalMax(Rows(values, windows[i], |windows[i]|)).Ok?
      invariant forall i :: 0 <= i < k ==> out[i] == HEPlaintext(LocalMax(Rows(values, windows[i], |windows[i]|)).value, false)
    {
      var cells := ListWindow(g, k, windows);
      var result;
      result, r := MaxPoolCell(arg, cells, values);
      if r.Fail? { return; }
      IndexOfCoordAt(g.outShape, k);
      out[Index(g.outShape, CoordAt(g.outShape, k))] := result;
    }
  }

  /** Every listed cell is a position of the tensor. */
  predicate InTensor(windows: seq<seq<nat>>, n: nat)
  {
    forall k :: 0 <= k < |windows| ==> forall i :: 0 <= i < |windows[k]| ==> windows[k][i] < n
  }

  lemma WindowsAreInTensor(g: Geometry, windows: seq<seq<nat>>)
    requires AreWindows(g, windows)
    ensures InTensor(windows, Size(g.argShape))
  {
    forall k | 0 <= k < |windows| ensures forall i :: 0 <= i < |windows[k]| ==> windows[k][i] < Size(g.argShape) {
      assert windows[k] == Window(g, CoordAt(g.outShape, k));
      forall i | 0 <= i < |windows[k]| ensures windows[k][i] < Size(g.argShape) {
        var s := CellCoord(g, CoordAt(g.outShape, k), i);
      }
    }
  }

  // ----------------------------------------------------- the local cipher kernel

  /** What decrypting every ciphertext of a tensor gives. */
  function DecryptedRows(views: seq<View>): (values: seq<seq<real>>)
    ensures |values| == |views|
  {
    seq(|views|, i requires 0 <= i < |views| => Decrypted(views[i]).values)
  }

  /** One output of the local cipher kernel: decrypt, take the largest, encrypt without packing. */
  function LocalCipher(b: Backend, views: seq<View>, cells: seq<nat>, unspecified: Slots): Result<View>
    requires forall i :: 0 <= i < |cells| ==> cells[i] < |views|
  {
    match LocalMax(Rows(DecryptedRows(views), cells, |cells|))
    case Err(e) => Err(e)
    case Ok(m) => Encrypted(b, HEPlaintext(m, false), Empty(unspecified))
  }

  method MaxPoolCipherCell(arg: seq<SealCiphertextWrapper>, cells: seq<nat>, b: Backend, unspecified: Slots, ghost views: seq<View>)
    returns (cipher: SealCiphertextWrapper, r: Outcome)
    requires Holds(arg, views) && forall i :: 0 <= i < |cells| ==> cells[i] < |arg|
    ensures fresh(cipher)
    ensures match LocalCipher(b, views, cells, unspecified)
            case Ok(v) => r == Pass && cipher.Contents() == v
            case Err(_) => r.Fail?
  {
    cipher := new SealCiphertextWrapper(unspecified);
    var firstMax, maxVals := true, [];
    ghost var rows := Rows(DecryptedRows(views), cells, |cells|);
    r := Pass;
    for k := 0 to |cells|
      invariant fresh(cipher) && cipher.Contents() == Empty(unspecified)
      invariant r == Pass && (firstMax <==> k == 0) && LocalMax(rows[..k]) == Ok(maxVals)
    {
      var plain := Decrypt(arg[cells[k]]);
      assert rows[..k + 1] == rows[..k] + [plain.values];
      maxVals, r := RaiseTo(maxVals, firstMax, plain.values, rows[..k]);
      if r.Fail? {
        if LocalMax(rows).Ok? { LocalMaxPrefix(rows, k + 1); }
        return;
      }
      firstMax := false;
    }
    assert rows[..|cells|] == rows;
    r := Encrypt(cipher, HEPlaintext(maxVals, false), b);
  }

  /** The outputs of the local cipher kernel, in row-major order. */
  ghost predicate AreLocal(b: Backend, views: seq<View>, windows: seq<seq<nat>>, unspecified: Slots, locals: seq<Result<View>>)
    requires InTensor(windows, |views|)
  {
    && |locals| == |windows|
    && forall k {:trigger LocalCipher(b, views, windows[k], unspecified)} :: 0 <= k < |windows| ==>
         locals[k] == LocalCipher(b, views, windows[k], unspecified)
  }

  lemma LocalsOf(b: Backend, views: seq<View>, windows: seq<seq<nat>>, unspecified: Slots) returns (locals: seq<Result<View>>)
    requires InTensor(windows, |views|)
    ensures AreLocal(b, views, windows, unspecified, locals)
  {
    locals := seq(|windows|, k requires 0 <= k < |windows| => LocalCipher(b, views, windows[k], unspecified));
  }

  /** One output of the kernel over ciphertexts. */
  method MaxPoolCipherAt(arg: seq<SealCiphertextWrapper>, g: Geometry, k: nat, b: Backend, unspecified: Slots,
                         ghost views: seq<View>, ghost windows: seq<seq<nat>>, ghost locals: seq<Result<View>>)
    returns (cipher: SealCiphertextWrapper, r: Outcome)
    requires Holds(arg, views) && AreWindows(g, windows) && InTensor(windows, |views|) && k < |windows|
    requires AreLocal(b, views, windows, unspecified, locals)
    ensures fresh(cipher) && (r == Pass <==> locals[k].Ok?)
    ensures r == Pass ==> locals[k] == Ok(cipher.Contents())
  {
    var cells := ListWindow(g, k, windows);
    cipher, r := MaxPoolCipherCell(arg, cells, b, unspecified, views);
  }

  /** The kernel over ciphertexts. */
  method MaxPoolCipher(arg: seq<SealCiphertextWrapper>, out: array<SealCiphertextWrapper>, g: Geometry, b: Backend,
                       unspecified: Slots, ghost views: seq<View>, ghost windows: seq<seq<nat>>, ghost locals: seq<Result<View>>)
    returns (r: Outcome)
    requires Holds(arg, views)
    requires AreWindows(g, windows) && InTensor(windows, |views|) && out.Length == |windows|
    requires AreLocal(b, views, windows, unspecified, locals)
    modifies out
    ensures r == Pass <==> forall k :: 0 <= k < |locals| ==> locals[k].Ok?
    ensures r == Pass ==> forall k :: 0 <= k < out.Length ==> locals[k] == Ok(out[k].Contents())
  {
    r := Pass;
    for k := 0 to Size(g.outShape)
      invariant r == Pass && forall i :: 0 <= i < k ==> locals[i] == Ok(out[i].Contents())
    {
      var cipher;
      cipher, r := MaxPoolCipherAt(arg, g, k, b, unspecified, views, windows, locals);
      if r.Fail? { return; }
      IndexOfCoordAt(g.outShape, k);
      out[Index(g.outShape, CoordAt(g.outShape, k))] := cipher;
    }
  }

  // ------------------------------------------------------------- the remote form

  /** What the save loop writes for one window: the stored ciphertexts, whatever their levels and zero flags. */
  function BodiesAt(views: seq<View>, cells: seq<nat>): (bodies: seq<Body>)
    requires forall i :: 0 <= i < |cells| ==> cells[i] < |views|
    ensures |bodies| == |cells| && forall i :: 0 <= i < |cells| ==> bodies[i] == BodyOf(views[cells[i]])
  {
    seq(|cells|, i requires 0 <= i < |cells| => BodyOf(views[cells[i]]))
  }

  function SlotsAt(views: seq<View>, cells: seq<nat>): (slots: seq<Slots>)
    requires forall i :: 0 <= i < |cells| ==> cells[i] < |views|
    ensures |slots| == |cells| && forall i :: 0 <= i < |cells| ==> slots[i] == views[cells[i]].slots
  {
    seq(|cells|, i requires 0 <= i < |cells| => views[cells[i]].slots)
  }

  /** The request for one window; None where building it throws. */
  function BuildRequest(format: Format, views: seq<View>, cells: seq<nat>): Option<Message>
    requires forall i :: 0 <= i < |cells| ==> cells[i] < |views|
  {
    StreamMessage(HeSealClient.MAX_REQUEST, Saves(format, BodiesAt(views, cells)))
  }

  /** The loop that saves a window's ciphertexts one after another and makes the request. */
  method BuildMessage(format: Format, arg: seq<SealCiphertextWrapper>, cells: seq<nat>, ghost views: seq<View>)
    returns (r: Option<Message>)
    requires Holds(arg, views) && forall i :: 0 <= i < |cells| ==> cells[i] < |arg|
    ensures r == BuildRequest(format, views, cells)
  {
    var cipherStream, cipherCount := [], 0;
    ghost var pieces := Saves(format, BodiesAt(views, cells));
    for i := 0 to |cells|
      invariant cipherCount == i && cipherStream == Joined(pieces[..i])
    {
      assert pieces[..i + 1][..i] == pieces[..i];
      cipherStream := cipherStream + format.save(BodyOf(arg[cells[i]].Contents()));
      cipherCount := cipherCount + 1;
    }
    assert pieces[..|cells|] == pieces;
    return if ArgumentsOk(cipherCount, |cipherStream|) then Some(Message(HeSealClient.MAX_REQUEST, cipherCount, cipherStream)) else None;
  }

  /** The operation's rounds. It throws at once if there is no window or the first one has no source cell. */
  function MaxRounds(client: HeSealClient.Client, format: Format, views: seq<View>, windows: seq<seq<nat>>): Config<Message, Slots>
    requires InTensor(windows, |views|)
  {
    Config(if windows == [] || windows[0] == [] then [None]
           else seq(|windows|, k requires 0 <= k < |windows| => BuildRequest(format, views, windows[k])),
           m => client.Answer(format, m))
  }

  /** A tensor of the client's ciphertexts, which can be saved. */
  ghost predicate WellFormed(client: HeSealClient.Client, format: Format, views: seq<View>)
  {
    client.Valid() && forall i :: 0 <= i < |views| ==> |views[i].slots| == client.slotCount && format.Carries(BodyOf(views[i]))
  }

  /** A window has a source cell, and its ciphertexts have one level. */
  predicate LevelWindow(views: seq<View>, window: seq<nat>)
    requires forall i :: 0 <= i < |window| ==> window[i] < |views|
  {
    window != [] && OneLevel(BodiesAt(views, window))
  }

  /** A window's request and the reply each fit a message, and the client can encode the maxima. */
  predicate WindowServed(client: HeSealClient.Client, format: Format, views: seq<View>, window: seq<nat>)
    requires client.Valid() && window != [] && forall i :: 0 <= i < |window| ==> window[i] < |views|
    requires forall i :: 0 <= i < |views| ==> |views[i].slots| == client.slotCount
  {
    && format.Fits(|window|, views[window[0]].chain) && format.Fits(1, format.topChain)
    && !client.refuses(client.LaneMaxima(SlotsAt(views, window)))
  }

  /** The client's answer to a window. */
  function Answer(client: HeSealClient.Client, views: seq<View>, window: seq<nat>): (s: Slots)
    requires client.Valid() && window != [] && forall i :: 0 <= i < |window| ==> window[i] < |views|
    requires forall i :: 0 <= i < |views| ==> |views[i].slots| == client.slotCount
    ensures |s| == client.slotCount
  {
    client.EncodeLanes(client.LaneMaxima(SlotsAt(views, window)))
  }

  /** A window of one level is answered exactly when request and reply fit and the client can encode the maxima. */
  lemma WindowAnswered(client: HeSealClient.Client, format: Format, views: seq<View>, window: seq<nat>)
    requires WellFormed(client, format, views) && (forall i :: 0 <= i < |window| ==> window[i] < |views|)
    requires LevelWindow(views, window)
    ensures var m := BuildRequest(format, views, window);
            && (m.Some? && client.Answer(format, m.value).Some? <==> WindowServed(client, format, views, window))
            && (m.Some? && client.Answer(format, m.value).Some? ==>
                  client.Answer(format, m.value).value == [Answer(client, views, window)])
  {
    StreamMessageIff(format, HeSealClient.MAX_REQUEST, BodiesAt(views, window));
    var m := BuildRequest(format, views, window);
    if m.Some? {
      assert client.Loaded(format, m.value).value == SlotsAt(views, window);
    }
  }

  /**
   * Levels are not matched here: for a window of mixed levels either the message
   * cannot be built, or the client cuts it in the wrong places. A window without
   * a source cell after the first makes a message that the client cannot read.
   */
  lemma MixedWindow(client: HeSealClient.Client, format: Format, views: seq<View>, window: seq<nat>)
    requires WellFormed(client, format, views) && (forall i :: 0 <= i < |window| ==> window[i] < |views|)
    requires !LevelWindow(views, window)
    ensures var m, pieces := BuildRequest(format, views, window), Saves(format, BodiesAt(views, window));
            m.Some? ==>
              if window == [] then client.Answer(format, m.value) == None
              else m.value.data == Joined(pieces) && Cut(m.value.data, m.value.count) != pieces
  {
    if window != [] {
      ReadBack(format, HeSealClient.MAX_REQUEST, BodiesAt(views, window));
    }
  }

  /** Two ciphertexts at levels 0 and 1, with an odd number of bytes for each prime: the size check throws. */
  lemma MixedWindowThrows(format: Format, views: seq<View>)
    requires |views| == 2 && views[0].chain == 0 && views[1].chain == 1 && format.perPrime % 2 == 1
    requires format.Carries(BodyOf(views[0])) && format.Carries(BodyOf(views[1]))
    ensures BuildRequest(format, views, [0, 1]) == None
  {
    var pieces := Saves(format, BodiesAt(views, [0, 1]));
    var first := [pieces[0]];
    assert pieces[..1] == first && first[..0] == Saves(format, []);
    assert Joined(first) == pieces[0] && Joined(pieces) == Joined(first) + pieces[1];
  }

  /** One result per window, in order. */
  lemma {:induction false} OneReplyPerWindow(client: HeSealClient.Client, views: seq<View>, windows: seq<seq<nat>>,
                                             c: Config<Message, Slots>, n: nat)
    requires client.Valid() && InTensor(windows, |views|) && n <= |windows| == |c.requests|
    requires forall i :: 0 <= i < |views| ==> |views[i].slots| == client.slotCount
    requires forall k :: 0 <= k < |windows| ==>
               windows[k] != [] && Answered(c, k) && c.serve(c.requests[k].value).value == [Answer(client, views, windows[k])]
    ensures |Replies(c, n)| == n
    ensures forall k :: 0 <= k < n ==> Replies(c, n)[k] == Answer(client, views, windows[k])
  {
    if n == 0 {
    } else {
      OneReplyPerWindow(client, views, windows, c, n - 1);
    }
  }

  /** In the batch's lanes, the client's answer is what the local kernel encrypts. */
  lemma AnswerIsLocal(client: HeSealClient.Client, b: Backend, views: seq<View>, window: seq<nat>, unspecified: Slots)
    requires client.Valid() && window != [] && forall i :: 0 <= i < |window| ==> window[i] < |views|
    requires client.slotCount == b.slotCount == |unspecified| && !client.complexPacking
    requires forall i :: 0 <= i < |views| ==> |views[i].slots| == b.slotCount && !views[i].isZero && !views[i].packed
    ensures b.RefusesNothing() ==> LocalCipher(b, views, window, unspecified).Ok?
    ensures client.DecodeLanes(Answer(client, views, window)) == client.LaneMaxima(SlotsAt(views, window))
    ensures LocalCipher(b, views, window, unspecified).Ok? ==>
              var local := LocalCipher(b, views, window, unspecified).value.Value();
              |local| == client.slotCount && client.DecodeLanes(local) == client.LaneMaxima(SlotsAt(views, window))
  {
    var n := b.slotCount;
    var rows := Rows(DecryptedRows(views), window, |window|);
    forall i | 0 <= i < |rows| ensures |rows[i]| == n {}
    var m := Maxima(rows, n);
    EncodedLanes(b, m, unspecified);
    client.DecodeEncode(client.LaneMaxima(SlotsAt(views, window)));
    if LocalCipher(b, views, window, unspecified).Ok? {
      var local := LocalCipher(b, views, window, unspecified).value.Value();
      forall l | 0 <= l < client.batchSize ensures client.DecodeLanes(local)[l] == client.LaneMaxima(SlotsAt(views, window))[l] {
        assert Column(rows, n, l) == client.LaneAcross(SlotsAt(views, window), l);
      }
    }
  }

  lemma EncodedLanes(b: Backend, m: seq<real>, unspecified: Slots)
    requires |m| == b.slotCount == |unspecified|
    ensures var r := Encrypted(b, HEPlaintext(m, false), Empty(unspecified));
            && (b.RefusesNothing() ==> r.Ok?)
            && (r.Ok? ==> |r.value.Value()| == |m| && forall l :: 0 <= l < |m| ==> r.value.Value()[l] == Real(m[l]))
  {}

  /** With complex packing the local kernel cannot encode its result, which has two values for every slot. */
  lemma LocalFailsWhenPacked(b: Backend, views: seq<View>, window: seq<nat>, unspecified: Slots)
    requires b.slotCount > 0 && window != [] && forall i :: 0 <= i < |window| ==> window[i] < |views|
    requires forall i :: 0 <= i < |views| ==> |views[i].slots| == b.slotCount && !views[i].isZero && views[i].packed
    ensures LocalCipher(b, views, window, unspecified).Err?
  {
    var rows := Rows(DecryptedRows(views), window, |window|);
    forall i | 0 <= i < |rows| ensures |rows[i]| == 2 * b.slotCount {}
    assert LocalMax(rows) == Ok(Maxima(rows, 2 * b.slotCount));
  }

  ghost predicate LevelWindows(views: seq<View>, windows: seq<seq<nat>>)
    requires InTensor(windows, |views|)
  {
    forall k :: 0 <= k < |windows| ==> LevelWindow(views, windows[k])
  }

  lemma RoundAnswered(client: HeSealClient.Client, format: Format, views: seq<View>, windows: seq<seq<nat>>, k: nat)
    requires WellFormed(client, format, views) && InTensor(windows, |views|) && LevelWindows(views, windows) && k < |windows|
    ensures var c := MaxRounds(client, format, views, windows);
            && |c.requests| == |windows| && windows[k] != []
            && (Answered(c, k) <==> WindowServed(client, format, views, windows[k]))
            && (Answered(c, k) ==> c.serve(c.requests[k].value).value == [Answer(client, views, windows[k])])
  {
    assert LevelWindow(views, windows[0]) && LevelWindow(views, windows[k]);
    WindowAnswered(client, format, views, windows[k]);
  }

  /** Over every interleaving: with one level in every window, the operation finishes exactly when each is served. */
  lemma RemoteRuns(client: HeSealClient.Client, format: Format, views: seq<View>, windows: seq<seq<nat>>,
                   run: nat -> State<Message, Slots>, choice: nat -> Label) returns (end: nat)
    requires WellFormed(client, format, views) && InTensor(windows, |views|) && LevelWindows(views, windows)
    requires IsRun(MaxRounds(client, format, views, windows), run, choice)
    ensures Final(run(end))
    ensures run(end).pc == Finished <==>
              windows != [] && forall k :: 0 <= k < |windows| ==> WindowServed(client, format, views, windows[k])
    ensures run(end).pc == Finished ==>
              && run(end).output.Some? && |run(end).output.value| == |windows|
              && forall k :: 0 <= k < |windows| ==> run(end).output.value[k] == Answer(client, views, windows[k])
  {
    var c := MaxRounds(client, format, views, windows);
    end := EveryRunDelivers(c, run, choice);
    if windows == [] {
      assert !Answered(c, 0);
    } else {
      forall k | 0 <= k < |windows|
        ensures |c.requests| == |windows| && windows[k] != []
        ensures Answered(c, k) <==> WindowServed(client, format, views, windows[k])
        ensures Answered(c, k) ==> c.serve(c.requests[k].value).value == [Answer(client, views, windows[k])]
      {
        RoundAnswered(client, format, views, windows, k);
      }
      assert |c.requests| == |windows| by { RoundAnswered(client, format, views, windows, 0); }
      if AllAnswered(c) {
        OneReplyPerWindow(client, views, windows, c, |windows|);
      }
    }
  }

  /** The remote form's windows, of the tensor with a batched leading axis, are the local kernel's. */
  lemma RemoteWindowsAreLocal(g: Geometry, h: Geometry, windows: seq<seq<nat>>)
    requires h == Rebatched(g, h.argShape[0])
    ensures AreWindows(h, windows) <==> AreWindows(g, windows)
  {
    forall k | 0 <= k < Size(g.outShape)
      ensures Window(h, CoordAt(g.outShape, k)) == Window(g, CoordAt(g.outShape, k))
    {
      LeadingAxisIsIrrelevant(g, h.argShape[0], CoordAt(g.outShape, k));
    }
  }

  /**
   * Remote max pooling against the local kernel on the same tensor, whose
   * leading axis the remote form divides by the batch size (h). The index lists
   * are the local kernel's windows. For windows of one level, over every
   * interleaving, the operation finishes exactly when all messages fit and the
   * client can encode the maxima, with one ciphertext per output, in order. Its batch lanes hold the largest values of
   * the window's lanes; without packing and zero flags they are what the local
   * kernel's outputs hold there.
   */
  lemma RemoteMaxPoolIsLocal(client: HeSealClient.Client, format: Format, b: Backend, g: Geometry, h: Geometry, views: seq<View>,
                             windows: seq<seq<nat>>, unspecified: Slots, run: nat -> State<Message, Slots>, choice: nat -> Label)
    returns (end: nat, locals: seq<Result<View>>)
    requires h == Rebatched(g, h.argShape[0]) && AreWindows(h, windows) && |views| == Size(h.argShape)
    requires WellFormed(client, format, views) && client.slotCount == b.slotCount == |unspecified|
    requires (WindowsAreInTensor(h, windows); LevelWindows(views, windows))
    requires (WindowsAreInTensor(h, windows); IsRun(MaxRounds(client, format, views, windows), run, choice))
    ensures AreWindows(g, windows) && InTensor(windows, |views|) && AreLocal(b, views, windows, unspecified, locals)
    ensures Final(run(end))
    ensures run(end).pc == Finished <==>
              windows != [] && forall k :: 0 <= k < |windows| ==> windows[k] != [] && WindowServed(client, format, views, windows[k])
    ensures run(end).pc == Finished ==>
              && run(end).output.Some? && |run(end).output.value| == |windows|
              && forall k :: 0 <= k < |windows| ==>
                   && |run(end).output.value[k]| == client.slotCount
                   && windows[k] != []
                   && client.DecodeLanes(run(end).output.value[k]) == client.LaneMaxima(SlotsAt(views, windows[k]))
    ensures run(end).pc == Finished && !client.complexPacking && (forall i :: 0 <= i < |views| ==> !views[i].packed && !views[i].isZero) ==>
              forall k :: 0 <= k < |windows| ==>
                && (b.RefusesNothing() ==> locals[k].Ok?)
                && (locals[k].Ok? ==>
                      && |locals[k].value.Value()| == client.slotCount
                      && client.DecodeLanes(locals[k].value.Value()) == client.DecodeLanes(run(end).output.value[k]))
  {
    hide WindowServed, LocalCipher, Size, Rebatched;
    WindowsAreInTensor(h, windows);
    RemoteWindowsAreLocal(g, h, windows);
    locals := LocalsOf(b, views, windows, unspecified);
    end := RemoteRuns(client, format, views, windows, run, choice);
    if run(end).pc == Finished {
      forall k | 0 <= k < |windows|
        ensures client.DecodeLanes(Answer(client, views, windows[k])) == client.LaneMaxima(SlotsAt(views, windows[k]))
      {
        assert LevelWindow(views, windows[k]);
        client.DecodeEncode(client.LaneMaxima(SlotsAt(views, windows[k])));
      }
      if !client.complexPacking && (forall i :: 0 <= i < |views| ==> !views[i].packed && !views[i].isZero) {
        forall k | 0 <= k < |windows|
          ensures b.RefusesNothing() ==> locals[k].Ok?
          ensures locals[k].Ok? ==>
                    && |locals[k].value.Value()| == client.slotCount
                    && client.DecodeLanes(locals[k].value.Value()) == client.LaneMaxima(SlotsAt(views, windows[k]))
        {
          assert locals[k] == LocalCipher(b, views, windows[k], unspecified);
          AnswerIsLocal(client, b, views, windows[k], unspecified);
        }
      }
    }
  }
}
