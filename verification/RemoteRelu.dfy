/**
 * Relu and BoundedRelu(6) offloaded to the client in chunks
 * (src/seal/he_seal_executable.cpp, handle_server_relu_op): the tensor is
 * matched to its smallest chain index, and the chunk loop's messages run through
 * the hand-off of OffloadRounds against the client of HeSealClient.
 */
module RemoteRelu {
  import opened Outcomes
  import opened ComplexNumbers
  import opened SealCiphertext
  import opened LevelMatching
  import opened TcpMessage
  import opened CipherMessages
  import opened HeSealClient
  import opened OffloadRounds
  import Fusion

  datatype Operation = ReluOp | BoundedReluOp(alpha: real)
  {
    /** What the operation computes element by element, as a node of a graph does. */
    function Meaning(d: real): real
    {
      match this
      case ReluOp => Fusion.PositivePart(d)
      case BoundedReluOp(alpha) => Fusion.Bounded(d, alpha)
    }

    /** The client's activation is that, for the bound it has. */
    lemma ActivationIsMeaning(d: real)
      requires Supported()
      ensures Activation().On(d) == Meaning(d)
    {}

    /** In plain terms: the larger of d and 0, or d moved to the nearest value in [0, 6]. */
    predicate IsResult(d: real, r: real)
    {
      if ReluOp? then r >= 0.0 && r >= d && (r == 0.0 || r == d)
      else 0.0 <= r <= 6.0 && (0.0 <= d <= 6.0 ==> r == d) && (d < 0.0 ==> r == 0.0) && (d > 6.0 ==> r == 6.0)
    }

    lemma ResultIsMeaning(d: real, r: real)
      requires Supported()
      ensures IsResult(d, r) <==> r == Meaning(d)
    {
      Fusion.ElementFunctions(d, d, 6.0);
    }

    predicate Supported() { BoundedReluOp? ==> alpha == 6.0 }

    function Activation(): Activation { if BoundedReluOp? then Relu6 else Relu }

    function Kind(): nat { if BoundedReluOp? then RELU6_REQUEST else RELU_REQUEST }
  }

  const MAX_RELU_MESSAGE_CNT: nat := 10000

  // -------------------------------------------------------------------- chunks

  function NumReluBatches(elementCount: nat): nat
  {
    var n := elementCount / MAX_RELU_MESSAGE_CNT;
    if elementCount % MAX_RELU_MESSAGE_CNT != 0 then n + 1 else n
  }

  function BatchStart(batch: nat): nat
  {
    batch * MAX_RELU_MESSAGE_CNT
  }

  function BatchEnd(elementCount: nat, batch: nat): nat
  {
    var end := (batch + 1) * MAX_RELU_MESSAGE_CNT;
    if end > elementCount then elementCount else end
  }

  /** The chunks tile the tensor: consecutive, none empty, none above the limit, ending at the last element. */
  lemma BatchesTile(elementCount: nat, batch: nat)
    requires batch < NumReluBatches(elementCount)
    ensures BatchStart(batch) < BatchEnd(elementCount, batch) <= elementCount
    ensures BatchEnd(elementCount, batch) - BatchStart(batch) <= MAX_RELU_MESSAGE_CNT
    ensures batch + 1 < NumReluBatches(elementCount) ==> BatchEnd(elementCount, batch) == BatchStart(batch + 1)
    ensures batch + 1 == NumReluBatches(elementCount) ==> BatchEnd(elementCount, batch) == elementCount
  {}

  /** The chunk that element i is in. */
  lemma BatchOf(elementCount: nat, i: nat) returns (batch: nat)
    requires i < elementCount
    ensures batch < NumReluBatches(elementCount) && BatchStart(batch) <= i < BatchEnd(elementCount, batch)
    ensures BatchEnd(elementCount, batch) - BatchStart(batch) == 1 <==> AloneInChunk(elementCount, i)
  {
    batch := i / MAX_RELU_MESSAGE_CNT;
  }

  /** Element i is the last one and starts a chunk. */
  predicate AloneInChunk(elementCount: nat, i: nat)
  {
    i + 1 == elementCount && i % MAX_RELU_MESSAGE_CNT == 0
  }

  function Chunk(elements: seq<View>, batch: nat): (chunk: seq<View>)
    requires batch < NumReluBatches(|elements|)
    ensures chunk != []
  {
    BatchesTile(|elements|, batch);
    elements[BatchStart(batch)..BatchEnd(|elements|, batch)]
  }

  // ------------------------------------------------------------------ requests

  function Bodies(views: seq<View>): (bodies: seq<Body>)
    ensures |bodies| == |views| && forall i :: 0 <= i < |views| ==> bodies[i] == BodyOf(views[i])
  {
    seq(|views|, i requires 0 <= i < |views| => BodyOf(views[i]))
  }

  function SlotsOf(views: seq<View>): (slots: seq<Slots>)
    ensures |slots| == |views| && forall i :: 0 <= i < |views| ==> slots[i] == views[i].slots
  {
    seq(|views|, i requires 0 <= i < |views| => views[i].slots)
  }

  predicate NoneFlagged(views: seq<View>)
  {
    forall i :: 0 <= i < |views| ==> !views[i].isZero
  }

  /** One pass of the chunk loop up to the message; None where it throws. */
  function BuildRequest(format: Format, op: Operation, chunk: seq<View>): Option<Message>
    requires chunk != []
  {
    if !NoneFlagged(chunk) || !op.Supported() then None
    else VectorMessage(op.Kind(), Saves(format, Bodies(chunk)))
  }

  /** The ciphertexts of a chunk; None where one is flagged. */
  method GatherChunk(elements: seq<SealCiphertextWrapper>, start: nat, end: nat, ghost chunk: seq<View>) returns (r: Option<seq<Body>>)
    requires start <= end <= |elements| && Holds(elements[start..end], chunk)
    ensures r == if NoneFlagged(chunk) then Some(Bodies(chunk)) else None
  {
    var reluCiphers: seq<Body> := [];
    for i := start to end
      invariant reluCiphers == Bodies(chunk)[..i - start]
      invariant forall k :: 0 <= k < i - start ==> !chunk[k].isZero
    {
      assert elements[start..end][i - start] == elements[i];
      if elements[i].isZero {
        return None;
      }
      reluCiphers := reluCiphers + [BodyOf(elements[i].Contents())];
    }
    assert reluCiphers == Bodies(chunk);
    return Some(reluCiphers);
  }

  /** The body of the chunk loop up to the message. */
  method BuildMessage(format: Format, op: Operation, elements: seq<SealCiphertextWrapper>, batch: nat, ghost views: seq<View>)
    returns (r: Option<Message>)
    requires Holds(elements, views) && batch < NumReluBatches(|elements|)
    ensures r == BuildRequest(format, op, Chunk(views, batch))
  {
    BatchesTile(|elements|, batch);
    var reluCiphers := GatherChunk(elements, BatchStart(batch), BatchEnd(|elements|, batch), Chunk(views, batch));
    if reluCiphers == None || !op.Supported() {
      return None;
    }
    r := FromCiphers(op.Kind(), reluCiphers.value, format);
  }

  function ReluRounds(client: Client, format: Format, op: Operation, elements: seq<View>): Config<Message, Slots>
  {
    Config(
      seq(NumReluBatches(|elements|), b requires 0 <= b < NumReluBatches(|elements|) => BuildRequest(format, op, Chunk(elements, b))),
      m => client.Answer(format, m))
  }

  /** The whole operation: if the tensor cannot be matched it throws before its first request. */
  ghost function ReluOperation(ctx: Context, client: Client, format: Format, op: Operation, ciphers: seq<SealCiphertextWrapper>,
                               views: seq<View>): Config<Message, Slots>
    requires ctx.Valid() && AllOnChain(ctx, views) && |ciphers| == |views|
  {
    match MatchedTensor(ctx, ciphers, views)
    case None => Config([None], m => client.Answer(format, m))
    case Some(matched) => ReluRounds(client, format, op, matched)
  }

  /** A tensor of the client's ciphertexts, which can be saved. */
  ghost predicate WellFormed(client: Client, format: Format, elements: seq<View>)
  {
    && client.Valid() && AllCarried(format, Bodies(elements))
    && forall i :: 0 <= i < |elements| ==> |elements[i].slots| == client.slotCount
  }

  /** A chunk's request and the reply to it each fit a message. */
  predicate ChunkFits(format: Format, elements: seq<View>, batch: nat)
    requires batch < NumReluBatches(|elements|)
  {
    var chunk := Chunk(elements, batch);
    format.Fits(|chunk|, chunk[0].chain) && format.Fits(|chunk|, format.topChain)
  }

  predicate Room(format: Format, elements: seq<View>)
  {
    forall b :: 0 <= b < NumReluBatches(|elements|) ==> ChunkFits(format, elements, b)
  }

  predicate ChunkIsLevel(elements: seq<View>, batch: nat)
    requires batch < NumReluBatches(|elements|)
  {
    OneLevel(Bodies(Chunk(elements, batch)))
  }

  predicate ChunksAreLevel(elements: seq<View>)
  {
    forall b :: 0 <= b < NumReluBatches(|elements|) ==> ChunkIsLevel(elements, b)
  }

  /** The client's encoder takes the activation of each of these. */
  predicate ClientEncodes(client: Client, op: Operation, views: seq<View>)
    requires client.Valid() && forall i :: 0 <= i < |views| ==> |views[i].slots| == client.slotCount
  {
    client.Encodes(op.Activation(), SlotsOf(views))
  }

  lemma ChunkWidths(client: Client, elements: seq<View>, b: nat)
    requires b < NumReluBatches(|elements|) && forall i :: 0 <= i < |elements| ==> |elements[i].slots| == client.slotCount
    ensures forall i :: 0 <= i < |Chunk(elements, b)| ==> |Chunk(elements, b)[i].slots| == client.slotCount
  {
    BatchesTile(|elements|, b);
  }

  predicate ChunkEncodes(client: Client, op: Operation, elements: seq<View>, b: nat)
    requires client.Valid() && b < NumReluBatches(|elements|) && forall i :: 0 <= i < |elements| ==> |elements[i].slots| == client.slotCount
  {
    ChunkWidths(client, elements, b);
    ClientEncodes(client, op, Chunk(elements, b))
  }

  /** A chunk passes in every respect. */
  predicate ChunkServed(client: Client, format: Format, op: Operation, elements: seq<View>, b: nat)
    requires client.Valid() && b < NumReluBatches(|elements|) && forall i :: 0 <= i < |elements| ==> |elements[i].slots| == client.slotCount
  {
    && NoneFlagged(Chunk(elements, b)) && op.Supported() && ChunkIsLevel(elements, b) && ChunkFits(format, elements, b)
    && ChunkEncodes(client, op, elements, b)
  }

  /**
   * One chunk's exchange: it takes place exactly for the bound 6 and unflagged
   * ciphertexts of one level that fit, with activations the client can encode.
   */
  lemma ChunkAnswered(client: Client, format: Format, op: Operation, elements: seq<View>, b: nat)
    requires WellFormed(client, format, elements) && b < NumReluBatches(|elements|)
    ensures var c, chunk := ReluRounds(client, format, op, elements), Chunk(elements, b);
            && (Answered(c, b) <==> ChunkServed(client, format, op, elements, b))
            && (Answered(c, b) ==> c.serve(c.requests[b].value).value == client.ReluReply(op.Activation(), SlotsOf(chunk)))
  {
    hide Joined, Cut, SameSizes;
    var c, chunk := ReluRounds(client, format, op, elements), Chunk(elements, b);
    BatchesTile(|elements|, b);
    var bodies := Bodies(chunk);
    assert forall i :: 0 <= i < |chunk| ==> bodies[i] == Bodies(elements)[BatchStart(b) + i];
    VectorMessageIff(format, op.Kind(), bodies);
    var m := VectorMessage(op.Kind(), Saves(format, bodies));
    if m.Some? {
      assert client.Loaded(format, m.value).value == SlotsOf(chunk);
      assert client.Requested(m.value.kind) == Some(op.Activation());
    }
  }

  /** What the client can encode, chunk by chunk. */
  lemma EncodesByChunk(client: Client, op: Operation, elements: seq<View>)
    requires client.Valid() && forall i :: 0 <= i < |elements| ==> |elements[i].slots| == client.slotCount
    ensures ClientEncodes(client, op, elements) <==>
            forall b :: 0 <= b < NumReluBatches(|elements|) ==> ChunkEncodes(client, op, elements, b)
  {
    forall b, i | 0 <= b < NumReluBatches(|elements|) && 0 <= i < |Chunk(elements, b)|
      ensures BatchStart(b) + i < |elements| && SlotsOf(Chunk(elements, b))[i] == SlotsOf(elements)[BatchStart(b) + i]
    {
      BatchesTile(|elements|, b);
    }
    if !ClientEncodes(client, op, elements) {
      var i :| 0 <= i < |elements| && client.refuses(MapReal(op.Activation(), client.DecodeLanes(SlotsOf(elements)[i])));
      RefusedInChunk(client, op, elements, i);
    }
  }

  lemma RefusedInChunk(client: Client, op: Operation, elements: seq<View>, i: nat)
    requires client.Valid() && forall k :: 0 <= k < |elements| ==> |elements[k].slots| == client.slotCount
    requires i < |elements| && client.refuses(MapReal(op.Activation(), client.DecodeLanes(SlotsOf(elements)[i])))
    ensures exists b :: 0 <= b < NumReluBatches(|elements|) && !ChunkEncodes(client, op, elements, b)
  {
    var b := BatchOf(|elements|, i);
    ChunkWidths(client, elements, b);
    assert SlotsOf(Chunk(elements, b))[i - BatchStart(b)] == SlotsOf(elements)[i];
    assert !ChunkEncodes(client, op, elements, b);
  }

  lemma FlagsByChunk(elements: seq<View>)
    ensures NoneFlagged(elements) <==> forall b :: 0 <= b < NumReluBatches(|elements|) ==> NoneFlagged(Chunk(elements, b))
  {
    if NoneFlagged(elements) {
      forall b | 0 <= b < NumReluBatches(|elements|) ensures NoneFlagged(Chunk(elements, b)) {
        BatchesTile(|elements|, b);
      }
    }
    if forall b :: 0 <= b < NumReluBatches(|elements|) ==> NoneFlagged(Chunk(elements, b)) {
      forall i | 0 <= i < |elements| ensures !elements[i].isZero {
        var b := BatchOf(|elements|, i);
        assert NoneFlagged(Chunk(elements, b));
        assert Chunk(elements, b)[i - BatchStart(b)] == elements[i];
      }
    }
  }

  /**
   * Every chunk is answered exactly when nothing is flagged, the bound is 6, the
   * client can encode the activations, and every chunk is level and fits.
   */
  lemma AllChunksBuild(client: Client, format: Format, op: Operation, elements: seq<View>)
    requires WellFormed(client, format, elements) && elements != []
    ensures AllAnswered(ReluRounds(client, format, op, elements))
            <==> NoneFlagged(elements) && op.Supported() && ChunksAreLevel(elements) && Room(format, elements)
                 && ClientEncodes(client, op, elements)
  {
    var c, n := ReluRounds(client, format, op, elements), NumReluBatches(|elements|);
    assert |c.requests| == n > 0;
    FlagsByChunk(elements);
    EncodesByChunk(client, op, elements);
    forall b | 0 <= b < n ensures Answered(c, b) <==> ChunkServed(client, format, op, elements, b) {
      ChunkAnswered(client, format, op, elements, b);
    }
    CollectChunks(c, client, format, op, elements);
  }

  lemma CollectChunks(c: Config<Message, Slots>, client: Client, format: Format, op: Operation, elements: seq<View>)
    requires |c.requests| == NumReluBatches(|elements|) > 0
    requires client.Valid() && forall i :: 0 <= i < |elements| ==> |elements[i].slots| == client.slotCount
    requires forall b :: 0 <= b < |c.requests| ==> (Answered(c, b) <==> ChunkServed(client, format, op, elements, b))
    ensures AllAnswered(c) <==>
            && (forall b :: 0 <= b < NumReluBatches(|elements|) ==> NoneFlagged(Chunk(elements, b)))
            && op.Supported() && ChunksAreLevel(elements) && Room(format, elements)
            && (forall b :: 0 <= b < NumReluBatches(|elements|) ==> ChunkEncodes(client, op, elements, b))
  {
    hide NoneFlagged, ChunkIsLevel, ChunkFits, ChunkEncodes, Answered;
    forall b | 0 <= b < |c.requests|
      ensures Answered(c, b) <==>
              && NoneFlagged(Chunk(elements, b)) && op.Supported() && ChunkIsLevel(elements, b) && ChunkFits(format, elements, b)
              && ChunkEncodes(client, op, elements, b)
    {
      assert Answered(c, b) <==> ChunkServed(client, format, op, elements, b);
    }
    if AllAnswered(c) {
      assert Answered(c, 0);
    }
  }

  function WholeReply(client: Client, elements: seq<View>, f: Activation): (r: seq<Slots>)
    requires client.Valid() && forall i :: 0 <= i < |elements| ==> |elements[i].slots| == client.slotCount
    ensures |r| == |elements|
  {
    client.ReluReply(f, SlotsOf(elements))
  }

  /** The part of a sequence that a chunk covers. */
  function Part<T>(whole: seq<T>, batch: nat): seq<T>
    requires batch < NumReluBatches(|whole|)
  {
    BatchesTile(|whole|, batch);
    whole[BatchStart(batch)..BatchEnd(|whole|, batch)]
  }

  /** The reply to a chunk is its part of the reply to the whole tensor. */
  lemma ChunkReply(client: Client, elements: seq<View>, f: Activation, b: nat)
    requires client.Valid() && forall i :: 0 <= i < |elements| ==> |elements[i].slots| == client.slotCount
    requires b < NumReluBatches(|elements|)
    ensures client.ReluReply(f, SlotsOf(Chunk(elements, b))) == Part(WholeReply(client, elements, f), b)
  {
    BatchesTile(|elements|, b);
  }

  /** How many elements the first chunks cover. */
  function Covered(elementCount: nat, batches: nat): (n: nat)
    ensures n <= elementCount
  {
    if batches * MAX_RELU_MESSAGE_CNT > elementCount then elementCount else batches * MAX_RELU_MESSAGE_CNT
  }

  /** If every chunk's reply is its part of a sequence, the first b replies are a prefix of it. */
  lemma {:induction false} RepliesReassemble(c: Config<Message, Slots>, whole: seq<Slots>, b: nat)
    requires b <= |c.requests| == NumReluBatches(|whole|)
    requires forall i :: 0 <= i < b ==> Answered(c, i) && c.serve(c.requests[i].value).value == Part(whole, i)
    ensures Replies(c, b) == whole[..Covered(|whole|, b)]
  {
    if b == 0 {
      assert Replies(c, 0) == [];
    } else {
      RepliesReassemble(c, whole, b - 1);
      BatchesTile(|whole|, b - 1);
      var from, to := BatchStart(b - 1), BatchEnd(|whole|, b - 1);
      assert Replies(c, b) == whole[..from] + whole[from..to];
      assert whole[..from] + whole[from..to] == whole[..to];
    }
  }

  lemma AllReplies(client: Client, format: Format, op: Operation, elements: seq<View>)
    requires WellFormed(client, format, elements) && elements != []
    requires AllAnswered(ReluRounds(client, format, op, elements))
    ensures var c := ReluRounds(client, format, op, elements);
            Replies(c, |c.requests|) == WholeReply(client, elements, op.Activation())
  {
    var c, whole := ReluRounds(client, format, op, elements), WholeReply(client, elements, op.Activation());
    forall i | 0 <= i < |c.requests| ensures Answered(c, i) && c.serve(c.requests[i].value).value == Part(whole, i) {
      assert Answered(c, i);
      ChunkAnswered(client, format, op, elements, i);
      ChunkReply(client, elements, op.Activation(), i);
    }
    RepliesReassemble(c, whole, |c.requests|);
    assert whole[..|elements|] == whole;
  }

  lemma WholeReplyDecodes(client: Client, elements: seq<View>, f: Activation, i: nat)
    requires client.Valid() && i < |elements| && forall k :: 0 <= k < |elements| ==> |elements[k].slots| == client.slotCount
    ensures |WholeReply(client, elements, f)[i]| == client.slotCount
    ensures client.DecodeLanes(WholeReply(client, elements, f)[i]) == MapReal(f, client.DecodeLanes(elements[i].slots))
  {
    client.ReluReplyDecodes(f, SlotsOf(elements), i);
  }

  // ------------------------------------------------------------------ matching

  /** The ciphertext that matching passes over: the one at the position that equals the smallest chain index. */
  ghost predicate LeftBehind(ciphers: seq<SealCiphertextWrapper>, views: seq<View>, i: nat)
    requires |ciphers| == |views| && Smallest(views).Some?
  {
    && i < |views| && i == views[Smallest(views).value].chain
    && views[i].chain != i && !Visited(ciphers, i, |ciphers|, ciphers[i])
  }

  /** Whatever is not left behind ends at the smallest level. */
  lemma OnlyLeftBehind(ctx: Context, ciphers: seq<SealCiphertextWrapper>, views: seq<View>, i: nat)
    requires ctx.Valid() && AllOnChain(ctx, views) && |ciphers| == |views| && i < |views| && !views[i].isZero
    requires MatchedTensor(ctx, ciphers, views).Some?
    ensures MatchedTensor(ctx, ciphers, views).value[i].chain == views[Smallest(views).value].chain
            <==> !LeftBehind(ciphers, views, i)
  {
    AsWritten(ctx, ciphers, views, i);
    if i != views[Smallest(views).value].chain {
      assert Visited(ciphers, views[Smallest(views).value].chain, |ciphers|, ciphers[i]);
    }
  }

  /** Matching levels every chunk, unless it leaves a ciphertext behind that is not alone in its chunk. */
  lemma MatchingLevelsChunks(ctx: Context, ciphers: seq<SealCiphertextWrapper>, views: seq<View>)
    requires ctx.Valid() && AllOnChain(ctx, views) && |ciphers| == |views| && NoneFlagged(views)
    requires MatchedTensor(ctx, ciphers, views).Some?
    ensures ChunksAreLevel(MatchedTensor(ctx, ciphers, views).value)
            <==> forall i :: LeftBehind(ciphers, views, i) ==> AloneInChunk(|views|, i)
  {
    var after, least := MatchedTensor(ctx, ciphers, views).value, views[Smallest(views).value].chain;
    forall i | 0 <= i < |views| ensures after[i].chain == least <==> !LeftBehind(ciphers, views, i) {
      OnlyLeftBehind(ctx, ciphers, views, i);
    }
    if i :| LeftBehind(ciphers, views, i) {
      OneOddLevel(after, least, i);
    } else {
      ChunksOfOneLevel(after, least);
    }
  }

  lemma ChunksOfOneLevel(elements: seq<View>, least: nat)
    requires forall k :: 0 <= k < |elements| ==> elements[k].chain == least
    ensures ChunksAreLevel(elements)
  {
    forall b | 0 <= b < NumReluBatches(|elements|) ensures ChunkIsLevel(elements, b) {
      LevelChunk(elements, least, b);
    }
  }

  /** With one ciphertext at another level the chunks are level exactly when it is alone in its chunk. */
  lemma OneOddLevel(elements: seq<View>, least: nat, i: nat)
    requires i < |elements|
    requires forall k :: 0 <= k < |elements| ==> (elements[k].chain == least <==> k != i)
    ensures ChunksAreLevel(elements) <==> AloneInChunk(|elements|, i)
  {
    var at := BatchOf(|elements|, i);
    OddOneOut(elements, least, i, at);
    forall b | 0 <= b < NumReluBatches(|elements|) && b != at ensures ChunkIsLevel(elements, b) {
      NotInChunk(|elements|, i, at, b);
      LevelChunk(elements, least, b);
    }
  }

  lemma NotInChunk(elementCount: nat, i: nat, at: nat, b: nat)
    requires i < elementCount && at < NumReluBatches(elementCount) && b < NumReluBatches(elementCount) && b != at
    requires BatchStart(at) <= i < BatchEnd(elementCount, at)
    ensures !(BatchStart(b) <= i < BatchEnd(elementCount, b))
  {}

  lemma LevelChunk(elements: seq<View>, least: nat, b: nat)
    requires b < NumReluBatches(|elements|)
    requires forall k :: BatchStart(b) <= k < BatchEnd(|elements|, b) && k < |elements| ==> elements[k].chain == least
    ensures ChunkIsLevel(elements, b)
  {
    BatchesTile(|elements|, b);
    var chunk := Chunk(elements, b);
    forall i | 0 <= i < |chunk| ensures Bodies(chunk)[i].chain == least {
      assert chunk[i] == elements[BatchStart(b) + i];
    }
  }

  /** A chunk with one ciphertext at another level is not level, unless that is all there is in it. */
  lemma OddOneOut(elements: seq<View>, least: nat, i: nat, b: nat)
    requires i < |elements| && b < NumReluBatches(|elements|) && BatchStart(b) <= i < BatchEnd(|elements|, b)
    requires forall k :: 0 <= k < |elements| ==> (elements[k].chain == least <==> k != i)
    ensures ChunkIsLevel(elements, b) <==> BatchEnd(|elements|, b) - BatchStart(b) == 1
  {
    BatchesTile(|elements|, b);
    var chunk, at := Chunk(elements, b), i - BatchStart(b);
    assert chunk[at] == elements[i];
    if |chunk| > 1 {
      var other := if at == 0 then 1 else 0;
      assert chunk[other] == elements[BatchStart(b) + other];
      assert Bodies(chunk)[at].chain != Bodies(chunk)[other].chain;
    }
  }

  /**
   * When the operation succeeds: the tensor can be matched, nothing is flagged,
   * the bound is 6, matching leaves nothing behind in a chunk with others, every
   * chunk and its reply fit a message, and the client can encode the activations.
   */
  ghost predicate Succeeds(ctx: Context, client: Client, format: Format, op: Operation, ciphers: seq<SealCiphertextWrapper>,
                           views: seq<View>)
    requires ctx.Valid() && AllOnChain(ctx, views) && |ciphers| == |views|
    requires client.Valid() && forall i :: 0 <= i < |views| ==> |views[i].slots| == client.slotCount
  {
    var matched := MatchedTensor(ctx, ciphers, views);
    && matched.Some? && NoneFlagged(views) && op.Supported()
    && (forall i :: LeftBehind(ciphers, views, i) ==> AloneInChunk(|views|, i))
    && Room(format, matched.value) && (MatchedInput(ctx, ciphers, views); ClientEncodes(client, op, matched.value))
  }

  /** What a result ciphertext decodes to: the operation applied to the input's lanes, which matching may have scaled. */
  ghost predicate IsActivated(client: Client, op: Operation, input: Slots, result: Slots, exact: bool)
    requires client.Valid() && |input| == |result| == client.slotCount
  {
    exists drift :: IsDriftFactor(drift) && (exact ==> drift == 1.0) && ActivatedBy(client, op, input, result, drift)
  }

  predicate ActivatedBy(client: Client, op: Operation, input: Slots, result: Slots, drift: real)
    requires client.Valid() && |input| == |result| == client.slotCount
  {
    forall l :: 0 <= l < client.LaneCount() ==> op.IsResult(client.DecodeLanes(input)[l] * drift, client.DecodeLanes(result)[l])
  }

  lemma DriftActivated(client: Client, op: Operation, input: Slots, matched: Slots, result: Slots)
    requires op.Supported() && client.Valid() && |input| == |result| == client.slotCount && CloseTo(input, matched)
    requires client.DecodeLanes(result) == MapReal(op.Activation(), client.DecodeLanes(matched))
    ensures IsActivated(client, op, input, result, input == matched)
  {
    if input == matched {
      ExactlyActivated(client, op, input, result);
      assert IsDriftFactor(1.0);
    } else {
      var drift: real :| IsDriftFactor(drift) && forall i :: 0 <= i < |input| ==> matched[i] == Scale(input[i], drift);
      ScaledActivated(client, op, input, matched, result, drift);
    }
  }

  lemma ExactlyActivated(client: Client, op: Operation, input: Slots, result: Slots)
    requires op.Supported() && client.Valid() && |input| == |result| == client.slotCount
    requires client.DecodeLanes(result) == MapReal(op.Activation(), client.DecodeLanes(input))
    ensures ActivatedBy(client, op, input, result, 1.0)
  {
    forall l | 0 <= l < client.LaneCount() ensures op.IsResult(client.DecodeLanes(input)[l] * 1.0, client.DecodeLanes(result)[l]) {
      op.ActivationIsMeaning(client.DecodeLanes(input)[l]);
      op.ResultIsMeaning(client.DecodeLanes(input)[l], client.DecodeLanes(result)[l]);
    }
  }

  lemma ScaledActivated(client: Client, op: Operation, input: Slots, matched: Slots, result: Slots, drift: real)
    requires op.Supported() && client.Valid() && |input| == |matched| == |result| == client.slotCount
    requires forall i :: 0 <= i < |input| ==> matched[i] == Scale(input[i], drift)
    requires client.DecodeLanes(result) == MapReal(op.Activation(), client.DecodeLanes(matched))
    ensures ActivatedBy(client, op, input, result, drift)
  {
    forall l | 0 <= l < client.LaneCount() ensures op.IsResult(client.DecodeLanes(input)[l] * drift, client.DecodeLanes(result)[l]) {
      client.ScaledLanes(input, matched, drift, l);
      op.ActivationIsMeaning(client.DecodeLanes(matched)[l]);
      op.ResultIsMeaning(client.DecodeLanes(matched)[l], client.DecodeLanes(result)[l]);
    }
  }

  /**
   * Over every interleaving the operation ends. It finishes exactly in the
   * circumstances of Succeeds, and then returns one ciphertext per input, result
   * i the operation applied to input i: exactly for an input at the smallest level, and
   * up to the drift of matching for one above it.
   */
  lemma RemoteReluIsRelu(ctx: Context, client: Client, format: Format, op: Operation, ciphers: seq<SealCiphertextWrapper>,
                         views: seq<View>, run: nat -> State<Message, Slots>, choice: nat -> Label) returns (k: nat)
    requires ctx.Valid() && AllOnChain(ctx, views) && |ciphers| == |views| && client.Valid()
    requires forall i :: 0 <= i < |views| ==> |views[i].slots| == client.slotCount
    requires MatchedTensor(ctx, ciphers, views).Some? ==> AllCarried(format, Bodies(MatchedTensor(ctx, ciphers, views).value))
    requires IsRun(ReluOperation(ctx, client, format, op, ciphers, views), run, choice)
    ensures Final(run(k))
    ensures run(k).pc == Finished <==> Succeeds(ctx, client, format, op, ciphers, views)
    ensures run(k).pc == Finished ==>
              && run(k).output.Some? && |run(k).output.value| == |views|
              && forall i :: 0 <= i < |views| ==>
                   && |run(k).output.value[i]| == client.slotCount
                   && IsActivated(client, op, views[i].slots, run(k).output.value[i],
                                  views[i].chain == views[Smallest(views).value].chain)
  {
    var c := ReluOperation(ctx, client, format, op, ciphers, views);
    k := EveryRunDelivers(c, run, choice);
    var r := MatchedTensor(ctx, ciphers, views);
    if r == None {
      assert !Answered(c, 0);
    } else {
      MatchedInput(ctx, ciphers, views);
      AllChunksBuild(client, format, op, r.value);
      if NoneFlagged(views) {
        MatchingLevelsChunks(ctx, ciphers, views);
      }
      if run(k).pc == Finished {
        AllReplies(client, format, op, r.value);
        forall i | 0 <= i < |views|
          ensures IsActivated(client, op, views[i].slots, run(k).output.value[i],
                              views[i].chain == views[Smallest(views).value].chain)
        {
          WholeReplyDecodes(client, r.value, op.Activation(), i);
          DriftActivated(client, op, views[i].slots, r.value[i].slots, run(k).output.value[i]);
        }
      }
    }
  }

  /** Matching keeps flags and sizes, scales slots within the drift, and leaves what is at the smallest level alone. */
  lemma MatchedInput(ctx: Context, ciphers: seq<SealCiphertextWrapper>, views: seq<View>)
    requires ctx.Valid() && AllOnChain(ctx, views) && |ciphers| == |views| && MatchedTensor(ctx, ciphers, views).Some?
    ensures views != []
    ensures var after := MatchedTensor(ctx, ciphers, views).value;
            && (NoneFlagged(after) <==> NoneFlagged(views))
            && forall i :: 0 <= i < |views| ==>
                 && |after[i].slots| == |views[i].slots| && CloseTo(views[i].slots, after[i].slots)
                 && (views[i].chain == views[Smallest(views).value].chain ==> after[i] == views[i])
  {
    var p, after := Smallest(views).value, MatchedTensor(ctx, ciphers, views).value;
    forall i | 0 <= i < |views|
      ensures after[i].isZero == views[i].isZero && |after[i].slots| == |views[i].slots|
      ensures CloseTo(views[i].slots, after[i].slots) && (views[i].chain == views[p].chain ==> after[i] == views[i])
    {
      LoweredViews(ctx, ciphers, views, p, views[p].chain, i);
    }
  }

  /** Two unflagged ciphertexts at chain indices 1 and 2: the second is left behind, and a plain Relu throws. */
  lemma LeftBehindStopsRelu(ctx: Context, client: Client, format: Format, ciphers: seq<SealCiphertextWrapper>, views: seq<View>,
                            run: nat -> State<Message, Slots>, choice: nat -> Label) returns (k: nat)
    requires ctx.Valid() && AllOnChain(ctx, views) && client.Valid() && |ciphers| == |views| == 2 && ciphers[0] != ciphers[1]
    requires NoneFlagged(views) && views[0].chain == 1 && views[1].chain == 2 && AllCarried(format, Bodies(views))
    requires forall i :: 0 <= i < |views| ==> |views[i].slots| == client.slotCount
    requires IsRun(ReluOperation(ctx, client, format, ReluOp, ciphers, views), run, choice)
    ensures run(k).pc == Failed && run(k).round == 0
  {
    OnlyTheFirst(ctx, ciphers, views);
    assert Smallest(views) == Some(0) by {
      assert views[..1] == [views[0]];
      assert Smallest([views[0]]) == Some(0);
    }
    k := RemoteReluIsRelu(ctx, client, format, ReluOp, ciphers, views, run, choice);
    assert !Visited(ciphers, 1, 2, ciphers[1]);
    assert LeftBehind(ciphers, views, 1) && !AloneInChunk(2, 1);
    var c := ReluOperation(ctx, client, format, ReluOp, ciphers, views);
    k := EveryRunDelivers(c, run, choice);
    assert |c.requests| == 1;
    ChunkAnswered(client, format, ReluOp, views, 0);
    VectorMessageIff(format, RELU_REQUEST, Bodies(views));
    assert Chunk(views, 0) == views;
    assert Bodies(views)[1].chain != Bodies(views)[0].chain;
  }
}
