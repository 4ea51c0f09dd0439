/**
 * The client's side of offloaded operations (src/seal/he_seal_client.cpp). A
 * ciphertext stands for the complex slot vector it decrypts and decodes to.
 */
module HeSealClient {
  import opened Outcomes
  import opened ComplexNumbers
  import opened ComplexPacking
  import opened SealCiphertext
  import opened CipherMessages
  import opened TcpMessage

  // Numbers of the message types the client answers.
  const MAX_REQUEST: nat := 4
  const RELU_REQUEST: nat := 11
  const RELU6_REQUEST: nat := 12

  datatype Activation = Relu | Relu6
  {
    function On(d: real): real
    {
      match this
      case Relu => if d > 0.0 then d else 0.0
      case Relu6 => if d > 6.0 then 6.0 else if d > 0.0 then d else 0.0
    }
  }

  /** What the activations are: the larger of a value and 0, and that cut off at 6. */
  predicate IsActivation(f: Activation, d: real, r: real)
  {
    match f
    case Relu => r >= 0.0 && r >= d && (r == 0.0 || r == d)
    case Relu6 => 0.0 <= r <= 6.0 && (d < 0.0 ==> r == 0.0) && (0.0 <= d <= 6.0 ==> r == d) && (d > 6.0 ==> r == 6.0)
  }

  lemma ActivationMeans(f: Activation, d: real, r: real)
    ensures r == f.On(d) <==> IsActivation(f, d, r)
  {}

  function MapReal(f: Activation, xs: seq<real>): (ys: seq<real>)
    ensures |ys| == |xs| && forall i :: 0 <= i < |xs| ==> ys[i] == f.On(xs[i])
  {
    seq(|xs|, i requires 0 <= i < |xs| => f.On(xs[i]))
  }

  /** The fold that std::max_element and the local kernels compute. */
  function Largest(xs: seq<real>): real
    requires xs != []
  {
    if |xs| == 1 then xs[0]
    else
      var m := Largest(xs[..|xs| - 1]);
      if m < xs[|xs| - 1] then xs[|xs| - 1] else m
  }

  lemma {:induction false} LargestIsMaximum(xs: seq<real>)
    requires xs != []
    ensures exists i :: 0 <= i < |xs| && xs[i] == Largest(xs)
    ensures forall i :: 0 <= i < |xs| ==> xs[i] <= Largest(xs)
  {
    if |xs| > 1 {
      var front := xs[..|xs| - 1];
      LargestIsMaximum(front);
      var k :| 0 <= k < |front| && front[k] == Largest(front);
      assert xs[k] == Largest(front);
      forall i | 0 <= i < |xs| ensures xs[i] <= Largest(xs) {
        if i < |front| { assert xs[i] == front[i]; }
      }
      var w := if Largest(front) < xs[|xs| - 1] then |xs| - 1 else k;
      assert xs[w] == Largest(xs);
    } else {
      assert xs[0] == Largest(xs);
    }
  }

  /** refuses tells which lane values the encoder throws for, as too large at the client's scale; it is left open. */
  datatype Client = Client(batchSize: nat, complexPacking: bool, slotCount: nat, refuses: seq<real> -> bool)
  {
    predicate Valid() { batchSize <= slotCount }

    /** Real values carried by one ciphertext. */
    function LaneCount(): nat { if complexPacking then 2 * batchSize else batchSize }

    /** What decode_to_real_vec reads out of a decoded plaintext. */
    function DecodeLanes(plain: Slots): (xs: seq<real>)
      requires Valid() && |plain| == slotCount
      ensures |xs| == LaneCount()
    {
      if complexPacking then Unpack(plain[..batchSize])
      else seq(batchSize, i requires 0 <= i < batchSize => plain[i].re)
    }

    /** What the CKKS encoder makes of a vector of lane values: missing slots are 0. */
    function EncodeLanes(xs: seq<real>): (plain: Slots)
      requires Valid() && |xs| == LaneCount()
      ensures |plain| == slotCount
    {
      PackLength(xs);
      var vals := if complexPacking then Pack(xs) else seq(|xs|, i requires 0 <= i < |xs| => Real(xs[i]));
      vals + seq(slotCount - |vals|, _ => ZERO)
    }

    lemma DecodeEncode(xs: seq<real>)
      requires Valid() && |xs| == LaneCount()
      ensures DecodeLanes(EncodeLanes(xs)) == xs
    {
      PackLength(xs);
      if complexPacking {
        assert EncodeLanes(xs)[..batchSize] == Pack(xs);
        UnpackPack(xs);
      }
    }

    /** Lane l is the real part of slot l, or, packed, the real or imaginary part of slot l / 2. */
    lemma LaneAt(plain: Slots, l: nat)
      requires Valid() && |plain| == slotCount && l < LaneCount()
      ensures DecodeLanes(plain)[l] ==
              if !complexPacking then plain[l].re else if l % 2 == 0 then plain[l / 2].re else plain[l / 2].im
    {
      if complexPacking {
        UnpackAt(plain[..batchSize], l / 2);
        assert l == 2 * (l / 2) + l % 2;
      }
    }

    method DecodeToRealVec(plain: Slots) returns (output: seq<real>)
      requires Valid() && |plain| == slotCount
      ensures output == DecodeLanes(plain)
    {
      if complexPacking {
        output := ComplexVecToRealVec(plain[..batchSize]);
      } else {
        output := seq(batchSize, i requires 0 <= i < batchSize => plain[i].re);
      }
    }

    method EncodeRealVec(xs: seq<real>) returns (plain: Option<Slots>)
      requires Valid() && |xs| == LaneCount()
      ensures plain == if refuses(xs) then None else Some(EncodeLanes(xs))
    {
      if refuses(xs) {
        return None;
      }
      var vals;
      PackLength(xs);
      if complexPacking {
        vals := RealVecToComplexVec(xs);
      } else {
        vals := seq(|xs|, i requires 0 <= i < |xs| => Real(xs[i]));
      }
      plain := Some(vals + seq(slotCount - |vals|, _ => ZERO));
    }

    // ------------------------------------------------------------------ relu

    function ReluReply(f: Activation, ciphers: seq<Slots>): (reply: seq<Slots>)
      requires Valid() && forall i :: 0 <= i < |ciphers| ==> |ciphers[i]| == slotCount
      ensures |reply| == |ciphers|
    {
      seq(|ciphers|, i requires 0 <= i < |ciphers| => EncodeLanes(MapReal(f, DecodeLanes(ciphers[i]))))
    }

    /** The encoder takes the activation of every ciphertext. */
    predicate Encodes(f: Activation, ciphers: seq<Slots>)
      requires Valid() && forall i :: 0 <= i < |ciphers| ==> |ciphers[i]| == slotCount
    {
      forall i :: 0 <= i < |ciphers| ==> !refuses(MapReal(f, DecodeLanes(ciphers[i])))
    }

    /** handle_relu_request: the activation loop; None where the encoder throws. */
    method HandleReluRequest(f: Activation, ciphers: seq<Slots>) returns (reply: Option<seq<Slots>>)
      requires Valid() && forall i :: 0 <= i < |ciphers| ==> |ciphers[i]| == slotCount
      ensures reply == if Encodes(f, ciphers) then Some(ReluReply(f, ciphers)) else None
    {
      var done: seq<Slots> := [];
      for i := 0 to |ciphers|
        invariant done == ReluReply(f, ciphers)[..i]
        invariant forall k :: 0 <= k < i ==> !refuses(MapReal(f, DecodeLanes(ciphers[k])))
      {
        var vals := DecodeToRealVec(ciphers[i]);
        var plain := EncodeRealVec(MapReal(f, vals));
        if plain == None {
          return None;
        }
        done := done + [plain.value];
      }
      assert done == ReluReply(f, ciphers);
      return Some(done);
    }

    /** Scaling the slots scales every lane. */
    lemma ScaledLanes(a: Slots, b: Slots, f: real, lane: nat)
      requires Valid() && |a| == |b| == slotCount && lane < LaneCount()
      requires forall i :: 0 <= i < |a| ==> b[i] == Scale(a[i], f)
      ensures DecodeLanes(b)[lane] == DecodeLanes(a)[lane] * f
    {
      if complexPacking {
        UnpackAt(a[..batchSize], lane / 2);
        UnpackAt(b[..batchSize], lane / 2);
        assert lane == 2 * (lane / 2) || lane == 2 * (lane / 2) + 1;
      }
    }

    /** Decrypting the reply shows the activation applied to every lane of every input. */
    lemma ReluReplyDecodes(f: Activation, ciphers: seq<Slots>, i: nat)
      requires Valid() && i < |ciphers| && forall k :: 0 <= k < |ciphers| ==> |ciphers[k]| == slotCount
      ensures DecodeLanes(ReluReply(f, ciphers)[i]) == MapReal(f, DecodeLanes(ciphers[i]))
      ensures forall l :: 0 <= l < LaneCount() ==> IsActivation(f, DecodeLanes(ciphers[i])[l], DecodeLanes(ReluReply(f, ciphers)[i])[l])
    {
      forall l | 0 <= l < LaneCount() {
        ActivationMeans(f, DecodeLanes(ciphers[i])[l], MapReal(f, DecodeLanes(ciphers[i]))[l]);
      }
      DecodeEncode(MapReal(f, DecodeLanes(ciphers[i])));
    }

    // ------------------------------------------------------------------ maximum

    /** Lane b of every ciphertext of a window. */
    function LaneAcross(ciphers: seq<Slots>, b: nat): (xs: seq<real>)
      requires Valid() && b < LaneCount() && forall i :: 0 <= i < |ciphers| ==> |ciphers[i]| == slotCount
      ensures |xs| == |ciphers|
    {
      seq(|ciphers|, i requires 0 <= i < |ciphers| => DecodeLanes(ciphers[i])[b])
    }

    function LaneMaxima(ciphers: seq<Slots>): (xs: seq<real>)
      requires Valid() && ciphers != [] && forall i :: 0 <= i < |ciphers| ==> |ciphers[i]| == slotCount
      ensures |xs| == LaneCount()
    {
      seq(LaneCount(), b requires 0 <= b < LaneCount() => Largest(LaneAcross(ciphers, b)))
    }

    function MaxReply(ciphers: seq<Slots>): (reply: seq<Slots>)
      requires Valid() && ciphers != [] && forall i :: 0 <= i < |ciphers| ==> |ciphers[i]| == slotCount
      ensures |reply| == 1
    {
      [EncodeLanes(LaneMaxima(ciphers))]
    }

    /** The max_request branch of handle_message; None where the encoder throws. */
    method HandleMaxRequest(ciphers: seq<Slots>) returns (reply: Option<seq<Slots>>)
      requires Valid() && ciphers != [] && forall i :: 0 <= i < |ciphers| ==> |ciphers[i]| == slotCount
      ensures reply == if refuses(LaneMaxima(ciphers)) then None else Some(MaxReply(ciphers))
    {
      var lanes := LaneCount();
      var inputCipherValues := LaneTable(ciphers);
      var maxValues: seq<real> := [];
      for b := 0 to lanes
        invariant maxValues == LaneMaxima(ciphers)[..b]
        invariant forall b', i :: 0 <= b' < lanes && 0 <= i < |ciphers| ==>
                    inputCipherValues[b', i] == LaneAcross(ciphers, b')[i]
      {
        var m := MaxElement(inputCipherValues, b, LaneAcross(ciphers, b));
        maxValues := maxValues + [m];
      }
      assert maxValues == LaneMaxima(ciphers);
      var plain := EncodeRealVec(maxValues);
      return if plain == None then None else Some([plain.value]);
    }

    method LaneTable(ciphers: seq<Slots>) returns (table: array2<real>)
      requires Valid() && forall i :: 0 <= i < |ciphers| ==> |ciphers[i]| == slotCount
      ensures fresh(table) && table.Length0 == LaneCount() && table.Length1 == |ciphers|
      ensures forall b, i :: 0 <= b < LaneCount() && 0 <= i < |ciphers| ==> table[b, i] == LaneAcross(ciphers, b)[i]
    {
      var lanes, count := LaneCount(), |ciphers|;
      table := new real[lanes, count]((b, i) => 0.0);
      for i := 0 to count
        invariant forall b, c :: 0 <= b < lanes && 0 <= c < i ==> table[b, c] == LaneAcross(ciphers, b)[c]
      {
        var preMax := DecodeToRealVec(ciphers[i]);
        for b := 0 to lanes
          invariant forall b', c :: 0 <= b' < lanes && 0 <= c < i ==> table[b', c] == LaneAcross(ciphers, b')[c]
          invariant forall b' :: 0 <= b' < b ==> table[b', i] == preMax[b']
        {
          table[b, i] := preMax[b];
        }
      }
    }

    // ------------------------------------------------------------- whole messages

    /** The slots of loaded ciphertexts; loading rejects one that is not of the client's parameters. */
    function SlotsOf(bodies: seq<Body>): (r: Option<seq<Slots>>)
      ensures r.Some? ==> |r.value| == |bodies| && forall i :: 0 <= i < |bodies| ==> |r.value[i]| == slotCount && r.value[i] == bodies[i].slots
    {
      if exists i :: 0 <= i < |bodies| && |bodies[i].slots| != slotCount then None
      else Some(seq(|bodies|, i requires 0 <= i < |bodies| => bodies[i].slots))
    }

    /** The ciphertexts of a request, or None where reading them throws. */
    function Loaded(format: Format, m: Message): (r: Option<seq<Slots>>)
      ensures r.Some? ==> r.value != [] && forall i :: 0 <= i < |r.value| ==> |r.value[i]| == slotCount
    {
      match ReadBodies(format, m)
      case None => None
      case Some(bodies) => SlotsOf(bodies)
    }

    /** Which activation a request asks for. */
    function Requested(kind: nat): Option<Activation>
    {
      if kind == RELU_REQUEST then Some(Relu) else if kind == RELU6_REQUEST then Some(Relu6) else None
    }

    /** What handle_message replies to a request; None where it throws or does not reply. */
    function Answer(format: Format, m: Message): (r: Option<seq<Slots>>)
    {
      match Loaded(format, m)
      case None => None
      case Some(ciphers) =>
        if !Valid() then None
        else if Requested(m.kind).Some? then
          var f := Requested(m.kind).value;
          if Encodes(f, ciphers) then Sent(format, ReluReply(f, ciphers)) else None
        else if m.kind == MAX_REQUEST && !refuses(LaneMaxima(ciphers)) then Sent(format, MaxReply(ciphers))
        else None
    }

    /** A reply of fresh ciphertexts, if it fits a message. */
    function Sent(format: Format, reply: seq<Slots>): Option<seq<Slots>>
    {
      if format.Fits(|reply|, format.topChain) then Some(reply) else None
    }

    /** The loop that cuts a request's data and loads the pieces. */
    method LoadCiphers(format: Format, m: Message) returns (r: Option<seq<Slots>>)
      ensures r == Loaded(format, m)
    {
      if m.count == 0 || |m.data| % m.count != 0 {
        return None;
      }
      var elementSize := |m.data| / m.count;
      var ciphers: seq<Slots> := [];
      ghost var pieces := Cut(m.data, m.count);
      for i := 0 to m.count
        invariant |ciphers| == i
        invariant forall k :: 0 <= k < i ==> format.load(pieces[k]).Some? && ciphers[k] == format.load(pieces[k]).value.slots && |ciphers[k]| == slotCount
      {
        var cipher := format.load(PieceAt(m.data, elementSize, i));
        assert pieces[i] == PieceAt(m.data, elementSize, i);
        if cipher == None {
          return None;
        }
        if |cipher.value.slots| != slotCount {
          if LoadAll(format, pieces).Some? {
            assert |LoadAll(format, pieces).value[i].slots| != slotCount;
          }
          return None;
        }
        ciphers := ciphers + [cipher.value.slots];
      }
      assert LoadAll(format, pieces).Some? && ciphers == SlotsOf(LoadAll(format, pieces).value).value;
      return Some(ciphers);
    }

    /** The branches of handle_message for Relu and MaxPool requests. */
    method HandleMessage(format: Format, m: Message) returns (reply: Option<seq<Slots>>)
      requires Valid()
      ensures reply == Answer(format, m)
    {
      var loaded := LoadCiphers(format, m);
      if loaded == None {
        return None;
      }
      var ciphers;
      if m.kind == RELU_REQUEST || m.kind == RELU6_REQUEST {
        ciphers := HandleReluRequest(if m.kind == RELU6_REQUEST then Relu6 else Relu, loaded.value);
      } else if m.kind == MAX_REQUEST {
        ciphers := HandleMaxRequest(loaded.value);
      } else {
        return None;
      }
      return if ciphers == None then None else Sent(format, ciphers.value);
    }
  }

  /** std::max_element over one row. */
  method MaxElement(table: array2<real>, b: nat, ghost row: seq<real>) returns (m: real)
    requires b < table.Length0 && table.Length1 == |row| > 0
    requires forall i :: 0 <= i < |row| ==> table[b, i] == row[i]
    ensures m == Largest(row)
  {
    m := table[b, 0];
    for c := 1 to table.Length1
      invariant m == Largest(row[..c])
    {
      assert row[..c + 1][..c] == row[..c];
      if m < table[b, c] { m := table[b, c]; }
    }
    assert row[..|row|] == row;
  }
}
