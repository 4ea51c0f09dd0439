/**
 * Messages that carry saved ciphertexts: how the constructors of
 * src/tcp/tcp_message.hpp fill them and how their readers cut the data into
 * equal pieces and load those (src/seal/he_seal_client.cpp).
 */
module CipherMessages {
  import opened Outcomes
  import opened Arithmetic
  import opened SealCiphertext
  import opened TcpMessage

  /** What saving a ciphertext writes: everything but the wrapper's flags. */
  datatype Body = Body(chain: nat, scale: real, slots: Slots)

  function BodyOf(v: View): Body
  {
    Body(v.chain, v.scale, v.slots)
  }

  /** SEAL's save and load. A saved ciphertext has a fixed part and a part for every prime of its level. */
  datatype Format = Format(save: Body -> seq<Byte>, load: seq<Byte> -> Option<Body>, header: nat, perPrime: nat, topChain: nat)
  {
    function SavedSize(chain: nat): nat
    {
      header + perPrime * (chain + 1)
    }

    /** Saving this ciphertext takes the room its level calls for, and loading gives it back. */
    predicate Carries(x: Body)
    {
      perPrime > 0 && |save(x)| == SavedSize(x.chain) && load(save(x)) == Some(x)
    }

    /** A message has room for this many ciphertexts of a level. */
    predicate Fits(count: nat, chain: nat)
    {
      PREFIX_LENGTH + count * SavedSize(chain) <= MAX_BODY_LENGTH
    }

    lemma SizeTellsLevel(chain1: nat, chain2: nat)
      requires perPrime > 0
      ensures SavedSize(chain1) == SavedSize(chain2) <==> chain1 == chain2
    {
      if chain1 < chain2 {
        MulMono(chain1 + 2, chain2 + 1, perPrime);
      } else if chain2 < chain1 {
        MulMono(chain2 + 2, chain1 + 1, perPrime);
      }
    }
  }

  // --------------------------------------------------------- joining and cutting

  function Joined(pieces: seq<seq<Byte>>): seq<Byte>
  {
    if pieces == [] then [] else Joined(pieces[..|pieces| - 1]) + pieces[|pieces| - 1]
  }

  predicate SameSizes(pieces: seq<seq<Byte>>)
  {
    forall i :: 0 <= i < |pieces| ==> |pieces[i]| == |pieces[0]|
  }

  /** Equal pieces, of data_size / count bytes each. */
  function Cut(data: seq<Byte>, count: nat): (pieces: seq<seq<Byte>>)
    requires count > 0
    ensures |pieces| == count
  {
    seq(count, i requires 0 <= i < count => PieceAt(data, |data| / count, i))
  }

  function PieceAt(data: seq<Byte>, size: nat, i: nat): seq<Byte>
  {
    if (i + 1) * size <= |data| then data[i * size..(i + 1) * size] else []
  }

  lemma {:induction false} JoinedSize(pieces: seq<seq<Byte>>, size: nat)
    requires forall i :: 0 <= i < |pieces| ==> |pieces[i]| == size
    ensures |Joined(pieces)| == |pieces| * size
  {
    if pieces == [] {
      assert |pieces| * size == 0;
    } else {
      JoinedSize(pieces[..|pieces| - 1], size);
      assert |pieces| * size == (|pieces| - 1) * size + size;
    }
  }

  /** Where a piece sits among the others. */
  lemma {:induction false} JoinedHolds(pieces: seq<seq<Byte>>, i: nat)
    requires i < |pieces|
    ensures var from, to := |Joined(pieces[..i])|, |Joined(pieces[..i + 1])|;
            from <= to <= |Joined(pieces)| && Joined(pieces)[from..to] == pieces[i]
  {
    var front := pieces[..|pieces| - 1];
    assert pieces[..i + 1][..i] == pieces[..i];
    if i == |pieces| - 1 {
      assert pieces[..i + 1] == pieces;
    } else {
      JoinedHolds(front, i);
      assert front[..i] == pieces[..i] && front[..i + 1] == pieces[..i + 1];
    }
  }

  lemma JoinedAt(pieces: seq<seq<Byte>>, size: nat, i: nat)
    requires i < |pieces| && forall k :: 0 <= k < |pieces| ==> |pieces[k]| == size
    ensures PieceAt(Joined(pieces), size, i) == pieces[i]
  {
    JoinedSize(pieces[..i], size);
    JoinedSize(pieces[..i + 1], size);
    JoinedHolds(pieces, i);
  }

  lemma PieceSize(data: seq<Byte>, count: nat, size: nat, i: nat)
    requires i < count && |data| == count * size
    ensures |PieceAt(data, size, i)| == size
  {
    MulMono(i + 1, count, size);
    assert (i + 1) * size == i * size + size;
  }

  /** Cutting gives the pieces back exactly when they all have one size. */
  lemma CutRecoversIff(pieces: seq<seq<Byte>>)
    requires pieces != []
    ensures |Joined(pieces)| % |pieces| == 0 && Cut(Joined(pieces), |pieces|) == pieces <==> SameSizes(pieces)
  {
    if SameSizes(pieces) {
      SameSizesAreCut(pieces, |pieces[0]|);
    }
    if |Joined(pieces)| % |pieces| == 0 && Cut(Joined(pieces), |pieces|) == pieces {
      CutsHaveOneSize(Joined(pieces), |pieces|);
    }
  }

  lemma CutsHaveOneSize(data: seq<Byte>, count: nat)
    requires count > 0 && |data| % count == 0
    ensures forall i :: 0 <= i < count ==> |Cut(data, count)[i]| == |data| / count
  {
    var size := |data| / count;
    assert |data| == count * size;
    forall i | 0 <= i < count ensures |Cut(data, count)[i]| == size {
      PieceSize(data, count, size, i);
    }
  }

  lemma SameSizesAreCut(pieces: seq<seq<Byte>>, size: nat)
    requires pieces != [] && forall i :: 0 <= i < |pieces| ==> |pieces[i]| == size
    ensures |Joined(pieces)| % |pieces| == 0 && Cut(Joined(pieces), |pieces|) == pieces
  {
    JoinedSize(pieces, size);
    var data, count := Joined(pieces), |pieces|;
    assert |data| / count == size && |data| % count == 0 by {
      assert count * size == size * count;
      DivModUnique(|data|, count, size, 0);
    }
    forall i | 0 <= i < count ensures Cut(data, count)[i] == pieces[i] {
      JoinedAt(pieces, size, i);
    }
  }

  // ------------------------------------------------------------------- messages

  function Saves(format: Format, bodies: seq<Body>): (pieces: seq<seq<Byte>>)
    ensures |pieces| == |bodies| && forall i :: 0 <= i < |bodies| ==> pieces[i] == format.save(bodies[i])
  {
    seq(|bodies|, i requires 0 <= i < |bodies| => format.save(bodies[i]))
  }

  /** The constructor from a stream into which ciphertexts were saved one after another; None where it throws. */
  function StreamMessage(kind: nat, pieces: seq<seq<Byte>>): Option<Message>
    requires kind < TYPE_LIMIT
  {
    if ArgumentsOk(|pieces|, |Joined(pieces)|) then Some(Message(kind, |pieces|, Joined(pieces))) else None
  }

  /** The constructor from a vector of ciphertexts, which expects every one to be as long as the first. */
  function VectorMessage(kind: nat, pieces: seq<seq<Byte>>): Option<Message>
    requires kind < TYPE_LIMIT && pieces != []
  {
    if !ArgumentsOk(|pieces|, |pieces| * |pieces[0]|) || !SameSizes(pieces) then None
    else Some(Message(kind, |pieces|, Joined(pieces)))
  }

  /** What a reader of a message's elements loads; None where element_size or load throws. */
  function ReadBodies(format: Format, m: Message): Option<seq<Body>>
  {
    if m.count == 0 || |m.data| % m.count != 0 then None
    else LoadAll(format, Cut(m.data, m.count))
  }

  function LoadAll(format: Format, pieces: seq<seq<Byte>>): Option<seq<Body>>
  {
    if exists i :: 0 <= i < |pieces| && format.load(pieces[i]) == None then None
    else Some(seq(|pieces|, i requires 0 <= i < |pieces| => format.load(pieces[i]).value))
  }

  ghost predicate AllCarried(format: Format, bodies: seq<Body>)
  {
    forall i :: 0 <= i < |bodies| ==> format.Carries(bodies[i])
  }

  predicate OneLevel(bodies: seq<Body>)
  {
    forall i :: 0 <= i < |bodies| ==> bodies[i].chain == bodies[0].chain
  }

  lemma SavedSizes(format: Format, bodies: seq<Body>)
    requires AllCarried(format, bodies) && bodies != []
    ensures SameSizes(Saves(format, bodies)) <==> OneLevel(bodies)
    ensures OneLevel(bodies) ==> |Joined(Saves(format, bodies))| == |bodies| * format.SavedSize(bodies[0].chain)
  {
    var pieces := Saves(format, bodies);
    forall i | 0 <= i < |bodies| ensures |pieces[i]| == |pieces[0]| <==> bodies[i].chain == bodies[0].chain {
      format.SizeTellsLevel(bodies[i].chain, bodies[0].chain);
    }
    if OneLevel(bodies) {
      JoinedSize(pieces, |pieces[0]|);
    }
  }

  /** Ciphertexts of one level are read back as they were; the reader cuts others in the wrong places. */
  lemma ReadBack(format: Format, kind: nat, bodies: seq<Body>)
    requires AllCarried(format, bodies) && bodies != []
    ensures var pieces := Saves(format, bodies);
            var cutRight := |Joined(pieces)| % |pieces| == 0 && Cut(Joined(pieces), |pieces|) == pieces;
            && (cutRight <==> OneLevel(bodies))
            && (OneLevel(bodies) ==> ReadBodies(format, Message(kind, |bodies|, Joined(pieces))) == Some(bodies))
  {
    var pieces := Saves(format, bodies);
    SavedSizes(format, bodies);
    CutRecoversIff(pieces);
    if OneLevel(bodies) {
      assert LoadAll(format, pieces).value == bodies;
    }
  }

  lemma LengthBounds(count: nat, size: nat)
    requires count > 0 && size > 0
    ensures (size * count) % count == 0 && (count * size) % count == 0 && count <= count * size
  {
    DivModUnique(size * count, count, size, 0);
    assert count * size == size * count;
    MulAtLeast(size, count);
  }

  /** A vector of ciphertexts makes a message exactly when they have one level and fit; it is then read back. */
  lemma VectorMessageIff(format: Format, kind: nat, bodies: seq<Body>)
    requires kind < TYPE_LIMIT && AllCarried(format, bodies) && bodies != []
    ensures var m := VectorMessage(kind, Saves(format, bodies));
            && (m.Some? <==> OneLevel(bodies) && format.Fits(|bodies|, bodies[0].chain))
            && (m.Some? ==> m.value.Legal() && ReadBodies(format, m.value) == Some(bodies))
  {
    var pieces := Saves(format, bodies);
    SavedSizes(format, bodies);
    LengthBounds(|bodies|, format.SavedSize(bodies[0].chain));
    if OneLevel(bodies) {
      ReadBack(format, kind, bodies);
    }
  }

  /** So does a stream of ciphertexts of one level. */
  lemma StreamMessageIff(format: Format, kind: nat, bodies: seq<Body>)
    requires kind < TYPE_LIMIT && AllCarried(format, bodies) && bodies != [] && OneLevel(bodies)
    ensures var m := StreamMessage(kind, Saves(format, bodies));
            && (m.Some? <==> format.Fits(|bodies|, bodies[0].chain))
            && (m.Some? ==> m.value.Legal() && ReadBodies(format, m.value) == Some(bodies))
  {
    SavedSizes(format, bodies);
    LengthBounds(|bodies|, format.SavedSize(bodies[0].chain));
    ReadBack(format, kind, bodies);
  }

  /** Where piece i starts. */
  function OffsetOf(i: nat, size: nat): nat
  {
    i * size
  }

  lemma NextOffset(i: nat, count: nat, size: nat)
    requires i < count
    ensures OffsetOf(i + 1, size) == OffsetOf(i, size) + size <= OffsetOf(count, size)
  {
    MulMono(i + 1, count, size);
  }

  lemma JoinedNone(pieces: seq<seq<Byte>>)
    ensures Joined(pieces[..0]) == []
  {}

  lemma JoinedNext(pieces: seq<seq<Byte>>, i: nat)
    requires i < |pieces|
    ensures Joined(pieces[..i + 1]) == Joined(pieces[..i]) + pieces[i]
  {
    assert pieces[..i + 1][..i] == pieces[..i];
  }

  /** The loop of that constructor: each ciphertext goes to its own offset, once its size has been checked. */
  method CopyPieces(ciphers: seq<Body>, format: Format, size: nat, ghost pieces: seq<seq<Byte>>) returns (r: Option<seq<Byte>>)
    requires pieces == Saves(format, ciphers)
    ensures r == if forall i :: 0 <= i < |pieces| ==> |pieces[i]| == size then Some(Joined(pieces)) else None
  {
    JoinedNone(pieces);
    assert OffsetOf(0, size) == 0;
    hide Joined, OffsetOf;
    var length := OffsetOf(|ciphers|, size);
    var data := new Byte[length];
    var offset: nat := 0;
    for i := 0 to |ciphers|
      invariant forall k :: 0 <= k < i ==> |pieces[k]| == size
      invariant offset == OffsetOf(i, size) <= length && data[..offset] == Joined(pieces[..i])
    {
      var cipher := format.save(ciphers[i]);
      assert cipher == pieces[i];
      if |cipher| != size {
        return None;
      }
      NextOffset(i, |ciphers|, size);
      JoinedNext(pieces, i);
      CopyInto(data, offset, cipher);
      offset := offset + size;
    }
    assert pieces[..|ciphers|] == pieces && data[..] == data[..length];
    return Some(data[..]);
  }

  /** The constructor from a vector of ciphertexts. */
  method FromCiphers(kind: nat, ciphers: seq<Body>, format: Format) returns (r: Option<Message>)
    requires kind < TYPE_LIMIT && ciphers != []
    ensures r == VectorMessage(kind, Saves(format, ciphers))
  {
    var firstCipherSize := |format.save(ciphers[0])|;
    if !ArgumentsOk(|ciphers|, |ciphers| * firstCipherSize) {
      return None;
    }
    var data := CopyPieces(ciphers, format, firstCipherSize, Saves(format, ciphers));
    return if data == None then None else Some(Message(kind, |ciphers|, data.value));
  }
}
