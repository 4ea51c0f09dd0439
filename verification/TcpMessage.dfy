/**
 * Framing of messages on the wire (src/tcp/tcp_message.hpp): a 15 byte decimal
 * header giving the body length, a 4 byte type, an 8 byte count and the data.
 */
module TcpMessage {
  import opened Arithmetic

  type Byte = b: nat | b < 256

  const HEADER_LENGTH: nat := 15
  const TYPE_LENGTH: nat := 4
  const COUNT_LENGTH: nat := 8
  const PREFIX_LENGTH: nat := 12
  const MAX_BODY_LENGTH: nat := 14000000000
  const SIZE_LIMIT: nat := 0x1_0000_0000_0000_0000

  const TYPE_LIMIT: nat := 0x1_0000_0000

  // ------------------------------------------------------- little-endian words

  function LittleEndian(n: nat, length: nat): (bytes: seq<Byte>)
    ensures |bytes| == length
  {
    if length == 0 then [] else [n % 256] + LittleEndian(n / 256, length - 1)
  }

  function FromLittleEndian(bytes: seq<Byte>): nat
  {
    if bytes == [] then 0 else bytes[0] + 256 * FromLittleEndian(bytes[1..])
  }

  lemma {:induction false} LittleEndianRoundTrip(n: nat, length: nat)
    requires n < Pow(256, length)
    ensures FromLittleEndian(LittleEndian(n, length)) == n
  {
    if length == 0 {
    } else {
      assert n == n / 256 * 256 + n % 256;
      LittleEndianRoundTrip(n / 256, length - 1);
      assert LittleEndian(n, length)[1..] == LittleEndian(n / 256, length - 1);
    }
  }

  lemma WordSizes()
    ensures Pow(256, 4) == TYPE_LIMIT && Pow(256, 8) == SIZE_LIMIT
  {
    assert Pow(256, 2) == 65536;
    PowAdd(256, 2, 2);
    PowAdd(256, 4, 4);
  }

  // ------------------------------------------------------------ decimal header

  function Digit(d: nat): (b: Byte)
    requires d < 10
  {
    48 + d
  }

  predicate IsDigit(b: Byte)
  {
    48 <= b < 58
  }

  /** snprintf("%zu", n) */
  function Decimal(n: nat): (s: seq<Byte>)
    ensures |s| > 0 && forall i :: 0 <= i < |s| ==> IsDigit(s[i])
  {
    if n < 10 then [Digit(n)] else Decimal(n / 10) + [Digit(n % 10)]
  }

  /** The number read from the longest run of digits at the front, continuing from acc; 0 where there is none. */
  function ParseFrom(s: seq<Byte>, acc: nat): nat
  {
    if s == [] || !IsDigit(s[0]) then acc else ParseFrom(s[1..], 10 * acc + (s[0] - 48))
  }

  lemma {:induction false} DecimalLength(n: nat, k: nat)
    requires k > 0 && n < Pow(10, k)
    ensures |Decimal(n)| <= k
  {
    if n < 10 {
    } else {
      assert Pow(10, 1) == 10;
      DecimalLength(n / 10, k - 1);
    }
  }

  lemma {:induction false} ParseDecimal(n: nat, rest: seq<Byte>, acc: nat)
    requires acc == 0
    ensures ParseFrom(Decimal(n) + rest, acc) == ParseFrom(rest, n)
  {
    if n < 10 {
      assert (Decimal(n) + rest)[1..] == rest;
    } else {
      var tail := [Digit(n % 10)] + rest;
      assert Decimal(n) + rest == Decimal(n / 10) + tail;
      ParseDecimal(n / 10, tail, acc);
      assert tail[1..] == rest;
    }
  }

  function Zeros(n: nat): (s: seq<Byte>)
    ensures |s| == n && forall i :: 0 <= i < n ==> s[i] == 0
  {
    seq(n, _ => 0)
  }

  lemma HeaderFits(bodyLength: nat)
    requires bodyLength <= MAX_BODY_LENGTH
    ensures |Decimal(bodyLength)| <= 11
  {
    assert Pow(10, 3) == 1000;
    PowAdd(10, 3, 3);
    PowAdd(10, 6, 5);
    assert Pow(10, 5) == 100000 by { PowAdd(10, 3, 2); assert Pow(10, 2) == 100; }
    DecimalLength(bodyLength, 11);
  }

  /** encode_header: the digits followed by NUL bytes. */
  function Header(bodyLength: nat): (h: seq<Byte>)
    requires bodyLength <= MAX_BODY_LENGTH
    ensures |h| == HEADER_LENGTH
  {
    HeaderFits(bodyLength);
    Decimal(bodyLength) + Zeros(HEADER_LENGTH - |Decimal(bodyLength)|)
  }

  /** Printing and parsing the body length undo each other for every legal length. */
  lemma HeaderRoundTrip(bodyLength: nat)
    requires bodyLength <= MAX_BODY_LENGTH
    ensures ParseFrom(Header(bodyLength), 0) == bodyLength
  {
    HeaderFits(bodyLength);
    ParseDecimal(bodyLength, Zeros(HEADER_LENGTH - |Decimal(bodyLength)|), 0);
  }

  /** Digit k of a number to a base, counted from the lowest. */
  function DigitOf(n: nat, base: nat, k: nat): nat
    requires base > 0
  {
    PowPositive(base, k);
    n / Pow(base, k) % base
  }

  lemma LowestDigit(n: nat, base: nat)
    requires base > 0
    ensures DigitOf(n, base, 0) == n % base
  {
    assert Pow(base, 0) == 1;
    DivModUnique(n, 1, n, 0);
  }

  lemma NextDigit(n: nat, base: nat, k: nat)
    requires base > 0
    ensures DigitOf(n / base, base, k) == DigitOf(n, base, k + 1)
  {
    PowPositive(base, k);
    QuotientOfQuotient(n, base, Pow(base, k));
  }

  lemma QuotientOfQuotient(n: nat, base: nat, p: nat)
    requires base > 0 && p > 0
    ensures base * p > 0 && n / base / p == n / (base * p)
  {
    var a, r := n / base, n % base;
    var k, m := a / p, a % p;
    MulPositive(base, p);
    assert a == k * p + m && n == a * base + r;
    assert n == k * (base * p) + (m * base + r) by {
      assert (k * p + m) * base == k * (base * p) + m * base;
    }
    MulMono(m + 1, p, base);
    assert (m + 1) * base == m * base + base && p * base == base * p;
    DivModUnique(n, base * p, k, m * base + r);
  }

  /** The decimal digits, most significant first. */
  lemma {:induction false} DecimalDigits(n: nat, i: nat)
    requires i < |Decimal(n)|
    ensures Decimal(n)[i] == 48 + DigitOf(n, 10, |Decimal(n)| - 1 - i)
    decreases n
  {
    hide DigitOf;
    var last := |Decimal(n)| - 1;
    LowestDigit(n, 10);
    if i < last {
      DecimalDigits(n / 10, i);
      NextDigit(n, 10, last - 1 - i);
    }
  }

  /** Byte i of a field is its digit i to the base 256. */
  lemma {:induction false} LittleEndianDigits(n: nat, length: nat, i: nat)
    requires i < length
    ensures LittleEndian(n, length)[i] == DigitOf(n, 256, i)
  {
    hide DigitOf;
    if i == 0 {
      LowestDigit(n, 256);
    } else {
      LittleEndianDigits(n / 256, length - 1, i - 1);
      NextDigit(n, 256, i - 1);
    }
  }

  // ----------------------------------------------------------------- messages

  /** check_arguments, together with the width of size_t. */
  predicate ArgumentsOk(count: nat, dataSize: nat)
  {
    && count < SIZE_LIMIT
    && (count != 0 ==> dataSize % count == 0)
    && PREFIX_LENGTH + dataSize <= MAX_BODY_LENGTH
  }

  /** kind is the enumerator's number; the reader copies whatever four bytes it finds. */
  datatype Message = Message(kind: nat, count: nat, data: seq<Byte>)
  {
    function BodyLength(): nat { PREFIX_LENGTH + |data| }

    predicate Legal()
    {
      kind < TYPE_LIMIT && ArgumentsOk(count, |data|)
    }

    /** The bytes from header_ptr() to header_ptr() + num_bytes(). */
    function Bytes(): (b: seq<Byte>)
      requires Legal()
      ensures |b| == HEADER_LENGTH + BodyLength()
    {
      Header(BodyLength()) + LittleEndian(kind, TYPE_LENGTH) + LittleEndian(count, COUNT_LENGTH) + data
    }
  }

  /**
   * Every byte of a message on the wire: the body length in decimal, NUL bytes up
   * to 15, the type in 4 and the count in 8 bytes, low byte first, and the data.
   */
  lemma WireLayout(m: Message, i: nat)
    requires m.Legal() && i < |m.Bytes()|
    ensures var digits := |Decimal(12 + |m.data|)|;
            && 2 <= digits <= 11
            && m.Bytes()[i] ==
               if i < digits then 48 + DigitOf(12 + |m.data|, 10, digits - 1 - i)
               else if i < 15 then 0
               else if i < 19 then DigitOf(m.kind, 256, i - 15)
               else if i < 27 then DigitOf(m.count, 256, i - 19)
               else m.data[i - 27]
  {
    hide DigitOf, LittleEndian;
    var n := m.BodyLength();
    HeaderFits(n);
    assert |Decimal(n)| == |Decimal(n / 10)| + 1;
    if i < |Decimal(n)| {
      DecimalDigits(n, i);
    } else if 15 <= i < 19 {
      LittleEndianDigits(m.kind, TYPE_LENGTH, i - 15);
    } else if 19 <= i < 27 {
      LittleEndianDigits(m.count, COUNT_LENGTH, i - 19);
    }
  }

  predicate AllLegal(ms: seq<Message>)
  {
    forall i :: 0 <= i < |ms| ==> ms[i].Legal()
  }

  function BytesOf(ms: seq<Message>): seq<Byte>
    requires AllLegal(ms)
  {
    if ms == [] then [] else ms[0].Bytes() + BytesOf(ms[1..])
  }

  lemma {:induction false} BytesOfAppend(ms: seq<Message>, more: seq<Message>)
    requires AllLegal(ms) && AllLegal(more)
    ensures AllLegal(ms + more)
    ensures BytesOf(ms + more) == BytesOf(ms) + BytesOf(more)
  {
    if ms == [] {
      assert ms + more == more;
    } else {
      var m, tail := ms[0], ms[1..];
      BytesOfAppend(tail, more);
      assert ms == [m] + tail && ms + more == [m] + (tail + more);
      calc {
        BytesOf(ms + more);
        { BytesOfCons(m, tail + more); }
        m.Bytes() + BytesOf(tail + more);
        m.Bytes() + (BytesOf(tail) + BytesOf(more));
        (m.Bytes() + BytesOf(tail)) + BytesOf(more);
        { BytesOfCons(m, tail); }
        BytesOf(ms) + BytesOf(more);
      }
    }
  }

  lemma BytesOfCons(m: Message, ms: seq<Message>)
    requires m.Legal() && AllLegal(ms)
    ensures AllLegal([m] + ms)
    ensures BytesOf([m] + ms) == m.Bytes() + BytesOf(ms)
  {
    assert ([m] + ms)[1..] == ms;
  }

  /** A buffer filled the way the constructor fills it. */
  class TcpBuffer {
    const kind: nat
    const count: nat
    const dataSize: nat
    const data: array<Byte>

    constructor (message: Message)
      requires message.Legal()
      ensures fresh(data) && data[..] == message.Bytes()
      ensures kind == message.kind && count == message.count && dataSize == |message.data|
    {
      kind, count, dataSize := message.kind, message.count, |message.data|;
      var buffer := new Byte[HEADER_LENGTH + message.BodyLength()];
      data := buffer;
      new;
      CopyInto(data, 0, Header(message.BodyLength()));
      assert data[..HEADER_LENGTH] == Header(message.BodyLength());
      CopyInto(data, HEADER_LENGTH, LittleEndian(message.kind, TYPE_LENGTH));
      CopyInto(data, HEADER_LENGTH + TYPE_LENGTH, LittleEndian(message.count, COUNT_LENGTH));
      CopyInto(data, HEADER_LENGTH + PREFIX_LENGTH, message.data);
      assert data[..] == data[..data.Length] == message.Bytes();
    }
  }

  /** memcpy of a value into a buffer. */
  method CopyInto(target: array<Byte>, at: nat, source: seq<Byte>)
    requires at + |source| <= target.Length
    modifies target
    ensures target[..at + |source|] == old(target[..at]) + source
  {
    for i := 0 to |source|
      invariant target[..at + i] == old(target[..at]) + source[..i]
    {
      target[at + i] := source[i];
    }
  }

  // ------------------------------------------------------------------ reading

  /** One header and body at the front of a byte stream, as decode_header and decode_body see them. */
  datatype Frame = NeedMore | TooLarge | Malformed | Complete(message: Message, length: nat)

  function NextFrame(stream: seq<Byte>): (f: Frame)
    ensures f.Complete? ==> HEADER_LENGTH + PREFIX_LENGTH <= f.length <= |stream|
  {
    if |stream| < HEADER_LENGTH then NeedMore
    else
      var bodyLength := ParseFrom(stream[..HEADER_LENGTH], 0);
      if bodyLength > MAX_BODY_LENGTH then TooLarge
      else if bodyLength < PREFIX_LENGTH then Malformed
      else if |stream| < HEADER_LENGTH + bodyLength then NeedMore
      else
        var body := stream[HEADER_LENGTH..HEADER_LENGTH + bodyLength];
        Complete(Message(FromLittleEndian(body[..TYPE_LENGTH]), FromLittleEndian(body[TYPE_LENGTH..PREFIX_LENGTH]),
                         body[PREFIX_LENGTH..]),
                 HEADER_LENGTH + bodyLength)
  }

  /** A frame depends only on its own bytes. */
  lemma FrameIsLocal(stream: seq<Byte>, more: seq<Byte>)
    requires !NextFrame(stream).NeedMore?
    ensures NextFrame(stream + more) == NextFrame(stream)
  {
    var whole := stream + more;
    assert whole[..HEADER_LENGTH] == stream[..HEADER_LENGTH];
    var bodyLength := ParseFrom(stream[..HEADER_LENGTH], 0);
    if PREFIX_LENGTH <= bodyLength <= MAX_BODY_LENGTH {
      assert whole[HEADER_LENGTH..HEADER_LENGTH + bodyLength] == stream[HEADER_LENGTH..HEADER_LENGTH + bodyLength];
    }
  }

  /** Reading back one encoded message. */
  lemma FrameRoundTrip(m: Message, rest: seq<Byte>)
    requires m.Legal()
    ensures NextFrame(m.Bytes() + rest) == Complete(m, |m.Bytes()|)
  {
    var stream := m.Bytes() + rest;
    HeaderRoundTrip(m.BodyLength());
    assert stream[..HEADER_LENGTH] == Header(m.BodyLength());
    var body := stream[HEADER_LENGTH..HEADER_LENGTH + m.BodyLength()];
    assert body == LittleEndian(m.kind, TYPE_LENGTH) + LittleEndian(m.count, COUNT_LENGTH) + m.data;
    assert body[..TYPE_LENGTH] == LittleEndian(m.kind, TYPE_LENGTH);
    assert body[TYPE_LENGTH..PREFIX_LENGTH] == LittleEndian(m.count, COUNT_LENGTH);
    assert body[PREFIX_LENGTH..] == m.data;
    WordSizes();
    LittleEndianRoundTrip(m.kind, TYPE_LENGTH);
    LittleEndianRoundTrip(m.count, COUNT_LENGTH);
  }

  /** A strict prefix of an encoded message never looks like anything but an incomplete one. */
  lemma PartialFrame(m: Message, k: nat)
    requires m.Legal() && k < |m.Bytes()|
    ensures NextFrame(m.Bytes()[..k]) == NeedMore
  {
    if k >= HEADER_LENGTH {
      HeaderRoundTrip(m.BodyLength());
      assert m.Bytes()[..k][..HEADER_LENGTH] == Header(m.BodyLength());
    }
  }
}
