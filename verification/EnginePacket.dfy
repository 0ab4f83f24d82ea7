/** Engine.IO packets and payloads: engineio/src/packet.rs. */
module EnginePacket {
  import opened Wrappers
  import opened Bytes
  import Base64

  const SEPARATOR: byte := 0x1E
  const BINARY_PREFIX: byte := 0x62

  datatype PacketType = Open | Close | Ping | Pong | Message | MessageBinary | Upgrade | Noop

  datatype Packet = Packet(ptype: PacketType, data: bytes)

  datatype Error = InvalidPacketType(b: byte) | IncompletePacket | InvalidBase64

  /** The number of a packet type; a binary message counts as a message. */
  function TypeNumber(t: PacketType): byte {
    match t
    case Open => 0
    case Close => 1
    case Ping => 2
    case Pong => 3
    case Message => 4
    case MessageBinary => 4
    case Upgrade => 5
    case Noop => 6
  }

  /** A packet type read from its raw number or from the digit printed for it. */
  function TypeOfByte(b: byte): Result<PacketType, Error> {
    if b == 0 || b == 0x30 then Ok(Open)
    else if b == 1 || b == 0x31 then Ok(Close)
    else if b == 2 || b == 0x32 then Ok(Ping)
    else if b == 3 || b == 0x33 then Ok(Pong)
    else if b == 4 || b == 0x34 then Ok(Message)
    else if b == 5 || b == 0x35 then Ok(Upgrade)
    else if b == 6 || b == 0x36 then Ok(Noop)
    else Err(InvalidPacketType(b))
  }

  function PacketBytes(p: Packet): bytes {
    if p.ptype.MessageBinary? then [BINARY_PREFIX] + Base64.Encode(p.data)
    else [0x30 + TypeNumber(p.ptype)] + p.data
  }

  function PacketOf(b: bytes): Result<Packet, Error> {
    if b == [] then
      Err(IncompletePacket)
    else if b[0] == BINARY_PREFIX then
      match Base64.Decode(b[1..])
      case Some(data) => Ok(Packet(MessageBinary, data))
      case None => Err(InvalidBase64)
    else
      var t :- TypeOfByte(b[0]);
      if |b| == 1 && t.Message? then Err(IncompletePacket) else Ok(Packet(t, b[1..]))
  }

  lemma TypeRoundTrip(t: PacketType)
    requires !t.MessageBinary?
    ensures TypeOfByte(0x30 + TypeNumber(t)) == Ok(t) && TypeOfByte(TypeNumber(t)) == Ok(t)
    ensures 0x30 + TypeNumber(t) != BINARY_PREFIX && 0x30 + TypeNumber(t) != SEPARATOR && 0x30 + TypeNumber(t) < 0x80
  {
  }

  /** A packet survives encoding and decoding unless it is a text message without data. */
  lemma PacketRoundTrip(p: Packet)
    ensures PacketOf(PacketBytes(p)) == Ok(p) <==> !(p.ptype.Message? && p.data == [])
  {
    hide Base64.Encode, Base64.Decode, TypeOfByte, TypeNumber;
    if p.ptype.MessageBinary? {
      assert PacketBytes(p)[1..] == Base64.Encode(p.data);
      Base64.DecodeEncoded(p.data);
    } else {
      assert PacketBytes(p)[1..] == p.data;
      TypeRoundTrip(p.ptype);
    }
  }

  // Payloads: packets with separators in between.

  function Split(b: bytes): (parts: seq<bytes>)
    ensures parts != []
  {
    if b == [] then [[]]
    else if b[0] == SEPARATOR then [[]] + Split(b[1..])
    else var parts := Split(b[1..]); [[b[0]] + parts[0]] + parts[1..]
  }

  function Join(parts: seq<bytes>): bytes
    requires parts != []
  {
    if |parts| == 1 then parts[0] else parts[0] + [SEPARATOR] + Join(parts[1..])
  }

  function Separators(b: bytes): nat {
    if b == [] then 0 else (if b[0] == SEPARATOR then 1 else 0) + Separators(b[1..])
  }

  /** All parts decoded, or the error of the first part that does not decode. */
  function DecodeAll(parts: seq<bytes>): Result<seq<Packet>, Error> {
    if parts == [] then
      Ok([])
    else
      var p :- PacketOf(parts[0]);
      var ps :- DecodeAll(parts[1..]);
      Ok([p] + ps)
  }

  function EncodeAll(ps: seq<Packet>): (parts: seq<bytes>)
    ensures |parts| == |ps|
  {
    seq(|ps|, i requires 0 <= i < |ps| => PacketBytes(ps[i]))
  }

  function PayloadBytes(ps: seq<Packet>): bytes
    requires ps != []
  {
    Join(EncodeAll(ps))
  }

  function PayloadOf(b: bytes): Result<seq<Packet>, Error> {
    DecodeAll(Split(b))
  }

  /** The packets that can share a payload with others: no separator in text data, no text message without data. */
  predicate Framable(p: Packet) {
    p.ptype.MessageBinary? || (SEPARATOR !in p.data && (p.ptype.Message? ==> p.data != []))
  }

  predicate AllFramable(ps: seq<Packet>) {
    forall i | 0 <= i < |ps| :: Framable(ps[i])
  }

  lemma {:induction false} SplitPart(part: bytes, rest: bytes)
    requires SEPARATOR !in part
    ensures Split(part + [SEPARATOR] + rest) == [part] + Split(rest)
    ensures Split(part) == [part]
  {
    if part == [] {
      assert part + [SEPARATOR] + rest == [SEPARATOR] + rest;
    } else {
      assert (part + [SEPARATOR] + rest)[1..] == part[1..] + [SEPARATOR] + rest;
      SplitPart(part[1..], rest);
      assert [part[0]] + part[1..] == part;
    }
  }

  lemma {:induction false} SplitJoined(parts: seq<bytes>)
    requires parts != [] && forall i | 0 <= i < |parts| :: SEPARATOR !in parts[i]
    ensures Split(Join(parts)) == parts
  {
    if |parts| == 1 {
      SplitPart(parts[0], []);
    } else {
      SplitPart(parts[0], Join(parts[1..]));
      SplitJoined(parts[1..]);
    }
  }

  /** A payload has one part more than it has separators. */
  lemma {:induction false} PartCount(b: bytes)
    ensures |Split(b)| == Separators(b) + 1
  {
    if b != [] {
      PartCount(b[1..]);
    }
  }

  lemma {:induction false} PartsSeparatorFree(b: bytes)
    ensures forall i | 0 <= i < |Split(b)| :: SEPARATOR !in Split(b)[i]
  {
    if b != [] {
      PartsSeparatorFree(b[1..]);
      var parts := Split(b[1..]);
      forall i | 0 <= i < |Split(b)|
        ensures SEPARATOR !in Split(b)[i]
      {
        if b[0] == SEPARATOR {
          assert i > 0 ==> Split(b)[i] == parts[i - 1];
        } else {
          assert Split(b)[i] == if i == 0 then [b[0]] + parts[0] else parts[i];
        }
      }
    }
  }

  lemma {:induction false} SeparatorsConcat(a: bytes, b: bytes)
    ensures Separators(a + b) == Separators(a) + Separators(b)
  {
    if a == [] {
      assert a + b == b;
    } else {
      assert (a + b)[1..] == a[1..] + b;
      SeparatorsConcat(a[1..], b);
    }
  }

  lemma {:induction false} NoSeparators(b: bytes)
    ensures Separators(b) == 0 <==> SEPARATOR !in b
  {
    if b != [] {
      NoSeparators(b[1..]);
      assert b == [b[0]] + b[1..];
    }
  }

  lemma {:induction false} JoinedSeparators(parts: seq<bytes>)
    requires parts != []
    ensures Separators(Join(parts)) >= |parts| - 1
    ensures (exists i | 0 <= i < |parts| :: SEPARATOR in parts[i]) ==> Separators(Join(parts)) >= |parts|
  {
    NoSeparators(parts[0]);
    if |parts| > 1 {
      JoinedSeparators(parts[1..]);
      SeparatorsConcat(parts[0], [SEPARATOR]);
      SeparatorsConcat(parts[0] + [SEPARATOR], Join(parts[1..]));
      assert Separators([SEPARATOR]) == 1;
      if i :| 0 < i < |parts| && SEPARATOR in parts[i] {
        assert SEPARATOR in parts[1..][i - 1];
      }
    }
  }

  lemma ConsEqual(p: Packet, rest: seq<Packet>, ps: seq<Packet>)
    requires ps != []
    ensures [p] + rest == ps <==> p == ps[0] && rest == ps[1..]
  {
    assert ([p] + rest)[1..] == rest;
    assert ps == [ps[0]] + ps[1..];
  }

  /** Part by part, `parts` decode to `ps`. */
  predicate DecodesTo(parts: seq<bytes>, ps: seq<Packet>) {
    |parts| == |ps| && forall i | 0 <= i < |ps| :: PacketOf(parts[i]) == Ok(ps[i])
  }

  lemma DecodesToStep(parts: seq<bytes>, ps: seq<Packet>)
    requires parts != [] && ps != []
    ensures DecodesTo(parts, ps) <==> PacketOf(parts[0]) == Ok(ps[0]) && DecodesTo(parts[1..], ps[1..])
  {
    hide PacketOf;
    if PacketOf(parts[0]) == Ok(ps[0]) && DecodesTo(parts[1..], ps[1..]) {
      forall i | 0 <= i < |ps|
        ensures PacketOf(parts[i]) == Ok(ps[i])
      {
        assert i > 0 ==> parts[i] == parts[1..][i - 1] && ps[i] == ps[1..][i - 1];
      }
    }
  }

  lemma {:induction false} DecodeAllOk(parts: seq<bytes>, ps: seq<Packet>)
    ensures DecodeAll(parts) == Ok(ps) <==> DecodesTo(parts, ps)
  {
    hide PacketOf;
    if parts != [] && ps != [] {
      DecodeAllOk(parts[1..], ps[1..]);
      DecodesToStep(parts, ps);
      ConsEqual(ps[0], ps[1..], ps);
      if PacketOf(parts[0]).Ok? && DecodeAll(parts[1..]).Ok? {
        ConsEqual(PacketOf(parts[0]).value, DecodeAll(parts[1..]).value, ps);
      }
    }
  }

  /** Joined parts decode to given packets exactly when no part holds a separator and each decodes to its packet. */
  lemma DecodeJoined(parts: seq<bytes>, ps: seq<Packet>)
    requires parts != [] && |parts| == |ps|
    ensures PayloadOf(Join(parts)) == Ok(ps) <==>
            forall i | 0 <= i < |ps| :: SEPARATOR !in parts[i] && PacketOf(parts[i]) == Ok(ps[i])
  {
    var b := Join(parts);
    DecodeAllOk(Split(b), ps);
    if exists i | 0 <= i < |parts| :: SEPARATOR in parts[i] {
      JoinedSeparators(parts);
      PartCount(b);
    } else {
      SplitJoined(parts);
    }
  }

  lemma PacketSeparator(p: Packet)
    ensures SEPARATOR in PacketBytes(p) <==> !p.ptype.MessageBinary? && SEPARATOR in p.data
  {
    Base64.EncodedAlphabet(p.data);
    if p.ptype.MessageBinary? {
      var t := Base64.Encode(p.data);
      assert forall i | 0 <= i < |t| :: t[i] != SEPARATOR;
    }
  }

  /** A payload round trip holds exactly for the packets that can be framed. */
  lemma PayloadRoundTrip(ps: seq<Packet>)
    requires ps != []
    ensures PayloadOf(PayloadBytes(ps)) == Ok(ps) <==> AllFramable(ps)
  {
    var parts := EncodeAll(ps);
    DecodeJoined(parts, ps);
    forall i | 0 <= i < |ps|
      ensures Framable(ps[i]) <==> SEPARATOR !in parts[i] && PacketOf(parts[i]) == Ok(ps[i])
    {
      PacketRoundTrip(ps[i]);
      PacketSeparator(ps[i]);
    }
  }

  /**
   Whatever bytes are accepted as a payload, the packets read from them can be
   encoded again, and reading that encoding gives the same packets.
   */
  lemma NormalForm(b: bytes)
    requires PayloadOf(b).Ok?
    ensures var ps := PayloadOf(b).value;
            |ps| == Separators(b) + 1 && AllFramable(ps) && PayloadOf(PayloadBytes(ps)) == Ok(ps)
  {
    var parts, ps := Split(b), PayloadOf(b).value;
    DecodeAllOk(parts, ps);
    PartCount(b);
    PartsSeparatorFree(b);
    forall i | 0 <= i < |ps|
      ensures Framable(ps[i])
    {
      assert PacketOf(parts[i]) == Ok(ps[i]) && SEPARATOR !in parts[i];
    }
    PayloadRoundTrip(ps);
  }

  // The loops of the payload codec.

  /** Walks over the payload once, cutting it after every separator. */
  method DecodePayload(payload: bytes) returns (r: Result<seq<Packet>, Error>)
    ensures r == PayloadOf(payload)
  {
    hide PacketOf, PayloadOf;
    var vec: seq<Packet> := [];
    var lastIndex := 0;
    assert payload[0..] == payload;
    PrependNothing(PayloadOf(payload));
    for i := 0 to |payload|
      invariant 0 <= lastIndex <= i
      invariant SEPARATOR !in payload[lastIndex..i]
      invariant PayloadOf(payload) == Prepend(vec, PayloadOf(payload[lastIndex..]))
    {
      if payload[i] == SEPARATOR {
        CutPart(payload, lastIndex, i, vec);
        var packet :- PacketOf(payload[lastIndex..i]);
        vec := vec + [packet];
        lastIndex := i + 1;
      }
    }
    CutLast(payload, lastIndex, vec);
    var packet :- PacketOf(payload[lastIndex..|payload|]);
    return Ok(vec + [packet]);
  }

  lemma CutPart(payload: bytes, last: nat, i: nat, vec: seq<Packet>)
    requires last <= i < |payload| && payload[i] == SEPARATOR && SEPARATOR !in payload[last..i]
    ensures var p := PacketOf(payload[last..i]);
            Prepend(vec, PayloadOf(payload[last..])) ==
            if p.Err? then Err(p.error) else Prepend(vec + [p.value], PayloadOf(payload[i + 1..]))
  {
    hide PacketOf, DecodeAll, Split;
    var part, rest := payload[last..i], payload[i + 1..];
    assert payload[last..] == part + [SEPARATOR] + rest;
    SplitPart(part, rest);
    DecodeStep(part, Split(rest));
    if PacketOf(part).Ok? {
      PrependOne(vec, PacketOf(part).value, PayloadOf(rest));
    }
  }

  lemma CutLast(payload: bytes, last: nat, vec: seq<Packet>)
    requires last <= |payload| && SEPARATOR !in payload[last..|payload|]
    ensures var p := PacketOf(payload[last..|payload|]);
            Prepend(vec, PayloadOf(payload[last..])) == if p.Err? then Err(p.error) else Ok(vec + [p.value])
  {
    hide PacketOf, Split;
    var part := payload[last..|payload|];
    assert part == payload[last..];
    SplitPart(part, []);
    assert [part][1..] == [];
    if PacketOf(part).Ok? {
      var p := PacketOf(part).value;
      assert [p] + [] == [p];
      assert DecodeAll([part]) == Ok([p]);
    }
  }

  /** The packets already decoded in front of the result for the rest of the payload. */
  ghost function Prepend(vec: seq<Packet>, rest: Result<seq<Packet>, Error>): Result<seq<Packet>, Error> {
    match rest
    case Ok(ps) => Ok(vec + ps)
    case Err(e) => Err(e)
  }

  lemma DecodeStep(part: bytes, parts: seq<bytes>)
    ensures DecodeAll([part] + parts) ==
            if PacketOf(part).Err? then Err(PacketOf(part).error) else Prepend([PacketOf(part).value], DecodeAll(parts))
  {
    hide PacketOf;
    assert ([part] + parts)[1..] == parts;
  }

  lemma PrependNothing(r: Result<seq<Packet>, Error>)
    ensures Prepend([], r) == r
  {
    if r.Ok? {
      assert [] + r.value == r.value;
    }
  }

  lemma PrependOne(vec: seq<Packet>, p: Packet, rest: Result<seq<Packet>, Error>)
    ensures Prepend(vec, Prepend([p], rest)) == Prepend(vec + [p], rest)
  {
    if rest.Ok? {
      assert vec + ([p] + rest.value) == vec + [p] + rest.value;
    }
  }

  /**
   Writes every packet followed by a separator and takes the last separator off
   again. With no packets there is nothing to take off: the length of the empty
   buffer minus one underflows, here `None`.
   */
  method EncodePayload(packets: seq<Packet>) returns (r: Option<bytes>)
    ensures r == if packets == [] then None else Some(PayloadBytes(packets))
  {
    var buf: bytes := [];
    for i := 0 to |packets|
      invariant buf == if i == 0 then [] else Join(EncodeAll(packets)[..i]) + [SEPARATOR]
    {
      buf := buf + PacketBytes(packets[i]);
      JoinLast(EncodeAll(packets)[..i], PacketBytes(packets[i]));
      assert EncodeAll(packets)[..i] + [PacketBytes(packets[i])] == EncodeAll(packets)[..i + 1];
      buf := buf + [SEPARATOR];
    }
    if |buf| == 0 {
      return None;
    }
    assert EncodeAll(packets)[..|packets|] == EncodeAll(packets);
    return Some(buf[..|buf| - 1]);
  }

  lemma {:induction false} JoinLast(parts: seq<bytes>, part: bytes)
    ensures Join(parts + [part]) == if parts == [] then part else Join(parts) + [SEPARATOR] + part
  {
    if parts == [] {
      assert parts + [part] == [part];
    } else {
      assert (parts + [part])[1..] == parts[1..] + [part];
      JoinLast(parts[1..], part);
    }
  }

  // The wire format in plain bytes.

  /** The bytes of every type of packet: the digit of its type and its data, or the letter b and the data in base64. */
  lemma WireFormat(data: bytes)
    ensures PacketBytes(Packet(Open, data)) == [0x30] + data && PacketBytes(Packet(Close, data)) == [0x31] + data
    ensures PacketBytes(Packet(Ping, data)) == [0x32] + data && PacketBytes(Packet(Pong, data)) == [0x33] + data
    ensures PacketBytes(Packet(Message, data)) == [0x34] + data && PacketBytes(Packet(Upgrade, data)) == [0x35] + data
    ensures PacketBytes(Packet(Noop, data)) == [0x36] + data
    ensures PacketBytes(Packet(MessageBinary, data)) == [0x62] + Base64.Encode(data)
  {
  }

  /** Packets of a payload are separated by the byte 0x1e. */
  lemma PayloadFormat(p: Packet, rest: seq<Packet>)
    ensures PayloadBytes([p]) == PacketBytes(p)
    ensures rest != [] ==> PayloadBytes([p] + rest) == PacketBytes(p) + [0x1E] + PayloadBytes(rest)
  {
    hide PacketBytes;
    assert EncodeAll([p]) == [PacketBytes(p)];
    if rest != [] {
      assert EncodeAll([p] + rest) == [PacketBytes(p)] + EncodeAll(rest);
      assert EncodeAll([p] + rest)[1..] == EncodeAll(rest);
    }
  }

  /** Exactly which bytes are no packet, and why. */
  lemma PacketErrors(b: bytes)
    ensures PacketOf(b) == Err(IncompletePacket) <==> b == [] || b == [0x34] || b == [4]
    ensures forall c :: PacketOf(b) == Err(InvalidPacketType(c)) <==> b != [] && b[0] == c && c != 0x62 && c > 6 && (c < 0x30 || c > 0x36)
    ensures PacketOf(b) == Err(InvalidBase64) <==> b != [] && b[0] == 0x62 && Base64.Decode(b[1..]) == None
  {
    hide Base64.Decode;
    assert |b| == 1 ==> b == [b[0]];
  }

  /** A raw type number is read like the digit printed for it. */
  lemma RawNumbers(k: byte, data: bytes)
    requires k <= 6
    ensures PacketOf([k] + data) == PacketOf([0x30 + k] + data)
  {
    assert ([k] + data)[1..] == data && ([0x30 + k] + data)[1..] == data;
  }
}
