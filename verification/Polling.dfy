/**
 The body of a long poll: `build_polling_payload` in engineio/src/packet.rs and
 the queue behind `polling_get` and `polling_post` in engineio/src/server/http.rs.
 */
module Polling {
  import opened Wrappers
  import opened Bytes
  import opened EnginePacket
  import opened Transports
  import Base64
  import Utf8

  const SEPARATOR_CHAR: char := SEPARATOR as int as char

  /** The text one queue entry adds: base64 of an entry that starts with b, other entries as they are, nothing if not UTF-8. */
  function Contribution(entry: bytes): string
    requires entry != []
  {
    if entry[0] == BINARY_PREFIX then Base64.EncodeText(entry)
    else match Utf8.Decode(entry) case Some(s) => s case None => ""
  }

  /** All contributions with separators in between; an empty entry spoils the whole text. */
  function PollingText(entries: seq<bytes>): Option<string> {
    if entries == [] then
      Some("")
    else if entries[0] == [] then
      None
    else
      var rest :- PollingText(entries[1..]);
      Some(Contribution(entries[0]) + (if |entries| > 1 then [SEPARATOR_CHAR] else "") + rest)
  }

  /** The body built from a queue. */
  function PollingPayload(entries: seq<bytes>): Option<string> {
    var text :- PollingText(entries);
    if text == "" then None else Some(text)
  }

  method BuildPollingPayload(entries: seq<bytes>) returns (r: Option<string>)
    ensures r == PollingPayload(entries)
  {
    var queue := entries;
    var payload := "";
    PrefixNothing(PollingText(entries));
    while queue != []
      invariant PollingText(entries) == Prefix(payload, PollingText(queue))
      decreases |queue|
    {
      var entry := queue[0];
      PrefixStep(payload, queue);
      queue := queue[1..];
      if entry == [] {
        return None;
      }
      ghost var before := payload;
      if entry[0] == BINARY_PREFIX {
        payload := payload + Base64.EncodeText(entry);
      } else {
        match Utf8.Decode(entry)
        case Some(s) => payload := payload + s;
        case None =>
      }
      assert payload == before + Contribution(entry);
      if queue != [] {
        payload := payload + [SEPARATOR_CHAR];
      }
      assert payload == before + Contribution(entry) + if queue != [] then [SEPARATOR_CHAR] else "";
    }
    assert payload + "" == payload && PollingText(queue) == Some("");
    if payload == "" {
      r := None;
    } else {
      r := Some(payload);
    }
  }

  /** The text written so far in front of the text still to come. */
  ghost function Prefix(payload: string, rest: Option<string>): Option<string> {
    match rest
    case Some(text) => Some(payload + text)
    case None => None
  }

  lemma PrefixNothing(rest: Option<string>)
    ensures Prefix("", rest) == rest
  {
    if rest.Some? {
      assert "" + rest.value == rest.value;
    }
  }

  lemma PrefixStep(payload: string, queue: seq<bytes>)
    requires queue != []
    ensures queue[0] == [] ==> PollingText(queue) == None
    ensures queue[0] != [] ==>
              Prefix(payload, PollingText(queue)) ==
              Prefix(payload + Contribution(queue[0]) + (if |queue| > 1 then [SEPARATOR_CHAR] else ""), PollingText(queue[1..]))
  {
    hide Contribution;
    if queue[0] != [] && PollingText(queue[1..]).Some? {
      var c, sep, rest := Contribution(queue[0]), if |queue| > 1 then [SEPARATOR_CHAR] else "", PollingText(queue[1..]).value;
      assert payload + (c + sep + rest) == payload + c + sep + rest;
    }
  }

  /** The bytes one entry adds to the body. */
  function Piece(entry: bytes): bytes
    requires entry != []
  {
    if entry[0] == BINARY_PREFIX then Base64.Encode(entry)
    else if Utf8.Decode(entry).Some? then entry
    else []
  }

  function Pieces(entries: seq<bytes>): (r: seq<bytes>)
    requires forall i | 0 <= i < |entries| :: entries[i] != []
    ensures |r| == |entries|
  {
    seq(|entries|, i requires 0 <= i < |entries| => Piece(entries[i]))
  }

  lemma ContributionBytes(entry: bytes)
    requires entry != []
    ensures Utf8.Encode(Contribution(entry)) == Piece(entry)
  {
    hide Utf8.Encode, Utf8.Decode;
    if entry[0] == BINARY_PREFIX {
      Base64.EncodedAlphabet(entry);
      Utf8.EncodeAscii(Base64.Encode(entry));
    } else if Utf8.Decode(entry).Some? {
      Utf8.EncodeDecoded(entry);
    } else {
      EncodeNothing();
    }
  }

  lemma EncodeNothing()
    ensures Utf8.Encode("") == [] && Utf8.Encode([SEPARATOR_CHAR]) == [SEPARATOR]
  {
    assert [SEPARATOR_CHAR][1..] == [];
  }

  /** The body's bytes are the entries' pieces with separators in between. */
  lemma {:induction false} PollingTextBytes(entries: seq<bytes>)
    requires entries != [] && forall i | 0 <= i < |entries| :: entries[i] != []
    ensures PollingText(entries).Some? && Utf8.Encode(PollingText(entries).value) == Join(Pieces(entries))
  {
    hide Utf8.Encode, Contribution, Piece;
    ContributionBytes(entries[0]);
    if |entries| == 1 {
      assert PollingText(entries[1..]) == Some("");
      assert Contribution(entries[0]) + "" + "" == Contribution(entries[0]);
    } else {
      PollingTextBytes(entries[1..]);
      EncodeNothing();
      Utf8.EncodeConcat(Contribution(entries[0]), [SEPARATOR_CHAR]);
      Utf8.EncodeConcat(Contribution(entries[0]) + [SEPARATOR_CHAR], PollingText(entries[1..]).value);
      assert Pieces(entries)[1..] == Pieces(entries[1..]);
    }
  }

  /** The packets that survive a long poll: text packets that can share a payload and whose data is UTF-8. */
  predicate Pollable(p: Packet) {
    !p.ptype.MessageBinary? && Framable(p) && Utf8.Decode(p.data).Some?
  }

  predicate AllPollable(ps: seq<Packet>) {
    forall i | 0 <= i < |ps| :: Pollable(ps[i])
  }

  /** What the client reads from a response body. */
  function ReadBody(body: Option<string>): Option<seq<Packet>> {
    var text :- body;
    Read(Utf8.Encode(text))
  }

  lemma PiecePollable(p: Packet)
    ensures PacketBytes(p) != []
    ensures Pollable(p) <==> SEPARATOR !in Piece(PacketBytes(p)) && PacketOf(Piece(PacketBytes(p))) == Ok(p)
  {
    var entry := PacketBytes(p);
    if p.ptype.MessageBinary? {
      Base64.EncodedLetterB(entry);
      assert PacketOf(Base64.Encode(entry)) == Err(InvalidPacketType(0x59)) by {
        hide Base64.Encode;
      }
    } else {
      PieceOfText(p);
    }
  }

  lemma PieceOfText(p: Packet)
    requires !p.ptype.MessageBinary?
    ensures Pollable(p) <==> SEPARATOR !in Piece(PacketBytes(p)) && PacketOf(Piece(PacketBytes(p))) == Ok(p)
  {
    hide Utf8.Decode;
    TypeRoundTrip(p.ptype);
    TextPacketUtf8(p);
    PacketRoundTrip(p);
    PacketSeparator(p);
  }

  /**
   A long poll gives the client the packets that were queued exactly when all
   of them are pollable: a queued binary message is encoded a second time and
   cannot be read back.
   */
  lemma LongPollRoundTrip(ps: seq<Packet>)
    requires ps != []
    ensures ReadBody(PollingPayload(EncodeAll(ps))) == Some(ps) <==> AllPollable(ps)
  {
    var entries := EncodeAll(ps);
    forall i | 0 <= i < |ps|
      ensures entries[i] != []
      ensures Pollable(ps[i]) <==> SEPARATOR !in Piece(entries[i]) && PacketOf(Piece(entries[i])) == Ok(ps[i])
    {
      PiecePollable(ps[i]);
    }
    PollingTextBytes(entries);
    DecodeJoined(Pieces(entries), ps);
    if PollingText(entries) == Some("") {
      EncodeNothing();
      assert Read([]) == None;
    }
  }

  /** A part that does not decode makes the whole list fail. */
  lemma {:induction false} BadPart(parts: seq<bytes>, i: nat)
    requires i < |parts| && PacketOf(parts[i]).Err?
    ensures DecodeAll(parts).Err?
  {
    hide PacketOf;
    if i > 0 {
      BadPart(parts[1..], i - 1);
    }
  }

  /** The part that starts a given piece is found among the parts of the joined pieces. */
  lemma {:induction false} PieceFound(pieces: seq<bytes>, i: nat)
    requires i < |pieces| && SEPARATOR !in pieces[i]
    ensures pieces[i] in Split(Join(pieces))
  {
    if |pieces| == 1 {
      SplitPart(pieces[0], []);
    } else if i == 0 {
      SplitPart(pieces[0], Join(pieces[1..]));
    } else {
      PieceFound(pieces[1..], i - 1);
      SplitAfter(pieces[0], Join(pieces[1..]));
    }
  }

  lemma {:induction false} SplitAfter(a: bytes, b: bytes)
    ensures Split(a + [SEPARATOR] + b) == Split(a) + Split(b)
  {
    if a == [] {
      assert a + [SEPARATOR] + b == [SEPARATOR] + b;
    } else {
      assert (a + [SEPARATOR] + b)[1..] == a[1..] + [SEPARATOR] + b;
      SplitAfter(a[1..], b);
    }
  }

  /** One queued binary message, among whatever other entries, makes the whole response body unreadable. */
  lemma BinaryEntryUnreadable(ps: seq<Packet>, i: nat)
    requires i < |ps| && ps[i].ptype.MessageBinary?
    ensures ReadBody(PollingPayload(EncodeAll(ps))) == None
  {
    hide Base64.Encode, Utf8.Decode, Split, Join;
    var entries := EncodeAll(ps);
    forall j | 0 <= j < |ps|
      ensures entries[j] != []
    {
      PiecePollable(ps[j]);
    }
    PollingTextBytes(entries);
    var piece := Pieces(entries)[i];
    BinaryPiece(ps[i]);
    PieceFound(Pieces(entries), i);
    var parts := Split(Join(Pieces(entries)));
    var k :| 0 <= k < |parts| && parts[k] == piece;
    BadPart(parts, k);
  }

  lemma BinaryPiece(p: Packet)
    requires p.ptype.MessageBinary?
    ensures SEPARATOR !in Piece(PacketBytes(p)) && PacketOf(Piece(PacketBytes(p))).Err?
  {
    hide Base64.Encode;
    Base64.EncodedLetterB(PacketBytes(p));
    Base64.EncodedAlphabet(PacketBytes(p));
  }

  /** A bounded queue between the server's socket and the poll requests of one client. */
  class Queue {
    var entries: seq<bytes>
    var closed: bool
    const capacity: nat

    constructor (capacity: nat)
      ensures entries == [] && !closed && this.capacity == capacity
    {
      this.capacity := capacity;
      entries := [];
      closed := false;
    }

    /** The sending side is gone; what is queued can still be taken. */
    method Close()
      modifies this`closed
      ensures closed
    {
      closed := true;
    }

    /** Sending waits for room. */
    method Send(entry: bytes)
      requires |entries| < capacity && !closed
      modifies this`entries
      ensures entries == old(entries) + [entry]
    {
      entries := entries + [entry];
    }

    /** The server's `emit`: fill the body, then send it to the queue. */
    method Emit(payload: Data)
      requires |entries| < capacity && !closed
      modifies this`entries
      ensures entries == old(entries) + [PollingBody(payload)]
    {
      var data := FillPollingBody(payload);
      Send(data);
    }

    /** Takes the oldest entry, if there is one. */
    method TryRecv() returns (r: Option<bytes>)
      modifies this`entries
      ensures old(entries) == [] ==> r == None && entries == []
      ensures old(entries) != [] ==> r == Some(old(entries)[0]) && entries == old(entries)[1..]
    {
      if entries == [] {
        return None;
      }
      r := Some(entries[0]);
      entries := entries[1..];
    }

    /**
     `polling_get`: waits for one entry or the end of the queue, takes whatever else is
     queued, and builds the body; from a queue that has ended empty there is none.
     */
    method PollingGet() returns (body: Option<string>)
      requires entries != [] || closed
      modifies this`entries
      ensures entries == [] && body == PollingPayload(old(entries))
      ensures old(entries) == [] ==> body == None
    {
      var taken: seq<bytes> := [];
      var next := TryRecv();
      while next.Some?
        invariant old(entries) == taken + (if next.Some? then [next.value] else []) + entries
        invariant next.None? ==> entries == []
        decreases |entries|, next.Some?
      {
        taken := taken + [next.value];
        next := TryRecv();
      }
      assert taken == old(entries);
      body := BuildPollingPayload(taken);
    }
  }

  /** The body in plain text: entries that start with b in base64, text as it is, with 0x1e in between; nothing for bad text. */
  lemma BodyFormat(entry: bytes, rest: seq<bytes>)
    ensures PollingText([]) == Some("") && PollingPayload([]) == None
    ensures entry == [] ==> PollingText([entry] + rest) == None
    ensures entry != [] && PollingText(rest).Some? ==>
              var own := if entry[0] == 0x62 then Latin1(Base64.Encode(entry)) else if Utf8.Decode(entry).Some? then Utf8.Decode(entry).value else "";
              PollingText([entry] + rest) == Some(own + (if rest == [] then "" else [0x1E as char]) + PollingText(rest).value)
  {
    hide Base64.Encode, Utf8.Decode;
    assert ([entry] + rest)[1..] == rest;
  }
}
