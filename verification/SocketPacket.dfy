/** Socket.IO packets and their text form: socketio/src/packet.rs. */
module SocketPacket {
  import opened Wrappers
  import opened Bytes
  import Decimal
  import Json
  import JsonProofs
  import Utf8

  datatype PacketType = Connect | Disconnect | Event | Ack | ConnectError | BinaryEvent | BinaryAck

  datatype Packet = Packet(
    ptype: PacketType,
    nsp: string,
    data: Option<Json.Value>,
    id: Option<nat>,
    count: nat,
    attachments: Option<seq<bytes>>
  )

  datatype Error = InvalidUtf8 | InvalidPacketType(c: char) | IncompletePacket | InvalidJson

  const DEFAULT := Packet(Event, "/", None, None, 0, None)

  predicate IsBinary(t: PacketType) {
    t.BinaryEvent? || t.BinaryAck?
  }

  function TypeChar(t: PacketType): char {
    match t
    case Connect => '0'
    case Disconnect => '1'
    case Event => '2'
    case Ack => '3'
    case ConnectError => '4'
    case BinaryEvent => '5'
    case BinaryAck => '6'
  }

  function TypeOfChar(c: char): Result<PacketType, Error> {
    match c
    case '0' => Ok(Connect)
    case '1' => Ok(Disconnect)
    case '2' => Ok(Event)
    case '3' => Ok(Ack)
    case '4' => Ok(ConnectError)
    case '5' => Ok(BinaryEvent)
    case '6' => Ok(BinaryAck)
    case _ => Err(InvalidPacketType(c))
  }

  // Encoding

  function CountText(p: Packet): string {
    if IsBinary(p.ptype) then Decimal.Print(p.count) + "-" else ""
  }

  function NamespaceText(nsp: string): string {
    if nsp != "/" then nsp + "," else ""
  }

  function IdText(id: Option<nat>): string {
    if id.Some? then Decimal.Print(id.value) else ""
  }

  function DataText(data: Option<Json.Value>): string {
    if data.Some? then Json.Print(data.value) else ""
  }

  function PacketText(p: Packet): string {
    [TypeChar(p.ptype)] + (CountText(p) + (NamespaceText(p.nsp) + (IdText(p.id) + DataText(p.data))))
  }

  function PacketBytes(p: Packet): bytes {
    Utf8.Encode(PacketText(p))
  }

  /** The part of the text before the data. */
  function HeaderText(p: Packet): string {
    [TypeChar(p.ptype)] + CountText(p) + NamespaceText(p.nsp) + IdText(p.id)
  }

  /** The bytes of a packet are those of the header followed by those of the data. */
  lemma HeaderThenData(p: Packet)
    ensures PacketBytes(p) == Utf8.Encode(HeaderText(p)) + Utf8.Encode(DataText(p.data))
    ensures p.data.None? ==> PacketBytes(p) == Utf8.Encode(HeaderText(p))
  {
    hide Utf8.Encode, CountText, NamespaceText, IdText, Json.Print, TypeChar;
    Utf8.EncodeConcat(HeaderText(p), DataText(p.data));
    assert PacketText(p) == HeaderText(p) + DataText(p.data);
    if p.data.None? {
      assert DataText(p.data) == "" && HeaderText(p) + "" == HeaderText(p);
    }
  }

  /** Builds the text before the data step by step, then appends both to the buffer. */
  method EncodePacket(packet: Packet) returns (buffer: bytes)
    ensures buffer == PacketBytes(packet)
  {
    hide Decimal.Print, Json.Print, Utf8.Encode, TypeChar, PacketBytes, PacketText;
    var text := [TypeChar(packet.ptype)];
    if IsBinary(packet.ptype) {
      text := text + Decimal.Print(packet.count);
      text := text + "-";
    }
    assert text == [TypeChar(packet.ptype)] + CountText(packet);
    if packet.nsp != "/" {
      text := text + packet.nsp;
      text := text + ",";
    }
    assert text == [TypeChar(packet.ptype)] + CountText(packet) + NamespaceText(packet.nsp);
    if packet.id.Some? {
      text := text + Decimal.Print(packet.id.value);
    }
    assert text == HeaderText(packet);
    HeaderThenData(packet);
    buffer := Utf8.Encode(text);
    if packet.data.Some? {
      buffer := buffer + Utf8.Encode(Json.Print(packet.data.value));
    }
  }

  // Decoding, stage by stage.

  /** The text before the first `stop`, and the text after it. */
  function Until(s: string, stop: char): Option<(string, string)> {
    if s == [] then
      None
    else if s[0] == stop then
      Some(("", s[1..]))
    else
      var (buf, rest) :- Until(s[1..], stop);
      Some(([s[0]] + buf, rest))
  }

  function OrZero(n: Option<nat>): nat {
    if n.Some? then n.value else 0
  }

  function TextPacket(s: string): Result<Packet, Error> {
    if s == [] then
      Err(IncompletePacket)
    else
      var t :- TypeOfChar(s[0]);
      if IsBinary(t) then
        match Until(s[1..], '-')
        case None => Err(IncompletePacket)
        case Some((digits, rest)) =>
          AfterCount(DEFAULT.(ptype := t, count := OrZero(Decimal.ParseUnsigned(digits, Decimal.U8_MAX))), rest)
      else
        AfterCount(DEFAULT.(ptype := t), s[1..])
  }

  /** The namespace, if the rest starts with one. */
  function AfterCount(p: Packet, s: string): Result<Packet, Error> {
    if s != [] && s[0] == '/' then
      match Until(s[1..], ',')
      case None => Err(IncompletePacket)
      case Some((name, rest)) => AfterNamespace(p.(nsp := "/" + name), rest)
    else
      AfterNamespace(p, s)
  }

  /** The id and the data; text that ends within the digits of an id leaves both unset. */
  function AfterNamespace(p: Packet, s: string): Result<Packet, Error> {
    var digits := Decimal.DigitRun(s);
    var rest := s[|digits|..];
    if rest == [] then
      Ok(p)
    else
      match Json.Parse(rest)
      case None => Err(InvalidJson)
      case Some(v) =>
        Ok(p.(id := Decimal.ParseUnsigned(digits, Decimal.USIZE_MAX), data := if v == Json.Array([]) then None else Some(v)))
  }

  function PacketOf(b: bytes): Result<Packet, Error> {
    match Utf8.Decode(b)
    case None => Err(InvalidUtf8)
    case Some(text) => TextPacket(text)
  }

  /** A peekable iterator over the characters of a text. */
  class Chars {
    const text: string
    var pos: nat

    constructor (text: string)
      ensures this.text == text && pos == 0
    {
      this.text := text;
      pos := 0;
    }

    ghost predicate Valid()
      reads this
    {
      pos <= |text|
    }

    function Rest(): string
      requires Valid()
      reads this
    {
      text[pos..]
    }

    /** Moves past the next `stop`, returning the characters before it; `None` if there is none. */
    method TakeUntil(stop: char) returns (r: Option<string>)
      requires Valid()
      modifies this`pos
      ensures Valid()
      ensures r == match Until(old(Rest()), stop) case None => None case Some((buf, _)) => Some(buf)
      ensures r.Some? ==> Until(old(Rest()), stop).value.1 == Rest()
    {
      var charBuf := "";
      BufferNothing(Until(Rest(), stop));
      while true
        invariant Valid()
        invariant Until(old(Rest()), stop) == Buffered(charBuf, Until(Rest(), stop))
        decreases |text| - pos
      {
        if pos == |text| {
          return None;
        }
        BufferStep(charBuf, Rest(), stop);
        assert Rest()[1..] == text[pos + 1..];
        if text[pos] == stop {
          pos := pos + 1;
          break;
        }
        charBuf := charBuf + [text[pos]];
        pos := pos + 1;
      }
      return Some(charBuf);
    }

    /** Moves past a run of digits, returning it. */
    method TakeDigits() returns (charBuf: string)
      requires Valid()
      modifies this`pos
      ensures Valid()
      ensures charBuf == Decimal.DigitRun(old(Rest()))
      ensures Rest() == old(Rest())[|charBuf|..]
    {
      hide Decimal.DigitRun, Decimal.AllDigits;
      charBuf := "";
      ghost var run := Decimal.DigitRun(Rest());
      assert "" + run == run;
      while pos < |text| && Decimal.IsDigit(text[pos])
        invariant Valid() && old(pos) <= pos
        invariant |charBuf| == pos - old(pos)
        invariant run == charBuf + Decimal.DigitRun(Rest())
        decreases |text| - pos
      {
        DigitStep(charBuf, Rest());
        assert Rest()[1..] == text[pos + 1..];
        charBuf := charBuf + [text[pos]];
        pos := pos + 1;
      }
      DigitEnd(Rest());
      assert charBuf + "" == charBuf;
    }
  }

  lemma DigitEnd(s: string)
    requires s == [] || !Decimal.IsDigit(s[0])
    ensures Decimal.DigitRun(s) == ""
  {
  }

  lemma DigitStep(charBuf: string, s: string)
    requires s != [] && Decimal.IsDigit(s[0])
    ensures charBuf + Decimal.DigitRun(s) == charBuf + [s[0]] + Decimal.DigitRun(s[1..])
  {
  }

  /** The characters already read in front of those still to be read. */
  ghost function Buffered(charBuf: string, r: Option<(string, string)>): Option<(string, string)> {
    match r
    case None => None
    case Some((buf, rest)) => Some((charBuf + buf, rest))
  }

  lemma BufferNothing(r: Option<(string, string)>)
    ensures Buffered("", r) == r
  {
    if r.Some? {
      assert "" + r.value.0 == r.value.0;
    }
  }

  lemma BufferStep(charBuf: string, s: string, stop: char)
    requires s != []
    ensures Buffered(charBuf, Until(s, stop)) ==
            if s[0] == stop then Some((charBuf, s[1..])) else Buffered(charBuf + [s[0]], Until(s[1..], stop))
  {
    assert charBuf + "" == charBuf;
    if s[0] != stop && Until(s[1..], stop).Some? {
      var buf := Until(s[1..], stop).value.0;
      assert charBuf + ([s[0]] + buf) == charBuf + [s[0]] + buf;
    }
  }

  /** Fills in a default packet while moving over the characters. */
  method DecodePacket(payload: bytes) returns (r: Result<Packet, Error>)
    ensures r == PacketOf(payload)
  {
    hide Json.Parse, Decimal.ParseUnsigned, Decimal.DigitRun, Decimal.AllDigits, Utf8.Decode, Until;
    var packet := DEFAULT;
    var decoded := Utf8.Decode(payload);
    if decoded.None? {
      return Err(InvalidUtf8);
    }
    var text := decoded.value;
    var iter := new Chars(text);
    if text == [] {
      return Err(IncompletePacket);
    }
    var ptype :- TypeOfChar(text[0]);
    packet := packet.(ptype := ptype);
    iter.pos := 1;

    if IsBinary(packet.ptype) {
      var countStr := iter.TakeUntil('-');
      if countStr.None? {
        return Err(IncompletePacket);
      }
      var count := Decimal.ParseUnsigned(countStr.value, Decimal.U8_MAX);
      if count.Some? {
        packet := packet.(count := count.value);
      }
    }
    assert TextPacket(text) == AfterCount(packet, iter.Rest());

    if iter.pos == |text| {
      return Ok(packet);
    }
    if text[iter.pos] == '/' {
      assert iter.Rest()[1..] == text[iter.pos + 1..];
      iter.pos := iter.pos + 1;
      var name := iter.TakeUntil(',');
      if name.None? {
        return Err(IncompletePacket);
      }
      packet := packet.(nsp := "/" + name.value);
    }
    assert TextPacket(text) == AfterNamespace(packet, iter.Rest());

    var digits := iter.TakeDigits();
    if iter.pos == |text| {
      return Ok(packet);
    }
    var id := Decimal.ParseUnsigned(digits, Decimal.USIZE_MAX);
    if id.Some? {
      packet := packet.(id := id);
    }
    var json := Json.Parse(iter.Rest());
    if json.None? {
      return Err(InvalidJson);
    }
    if json.value != Json.Array([]) {
      packet := packet.(data := json);
    }
    return Ok(packet);
  }

  // The round trip.

  /** `/`, or a name that starts with a slash and contains no comma. */
  predicate ValidNamespace(nsp: string) {
    nsp != [] && nsp[0] == '/' && ',' !in nsp
  }

  /** The values the fields of a packet can hold at all. */
  predicate Representable(p: Packet) {
    && p.count <= Decimal.U8_MAX
    && (p.id.Some? ==> p.id.value <= Decimal.USIZE_MAX)
    && (p.data.Some? ==> Json.WellFormed(p.data.value))
  }

  /** Data whose text is found again after an id: not an empty array, not starting with a digit, not too deep. */
  predicate Recoverable(v: Json.Value) {
    v != Json.Array([]) && !(v.Number? && v.n >= 0) && Json.Depth(v) < Json.RECURSION_LIMIT
  }

  /** The packets the text form keeps. */
  predicate Encodable(p: Packet) {
    && ValidNamespace(p.nsp)
    && (p.count == 0 || IsBinary(p.ptype))
    && (p.id.Some? ==> p.data.Some?)
    && (p.data.Some? ==> Recoverable(p.data.value))
  }

  function Strip(p: Packet): Packet {
    p.(attachments := None)
  }

  lemma {:induction false} UntilStop(a: string, stop: char, rest: string)
    requires stop !in a
    ensures Until(a + [stop] + rest, stop) == Some((a, rest))
  {
    if a == [] {
      assert a + [stop] + rest == [stop] + rest;
    } else {
      assert (a + [stop] + rest)[1..] == a[1..] + [stop] + rest;
      UntilStop(a[1..], stop, rest);
      assert [a[0]] + a[1..] == a;
    }
  }

  lemma {:induction false} UntilHasNoStop(s: string, stop: char)
    requires Until(s, stop).Some?
    ensures stop !in Until(s, stop).value.0
  {
    if s[0] != stop {
      UntilHasNoStop(s[1..], stop);
    }
  }

  /** Whatever is decoded has a valid namespace, no attachments yet, and no count unless it is binary. */
  lemma DecodedShape(s: string)
    requires TextPacket(s).Ok?
    ensures var q := TextPacket(s).value;
            && ValidNamespace(q.nsp) && q.attachments.None? && q.data != Some(Json.Array([]))
            && (q.count == 0 || IsBinary(q.ptype)) && q.count <= Decimal.U8_MAX
  {
    hide Json.Parse, Decimal.Value;
    if IsBinary(TypeOfChar(s[0]).value) {
      var rest := Until(s[1..], '-').value.1;
      if rest != [] && rest[0] == '/' {
        UntilHasNoStop(rest[1..], ',');
      }
    } else if s[1..] != [] && s[1..][0] == '/' {
      UntilHasNoStop(s[1..][1..], ',');
    }
  }

  lemma CountStage(p: Packet, rest: string)
    requires p.count <= Decimal.U8_MAX
    ensures TextPacket([TypeChar(p.ptype)] + (CountText(p) + rest)) ==
            AfterCount(DEFAULT.(ptype := p.ptype, count := if IsBinary(p.ptype) then p.count else 0), rest)
  {
    hide Decimal.Print, Decimal.ParseUnsigned, AfterCount;
    var s := [TypeChar(p.ptype)] + (CountText(p) + rest);
    assert s[1..] == CountText(p) + rest;
    if IsBinary(p.ptype) {
      var digits := Decimal.Print(p.count);
      assert '-' !in digits;
      UntilStop(digits, '-', rest);
      assert CountText(p) + rest == digits + ['-'] + rest;
      Decimal.ParsePrinted(p.count, Decimal.U8_MAX);
    } else {
      assert s[1..] == rest;
    }
  }

  lemma NamespaceStage(p: Packet, nsp: string, rest: string)
    requires ValidNamespace(nsp) && p.nsp == "/"
    requires rest != [] ==> rest[0] != '/'
    ensures AfterCount(p, NamespaceText(nsp) + rest) == AfterNamespace(p.(nsp := nsp), rest)
  {
    hide AfterNamespace;
    if nsp == "/" {
      assert NamespaceText(nsp) + rest == rest;
    } else {
      var s := NamespaceText(nsp) + rest;
      assert s[1..] == nsp[1..] + [','] + rest;
      UntilStop(nsp[1..], ',', rest);
      assert nsp == "/" + nsp[1..];
    }
  }

  /** Id and data are found again, unless the id has no data after it or the data's text reads as digits. */
  lemma DataStage(p: Packet, id: Option<nat>, data: Option<Json.Value>)
    requires p.id.None? && p.data.None?
    requires id.Some? ==> id.value <= Decimal.USIZE_MAX
    requires data.Some? ==> Json.WellFormed(data.value)
    ensures AfterNamespace(p, IdText(id) + DataText(data)) == Ok(p.(id := id, data := data)) <==>
            (id.Some? ==> data.Some?) && (data.Some? ==> Recoverable(data.value))
  {
    hide Json.Parse, Json.Print, Decimal.Print, Decimal.ParseUnsigned, Decimal.Value;
    var idText, s := IdText(id), IdText(id) + DataText(data);
    if data.None? {
      AllDigitRun(s);
    } else if data.value.Number? && data.value.n >= 0 {
      PrintedNatural(data.value.n);
      AllDigitRun(s);
    } else {
      JsonProofs.FirstCharacter(data.value);
      Decimal.DigitRunOf(idText, DataText(data));
      assert s[|idText|..] == DataText(data);
      JsonProofs.RoundTrip(data.value);
      if id.Some? {
        Decimal.ParsePrinted(id.value, Decimal.USIZE_MAX);
      } else {
        NothingToParse();
      }
    }
  }

  lemma NothingToParse()
    ensures Decimal.ParseUnsigned("", Decimal.USIZE_MAX) == None
  {
  }

  lemma PrintedNatural(n: nat)
    ensures Json.Print(Json.Number(n)) == Decimal.Print(n)
  {
  }

  lemma AllDigitRun(s: string)
    requires Decimal.AllDigits(s)
    ensures Decimal.DigitRun(s) == s && s[|s|..] == []
  {
    Decimal.DigitRunOf(s, "");
    assert s + "" == s;
  }

  lemma BodyStart(p: Packet)
    ensures var rest := IdText(p.id) + DataText(p.data); rest != [] ==> rest[0] != '/'
  {
    if p.data.Some? {
      JsonProofs.FirstCharacter(p.data.value);
    }
  }

  /** Decoding the text of a packet gives the packet without its attachments exactly when the packet is encodable. */
  lemma CodecRoundTrip(p: Packet)
    requires Representable(p)
    ensures PacketOf(PacketBytes(p)) == Ok(Strip(p)) <==> Encodable(p)
  {
    Utf8.DecodeEncoded(PacketText(p));
    TextRoundTrip(p);
  }

  lemma TextRoundTrip(p: Packet)
    requires Representable(p)
    ensures TextPacket(PacketText(p)) == Ok(Strip(p)) <==> Encodable(p)
  {
    hide TextPacket, AfterCount, AfterNamespace, CountText, NamespaceText, IdText, DataText, Recoverable;
    if ValidNamespace(p.nsp) {
      var body := IdText(p.id) + DataText(p.data);
      var q := DEFAULT.(ptype := p.ptype, count := if IsBinary(p.ptype) then p.count else 0);
      CountStage(p, NamespaceText(p.nsp) + body);
      BodyStart(p);
      NamespaceStage(q, p.nsp, body);
      DataStage(q.(nsp := p.nsp), p.id, p.data);
      ShapeOfResult(q.(nsp := p.nsp), body);
    } else if TextPacket(PacketText(p)).Ok? {
      DecodedShape(PacketText(p));
    }
  }

  lemma ShapeOfResult(q: Packet, s: string)
    ensures AfterNamespace(q, s).Ok? ==> var r := AfterNamespace(q, s).value;
            r.ptype == q.ptype && r.nsp == q.nsp && r.count == q.count && r.attachments == q.attachments
  {
  }

  /** An empty array of data is read back as no data at all, though its id is kept. */
  lemma EmptyDataDropped(p: Packet)
    requires Representable(p) && Encodable(p.(data := Some(Json.Array([Json.Null])))) && p.data == Some(Json.Array([]))
    ensures PacketOf(PacketBytes(p)) == Ok(Strip(p).(data := None))
  {
    hide TextPacket, AfterCount, AfterNamespace, Decimal.Print, Decimal.Value;
    Utf8.DecodeEncoded(PacketText(p));
    var q := DEFAULT.(ptype := p.ptype, count := if IsBinary(p.ptype) then p.count else 0);
    var body := IdText(p.id) + DataText(p.data);
    CountStage(p, NamespaceText(p.nsp) + body);
    BodyStart(p);
    NamespaceStage(q, p.nsp, body);
    EmptyDataStage(q.(nsp := p.nsp), p.id);
  }

  lemma EmptyDataStage(p: Packet, id: Option<nat>)
    requires p.id.None? && p.data.None?
    requires id.Some? ==> id.value <= Decimal.USIZE_MAX
    ensures AfterNamespace(p, IdText(id) + DataText(Some(Json.Array([])))) == Ok(p.(id := id))
  {
    hide Json.Parse, Decimal.Print, Decimal.ParseUnsigned, Decimal.Value;
    var v := Json.Array([]);
    var idText, s := IdText(id), IdText(id) + DataText(Some(v));
    JsonProofs.FirstCharacter(v);
    Decimal.DigitRunOf(idText, DataText(Some(v)));
    assert s[|idText|..] == DataText(Some(v));
    JsonProofs.RoundTrip(v);
    if id.Some? {
      Decimal.ParsePrinted(id.value, Decimal.USIZE_MAX);
    } else {
      NothingToParse();
    }
  }

  /** Encodable packets with the same text are the same up to their attachments. */
  lemma EncodingInjective(p: Packet, q: Packet)
    requires Representable(p) && Representable(q) && Encodable(p) && Encodable(q)
    requires PacketBytes(p) == PacketBytes(q)
    ensures Strip(p) == Strip(q)
  {
    CodecRoundTrip(p);
    CodecRoundTrip(q);
  }

  /** The text of a packet contains the Engine.IO separator only if its namespace does. */
  lemma TextSeparatorFree(p: Packet)
    requires 0x1E as char !in p.nsp
    ensures 0x1E as byte !in PacketBytes(p) && PacketBytes(p) != []
  {
    var k := 0x1E as char;
    Utf8.AsciiByteIffChar(PacketText(p), 0x1E);
    assert k !in IdText(p.id) && k !in CountText(p) && k !in NamespaceText(p.nsp);
    if p.data.Some? {
      JsonProofs.PrintedPrintable(p.data.value);
    }
    assert k !in DataText(p.data);
    assert k != TypeChar(p.ptype);
  }

  // The wire format in plain text.

  /** The text of a packet: digit of the type, count and dash if binary, namespace and comma if not the default, id, data. */
  lemma TextLayout(p: Packet)
    ensures PacketText(p) ==
            (match p.ptype
             case Connect => "0" case Disconnect => "1" case Event => "2" case Ack => "3" case ConnectError => "4"
             case BinaryEvent => "5" + Decimal.Print(p.count) + "-" case BinaryAck => "6" + Decimal.Print(p.count) + "-") +
            (if p.nsp == "/" then "" else p.nsp + ",") +
            (if p.id.None? then "" else Decimal.Print(p.id.value)) +
            (if p.data.None? then "" else Json.Print(p.data.value))
  {
    hide Decimal.Print, Json.Print, CountText, NamespaceText, IdText, DataText;
    TypeAndCount(p);
    Regroup([TypeChar(p.ptype)], CountText(p), NamespaceText(p.nsp), IdText(p.id), DataText(p.data));
    OptionalTexts(p);
  }

  lemma Regroup(t: string, c: string, n: string, i: string, d: string)
    ensures t + (c + (n + (i + d))) == t + c + n + i + d
  {
  }

  lemma TypeAndCount(p: Packet)
    ensures [TypeChar(p.ptype)] + CountText(p) ==
            match p.ptype
            case Connect => "0" case Disconnect => "1" case Event => "2" case Ack => "3" case ConnectError => "4"
            case BinaryEvent => "5" + Decimal.Print(p.count) + "-" case BinaryAck => "6" + Decimal.Print(p.count) + "-"
  {
    hide Decimal.Print;
  }

  lemma OptionalTexts(p: Packet)
    ensures NamespaceText(p.nsp) == if p.nsp == "/" then "" else p.nsp + ","
    ensures IdText(p.id) == if p.id.None? then "" else Decimal.Print(p.id.value)
    ensures DataText(p.data) == if p.data.None? then "" else Json.Print(p.data.value)
  {
    hide Decimal.Print, Json.Print;
  }

  /** Exactly which texts are no packet, up to the namespace, and why. */
  lemma TextErrors(s: string)
    ensures s == "" ==> TextPacket(s) == Err(IncompletePacket)
    ensures s != "" && !('0' <= s[0] <= '6') ==> TextPacket(s) == Err(InvalidPacketType(s[0]))
    ensures s != "" && (s[0] == '5' || s[0] == '6') && '-' !in s[1..] ==> TextPacket(s) == Err(IncompletePacket)
    ensures s != "" && '0' <= s[0] <= '4' && |s| > 1 && s[1] == '/' && ',' !in s[2..] ==> TextPacket(s) == Err(IncompletePacket)
  {
    hide Json.Parse, Decimal.Value, Decimal.DigitRun;
    if s != "" {
      NoStop(s[1..], '-');
      if |s| > 1 {
        assert s[1..][0] == s[1] && s[1..][1..] == s[2..];
        NoStop(s[2..], ',');
      }
    }
  }

  lemma {:induction false} NoStop(s: string, stop: char)
    ensures Until(s, stop).None? <==> stop !in s
  {
    if s != [] {
      NoStop(s[1..], stop);
      assert s == [s[0]] + s[1..];
    }
  }

  /** After type and namespace: nothing but digits leaves the id unset, and what follows the digits must be JSON. */
  lemma BodyErrors(p: Packet, digits: string, rest: string)
    requires Decimal.AllDigits(digits) && (rest != "" ==> !Decimal.IsDigit(rest[0]))
    ensures rest == "" ==> AfterNamespace(p, digits + rest) == Ok(p)
    ensures rest != "" && Json.Parse(rest).None? ==> AfterNamespace(p, digits + rest) == Err(InvalidJson)
    ensures rest != "" && Json.Parse(rest).Some? ==>
              var v := Json.Parse(rest).value;
              AfterNamespace(p, digits + rest) ==
              Ok(p.(data := if v == Json.Array([]) then None else Some(v),
                    id := if digits != "" && Decimal.Value(digits) <= 0xFFFF_FFFF_FFFF_FFFF then Some(Decimal.Value(digits)) else None))
  {
    hide Json.Parse, Decimal.Value;
    Decimal.DigitRunOf(digits, rest);
    assert (digits + rest)[|digits|..] == rest;
    assert digits != "" ==> digits[0] != '+';
  }

  /** A count above 255 is read as zero. */
  lemma CountLimit(n: nat, rest: string)
    ensures TextPacket("5" + Decimal.Print(n) + "-" + rest) == AfterCount(DEFAULT.(ptype := BinaryEvent, count := if n <= 255 then n else 0), rest)
    ensures TextPacket("6" + Decimal.Print(n) + "-" + rest) == AfterCount(DEFAULT.(ptype := BinaryAck, count := if n <= 255 then n else 0), rest)
    ensures DEFAULT == Packet(Event, "/", None, None, 0, None)
  {
    hide Decimal.Print, AfterCount, Decimal.ParseUnsigned;
    var digits := Decimal.Print(n);
    Decimal.ParsePrinted(n, Decimal.U8_MAX);
    UntilStop(digits, '-', rest);
    assert ("5" + digits + "-" + rest)[1..] == digits + ['-'] + rest;
    assert ("6" + digits + "-" + rest)[1..] == digits + ['-'] + rest;
  }
}
