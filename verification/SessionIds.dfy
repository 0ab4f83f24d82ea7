/**
 Session ids: `SidGenerator` in engineio/src/server/server.rs, and the one in
 socketio/src/server/server.rs, whose ids carry the engine's id inside.
 */
module SessionIds {
  import opened Wrappers
  import opened Bytes
  import Base64
  import Decimal
  import Utf8

  /** The counters are `usize` and wrap around. */
  const COUNTS: nat := 0x1_0000_0000_0000_0000

  type Sid = string

  function TextSid(text: string): Sid {
    Base64.EncodeText(Utf8.Encode(text))
  }

  function EngineSid(seqNo: nat): Sid {
    TextSid(Decimal.Print(seqNo))
  }

  function SocketSid(esid: Sid, seqNo: nat): Sid {
    TextSid(esid + "-" + Decimal.Print(seqNo))
  }

  /** What comes before the first dash. */
  function FirstToken(s: string): (t: string)
    ensures '-' !in t && t <= s && (t < s ==> s[|t|] == '-')
  {
    if s == [] || s[0] == '-' then [] else [s[0]] + FirstToken(s[1..])
  }

  /** The engine's id inside a socket's id; any string can be asked for. */
  function DecodeSid(sid: Sid): Option<Sid> {
    var sidVec :- Base64.Decode(Utf8.Encode(sid));
    var text :- Utf8.Decode(sidVec);
    Some(FirstToken(text))
  }

  lemma TextSidBytes(text: string)
    ensures Utf8.Encode(TextSid(text)) == Base64.Encode(Utf8.Encode(text))
  {
    hide Base64.Encode, Utf8.Encode;
    Base64.EncodedAlphabet(Utf8.Encode(text));
    Utf8.EncodeAscii(Base64.Encode(Utf8.Encode(text)));
  }

  lemma TextSidInjective(s: string, t: string)
    requires TextSid(s) == TextSid(t)
    ensures s == t
  {
    hide Base64.Encode, Utf8.Encode, Utf8.Decode, TextSid;
    TextSidBytes(s);
    TextSidBytes(t);
    Base64.EncodeInjective(Utf8.Encode(s), Utf8.Encode(t));
    Utf8.DecodeEncoded(s);
    Utf8.DecodeEncoded(t);
  }

  lemma {:induction false} FirstTokenOf(s: string, rest: string)
    ensures FirstToken(s + "-" + rest) == FirstToken(s)
    ensures FirstToken(s) == s <==> '-' !in s
  {
    if s != [] {
      assert (s + "-" + rest)[1..] == s[1..] + "-" + rest;
      FirstTokenOf(s[1..], rest);
      assert s == [s[0]] + s[1..];
    }
  }

  /** A generated id decodes to the engine's id it was made for, exactly when that one has no dash. */
  lemma DecodeGenerated(esid: Sid, seqNo: nat)
    ensures DecodeSid(SocketSid(esid, seqNo)) == Some(FirstToken(esid))
    ensures DecodeSid(SocketSid(esid, seqNo)) == Some(esid) <==> '-' !in esid
  {
    hide Base64.Encode, Base64.Decode, Utf8.Encode, Utf8.Decode, TextSid;
    var text := esid + "-" + Decimal.Print(seqNo);
    TextSidBytes(text);
    Base64.DecodeEncoded(Utf8.Encode(text));
    Utf8.DecodeEncoded(text);
    FirstTokenOf(esid, Decimal.Print(seqNo));
  }

  /** Base64 has no dash, so every id of the engine's generator survives. */
  lemma EngineSidDashFree(seqNo: nat)
    ensures '-' !in EngineSid(seqNo)
  {
    hide Base64.Encode;
    Base64.EncodedAlphabet(Utf8.Encode(Decimal.Print(seqNo)));
  }

  lemma EngineSidDecoded(engineNo: nat, seqNo: nat)
    ensures DecodeSid(SocketSid(EngineSid(engineNo), seqNo)) == Some(EngineSid(engineNo))
  {
    EngineSidDashFree(engineNo);
    DecodeGenerated(EngineSid(engineNo), seqNo);
  }

  lemma EngineSidInjective(m: nat, n: nat)
    ensures EngineSid(m) == EngineSid(n) <==> m == n
  {
    hide TextSid;
    if EngineSid(m) == EngineSid(n) {
      TextSidInjective(Decimal.Print(m), Decimal.Print(n));
      Decimal.PrintInjective(m, n);
    }
  }

  /** What comes after the last dash. */
  ghost function LastToken(s: string): string {
    if s == [] || s[|s| - 1] == '-' then [] else LastToken(s[..|s| - 1]) + [s[|s| - 1]]
  }

  lemma {:induction false} LastTokenOf(s: string, digits: string)
    requires Decimal.AllDigits(digits)
    ensures LastToken(s + "-" + digits) == digits
  {
    if digits != [] {
      var n := |digits| - 1;
      assert (s + "-" + digits)[..|s| + 1 + n] == s + "-" + digits[..n];
      LastTokenOf(s, digits[..n]);
    }
  }

  /** The last dash separates a socket's id: what follows it has only digits. */
  lemma LastDash(a: string, m: nat, b: string, n: nat)
    requires a + "-" + Decimal.Print(m) == b + "-" + Decimal.Print(n)
    ensures a == b && m == n
  {
    var text := a + "-" + Decimal.Print(m);
    LastTokenOf(a, Decimal.Print(m));
    LastTokenOf(b, Decimal.Print(n));
    Decimal.PrintInjective(m, n);
    assert a == text[..|a|] && b == text[..|b|];
  }

  /** Two socket ids are the same only if both the engine's ids and the counters are, dashes or not. */
  lemma SocketSidInjective(e: Sid, m: nat, f: Sid, n: nat)
    ensures SocketSid(e, m) == SocketSid(f, n) <==> e == f && m == n
  {
    hide TextSid;
    if SocketSid(e, m) == SocketSid(f, n) {
      TextSidInjective(e + "-" + Decimal.Print(m), f + "-" + Decimal.Print(n));
      LastDash(e, m, f, n);
    }
  }

  predicate Distinct(ids: seq<Sid>) {
    forall i, j | 0 <= i < j < |ids| :: ids[i] != ids[j]
  }

  /** The first `n` ids of a new engine generator. */
  function EngineRun(n: nat): (ids: seq<Sid>)
    ensures |ids| == n
  {
    seq(n, i requires 0 <= i < n => EngineSid(i % COUNTS))
  }

  /** What a new socket generator makes of a list of engine ids. */
  function SocketRun(esids: seq<Sid>): (ids: seq<Sid>)
    ensures |ids| == |esids|
  {
    seq(|esids|, i requires 0 <= i < |esids| => SocketSid(esids[i], i % COUNTS))
  }

  /** All ids of a run are distinct exactly until the counter wraps around. */
  lemma EngineRunDistinct(n: nat)
    ensures Distinct(EngineRun(n)) <==> n <= 0x1_0000_0000_0000_0000
  {
    hide EngineSid;
    var ids := EngineRun(n);
    if n > COUNTS {
      assert ids[0] == ids[COUNTS];
    } else {
      forall i, j | 0 <= i < j < n
        ensures ids[i] != ids[j]
      {
        assert i % COUNTS == i && j % COUNTS == j;
        EngineSidInjective(i, j);
      }
    }
  }

  /**
   Socket ids of a run coincide exactly when they were made for the same engine id
   a multiple of the counter's range apart.
   */
  lemma SocketRunDistinct(esids: seq<Sid>)
    ensures Distinct(SocketRun(esids)) <==>
            forall i, j | 0 <= i < j < |esids| :: esids[i] != esids[j] || i % COUNTS != j % COUNTS
    ensures |esids| <= 0x1_0000_0000_0000_0000 ==> Distinct(SocketRun(esids))
  {
    hide SocketSid;
    var ids := SocketRun(esids);
    forall i, j | 0 <= i < j < |esids|
      ensures ids[i] != ids[j] <==> esids[i] != esids[j] || i % COUNTS != j % COUNTS
      ensures j < COUNTS ==> i % COUNTS != j % COUNTS
    {
      SocketSidInjective(esids[i], i % COUNTS, esids[j], j % COUNTS);
    }
  }

  class EngineSidGenerator {
    var seqNo: nat
    ghost var generated: nat

    ghost predicate Valid()
      reads this
    {
      seqNo == generated % COUNTS
    }

    constructor ()
      ensures Valid() && generated == 0
    {
      seqNo, generated := 0, 0;
    }

    /** The next id of `EngineRun`. */
    method Generate() returns (sid: Sid)
      requires Valid()
      modifies this
      ensures Valid() && generated == old(generated) + 1
      ensures EngineRun(generated) == EngineRun(old(generated)) + [sid]
    {
      hide EngineSid, EngineRun;
      sid := EngineSid(seqNo);
      NextCount(generated);
      NextEngineSid(generated);
      seqNo := (seqNo + 1) % COUNTS;
      generated := generated + 1;
    }
  }

  class SocketSidGenerator {
    var seqNo: nat
    ghost var asked: seq<Sid>

    ghost predicate Valid()
      reads this
    {
      seqNo == |asked| % COUNTS
    }

    constructor ()
      ensures Valid() && asked == []
    {
      seqNo, asked := 0, [];
    }

    /** The next id of `SocketRun`, which decodes to the engine's id if that has no dash. */
    method Generate(engineSid: Sid) returns (sid: Sid)
      requires Valid()
      modifies this
      ensures Valid() && asked == old(asked) + [engineSid]
      ensures SocketRun(asked) == SocketRun(old(asked)) + [sid]
      ensures DecodeSid(sid) == Some(engineSid) <==> '-' !in engineSid
    {
      hide SocketSid, DecodeSid, SocketRun;
      sid := SocketSid(engineSid, seqNo);
      DecodeGenerated(engineSid, seqNo);
      NextCount(|asked|);
      NextOfRun(asked, engineSid);
      seqNo := (seqNo + 1) % COUNTS;
      asked := asked + [engineSid];
    }
  }

  lemma NextEngineSid(n: nat)
    ensures EngineRun(n + 1) == EngineRun(n) + [EngineSid(n % COUNTS)]
  {
    hide EngineSid;
  }

  lemma NextOfRun(esids: seq<Sid>, esid: Sid)
    ensures SocketRun(esids + [esid]) == SocketRun(esids) + [SocketSid(esid, |esids| % COUNTS)]
  {
    hide SocketSid;
  }

  lemma NextCount(i: nat)
    ensures (i % COUNTS + 1) % COUNTS == (i + 1) % COUNTS
  {
  }

  /** What the ids are the base64 of: the counter in decimal, and the engine's id, a dash and the counter. */
  lemma SidTexts(esid: Sid, n: nat)
    ensures var read := Base64.Decode(Utf8.Encode(EngineSid(n))); read.Some? && Utf8.Decode(read.value) == Some(Decimal.Print(n))
    ensures var read := Base64.Decode(Utf8.Encode(SocketSid(esid, n)));
            read.Some? && Utf8.Decode(read.value) == Some(esid + "-" + Decimal.Print(n))
  {
    hide Base64.Encode, Base64.Decode, Utf8.Encode, Utf8.Decode, TextSid;
    var own, joined := Decimal.Print(n), esid + "-" + Decimal.Print(n);
    TextSidBytes(own);
    TextSidBytes(joined);
    Base64.DecodeEncoded(Utf8.Encode(own));
    Base64.DecodeEncoded(Utf8.Encode(joined));
    Utf8.DecodeEncoded(own);
    Utf8.DecodeEncoded(joined);
  }

  /** Asking for an id that is not base64, or not of text, finds no engine id. */
  lemma NoSid(sid: Sid)
    ensures Base64.Decode(Utf8.Encode(sid)).None? ==> DecodeSid(sid) == None
    ensures Base64.Decode(Utf8.Encode(sid)).Some? && Utf8.Decode(Base64.Decode(Utf8.Encode(sid)).value).None? ==> DecodeSid(sid) == None
    ensures '-' in sid ==> DecodeSid(sid) == None
  {
    hide Base64.Pack, Utf8.Decode;
    if '-' in sid {
      Utf8.AsciiByteIffChar(sid, 0x2D);
      DashNotDecoded(Utf8.Encode(sid));
    }
  }

  lemma DashNotDecoded(t: bytes)
    requires 0x2D in t
    ensures Base64.Decode(t) == None
  {
    hide Base64.Pack;
    StripKeeps(t, 0x2D);
    var body := Base64.StripPadding(t);
    var i :| 0 <= i < |body| && body[i] == 0x2D;
    assert Base64.SymbolValue(body[i]).None?;
  }

  lemma {:induction false} StripKeeps(t: bytes, c: byte)
    requires c in t && c != Base64.PAD
    ensures c in Base64.StripPadding(t)
  {
    if t[|t| - 1] == Base64.PAD {
      assert t == t[..|t| - 1] + [t[|t| - 1]];
      StripKeeps(t[..|t| - 1], c);
    }
  }
}
