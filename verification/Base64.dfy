/** Base64 with the standard alphabet and padding (section 4 of RFC 4648). */
module Base64 {
  import opened Wrappers
  import opened Bytes

  const PAD: byte := 0x3D

  function Symbol(v: nat): (c: byte)
    requires v < 64
    ensures c != PAD && c < 0x80 && c != 0x1E && c != 0x2D
    ensures SymbolValue(c) == Some(v)
  {
    if v < 26 then (v + 0x41) as byte
    else if v < 52 then (v - 26 + 0x61) as byte
    else if v < 62 then (v - 52 + 0x30) as byte
    else if v == 62 then 0x2B
    else 0x2F
  }

  function SymbolValue(c: byte): (r: Option<nat>)
    ensures r.Some? ==> r.value < 64
  {
    if 0x41 <= c <= 0x5A then Some(c as int - 0x41)
    else if 0x61 <= c <= 0x7A then Some(c as int - 0x61 + 26)
    else if 0x30 <= c <= 0x39 then Some(c as int - 0x30 + 52)
    else if c == 0x2B then Some(62)
    else if c == 0x2F then Some(63)
    else None
  }

  type sextet = v: nat | v < 64

  /** The second of the four sextets of a block: the low bits of one byte over the high bits of the next. */
  function Sextet1(a: byte, b: byte): sextet {
    a as int % 4 * 16 + b as int / 16
  }

  /** The third of the four sextets of a block. */
  function Sextet2(b: byte, c: byte): sextet {
    b as int % 16 * 4 + c as int / 64
  }

  /** The bits of `b` in groups of six, the last group filled up with zeros. */
  function Sextets(b: bytes): (v: seq<sextet>) {
    if |b| == 0 then
      []
    else if |b| == 1 then
      [b[0] as int / 4, Sextet1(b[0], 0)]
    else if |b| == 2 then
      [b[0] as int / 4, Sextet1(b[0], b[1]), Sextet2(b[1], 0)]
    else
      [b[0] as int / 4, Sextet1(b[0], b[1]), Sextet2(b[1], b[2]), b[2] as int % 64] + Sextets(b[3..])
  }

  function Symbols(v: seq<sextet>): (t: bytes)
    ensures |t| == |v|
    ensures forall i | 0 <= i < |t| :: t[i] == Symbol(v[i])
  {
    seq(|v|, i requires 0 <= i < |v| => Symbol(v[i]))
  }

  function Padding(n: nat): (p: bytes)
    ensures |p| == (3 - n % 3) % 3
  {
    if n % 3 == 0 then [] else if n % 3 == 1 then [PAD, PAD] else [PAD]
  }

  function Encode(b: bytes): bytes {
    Symbols(Sextets(b)) + Padding(|b|)
  }

  /** `encode` as the text it returns. */
  function EncodeText(b: bytes): string {
    Latin1(Encode(b))
  }

  function StripPadding(t: bytes): (body: bytes)
    ensures |body| <= |t|
  {
    if t != [] && t[|t| - 1] == PAD then StripPadding(t[..|t| - 1]) else t
  }

  function Byte0(v0: sextet, v1: sextet): byte {
    (v0 * 4 + v1 / 16) as byte
  }

  function Byte1(v1: sextet, v2: sextet): byte {
    (v1 % 16 * 16 + v2 / 4) as byte
  }

  function Byte2(v2: sextet, v3: sextet): byte {
    (v2 % 4 * 64 + v3) as byte
  }

  function Values(t: bytes): Option<seq<sextet>> {
    if forall i | 0 <= i < |t| :: SymbolValue(t[i]).Some? then
      Some(seq(|t|, i requires 0 <= i < |t| => SymbolValue(t[i]).value))
    else
      None
  }

  /** The bytes a run of sextets stands for; left-over bits must be zero. */
  function Pack(v: seq<sextet>): Option<bytes> {
    if |v| == 0 then
      Some([])
    else if |v| == 1 then
      None
    else if |v| == 2 then
      if v[1] % 16 == 0 then Some([Byte0(v[0], v[1])]) else None
    else if |v| == 3 then
      if v[2] % 4 == 0 then Some([Byte0(v[0], v[1]), Byte1(v[1], v[2])]) else None
    else
      var rest :- Pack(v[4..]);
      Some([Byte0(v[0], v[1]), Byte1(v[1], v[2]), Byte2(v[2], v[3])] + rest)
  }

  /** Decoding as the base64 crate does it: padding may be missing, but may not exceed the last group. */
  function Decode(t: bytes): Option<bytes> {
    var body := StripPadding(t);
    var pads := |t| - |body|;
    if pads == 0 || (|body| % 4 >= 2 && |body| % 4 + pads <= 4) then
      var values :- Values(body);
      Pack(values)
    else
      None
  }

  lemma BlockRoundTrip(a: byte, b: byte, c: byte)
    ensures Byte0(a as int / 4, Sextet1(a, b)) == a
    ensures Byte1(Sextet1(a, b), Sextet2(b, c)) == b
    ensures Byte2(Sextet2(b, c), c as int % 64) == c
    ensures Sextet1(a, 0) % 16 == 0 && Sextet2(b, 0) % 4 == 0
  {
    assert Sextet1(a, b) / 16 == a as int % 4 && Sextet1(a, b) % 16 == b as int / 16;
    assert Sextet2(b, c) / 4 == b as int % 16 && Sextet2(b, c) % 4 == c as int / 64;
  }

  lemma BlockRejoined(b: bytes)
    requires |b| >= 3
    ensures [Byte0(b[0] as int / 4, Sextet1(b[0], b[1])), Byte1(Sextet1(b[0], b[1]), Sextet2(b[1], b[2])),
             Byte2(Sextet2(b[1], b[2]), b[2] as int % 64)] + b[3..] == b
  {
    BlockRoundTrip(b[0], b[1], b[2]);
  }

  lemma PackStep(v: seq<sextet>, rest: seq<sextet>)
    requires |v| == 4 && Pack(rest).Some?
    ensures Pack(v + rest) == Some([Byte0(v[0], v[1]), Byte1(v[1], v[2]), Byte2(v[2], v[3])] + Pack(rest).value)
  {
    assert (v + rest)[4..] == rest;
  }

  lemma PackOne(a: byte)
    ensures Pack(Sextets([a])) == Some([a])
  {
    BlockRoundTrip(a, 0, 0);
  }

  lemma PackTwo(a: byte, b: byte)
    ensures Pack(Sextets([a, b])) == Some([a, b])
  {
    BlockRoundTrip(a, b, 0);
  }

  lemma {:induction false} PackSextets(b: bytes)
    ensures Pack(Sextets(b)) == Some(b)
  {
    if |b| == 1 {
      PackOne(b[0]);
      assert b == [b[0]];
    } else if |b| == 2 {
      PackTwo(b[0], b[1]);
      assert b == [b[0], b[1]];
    } else if |b| >= 3 {
      PackSextets(b[3..]);
      PackStep([b[0] as int / 4, Sextet1(b[0], b[1]), Sextet2(b[1], b[2]), b[2] as int % 64], Sextets(b[3..]));
      BlockRejoined(b);
    }
  }

  lemma ValuesOfSymbols(v: seq<sextet>)
    ensures Values(Symbols(v)) == Some(v)
  {
    assert Values(Symbols(v)).value == v;
  }

  lemma {:induction false} SextetsLength(b: bytes)
    ensures |Sextets(b)| % 4 == if |b| % 3 == 0 then 0 else |b| % 3 + 1
  {
    hide Sextet1, Sextet2;
    if |b| >= 3 {
      SextetsLength(b[3..]);
      assert |Sextets(b)| == 4 + |Sextets(b[3..])|;
    }
  }

  lemma {:induction false} StripPadded(body: bytes, p: bytes)
    requires body != [] ==> body[|body| - 1] != PAD
    requires forall i | 0 <= i < |p| :: p[i] == PAD
    ensures StripPadding(body + p) == body
  {
    if p == [] {
      assert body + p == body;
    } else {
      assert (body + p)[..|body + p| - 1] == body + p[..|p| - 1];
      StripPadded(body, p[..|p| - 1]);
    }
  }

  /** Decoding an encoding gives the bytes back, for every byte string. */
  lemma DecodeEncoded(b: bytes)
    ensures Decode(Encode(b)) == Some(b)
  {
    var v := Sextets(b);
    StripPadded(Symbols(v), Padding(|b|));
    SextetsLength(b);
    ValuesOfSymbols(v);
    PackSextets(b);
  }

  lemma EncodeInjective(a: bytes, b: bytes)
    requires Encode(a) == Encode(b)
    ensures a == b
  {
    DecodeEncoded(a);
    DecodeEncoded(b);
  }

  /** Base64 text is ASCII and contains neither the packet separator 0x1e nor a dash. */
  lemma EncodedAlphabet(b: bytes)
    ensures forall i | 0 <= i < |Encode(b)| :: Encode(b)[i] < 0x80 && Encode(b)[i] != 0x1E && Encode(b)[i] != 0x2D
  {
    var t := Symbols(Sextets(b));
    forall i | 0 <= i < |Encode(b)|
      ensures Encode(b)[i] < 0x80 && Encode(b)[i] != 0x1E && Encode(b)[i] != 0x2D
    {
      assert Encode(b)[i] == if i < |t| then t[i] else PAD;
    }
  }

  /** A byte string starting with the letter b encodes to text starting with Y. */
  lemma EncodedLetterB(b: bytes)
    requires b != [] && b[0] == 0x62
    ensures Encode(b) != [] && Encode(b)[0] == 0x59
  {
    assert Sextets(b)[0] == 24;
  }

  // The alphabet, and the encoding in terms of bits.

  /** The standard alphabet: upper case, lower case, digits, plus and slash. */
  lemma Alphabet(v: nat)
    requires v < 64
    ensures v < 26 ==> Symbol(v) as int == 'A' as int + v
    ensures 26 <= v < 52 ==> Symbol(v) as int == 'a' as int + (v - 26)
    ensures 52 <= v < 62 ==> Symbol(v) as int == '0' as int + (v - 52)
    ensures v == 62 ==> Symbol(v) as int == '+' as int
    ensures v == 63 ==> Symbol(v) as int == '/' as int
  {
  }

  /** The low `k` bits of a number, most significant first. */
  function LowBits(n: nat, k: nat): (r: seq<bool>)
    ensures |r| == k
  {
    if k == 0 then [] else LowBits(n / 2, k - 1) + [n % 2 == 1]
  }

  /** The bits of a byte string, and of a list of sextets. */
  function Bits(b: bytes): seq<bool> {
    if b == [] then [] else LowBits(b[0] as int, 8) + Bits(b[1..])
  }

  function BitsOfSextets(v: seq<sextet>): seq<bool> {
    if v == [] then [] else LowBits(v[0], 6) + BitsOfSextets(v[1..])
  }

  function Zeros(n: nat): seq<bool> {
    seq(n, _ => false)
  }

  function Power(k: nat): nat {
    if k == 0 then 1 else 2 * Power(k - 1)
  }

  /** Bits of a number put together from a high and a low part. */
  lemma {:induction false} BitsJoined(high: nat, i: nat, low: nat, k: nat)
    requires low < Power(k)
    ensures LowBits(high * Power(k) + low, i + k) == LowBits(high, i) + LowBits(low, k)
  {
    if k > 0 {
      Halved(high, Power(k - 1), low);
      BitsJoined(high, i, low / 2, k - 1);
      assert LowBits(high, i) + (LowBits(low / 2, k - 1) + [low % 2 == 1]) == LowBits(high, i) + LowBits(low / 2, k - 1) + [low % 2 == 1];
    } else {
      assert LowBits(high, i) + [] == LowBits(high, i);
    }
  }

  lemma Halved(high: nat, power: nat, low: nat)
    ensures var n := high * (2 * power) + low;
            n / 2 == high * power + low / 2 && n % 2 == low % 2
  {
    assert high * (2 * power) == 2 * (high * power);
  }

  lemma {:induction false} NoBits(k: nat)
    ensures LowBits(0, k) == Zeros(k)
  {
    if k > 0 {
      NoBits(k - 1);
    }
  }

  lemma Powers()
    ensures Power(2) == 4 && Power(4) == 16 && Power(6) == 64
  {
    assert Power(1) == 2 && Power(2) == 4 && Power(3) == 8 && Power(4) == 16 && Power(5) == 32;
  }

  /** The bits of three bytes and of the four sextets they are cut into. */
  lemma BlockBits(a: byte, b: byte, c: byte)
    ensures LowBits(a as int / 4, 6) + LowBits(Sextet1(a, b), 6) + LowBits(Sextet2(b, c), 6) + LowBits(c as int % 64, 6) ==
            LowBits(a as int, 8) + LowBits(b as int, 8) + LowBits(c as int, 8)
    ensures LowBits(a as int / 4, 6) + LowBits(Sextet1(a, b), 6) ==
            LowBits(a as int, 8) + LowBits(b as int / 16, 4)
    ensures LowBits(Sextet2(b, c), 6) == LowBits(b as int % 16, 4) + LowBits(c as int / 64, 2)
    ensures LowBits(b as int, 8) == LowBits(b as int / 16, 4) + LowBits(b as int % 16, 4)
  {
    hide LowBits, Power;
    Powers();
    var x, y, z := a as int, b as int, c as int;
    BitsJoined(x / 4, 6, x % 4, 2);
    BitsJoined(x % 4, 2, y / 16, 4);
    BitsJoined(y / 16, 4, y % 16, 4);
    BitsJoined(y % 16, 4, z / 64, 2);
    BitsJoined(z / 64, 2, z % 64, 6);
    assert x / 4 * 4 + x % 4 == x && y / 16 * 16 + y % 16 == y && z / 64 * 64 + z % 64 == z;
  }

  lemma SextetStep(v: sextet, rest: seq<sextet>)
    ensures BitsOfSextets([v] + rest) == LowBits(v, 6) + BitsOfSextets(rest)
  {
    assert ([v] + rest)[1..] == rest;
  }

  lemma ByteStep(a: byte, rest: bytes)
    ensures Bits([a] + rest) == LowBits(a as int, 8) + Bits(rest)
  {
    assert ([a] + rest)[1..] == rest;
  }

  lemma OneByte(a: byte)
    ensures BitsOfSextets(Sextets([a])) == Bits([a]) + Zeros(4)
  {
    hide LowBits, Zeros;
    BlockBits(a, 0, 0);
    NoBits(4);
    SextetStep(a as int / 4, [Sextet1(a, 0)]);
    SextetStep(Sextet1(a, 0), []);
    ByteStep(a, []);
    assert [a] + [] == [a] && [Sextet1(a, 0)] + [] == [Sextet1(a, 0)];
    assert Sextets([a]) == [a as int / 4] + [Sextet1(a, 0)];
    assert BitsOfSextets([]) == [] && Bits([]) == [];
    var zero: byte := 0;
    assert zero as int / 16 == 0;
    assert BitsOfSextets(Sextets([a])) == LowBits(a as int / 4, 6) + LowBits(Sextet1(a, zero), 6);
  }

  lemma TwoBytes(a: byte, b: byte)
    ensures BitsOfSextets(Sextets([a, b])) == Bits([a, b]) + Zeros(2)
  {
    hide LowBits, Zeros;
    BlockBits(a, b, 0);
    NoBits(2);
    SextetStep(a as int / 4, [Sextet1(a, b), Sextet2(b, 0)]);
    SextetStep(Sextet1(a, b), [Sextet2(b, 0)]);
    SextetStep(Sextet2(b, 0), []);
    ByteStep(a, [b]);
    ByteStep(b, []);
    var s0, s1, s2 := a as int / 4, Sextet1(a, b), Sextet2(b, 0);
    assert [b] + [] == [b] && [s2] + [] == [s2] && [a] + [b] == [a, b] && [s1] + [s2] == [s1, s2];
    assert Sextets([a, b]) == [s0] + [s1, s2];
    assert BitsOfSextets([]) == [] && Bits([]) == [];
    assert BitsOfSextets(Sextets([a, b])) == LowBits(s0, 6) + LowBits(s1, 6) + LowBits(s2, 6);
  }

  lemma Regroup(p: seq<bool>, q: seq<bool>, r: seq<bool>, s: seq<bool>, t: seq<bool>)
    ensures p + (q + (r + t)) == p + q + r + t
    ensures p + (q + (r + (s + t))) == p + q + r + s + t
  {
  }

  lemma SextetsOfBlock(a: byte, b: byte, c: byte, rest: bytes)
    ensures BitsOfSextets(Sextets([a, b, c] + rest)) ==
            LowBits(a as int / 4, 6) + LowBits(Sextet1(a, b), 6) + LowBits(Sextet2(b, c), 6) + LowBits(c as int % 64, 6) +
            BitsOfSextets(Sextets(rest))
  {
    hide LowBits, BitsOfSextets, Sextet1, Sextet2;
    var s0, s1, s2, s3, tail := a as int / 4, Sextet1(a, b), Sextet2(b, c), c as int % 64, Sextets(rest);
    assert ([a, b, c] + rest)[3..] == rest;
    assert Sextets([a, b, c] + rest) == [s0] + ([s1] + ([s2] + ([s3] + tail)));
    SextetStep(s0, [s1] + ([s2] + ([s3] + tail)));
    SextetStep(s1, [s2] + ([s3] + tail));
    SextetStep(s2, [s3] + tail);
    SextetStep(s3, tail);
    Regroup(LowBits(s0, 6), LowBits(s1, 6), LowBits(s2, 6), LowBits(s3, 6), BitsOfSextets(tail));
  }

  lemma BytesOfBlock(a: byte, b: byte, c: byte, rest: bytes)
    ensures Bits([a, b, c] + rest) == LowBits(a as int, 8) + LowBits(b as int, 8) + LowBits(c as int, 8) + Bits(rest)
  {
    hide LowBits, Bits;
    assert [a, b, c] + rest == [a] + ([b] + ([c] + rest));
    ByteStep(a, [b] + ([c] + rest));
    ByteStep(b, [c] + rest);
    ByteStep(c, rest);
    Regroup(LowBits(a as int, 8), LowBits(b as int, 8), LowBits(c as int, 8), [], Bits(rest));
  }

  lemma ThreeBytes(a: byte, b: byte, c: byte, rest: bytes, zeros: seq<bool>)
    requires BitsOfSextets(Sextets(rest)) == Bits(rest) + zeros
    ensures BitsOfSextets(Sextets([a, b, c] + rest)) == Bits([a, b, c] + rest) + zeros
  {
    hide LowBits, Bits, BitsOfSextets, Sextets, Sextet1, Sextet2;
    BlockBits(a, b, c);
    SextetsOfBlock(a, b, c, rest);
    BytesOfBlock(a, b, c, rest);
    var block := LowBits(a as int, 8) + LowBits(b as int, 8) + LowBits(c as int, 8);
    assert block + (Bits(rest) + zeros) == block + Bits(rest) + zeros;
  }

  /**
   What base64 encodes: the symbols stand for the bits of the bytes in groups of six,
   the last group filled up with zeros (section 4 of RFC 4648).
   */
  lemma {:induction false} SextetsAreBits(b: bytes)
    ensures BitsOfSextets(Sextets(b)) == Bits(b) + Zeros((3 - |b| % 3) % 3 * 2)
  {
    hide LowBits, Sextet1, Sextet2;
    if |b| == 1 {
      OneByte(b[0]);
      assert b == [b[0]];
    } else if |b| == 2 {
      TwoBytes(b[0], b[1]);
      assert b == [b[0], b[1]];
    } else if |b| >= 3 {
      SextetsAreBits(b[3..]);
      ThreeBytes(b[0], b[1], b[2], b[3..], Zeros((3 - |b| % 3) % 3 * 2));
      assert b == [b[0], b[1], b[2]] + b[3..];
    }
  }

  /** The length is filled up to a multiple of four with equals signs. */
  lemma PaddingFormat(b: bytes)
    ensures |b| % 3 == 0 ==> Encode(b) == Symbols(Sextets(b))
    ensures |b| % 3 == 1 ==> Encode(b) == Symbols(Sextets(b)) + [0x3D, 0x3D]
    ensures |b| % 3 == 2 ==> Encode(b) == Symbols(Sextets(b)) + [0x3D]
    ensures |Encode(b)| % 4 == 0
  {
    hide Sextets, Symbols;
    SextetsLength(b);
    assert Symbols(Sextets(b)) + [] == Symbols(Sextets(b));
  }

  /** Padding may be missing. */
  lemma UnpaddedDecoded(b: bytes)
    ensures Decode(Symbols(Sextets(b))) == Some(b)
  {
    hide Sextets, Pack, Values, Symbols;
    var t := Symbols(Sextets(b));
    SymbolsEnd(Sextets(b));
    StripPadded(t, []);
    assert t + [] == t;
    ValuesOfSymbols(Sextets(b));
    PackSextets(b);
  }

  lemma SymbolsEnd(v: seq<sextet>)
    ensures var t := Symbols(v); t != [] ==> t[|t| - 1] != PAD
  {
  }

  /** A byte outside the alphabet is an error. */
  lemma OutsideAlphabet(t: bytes, c: byte)
    requires SymbolValue(c).None? && c != 0x3D
    ensures Decode(t + [c]) == None
  {
    var longer := t + [c];
    assert longer[|t|] == c && StripPadding(longer) == longer;
  }
}
