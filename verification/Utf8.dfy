/** UTF-8 (RFC 3629): `String::into_bytes` and the strict `String::from_utf8`. */
module Utf8 {
  import opened Wrappers
  import opened Bytes

  function EncodeChar(c: char): (b: bytes)
    ensures b != []
  {
    var n := c as int;
    if n < 0x80 then
      [n as byte]
    else if n < 0x800 then
      [(0xC0 + n / 64) as byte, Tail(n)]
    else if n < 0x1_0000 then
      [(0xE0 + n / 4096) as byte, Tail(n / 64), Tail(n)]
    else
      [(0xF0 + n / 262144) as byte, Tail(n / 4096), Tail(n / 64), Tail(n)]
  }

  /** The continuation byte carrying the low six bits of `n`. */
  function Tail(n: nat): (b: byte)
    ensures IsTail(b) && TailBits(b) == n % 64
  {
    (0x80 + n % 64) as byte
  }

  predicate IsTail(b: byte) {
    0x80 <= b < 0xC0
  }

  function TailBits(b: byte): (n: nat)
    requires IsTail(b)
    ensures n < 64
  {
    b as int - 0x80
  }

  function Encode(s: string): bytes {
    if s == [] then [] else EncodeChar(s[0]) + Encode(s[1..])
  }

  /** How many bytes the character introduced by lead byte `b` takes; zero for a byte that introduces none. */
  function Width(b: byte): nat {
    if b < 0x80 then 1
    else if 0xC2 <= b < 0xE0 then 2
    else if 0xE0 <= b < 0xF0 then 3
    else if 0xF0 <= b < 0xF5 then 4
    else 0
  }

  /** The code point at the front of `b`, unless the front is not a shortest-form scalar value. */
  function DecodeFirst(b: bytes): (r: Option<char>)
    requires b != []
  {
    var w := Width(b[0]);
    if w == 0 || |b| < w || exists i | 1 <= i < w :: !IsTail(b[i]) then
      None
    else if w == 1 then
      Some(b[0] as int as char)
    else if w == 2 then
      Some(((b[0] as int - 0xC0) * 64 + TailBits(b[1])) as char)
    else if w == 3 then
      var n := (b[0] as int - 0xE0) * 4096 + TailBits(b[1]) * 64 + TailBits(b[2]);
      if 0x800 <= n < 0xD800 || 0xE000 <= n then Some(n as char) else None
    else
      var n := (b[0] as int - 0xF0) * 262144 + TailBits(b[1]) * 4096 + TailBits(b[2]) * 64 + TailBits(b[3]);
      if 0x1_0000 <= n < 0x11_0000 then Some(n as char) else None
  }

  function Decode(b: bytes): Option<string> {
    if b == [] then
      Some([])
    else
      var c :- DecodeFirst(b);
      var w := Width(b[0]);
      if w == 0 || |b| < w then None else
      var rest :- Decode(b[w..]);
      Some([c] + rest)
  }

  lemma SixBitGroups(n: nat)
    ensures n / 64 / 64 == n / 4096 && n / 4096 / 64 == n / 262144
    ensures n == n / 64 * 64 + n % 64
    ensures n / 64 == n / 4096 * 64 + n / 64 % 64
    ensures n / 4096 == n / 262144 * 64 + n / 4096 % 64
  {
  }

  lemma DecodeFirstEncoded(c: char, rest: bytes)
    ensures DecodeFirst(EncodeChar(c) + rest) == Some(c)
    ensures Width((EncodeChar(c) + rest)[0]) == |EncodeChar(c)|
  {
    var n := c as int;
    SixBitGroups(n);
    var b := EncodeChar(c) + rest;
    if n < 0x80 {
    } else if n < 0x800 {
      assert b[0] == (0xC0 + n / 64) as byte && b[1] == Tail(n);
    } else if n < 0x1_0000 {
      assert b[0] == (0xE0 + n / 4096) as byte && b[1] == Tail(n / 64) && b[2] == Tail(n);
    } else {
      assert b[0] == (0xF0 + n / 262144) as byte && b[1] == Tail(n / 4096) && b[2] == Tail(n / 64) && b[3] == Tail(n);
    }
  }

  lemma {:induction false} DecodeEncoded(s: string)
    ensures Decode(Encode(s)) == Some(s)
  {
    if s != [] {
      DecodeFirstEncoded(s[0], Encode(s[1..]));
      var w := |EncodeChar(s[0])|;
      assert Encode(s)[w..] == Encode(s[1..]);
      DecodeEncoded(s[1..]);
      assert [s[0]] + s[1..] == s;
    }
  }

  lemma Regroup2(h: nat, l: nat)
    requires l < 64
    ensures (h * 64 + l) / 64 == h && (h * 64 + l) % 64 == l
  {
  }

  lemma Regroup3(h: nat, m: nat, l: nat)
    requires m < 64 && l < 64
    ensures var n := h * 4096 + m * 64 + l; n / 4096 == h && n / 64 % 64 == m && n % 64 == l
  {
    var n := h * 4096 + m * 64 + l;
    assert n / 64 == h * 64 + m;
    assert n / 4096 == n / 64 / 64;
  }

  lemma Regroup4(h: nat, k: nat, m: nat, l: nat)
    requires k < 64 && m < 64 && l < 64
    ensures var n := h * 262144 + k * 4096 + m * 64 + l;
            n / 262144 == h && n / 4096 % 64 == k && n / 64 % 64 == m && n % 64 == l
  {
    var n := h * 262144 + k * 4096 + m * 64 + l;
    Regroup3(h * 64 + k, m, l);
    assert n / 4096 == h * 64 + k;
    assert n / 262144 == n / 4096 / 64;
  }

  lemma EncodeDecodedTwo(b: bytes)
    requires b != [] && DecodeFirst(b).Some? && Width(b[0]) == 2
    ensures 2 <= |b| && EncodeChar(DecodeFirst(b).value) == b[..2]
  {
    assert IsTail(b[1]);
    Regroup2(b[0] as int - 0xC0, TailBits(b[1]));
    assert b[..2] == [b[0], b[1]];
  }

  lemma EncodeDecodedThree(b: bytes)
    requires b != [] && DecodeFirst(b).Some? && Width(b[0]) == 3
    ensures 3 <= |b| && EncodeChar(DecodeFirst(b).value) == b[..3]
  {
    assert IsTail(b[1]) && IsTail(b[2]);
    Regroup3(b[0] as int - 0xE0, TailBits(b[1]), TailBits(b[2]));
    assert b[..3] == [b[0], b[1], b[2]];
  }

  lemma EncodeDecodedFour(b: bytes)
    requires b != [] && DecodeFirst(b).Some? && Width(b[0]) == 4
    ensures 4 <= |b| && EncodeChar(DecodeFirst(b).value) == b[..4]
  {
    assert IsTail(b[1]) && IsTail(b[2]) && IsTail(b[3]);
    Regroup4(b[0] as int - 0xF0, TailBits(b[1]), TailBits(b[2]), TailBits(b[3]));
    assert b[..4] == [b[0], b[1], b[2], b[3]];
  }

  lemma EncodeDecodedFirst(b: bytes)
    requires b != [] && DecodeFirst(b).Some?
    ensures var w := Width(b[0]); 0 < w <= |b| && EncodeChar(DecodeFirst(b).value) == b[..w]
  {
    var w := Width(b[0]);
    if w == 2 {
      EncodeDecodedTwo(b);
    } else if w == 3 {
      EncodeDecodedThree(b);
    } else if w == 4 {
      EncodeDecodedFour(b);
    }
  }

  /** A byte string is accepted only if it is the encoding of the string it decodes to. */
  lemma {:induction false} EncodeDecoded(b: bytes)
    requires Decode(b).Some?
    ensures Encode(Decode(b).value) == b
  {
    hide EncodeChar, DecodeFirst, Width;
    if b != [] {
      EncodeDecodedFirst(b);
      var w := Width(b[0]);
      EncodeDecoded(b[w..]);
      var s := Decode(b).value;
      assert s[1..] == Decode(b[w..]).value;
      assert b == b[..w] + b[w..];
    }
  }

  lemma {:induction false} EncodeConcat(s: string, t: string)
    ensures Encode(s + t) == Encode(s) + Encode(t)
  {
    if s == [] {
      assert s + t == t;
    } else {
      assert (s + t)[1..] == s[1..] + t;
      EncodeConcat(s[1..], t);
    }
  }

  /** A byte below 0x80 occurs in the encoding exactly when the character with that code occurs in the text. */
  lemma {:induction false} AsciiByteIffChar(s: string, k: byte)
    requires k < 0x80
    ensures k in Encode(s) <==> k as int as char in s
  {
    if s != [] {
      AsciiByteIffChar(s[1..], k);
      assert k in EncodeChar(s[0]) <==> s[0] == k as int as char;
      assert s == [s[0]] + s[1..];
    }
  }

  /** ASCII text encodes to one byte per character. */
  lemma {:induction false} EncodeAscii(b: bytes)
    requires forall i | 0 <= i < |b| :: b[i] < 0x80
    ensures Encode(Latin1(b)) == b
  {
    if b != [] {
      var s := Latin1(b);
      assert s[1..] == Latin1(b[1..]);
      EncodeAscii(b[1..]);
      assert b == [b[0]] + b[1..];
    }
  }

  /** Characters of every length, as in section 7 of RFC 3629. */
  lemma EncodeExamples()
    ensures EncodeChar('A') == [0x41] && EncodeChar('\U{2262}') == [0xE2, 0x89, 0xA2] && EncodeChar('\U{391}') == [0xCE, 0x91]
    ensures EncodeChar('\U{65E5}') == [0xE6, 0x97, 0xA5] && EncodeChar('\U{233B4}') == [0xF0, 0xA3, 0x8E, 0xB4]
  {
  }
}
