/**
 JSON values, their compact printing, and their parsing (RFC 8259), as the
 serde_json crate does them with its default features: integers only, object
 keys kept sorted, and a limit on how deeply arrays and objects may nest.
 */
module Json {
  import opened Wrappers
  import Decimal

  /** How many levels of recursion the parser allows itself. */
  const RECURSION_LIMIT: nat := 128

  datatype Field = Field(key: string, value: Value)

  datatype Value =
    | Null
    | Bool(b: bool)
    | Number(n: int)
    | String(s: string)
    | Array(items: seq<Value>)
    | Object(fields: seq<Field>)

  /** Strict lexicographic order by code point, the order in which objects keep their keys. */
  predicate Less(a: string, b: string) {
    b != [] && (a == [] || a[0] < b[0] || (a[0] == b[0] && Less(a[1..], b[1..])))
  }

  predicate SortedKeys(fields: seq<Field>) {
    forall i, j | 0 <= i < j < |fields| :: Less(fields[i].key, fields[j].key)
  }

  /** The integers that are kept as integers: `u64` and negative `i64`. */
  predicate IsInteger(n: int) {
    -0x8000_0000_0000_0000 <= n < 0x1_0000_0000_0000_0000
  }

  /** The values a program can hold: integers in range and sorted, hence distinct, object keys. */
  predicate WellFormed(v: Value) {
    match v
    case Number(n) => IsInteger(n)
    case Array(items) => forall i | 0 <= i < |items| :: WellFormed(items[i])
    case Object(fields) => SortedKeys(fields) && forall i | 0 <= i < |fields| :: WellFormed(fields[i].value)
    case _ => true
  }

  /** `Value::get` with a string key: only objects have fields. */
  function Get(v: Value, key: string): Option<Value> {
    if v.Object? then Lookup(v.fields, key) else None
  }

  function Lookup(fields: seq<Field>, key: string): Option<Value> {
    if fields == [] then None
    else if fields[0].key == key then Some(fields[0].value)
    else Lookup(fields[1..], key)
  }

  // How deeply arrays and objects are nested.

  function Depth(v: Value): nat {
    match v
    case Array(items) => 1 + ItemsDepth(items)
    case Object(fields) => 1 + FieldsDepth(fields)
    case _ => 0
  }

  function ItemsDepth(items: seq<Value>): nat {
    if items == [] then 0 else Max(Depth(items[0]), ItemsDepth(items[1..]))
  }

  function FieldsDepth(fields: seq<Field>): nat {
    if fields == [] then 0 else Max(Depth(fields[0].value), FieldsDepth(fields[1..]))
  }

  function Max(a: nat, b: nat): nat {
    if a < b then b else a
  }

  // Printing

  function Print(v: Value): (s: string)
    ensures s != []
  {
    match v
    case Null => "null"
    case Bool(b) => if b then "true" else "false"
    case Number(n) => if n < 0 then "-" + Decimal.Print(-n) else Decimal.Print(n)
    case String(s) => PrintString(s)
    case Array(items) => "[" + PrintItems(items) + "]"
    case Object(fields) => "{" + PrintFields(fields) + "}"
  }

  function PrintItems(items: seq<Value>): string {
    if items == [] then ""
    else if |items| == 1 then Print(items[0])
    else Print(items[0]) + "," + PrintItems(items[1..])
  }

  function PrintFields(fields: seq<Field>): string {
    if fields == [] then ""
    else if |fields| == 1 then PrintField(fields[0])
    else PrintField(fields[0]) + "," + PrintFields(fields[1..])
  }

  function PrintField(f: Field): string {
    PrintString(f.key) + ":" + Print(f.value)
  }

  function PrintString(s: string): string {
    "\"" + EscapeAll(s) + "\""
  }

  function EscapeAll(s: string): string {
    if s == [] then "" else Escape(s[0]) + EscapeAll(s[1..])
  }

  function Escape(c: char): string {
    if c == '"' then "\\\""
    else if c == '\\' then "\\\\"
    else if c as int >= 0x20 then [c]
    else if c as int == 0x08 then "\\b"
    else if c as int == 0x09 then "\\t"
    else if c as int == 0x0A then "\\n"
    else if c as int == 0x0C then "\\f"
    else if c as int == 0x0D then "\\r"
    else "\\u00" + [HexDigit(c as int / 16), HexDigit(c as int % 16)]
  }

  function HexDigit(d: nat): (c: char)
    requires d < 16
    ensures HexValue(c) == Some(d) && c as int >= 0x20
  {
    if d < 10 then (d + '0' as int) as char else (d - 10 + 'a' as int) as char
  }

  // Parsing

  function HexValue(c: char): Option<nat> {
    if '0' <= c <= '9' then Some(c as int - '0' as int)
    else if 'a' <= c <= 'f' then Some(c as int - 'a' as int + 10)
    else if 'A' <= c <= 'F' then Some(c as int - 'A' as int + 10)
    else None
  }

  predicate IsSpace(c: char) {
    c == ' ' || c == '\n' || c == '\t' || c == '\r'
  }

  function SkipSpace(s: string): (r: string)
    ensures |r| <= |s|
  {
    if s != [] && IsSpace(s[0]) then SkipSpace(s[1..]) else s
  }

  /** Four hexadecimal digits and the text after them. */
  function ParseHex4(s: string): (r: Option<(nat, string)>)
    ensures r.Some? ==> |r.value.1| + 4 == |s|
  {
    if |s| < 4 then
      None
    else
      var d0 :- HexValue(s[0]);
      var d1 :- HexValue(s[1]);
      var d2 :- HexValue(s[2]);
      var d3 :- HexValue(s[3]);
      Some((d0 * 4096 + d1 * 256 + d2 * 16 + d3, s[4..]))
  }

  /** The character meant by the text after a backslash; surrogates must come in pairs. */
  function ParseEscape(s: string): (r: Option<(char, string)>)
    ensures r.Some? ==> |r.value.1| < |s|
  {
    if s == [] then None
    else if s[0] == '"' || s[0] == '\\' || s[0] == '/' then Some((s[0], s[1..]))
    else if s[0] == 'b' then Some((0x08 as char, s[1..]))
    else if s[0] == 't' then Some((0x09 as char, s[1..]))
    else if s[0] == 'n' then Some((0x0A as char, s[1..]))
    else if s[0] == 'f' then Some((0x0C as char, s[1..]))
    else if s[0] == 'r' then Some((0x0D as char, s[1..]))
    else if s[0] != 'u' then None
    else
      var (n, rest) :- ParseHex4(s[1..]);
      if n < 0xD800 || 0xE000 <= n < 0x1_0000 then
        Some((n as char, rest))
      else if 0xDC00 <= n || |rest| < 2 || rest[0] != '\\' || rest[1] != 'u' then
        None
      else
        var (low, rest') :- ParseHex4(rest[2..]);
        if 0xDC00 <= low < 0xE000 then
          Some(((0x1_0000 + (n - 0xD800) * 0x400 + (low - 0xDC00)) as char, rest'))
        else
          None
  }

  /** A string literal after its opening quote. */
  function ParseString(s: string): (r: Option<(string, string)>)
    ensures r.Some? ==> |r.value.1| < |s|
    decreases |s|
  {
    if s == [] then
      None
    else if s[0] == '"' then
      Some(("", s[1..]))
    else if s[0] == '\\' then
      var (c, rest) :- ParseEscape(s[1..]);
      var (tail, rest') :- ParseString(rest);
      Some(([c] + tail, rest'))
    else if s[0] as int < 0x20 then
      None
    else
      var (tail, rest) :- ParseString(s[1..]);
      Some(([s[0]] + tail, rest))
  }

  /** An integer; text that continues as a fraction or an exponent, or an integer out of range, is not one. */
  function ParseNumber(s: string): (r: Option<(Value, string)>)
    ensures r.Some? ==> |r.value.1| < |s|
  {
    var negative := s != [] && s[0] == '-';
    var body := if negative then s[1..] else s;
    var digits := Decimal.DigitRun(body);
    var rest := body[|digits|..];
    if digits == [] || (digits[0] == '0' && |digits| > 1) || (rest != [] && (rest[0] == '.' || rest[0] == 'e' || rest[0] == 'E')) then
      None
    else
      var magnitude: int := Decimal.Value(digits);
      var n := if negative then -magnitude else magnitude;
      if IsInteger(n) && !(negative && n == 0) then Some((Number(n), rest)) else None
  }

  function ParseLiteral(s: string, literal: string, v: Value): (r: Option<(Value, string)>)
    requires literal != ""
    ensures r.Some? ==> |r.value.1| < |s|
  {
    if literal <= s then Some((v, s[|literal|..])) else None
  }

  /** A value at the front of `s`, with `depth` levels of recursion left, and the text after it. */
  function ParseValue(s: string, depth: nat): (r: Option<(Value, string)>)
    ensures r.Some? ==> |r.value.1| < |s|
    decreases |s|, 2
  {
    var t := SkipSpace(s);
    if t == [] then None
    else if t[0] == 'n' then ParseLiteral(t, "null", Null)
    else if t[0] == 't' then ParseLiteral(t, "true", Bool(true))
    else if t[0] == 'f' then ParseLiteral(t, "false", Bool(false))
    else if t[0] == '-' || Decimal.IsDigit(t[0]) then ParseNumber(t)
    else if t[0] == '"' then
      var (text, rest) :- ParseString(t[1..]);
      Some((String(text), rest))
    else if t[0] == '[' then
      if depth <= 1 then None
      else
        var u := SkipSpace(t[1..]);
        if u != [] && u[0] == ']' then Some((Array([]), u[1..]))
        else
          var (items, rest) :- ParseItems(u, depth - 1);
          Some((Array(items), rest))
    else if t[0] == '{' then
      if depth <= 1 then None
      else
        var u := SkipSpace(t[1..]);
        if u != [] && u[0] == '}' then Some((Object([]), u[1..]))
        else
          var (fields, rest) :- ParseFields(u, depth - 1, []);
          Some((Object(fields), rest))
    else None
  }

  /** One or more values separated by commas, up to the closing bracket. */
  function ParseItems(s: string, depth: nat): (r: Option<(seq<Value>, string)>)
    ensures r.Some? ==> |r.value.1| < |s|
    decreases |s|, 3
  {
    var (v, rest) :- ParseValue(s, depth);
    var t := SkipSpace(rest);
    if t != [] && t[0] == ']' then
      Some(([v], t[1..]))
    else if t != [] && t[0] == ',' then
      var (items, rest') :- ParseItems(t[1..], depth);
      Some(([v] + items, rest'))
    else
      None
  }

  /** One or more members separated by commas, up to the closing brace, added to those already read. */
  function ParseFields(s: string, depth: nat, before: seq<Field>): (r: Option<(seq<Field>, string)>)
    ensures r.Some? ==> |r.value.1| < |s|
    decreases |s|, 3
  {
    var t := SkipSpace(s);
    if t == [] || t[0] != '"' then
      None
    else
      var (key, rest) :- ParseString(t[1..]);
      var u := SkipSpace(rest);
      if u == [] || u[0] != ':' then
        None
      else
        var (v, rest') :- ParseValue(u[1..], depth);
        var fields := Insert(before, Field(key, v));
        var w := SkipSpace(rest');
        if w != [] && w[0] == '}' then
          Some((fields, w[1..]))
        else if w != [] && w[0] == ',' then
          ParseFields(w[1..], depth, fields)
        else
          None
  }

  /** Inserting into an object: at the key's place in the order, replacing an earlier value of the same key. */
  function Insert(fields: seq<Field>, f: Field): seq<Field> {
    if fields == [] || Less(f.key, fields[0].key) then [f] + fields
    else if fields[0].key == f.key then [f] + fields[1..]
    else [fields[0]] + Insert(fields[1..], f)
  }

  /** `serde_json::from_str`: one value, and nothing but white space around it. */
  function Parse(s: string): Option<Value> {
    var (v, rest) :- ParseValue(s, RECURSION_LIMIT);
    if SkipSpace(rest) == [] then Some(v) else None
  }
}
