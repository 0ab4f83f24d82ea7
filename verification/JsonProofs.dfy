/** Parsing undoes printing, exactly for the values that do not nest too deeply; and what printed text looks like. */
module JsonProofs {
  import opened Wrappers
  import opened Json
  import Decimal

  lemma HexRoundTrip(high: nat, low: nat, rest: string)
    requires high < 16 && low < 16
    ensures ParseHex4("00" + [HexDigit(high), HexDigit(low)] + rest) == Some((high * 16 + low, rest))
  {
    var s := "00" + [HexDigit(high), HexDigit(low)] + rest;
    assert s[0] == '0' && s[1] == '0' && s[2] == HexDigit(high) && s[3] == HexDigit(low);
    assert s[4..] == rest;
  }

  /** A control character without a short escape is read back from its four digits. */
  lemma ControlRoundTrip(c: char, rest: string)
    requires c as int < 0x20
    ensures ParseEscape("u00" + [HexDigit(c as int / 16), HexDigit(c as int % 16)] + rest) == Some((c, rest))
  {
    hide ParseHex4, HexDigit;
    var s := "u00" + [HexDigit(c as int / 16), HexDigit(c as int % 16)] + rest;
    HexRoundTrip(c as int / 16, c as int % 16, rest);
    assert s[1..] == "00" + [HexDigit(c as int / 16), HexDigit(c as int % 16)] + rest;
  }

  /** What follows the backslash of an escape is read back as the character. */
  lemma AfterBackslash(c: char, rest: string)
    requires |Escape(c)| > 1
    ensures (Escape(c) + rest)[0] == '\\' && ParseEscape((Escape(c) + rest)[1..]) == Some((c, rest))
  {
    hide ParseHex4, HexDigit;
    var s := Escape(c) + rest;
    if |Escape(c)| == 2 {
      assert s[1..] == [Escape(c)[1]] + rest && s[1..][1..] == rest;
    } else {
      ControlRoundTrip(c, rest);
      assert s[1..] == "u00" + [HexDigit(c as int / 16), HexDigit(c as int % 16)] + rest;
    }
  }

  lemma EscapeRoundTrip(c: char, rest: string)
    ensures ParseString(Escape(c) + rest) ==
            if ParseString(rest).None? then None
            else Some(([c] + ParseString(rest).value.0, ParseString(rest).value.1))
  {
    hide ParseEscape;
    var s := Escape(c) + rest;
    if |Escape(c)| > 1 {
      AfterBackslash(c, rest);
    } else {
      assert s[1..] == rest;
    }
  }

  lemma {:induction false} StringRoundTrip(s: string, rest: string)
    ensures ParseString(EscapeAll(s) + "\"" + rest) == Some((s, rest))
  {
    if s == [] {
      assert EscapeAll(s) + "\"" + rest == "\"" + rest;
    } else {
      var tail := EscapeAll(s[1..]) + "\"" + rest;
      assert EscapeAll(s) + "\"" + rest == Escape(s[0]) + tail;
      EscapeRoundTrip(s[0], tail);
      StringRoundTrip(s[1..], rest);
      assert [s[0]] + s[1..] == s;
    }
  }

  /** What may follow a printed value: nothing, or the punctuation that ends it. */
  predicate Ends(rest: string) {
    rest == [] || rest[0] == ',' || rest[0] == ']' || rest[0] == '}'
  }

  lemma NumberText(m: nat, rest: string)
    requires Ends(rest)
    ensures var d := Decimal.Print(m);
            Decimal.DigitRun(d + rest) == d && (d + rest)[|d|..] == rest && Decimal.Value(d) == m && (d[0] == '0' ==> |d| == 1)
  {
    Decimal.DigitRunOf(Decimal.Print(m), rest);
    Decimal.NoLeadingZero(m);
    Decimal.PrintThenValue(m);
  }

  lemma DigitsRoundTrip(d: string, m: nat, rest: string)
    requires d != [] && Decimal.AllDigits(d) && Decimal.Value(d) == m && Ends(rest)
    requires Decimal.DigitRun(d + rest) == d && (d + rest)[|d|..] == rest && (d[0] == '0' ==> |d| == 1)
    ensures IsInteger(m) ==> ParseNumber(d + rest) == Some((Number(m), rest))
    ensures IsInteger(0 - m) && m > 0 ==> ParseNumber("-" + (d + rest)) == Some((Number(0 - m), rest))
  {
    assert ("-" + (d + rest))[1..] == d + rest;
    assert Decimal.IsDigit((d + rest)[0]);
  }

  lemma NumberRoundTrip(n: int, rest: string)
    requires IsInteger(n) && Ends(rest)
    ensures ParseNumber(Print(Number(n)) + rest) == Some((Number(n), rest))
  {
    hide ParseNumber, Decimal.Print, Decimal.Value;
    var m := if n < 0 then -n else n;
    var d := Decimal.Print(m);
    NumberText(m, rest);
    DigitsRoundTrip(d, m, rest);
    assert n < 0 ==> Print(Number(n)) + rest == "-" + (d + rest);
  }

  /** The first character of printed text says what kind of value follows. */
  lemma FirstCharacter(v: Value)
    ensures v.Array? <==> Print(v)[0] == '['
    ensures v.Object? <==> Print(v)[0] == '{'
    ensures v.String? <==> Print(v)[0] == '"'
    ensures v.Null? <==> Print(v)[0] == 'n'
    ensures v == Bool(true) <==> Print(v)[0] == 't'
    ensures v == Bool(false) <==> Print(v)[0] == 'f'
    ensures v.Number? && v.n < 0 <==> Print(v)[0] == '-'
    ensures v.Number? && v.n >= 0 <==> Decimal.IsDigit(Print(v)[0])
  {
    if v.Number? && v.n >= 0 {
      assert Decimal.IsDigit(Print(v)[0]);
    }
  }

  lemma NotSpace(s: string)
    requires s != [] && !IsSpace(s[0])
    ensures SkipSpace(s) == s
  {
  }

  /**
   Parsing what was printed gives the value back and stops where it ended, if
   the value nests less deeply than the parser may recurse; otherwise it fails.
   */
  lemma {:induction false} ParsePrinted(v: Value, rest: string, depth: nat)
    requires WellFormed(v) && Ends(rest) && depth >= 1
    ensures ParseValue(Print(v) + rest, depth) == if Depth(v) < depth then Some((v, rest)) else None
    decreases v, 0
  {
    hide Print, ParseValue, ParseItems, ParseFields;
    PrintNested(v);
    match v
    case Array(items) =>
      if items != [] && depth > 1 {
        ParsePrintedItems(items, rest, depth - 1);
      }
      ParseArray(items, rest, depth);
    case Object(fields) =>
      if fields != [] && depth > 1 {
        assert [] + fields == fields;
        ParsePrintedFields(fields, rest, depth - 1, []);
      }
      ParseObject(fields, rest, depth);
    case _ =>
      ParseScalar(v, rest, depth);
  }

  lemma PrintNested(v: Value)
    ensures v.Array? ==> Print(v) == "[" + PrintItems(v.items) + "]"
    ensures v.Object? ==> Print(v) == "{" + PrintFields(v.fields) + "}"
  {
  }

  lemma ParseScalar(v: Value, rest: string, depth: nat)
    requires WellFormed(v) && Ends(rest) && depth >= 1 && !v.Array? && !v.Object?
    ensures ParseValue(Print(v) + rest, depth) == Some((v, rest))
  {
    var s := Print(v) + rest;
    FirstCharacter(v);
    assert s[0] == Print(v)[0];
    NotSpace(s);
    match v
    case Null =>
      assert s[..4] == "null" && s[4..] == rest;
    case Bool(b) =>
      var w := if b then 4 else 5;
      assert s[..w] == Print(v) && s[w..] == rest;
    case Number(n) =>
      NumberRoundTrip(n, rest);
    case String(t) =>
      assert s[1..] == EscapeAll(t) + "\"" + rest;
      StringRoundTrip(t, rest);
  }

  lemma NoItems()
    ensures PrintItems([]) == "" && ItemsDepth([]) == 0
    ensures PrintFields([]) == "" && FieldsDepth([]) == 0
  {
  }

  lemma ParseArray(items: seq<Value>, rest: string, depth: nat)
    requires depth >= 1
    requires items != [] && depth > 1 ==>
               ParseItems(PrintItems(items) + "]" + rest, depth - 1) ==
               if ItemsDepth(items) < depth - 1 then Some((items, rest)) else None
    ensures ParseValue("[" + PrintItems(items) + "]" + rest, depth) ==
            if 1 + ItemsDepth(items) < depth then Some((Array(items), rest)) else None
  {
    hide Print, PrintItems, ItemsDepth, ParseItems, ParseFields, ParseString, ParseNumber, ParseLiteral;
    NoItems();
    var s := "[" + PrintItems(items) + "]" + rest;
    var inner := PrintItems(items) + "]" + rest;
    assert s[1..] == inner;
    NotSpace(s);
    if items == [] {
      assert inner == "]" + rest;
    } else {
      ItemsStart(items, "]" + rest);
      assert inner == PrintItems(items) + ("]" + rest);
    }
  }

  lemma ParseObject(fields: seq<Field>, rest: string, depth: nat)
    requires depth >= 1
    requires fields != [] && depth > 1 ==>
               ParseFields(PrintFields(fields) + "}" + rest, depth - 1, []) ==
               if FieldsDepth(fields) < depth - 1 then Some((fields, rest)) else None
    ensures ParseValue("{" + PrintFields(fields) + "}" + rest, depth) ==
            if 1 + FieldsDepth(fields) < depth then Some((Object(fields), rest)) else None
  {
    hide Print, PrintFields, FieldsDepth, ParseItems, ParseFields, ParseString, ParseNumber, ParseLiteral;
    NoItems();
    var s := "{" + PrintFields(fields) + "}" + rest;
    var inner := PrintFields(fields) + "}" + rest;
    assert s[1..] == inner;
    NotSpace(s);
    if fields == [] {
      assert inner == "}" + rest;
    } else {
      FieldsStart(fields, "}" + rest);
      assert inner == PrintFields(fields) + ("}" + rest);
    }
  }

  lemma ItemsStart(items: seq<Value>, rest: string)
    requires items != []
    ensures var s := PrintItems(items) + rest; s != [] && SkipSpace(s) == s && s[0] != ']'
  {
    FirstCharacter(items[0]);
    assert (PrintItems(items) + rest)[0] == Print(items[0])[0];
    NotSpace(PrintItems(items) + rest);
  }

  lemma FieldsStart(fields: seq<Field>, rest: string)
    requires fields != []
    ensures var s := PrintFields(fields) + rest; s != [] && SkipSpace(s) == s && s[0] == '"'
  {
    hide Print, EscapeAll;
    var text := PrintField(fields[0]);
    assert text == PrintString(fields[0].key) + ":" + Print(fields[0].value);
    assert text != [] && text[0] == '"';
    assert PrintFields(fields) != [] && PrintFields(fields)[0] == text[0];
    NotSpace(PrintFields(fields) + rest);
  }

  lemma ItemsStep(text: string, v: Value, rest: string, depth: nat)
    requires rest != [] && (rest[0] == ']' || rest[0] == ',')
    requires ParseValue(text + rest, depth) in {None, Some((v, rest))}
    ensures ParseItems(text + rest, depth) ==
            if ParseValue(text + rest, depth).None? then None
            else if rest[0] == ']' then Some(([v], rest[1..]))
            else if ParseItems(rest[1..], depth).None? then None
            else Some(([v] + ParseItems(rest[1..], depth).value.0, ParseItems(rest[1..], depth).value.1))
  {
    NotSpace(rest);
  }

  lemma {:induction false} ParsePrintedItems(items: seq<Value>, rest: string, depth: nat)
    requires items != [] && depth >= 1
    requires forall i | 0 <= i < |items| :: WellFormed(items[i])
    ensures ParseItems(PrintItems(items) + "]" + rest, depth) ==
            if ItemsDepth(items) < depth then Some((items, rest)) else None
    decreases items, 1
  {
    hide Print, ParseValue, ParseItems, SkipSpace;
    var s := PrintItems(items) + "]" + rest;
    var text := Print(items[0]);
    if |items| == 1 {
      var after := "]" + rest;
      assert s == text + after;
      ParsePrinted(items[0], after, depth);
      ItemsStep(text, items[0], after, depth);
      assert items == [items[0]] && after[1..] == rest;
    } else {
      var more := PrintItems(items[1..]) + "]" + rest;
      var after := "," + more;
      assert s == text + after;
      ParsePrinted(items[0], after, depth);
      ItemsStep(text, items[0], after, depth);
      ParsePrintedItems(items[1..], rest, depth);
      assert after[1..] == more;
      assert items == [items[0]] + items[1..];
    }
  }

  lemma {:induction false} LessAsymmetric(a: string, b: string)
    requires Less(a, b)
    ensures a != b && !Less(b, a)
  {
    if a != [] && a[0] == b[0] {
      LessAsymmetric(a[1..], b[1..]);
    }
  }

  /** Inserting a key above all the others puts it last. */
  lemma {:induction false} InsertLast(fields: seq<Field>, f: Field)
    requires forall i | 0 <= i < |fields| :: Less(fields[i].key, f.key)
    ensures Insert(fields, f) == fields + [f]
  {
    if fields != [] {
      LessAsymmetric(fields[0].key, f.key);
      InsertLast(fields[1..], f);
      assert fields + [f] == [fields[0]] + (fields[1..] + [f]);
    }
  }

  /** How the parser goes on after a member: the object ends, or another member follows. */
  function AfterValue(fields: seq<Field>, w: string, depth: nat): Option<(seq<Field>, string)> {
    if w != [] && w[0] == '}' then Some((fields, w[1..]))
    else if w != [] && w[0] == ',' then ParseFields(w[1..], depth, fields)
    else None
  }

  lemma KeyStep(key: string, text: string, depth: nat, before: seq<Field>)
    ensures ParseFields(PrintString(key) + ":" + text, depth, before) ==
            if ParseValue(text, depth).None? then None
            else AfterValue(Insert(before, Field(key, ParseValue(text, depth).value.0)),
                            SkipSpace(ParseValue(text, depth).value.1), depth)
  {
    var s := PrintString(key) + ":" + text;
    NotSpace(s);
    assert s[1..] == EscapeAll(key) + "\"" + (":" + text);
    StringRoundTrip(key, ":" + text);
    NotSpace(":" + text);
    assert (":" + text)[1..] == text;
  }

  lemma FieldsStep(key: string, text: string, v: Value, rest: string, depth: nat, before: seq<Field>)
    requires rest != [] && (rest[0] == '}' || rest[0] == ',')
    requires ParseValue(text + rest, depth) in {None, Some((v, rest))}
    requires forall i | 0 <= i < |before| :: Less(before[i].key, key)
    ensures ParseFields(PrintString(key) + ":" + (text + rest), depth, before) ==
            if ParseValue(text + rest, depth).None? then None
            else if rest[0] == '}' then Some((before + [Field(key, v)], rest[1..]))
            else ParseFields(rest[1..], depth, before + [Field(key, v)])
  {
    KeyStep(key, text + rest, depth, before);
    InsertLast(before, Field(key, v));
    NotSpace(rest);
  }

  lemma PrintFieldsSplit(fields: seq<Field>, rest: string)
    requires fields != []
    ensures PrintFields(fields) + "}" + rest ==
            PrintString(fields[0].key) + ":" + (Print(fields[0].value) + AfterFirst(fields, rest))
  {
    hide Print, PrintString, PrintFields;
    var key, value := PrintString(fields[0].key), Print(fields[0].value);
    PrintFieldsStep(fields);
    if |fields| == 1 {
      Regroup(key + ":" + value, "}", rest);
      Regroup(key + ":", value, "}" + rest);
    } else {
      var more := PrintFields(fields[1..]);
      Regroup(key + ":" + value + ",", more, "}");
      Regroup(key + ":" + value + ",", more + "}", rest);
      Regroup(key + ":" + value, ",", more + "}" + rest);
      Regroup(key + ":", value, "," + (more + "}" + rest));
    }
  }

  lemma Regroup(a: string, b: string, c: string)
    ensures a + b + c == a + (b + c)
  {
  }

  lemma PrintFieldsStep(fields: seq<Field>)
    requires fields != []
    ensures |fields| > 1 ==>
              PrintFields(fields) ==
              PrintString(fields[0].key) + ":" + Print(fields[0].value) + "," + PrintFields(fields[1..])
    ensures |fields| == 1 ==> PrintFields(fields) == PrintString(fields[0].key) + ":" + Print(fields[0].value)
  {
    hide Print, PrintString;
  }

  /** What follows the first member's value in the text of an object. */
  function AfterFirst(fields: seq<Field>, rest: string): string
    requires fields != []
  {
    if |fields| == 1 then "}" + rest else "," + (PrintFields(fields[1..]) + "}" + rest)
  }

  lemma FieldsDepthStep(fields: seq<Field>, depth: nat)
    requires fields != [] && depth >= 1
    ensures FieldsDepth(fields) < depth <==>
            Depth(fields[0].value) < depth && (|fields| > 1 ==> FieldsDepth(fields[1..]) < depth)
  {
    assert |fields| == 1 ==> fields[1..] == [];
  }

  lemma AfterFirstTail(fields: seq<Field>, rest: string)
    requires fields != []
    ensures var after := AfterFirst(fields, rest);
            && after != [] && Ends(after)
            && (if |fields| == 1 then after[0] == '}' && after[1..] == rest
                else after[0] == ',' && after[1..] == PrintFields(fields[1..]) + "}" + rest)
  {
    hide PrintFields;
  }

  lemma {:induction false} ParsePrintedFields(fields: seq<Field>, rest: string, depth: nat, before: seq<Field>)
    requires fields != [] && depth >= 1
    requires forall i | 0 <= i < |fields| :: WellFormed(fields[i].value)
    requires SortedKeys(before + fields)
    ensures ParseFields(PrintFields(fields) + "}" + rest, depth, before) ==
            if FieldsDepth(fields) < depth then Some((before + fields, rest)) else None
    decreases fields, 1
  {
    hide Print, PrintFields, ParseValue, ParseFields, PrintString, SkipSpace, Less, AfterFirst, FieldsDepth, Ends, Depth;
    var f, after := fields[0], AfterFirst(fields, rest);
    forall i | 0 <= i < |before|
      ensures Less(before[i].key, f.key)
    {
      assert before[i] == (before + fields)[i] && f == (before + fields)[|before|];
    }
    PrintFieldsSplit(fields, rest);
    AfterFirstTail(fields, rest);
    FieldsDepthStep(fields, depth);
    ParsePrinted(f.value, after, depth);
    FieldsStep(f.key, Print(f.value), f.value, after, depth, before);
    if |fields| == 1 {
      assert fields == [f];
    } else {
      assert before + fields == before + [f] + fields[1..];
      ParsePrintedFields(fields[1..], rest, depth, before + [f]);
    }
  }

  /** Text round trip of whole documents: it holds exactly up to the parser's recursion limit. */
  lemma RoundTrip(v: Value)
    requires WellFormed(v)
    ensures Parse(Print(v)) == if Depth(v) < 128 then Some(v) else None
  {
    assert Print(v) + "" == Print(v);
    ParsePrinted(v, "", RECURSION_LIMIT);
  }

  /** Printed text contains no raw control character; in particular not the packet separator. */
  predicate Printable(s: string) {
    forall i | 0 <= i < |s| :: s[i] as int >= 0x20
  }

  lemma {:induction false} EscapedPrintable(s: string)
    ensures Printable(EscapeAll(s))
  {
    if s != [] {
      EscapedPrintable(s[1..]);
      assert Printable(Escape(s[0]));
    }
  }

  lemma {:induction false} PrintedPrintable(v: Value)
    ensures Printable(Print(v))
    decreases v, 0
  {
    match v
    case Number(n) =>
    case String(s) => EscapedPrintable(s);
    case Array(items) => ItemsPrintable(items);
    case Object(fields) => FieldsPrintable(fields);
    case _ =>
  }

  lemma {:induction false} ItemsPrintable(items: seq<Value>)
    ensures Printable(PrintItems(items))
    decreases items, 1
  {
    if items != [] {
      PrintedPrintable(items[0]);
      ItemsPrintable(items[1..]);
    }
  }

  lemma {:induction false} FieldsPrintable(fields: seq<Field>)
    ensures Printable(PrintFields(fields))
    decreases fields, 1
  {
    if fields != [] {
      EscapedPrintable(fields[0].key);
      PrintedPrintable(fields[0].value);
      FieldsPrintable(fields[1..]);
    }
  }

  // The text in examples.

  lemma PrintScalars()
    ensures Print(Null) == "null" && Print(Bool(true)) == "true" && Print(Bool(false)) == "false"
    ensures Print(Number(0)) == "0" && Print(Number(-7)) == "-7" && Print(Number(123)) == "123"
    ensures Print(Array([])) == "[]" && Print(Object([])) == "{}"
  {
    assert Decimal.Print(123) == Decimal.Print(12) + "3" && Decimal.Print(12) == Decimal.Print(1) + "2";
  }

  /** Arrays and objects in text: commas between the elements, a colon after each key. */
  lemma PrintLayout(v: Value, w: Value, key: string, other: string)
    ensures Print(Array([v])) == "[" + Print(v) + "]"
    ensures Print(Array([v, w])) == "[" + (Print(v) + "," + Print(w)) + "]"
    ensures Print(Object([Field(key, v)])) == "{" + (Print(String(key)) + ":" + Print(v)) + "}"
    ensures Print(Object([Field(key, v), Field(other, w)])) ==
            "{" + (Print(String(key)) + ":" + Print(v) + "," + (Print(String(other)) + ":" + Print(w))) + "}"
  {
    hide PrintString;
    assert [v, w][1..] == [w] && PrintItems([w]) == Print(w);
    var f, g := Field(key, v), Field(other, w);
    assert PrintFields([f]) == PrintField(f) && PrintFields([g]) == PrintField(g);
    assert PrintFields([f, g]) == PrintField(f) + "," + PrintFields([g]);
    assert [Field(key, v), Field(other, w)][1..] == [Field(other, w)];
  }

  /** A placeholder in text. */
  lemma PrintPlaceholder()
    ensures Print(Object([Field("_placeholder", Bool(true)), Field("num", Number(0))])) == "{\"_placeholder\":true,\"num\":0}"
  {
    hide Print, EscapeAll, Decimal.Print;
    PrintScalars();
    PrintLayout(Bool(true), Number(0), "_placeholder", "num");
    PrintedString("_placeholder");
    PrintedString("num");
    PlaceholderText();
  }

  lemma PlaceholderText()
    ensures "{" + ("\"" + "_placeholder" + "\"" + ":" + "true" + "," + ("\"" + "num" + "\"" + ":" + "0")) + "}" ==
            "{\"_placeholder\":true,\"num\":0}"
  {
  }

  lemma PrintedString(s: string)
    ensures (forall i | 0 <= i < |s| :: s[i] as int >= 0x20 && s[i] != '\"' && s[i] != '\\') ==>
              Print(String(s)) == "\"" + s + "\""
  {
    PlainString(s);
  }

  /** Text without control characters, quotes and backslashes is printed as it is, in quotes. */
  lemma {:induction false} PlainString(s: string)
    ensures (forall i | 0 <= i < |s| :: s[i] as int >= 0x20 && s[i] != '\"' && s[i] != '\\') ==>
              EscapeAll(s) == s && PrintString(s) == "\"" + s + "\""
  {
    if s != [] {
      PlainString(s[1..]);
      assert s == [s[0]] + s[1..];
    }
  }

  /** What other characters are printed as (section 7 of RFC 8259). */
  lemma EscapeTable()
    ensures Escape('\"') == "\\\"" && Escape('\\') == "\\\\" && Escape('\n') == "\\n" && Escape('\r') == "\\r" && Escape('\t') == "\\t"
    ensures Escape(8 as char) == "\\b" && Escape(12 as char) == "\\f" && Escape(0 as char) == "\\u0000" && Escape(30 as char) == "\\u001e"
  {
  }

  // Text of other printers.

  lemma SpaceSkipped(c: char, s: string, depth: nat)
    requires c == ' ' || c == '\n' || c == '\t' || c == '\r'
    ensures SkipSpace([c] + s) == SkipSpace(s) && ParseValue([c] + s, depth) == ParseValue(s, depth)
  {
    hide ParseItems, ParseFields, ParseString, ParseNumber, ParseLiteral;
    assert ([c] + s)[1..] == s;
  }

  /** After a document there may be no further text. */
  lemma OneDocument(v: Value, c: char)
    requires WellFormed(v) && (c == ',' || c == ']' || c == '}')
    ensures Parse(Print(v) + [c]) == None
  {
    hide Print, ParseValue;
    ParsePrinted(v, [c], 128);
    NotSpace([c]);
  }

  lemma Digits4(a: char, b: char, c: char, d: char, rest: string)
    ensures HexValue(a).Some? && HexValue(b).Some? && HexValue(c).Some? && HexValue(d).Some? ==>
              ParseHex4([a, b, c, d] + rest) ==
              Some((HexValue(a).value * 4096 + HexValue(b).value * 256 + HexValue(c).value * 16 + HexValue(d).value, rest))
  {
    assert ([a, b, c, d] + rest)[4..] == rest;
  }

  /** Escapes that this printer does not use: of a slash, and of any character by its code. */
  lemma OtherEscapes(rest: string)
    ensures ParseEscape("/" + rest) == Some(('/', rest))
    ensures ParseEscape("u0041" + rest) == Some(('A', rest))
    ensures ParseEscape("x" + rest) == None
  {
    hide ParseHex4;
    assert ("/" + rest)[1..] == rest;
    assert ("u0041" + rest)[1..] == ['0', '0', '4', '1'] + rest;
    Digits4('0', '0', '4', '1', rest);
  }

  /** A surrogate pair is one character, half of one is an error. */
  lemma Surrogates(rest: string)
    ensures ParseEscape("uD83D" + ("\\u" + ("DE00" + rest))) == Some(('\U{1F600}', rest))
    ensures ParseEscape("uDE00" + rest) == None
    ensures rest == [] || rest[0] != '\\' ==> ParseEscape("uD83D" + rest) == None
  {
    hide ParseHex4;
    var low := ['D', 'E', '0', '0'] + rest;
    assert "DE00" + rest == low;
    var after := "\\u" + low;
    assert ("uD83D" + after)[1..] == ['D', '8', '3', 'D'] + after && after[2..] == low;
    assert ("uDE00" + rest)[1..] == low;
    assert ("uD83D" + rest)[1..] == ['D', '8', '3', 'D'] + rest;
    Digits4('D', '8', '3', 'D', after);
    Digits4('D', '8', '3', 'D', rest);
    Digits4('D', 'E', '0', '0', rest);
  }

  /** Numbers have no leading zeros and no plus sign. */
  lemma BadNumbers(rest: string)
    ensures ParseNumber("01" + rest) == None && ParseNumber("-" + ("01" + rest)) == None && ParseNumber("+1" + rest) == None
  {
    hide Decimal.Value;
    var s := "01" + rest;
    assert s[0] == '0' && s[1..][0] == '1';
    assert |Decimal.DigitRun(s)| > 1 && Decimal.DigitRun(s)[0] == '0';
    assert ("-" + s)[1..] == s;
    assert ("+1" + rest)[0] == '+';
  }

  /** Of two members with the same key the later one counts. */
  lemma LaterMemberCounts(key: string, v: Value, w: Value)
    ensures Insert(Insert([], Field(key, v)), Field(key, w)) == [Field(key, w)]
  {
    hide Less;
    NotLess(key);
  }

  lemma {:induction false} NotLess(s: string)
    ensures !Less(s, s)
  {
    if s != [] {
      NotLess(s[1..]);
    }
  }
}
