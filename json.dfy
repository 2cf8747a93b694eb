/**
 * The part of Python's `json.dumps` that a value object's string form uses: a dict of field names
 * to `str`, `int`, `bool` and `None` values, written with the default separators ", " and ": " and
 * the default `ensure_ascii=True`. A reader for exactly that text is the partner the writer is
 * proved against: reading what was written gives back the fields, in order.
 */
module Json {
  import opened Wrappers
  import opened HexDigits
  import opened Values

  /** What `json.dumps` raises for a value it has no encoding for. */
  datatype TypeError = TypeError(message: string)

  predicate IsPrintableAscii(c: char) {
    ' ' <= c <= '~'
  }

  predicate AllPrintableAscii(s: string) {
    forall i :: 0 <= i < |s| ==> IsPrintableAscii(s[i])
  }

  /**
   * One character inside a string literal: the two-character escapes for the quote, the backslash
   * and five control characters, printable ASCII as itself, every other character as `\uXXXX`
   * (lower-case digits) and, above U+FFFF, as a UTF-16 surrogate pair of two such escapes.
   */
  function EscapeChar(c: char): (e: string)
    ensures e != [] && e[0] != '"' && AllPrintableAscii(e)
  {
    if c == '"' then "\\\""
    else if c == '\\' then "\\\\"
    else if c == '\n' then "\\n"
    else if c == '\r' then "\\r"
    else if c == '\t' then "\\t"
    else if c as int == 0x08 then "\\b"
    else if c as int == 0x0C then "\\f"
    else if IsPrintableAscii(c) then [c]
    else UnicodeEscape(c as int)
  }

  /** `\uXXXX` for a code point up to U+FFFF, and a surrogate pair of two of them above it. */
  function UnicodeEscape(n: nat): (e: string)
    requires n < 0x110000
    ensures |e| >= 6 && e[0] == '\\' && e[1] == 'u' && AllPrintableAscii(e)
  {
    if n < 0x10000 then "\\u" + Hex4(n)
    else
      var v := n - 0x10000;
      "\\u" + Hex4(0xD800 + v / 0x400) + "\\u" + Hex4(0xDC00 + v % 0x400)
  }

  /** The inside of a string literal: every character escaped, so the result is printable ASCII. */
  function Escape(s: string): (e: string)
    ensures AllPrintableAscii(e)
  {
    if s == [] then [] else EscapeChar(s[0]) + Escape(s[1..])
  }

  /** A string literal. */
  function Quote(s: string): string {
    "\"" + Escape(s) + "\""
  }

  const NotSerializableMessage := "Object of type datetime is not JSON serializable"

  /** One value: a literal for `str`, the numeral for `int`, `true`/`false`, `null`; a datetime raises. */
  function DumpValue(v: Value): (r: Result<string, TypeError>)
    ensures r.Success? <==> !v.Moment?
  {
    match v
    case Text(s) => Success(Quote(s))
    case Integer(i) => Success(Decimal(i))
    case Boolean(b) => Success(if b then "true" else "false")
    case NoneValue => Success("null")
    case Moment(_) => Failure(TypeError(NotSerializableMessage))
  }

  predicate Serializable(fields: seq<Field>) {
    forall i :: 0 <= i < |fields| ==> !fields[i].value.Moment?
  }

  /** The entries `"name": value` of a non-empty dict, joined by ", ", in order. */
  function DumpEntries(fields: seq<Field>): (r: Result<string, TypeError>)
    requires fields != []
    ensures r.Success? <==> Serializable(fields)
    ensures r.Failure? ==> r.error == TypeError(NotSerializableMessage)
  {
    var key := Quote(fields[0].name);
    match DumpValue(fields[0].value)
    case Failure(e) => Failure(e)
    case Success(v) =>
      if |fields| == 1 then Success(key + ": " + v)
      else
        match DumpEntries(fields[1..])
        case Failure(e) => Failure(e)
        case Success(rest) => Success(key + ": " + v + ", " + rest)
  }

  /** `json.dumps` of the dict that maps each field's name to its value, in declaration order. */
  function DumpObject(fields: seq<Field>): (r: Result<string, TypeError>)
    ensures r.Success? <==> Serializable(fields)
    ensures r.Failure? ==> r.error == TypeError(NotSerializableMessage)
  {
    if fields == [] then Success("{}")
    else
      match DumpEntries(fields)
      case Failure(e) => Failure(e)
      case Success(entries) => Success("{" + entries + "}")
  }

  // ---------------------------------------------------------------- the reader

  function Prepend(c: char, r: Option<(string, string)>): (r': Option<(string, string)>)
    ensures r'.Some? <==> r.Some?
    ensures r'.Some? ==> r'.value == ([c] + r.value.0, r.value.1)
  {
    match r
    case None => None
    case Some((t, rest)) => Some(([c] + t, rest))
  }

  /** Reads a string literal after its opening quote: the text it stands for and what follows its closing quote. */
  function ReadString(s: string): (r: Option<(string, string)>)
    ensures r.Some? ==> |r.value.1| < |s|
    decreases |s|
  {
    if s == [] then None
    else if s[0] == '"' then Some(([], s[1..]))
    else if s[0] != '\\' then Prepend(s[0], ReadString(s[1..]))
    else
      match ReadEscape(s[1..])
      case None => None
      case Some((c, rest)) => Prepend(c, ReadString(rest))
  }

  /** Reads what follows a backslash: the character the escape stands for, and the rest. */
  function ReadEscape(s: string): (r: Option<(char, string)>)
    ensures r.Some? ==> |r.value.1| < |s|
  {
    if s == [] then None
    else if s[0] == '"' || s[0] == '\\' || s[0] == '/' then Some((s[0], s[1..]))
    else if s[0] == 'n' then Some(('\n', s[1..]))
    else if s[0] == 'r' then Some(('\r', s[1..]))
    else if s[0] == 't' then Some(('\t', s[1..]))
    else if s[0] == 'b' then Some((0x08 as char, s[1..]))
    else if s[0] == 'f' then Some((0x0C as char, s[1..]))
    else if s[0] == 'u' && |s| >= 5 && AllHex(s[1..5]) then
      var hi := Value4(s[1..5]);
      if 0xD800 <= hi < 0xDC00 then
        if |s| >= 11 && s[5] == '\\' && s[6] == 'u' && AllHex(s[7..11]) && 0xDC00 <= Value4(s[7..11]) < 0xE000 then
          var code := 0x10000 + (hi - 0xD800) * 0x400 + (Value4(s[7..11]) - 0xDC00);
          Some((code as char, s[11..]))
        else None
      else if 0xDC00 <= hi < 0xE000 then None
      else Some((hi as char, s[5..]))
    else None
  }

  /** The longest prefix of decimal digits, and the rest. */
  function SpanDigits(s: string): (r: (string, string))
    ensures AllDigits(r.0) && r.0 + r.1 == s
    ensures r.1 == [] || !IsDigit(r.1[0])
  {
    if s != [] && IsDigit(s[0]) then
      var (d, rest) := SpanDigits(s[1..]);
      ([s[0]] + d, rest)
    else ([], s)
  }

  /** Reads an optional minus sign and the digits after it. */
  function ReadNumber(s: string): (r: Option<(int, string)>)
    ensures r.Some? ==> |r.value.1| < |s|
  {
    var negative := s != [] && s[0] == '-';
    var (digits, rest) := SpanDigits(if negative then s[1..] else s);
    if digits == [] then None
    else
      var n: int := DigitsValue(digits);
      Some((if negative then -n else n, rest))
  }

  /** Reads one value and returns what follows it. */
  function ReadValue(s: string): (r: Option<(Value, string)>)
    ensures r.Some? ==> |r.value.1| < |s|
  {
    if s == [] then None
    else if s[0] == '"' then
      match ReadString(s[1..])
      case None => None
      case Some((t, rest)) => Some((Text(t), rest))
    else if |s| >= 4 && s[..4] == "true" then Some((Boolean(true), s[4..]))
    else if |s| >= 5 && s[..5] == "false" then Some((Boolean(false), s[5..]))
    else if |s| >= 4 && s[..4] == "null" then Some((NoneValue, s[4..]))
    else
      match ReadNumber(s)
      case None => None
      case Some((i, rest)) => Some((Integer(i), rest))
  }

  /** Reads one entry `"name": value` and returns what follows it. */
  function ReadEntry(s: string): (r: Option<(Field, string)>)
    ensures r.Some? ==> |r.value.1| < |s|
  {
    if s == [] || s[0] != '"' then None
    else
      match ReadString(s[1..])
      case None => None
      case Some((name, r1)) =>
        if |r1| < 2 || r1[..2] != ": " then None
        else
          match ReadValue(r1[2..])
          case None => None
          case Some((v, rest)) => Some((Field(name, v), rest))
  }

  /** Reads entries separated by ", " up to a "}" that ends the text. */
  function ReadEntries(s: string): Option<seq<Field>>
    decreases |s|
  {
    match ReadEntry(s)
    case None => None
    case Some((f, rest)) =>
      if rest == "}" then Some([f])
      else if |rest| >= 2 && rest[..2] == ", " then
        match ReadEntries(rest[2..])
        case None => None
        case Some(more) => Some([f] + more)
      else None
  }

  /** Reads a whole object: its fields in the order they are written. */
  function DecodeObject(s: string): Option<seq<Field>> {
    if s == "{}" then Some([])
    else if s != [] && s[0] == '{' then ReadEntries(s[1..])
    else None
  }

  // ---------------------------------------------------------------- reading what was written

  /** Reading one escaped character gives back the character. */
  lemma ReadEscapedChar(c: char, t: string)
    ensures ReadString(EscapeChar(c) + t) == Prepend(c, ReadString(t))
  {
    var s := EscapeChar(c) + t;
    if IsPrintableAscii(c) && c != '"' && c != '\\' {
      assert s[1..] == t;
    } else {
      assert s[0] == '\\';
      ReadEscapeOf(c, t);
      assert s[1..] == EscapeChar(c)[1..] + t;
    }
  }

  /** The part of an escape after its backslash reads back as the character. */
  lemma ReadEscapeOf(c: char, t: string)
    requires !IsPrintableAscii(c) || c == '"' || c == '\\'
    ensures EscapeChar(c)[0] == '\\'
    ensures ReadEscape(EscapeChar(c)[1..] + t) == Some((c, t))
  {
    if c == '"' || c == '\\' || c == '\n' || c == '\r' || c == '\t' || c as int == 0x08 || c as int == 0x0C {
      var s := EscapeChar(c)[1..] + t;
      assert |EscapeChar(c)| == 2;
      assert s[1..] == t;
    } else if c as int < 0x10000 {
      ReadBmpEscape(c, t);
    } else {
      ReadSurrogatePair(c, t);
    }
  }

  lemma ReadBmpEscape(c: char, t: string)
    requires !IsPrintableAscii(c) && c as int < 0x10000
    requires !(c == '\n' || c == '\r' || c == '\t' || c as int == 0x08 || c as int == 0x0C)
    ensures EscapeChar(c)[0] == '\\'
    ensures ReadEscape(EscapeChar(c)[1..] + t) == Some((c, t))
  {
    var e := EscapeChar(c);
    assert e == UnicodeEscape(c as int);
    BmpLayout(c as int);
    ReadBmpOf(e, c as int, t);
    assert (c as int) as char == c;
  }

  /** The escape of a code point up to U+FFFF: `\\u` and four digits. */
  lemma BmpLayout(n: nat)
    requires n < 0x10000
    ensures var e := UnicodeEscape(n); |e| == 6 && e[1] == 'u' && e[2..] == Hex4(n)
  {
    assert UnicodeEscape(n) == "\\u" + Hex4(n);
  }

  lemma ReadBmpOf(e: string, n: nat, t: string)
    requires n < 0x10000 && !(0xD800 <= n < 0xE000)
    requires |e| == 6 && e[1] == 'u' && e[2..] == Hex4(n)
    ensures ReadEscape(e[1..] + t) == Some((n as char, t))
  {
    var s := e[1..] + t;
    assert s[0] == 'u' && s[1..5] == e[2..] && s[5..] == t;
  }

  lemma ReadSurrogatePair(c: char, t: string)
    requires c as int >= 0x10000
    ensures EscapeChar(c)[0] == '\\'
    ensures ReadEscape(EscapeChar(c)[1..] + t) == Some((c, t))
  {
    var v := c as int - 0x10000;
    var hi, lo := 0xD800 + v / 0x400, 0xDC00 + v % 0x400;
    var e := EscapeChar(c);
    assert e == UnicodeEscape(c as int);
    PairLayout(c as int);
    SurrogateHalves(c as int);
    ReadPairOf(e, hi, lo, t);
    assert (c as int) as char == c;
  }

  /** The escape of a code point above U+FFFF: two `\\uXXXX` halves. */
  lemma PairLayout(n: nat)
    requires 0x10000 <= n < 0x110000
    ensures var v := n - 0x10000;
      var e := UnicodeEscape(n);
      |e| == 12 && e[1] == 'u' && e[2..6] == Hex4(0xD800 + v / 0x400) &&
      e[6] == '\\' && e[7] == 'u' && e[8..] == Hex4(0xDC00 + v % 0x400)
  {
    var v := n - 0x10000;
    assert UnicodeEscape(n) == "\\u" + Hex4(0xD800 + v / 0x400) + "\\u" + Hex4(0xDC00 + v % 0x400);
  }

  lemma ReadPairOf(e: string, hi: nat, lo: nat, t: string)
    requires 0xD800 <= hi < 0xDC00 && 0xDC00 <= lo < 0xE000
    requires |e| == 12 && e[1] == 'u' && e[2..6] == Hex4(hi) && e[6] == '\\' && e[7] == 'u' && e[8..] == Hex4(lo)
    ensures ReadEscape(e[1..] + t) == Some(((0x10000 + (hi - 0xD800) * 0x400 + (lo - 0xDC00)) as char, t))
  {
    var s := e[1..] + t;
    assert s[0] == 'u' && s[1..5] == e[2..6] && s[5] == '\\' && s[6] == 'u' && s[7..11] == e[8..] && s[11..] == t;
    ReadSurrogateEscape(hi, lo, s);
  }

  /** A `uXXXX\\uXXXX` surrogate pair reads as the code point it encodes. */
  lemma ReadSurrogateEscape(hi: nat, lo: nat, s: string)
    requires 0xD800 <= hi < 0xDC00 && 0xDC00 <= lo < 0xE000
    requires |s| >= 11 && s[0] == 'u' && s[1..5] == Hex4(hi) && s[5] == '\\' && s[6] == 'u' && s[7..11] == Hex4(lo)
    ensures var code := 0x10000 + (hi - 0xD800) * 0x400 + (lo - 0xDC00);
      0x10000 <= code < 0x110000 && ReadEscape(s) == Some((code as char, s[11..]))
  {
  }

  /** The two UTF-16 halves of a code point above U+FFFF, and how they combine back. */
  lemma SurrogateHalves(n: int)
    requires 0x10000 <= n < 0x110000
    ensures var v := n - 0x10000;
      var hi, lo := 0xD800 + v / 0x400, 0xDC00 + v % 0x400;
      0xD800 <= hi < 0xDC00 && 0xDC00 <= lo < 0xE000 && 0x10000 + (hi - 0xD800) * 0x400 + (lo - 0xDC00) == n
  {
  }

  /** Reading an escaped text and its closing quote gives back the text and what follows. */
  lemma {:induction false} ReadEscaped(s: string, t: string)
    ensures ReadString(Escape(s) + "\"" + t) == Some((s, t))
  {
    if s == [] {
      assert Escape(s) + "\"" + t == "\"" + t;
    } else {
      assert Escape(s) + "\"" + t == EscapeChar(s[0]) + (Escape(s[1..]) + "\"" + t);
      ReadEscapedChar(s[0], Escape(s[1..]) + "\"" + t);
      ReadEscaped(s[1..], t);
      assert [s[0]] + s[1..] == s;
    }
  }

  lemma {:induction false} SpanAllDigits(d: string, t: string)
    requires AllDigits(d)
    requires t == [] || !IsDigit(t[0])
    ensures SpanDigits(d + t) == (d, t)
  {
    if d != [] {
      assert (d + t)[1..] == d[1..] + t;
      SpanAllDigits(d[1..], t);
      assert [d[0]] + d[1..] == d;
    } else {
      assert d + t == t;
    }
  }

  /** A numeral followed by something other than a digit reads back as its number. */
  lemma ReadDecimal(i: int, t: string)
    requires t == [] || !IsDigit(t[0])
    ensures ReadNumber(Decimal(i) + t) == Some((i, t))
  {
    if i < 0 {
      ReadNegative(i, t);
    } else {
      ReadNatural(i, t);
    }
  }

  lemma ReadNegative(i: int, t: string)
    requires i < 0 && (t == [] || !IsDigit(t[0]))
    ensures ReadNumber(Decimal(i) + t) == Some((i, t))
  {
    var digits := Numeral(-i);
    assert Decimal(i) == "-" + digits;
    ReadMinus(digits, t);
  }

  /** A minus sign and a run of digits read back as the negated value of the digits. */
  lemma ReadMinus(digits: string, t: string)
    requires digits != [] && AllDigits(digits) && (t == [] || !IsDigit(t[0]))
    ensures ReadNumber("-" + digits + t) == Some((-(DigitsValue(digits) as int), t))
  {
    var s := "-" + digits + t;
    assert s[0] == '-' && s[1..] == digits + t;
    SpanAllDigits(digits, t);
  }

  lemma ReadNatural(i: int, t: string)
    requires i >= 0 && (t == [] || !IsDigit(t[0]))
    ensures ReadNumber(Decimal(i) + t) == Some((i, t))
  {
    var d := Decimal(i);
    assert (d + t)[0] == d[0] && IsDigit(d[0]);
    SpanAllDigits(d, t);
  }

  /** A written value followed by ", " or "}" reads back as that value. */
  lemma ReadDumpedValue(v: Value, t: string)
    requires DumpValue(v).Success?
    requires t != [] && (t[0] == ',' || t[0] == '}')
    ensures ReadValue(DumpValue(v).value + t) == Some((v, t))
  {
    match v
    case Text(x) => ReadDumpedText(x, t);
    case Integer(i) => ReadDumpedInteger(i, t);
    case Boolean(b) =>
      var s := DumpValue(v).value + t;
      if b {
        assert s[..4] == "true" && s[4..] == t;
      } else {
        assert s[..4][0] == 'f';
        assert s[..5] == "false" && s[5..] == t;
      }
    case NoneValue =>
      var s := DumpValue(v).value + t;
      assert s[..4] == "null" && s[4..] == t;
  }

  lemma ReadDumpedText(x: string, t: string)
    ensures ReadValue(Quote(x) + t) == Some((Text(x), t))
  {
    var s := Quote(x) + t;
    assert s[0] == '"';
    assert s[1..] == Escape(x) + "\"" + t;
    ReadEscaped(x, t);
  }

  lemma ReadDumpedInteger(i: int, t: string)
    requires t != [] && (t[0] == ',' || t[0] == '}')
    ensures ReadValue(Decimal(i) + t) == Some((Integer(i), t))
  {
    var s := Decimal(i) + t;
    assert s[0] == Decimal(i)[0];
    assert s[0] == '-' || IsDigit(s[0]);
    assert |s| >= 4 ==> s[..4] != "true" && s[..4] != "null";
    assert |s| >= 5 ==> s[..5] != "false";
    ReadDecimal(i, t);
  }

  /** A written entry followed by ", " or "}" reads back as the field. */
  lemma ReadDumpedEntry(f: Field, v: string, tail: string)
    requires DumpValue(f.value) == Success(v)
    requires tail != [] && (tail[0] == ',' || tail[0] == '}')
    ensures ReadEntry(Quote(f.name) + ": " + v + tail) == Some((f, tail))
  {
    var w := v + tail;
    Associate(Quote(f.name), v, tail);
    ReadQuoted(f.name, ": " + w);
    ReadDumpedValue(f.value, tail);
    ReadEntryStep(Quote(f.name) + (": " + w), f.name, w, f.value, tail);
  }

  lemma Associate(q: string, v: string, tail: string)
    ensures q + ": " + v + tail == q + (": " + (v + tail))
  {
  }

  /** A string literal reads back as its text, leaving what follows. */
  lemma ReadQuoted(x: string, t: string)
    ensures (Quote(x) + t)[0] == '"'
    ensures ReadString((Quote(x) + t)[1..]) == Some((x, t))
  {
    QuoteThen(x, t);
    assert (Quote(x) + t)[1..] == Escape(x) + "\"" + t;
    ReadEscaped(x, t);
  }

  lemma QuoteThen(x: string, t: string)
    ensures Quote(x) + t == "\"" + (Escape(x) + "\"" + t)
  {
  }

  /** How `ReadEntry` reads an entry whose name and value each read. */
  lemma ReadEntryStep(s: string, name: string, w: string, v: Value, rest: string)
    requires s != [] && s[0] == '"' && ReadString(s[1..]) == Some((name, ": " + w))
    requires ReadValue(w) == Some((v, rest))
    ensures ReadEntry(s) == Some((Field(name, v), rest))
  {
    var r1 := ": " + w;
    assert |r1| >= 2 && r1[..2] == ": " && r1[2..] == w;
  }

  /** The written entries, followed by the closing brace, read back as the fields. */
  lemma {:induction false} ReadDumpedEntries(fields: seq<Field>)
    requires fields != [] && DumpEntries(fields).Success?
    ensures ReadEntries(DumpEntries(fields).value + "}") == Some(fields)
    decreases |fields|
  {
    var f := fields[0];
    var v := DumpValue(f.value).value;
    if |fields| == 1 {
      assert DumpEntries(fields).value == Quote(f.name) + ": " + v;
      ReadOnlyEntry(f, v);
      assert fields == [f];
    } else {
      var rest := DumpEntries(fields[1..]).value;
      assert DumpEntries(fields).value == Quote(f.name) + ": " + v + ", " + rest;
      ReadDumpedEntries(fields[1..]);
      ReadFirstEntry(f, v, rest, fields[1..]);
      assert [f] + fields[1..] == fields;
    }
  }

  /** One written entry closed by a brace reads back as that one field. */
  lemma ReadOnlyEntry(f: Field, v: string)
    requires DumpValue(f.value) == Success(v)
    ensures ReadEntries(Quote(f.name) + ": " + v + "}") == Some([f])
  {
    ReadDumpedEntry(f, v, "}");
    ReadLastEntry(Quote(f.name) + ": " + v + "}", f);
  }

  /** A written entry followed by ", " and entries that read back reads back as one more field. */
  lemma ReadFirstEntry(f: Field, v: string, rest: string, fs: seq<Field>)
    requires DumpValue(f.value) == Success(v)
    requires ReadEntries(rest + "}") == Some(fs)
    ensures ReadEntries(Quote(f.name) + ": " + v + ", " + rest + "}") == Some([f] + fs)
  {
    var more := rest + "}";
    EntriesThen(Quote(f.name), v, rest);
    ReadDumpedEntry(f, v, ", " + more);
    ReadNextEntry(Quote(f.name) + ": " + v + (", " + more), f, more, fs);
  }

  lemma EntriesThen(q: string, v: string, rest: string)
    ensures q + ": " + v + ", " + rest + "}" == q + ": " + v + (", " + (rest + "}"))
  {
  }

  lemma ReadLastEntry(s: string, f: Field)
    requires ReadEntry(s) == Some((f, "}"))
    ensures ReadEntries(s) == Some([f])
  {
  }

  lemma ReadNextEntry(s: string, f: Field, more: string, fs: seq<Field>)
    requires ReadEntry(s) == Some((f, ", " + more))
    requires ReadEntries(more) == Some(fs)
    ensures ReadEntries(s) == Some([f] + fs)
  {
    var rest := ", " + more;
    assert rest != "}" && rest[..2] == ", " && rest[2..] == more;
  }

  /** Reading the text `json.dumps` writes for the fields gives back the fields, in declaration order. */
  lemma ReadDumpedObject(fields: seq<Field>)
    requires Serializable(fields)
    ensures DecodeObject(DumpObject(fields).value) == Some(fields)
  {
    if fields != [] {
      var entries := DumpEntries(fields).value;
      var s := "{" + entries + "}";
      assert entries[0] == '"';
      assert s != "{}";
      assert s[1..] == entries + "}";
      ReadDumpedEntries(fields);
    }
  }
}
