/**
 * The Python values that fields of the value objects and entities hold, and what the built-in
 * `str()` does with them.
 */
module Values {
  /** A naive `datetime` (no time zone), the kind `datetime.now()` returns. */
  datatype Timestamp = Timestamp(year: nat, month: nat, day: nat, hour: nat, minute: nat, second: nat, microsecond: nat)

  /** A field value: `str`, `int`, `bool`, `None` or `datetime`. */
  datatype Value = Text(s: string) | Integer(i: int) | Boolean(b: bool) | NoneValue | Moment(t: Timestamp)

  /** A dataclass field as reflection yields it: its name and its current value. */
  datatype Field = Field(name: string, value: Value)

  /** A keyword argument that is either left out (the default applies) or passed. */
  datatype Arg<T> = Omitted | Passed(value: T)

  /** The field names in declaration order. */
  function Names(fields: seq<Field>): (ns: seq<string>)
    ensures |ns| == |fields| && forall i :: 0 <= i < |fields| ==> ns[i] == fields[i].name
  {
    seq(|fields|, i requires 0 <= i < |fields| => fields[i].name)
  }

  /** A dataclass never declares two fields of one name. */
  predicate DistinctNames(fields: seq<Field>) {
    forall i, j :: 0 <= i < j < |fields| ==> fields[i].name != fields[j].name
  }

  // ---------------------------------------------------------------- decimal numerals

  predicate IsDigit(c: char) {
    '0' <= c <= '9'
  }

  predicate AllDigits(s: string) {
    forall i :: 0 <= i < |s| ==> IsDigit(s[i])
  }

  function DigitChar(d: nat): (c: char)
    requires d < 10
    ensures IsDigit(c) && c as int - '0' as int == d
  {
    ('0' as int + d) as char
  }

  /** The number a string of decimal digits spells, most significant first. */
  function DigitsValue(s: string): nat
    requires AllDigits(s)
  {
    if s == [] then 0 else DigitsValue(s[..|s| - 1]) * 10 + (s[|s| - 1] as int - '0' as int)
  }

  /** The decimal numeral of a natural number: no leading zero, and it spells the number. */
  function Numeral(n: nat): (s: string)
    ensures s != [] && AllDigits(s)
    ensures DigitsValue(s) == n
    ensures s[0] == '0' ==> s == "0"
    decreases n
  {
    if n < 10 then [DigitChar(n)]
    else
      var init := Numeral(n / 10);
      var s := init + [DigitChar(n % 10)];
      assert s[..|s| - 1] == init;
      s
  }

  /** `str(i)` for an `int` (also what `json.dumps` writes for it). */
  function Decimal(i: int): (s: string)
    ensures s != []
    ensures i < 0 <==> s[0] == '-'
    ensures i < 0 ==> AllDigits(s[1..]) && DigitsValue(s[1..]) == -i
    ensures i >= 0 ==> AllDigits(s) && DigitsValue(s) == i
    ensures i >= 0 ==> (s[0] == '0' ==> s == "0")
    ensures i < 0 ==> s[1] != '0'
  {
    if i < 0 then "-" + Numeral(-i) else Numeral(i)
  }

  function Pow10(k: nat): (p: nat)
    ensures p >= 1
  {
    if k == 0 then 1 else 10 * Pow10(k - 1)
  }

  /** A number below 10^w has at most `w` digits. */
  lemma {:induction false} NumeralLength(n: nat, w: nat)
    ensures 1 <= w && n < Pow10(w) ==> |Numeral(n)| <= w
    decreases w
  {
    if 1 <= w && n < Pow10(w) && n >= 10 {
      NumeralLength(n / 10, w - 1);
    }
  }

  /** `'%0wd' % n`: the numeral padded on the left with zeros to at least `w` characters. */
  function ZeroPad(n: nat, w: nat): (s: string)
    ensures |s| >= w && AllDigits(s) && DigitsValue(s) == n
    ensures 1 <= w && n < Pow10(w) ==> |s| == w
  {
    NumeralLength(n, w);
    var digits := Numeral(n);
    if |digits| >= w then digits
    else
      var s := seq(w - |digits|, _ => '0') + digits;
      LeadingZeros(w - |digits|, digits);
      s
  }

  /** Zeros in front of a numeral do not change the number it spells. */
  lemma {:induction false} LeadingZeros(k: nat, digits: string)
    requires AllDigits(digits)
    ensures AllDigits(seq(k, _ => '0') + digits)
    ensures DigitsValue(seq(k, _ => '0') + digits) == DigitsValue(digits)
    decreases |digits|
  {
    var s := seq(k, _ => '0') + digits;
    if digits == [] {
      assert s == seq(k, _ => '0');
      AllZeros(k);
    } else {
      var init := digits[..|digits| - 1];
      assert s[..|s| - 1] == seq(k, _ => '0') + init;
      LeadingZeros(k, init);
    }
  }

  lemma {:induction false} AllZeros(k: nat)
    ensures AllDigits(seq(k, _ => '0')) && DigitsValue(seq(k, _ => '0')) == 0
  {
    if k > 0 {
      assert seq(k, _ => '0')[..k - 1] == seq(k - 1, _ => '0');
      AllZeros(k - 1);
    }
  }

  /** The ranges `datetime` enforces on its fields (a day is checked only against 31 here). */
  predicate ValidTimestamp(t: Timestamp) {
    1 <= t.year <= 9999 && 1 <= t.month <= 12 && 1 <= t.day <= 31 &&
    t.hour < 24 && t.minute < 60 && t.second < 60 && t.microsecond < 1000000
  }

  /**
   * `str(t)` for a naive datetime: `YYYY-MM-DD HH:MM:SS`, with `.ffffff` only when there are
   * microseconds.
   */
  function IsoFormat(t: Timestamp): (s: string)
    ensures |s| >= 19
  {
    DatePart(t) + " " + TimePart(t) + (if t.microsecond != 0 then "." + ZeroPad(t.microsecond, 6) else "")
  }

  function DatePart(t: Timestamp): string {
    ZeroPad(t.year, 4) + "-" + ZeroPad(t.month, 2) + "-" + ZeroPad(t.day, 2)
  }

  function TimePart(t: Timestamp): string {
    ZeroPad(t.hour, 2) + ":" + ZeroPad(t.minute, 2) + ":" + ZeroPad(t.second, 2)
  }

  lemma Pow10Values()
    ensures Pow10(2) == 100 && Pow10(4) == 10000 && Pow10(6) == 1000000
  {
    assert Pow10(3) == 1000;
    assert Pow10(5) == 100000;
  }

  lemma DatePartLayout(t: Timestamp)
    requires ValidTimestamp(t)
    ensures var s := DatePart(t);
      |s| == 10 && s[4] == '-' && s[7] == '-' &&
      s[..4] == ZeroPad(t.year, 4) && s[5..7] == ZeroPad(t.month, 2) && s[8..10] == ZeroPad(t.day, 2)
  {
    Pow10Values();
    var y, mo, d := ZeroPad(t.year, 4), ZeroPad(t.month, 2), ZeroPad(t.day, 2);
    assert |y| == 4 && |mo| == 2 && |d| == 2;
  }

  lemma TimePartLayout(t: Timestamp)
    requires ValidTimestamp(t)
    ensures var s := TimePart(t);
      |s| == 8 && s[2] == ':' && s[5] == ':' &&
      s[..2] == ZeroPad(t.hour, 2) && s[3..5] == ZeroPad(t.minute, 2) && s[6..8] == ZeroPad(t.second, 2)
  {
    Pow10Values();
    var h, mi, se := ZeroPad(t.hour, 2), ZeroPad(t.minute, 2), ZeroPad(t.second, 2);
    assert |h| == 2 && |mi| == 2 && |se| == 2;
  }

  /**
   * For a datetime within its ranges every field takes its fixed width, so the text has one of two
   * lengths and the separators sit at fixed places.
   */
  lemma IsoFormatLayout(t: Timestamp)
    requires ValidTimestamp(t)
    ensures var s := IsoFormat(t);
      && |s| == (if t.microsecond == 0 then 19 else 26)
      && s[4] == '-' && s[7] == '-' && s[10] == ' ' && s[13] == ':' && s[16] == ':'
      && (t.microsecond != 0 ==> s[19] == '.')
  {
    var p := DatePart(t) + " " + TimePart(t);
    var fraction := if t.microsecond != 0 then "." + ZeroPad(t.microsecond, 6) else "";
    assert IsoFormat(t) == p + fraction;
    DateTimeLayout(t);
    KeepsPrefix(p, fraction);
    if t.microsecond != 0 {
      Pow10Values();
      assert |ZeroPad(t.microsecond, 6)| == 6;
    }
  }

  /** Each field of a datetime within its ranges can be read back from its slice of `str(t)`. */
  lemma IsoFormatFields(t: Timestamp)
    requires ValidTimestamp(t)
    ensures var s := IsoFormat(t);
      && |s| >= 19
      && s[..4] == ZeroPad(t.year, 4) && s[5..7] == ZeroPad(t.month, 2) && s[8..10] == ZeroPad(t.day, 2)
      && s[11..13] == ZeroPad(t.hour, 2) && s[14..16] == ZeroPad(t.minute, 2) && s[17..19] == ZeroPad(t.second, 2)
  {
    var p := DatePart(t) + " " + TimePart(t);
    var fraction := if t.microsecond != 0 then "." + ZeroPad(t.microsecond, 6) else "";
    assert IsoFormat(t) == p + fraction;
    DateTimeLayout(t);
    KeepsPrefix(p, fraction);
  }

  /** The microseconds, when there are any, can be read back from the last six characters. */
  lemma IsoFormatFraction(t: Timestamp)
    requires ValidTimestamp(t) && t.microsecond != 0
    ensures var s := IsoFormat(t); |s| == 26 && s[20..] == ZeroPad(t.microsecond, 6)
  {
    var p := DatePart(t) + " " + TimePart(t);
    var z := ZeroPad(t.microsecond, 6);
    assert IsoFormat(t) == p + ("." + z);
    IsoFormatLayout(t);
    DateTimeLayout(t);
    AfterPrefixAndDot(p, z);
  }

  lemma AfterPrefixAndDot(p: string, z: string)
    ensures (p + ("." + z))[|p| + 1..] == z
  {
    assert (p + ("." + z))[|p| + 1..] == ("." + z)[1..];
  }

  /** The date, a space and the time: 19 characters with the separators at fixed places. */
  lemma DateTimeLayout(t: Timestamp)
    requires ValidTimestamp(t)
    ensures var p := DatePart(t) + " " + TimePart(t);
      && |p| == 19
      && p[4] == '-' && p[7] == '-' && p[10] == ' ' && p[13] == ':' && p[16] == ':'
      && p[..4] == ZeroPad(t.year, 4) && p[5..7] == ZeroPad(t.month, 2) && p[8..10] == ZeroPad(t.day, 2)
      && p[11..13] == ZeroPad(t.hour, 2) && p[14..16] == ZeroPad(t.minute, 2) && p[17..19] == ZeroPad(t.second, 2)
  {
    var date, time := DatePart(t), TimePart(t);
    DatePartLayout(t);
    TimePartLayout(t);
    KeepsPrefix(date + " ", time);
    KeepsPrefix(date, " ");
    KeepsSuffix(date + " ", time);
  }

  /** Text appended after 11 characters keeps the layout of an 8-character time. */
  lemma KeepsSuffix(p: string, time: string)
    requires |p| == 11 && |time| == 8
    ensures (p + time)[13] == time[2] && (p + time)[16] == time[5]
    ensures (p + time)[11..13] == time[..2] && (p + time)[14..16] == time[3..5] && (p + time)[17..19] == time[6..8]
  {
  }

  /**
   * Appending text keeps the layout of a 10-character prefix: the characters at 4 and 7 and the
   * slices that hold the fields.
   */
  lemma KeepsPrefix(p: string, f: string)
    requires |p| >= 10
    ensures (p + f)[4] == p[4] && (p + f)[7] == p[7]
    ensures (p + f)[..4] == p[..4] && (p + f)[5..7] == p[5..7] && (p + f)[8..10] == p[8..10]
    ensures |p| >= 19 ==>
      (p + f)[10] == p[10] && (p + f)[13] == p[13] && (p + f)[16] == p[16] &&
      (p + f)[11..13] == p[11..13] && (p + f)[14..16] == p[14..16] && (p + f)[17..19] == p[17..19]
  {
  }

  /** `str(v)`. */
  function PyStr(v: Value): string {
    match v
    case Text(s) => s
    case Integer(i) => Decimal(i)
    case Boolean(b) => if b then "True" else "False"
    case NoneValue => "None"
    case Moment(t) => IsoFormat(t)
  }
}
