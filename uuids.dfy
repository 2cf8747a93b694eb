/**
 * The two services of Python's `uuid` module that the identifier value object relies on:
 * reading a UUID from text (`uuid.UUID(hex)`) and writing a UUID value as text (`str(u)`).
 * A UUID value is its 128-bit integer written as 32 base-16 digits, most significant first.
 */
module Uuids {
  import opened Wrappers
  import opened HexDigits

  type Uuid = ds: seq<Nibble> | |ds| == 32 witness seq(32, i => 0)

  /** Positions of the four hyphens in the 8-4-4-4-12 layout. */
  predicate IsHyphenPosition(i: int) {
    i == 8 || i == 13 || i == 18 || i == 23
  }

  /** The textual UUID of section 3 of RFC 4122: 32 hexadecimal digits (either case) in groups 8-4-4-4-12. */
  predicate IsRfcUuid(s: string) {
    |s| == 36 &&
    forall i :: 0 <= i < 36 ==> if IsHyphenPosition(i) then s[i] == '-' else IsHexDigit(s[i])
  }

  /** `str(u)`: the canonical text of a UUID value, lower-case digits in the 8-4-4-4-12 layout. */
  function Format(u: Uuid): (s: string)
    ensures IsRfcUuid(s)
    ensures forall i :: 0 <= i < |s| ==> !('A' <= s[i] <= 'F')
  {
    Hex(u[..8]) + "-" + Hex(u[8..12]) + "-" + Hex(u[12..16]) + "-" + Hex(u[16..20]) + "-" + Hex(u[20..])
  }

  /**
   * `s.replace(pat, '')`: every occurrence of `pat` found scanning left to right, without overlaps, is
   * deleted. A single pass, so deleting can leave a new occurrence behind ("urn:" in "ururn:n:").
   */
  function RemoveAll(s: string, pat: string): (r: string)
    requires pat != []
    ensures |r| <= |s|
    decreases |s|
  {
    if |s| < |pat| then s
    else if s[..|pat|] == pat then RemoveAll(s[|pat|..], pat)
    else [s[0]] + RemoveAll(s[1..], pat)
  }

  predicate IsBrace(c: char) {
    c == '{' || c == '}'
  }

  /** `s.lstrip('{}')` */
  function StripLeadingBraces(s: string): (r: string)
    ensures |r| <= |s| && r == s[|s| - |r|..]
    ensures r == [] || !IsBrace(r[0])
  {
    if s != [] && IsBrace(s[0]) then StripLeadingBraces(s[1..]) else s
  }

  /** `s.rstrip('{}')` */
  function StripTrailingBraces(s: string): (r: string)
    ensures |r| <= |s| && r == s[..|r|]
    ensures r == [] || !IsBrace(r[|r| - 1])
  {
    if s != [] && IsBrace(s[|s| - 1]) then StripTrailingBraces(s[..|s| - 1]) else s
  }

  /**
   * The text `uuid.UUID(hex)` goes on to read as digits: the string with "urn:" and then "uuid:"
   * deleted, braces stripped from both ends, and then every hyphen deleted.
   */
  function Normalise(s: string): (h: string)
    ensures |h| <= |s|
  {
    RemoveAll(StripTrailingBraces(StripLeadingBraces(RemoveAll(RemoveAll(s, "urn:"), "uuid:"))), "-")
  }

  /** `uuid.UUID(hex)`: the value written in `s`, or None where the constructor raises ValueError. */
  function Parse(s: string): (r: Option<Uuid>)
    ensures r.Some? <==> |Normalise(s)| == 32 && AllHex(Normalise(s))
    ensures r.Some? ==> Hex(r.value) == LowerAll(Normalise(s))
  {
    var h := Normalise(s);
    if |h| == 32 && AllHex(h) then
      HexOfNibbles(h);
      Some(Nibbles(h))
    else None
  }

  /** A string the UUID constructor accepts. */
  predicate IsUuidString(s: string) {
    Parse(s).Some?
  }

  /** Lower-cases the hexadecimal letters of a string and keeps every other character. */
  function LowerAll(s: string): (r: string)
    ensures |r| == |s|
    ensures forall i :: 0 <= i < |s| ==> r[i] == if IsHexDigit(s[i]) then LowerHex(s[i]) else s[i]
  {
    seq(|s|, i requires 0 <= i < |s| => if IsHexDigit(s[i]) then LowerHex(s[i]) else s[i])
  }

  // ---------------------------------------------------------------- lemmas about the text operations

  /** Deleting a pattern whose first character does not occur changes nothing. */
  lemma {:induction false} RemoveAbsent(s: string, pat: string)
    requires pat != []
    requires forall i :: 0 <= i < |s| ==> s[i] != pat[0]
    ensures RemoveAll(s, pat) == s
    decreases |s|
  {
    if |s| >= |pat| {
      assert s[0] != pat[0];
      assert s[..|pat|] != pat;
      RemoveAbsent(s[1..], pat);
      assert [s[0]] + s[1..] == s;
    }
  }

  /** One step of `RemoveAll` where the text starts with the pattern. */
  lemma RemoveFound(s: string, pat: string)
    requires pat != [] && |s| >= |pat| && s[..|pat|] == pat
    ensures RemoveAll(s, pat) == RemoveAll(s[|pat|..], pat)
  {
  }

  /** One step of `RemoveAll` where the text does not start with the pattern. */
  lemma RemoveKept(c: char, s: string, pat: string)
    requires pat != [] && (|[c] + s| >= |pat| ==> ([c] + s)[..|pat|] != pat)
    ensures RemoveAll([c] + s, pat) == [c] + RemoveAll(s, pat)
  {
    assert ([c] + s)[1..] == s;
  }

  /** Deleting one character distributes over concatenation. */
  lemma {:induction false} RemoveCharConcat(a: string, b: string, c: char)
    ensures RemoveAll(a + b, [c]) == RemoveAll(a, [c]) + RemoveAll(b, [c])
    decreases |a|
  {
    var p := [c];
    if a != [] {
      assert (a + b)[1..] == a[1..] + b;
      assert (a + b)[..|p|] == a[..|p|];
      RemoveCharConcat(a[1..], b, c);
      if a[..|p|] == p {
        assert RemoveAll(a + b, p) == RemoveAll(a[1..] + b, p);
        assert RemoveAll(a, p) == RemoveAll(a[1..], p);
      } else {
        assert RemoveAll(a + b, p) == [a[0]] + RemoveAll(a[1..] + b, p);
        assert RemoveAll(a, p) == [a[0]] + RemoveAll(a[1..], p);
      }
    } else {
      assert a + b == b;
    }
  }

  lemma NoBracesStrip(s: string)
    requires forall i :: 0 <= i < |s| ==> !IsBrace(s[i])
    ensures StripTrailingBraces(StripLeadingBraces(s)) == s
  {
  }

  /** Text without the letter 'u' has no "urn:" and no "uuid:" to delete. */
  lemma NoPrefixes(s: string)
    requires forall i :: 0 <= i < |s| ==> s[i] != 'u'
    ensures RemoveAll(RemoveAll(s, "urn:"), "uuid:") == s
  {
    RemoveAbsent(s, "urn:");
    RemoveAbsent(s, "uuid:");
  }

  /** A hexadecimal string has nothing any normalisation step deletes. */
  lemma HexNormalised(s: string)
    requires AllHex(s)
    ensures Normalise(s) == s
  {
    assert forall i :: 0 <= i < |s| ==> s[i] != 'u' && s[i] != '-' && !IsBrace(s[i]);
    Unaffected(s);
  }

  /** A string without 'u', braces or hyphens is its own normal form. */
  lemma Unaffected(s: string)
    requires forall i :: 0 <= i < |s| ==> s[i] != 'u' && s[i] != '-' && !IsBrace(s[i])
    ensures Normalise(s) == s
  {
    NoPrefixes(s);
    NoBracesStrip(s);
    RemoveAbsent(s, "-");
  }

  // ---------------------------------------------------------------- properties of Parse and Format

  lemma RemoveOwnChar(c: char)
    ensures RemoveAll([c], [c]) == []
  {
    assert [c][..1] == [c] && [c][1..] == [];
  }

  /** Deleting `c` from `x + [c] + y`, where `y` has no `c`, deletes those of `x` and the joining one. */
  lemma RemoveJoiningChar(x: string, y: string, c: char)
    requires forall i :: 0 <= i < |y| ==> y[i] != c
    ensures RemoveAll(x + [c] + y, [c]) == RemoveAll(x, [c]) + y
  {
    RemoveCharConcat(x + [c], y, c);
    RemoveCharConcat(x, [c], c);
    RemoveOwnChar(c);
    RemoveAbsent(y, [c]);
  }

  /** Deleting the hyphens of `x + "-" + y`, where `y` has none, deletes those of `x` and the joining one. */
  lemma RemoveJoiningHyphen(x: string, y: string)
    requires forall i :: 0 <= i < |y| ==> y[i] != '-'
    ensures RemoveAll(x + "-" + y, "-") == RemoveAll(x, "-") + y
  {
    RemoveJoiningChar(x, y, '-');
  }

  /** Deleting the hyphens between five hyphen-free groups joins the groups. */
  lemma RemoveHyphens(a: string, b: string, c: string, d: string, e: string)
    requires forall i :: 0 <= i < |a| ==> a[i] != '-'
    requires forall i :: 0 <= i < |b| ==> b[i] != '-'
    requires forall i :: 0 <= i < |c| ==> c[i] != '-'
    requires forall i :: 0 <= i < |d| ==> d[i] != '-'
    requires forall i :: 0 <= i < |e| ==> e[i] != '-'
    ensures RemoveAll(a + "-" + b + "-" + c + "-" + d + "-" + e, "-") == a + b + c + d + e
  {
    RemoveAbsent(a, "-");
    RemoveJoiningHyphen(a, b);
    RemoveJoiningHyphen(a + "-" + b, c);
    RemoveJoiningHyphen(a + "-" + b + "-" + c, d);
    RemoveJoiningHyphen(a + "-" + b + "-" + c + "-" + d, e);
  }

  /** Five groups of hexadecimal digits joined by hyphens normalise to the digits alone. */
  lemma NormaliseGroups(a: string, b: string, c: string, d: string, e: string)
    requires AllHex(a) && AllHex(b) && AllHex(c) && AllHex(d) && AllHex(e)
    ensures Normalise(a + "-" + b + "-" + c + "-" + d + "-" + e) == a + b + c + d + e
  {
    var s := a + "-" + b + "-" + c + "-" + d + "-" + e;
    assert forall i :: 0 <= i < |s| ==> s[i] != 'u' && !IsBrace(s[i]);
    NoPrefixes(s);
    NoBracesStrip(s);
    RemoveHyphens(a, b, c, d, e);
  }

  /** The canonical text of every UUID value is read back as that value. */
  lemma ParseFormat(u: Uuid)
    ensures Parse(Format(u)) == Some(u)
  {
    NormaliseGroups(Hex(u[..8]), Hex(u[8..12]), Hex(u[12..16]), Hex(u[16..20]), Hex(u[20..]));
    HexConcat(u[..8], u[8..12]);
    HexConcat(u[..12], u[12..16]);
    HexConcat(u[..16], u[16..20]);
    HexConcat(u[..20], u[20..]);
    assert u[..8] + u[8..12] == u[..12];
    assert u[..12] + u[12..16] == u[..16];
    assert u[..16] + u[16..20] == u[..20];
    assert u[..20] + u[20..] == u;
    assert Normalise(Format(u)) == Hex(u);
  }

  /** The 32 digits of an RFC 4122 string, with its four hyphens left out. */
  function Digits(s: string): (h: string)
    requires IsRfcUuid(s)
    ensures |h| == 32 && AllHex(h)
  {
    s[..8] + s[9..13] + s[14..18] + s[19..23] + s[24..]
  }

  /** An RFC 4122 string is its five digit groups joined by hyphens. */
  lemma RfcGroups(s: string)
    requires IsRfcUuid(s)
    ensures var a, b, c, d, e := s[..8], s[9..13], s[14..18], s[19..23], s[24..];
      && AllHex(a) && AllHex(b) && AllHex(c) && AllHex(d) && AllHex(e)
      && s == a + "-" + b + "-" + c + "-" + d + "-" + e
  {
  }

  /** The digit values of five groups, split back at the group boundaries. */
  lemma NibbleGroups(a: string, b: string, c: string, d: string, e: string)
    requires AllHex(a) && AllHex(b) && AllHex(c) && AllHex(d) && AllHex(e)
    requires |a| == 8 && |b| == 4 && |c| == 4 && |d| == 4 && |e| == 12
    ensures var u := Nibbles(a + b + c + d + e);
      u[..8] == Nibbles(a) && u[8..12] == Nibbles(b) && u[12..16] == Nibbles(c) &&
      u[16..20] == Nibbles(d) && u[20..] == Nibbles(e)
  {
  }

  /** Five hexadecimal groups of the 8-4-4-4-12 layout joined by hyphens read as the value their digits spell. */
  lemma ParseGroups(a: string, b: string, c: string, d: string, e: string)
    requires AllHex(a) && AllHex(b) && AllHex(c) && AllHex(d) && AllHex(e)
    requires |a| == 8 && |b| == 4 && |c| == 4 && |d| == 4 && |e| == 12
    ensures Parse(a + "-" + b + "-" + c + "-" + d + "-" + e) == Some(Nibbles(a + b + c + d + e))
  {
    NormaliseGroups(a, b, c, d, e);
    AllHexConcat(a, b);
    AllHexConcat(a + b, c);
    AllHexConcat(a + b + c, d);
    AllHexConcat(a + b + c + d, e);
  }

  lemma AllHexConcat(x: string, y: string)
    requires AllHex(x) && AllHex(y)
    ensures AllHex(x + y)
  {
  }

  /** The value five hexadecimal groups spell is written back as the groups in lower case. */
  lemma FormatGroups(a: string, b: string, c: string, d: string, e: string)
    requires AllHex(a) && AllHex(b) && AllHex(c) && AllHex(d) && AllHex(e)
    requires |a| == 8 && |b| == 4 && |c| == 4 && |d| == 4 && |e| == 12
    ensures Format(Nibbles(a + b + c + d + e))
      == LowerAll(a) + "-" + LowerAll(b) + "-" + LowerAll(c) + "-" + LowerAll(d) + "-" + LowerAll(e)
  {
    NibbleGroups(a, b, c, d, e);
    HexNibbles(a);
    HexNibbles(b);
    HexNibbles(c);
    HexNibbles(d);
    HexNibbles(e);
  }

  lemma HexNibbles(s: string)
    requires AllHex(s)
    ensures Hex(Nibbles(s)) == LowerAll(s)
  {
    HexOfNibbles(s);
  }

  /** Lower-casing works group by group. */
  lemma LowerGroups(a: string, b: string, c: string, d: string, e: string)
    ensures LowerAll(a + "-" + b + "-" + c + "-" + d + "-" + e)
      == LowerAll(a) + "-" + LowerAll(b) + "-" + LowerAll(c) + "-" + LowerAll(d) + "-" + LowerAll(e)
  {
    LowerConcat(a, "-");
    LowerConcat(a + "-", b);
    LowerConcat(a + "-" + b, "-");
    LowerConcat(a + "-" + b + "-", c);
    LowerConcat(a + "-" + b + "-" + c, "-");
    LowerConcat(a + "-" + b + "-" + c + "-", d);
    LowerConcat(a + "-" + b + "-" + c + "-" + d, "-");
    LowerConcat(a + "-" + b + "-" + c + "-" + d + "-", e);
    assert LowerAll("-") == "-";
  }

  lemma LowerConcat(x: string, y: string)
    ensures LowerAll(x + y) == LowerAll(x) + LowerAll(y)
  {
  }

  /**
   * Every RFC 4122 string is accepted, its value is the one its digits spell, and the canonical text
   * of that value is the input in lower case.
   */
  lemma ParseRfc(s: string)
    requires IsRfcUuid(s)
    ensures Parse(s) == Some(Nibbles(Digits(s)))
    ensures Format(Parse(s).value) == LowerAll(s)
  {
    var a, b, c, d, e := s[..8], s[9..13], s[14..18], s[19..23], s[24..];
    RfcGroups(s);
    ParseGroups(a, b, c, d, e);
    FormatGroups(a, b, c, d, e);
    LowerGroups(a, b, c, d, e);
  }

  /** The URN spelling of section 3 of RFC 4122 ("urn:uuid:" in front) reads as the plain string. */
  lemma ParseUrn(s: string)
    requires IsRfcUuid(s)
    ensures Parse("urn:uuid:" + s) == Parse(s)
  {
    assert forall i :: 0 <= i < |s| ==> s[i] != 'u' && s[i] != 'r';
    UrnRemoved(s);
    UuidPrefixRemoved(s);
    NoPrefixes(s);
  }

  /** Deleting "urn:" from "urn:uuid:" + s, where s has no 'r', leaves "uuid:" + s. */
  lemma UrnRemoved(s: string)
    requires forall i :: 0 <= i < |s| ==> s[i] != 'r'
    ensures RemoveAll("urn:uuid:" + s, "urn:") == "uuid:" + s
  {
    var u := "uuid:" + s;
    assert RemoveAll(u, "urn:") == u by {
      UuidPrefixLetters();
      NoCharConcat("uuid:", s, 'r');
      SecondAbsent(u, "urn:");
    }
    assert "urn:uuid:" + s == "urn:" + u by {
      UrnPrefixSplit();
      Concat3("urn:", "uuid:", s);
    }
    PrefixFound("urn:", u);
  }

  lemma UuidPrefixLetters()
    ensures forall i :: 0 <= i < |"uuid:"| ==> "uuid:"[i] != 'r'
  {
  }

  lemma UrnPrefixSplit()
    ensures "urn:" + "uuid:" == "urn:uuid:"
  {
  }

  lemma NoCharConcat(a: string, b: string, c: char)
    requires forall i :: 0 <= i < |a| ==> a[i] != c
    requires forall i :: 0 <= i < |b| ==> b[i] != c
    ensures forall i :: 0 <= i < |a + b| ==> (a + b)[i] != c
  {
  }

  /** A text that starts with the pattern loses that occurrence. */
  lemma PrefixFound(p: string, u: string)
    requires p != []
    ensures RemoveAll(p + u, p) == RemoveAll(u, p)
  {
    assert (p + u)[..|p|] == p && (p + u)[|p|..] == u;
  }

  lemma Concat3(a: string, b: string, c: string)
    ensures a + b + c == a + (b + c)
  {
  }

  /** A pattern of two or more characters whose second character does not occur is never found. */
  lemma {:induction false} SecondAbsent(s: string, pat: string)
    requires |pat| >= 2
    requires forall i :: 0 <= i < |s| ==> s[i] != pat[1]
    ensures RemoveAll(s, pat) == s
    decreases |s|
  {
    if |s| >= |pat| {
      assert s[1] != pat[1];
      assert s[..|pat|] != pat;
      SecondAbsent(s[1..], pat);
      assert [s[0]] + s[1..] == s;
    }
  }

  /** Deleting "uuid:" from "uuid:" + s, where s has no 'u', leaves s. */
  lemma UuidPrefixRemoved(s: string)
    requires forall i :: 0 <= i < |s| ==> s[i] != 'u'
    ensures RemoveAll("uuid:" + s, "uuid:") == s
  {
    var t := "uuid:" + s;
    assert t[..5] == "uuid:" && t[5..] == s;
    RemoveFound(t, "uuid:");
    RemoveAbsent(s, "uuid:");
  }

  /** Surrounding braces are stripped. */
  lemma ParseBraced(s: string)
    requires IsRfcUuid(s)
    ensures Parse("{" + s + "}") == Parse(s)
  {
    assert forall i :: 0 <= i < |s| ==> s[i] != 'u' && !IsBrace(s[i]);
    NormaliseBraced(s);
  }

  /** Braces around text that has none, and no 'u', are the only thing normalisation removes first. */
  lemma NormaliseBraced(s: string)
    requires s != []
    requires forall i :: 0 <= i < |s| ==> s[i] != 'u' && !IsBrace(s[i])
    ensures Normalise("{" + s + "}") == Normalise(s)
  {
    var t := "{" + s + "}";
    assert RemoveAll(RemoveAll(t, "urn:"), "uuid:") == t by {
      assert forall i :: 0 <= i < |t| ==> t[i] != 'u';
      NoPrefixes(t);
    }
    assert RemoveAll(RemoveAll(s, "urn:"), "uuid:") == s by {
      NoPrefixes(s);
    }
    assert StripTrailingBraces(StripLeadingBraces(t)) == s by {
      StripBraces(s);
    }
    assert StripTrailingBraces(StripLeadingBraces(s)) == s by {
      NoBracesStrip(s);
    }
  }

  lemma StripBraces(s: string)
    requires s != [] && !IsBrace(s[0]) && !IsBrace(s[|s| - 1])
    ensures StripTrailingBraces(StripLeadingBraces("{" + s + "}")) == s
  {
    assert "{" + s + "}" == "{" + (s + "}");
    StripLeadingOne(s + "}");
    StripTrailingOne(s);
  }

  lemma StripLeadingOne(x: string)
    requires x != [] && !IsBrace(x[0])
    ensures StripLeadingBraces("{" + x) == x
  {
    assert ("{" + x)[1..] == x;
  }

  lemma StripTrailingOne(x: string)
    requires x != [] && !IsBrace(x[|x| - 1])
    ensures StripTrailingBraces(x + "}") == x
  {
    assert (x + "}")[..|x|] == x;
  }

  /** Hyphens may be left out: the 32 digits alone read as the same value. */
  lemma ParseWithoutHyphens(s: string)
    requires IsRfcUuid(s)
    ensures Parse(Digits(s)) == Parse(s)
  {
    ParseRfc(s);
    HexNormalised(Digits(s));
  }

  /** The identifier the value-object tests use as an invalid input. */
  lemma FakeIdRejected()
    ensures Parse("fake id") == None
  {
    assert |Normalise("fake id")| <= 7;
  }
}
