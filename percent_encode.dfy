/**
 * A reference percent-encoder, the inverse that `decodeURIComponent` is checked against: characters
 * outside the unreserved set of section 2.3 of RFC 3986 are written as UTF-8 (RFC 3629) and each
 * octet as `%` and two upper-case hexadecimal digits (section 2.1 of RFC 3986).
 */
module PercentEncoding {
  import opened Results
  import opened UriDecoding

  /** ALPHA / DIGIT / "-" / "." / "_" / "~" (section 2.3 of RFC 3986). */
  predicate IsUnreserved(c: char)
  {
    'A' <= c <= 'Z' || 'a' <= c <= 'z' || '0' <= c <= '9' || c == '-' || c == '.' || c == '_' || c == '~'
  }

  predicate IsOctets(os: seq<nat>)
  {
    forall k :: 0 <= k < |os| ==> os[k] < 0x100
  }

  /** The UTF-8 octets of one character (section 3 of RFC 3629). */
  function Utf8Octets(c: char): (os: seq<nat>)
    ensures 1 <= |os| <= 4
    ensures IsOctets(os)
  {
    var v := c as int;
    if v < 0x80 then [v]
    else if v < 0x800 then [0xC0 + v / 0x40, 0x80 + v % 0x40]
    else if v < 0x10000 then [0xE0 + v / 0x1000, 0x80 + (v / 0x40) % 0x40, 0x80 + v % 0x40]
    else [0xF0 + v / 0x40000, 0x80 + (v / 0x1000) % 0x40, 0x80 + (v / 0x40) % 0x40, 0x80 + v % 0x40]
  }

  function HexDigitChar(d: nat): (c: char)
    requires d < 16
    ensures IsHexDigit(c) && HexValue(c) == d
  {
    if d < 10 then ('0' as int + d) as char else ('A' as int + d - 10) as char
  }

  /** Each octet as `%XY`. */
  function EscapeOctets(os: seq<nat>): (e: string)
    requires IsOctets(os)
    ensures |e| == 3 * |os|
  {
    if os == [] then []
    else ['%', HexDigitChar(os[0] / 16), HexDigitChar(os[0] % 16)] + EscapeOctets(os[1..])
  }

  /** The percent-encoded form of `s`: unreserved characters as they are, every other one escaped. */
  function PercentEncode(s: string): (e: string)
    ensures |s| <= |e| <= 12 * |s|
  {
    if s == [] then []
    else (if IsUnreserved(s[0]) then [s[0]] else EscapeOctets(Utf8Octets(s[0]))) + PercentEncode(s[1..])
  }

  /** The escape `j` of `EscapeOctets(os)` sits at position `3 * j` and spells octet `os[j]`. */
  lemma {:induction false} EscapeOctetsAt(os: seq<nat>, j: nat)
    requires IsOctets(os)
    requires j < |os|
    ensures EscapeOctets(os)[3 * j] == '%'
    ensures IsHexDigit(EscapeOctets(os)[3 * j + 1]) && IsHexDigit(EscapeOctets(os)[3 * j + 2])
    ensures OctetAt(EscapeOctets(os), 3 * j) == os[j]
  {
    if j > 0 {
      EscapeOctetsAt(os[1..], j - 1);
      var e := EscapeOctets(os);
      var tail := EscapeOctets(os[1..]);
      assert e[3 * j] == tail[3 * (j - 1)];
      assert e[3 * j + 1] == tail[3 * (j - 1) + 1];
      assert e[3 * j + 2] == tail[3 * (j - 1) + 2];
    }
  }

  /** Splitting a code point below U+0800 into a 5-bit and a 6-bit part, and putting it back together. */
  lemma TwoOctetArithmetic(v: int)
    requires 0x80 <= v < 0x800
    ensures 2 <= v / 0x40 < 0x20
    ensures (0xC0 + v / 0x40) % 0x20 == v / 0x40 && (0x80 + v % 0x40) % 0x40 == v % 0x40
    ensures (v / 0x40) * 0x40 + v % 0x40 == v
  {
  }

  /** Splitting a code point below U+10000 into a 4-bit and two 6-bit parts, and putting it back together. */
  lemma ThreeOctetArithmetic(v: int)
    requires 0x800 <= v < 0x10000
    ensures v / 0x1000 < 0x10
    ensures (0xE0 + v / 0x1000) % 0x10 == v / 0x1000
    ensures (0x80 + (v / 0x40) % 0x40) % 0x40 == (v / 0x40) % 0x40 && (0x80 + v % 0x40) % 0x40 == v % 0x40
    ensures (v / 0x1000) * 0x1000 + ((v / 0x40) % 0x40) * 0x40 + v % 0x40 == v
  {
    var w := v / 0x40;
    assert v == 0x40 * w + v % 0x40;
    assert w == 0x40 * (w / 0x40) + w % 0x40;
    assert v == 0x1000 * (w / 0x40) + (0x40 * (w % 0x40) + v % 0x40);
    assert w / 0x40 == v / 0x1000;
  }

  /** Splitting a code point up to U+10FFFF into a 3-bit and three 6-bit parts, and putting it back together. */
  lemma FourOctetArithmetic(v: int)
    requires 0x10000 <= v < 0x110000
    ensures v / 0x40000 < 0x05
    ensures (0xF0 + v / 0x40000) % 0x08 == v / 0x40000
    ensures (0x80 + (v / 0x1000) % 0x40) % 0x40 == (v / 0x1000) % 0x40
    ensures (0x80 + (v / 0x40) % 0x40) % 0x40 == (v / 0x40) % 0x40 && (0x80 + v % 0x40) % 0x40 == v % 0x40
    ensures (v / 0x40000) * 0x40000 + ((v / 0x1000) % 0x40) * 0x1000 + ((v / 0x40) % 0x40) * 0x40 + v % 0x40 == v
  {
    var w := v / 0x40;
    var x := w / 0x40;
    assert v == 0x40 * w + v % 0x40;
    assert w == 0x40 * x + w % 0x40;
    assert x == 0x40 * (x / 0x40) + x % 0x40;
    assert v == 0x1000 * x + (0x40 * (w % 0x40) + v % 0x40);
    assert x == v / 0x1000;
    assert v == 0x40000 * (x / 0x40) + (0x1000 * (x % 0x40) + 0x40 * (w % 0x40) + v % 0x40);
    assert x / 0x40 == v / 0x40000;
  }

  /** The UTF-8 octets of a character decode back to it, and only as a sequence of their length. */
  lemma Utf8OctetsDecode(c: char)
    ensures var os := Utf8Octets(c);
            && (|os| == 1 ==> os[0] == c as int && os[0] < 0x80)
            && (|os| > 1 ==>
                  && 0x80 <= os[0] < 0x100 && LeadingOnes(os[0]) == |os|
                  && (forall k :: 1 <= k < |os| ==> IsContinuationOctet(os[k]))
                  && Utf8Value(os) == c as int && IsShortestScalar(|os|, c as int))
  {
    var v := c as int;
    if 0x80 <= v < 0x800 {
      TwoOctetArithmetic(v);
    } else if 0x800 <= v < 0x10000 {
      ThreeOctetArithmetic(v);
    } else if 0x10000 <= v {
      FourOctetArithmetic(v);
    }
  }

  /** The continuation escapes of an encoded character read back as its continuation octets. */
  lemma {:induction false} ContinuationOfEscaped(os: seq<nat>, rest: string, j: nat)
    requires IsOctets(os)
    requires 1 <= j <= |os|
    requires forall k :: 1 <= k < |os| ==> IsContinuationOctet(os[k])
    ensures ContinuationOctets(EscapeOctets(os) + rest, j, |os|) == Ok(os[j..])
    decreases |os| - j
  {
    var t := EscapeOctets(os) + rest;
    if j == |os| {
      assert os[j..] == [];
    } else {
      EscapeOctetsAt(os, j);
      var e := EscapeOctets(os);
      assert t[3 * j] == e[3 * j] && t[3 * j + 1] == e[3 * j + 1] && t[3 * j + 2] == e[3 * j + 2];
      assert OctetAt(t, 3 * j) == OctetAt(e, 3 * j);
      ContinuationOfEscaped(os, rest, j + 1);
      assert os[j..] == [os[j]] + os[j + 1..];
    }
  }

  /** The escapes of one character, whatever follows them, decode to that character. */
  lemma EscapedCharDecodes(c: char, rest: string)
    ensures var e := EscapeOctets(Utf8Octets(c));
            |e + rest| > 0 && (e + rest)[0] == '%' && DecodeEscape(e + rest) == Ok((c, |e|))
  {
    var os := Utf8Octets(c);
    var e := EscapeOctets(os);
    var t := e + rest;
    Utf8OctetsDecode(c);
    EscapeOctetsAt(os, 0);
    assert t[0] == e[0] && t[1] == e[1] && t[2] == e[2];
    assert OctetAt(t, 0) == OctetAt(e, 0) == os[0];
    if |os| > 1 {
      ContinuationOfEscaped(os, rest, 1);
      assert [os[0]] + os[1..] == os;
    }
  }

  /** `decodeURIComponent` inverts percent-encoding, for every string. */
  lemma {:induction false} DecodeInvertsEncode(s: string)
    ensures DecodeUriComponent(PercentEncode(s)) == Ok(s)
  {
    if s != [] {
      var rest := PercentEncode(s[1..]);
      DecodeInvertsEncode(s[1..]);
      var t := PercentEncode(s);
      if IsUnreserved(s[0]) {
        assert t == [s[0]] + rest;
        assert t[0] == s[0] && t[1..] == rest;
      } else {
        var e := EscapeOctets(Utf8Octets(s[0]));
        assert t == e + rest;
        EscapedCharDecodes(s[0], rest);
        assert t[|e|..] == rest;
      }
      assert s == [s[0]] + s[1..];
    }
  }

  /** Percent-encoding never produces a `+`: every `+` is written `%2B`. */
  lemma {:induction false} EncodeHasNoPlus(s: string)
    ensures '+' !in PercentEncode(s)
  {
    if s != [] {
      EncodeHasNoPlus(s[1..]);
      if !IsUnreserved(s[0]) {
        EscapeHasNoPlus(Utf8Octets(s[0]));
      }
    }
  }

  lemma {:induction false} EscapeHasNoPlus(os: seq<nat>)
    requires IsOctets(os)
    ensures '+' !in EscapeOctets(os)
  {
    if os != [] {
      EscapeHasNoPlus(os[1..]);
    }
  }

  /** Reading two octets as UTF-8 and splitting the value again gives back the same octets. */
  lemma TwoOctetResplit(b0: nat, b1: nat)
    requires 0xC0 <= b0 < 0xE0 && IsContinuationOctet(b1)
    ensures var v := Utf8Value([b0, b1]);
            0xC0 + v / 0x40 == b0 && 0x80 + v % 0x40 == b1
  {
    var v := Utf8Value([b0, b1]);
    assert v == (b0 % 0x20) * 0x40 + b1 % 0x40;
    assert v / 0x40 == b0 % 0x20 && v % 0x40 == b1 % 0x40;
  }

  lemma ThreeOctetResplit(b0: nat, b1: nat, b2: nat)
    requires 0xE0 <= b0 < 0xF0 && IsContinuationOctet(b1) && IsContinuationOctet(b2)
    ensures var v := Utf8Value([b0, b1, b2]);
            0xE0 + v / 0x1000 == b0 && 0x80 + (v / 0x40) % 0x40 == b1 && 0x80 + v % 0x40 == b2
  {
    var v := Utf8Value([b0, b1, b2]);
    var w := (b0 % 0x10) * 0x40 + b1 % 0x40;
    assert v == w * 0x40 + b2 % 0x40;
    assert v / 0x40 == w && v % 0x40 == b2 % 0x40;
    assert w / 0x40 == b0 % 0x10 && w % 0x40 == b1 % 0x40;
    assert v == (b0 % 0x10) * 0x1000 + (b1 % 0x40 * 0x40 + b2 % 0x40);
    assert v / 0x1000 == b0 % 0x10;
  }

  lemma FourOctetResplit(b0: nat, b1: nat, b2: nat, b3: nat)
    requires 0xF0 <= b0 < 0xF8 && IsContinuationOctet(b1) && IsContinuationOctet(b2) && IsContinuationOctet(b3)
    ensures var v := Utf8Value([b0, b1, b2, b3]);
            && 0xF0 + v / 0x40000 == b0 && 0x80 + (v / 0x1000) % 0x40 == b1
            && 0x80 + (v / 0x40) % 0x40 == b2 && 0x80 + v % 0x40 == b3
  {
    var v := Utf8Value([b0, b1, b2, b3]);
    var x := (b0 % 0x08) * 0x40 + b1 % 0x40;
    var w := x * 0x40 + b2 % 0x40;
    assert v == w * 0x40 + b3 % 0x40;
    assert v / 0x40 == w && v % 0x40 == b3 % 0x40;
    assert w / 0x40 == x && w % 0x40 == b2 % 0x40;
    assert x / 0x40 == b0 % 0x08 && x % 0x40 == b1 % 0x40;
    assert v == x * 0x1000 + (b2 % 0x40 * 0x40 + b3 % 0x40);
    assert v / 0x1000 == x;
    assert v == (b0 % 0x08) * 0x40000 + (b1 % 0x40 * 0x1000 + b2 % 0x40 * 0x40 + b3 % 0x40);
    assert v / 0x40000 == b0 % 0x08;
  }

  /** A valid, shortest-form UTF-8 sequence of two to four octets is the encoding of the character it reads as. */
  lemma Utf8OctetsOfValue(octets: seq<nat>)
    requires 2 <= |octets| <= 4 && 0x80 <= octets[0] < 0x100 && LeadingOnes(octets[0]) == |octets|
    requires forall i :: 1 <= i < |octets| ==> IsContinuationOctet(octets[i])
    requires IsShortestScalar(|octets|, Utf8Value(octets))
    ensures Utf8Octets(Utf8Value(octets) as char) == octets
  {
    if |octets| == 2 {
      TwoOctetResplit(octets[0], octets[1]);
      assert octets == [octets[0], octets[1]];
    } else if |octets| == 3 {
      ThreeOctetResplit(octets[0], octets[1], octets[2]);
      assert octets == [octets[0], octets[1], octets[2]];
    } else {
      FourOctetResplit(octets[0], octets[1], octets[2], octets[3]);
      assert octets == [octets[0], octets[1], octets[2], octets[3]];
    }
  }

  /**
   * The converse of `EscapedCharDecodes`: an escape sequence that decodes to `c` consists of exactly
   * as many escapes as `c` has UTF-8 octets, and they write those octets.
   */
  lemma DecodedEscapeIsUtf8(s: string)
    requires |s| > 0 && s[0] == '%' && DecodeEscape(s).Ok?
    ensures var c, used := DecodeEscape(s).value.0, DecodeEscape(s).value.1;
            var os := Utf8Octets(c);
            && used == 3 * |os|
            && forall i :: 0 <= i < |os| ==> IsEscapeAt(s, i) && EscapedOctet(s, i) == os[i]
  {
    var c, used := DecodeEscape(s).value.0, DecodeEscape(s).value.1;
    var b := OctetAt(s, 0);
    assert IsEscapeAt(s, 0) && EscapedOctet(s, 0) == b;
    if b >= 0x80 {
      var n := LeadingOnes(b);
      var rest := ContinuationOctets(s, 1, n).value;
      var octets := [b] + rest;
      assert c as int == Utf8Value(octets) && used == 3 * n;
      Utf8OctetsOfValue(octets);
      assert forall i :: 1 <= i < n ==> IsEscapeAt(s, i) && EscapedOctet(s, i) == octets[i];
    }
  }
}
