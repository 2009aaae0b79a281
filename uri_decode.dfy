/**
 * `decodeURIComponent`, the Decode operation of section 15.1.3.2 of ECMA-262 3rd edition with an
 * empty reserved set. It undoes the percent-encoding of section 2.1 of RFC 3986: each `%XY` escape
 * is one octet, and the octets of a multi-octet escape sequence are read as UTF-8 (RFC 3629).
 * Every malformed escape throws a URIError; `UriError` says which of the standard's checks failed.
 */
module UriDecoding {
  import opened Results

  datatype UriError =
    | TruncatedEscape      // fewer characters left than the escape sequence needs (steps 8 and 17)
    | NotHexDigit          // a character after `%` is not a hexadecimal digit (steps 9 and 22)
    | InvalidLeadOctet     // an octet 10xxxxxx or 11111xxx starts a sequence (step 14)
    | MissingPercent       // a continuation octet is not written as an escape (step 21)
    | InvalidContinuation  // a continuation octet is not of the form 10xxxxxx (step 24)
    | InvalidUtf8          // overlong form, surrogate or value above U+10FFFF (step 29)

  predicate IsHexDigit(c: char)
  {
    '0' <= c <= '9' || 'a' <= c <= 'f' || 'A' <= c <= 'F'
  }

  function HexValue(c: char): (v: nat)
    requires IsHexDigit(c)
    ensures v < 16
  {
    if '0' <= c <= '9' then c as int - '0' as int
    else if 'a' <= c <= 'f' then c as int - 'a' as int + 10
    else c as int - 'A' as int + 10
  }

  /** The octet written by the two hexadecimal digits after the `%` at position `k`. */
  function OctetAt(s: string, k: nat): (b: nat)
    requires k + 2 < |s| && IsHexDigit(s[k + 1]) && IsHexDigit(s[k + 2])
    ensures b < 0x100
  {
    16 * HexValue(s[k + 1]) + HexValue(s[k + 2])
  }

  /** The escape number `i` of `s`, which starts at position `3 * i`, is a `%` and two hexadecimal digits. */
  predicate IsEscapeAt(s: string, i: nat)
  {
    3 * i + 2 < |s| && s[3 * i] == '%' && IsHexDigit(s[3 * i + 1]) && IsHexDigit(s[3 * i + 2])
  }

  /** The octet written by escape number `i`. */
  function EscapedOctet(s: string, i: nat): (b: nat)
    requires IsEscapeAt(s, i)
    ensures b < 0x100
  {
    OctetAt(s, 3 * i)
  }

  /** The number of leading one bits of an octet whose top bit is set (step 13). */
  function LeadingOnes(b: nat): (n: nat)
    requires 0x80 <= b < 0x100
    ensures 1 <= n <= 8
  {
    if b < 0xC0 then 1
    else if b < 0xE0 then 2
    else if b < 0xF0 then 3
    else if b < 0xF8 then 4
    else if b < 0xFC then 5
    else if b < 0xFE then 6
    else if b < 0xFF then 7
    else 8
  }

  predicate IsContinuationOctet(b: nat)
  {
    0x80 <= b < 0xC0
  }

  /**
   * The octets of the escapes `j` to `n - 1` of a sequence of `n` escapes that starts at the
   * beginning of `s` (steps 18 to 28): each must be a `%`, two hexadecimal digits, and an octet 10xxxxxx.
   */
  function ContinuationOctets(s: string, j: nat, n: nat): (r: Result<seq<nat>, UriError>)
    requires 1 <= j <= n && 3 * n <= |s|
    ensures r.Ok? <==> forall i :: j <= i < n ==> IsEscapeAt(s, i) && IsContinuationOctet(EscapedOctet(s, i))
    ensures r.Ok? ==> |r.value| == n - j
    ensures r.Ok? ==> forall i :: 0 <= i < |r.value| ==> IsEscapeAt(s, j + i) && r.value[i] == EscapedOctet(s, j + i)
    ensures r.Ok? ==> forall b <- r.value :: IsContinuationOctet(b)
    decreases n - j
  {
    if j == n then Ok([])
    else if s[3 * j] != '%' then assert !IsEscapeAt(s, j); Err(MissingPercent)
    else if !IsHexDigit(s[3 * j + 1]) || !IsHexDigit(s[3 * j + 2]) then assert !IsEscapeAt(s, j); Err(NotHexDigit)
    else
      var b := OctetAt(s, 3 * j);
      if !IsContinuationOctet(b) then assert b == EscapedOctet(s, j); Err(InvalidContinuation)
      else
        match ContinuationOctets(s, j + 1, n)
        case Err(e) => Err(e)
        case Ok(rest) => Ok([b] + rest)
  }

  /** The code point written by a two- to four-octet UTF-8 sequence, before validity is checked. */
  function Utf8Value(octets: seq<nat>): (v: nat)
    requires 2 <= |octets| <= 4
  {
    if |octets| == 2 then
      (octets[0] % 0x20) * 0x40 + octets[1] % 0x40
    else if |octets| == 3 then
      (octets[0] % 0x10) * 0x1000 + (octets[1] % 0x40) * 0x40 + octets[2] % 0x40
    else
      (octets[0] % 0x08) * 0x40000 + (octets[1] % 0x40) * 0x1000 + (octets[2] % 0x40) * 0x40 + octets[3] % 0x40
  }

  /**
   * Whether `v`, decoded from `n` octets, is a Unicode scalar value written in its shortest form,
   * as section 3 of RFC 3629 demands.
   */
  predicate IsShortestScalar(n: nat, v: nat)
  {
    if n == 2 then 0x80 <= v < 0x800
    else if n == 3 then 0x800 <= v < 0x10000 && !(0xD800 <= v < 0xE000)
    else n == 4 && 0x10000 <= v < 0x110000
  }

  /**
   * The character written by the escape sequence at the start of `s`, and how many characters
   * of `s` it takes (steps 7 to 36 for one escape sequence).
   */
  function DecodeEscape(s: string): (r: Result<(char, nat), UriError>)
    requires |s| > 0 && s[0] == '%'
    ensures r.Ok? ==> 3 <= r.value.1 <= |s| && r.value.1 % 3 == 0
    ensures r.Ok? ==> forall i :: 0 <= i && 3 * i < r.value.1 ==> IsEscapeAt(s, i)
  {
    if |s| < 3 then Err(TruncatedEscape)
    else if !IsHexDigit(s[1]) || !IsHexDigit(s[2]) then Err(NotHexDigit)
    else
      var b := OctetAt(s, 0);
      if b < 0x80 then Ok((b as char, 3))
      else
        var n := LeadingOnes(b);
        if n == 1 || n > 4 then Err(InvalidLeadOctet)
        else if |s| < 3 * n then Err(TruncatedEscape)
        else
          match ContinuationOctets(s, 1, n)
          case Err(e) => Err(e)
          case Ok(rest) =>
            var v := Utf8Value([b] + rest);
            if IsShortestScalar(n, v) then Ok((v as char, 3 * n)) else Err(InvalidUtf8)
  }

  /** `decodeURIComponent(s)`: the first malformed escape, scanning from the left, is the error. */
  function DecodeUriComponent(s: string): (r: Result<string, UriError>)
    ensures r.Ok? ==> |r.value| <= |s|
    decreases |s|
  {
    if s == [] then Ok([])
    else if s[0] != '%' then
      match DecodeUriComponent(s[1..])
      case Err(e) => Err(e)
      case Ok(t) => Ok([s[0]] + t)
    else
      match DecodeEscape(s)
      case Err(e) => Err(e)
      case Ok((c, used)) =>
        match DecodeUriComponent(s[used..])
        case Err(e) => Err(e)
        case Ok(t) => Ok([c] + t)
  }

  /** A string without `%` has nothing to decode: `decodeURIComponent` returns it unchanged. */
  lemma {:induction false} DecodeWithoutEscapes(s: string)
    requires '%' !in s
    ensures DecodeUriComponent(s) == Ok(s)
  {
    if s != [] {
      DecodeWithoutEscapes(s[1..]);
      assert s == [s[0]] + s[1..];
    }
  }

  /** Decoding of single escapes and of a two-octet UTF-8 sequence. */
  lemma DecodeExamples()
    ensures DecodeUriComponent("%20") == Ok(" ")
    ensures DecodeUriComponent("%2B") == Ok("+")
    ensures DecodeUriComponent("%C3%A9") == Ok("\U{E9}")
  {
    var space, plus := "%20", "%2B";
    assert space[0] == '%' && space[3..] == [] && DecodeEscape(space) == Ok((' ', 3));
    assert [' '] + [] == " ";
    assert plus[0] == '%' && plus[3..] == [] && DecodeEscape(plus) == Ok(('+', 3));
    assert ['+'] + [] == "+";
    var e := "%C3%A9";
    assert OctetAt(e, 0) == 0xC3 && OctetAt(e, 3) == 0xA9;
    assert ContinuationOctets(e, 2, 2) == Ok([]);
    assert ContinuationOctets(e, 1, 2) == Ok([0xA9] + []);
    assert e[0] == '%' && e[6..] == [] && DecodeEscape(e) == Ok(('\U{E9}', 6));
    assert ['\U{E9}'] + [] == "\U{E9}";
  }

  /** Each malformed escape throws, with the check of the standard that rejects it. */
  lemma MalformedEscapeExamples()
    ensures DecodeUriComponent("a%") == Err(TruncatedEscape)
    ensures DecodeUriComponent("%G1") == Err(NotHexDigit)
    ensures DecodeUriComponent("%A9") == Err(InvalidLeadOctet)
    ensures DecodeUriComponent("%C3") == Err(TruncatedEscape)
    ensures DecodeUriComponent("%C3xA9") == Err(MissingPercent)
    ensures DecodeUriComponent("%C3%28") == Err(InvalidContinuation)
  {
    var trailing := "a%";
    assert trailing[0] == 'a' && trailing[1..] == "%";
    var cut := "%C3xA9";
    assert OctetAt(cut, 0) == 0xC3 && cut[3] == 'x';
    var bad := "%C3%28";
    assert OctetAt(bad, 3) == 0x28;
  }

  /** Well-formed escapes that are not valid UTF-8: an overlong form and an encoded surrogate. */
  lemma InvalidUtf8Examples()
    ensures DecodeUriComponent("%C0%80") == Err(InvalidUtf8)
    ensures DecodeUriComponent("%ED%A0%80") == Err(InvalidUtf8)
  {
    var overlong := "%C0%80";
    assert OctetAt(overlong, 0) == 0xC0 && OctetAt(overlong, 3) == 0x80;
    assert ContinuationOctets(overlong, 2, 2) == Ok([]);
    assert ContinuationOctets(overlong, 1, 2) == Ok([0x80] + []);
    var surrogate := "%ED%A0%80";
    assert OctetAt(surrogate, 0) == 0xED && OctetAt(surrogate, 3) == 0xA0 && OctetAt(surrogate, 6) == 0x80;
    assert surrogate[3] == '%' && surrogate[6] == '%';
    assert ContinuationOctets(surrogate, 3, 3) == Ok([]);
    assert ContinuationOctets(surrogate, 2, 3) == Ok([0x80] + []);
    assert ContinuationOctets(surrogate, 1, 3) == Ok([0xA0] + ([0x80] + []));
    assert Utf8Value([0xED, 0xA0, 0x80]) == 0xD800;
  }

  /**
   * `b` cannot continue an escape sequence left unfinished at the end of the string before it:
   * it holds no `%` and does not start with a hexadecimal digit.
   */
  predicate EndsEscapes(b: string)
  {
    '%' !in b && (b == [] || !IsHexDigit(b[0]))
  }

  /** An escape sequence cut off by `b` at position `|s|` fails: `b[0]` is neither `%` nor a hex digit. */
  lemma {:induction false} ContinuationCutOff(s: string, b: string, j: nat, n: nat)
    requires EndsEscapes(b) && b != []
    requires 1 <= j <= n && 3 * j <= |s| < 3 * n <= |s + b|
    ensures ContinuationOctets(s + b, j, n).Err?
    decreases n - j
  {
    var t := s + b;
    assert t[|s|] == b[0];
    if 3 * j + 3 <= |s| && t[3 * j] == '%' && IsHexDigit(t[3 * j + 1]) && IsHexDigit(t[3 * j + 2])
      && IsContinuationOctet(OctetAt(t, 3 * j))
    {
      ContinuationCutOff(s, b, j + 1, n);
    }
  }

  /** Continuation octets read only the first `3 * n` characters. */
  lemma {:induction false} ContinuationPrefix(s: string, t: string, j: nat, n: nat)
    requires 1 <= j <= n && 3 * n <= |s| && 3 * n <= |t| && s[..3 * n] == t[..3 * n]
    ensures ContinuationOctets(s, j, n) == ContinuationOctets(t, j, n)
    decreases n - j
  {
    if j < n {
      assert s[3 * j] == s[..3 * n][3 * j];
      assert s[3 * j + 1] == s[..3 * n][3 * j + 1];
      assert s[3 * j + 2] == s[..3 * n][3 * j + 2];
      assert t[3 * j] == t[..3 * n][3 * j];
      assert t[3 * j + 1] == t[..3 * n][3 * j + 1];
      assert t[3 * j + 2] == t[..3 * n][3 * j + 2];
      ContinuationPrefix(s, t, j + 1, n);
    }
  }

  /** Appending `b` does not change whether, nor how, the escape sequence at the start of `s` decodes. */
  lemma EscapeAppend(s: string, b: string)
    requires |s| > 0 && s[0] == '%' && EndsEscapes(b)
    ensures DecodeEscape(s + b).Ok? <==> DecodeEscape(s).Ok?
    ensures DecodeEscape(s).Ok? ==> DecodeEscape(s + b) == DecodeEscape(s)
  {
    var t := s + b;
    if b == [] {
      assert t == s;
    } else if |s| < 3 {
      assert t[|s|] == b[0];
    } else {
      assert t[1] == s[1] && t[2] == s[2];
      if IsHexDigit(s[1]) && IsHexDigit(s[2]) {
        assert OctetAt(t, 0) == OctetAt(s, 0);
        var o := OctetAt(s, 0);
        if o >= 0x80 {
          var n := LeadingOnes(o);
          if 1 < n <= 4 {
            if |s| < 3 * n {
              if 3 * n <= |t| {
                ContinuationCutOff(s, b, 1, n);
              }
            } else {
              assert s[..3 * n] == t[..3 * n];
              ContinuationPrefix(s, t, 1, n);
            }
          }
        }
      }
    }
  }

  /**
   * Decoding `a + b`, where `b` holds no `%` and cannot complete an escape of `a`, succeeds exactly
   * when decoding `a` does, and then yields the decoded `a` followed by `b` unchanged.
   */
  lemma {:induction false} DecodeAppend(a: string, b: string)
    requires EndsEscapes(b)
    ensures DecodeUriComponent(a + b).Ok? <==> DecodeUriComponent(a).Ok?
    ensures DecodeUriComponent(a).Ok? ==> DecodeUriComponent(a + b) == Ok(DecodeUriComponent(a).value + b)
    decreases |a|
  {
    if a == [] {
      assert a + b == b;
      DecodeWithoutEscapes(b);
    } else if a[0] != '%' {
      assert (a + b)[0] == a[0] && (a + b)[1..] == a[1..] + b;
      DecodeAppend(a[1..], b);
      if DecodeUriComponent(a).Ok? {
        assert [a[0]] + (DecodeUriComponent(a[1..]).value + b) == [a[0]] + DecodeUriComponent(a[1..]).value + b;
      }
    } else {
      EscapeAppend(a, b);
      if DecodeEscape(a).Ok? {
        var used := DecodeEscape(a).value.1;
        assert (a + b)[used..] == a[used..] + b;
        DecodeAppend(a[used..], b);
        if DecodeUriComponent(a).Ok? {
          var c, d := DecodeEscape(a).value.0, DecodeUriComponent(a[used..]).value;
          assert [c] + (d + b) == [c] + d + b;
        }
      }
    }
  }

  /** Inside an escape sequence that decodes, every `%` is followed by two hexadecimal digits. */
  lemma EscapeSequenceWellFormed(s: string, k: nat)
    requires |s| > 0 && s[0] == '%' && DecodeEscape(s).Ok?
    ensures k < DecodeEscape(s).value.1 && s[k] == '%' ==> k + 2 < |s| && IsHexDigit(s[k + 1]) && IsHexDigit(s[k + 2])
  {
    if k < DecodeEscape(s).value.1 {
      assert IsEscapeAt(s, k / 3);
    }
  }

  /**
   * A `%` anywhere in the string that is not followed by two hexadecimal digits makes
   * `decodeURIComponent` throw, whatever the rest of the string holds.
   */
  lemma {:induction false} MalformedEscapeThrows(s: string, k: nat)
    requires k < |s| && s[k] == '%'
    requires !(k + 2 < |s| && IsHexDigit(s[k + 1]) && IsHexDigit(s[k + 2]))
    ensures DecodeUriComponent(s).Err?
    decreases |s|
  {
    if s[0] != '%' {
      MalformedEscapeThrows(s[1..], k - 1);
    } else if DecodeEscape(s).Ok? {
      var used := DecodeEscape(s).value.1;
      EscapeSequenceWellFormed(s, k);
      MalformedEscapeThrows(s[used..], k - used);
    }
  }
}
