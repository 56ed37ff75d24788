/**
 * Percent-decoding as the browser's decodeURIComponent performs it
 * (ECMA-262, the Decode abstract operation with an empty preserve-set):
 * every "%XY" escape (section 2.1 of RFC 3986: two hexadecimal digits of
 * either case) stands for one octet; an ASCII octet becomes that character,
 * and a run of escaped octets forming one well-formed UTF-8 sequence becomes
 * the character it encodes. Any other escape makes the whole call fail
 * (a URIError in the browser, None here).
 *
 * Strings are sequences of Unicode scalar values, so a character outside the
 * Basic Multilingual Plane is one element here where the browser holds two
 * UTF-16 code units.
 *
 * The encoders at the end write each character either as itself or as the
 * escapes of its UTF-8 octets; encodeURIComponent is the one that keeps only
 * ASCII letters, digits and - _ . ! ~ * ' ( ). The round-trip lemmas
 * DecodeEncodeWith and DecodeEncode show decoding undoes each of them.
 */
module PercentDecoding {
  import opened Wrappers

  // ---------------------------------------------------------------- decoding

  /** The value of a hexadecimal digit of either case, or None. */
  function HexValue(c: char): (r: Option<nat>)
    ensures r.Some? <==> ('0' <= c <= '9' || 'a' <= c <= 'f' || 'A' <= c <= 'F')
    ensures r.Some? ==> r.value < 16
  {
    if '0' <= c <= '9' then Some(c as int - '0' as int)
    else if 'a' <= c <= 'f' then Some(c as int - 'a' as int + 10)
    else if 'A' <= c <= 'F' then Some(c as int - 'A' as int + 10)
    else None
  }

  /** The octet escaped as "%XY" at the front of s, or None. */
  function OctetAt(s: string): (r: Option<nat>)
    ensures r.Some? ==> 3 <= |s| && s[0] == '%' && r.value < 256
  {
    if |s| < 3 || s[0] != '%' then None
    else
      match (HexValue(s[1]), HexValue(s[2]))
      case (Some(hi), Some(lo)) => Some(16 * hi + lo)
      case _ => None
  }

  /**
   * The number of leading 1 bits of an octet: 0 for ASCII, 1 for a UTF-8
   * continuation byte, 2 to 4 for the lead byte of a multi-byte sequence and
   * more for octets UTF-8 never uses.
   */
  function LeadingOnes(b: nat): (n: nat)
    requires b < 256
    ensures n <= 8
  {
    if b < 0x80 then 0
    else if b < 0xC0 then 1
    else if b < 0xE0 then 2
    else if b < 0xF0 then 3
    else if b < 0xF8 then 4
    else if b < 0xFC then 5
    else if b < 0xFE then 6
    else if b < 0xFF then 7
    else 8
  }

  /** The n escaped octets "%XY%XY..." at the front of s, or None if one is missing or malformed. */
  function Octets(s: string, n: nat): (r: Option<seq<nat>>)
    ensures r.Some? ==> |r.value| == n && 3 * n <= |s|
    ensures r.Some? ==> forall i :: 0 <= i < n ==> r.value[i] < 256
  {
    if n == 0 then Some([])
    else
      match OctetAt(s)
      case None => None
      case Some(b) =>
        match Octets(s[3..], n - 1)
        case None => None
        case Some(rest) => Some([b] + rest)
  }

  predicate IsContinuation(b: nat) {
    0x80 <= b < 0xC0
  }

  /** Appends the six payload bits of each continuation byte to acc; None at the first byte that is not one. */
  function Accumulate(acc: nat, conts: seq<nat>): Option<nat>
    decreases |conts|
  {
    if conts == [] then Some(acc)
    else if IsContinuation(conts[0]) then Accumulate(acc * 64 + (conts[0] - 0x80), conts[1..])
    else None
  }

  /** The smallest code point that needs an n-octet UTF-8 sequence. */
  function MinimumCodePoint(n: nat): nat {
    if n == 2 then 0x80 else if n == 3 then 0x800 else 0x10000
  }

  /**
   * The character a lead byte and its continuation bytes encode, or None when
   * they are not a well-formed UTF-8 sequence: a byte that is not a
   * continuation byte, an overlong form, a surrogate, or a value above U+10FFFF.
   */
  function Utf8Decode(lead: nat, conts: seq<nat>): Option<char>
    requires lead < 256 && 2 <= LeadingOnes(lead) <= 4 && |conts| == LeadingOnes(lead) - 1
  {
    var n := |conts| + 1;
    var payload := if n == 2 then lead - 0xC0 else if n == 3 then lead - 0xE0 else lead - 0xF0;
    match Accumulate(payload, conts)
    case None => None
    case Some(cp) =>
      if MinimumCodePoint(n) <= cp <= 0x10FFFF && !(0xD800 <= cp <= 0xDFFF) then Some(cp as char)
      else None
  }

  /**
   * The character an escape run at the front of s stands for, with the number
   * of characters of s it spans, or None when the escape is malformed.
   */
  function DecodeEscape(s: string): (r: Option<(char, nat)>)
    ensures r.Some? ==> 3 <= r.value.1 <= |s|
  {
    match OctetAt(s)
    case None => None
    case Some(b) =>
      var n := LeadingOnes(b);
      if n == 0 then Some((b as char, 3))
      else if n == 1 || n > 4 then None
      else
        match Octets(s[3..], n - 1)
        case None => None
        case Some(conts) =>
          match Utf8Decode(b, conts)
          case None => None
          case Some(c) => Some((c, 3 * n))
  }

  /**
   * decodeURIComponent: None when some escape is malformed, otherwise the
   * decoded text, which is never longer than the input.
   */
  function PercentDecode(s: string): (r: Option<string>)
    ensures r.Some? ==> |r.value| <= |s|
    decreases |s|
  {
    if s == [] then Some("")
    else if s[0] != '%' then Prefixed([s[0]], PercentDecode(s[1..]))
    else
      match DecodeEscape(s)
      case None => None
      case Some((c, width)) => Prefixed([c], PercentDecode(s[width..]))
  }

  /** p in front of a successful decoding; a failure stays a failure. */
  function Prefixed(p: string, r: Option<string>): Option<string> {
    match r
    case None => None
    case Some(rest) => Some(p + rest)
  }

  /** Text without a '%' decodes to itself. */
  lemma {:induction false} DecodeWithoutPercent(s: string)
    requires '%' !in s
    ensures PercentDecode(s) == Some(s)
  {
    if s != [] {
      assert s[0] != '%';
      assert '%' !in s[1..] by {
        forall i | 0 <= i < |s[1..]| ensures s[1..][i] != '%' {
          assert s[1..][i] == s[i + 1];
        }
      }
      DecodeWithoutPercent(s[1..]);
      assert [s[0]] + s[1..] == s;
    }
  }

  // ---------------------------------------------------------------- encoding

  /** The characters encodeURIComponent leaves unescaped: ASCII letters, digits and - _ . ! ~ * ' ( ). */
  predicate IsUnescaped(c: char) {
    'A' <= c <= 'Z' || 'a' <= c <= 'z' || '0' <= c <= '9' || c in "-_.!~*'()"
  }

  /** An upper-case hexadecimal digit. */
  function HexDigit(v: nat): char
    requires v < 16
  {
    if v < 10 then ('0' as int + v) as char else ('A' as int + v - 10) as char
  }

  function EscapeOctet(b: nat): (e: string)
    requires b < 256
  {
    ['%', HexDigit(b / 16), HexDigit(b % 16)]
  }

  function EscapeOctets(bytes: seq<nat>): (e: string)
    requires forall i :: 0 <= i < |bytes| ==> bytes[i] < 256
    ensures |e| == 3 * |bytes|
  {
    if bytes == [] then "" else EscapeOctet(bytes[0]) + EscapeOctets(bytes[1..])
  }

  /** The UTF-8 encoding of one Unicode scalar value. */
  function Utf8Encode(c: char): (bytes: seq<nat>)
    ensures 1 <= |bytes| <= 4
    ensures forall i :: 0 <= i < |bytes| ==> bytes[i] < 256
  {
    var cp := c as int;
    var q1 := cp / 64;
    var q2 := q1 / 64;
    var q3 := q2 / 64;
    if cp < 0x80 then [cp]
    else if cp < 0x800 then [0xC0 + q1, 0x80 + cp % 64]
    else if cp < 0x10000 then [0xE0 + q2, 0x80 + q1 % 64, 0x80 + cp % 64]
    else [0xF0 + q3, 0x80 + q2 % 64, 0x80 + q1 % 64, 0x80 + cp % 64]
  }

  /** A character written as the "%XY" escapes of its UTF-8 octets. */
  function EscapeChar(c: char): string {
    EscapeOctets(Utf8Encode(c))
  }

  /**
   * A percent-encoder: the characters keep allows are written as themselves,
   * every other character as the escapes of its UTF-8 octets.
   */
  function PercentEncodeWith(keep: char -> bool, s: string): string {
    if s == [] then ""
    else (if keep(s[0]) then [s[0]] else EscapeChar(s[0])) + PercentEncodeWith(keep, s[1..])
  }

  /** encodeURIComponent on text made of Unicode scalar values. */
  function PercentEncode(s: string): string {
    PercentEncodeWith(IsUnescaped, s)
  }

  // ---------------------------------------------------------------- round trip

  lemma HexRoundTrip(v: nat)
    requires v < 16
    ensures HexValue(HexDigit(v)) == Some(v)
  {
  }

  lemma OctetRoundTrip(b: nat, rest: string)
    requires b < 256
    ensures OctetAt(EscapeOctet(b) + rest) == Some(b)
  {
  }

  lemma {:induction false} OctetsRoundTrip(bytes: seq<nat>, rest: string)
    requires forall i :: 0 <= i < |bytes| ==> bytes[i] < 256
    ensures Octets(EscapeOctets(bytes) + rest, |bytes|) == Some(bytes)
  {
    if bytes != [] {
      var t := EscapeOctets(bytes[1..]) + rest;
      var s := EscapeOctet(bytes[0]) + t;
      assert EscapeOctets(bytes) + rest == s;
      assert OctetAt(s) == Some(bytes[0]) by {
        OctetRoundTrip(bytes[0], t);
      }
      assert s[3..] == t;
      assert Octets(t, |bytes| - 1) == Some(bytes[1..]) by {
        OctetsRoundTrip(bytes[1..], rest);
      }
      assert [bytes[0]] + bytes[1..] == bytes;
    }
  }

  /** Decoding the UTF-8 bytes of a non-ASCII character gives the character back. */
  lemma Utf8RoundTrip(c: char)
    requires c as int >= 0x80
    ensures var bytes := Utf8Encode(c);
            2 <= |bytes| && LeadingOnes(bytes[0]) == |bytes|
            && Utf8Decode(bytes[0], bytes[1..]) == Some(c)
  {
    var cp := c as int;
    var q1 := cp / 64;
    var q2 := q1 / 64;
    var q3 := q2 / 64;
    var bytes := Utf8Encode(c);
    if cp < 0x800 {
      assert Accumulate(q1, bytes[1..]) == Some(cp);
    } else if cp < 0x10000 {
      assert Accumulate(q2, bytes[1..]) == Accumulate(q1, bytes[2..]) == Some(cp);
    } else {
      assert Accumulate(q3, bytes[1..]) == Accumulate(q2, bytes[2..]) == Accumulate(q1, bytes[3..]) == Some(cp);
    }
  }

  /** An escaped character at the front of a string decodes to itself and spans exactly its escapes. */
  lemma EscapeRoundTrip(c: char, rest: string)
    ensures DecodeEscape(EscapeChar(c) + rest) == Some((c, |EscapeChar(c)|))
  {
    var bytes := Utf8Encode(c);
    var s := EscapeChar(c) + rest;
    assert s == EscapeOctet(bytes[0]) + (EscapeOctets(bytes[1..]) + rest);
    OctetRoundTrip(bytes[0], EscapeOctets(bytes[1..]) + rest);
    if c as int >= 0x80 {
      Utf8RoundTrip(c);
      assert s[3..] == EscapeOctets(bytes[1..]) + rest;
      OctetsRoundTrip(bytes[1..], rest);
    }
  }

  /**
   * Decoding undoes every percent-encoder that escapes '%' itself, whichever
   * other characters it leaves as they are.
   */
  lemma {:induction false} DecodeEncodeWith(keep: char -> bool, s: string)
    requires !keep('%')
    ensures PercentDecode(PercentEncodeWith(keep, s)) == Some(s)
  {
    if s != [] {
      var c, t := s[0], s[1..];
      var e := if keep(c) then [c] else EscapeChar(c);
      var u := e + PercentEncodeWith(keep, t);
      assert PercentEncodeWith(keep, s) == u;
      DecodeEncodeWith(keep, t);
      if keep(c) {
        assert u[0] == c != '%' && u[1..] == PercentEncodeWith(keep, t);
      } else {
        EscapeRoundTrip(c, PercentEncodeWith(keep, t));
        assert u[0] == '%';
        assert u[|e|..] == PercentEncodeWith(keep, t);
      }
      assert [c] + t == s;
    }
  }

  /** Decoding undoes encodeURIComponent, for every string. */
  lemma DecodeEncode(s: string)
    ensures PercentDecode(PercentEncode(s)) == Some(s)
  {
    assert !IsUnescaped('%');
    DecodeEncodeWith(IsUnescaped, s);
  }

  /** A prefix without '%' passes through decoding unchanged, whatever follows it. */
  lemma {:induction false} DecodePlainPrefix(p: string, t: string)
    requires '%' !in p
    ensures PercentDecode(p + t) == Prefixed(p, PercentDecode(t))
  {
    if p == [] {
      assert p + t == t;
      if PercentDecode(t).Some? {
        assert p + PercentDecode(t).value == PercentDecode(t).value;
      }
    } else {
      var s := p + t;
      assert s[0] == p[0] != '%' && s[1..] == p[1..] + t;
      assert '%' !in p[1..] by {
        forall i | 0 <= i < |p[1..]| ensures p[1..][i] != '%' {
          assert p[1..][i] == p[i + 1];
        }
      }
      DecodePlainPrefix(p[1..], t);
      if PercentDecode(t).Some? {
        assert [p[0]] + (p[1..] + PercentDecode(t).value) == p + PercentDecode(t).value;
      }
    }
  }

  /** Escaped octets read at the front of s are read the same whatever follows s. */
  lemma {:induction false} OctetsExtend(s: string, n: nat, t: string)
    requires Octets(s, n).Some?
    ensures Octets(s + t, n) == Octets(s, n)
  {
    if n > 0 {
      assert (s + t)[..3] == s[..3];
      assert OctetAt(s + t) == OctetAt(s);
      assert (s + t)[3..] == s[3..] + t;
      OctetsExtend(s[3..], n - 1, t);
    }
  }

  /** An escape that decodes at the front of s decodes the same whatever follows s. */
  lemma EscapeExtend(s: string, t: string)
    requires DecodeEscape(s).Some?
    ensures DecodeEscape(s + t) == DecodeEscape(s)
  {
    assert (s + t)[..3] == s[..3];
    assert OctetAt(s + t) == OctetAt(s);
    var n := LeadingOnes(OctetAt(s).value);
    if 2 <= n <= 4 {
      assert (s + t)[3..] == s[3..] + t;
      OctetsExtend(s[3..], n - 1, t);
    }
  }

  /** Two prefixes in a row are one prefix. */
  lemma PrefixedTwice(a: string, b: string, r: Option<string>)
    ensures Prefixed(a, Prefixed(b, r)) == Prefixed(a + b, r)
  {
    if r.Some? {
      assert a + (b + r.value) == (a + b) + r.value;
    }
  }

  /**
   * Decoding splits at the end of any prefix that decodes: the prefix's
   * decoding comes first, and decoding of what follows is unaffected.
   */
  lemma {:induction false} DecodeAfterDecoded(p: string, t: string)
    requires PercentDecode(p).Some?
    ensures PercentDecode(p + t) == Prefixed(PercentDecode(p).value, PercentDecode(t))
    decreases |p|
  {
    if p == [] {
      assert p + t == t;
      if PercentDecode(t).Some? {
        assert PercentDecode(p).value + PercentDecode(t).value == PercentDecode(t).value;
      }
    } else if p[0] != '%' {
      assert (p + t)[0] == p[0] && (p + t)[1..] == p[1..] + t;
      assert PercentDecode(p + t) == Prefixed([p[0]], PercentDecode(p[1..] + t));
      DecodeAfterDecoded(p[1..], t);
      PrefixedTwice([p[0]], PercentDecode(p[1..]).value, PercentDecode(t));
    } else {
      var c, width := DecodeEscape(p).value.0, DecodeEscape(p).value.1;
      EscapeExtend(p, t);
      assert (p + t)[0] == '%' && (p + t)[width..] == p[width..] + t;
      assert PercentDecode(p + t) == Prefixed([c], PercentDecode(p[width..] + t));
      DecodeAfterDecoded(p[width..], t);
      PrefixedTwice([c], PercentDecode(p[width..]).value, PercentDecode(t));
    }
  }

  /** A '%' with fewer than two characters after it makes decoding fail, after any prefix that decodes. */
  lemma {:induction false} TruncatedEscapeFails(p: string, t: string)
    requires PercentDecode(p).Some? && 1 <= |t| < 3 && t[0] == '%'
    ensures PercentDecode(p + t) == None
  {
    EscapeFails(p, t);
  }

  // ---------------------------------------------------------------- malformed escapes

  /** An escape that does not decode makes the whole decoding fail, after any prefix that decodes. */
  lemma EscapeFails(p: string, t: string)
    requires PercentDecode(p).Some? && t != [] && t[0] == '%' && DecodeEscape(t).None?
    ensures PercentDecode(p + t) == None
  {
    DecodeAfterDecoded(p, t);
  }

  /** "%" followed by a character that is not a hexadecimal digit, such as "%ZZ", fails. */
  lemma BadHexFails(p: string, t: string)
    requires PercentDecode(p).Some? && |t| >= 3 && t[0] == '%'
    requires HexValue(t[1]).None? || HexValue(t[2]).None?
    ensures PercentDecode(p + t) == None
  {
    EscapeFails(p, t);
  }

  /** A continuation byte where a character should start, such as "%80", fails. */
  lemma LoneContinuationFails(p: string, t: string)
    requires PercentDecode(p).Some? && OctetAt(t).Some? && IsContinuation(OctetAt(t).value)
    ensures PercentDecode(p + t) == None
  {
    EscapeFails(p, t);
  }

  /** An octet with five or more leading 1 bits, such as "%F8" or "%FF", fails. */
  lemma InvalidLeadFails(p: string, t: string)
    requires PercentDecode(p).Some? && OctetAt(t).Some? && OctetAt(t).value >= 0xF8
    ensures PercentDecode(p + t) == None
  {
    EscapeFails(p, t);
  }

  /** The i-th octet of a successful run of escapes is the one escaped 3 * i characters in. */
  lemma {:induction false} OctetsAt(s: string, m: nat, i: nat)
    requires Octets(s, m).Some? && i < m
    ensures 3 * i + 3 <= |s| && OctetAt(s[3 * i..]) == Some(Octets(s, m).value[i])
  {
    if i > 0 {
      OctetsAt(s[3..], m - 1, i - 1);
      assert s[3..][3 * (i - 1)..] == s[3 * i..];
    }
  }

  /** One octet that is not a continuation byte makes the accumulation fail. */
  lemma {:induction false} AccumulateFails(acc: nat, conts: seq<nat>, i: nat)
    requires i < |conts| && !IsContinuation(conts[i])
    ensures Accumulate(acc, conts) == None
    decreases i
  {
    if i > 0 && IsContinuation(conts[0]) {
      AccumulateFails(acc * 64 + (conts[0] - 0x80), conts[1..], i - 1);
    }
  }

  /** The j-th octet after the lead escape is the one escaped 3 * j characters into s. */
  lemma FollowerAt(s: string, m: nat, j: nat)
    requires 3 <= |s| && Octets(s[3..], m).Some? && 1 <= j <= m
    ensures OctetAt(s[3 * j..]) == Some(Octets(s[3..], m).value[j - 1])
  {
    OctetsAt(s[3..], m, j - 1);
    assert s[3..][3 * (j - 1)..] == s[3 * j..];
  }

  /**
   * A lead byte whose j-th follower is missing or is not an escaped
   * continuation byte, such as "%C3", "%C3%41" or "%E2%82", fails.
   */
  lemma BadFollowerFails(p: string, t: string, j: nat)
    requires PercentDecode(p).Some? && OctetAt(t).Some?
    requires 2 <= LeadingOnes(OctetAt(t).value) <= 4 && 1 <= j < LeadingOnes(OctetAt(t).value)
    requires 3 * j <= |t|
    requires OctetAt(t[3 * j..]).None? || !IsContinuation(OctetAt(t[3 * j..]).value)
    ensures PercentDecode(p + t) == None
  {
    var b := OctetAt(t).value;
    var n := LeadingOnes(b);
    var followers := Octets(t[3..], n - 1);
    if followers.Some? {
      FollowerAt(t, n - 1, j);
      var payload := if n == 2 then b - 0xC0 else if n == 3 then b - 0xE0 else b - 0xF0;
      AccumulateFails(payload, followers.value, j - 1);
      assert Utf8Decode(b, followers.value).None?;
    }
    assert DecodeEscape(t).None?;
    EscapeFails(p, t);
  }

  /**
   * Well-formed UTF-8 as Unicode defines it (Table 3-7 of the Unicode
   * Standard): the octet sequences that encode exactly one scalar value.
   * Overlong forms, surrogates and values above U+10FFFF are excluded.
   */
  predicate WellFormedUtf8(bytes: seq<nat>) {
    var cont := (b: nat) => 0x80 <= b <= 0xBF;
    match |bytes|
    case 1 => bytes[0] <= 0x7F
    case 2 => 0xC2 <= bytes[0] <= 0xDF && cont(bytes[1])
    case 3 =>
      (if bytes[0] == 0xE0 then 0xA0 <= bytes[1] <= 0xBF
       else if 0xE1 <= bytes[0] <= 0xEC || 0xEE <= bytes[0] <= 0xEF then cont(bytes[1])
       else if bytes[0] == 0xED then 0x80 <= bytes[1] <= 0x9F
       else false)
      && cont(bytes[2])
    case 4 =>
      (if bytes[0] == 0xF0 then 0x90 <= bytes[1] <= 0xBF
       else if 0xF1 <= bytes[0] <= 0xF3 then cont(bytes[1])
       else if bytes[0] == 0xF4 then 0x80 <= bytes[1] <= 0x8F
       else false)
      && cont(bytes[2]) && cont(bytes[3])
    case _ => false
  }

  /** Every character's UTF-8 encoding is well-formed. */
  lemma Utf8EncodeWellFormed(c: char)
    ensures WellFormedUtf8(Utf8Encode(c))
  {
  }

  /** Appending a base-64 digit can be undone by division and remainder. */
  lemma SixBits(a: nat, d: nat)
    requires d < 64
    ensures (a * 64 + d) / 64 == a && (a * 64 + d) % 64 == d
  {
  }

  /** Utf8DecodeSound for a two-octet sequence. */
  lemma TwoOctetsSound(lead: nat, conts: seq<nat>)
    requires 0xC0 <= lead < 0xE0 && |conts| == 1 && Utf8Decode(lead, conts).Some?
    ensures Utf8Encode(Utf8Decode(lead, conts).value) == [lead] + conts
  {
    var c := Utf8Decode(lead, conts).value;
    var a0 := lead - 0xC0;
    var d0 := conts[0] as int - 0x80;
    assert Accumulate(a0, conts) == Accumulate(a0 * 64 + d0, conts[1..]);
    assert c as int == a0 * 64 + d0 && 0x80 <= c as int < 0x800;
    SixBits(a0, d0);
    assert Utf8Encode(c) == [0xC0 + a0, 0x80 + d0];
    assert [lead] + conts == [lead, conts[0]];
  }

  /** Utf8DecodeSound for a three-octet sequence. */
  lemma ThreeOctetsSound(lead: nat, conts: seq<nat>)
    requires 0xE0 <= lead < 0xF0 && |conts| == 2 && Utf8Decode(lead, conts).Some?
    ensures Utf8Encode(Utf8Decode(lead, conts).value) == [lead] + conts
  {
    var c := Utf8Decode(lead, conts).value;
    var a0 := lead - 0xE0;
    var d0, d1 := conts[0] as int - 0x80, conts[1] as int - 0x80;
    var a1 := a0 * 64 + d0;
    assert Accumulate(a0, conts) == Accumulate(a1, conts[1..]);
    assert Accumulate(a1, conts[1..]) == Accumulate(a1 * 64 + d1, conts[2..]);
    assert c as int == a1 * 64 + d1 && 0x800 <= c as int < 0x10000;
    SixBits(a0, d0);
    SixBits(a1, d1);
    assert Utf8Encode(c) == [0xE0 + a0, 0x80 + d0, 0x80 + d1];
    assert [lead] + conts == [lead, conts[0], conts[1]];
  }

  /** Utf8DecodeSound for a four-octet sequence. */
  lemma FourOctetsSound(lead: nat, conts: seq<nat>)
    requires 0xF0 <= lead < 0xF8 && |conts| == 3 && Utf8Decode(lead, conts).Some?
    ensures Utf8Encode(Utf8Decode(lead, conts).value) == [lead] + conts
  {
    var c := Utf8Decode(lead, conts).value;
    var a0 := lead - 0xF0;
    var d0, d1, d2 := conts[0] as int - 0x80, conts[1] as int - 0x80, conts[2] as int - 0x80;
    var a1 := a0 * 64 + d0;
    var a2 := a1 * 64 + d1;
    assert Accumulate(a0, conts) == Accumulate(a1, conts[1..]);
    assert Accumulate(a1, conts[1..]) == Accumulate(a2, conts[2..]);
    assert Accumulate(a2, conts[2..]) == Accumulate(a2 * 64 + d2, conts[3..]);
    assert c as int == a2 * 64 + d2 && 0x10000 <= c as int;
    SixBits(a0, d0);
    SixBits(a1, d1);
    SixBits(a2, d2);
    assert Utf8Encode(c) == [0xF0 + a0, 0x80 + d0, 0x80 + d1, 0x80 + d2];
    assert [lead] + conts == [lead, conts[0], conts[1], conts[2]];
  }

  /** A multi-byte sequence decodes to c only if it is exactly the UTF-8 encoding of c. */
  lemma Utf8DecodeSound(lead: nat, conts: seq<nat>)
    requires lead < 256 && 2 <= LeadingOnes(lead) <= 4 && |conts| == LeadingOnes(lead) - 1
    requires Utf8Decode(lead, conts).Some?
    ensures Utf8Encode(Utf8Decode(lead, conts).value) == [lead] + conts
  {
    if |conts| == 1 {
      TwoOctetsSound(lead, conts);
    } else if |conts| == 2 {
      ThreeOctetsSound(lead, conts);
    } else {
      FourOctetsSound(lead, conts);
    }
  }

  /** Octets that are not well-formed UTF-8 do not decode to a character. */
  lemma NotUtf8NoCharacter(bytes: seq<nat>)
    requires 2 <= |bytes| <= 4 && bytes[0] < 256 && LeadingOnes(bytes[0]) == |bytes|
    requires !WellFormedUtf8(bytes)
    ensures Utf8Decode(bytes[0], bytes[1..]).None?
  {
    var decoded := Utf8Decode(bytes[0], bytes[1..]);
    if decoded.Some? {
      Utf8DecodeSound(bytes[0], bytes[1..]);
      Utf8EncodeWellFormed(decoded.value);
      assert false;
    }
  }

  /** Escaped octets with a multi-byte lead byte that are not well-formed UTF-8 are not an escape that decodes. */
  lemma NotUtf8Escape(bytes: seq<nat>, rest: string)
    requires 2 <= |bytes| <= 4 && forall i :: 0 <= i < |bytes| ==> bytes[i] < 256
    requires LeadingOnes(bytes[0]) == |bytes| && !WellFormedUtf8(bytes)
    ensures DecodeEscape(EscapeOctets(bytes) + rest).None?
  {
    var tail := EscapeOctets(bytes[1..]) + rest;
    var t := EscapeOctets(bytes) + rest;
    assert t == EscapeOctet(bytes[0]) + tail;
    assert OctetAt(t) == Some(bytes[0]) by {
      OctetRoundTrip(bytes[0], tail);
    }
    assert Octets(t[3..], |bytes| - 1) == Some(bytes[1..]) by {
      assert t[3..] == tail;
      OctetsRoundTrip(bytes[1..], rest);
    }
    NotUtf8NoCharacter(bytes);
    UndecodableRun(t, bytes[0], bytes[1..]);
  }

  /** An escape run whose octets are read but do not decode to a character is not an escape that decodes. */
  lemma UndecodableRun(s: string, lead: nat, conts: seq<nat>)
    requires lead < 256 && 2 <= LeadingOnes(lead) <= 4 && |conts| == LeadingOnes(lead) - 1
    requires OctetAt(s) == Some(lead) && Octets(s[3..], |conts|) == Some(conts)
    requires Utf8Decode(lead, conts).None?
    ensures DecodeEscape(s).None?
  {
  }

  /**
   * Escaped octets with a multi-byte lead byte that are not well-formed UTF-8
   * fail: an overlong form ("%C0%80"), a surrogate ("%ED%A0%80") or a value
   * above U+10FFFF ("%F4%90%80%80").
   */
  lemma NotUtf8Fails(p: string, bytes: seq<nat>, rest: string)
    requires PercentDecode(p).Some? && 2 <= |bytes| <= 4 && forall i :: 0 <= i < |bytes| ==> bytes[i] < 256
    requires LeadingOnes(bytes[0]) == |bytes| && !WellFormedUtf8(bytes)
    ensures PercentDecode(p + (EscapeOctets(bytes) + rest)) == None
  {
    NotUtf8Escape(bytes, rest);
    assert EscapeOctets(bytes)[0] == '%';
    EscapeFails(p, EscapeOctets(bytes) + rest);
  }

  /** The overlong form "%C0%80" of U+0000 fails. */
  lemma OverlongFails(p: string, rest: string)
    requires PercentDecode(p).Some?
    ensures PercentDecode(p + (EscapeOctets([0xC0, 0x80]) + rest)) == None
  {
    NotUtf8Fails(p, [0xC0, 0x80], rest);
  }

  /** The surrogate "%ED%A0%80" (U+D800) fails. */
  lemma SurrogateFails(p: string, rest: string)
    requires PercentDecode(p).Some?
    ensures PercentDecode(p + (EscapeOctets([0xED, 0xA0, 0x80]) + rest)) == None
  {
    NotUtf8Fails(p, [0xED, 0xA0, 0x80], rest);
  }

  /** "%F4%90%80%80", which would be U+110000, fails. */
  lemma AboveMaximumFails(p: string, rest: string)
    requires PercentDecode(p).Some?
    ensures PercentDecode(p + (EscapeOctets([0xF4, 0x90, 0x80, 0x80]) + rest)) == None
  {
    NotUtf8Fails(p, [0xF4, 0x90, 0x80, 0x80], rest);
  }

  /** An escaped ASCII octet at the front decodes to that character and decoding goes on after it. */
  lemma AsciiEscapePrefix(b: nat, t: string)
    requires b < 0x80
    ensures PercentDecode(EscapeOctet(b) + t) == Prefixed([b as char], PercentDecode(t))
  {
  }

  /** Decoding scheme, escaped ':', two escaped '/', host, escaped '/', key, with no '%' in the three parts. */
  lemma DecodeLocationParts(scheme: string, host: string, key: string)
    requires '%' !in scheme && '%' !in host && '%' !in key
    ensures var colon, slash := EscapeOctet(0x3A), EscapeOctet(0x2F);
            PercentDecode(scheme + (colon + (slash + (slash + (host + (slash + key))))))
            == Some(scheme + (":" + ("/" + ("/" + (host + ("/" + key))))))
  {
    var colon, slash := EscapeOctet(0x3A), EscapeOctet(0x2F);
    var t1 := slash + key;
    assert PercentDecode(t1) == Some("/" + key) by {
      DecodeWithoutPercent(key);
      AsciiEscapePrefix(0x2F, key);
    }
    var t2 := host + t1;
    assert PercentDecode(t2) == Some(host + ("/" + key)) by {
      DecodePlainPrefix(host, t1);
    }
    var t3 := slash + t2;
    assert PercentDecode(t3) == Some("/" + (host + ("/" + key))) by {
      AsciiEscapePrefix(0x2F, t2);
    }
    var t4 := slash + t3;
    assert PercentDecode(t4) == Some("/" + ("/" + (host + ("/" + key)))) by {
      AsciiEscapePrefix(0x2F, t3);
    }
    var t5 := colon + t4;
    assert PercentDecode(t5) == Some(":" + ("/" + ("/" + (host + ("/" + key))))) by {
      AsciiEscapePrefix(0x3A, t4);
    }
    DecodePlainPrefix(scheme, t5);
  }

  /** The escapes of ':' and '/' that a Location URL contains. */
  lemma SeparatorEscapes()
    ensures EscapeOctet(0x3A) == "%3A" && EscapeOctet(0x2F) == "%2F"
  {
  }

  /**
   * The shape of a storage Location: scheme, "://" escaped, host, "/" escaped,
   * key. With no '%' in the three parts it decodes to scheme://host/key; so
   * https%3A%2F%2Fbucket%2Fabc reads https://bucket/abc.
   */
  lemma DecodeLocation(scheme: string, host: string, key: string)
    requires '%' !in scheme && '%' !in host && '%' !in key
    ensures PercentDecode(scheme + "%3A%2F%2F" + host + "%2F" + key)
         == Some(scheme + "://" + host + "/" + key)
  {
    var colon, slash := EscapeOctet(0x3A), EscapeOctet(0x2F);
    var encoded := scheme + (colon + (slash + (slash + (host + (slash + key)))));
    var decoded := scheme + (":" + ("/" + ("/" + (host + ("/" + key)))));
    assert PercentDecode(encoded) == Some(decoded) by {
      DecodeLocationParts(scheme, host, key);
    }
    assert encoded == scheme + "%3A%2F%2F" + host + "%2F" + key by {
      SeparatorEscapes();
      assert colon + (slash + slash) == "%3A%2F%2F";
    }
    assert decoded == scheme + "://" + host + "/" + key by {
      assert ":" + ("/" + "/") == "://";
    }
  }
  /** The storage Location of the worked example decodes to its URL. */
  lemma BucketLocation()
    ensures PercentDecode("https%3A%2F%2Fbucket%2Fabc") == Some("https://bucket/abc")
  {
    assert "https" + "://" + "bucket" + "/" + "abc" == "https://bucket/abc";
    assert "https" + "%3A%2F%2F" + "bucket" + "%2F" + "abc" == "https%3A%2F%2Fbucket%2Fabc";
    DecodeLocation("https", "bucket", "abc");
  }


}
