/** `encodeURIComponent` as section 19.2.6.4 of ECMA-262 (2023 edition)
    defines it: every character outside the unescaped set becomes the `%XX`
    triples of its UTF-8 octets (RFC 3629), with upper-case hexadecimal
    digits. Its partner is `decodeURIComponent` (section 19.2.6.2 of the same
    edition: the Decode operation of section 19.2.6.6 with an empty reserved
    set), and the two are proved to be inverse. */
module UriEncoding {

  import opened Wrappers

  type Byte = x: int | 0 <= x < 256

  /** The characters `encodeURIComponent` leaves as they are: letters,
      digits and the marks `-_.!~*'()`. */
  predicate IsUnescaped(c: char)
  {
    ('A' <= c <= 'Z') || ('a' <= c <= 'z') || ('0' <= c <= '9') ||
    c == '-' || c == '_' || c == '.' || c == '!' || c == '~' ||
    c == '*' || c == '\'' || c == '(' || c == ')'
  }

  predicate IsUpperHexDigit(c: char)
  {
    ('0' <= c <= '9') || ('A' <= c <= 'F')
  }

  /** The upper-case hexadecimal digit of `d`. */
  function HexDigit(d: nat): (c: char)
    requires d < 16
    ensures IsUpperHexDigit(c) && IsUnescaped(c)
  {
    if d < 10 then ('0' as int + d) as char else ('A' as int + d - 10) as char
  }

  /** The value of a hexadecimal digit of either case. */
  function HexValue(c: char): (v: Option<nat>)
    ensures v.Some? ==> v.value < 16
    ensures v.Some? <==> ('0' <= c <= '9') || ('A' <= c <= 'F') || ('a' <= c <= 'f')
  {
    if '0' <= c <= '9' then Some(c as int - '0' as int)
    else if 'A' <= c <= 'F' then Some(c as int - 'A' as int + 10)
    else if 'a' <= c <= 'f' then Some(c as int - 'a' as int + 10)
    else None
  }

  lemma HexDigitValue(d: nat)
    requires d < 16
    ensures HexValue(HexDigit(d)) == Some(d)
  {
  }

  /** The UTF-8 octets of a Unicode scalar value (section 3 of RFC 3629). */
  function Utf8(c: char): (bs: seq<Byte>)
    ensures 1 <= |bs| <= 4
    ensures |bs| == 1 <==> c as int < 0x80
    ensures |bs| == 1 ==> bs[0] == c as int
    ensures forall i :: 1 <= i < |bs| ==> 0x80 <= bs[i] < 0xC0
  {
    var n := c as int;
    if n < 0x80 then [n]
    else if n < 0x800 then [0xC0 + n / 64, 0x80 + n % 64]
    else if n < 0x10000 then [0xE0 + n / 64 / 64, 0x80 + n / 64 % 64, 0x80 + n % 64]
    else [0xF0 + n / 64 / 64 / 64, 0x80 + n / 64 / 64 % 64, 0x80 + n / 64 % 64, 0x80 + n % 64]
  }

  /** The length of the sequence a lead octet announces, or 0 for an octet
      that cannot start a multi-octet sequence (a continuation octet, or more
      than four leading ones). */
  function LeadLength(b: Byte): (n: nat)
    ensures n == 0 || 2 <= n <= 4
  {
    if 0xC0 <= b < 0xE0 then 2
    else if 0xE0 <= b < 0xF0 then 3
    else if 0xF0 <= b < 0xF8 then 4
    else 0
  }

  predicate IsScalarValue(v: int)
  {
    (0 <= v < 0xD800) || (0xE000 <= v < 0x110000)
  }

  /** The code point of a complete multi-octet sequence; `None` when a
      continuation octet is malformed, or the sequence is overlong, encodes a
      surrogate or lies beyond U+10FFFF. */
  function Utf8Decode(octets: seq<Byte>): (r: Option<char>)
    requires 2 <= |octets| <= 4 && LeadLength(octets[0]) == |octets|
  {
    if exists i :: 1 <= i < |octets| && !(0x80 <= octets[i] < 0xC0) then None
    else
      var b: seq<int> := octets;
      var v :=
        if |b| == 2 then (b[0] - 0xC0) * 64 + (b[1] - 0x80)
        else if |b| == 3 then ((b[0] - 0xE0) * 64 + (b[1] - 0x80)) * 64 + (b[2] - 0x80)
        else (((b[0] - 0xF0) * 64 + (b[1] - 0x80)) * 64 + (b[2] - 0x80)) * 64 + (b[3] - 0x80);
      var least: int := if |b| == 2 then 0x80 else if |b| == 3 then 0x800 else 0x10000;
      if least <= v && IsScalarValue(v) then Some(v as char) else None
  }

  /** UTF-8 decoding undoes UTF-8 encoding. */
  lemma Utf8RoundTrip(c: char)
    requires c as int >= 0x80
    ensures LeadLength(Utf8(c)[0]) == |Utf8(c)|
    ensures Utf8Decode(Utf8(c)) == Some(c)
  {
    var n := c as int;
    var bs := Utf8(c);
    assert n == n / 64 * 64 + n % 64;
    assert n / 64 == n / 64 / 64 * 64 + n / 64 % 64;
    assert n / 64 / 64 == n / 64 / 64 / 64 * 64 + n / 64 / 64 % 64;
  }

  /** One octet as `%` and two upper-case hexadecimal digits. */
  function Triple(b: Byte): (s: string)
    ensures |s| == 3 && s[0] == '%'
  {
    ['%', HexDigit(b / 16), HexDigit(b % 16)]
  }

  function PercentEncode(bs: seq<Byte>): (s: string)
    ensures |s| == 3 * |bs|
    decreases |bs|
  {
    if bs == [] then [] else Triple(bs[0]) + PercentEncode(bs[1..])
  }

  function EncodeChar(c: char): string
  {
    if IsUnescaped(c) then [c] else PercentEncode(Utf8(c))
  }

  /** `encodeURIComponent`: the output has the encoded shape (unescaped
      characters and `%XX` triples, nothing else) and is at least as long as
      the input. */
  function EncodeURIComponent(s: string): (r: string)
    ensures IsEncoded(r)
    ensures |r| >= |s|
    decreases |s|
  {
    if s == [] then []
    else
      var head, tail := EncodeChar(s[0]), EncodeURIComponent(s[1..]);
      EncodeCharIsEncoded(s[0]);
      EncodedConcat(head, tail);
      head + tail
  }

  /** The shape of an encoded string: unescaped characters and `%XX` triples
      with upper-case hexadecimal digits, nothing else. */
  predicate IsEncoded(s: string)
    decreases |s|
  {
    if s == [] then true
    else if s[0] == '%' then |s| >= 3 && IsUpperHexDigit(s[1]) && IsUpperHexDigit(s[2]) && IsEncoded(s[3..])
    else IsUnescaped(s[0]) && IsEncoded(s[1..])
  }

  lemma {:induction false} EncodedConcat(a: string, b: string)
    requires IsEncoded(a) && IsEncoded(b)
    ensures IsEncoded(a + b)
    decreases |a|
  {
    if a == [] {
      assert a + b == b;
    } else {
      var ab := a + b;
      assert ab[0] == a[0];
      if a[0] == '%' {
        assert ab[1] == a[1] && ab[2] == a[2];
        assert ab[3..] == a[3..] + b;
        EncodedConcat(a[3..], b);
      } else {
        assert ab[1..] == a[1..] + b;
        EncodedConcat(a[1..], b);
      }
    }
  }

  lemma {:induction false} PercentEncodeIsEncoded(bs: seq<Byte>)
    ensures IsEncoded(PercentEncode(bs))
    decreases |bs|
  {
    if bs != [] {
      PercentEncodeIsEncoded(bs[1..]);
      var s := PercentEncode(bs);
      assert s[3..] == PercentEncode(bs[1..]);
    }
  }

  /** The encoding of one character has the encoded shape. */
  lemma EncodeCharIsEncoded(c: char)
    ensures IsEncoded(EncodeChar(c)) && |EncodeChar(c)| >= 1
  {
    if !IsUnescaped(c) {
      PercentEncodeIsEncoded(Utf8(c));
    }
  }

  /** The only character of an encoded string outside the unescaped set is `%`. */
  lemma {:induction false} EncodedCharacters(s: string)
    requires IsEncoded(s)
    ensures forall i :: 0 <= i < |s| ==> IsUnescaped(s[i]) || s[i] == '%'
    decreases |s|
  {
    if s != [] {
      if s[0] == '%' {
        EncodedCharacters(s[3..]);
        assert forall i :: 3 <= i < |s| ==> s[i] == s[3..][i - 3];
      } else {
        EncodedCharacters(s[1..]);
        assert forall i :: 1 <= i < |s| ==> s[i] == s[1..][i - 1];
      }
    }
  }

  /** Encoding is a homomorphism on concatenation. */
  lemma {:induction false} EncodeConcat(a: string, b: string)
    ensures EncodeURIComponent(a + b) == EncodeURIComponent(a) + EncodeURIComponent(b)
    decreases |a|
  {
    if a == [] {
      assert a + b == b;
    } else {
      var ab := a + b;
      assert ab[0] == a[0];
      assert ab[1..] == a[1..] + b;
      EncodeConcat(a[1..], b);
      assert EncodeURIComponent(ab) == EncodeChar(a[0]) + EncodeURIComponent(a[1..] + b);
    }
  }

  /** A string of unescaped characters is left unchanged. */
  lemma {:induction false} EncodeUnescapedIsIdentity(s: string)
    requires forall i :: 0 <= i < |s| ==> IsUnescaped(s[i])
    ensures EncodeURIComponent(s) == s
    decreases |s|
  {
    if s != [] {
      EncodeUnescapedIsIdentity(s[1..]);
    }
  }

  // ---------------------------------------------------------------------
  // Decoding

  /** The octet of a `%XX` triple at the front of `s`. */
  function ReadOctet(s: string): (r: Option<Byte>)
  {
    if |s| >= 3 && s[0] == '%' && HexValue(s[1]).Some? && HexValue(s[2]).Some? then
      Some(HexValue(s[1]).value * 16 + HexValue(s[2]).value)
    else None
  }

  /** The octets of `n` consecutive triples at the front of `s`. */
  function ReadOctets(s: string, n: nat): (r: Option<seq<Byte>>)
    ensures r.Some? ==> |r.value| == n && |s| >= 3 * n
    decreases n
  {
    if n == 0 then Some([])
    else match ReadOctet(s)
      case None => None
      case Some(b) =>
        match ReadOctets(s[3..], n - 1)
        case None => None
        case Some(rest) => Some([b] + rest)
  }

  function Prepend(c: char, r: Option<string>): Option<string>
  {
    match r
    case None => None
    case Some(s) => Some([c] + s)
  }

  /** `decodeURIComponent`; `None` where the operation throws `URIError`.
      Decoding never lengthens a string, and a string without `%` is its own
      decoding. */
  function DecodeURIComponent(s: string): (r: Option<string>)
    ensures r.Some? ==> |r.value| <= |s|
    ensures '%' !in s ==> r == Some(s)
    decreases |s|
  {
    if s == [] then Some([])
    else if s[0] != '%' then
      assert '%' !in s ==> '%' !in s[1..];
      assert [s[0]] + s[1..] == s;
      Prepend(s[0], DecodeURIComponent(s[1..]))
    else match ReadOctet(s)
      case None => None
      case Some(b) =>
        if b < 0x80 then Prepend(b as char, DecodeURIComponent(s[3..]))
        else
          var n := LeadLength(b);
          if n == 0 then None
          else match ReadOctets(s, n)
            case None => None
            case Some(octets) =>
              match Utf8Decode(octets)
              case None => None
              case Some(c) => Prepend(c, DecodeURIComponent(s[3 * n..]))
  }

  lemma ReadTriple(b: Byte, t: string)
    ensures ReadOctet(Triple(b) + t) == Some(b)
  {
    HexDigitValue(b / 16);
    HexDigitValue(b % 16);
  }

  lemma {:induction false} ReadPercentEncoded(bs: seq<Byte>, t: string)
    ensures ReadOctets(PercentEncode(bs) + t, |bs|) == Some(bs)
    decreases |bs|
  {
    if bs != [] {
      var s := PercentEncode(bs) + t;
      assert s == Triple(bs[0]) + (PercentEncode(bs[1..]) + t);
      ReadTriple(bs[0], PercentEncode(bs[1..]) + t);
      assert s[3..] == PercentEncode(bs[1..]) + t;
      ReadPercentEncoded(bs[1..], t);
      assert [bs[0]] + bs[1..] == bs;
    }
  }

  /** Decoding the encoding of one character, followed by anything. */
  lemma DecodeEncodeChar(c: char, t: string)
    ensures DecodeURIComponent(EncodeChar(c) + t) == Prepend(c, DecodeURIComponent(t))
  {
    var s := EncodeChar(c) + t;
    if IsUnescaped(c) {
      assert s[0] == c && s[1..] == t;
    } else {
      var bs := Utf8(c);
      ReadPercentEncoded(bs, t);
      ReadTriple(bs[0], s[3..]);
      assert s == Triple(bs[0]) + s[3..];
      assert s[3 * |bs|..] == t;
      if c as int < 0x80 {
        assert bs == [c as int];
      } else {
        Utf8RoundTrip(c);
      }
    }
  }

  /** `decodeURIComponent(encodeURIComponent(s)) === s`. */
  lemma {:induction false} DecodeEncode(s: string)
    ensures DecodeURIComponent(EncodeURIComponent(s)) == Some(s)
    decreases |s|
  {
    if s != [] {
      DecodeEncodeChar(s[0], EncodeURIComponent(s[1..]));
      DecodeEncode(s[1..]);
      assert [s[0]] + s[1..] == s;
    }
  }

  /** Encoding loses nothing: distinct strings have distinct encodings. */
  lemma EncodeInjective(s: string, t: string)
    requires EncodeURIComponent(s) == EncodeURIComponent(t)
    ensures s == t
  {
    DecodeEncode(s);
    DecodeEncode(t);
  }
}
