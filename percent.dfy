/**
 * Percent-decoding of a query value (section 2.1 of RFC 3986) followed by
 * the UTF-8 check: the filter's `urldecode`, which runs the percent-encoding
 * crate's `percent_decode_str` and then `decode_utf8`.
 */
module Percent {
  import opened Wrappers
  import opened Utf8

  /** The octet of `%`. */
  const PERCENT: byte := 0x25

  /** The octets `char::to_digit(16)` accepts: `0`-`9`, `A`-`F`, `a`-`f`. */
  predicate IsHexDigit(b: byte) {
    (0x30 <= b <= 0x39) || (0x41 <= b <= 0x46) || (0x61 <= b <= 0x66)
  }

  /** The value of a hexadecimal digit, in either case. */
  function HexValue(b: byte): (v: nat)
    requires IsHexDigit(b)
    ensures v < 16
  {
    if b <= 0x39 then (b - 0x30) as nat
    else if b <= 0x46 then (b - 0x41) as nat + 10
    else (b - 0x61) as nat + 10
  }

  /**
   * `percent_decode_str`: each `%` followed by two hexadecimal digits stands
   * for the octet they spell; any other `%` is kept as it is, and decoding
   * resumes at the octet right after it.
   */
  function PercentDecode(b: seq<byte>): (r: seq<byte>)
    ensures PERCENT !in b ==> r == b
    ensures |r| <= |b|
    decreases |b|
  {
    if b == [] then []
    else if b[0] == PERCENT && |b| >= 3 && IsHexDigit(b[1]) && IsHexDigit(b[2]) then
      [(HexValue(b[1]) * 16 + HexValue(b[2])) as byte] + PercentDecode(b[3..])
    else
      assert b == [b[0]] + b[1..];
      [b[0]] + PercentDecode(b[1..])
  }

  /**
   * The filter's `urldecode`: percent-decode the UTF-8 octets of `input` and
   * read the result back as UTF-8, failing when it is not valid UTF-8.
   */
  function UrlDecode(input: string): (r: Result<string, Utf8Error>)
    ensures r.Success? <==> ValidUtf8(PercentDecode(Encode(input)))
    ensures r.Success? ==> Encode(r.value) == PercentDecode(Encode(input))
  {
    Decode(PercentDecode(Encode(input)))
  }

  /** A string without `%` decodes to itself. */
  lemma UrlDecodeNoPercent(s: string)
    requires '%' !in s
    ensures UrlDecode(s) == Success(s)
  {
    EncodeContainsAscii(s, '%');
    DecodeEncode(s);
  }

  /** `unreserved` of section 2.3 of RFC 3986: ALPHA, DIGIT, `-`, `.`, `_`, `~`. */
  predicate IsUnreserved(b: byte) {
    || (0x41 <= b <= 0x5A) || (0x61 <= b <= 0x7A) || (0x30 <= b <= 0x39)
    || b == 0x2D || b == 0x2E || b == 0x5F || b == 0x7E
  }

  /** The upper-case hexadecimal digit for a value below 16. */
  function HexDigit(v: nat): (b: byte)
    requires v < 16
    ensures IsHexDigit(b) && HexValue(b) == v
  {
    if v < 10 then (0x30 + v) as byte else (0x41 + v - 10) as byte
  }

  /** Percent-encoding: every octet outside `unreserved` becomes `%XX`. */
  function PercentEncode(b: seq<byte>): seq<byte> {
    if b == [] then []
    else if IsUnreserved(b[0]) then [b[0]] + PercentEncode(b[1..])
    else [PERCENT, HexDigit(b[0] as nat / 16), HexDigit(b[0] as nat % 16)] + PercentEncode(b[1..])
  }

  /** An unreserved octet is not `%` and decodes to itself. */
  lemma PercentDecodePlain(x: byte, rest: seq<byte>)
    requires IsUnreserved(x)
    ensures PercentDecode([x] + rest) == [x] + PercentDecode(rest)
  {
    var e := [x] + rest;
    assert e[0] == x && e[1..] == rest;
  }

  /** `%` and two hexadecimal digits, in either case, decode to the octet they spell. */
  lemma PercentDecodeEscape(h: byte, l: byte, rest: seq<byte>)
    requires IsHexDigit(h) && IsHexDigit(l)
    ensures PercentDecode([PERCENT, h, l] + rest) == [(HexValue(h) * 16 + HexValue(l)) as byte] + PercentDecode(rest)
  {
    var e := [PERCENT, h, l] + rest;
    assert e[0] == PERCENT && e[1] == h && e[2] == l && e[3..] == rest;
  }

  /**
   * A `%` that two hexadecimal digits do not follow is kept as it is, and
   * decoding resumes at the octet right after it.
   */
  lemma PercentDecodeStray(rest: seq<byte>)
    requires !(|rest| >= 2 && IsHexDigit(rest[0]) && IsHexDigit(rest[1]))
    ensures PercentDecode([PERCENT] + rest) == [PERCENT] + PercentDecode(rest)
  {
    var e := [PERCENT] + rest;
    assert e[0] == PERCENT && e[1..] == rest;
  }

  /** A digit and its upper-case form have the same value, so `%e4` and `%E4` agree. */
  lemma HexDigitCase(b: byte)
    requires IsHexDigit(b)
    ensures HexDigit(HexValue(b)) == if 0x61 <= b then b - 0x20 else b
  {
  }

  /** Percent-decoding undoes percent-encoding. */
  lemma {:induction false} PercentDecodeEncode(b: seq<byte>)
    ensures PercentDecode(PercentEncode(b)) == b
  {
    if b != [] {
      var rest := PercentEncode(b[1..]);
      PercentDecodeEncode(b[1..]);
      if IsUnreserved(b[0]) {
        PercentDecodePlain(b[0], rest);
      } else {
        var x := b[0];
        PercentDecodeEscape(HexDigit(x as nat / 16), HexDigit(x as nat % 16), rest);
      }
      assert b == [b[0]] + b[1..];
    }
  }

  /** The character of an ASCII octet. */
  function AsciiChar(b: byte): char
    requires b < 0x80
  {
    b as int as char
  }

  /** One octet as it is written in a query: itself if unreserved, else `%XX`. */
  function EscapeOctet(b: byte): string {
    if IsUnreserved(b) then [AsciiChar(b)]
    else ['%', AsciiChar(HexDigit(b as nat / 16)), AsciiChar(HexDigit(b as nat % 16))]
  }

  function EscapeOctets(b: seq<byte>): string {
    if b == [] then [] else EscapeOctet(b[0]) + EscapeOctets(b[1..])
  }

  /** A string as it would be written in a query: its UTF-8 octets, percent-encoded. */
  function EncodeComponent(s: string): string {
    EscapeOctets(Encode(s))
  }

  /** The octets of an escaped string are the percent-encoded octets. */
  lemma {:induction false} EncodeEscapeOctets(b: seq<byte>)
    ensures Encode(EscapeOctets(b)) == PercentEncode(b)
  {
    if b != [] {
      EncodeEscapeOctets(b[1..]);
      EncodeAppend(EscapeOctet(b[0]), EscapeOctets(b[1..]));
      var e := EscapeOctet(b[0]);
      if IsUnreserved(b[0]) {
        assert Encode(e) == EncodeChar(e[0]) + Encode([]);
      } else {
        assert e == [e[0]] + ([e[1]] + [e[2]]);
        EncodeAppend([e[0]], [e[1]] + [e[2]]);
        EncodeAppend([e[1]], [e[2]]);
      }
    }
  }

  /** Every string survives percent-encoding followed by the filter's `urldecode`. */
  lemma UrlDecodeEncodeComponent(s: string)
    ensures UrlDecode(EncodeComponent(s)) == Success(s)
  {
    EncodeEscapeOctets(Encode(s));
    PercentDecodeEncode(Encode(s));
    DecodeEncode(s);
  }

  lemma {:induction false} EscapeOctetsAppend(a: seq<byte>, b: seq<byte>)
    ensures EscapeOctets(a + b) == EscapeOctets(a) + EscapeOctets(b)
  {
    if a == [] {
      assert a + b == b;
    } else {
      assert (a + b)[0] == a[0] && (a + b)[1..] == a[1..] + b;
      EscapeOctetsAppend(a[1..], b);
    }
  }

  /** Percent-encoding a string works character by character. */
  lemma EncodeComponentAppend(s: string, t: string)
    ensures EncodeComponent(s + t) == EncodeComponent(s) + EncodeComponent(t)
  {
    EncodeAppend(s, t);
    EscapeOctetsAppend(Encode(s), Encode(t));
  }

  /*
   * The expectations of the filter's `urldecode` unit test. Each escaped
   * input is the percent-encoding of the expected output, so each follows
   * from UrlDecodeEncodeComponent once that encoding is spelled out piece by
   * piece; inputs and outputs are written as concatenations of those pieces.
   */

  /** Three pieces, each percent-encoded on its own, decode to the three joined. */
  lemma UrlDecodePieces(a: string, b: string, c: string)
    ensures UrlDecode(EncodeComponent(a) + EncodeComponent(b) + EncodeComponent(c)) == Success(a + b + c)
  {
    EncodeComponentAppend(a, b);
    EncodeComponentAppend(a + b, c);
    UrlDecodeEncodeComponent(a + b + c);
  }

  // Literal facts for the unit test's expectations, split into separate lemmas to keep each proof small.
  lemma UnreservedWords() ensures AllUnreserved("hello") && AllUnreserved("world") {}
  lemma EscapedSpace() ensures EncodeComponent(" ") == "%20" {}
  lemma EscapedPlus() ensures EncodeComponent("1+") == "1%2B" {}
  lemma EscapedEquals() ensures EncodeComponent("2=") == "2%3D" {}
  lemma UnreservedDigit() ensures EncodeComponent("3") == "3" {}
  lemma EscapedOpen() ensures EncodeComponent("foo[") == "foo%5B" {}
  lemma EscapedClose() ensures EncodeComponent("bar]") == "bar%5D" {}

  lemma UrlDecodeSpace()
    ensures UrlDecode("hello" + "%20" + "world") == Success("hello" + " " + "world")
  {
    UnreservedWords();
    EncodeComponentUnreserved("hello");
    EncodeComponentUnreserved("world");
    EscapedSpace();
    UrlDecodePieces("hello", " ", "world");
  }

  lemma UrlDecodeOperators()
    ensures UrlDecode("1%2B" + "2%3D" + "3") == Success("1+" + "2=" + "3")
  {
    EscapedPlus();
    EscapedEquals();
    UnreservedDigit();
    UrlDecodePieces("1+", "2=", "3");
  }

  lemma UrlDecodeBrackets()
    ensures UrlDecode("foo%5B" + "bar%5D") == Success("foo[" + "bar]")
  {
    EscapedOpen();
    EscapedClose();
    EncodeComponentAppend("foo[", "bar]");
    UrlDecodeEncodeComponent("foo[" + "bar]");
  }

  /** A character that `unreserved` allows as it is. */
  predicate IsUnreservedChar(c: char) {
    c as int < 0x80 && IsUnreserved(c as int as byte)
  }

  predicate AllUnreserved(s: string) {
    s == [] || (IsUnreservedChar(s[0]) && AllUnreserved(s[1..]))
  }

  /** Percent-encoding leaves a string of unreserved characters alone. */
  lemma {:induction false} EncodeComponentUnreserved(s: string)
    requires AllUnreserved(s)
    ensures EncodeComponent(s) == s
  {
    if s != [] {
      EncodeComponentUnreserved(s[1..]);
      EncodeComponentAppend([s[0]], s[1..]);
      assert Encode([s[0]]) == [s[0] as int as byte] + Encode([]);
      assert [s[0]] + s[1..] == s;
    }
  }

  // Literal facts for the URL case, split into separate lemmas to keep each proof small.
  lemma UnreservedScheme() ensures AllUnreserved("https") {}
  lemma UnreservedHost() ensures AllUnreserved("example.com") {}
  lemma EscapedColon() ensures EncodeComponent(":") == "%3A" {}
  lemma EscapedSlashes() ensures EncodeComponent("//") == "%2F%2F" {}

  lemma EncodeComponentUrl()
    ensures EncodeComponent("https" + ":" + "//" + "example.com")
         == "https" + "%3A" + "%2F%2F" + "example.com"
  {
    UnreservedScheme();
    UnreservedHost();
    EscapedColon();
    EscapedSlashes();
    EncodeComponentUnreserved("https");
    EncodeComponentUnreserved("example.com");
    EncodeComponentAppend("https", ":");
    EncodeComponentAppend("https" + ":", "//");
    EncodeComponentAppend("https" + ":" + "//", "example.com");
  }

  lemma UrlDecodeUrl()
    ensures UrlDecode("https" + "%3A" + "%2F%2F" + "example.com")
         == Success("https" + ":" + "//" + "example.com")
  {
    EncodeComponentUrl();
    UrlDecodeEncodeComponent("https" + ":" + "//" + "example.com");
  }

  lemma UrlDecodeMultiOctet()
    ensures UrlDecode("%E4%B8%AD" + "%E6%96%87") == Success("\U{4E2D}" + "\U{6587}")
  {
    assert Encode("\U{4E2D}") == [0xE4, 0xB8, 0xAD];
    assert EncodeComponent("\U{4E2D}") == "%E4%B8%AD";
    assert Encode("\U{6587}") == [0xE6, 0x96, 0x87];
    assert EncodeComponent("\U{6587}") == "%E6%96%87";
    EncodeComponentAppend("\U{4E2D}", "\U{6587}");
    UrlDecodeEncodeComponent("\U{4E2D}" + "\U{6587}");
  }

  lemma UrlDecodePlain()
    ensures UrlDecode("") == Success("")
    ensures UrlDecode("normal_string") == Success("normal_string")
  {
    UrlDecodeNoPercent("");
    UrlDecodeNoPercent("normal_string");
  }

  /** `%FF` spells a lone 0xFF octet, which is not UTF-8: decoding fails. */
  lemma UrlDecodeInvalid()
    ensures UrlDecode("%FF").Failure?
  {
    assert Encode("%FF") == [PERCENT, 0x46, 0x46];
    PercentDecodeEscape(0x46, 0x46, []);
    assert [PERCENT, 0x46, 0x46] + [] == [PERCENT, 0x46, 0x46];
    assert PercentDecode(Encode("%FF")) == [0xFF];
    assert LeadLength(0xFF) == 0;
  }

  /** Lower-case escapes decode like upper-case ones: `%7e` is `~`. */
  lemma UrlDecodeLowerCase()
    ensures UrlDecode("%7e") == Success("~")
  {
    assert Encode("%7e") == [PERCENT, 0x37, 0x65];
    PercentDecodeEscape(0x37, 0x65, []);
    assert [PERCENT, 0x37, 0x65] + [] == [PERCENT, 0x37, 0x65];
    assert PercentDecode(Encode("%7e")) == Encode("~");
    DecodeEncode("~");
  }

  /** A `%` without two hexadecimal digits after it stays: `100%` decodes to itself. */
  lemma UrlDecodeStrayPercent()
    ensures UrlDecode("100%") == Success("100%")
  {
    var p: seq<byte> := [PERCENT];
    assert Encode("100%") == [0x31] + ([0x30] + ([0x30] + p));
    PercentDecodeStray([]);
    assert p + [] == p;
    PercentDecodePlain(0x30, p);
    PercentDecodePlain(0x30, [0x30] + p);
    PercentDecodePlain(0x31, [0x30] + ([0x30] + p));
    DecodeEncode("100%");
  }
}
