/**
 * UTF-8 as defined in section 4 of RFC 3629: which byte sequences are
 * well formed, how a Unicode scalar value (a Dafny `char`) is encoded, and
 * how a well-formed sequence is decoded. This plays the part of Rust's
 * `str::as_bytes` and `String::from_utf8` / `str::from_utf8`.
 */
module Utf8 {
  import opened Wrappers

  /** An octet. */
  newtype byte = b: int | 0 <= b < 0x100

  /** A continuation octet, `UTF8-tail` in RFC 3629. */
  predicate IsTail(b: byte) {
    0x80 <= b <= 0xBF
  }

  /** The number of octets announced by a leading octet, or 0 if it cannot lead. */
  function LeadLength(b: byte): (n: nat)
    ensures n <= 4
  {
    if b <= 0x7F then 1
    else if 0xC2 <= b <= 0xDF then 2
    else if 0xE0 <= b <= 0xEF then 3
    else if 0xF0 <= b <= 0xF4 then 4
    else 0
  }

  /**
   * The encoding of exactly one character: the rules UTF8-1, UTF8-2, UTF8-3
   * and UTF8-4 of RFC 3629. They rule out overlong forms, surrogates and
   * values above U+10FFFF.
   */
  predicate WellFormedChar(c: seq<byte>) {
    if |c| == 1 then
      c[0] <= 0x7F
    else if |c| == 2 then
      0xC2 <= c[0] <= 0xDF && IsTail(c[1])
    else if |c| == 3 then
      && (|| (c[0] == 0xE0 && 0xA0 <= c[1] <= 0xBF)
          || (0xE1 <= c[0] <= 0xEC && IsTail(c[1]))
          || (c[0] == 0xED && 0x80 <= c[1] <= 0x9F)
          || (0xEE <= c[0] <= 0xEF && IsTail(c[1])))
      && IsTail(c[2])
    else if |c| == 4 then
      && (|| (c[0] == 0xF0 && 0x90 <= c[1] <= 0xBF)
          || (0xF1 <= c[0] <= 0xF3 && IsTail(c[1]))
          || (c[0] == 0xF4 && 0x80 <= c[1] <= 0x8F))
      && IsTail(c[2]) && IsTail(c[3])
    else
      false
  }

  lemma WellFormedCharLength(c: seq<byte>)
    requires WellFormedChar(c)
    ensures LeadLength(c[0]) == |c|
  {
  }

  /** `UTF8-octets = *( UTF8-char )`: the octets split into well-formed characters. */
  predicate ValidUtf8(b: seq<byte>)
    decreases |b|
  {
    b == [] ||
    (var n := LeadLength(b[0]); 0 < n <= |b| && WellFormedChar(b[..n]) && ValidUtf8(b[n..]))
  }

  /** The UTF-8 encoding of one character. */
  function EncodeChar(c: char): (r: seq<byte>)
    ensures WellFormedChar(r)
    ensures (c as int < 0x80) == (|r| == 1)
  {
    var n := c as int;
    if n < 0x80 then [n as byte]
    else if n < 0x800 then Encode2(n)
    else if n < 0x1_0000 then Encode3(n)
    else Encode4(n)
  }

  /** Two octets: 110xxxxx 10xxxxxx. */
  function Encode2(n: int): (r: seq<byte>)
    requires 0x80 <= n < 0x800
    ensures |r| == 2 && WellFormedChar(r)
  {
    [(0xC0 + n / 0x40) as byte, (0x80 + n % 0x40) as byte]
  }

  /** Three octets: 1110xxxx 10xxxxxx 10xxxxxx; surrogates are excluded. */
  function Encode3(n: int): (r: seq<byte>)
    requires 0x800 <= n < 0x1_0000 && (n < 0xD800 || 0xE000 <= n)
    ensures |r| == 3 && WellFormedChar(r)
  {
    var q := n / 0x40;
    assert q / 0x40 == n / 0x1000;
    [(0xE0 + n / 0x1000) as byte, (0x80 + q % 0x40) as byte, (0x80 + n % 0x40) as byte]
  }

  /** Four octets: 11110xxx 10xxxxxx 10xxxxxx 10xxxxxx, up to U+10FFFF. */
  function Encode4(n: int): (r: seq<byte>)
    requires 0x1_0000 <= n < 0x11_0000
    ensures |r| == 4 && WellFormedChar(r)
  {
    var q := n / 0x1000;
    assert q / 0x40 == n / 0x4_0000;
    [(0xF0 + n / 0x4_0000) as byte, (0x80 + q % 0x40) as byte,
     (0x80 + n / 0x40 % 0x40) as byte, (0x80 + n % 0x40) as byte]
  }

  /** The code point a well-formed one-character sequence stands for. */
  function CodePoint(c: seq<byte>): int
    requires WellFormedChar(c)
  {
    if |c| == 1 then
      c[0] as int
    else if |c| == 2 then
      (c[0] as int - 0xC0) * 0x40 + (c[1] as int - 0x80)
    else if |c| == 3 then
      (c[0] as int - 0xE0) * 0x1000 + (c[1] as int - 0x80) * 0x40 + (c[2] as int - 0x80)
    else
      (c[0] as int - 0xF0) * 0x4_0000 + (c[1] as int - 0x80) * 0x1000
      + (c[2] as int - 0x80) * 0x40 + (c[3] as int - 0x80)
  }

  lemma DivMod64(q: int, r: int)
    requires 0 <= r < 0x40
    ensures (q * 0x40 + r) / 0x40 == q && (q * 0x40 + r) % 0x40 == r
  {
  }

  /** The octets of a three-octet sequence are the base-64 digits of its code point. */
  lemma Digits3(a: int, b: int, d: int)
    requires 0 <= b < 0x40 && 0 <= d < 0x40
    ensures var n := a * 0x1000 + b * 0x40 + d;
      n / 0x1000 == a && n / 0x40 % 0x40 == b && n % 0x40 == d
  {
    var n := a * 0x1000 + b * 0x40 + d;
    DivMod64(a * 0x40 + b, d);
    DivMod64(a, b);
    assert n / 0x1000 == n / 0x40 / 0x40;
  }

  /** The octets of a four-octet sequence are the base-64 digits of its code point. */
  lemma Digits4(a: int, b: int, d: int, e: int)
    requires 0 <= b < 0x40 && 0 <= d < 0x40 && 0 <= e < 0x40
    ensures var n := a * 0x4_0000 + b * 0x1000 + d * 0x40 + e;
      n / 0x4_0000 == a && n / 0x1000 % 0x40 == b && n / 0x40 % 0x40 == d && n % 0x40 == e
  {
    var n := a * 0x4_0000 + b * 0x1000 + d * 0x40 + e;
    DivMod64(a * 0x1000 + b * 0x40 + d, e);
    Digits3(a, b, d);
    assert n / 0x4_0000 == n / 0x40 / 0x1000;
    assert n / 0x1000 == n / 0x40 / 0x40;
  }

  /** A well-formed sequence names a Unicode scalar value and is that value's encoding. */
  lemma CodePointEncodes(c: seq<byte>)
    requires WellFormedChar(c)
    ensures var n := CodePoint(c);
      (0 <= n < 0xD800 || 0xE000 <= n < 0x11_0000) && EncodeChar(n as char) == c
  {
    if |c| == 2 {
      CodePointEncodes2(c);
    } else if |c| == 3 {
      CodePointEncodes3(c);
    } else if |c| == 4 {
      CodePointEncodes4(c);
    }
  }

  lemma CodePointEncodes2(c: seq<byte>)
    requires |c| == 2 && WellFormedChar(c)
    ensures var n := CodePoint(c);
      0x80 <= n < 0x800 && EncodeChar(n as char) == c
  {
    DivMod64(c[0] as int - 0xC0, c[1] as int - 0x80);
  }

  lemma CodePointEncodes3(c: seq<byte>)
    requires |c| == 3 && WellFormedChar(c)
    ensures var n := CodePoint(c);
      0x800 <= n < 0x1_0000 && (n < 0xD800 || 0xE000 <= n) && EncodeChar(n as char) == c
  {
    Digits3(c[0] as int - 0xE0, c[1] as int - 0x80, c[2] as int - 0x80);
  }

  lemma CodePointEncodes4(c: seq<byte>)
    requires |c| == 4 && WellFormedChar(c)
    ensures var n := CodePoint(c);
      0x1_0000 <= n < 0x11_0000 && EncodeChar(n as char) == c
  {
    Digits4(c[0] as int - 0xF0, c[1] as int - 0x80, c[2] as int - 0x80, c[3] as int - 0x80);
  }

  /** The character a well-formed one-character sequence encodes. */
  function DecodeChar(c: seq<byte>): (r: char)
    requires WellFormedChar(c)
    ensures EncodeChar(r) == c
  {
    CodePointEncodes(c);
    CodePoint(c) as char
  }

  /** Decoding undoes encoding, one character at a time. */
  lemma DecodeEncodeChar(c: char)
    ensures DecodeChar(EncodeChar(c)) == c
  {
    var n := c as int;
    if 0x80 <= n < 0x800 {
      CodePointOfEncode2(c);
    } else if 0x800 <= n < 0x1_0000 {
      CodePointOfEncode3(c);
    } else if 0x1_0000 <= n {
      CodePointOfEncode4(c);
    }
  }

  lemma CodePointOfEncode2(c: char)
    requires 0x80 <= c as int < 0x800
    ensures CodePoint(EncodeChar(c)) == c as int
  {
    var n := c as int;
    assert n == n / 0x40 * 0x40 + n % 0x40;
  }

  lemma CodePointOfEncode3(c: char)
    requires 0x800 <= c as int < 0x1_0000
    ensures CodePoint(EncodeChar(c)) == c as int
  {
    var n := c as int;
    var q1 := n / 0x40;
    var q2 := q1 / 0x40;
    assert q2 == n / 0x1000;
    assert n == q1 * 0x40 + n % 0x40 && q1 == q2 * 0x40 + q1 % 0x40;
  }

  lemma CodePointOfEncode4(c: char)
    requires 0x1_0000 <= c as int
    ensures CodePoint(EncodeChar(c)) == c as int
  {
    var n := c as int;
    var q1 := n / 0x40;
    var q2 := q1 / 0x40;
    var q3 := q2 / 0x40;
    assert q2 == n / 0x1000 && q3 == n / 0x4_0000;
    assert n == q1 * 0x40 + n % 0x40 && q1 == q2 * 0x40 + q1 % 0x40 && q2 == q3 * 0x40 + q2 % 0x40;
  }

  /** `str::as_bytes`: the UTF-8 encoding of a string. */
  function Encode(s: string): seq<byte> {
    if s == [] then [] else EncodeChar(s[0]) + Encode(s[1..])
  }

  /** What `as_bytes` produces always passes the RFC 3629 rules. */
  lemma {:induction false} EncodeValid(s: string)
    ensures ValidUtf8(Encode(s))
  {
    if s != [] {
      var e := EncodeChar(s[0]);
      var r := Encode(s);
      assert r[..|e|] == e && r[|e|..] == Encode(s[1..]);
      WellFormedCharLength(e);
      EncodeValid(s[1..]);
    }
  }

  /** Every character takes one to four octets. */
  lemma {:induction false} EncodeLength(s: string)
    ensures |s| <= |Encode(s)| <= 4 * |s|
  {
    if s != [] {
      EncodeLength(s[1..]);
    }
  }

  lemma EncodeAppend(s: string, t: string)
    ensures Encode(s + t) == Encode(s) + Encode(t)
  {
    if s != [] {
      assert (s + t)[0] == s[0] && (s + t)[1..] == s[1..] + t;
      assert Encode(s + t) == EncodeChar(s[0]) + Encode(s[1..] + t);
      EncodeAppend(s[1..], t);
    } else {
      assert s + t == t;
    }
  }

  /** The error of `from_utf8`: how many leading octets were valid. */
  datatype Utf8Error = Utf8Error(validUpTo: nat)

  /**
   * `String::from_utf8`: the string whose encoding the octets are, or an
   * error when they are not valid UTF-8.
   */
  function Decode(b: seq<byte>): (r: Result<string, Utf8Error>)
    ensures r.Success? <==> ValidUtf8(b)
    ensures r.Success? ==> Encode(r.value) == b
    ensures r.Failure? ==> r.error.validUpTo < |b| && ValidUtf8(b[..r.error.validUpTo])
    decreases |b|
  {
    if b == [] then Success([])
    else
      var n := LeadLength(b[0]);
      if n == 0 || n > |b| || !WellFormedChar(b[..n]) then
        Failure(Utf8Error(0))
      else
        match Decode(b[n..])
        case Success(s) =>
          ValidStep(b, n);
          DecodeSuccessStep(b, n, s);
          Success([DecodeChar(b[..n])] + s)
        case Failure(e) =>
          DecodeFailureStep(b, n, e.validUpTo);
          Failure(Utf8Error(n + e.validUpTo))
  }

  /** A well-formed first character followed by valid octets. */
  lemma ValidStep(b: seq<byte>, n: nat)
    requires 0 < n <= |b| && n == LeadLength(b[0]) && WellFormedChar(b[..n])
    requires ValidUtf8(b[n..])
    ensures ValidUtf8(b)
  {
  }

  /** A well-formed first character followed by the encoding of `s`. */
  lemma DecodeSuccessStep(b: seq<byte>, n: nat, s: string)
    requires 0 < n <= |b| && WellFormedChar(b[..n])
    requires Encode(s) == b[n..]
    ensures Encode([DecodeChar(b[..n])] + s) == b
  {
    var c := b[..n];
    EncodeCons(DecodeChar(c), s);
    assert b == c + b[n..];
  }

  lemma EncodeCons(d: char, s: string)
    ensures Encode([d] + s) == EncodeChar(d) + Encode(s)
  {
    var r := [d] + s;
    assert r[0] == d && r[1..] == s;
  }

  /** A well-formed first character followed by octets that fail at `k`. */
  lemma DecodeFailureStep(b: seq<byte>, n: nat, k: nat)
    requires 0 < n <= |b| && n == LeadLength(b[0]) && WellFormedChar(b[..n])
    requires !ValidUtf8(b[n..]) && k < |b[n..]| && ValidUtf8(b[n..][..k])
    ensures !ValidUtf8(b) && n + k < |b| && ValidUtf8(b[..n + k])
  {
    var p := b[..n + k];
    assert p[0] == b[0];
    assert p[..n] == b[..n] && p[n..] == b[n..][..k];
  }

  /** Decoding a string's encoding gives the string back. */
  lemma {:induction false} DecodeEncode(s: string)
    ensures Decode(Encode(s)) == Success(s)
  {
    if s != [] {
      var e := EncodeChar(s[0]);
      var b := Encode(s);
      assert b == e + Encode(s[1..]);
      assert b[..|e|] == e && b[|e|..] == Encode(s[1..]) && b[0] == e[0];
      WellFormedCharLength(e);
      DecodeEncodeChar(s[0]);
      DecodeEncode(s[1..]);
      assert Decode(b) == Success([s[0]] + s[1..]);
      assert [s[0]] + s[1..] == s;
    }
  }

  /** The octets that pass the RFC 3629 rules are exactly the encodings of strings. */
  lemma ValidUtf8IsEncoding(b: seq<byte>)
    ensures ValidUtf8(b) <==> exists s :: Encode(s) == b
  {
    if ValidUtf8(b) {
      assert Encode(Decode(b).value) == b;
    }
    forall s | Encode(s) == b
      ensures ValidUtf8(b)
    {
      EncodeValid(s);
    }
  }

  /** Only an ASCII character encodes to an ASCII octet, and then to itself. */
  lemma EncodeCharAscii(c: char, x: byte)
    requires x < 0x80
    ensures x in EncodeChar(c) <==> c as int == x as int
  {
  }

  /** An ASCII octet occurs in a string's encoding exactly where its character occurs in the string. */
  lemma {:induction false} EncodeContainsAscii(s: string, c: char)
    requires c as int < 0x80
    ensures (c as int as byte) in Encode(s) <==> c in s
  {
    if s != [] {
      EncodeCharAscii(s[0], c as int as byte);
      EncodeContainsAscii(s[1..], c);
      assert c in s <==> c == s[0] || c in s[1..];
    }
  }
}
