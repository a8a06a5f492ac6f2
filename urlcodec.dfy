/** PHP's `urlencode`/`urldecode` pair. PHP strings are byte strings; the text
    the application handles reaches them as its UTF-8 encoding, so a value is
    first encoded to UTF-8 and each byte is then percent-encoded: letters,
    digits, `-`, `_` and `.` stay, a space becomes `+`, and every other byte
    becomes `%` followed by two upper-case hexadecimal digits. */
module UrlCodec {
  import opened Base

  type Byte = b: int | 0 <= b < 256

  // ---------------------------------------------------------------------
  // UTF-8
  // ---------------------------------------------------------------------

  /** The UTF-8 bytes of one character. */
  function Utf8Char(c: char): (r: seq<Byte>)
    ensures 1 <= |r| <= 4
  {
    var cp := c as int;
    if cp < 0x80 then [cp]
    else if cp < 0x800 then [0xC0 + cp / 64, 0x80 + cp % 64]
    else if cp < 0x10000 then [0xE0 + cp / 4096, 0x80 + (cp / 64) % 64, 0x80 + cp % 64]
    else [0xF0 + cp / 262144, 0x80 + (cp / 4096) % 64, 0x80 + (cp / 64) % 64, 0x80 + cp % 64]
  }

  /** The UTF-8 encoding of a string. */
  function Utf8(s: string): seq<Byte> {
    if s == [] then [] else Utf8Char(s[0]) + Utf8(s[1..])
  }

  predicate IsCont(b: Byte) { 0x80 <= b < 0xC0 }

  predicate IsScalar(cp: int) { 0 <= cp < 0xD800 || 0xE000 <= cp < 0x110000 }

  /** The length of the UTF-8 sequence a lead byte announces (0: not a lead byte). */
  function LeadLength(b: Byte): nat {
    if b < 0x80 then 1 else if 0xC0 <= b < 0xE0 then 2 else if 0xE0 <= b < 0xF0 then 3
    else if 0xF0 <= b < 0xF8 then 4 else 0
  }

  /** The code point a well-formed UTF-8 sequence of `n` bytes denotes. */
  function CodePoint(bs: seq<Byte>, n: nat): int
    requires 1 <= n <= 4 && |bs| >= n
  {
    var b0, b1, b2, b3 := bs[0] as int, (if n > 1 then bs[1] else 0) as int,
      (if n > 2 then bs[2] else 0) as int, (if n > 3 then bs[3] else 0) as int;
    if n == 1 then b0
    else if n == 2 then (b0 - 0xC0) * 64 + (b1 - 0x80)
    else if n == 3 then (b0 - 0xE0) * 4096 + (b1 - 0x80) * 64 + (b2 - 0x80)
    else (b0 - 0xF0) * 262144 + (b1 - 0x80) * 4096 + (b2 - 0x80) * 64 + (b3 - 0x80)
  }

  /** Decodes UTF-8; `None` on a malformed sequence. */
  function Utf8Decode(bs: seq<Byte>): Option<string>
    decreases |bs|
  {
    if bs == [] then Some([])
    else
      var n := LeadLength(bs[0]);
      if n == 0 || |bs| < n || (exists k :: 1 <= k < n && !IsCont(bs[k])) then None
      else
        var cp := CodePoint(bs, n);
        if !IsScalar(cp) then None
        else match Utf8Decode(bs[n..]) {
          case None => None
          case Some(rest) => Some([cp as char] + rest)
        }
  }

  /** The bytes of one character announce their own length, are followed
      by continuation bytes, and denote the character's code point. */
  predicate DecodesTo(r: seq<Byte>, c: char)
    requires 1 <= |r| <= 4
  {
    LeadLength(r[0]) == |r| && CodePoint(r, |r|) == c as int && forall k :: 1 <= k < |r| ==> IsCont(r[k])
  }

  lemma Utf8CharDecodes2(c: char)
    requires 0x80 <= c as int < 0x800
    ensures DecodesTo(Utf8Char(c), c)
  {
    var cp := c as int;
    assert (cp / 64) * 64 + cp % 64 == cp;
  }

  lemma Utf8CharDecodes3(c: char)
    requires 0x800 <= c as int < 0x10000
    ensures DecodesTo(Utf8Char(c), c)
  {
    var cp := c as int;
    assert (cp / 64) % 64 + (cp / 4096) * 64 == cp / 64;
    assert (cp / 64) * 64 + cp % 64 == cp;
  }

  lemma Utf8CharDecodes4(c: char)
    requires 0x10000 <= c as int
    ensures DecodesTo(Utf8Char(c), c)
  {
    var cp := c as int;
    assert (cp / 4096) % 64 + (cp / 262144) * 64 == cp / 4096;
    assert (cp / 64) % 64 + (cp / 4096) * 64 == cp / 64;
    assert (cp / 64) * 64 + cp % 64 == cp;
  }

  lemma Utf8CharDecodes(c: char)
    ensures var r := Utf8Char(c);
      (LeadLength(r[0]) == |r| && CodePoint(r, |r|) == c as int && forall k :: 1 <= k < |r| ==> IsCont(r[k]))
  {
    var cp := c as int;
    if cp < 0x80 {
    } else if cp < 0x800 {
      Utf8CharDecodes2(c);
    } else if cp < 0x10000 {
      Utf8CharDecodes3(c);
    } else {
      Utf8CharDecodes4(c);
    }
  }

  /** Decoding UTF-8 gives back the text, so UTF-8 loses nothing. */
  lemma {:induction false} Utf8RoundTrip(s: string)
    ensures Utf8Decode(Utf8(s)) == Some(s)
  {
    if s != [] {
      var r := Utf8Char(s[0]);
      var bs := Utf8(s);
      assert bs == r + Utf8(s[1..]);
      Utf8CharDecodes(s[0]);
      assert bs[0] == r[0];
      assert forall k :: 0 <= k < |r| ==> bs[k] == r[k];
      assert CodePoint(bs, |r|) == CodePoint(r, |r|);
      assert bs[|r|..] == Utf8(s[1..]);
      Utf8RoundTrip(s[1..]);
      assert [s[0]] + s[1..] == s;
    }
  }

  /** Distinct texts have distinct encodings. */
  lemma Utf8Injective(s: string, t: string)
    requires Utf8(s) == Utf8(t)
    ensures s == t
  {
    Utf8RoundTrip(s);
    Utf8RoundTrip(t);
  }

  // ---------------------------------------------------------------------
  // Percent-encoding of bytes
  // ---------------------------------------------------------------------

  /** Bytes `urlencode` leaves as they are: ASCII letters, digits, `-`, `_`, `.`. */
  predicate IsUnreserved(b: int) {
    (0x30 <= b <= 0x39) || (0x41 <= b <= 0x5A) || (0x61 <= b <= 0x7A) || b == 0x2D || b == 0x5F || b == 0x2E
  }

  function HexDigit(d: nat): (c: char)
    requires d < 16
  {
    if d < 10 then ('0' as int + d) as char else ('A' as int + d - 10) as char
  }

  predicate IsHex(c: char) { ('0' <= c <= '9') || ('A' <= c <= 'F') || ('a' <= c <= 'f') }

  function HexValue(c: char): (v: nat)
    requires IsHex(c)
    ensures v < 16
  {
    if '0' <= c <= '9' then (c as int) - ('0' as int)
    else if 'A' <= c <= 'F' then (c as int) - ('A' as int) + 10
    else (c as int) - ('a' as int) + 10
  }

  /** What `urlencode` writes for one byte. */
  function EncodeByte(b: Byte): (r: string)
    ensures 1 <= |r| <= 3
  {
    if IsUnreserved(b) then [b as char]
    else if b == 0x20 then "+"
    else ['%', HexDigit(b / 16), HexDigit(b % 16)]
  }

  function EncodeBytes(bs: seq<Byte>): string {
    if bs == [] then "" else EncodeByte(bs[0]) + EncodeBytes(bs[1..])
  }

  /** PHP `urlencode` on the UTF-8 encoding of a text. */
  function UrlEncode(s: string): string {
    EncodeBytes(Utf8(s))
  }

  /** PHP `urldecode`: `+` is a space, `%` followed by two hexadecimal digits
      is that byte, any other character stands for its own UTF-8 bytes (a
      stray `%` included). */
  function UrlDecode(t: string): seq<Byte> {
    if t == [] then []
    else if t[0] == '+' then [0x20] + UrlDecode(t[1..])
    else if t[0] == '%' && |t| >= 3 && IsHex(t[1]) && IsHex(t[2]) then
      [HexValue(t[1]) * 16 + HexValue(t[2])] + UrlDecode(t[3..])
    else Utf8Char(t[0]) + UrlDecode(t[1..])
  }

  /** The characters `urlencode` can produce. */
  predicate IsEncodedChar(c: char) {
    IsUnreserved(c as int) || c == '+' || c == '%'
  }

  lemma HexDigitValue(d: nat)
    requires d < 16
    ensures IsHex(HexDigit(d)) && HexValue(HexDigit(d)) == d && IsEncodedChar(HexDigit(d))
  {
  }

  lemma {:induction false} DecodeEncodedByte(b: Byte, rest: string)
    ensures UrlDecode(EncodeByte(b) + rest) == [b] + UrlDecode(rest)
  {
    var e := EncodeByte(b);
    var t := e + rest;
    if IsUnreserved(b) {
      assert t[0] == b as char && t[1..] == rest;
    } else if b == 0x20 {
      assert t[0] == '+' && t[1..] == rest;
    } else {
      HexDigitValue(b / 16);
      HexDigitValue(b % 16);
      assert t[0] == '%' && t[1] == HexDigit(b / 16) && t[2] == HexDigit(b % 16);
      assert t[3..] == rest;
    }
  }

  /** `urldecode` undoes `urlencode` on every byte string. */
  lemma {:induction false} DecodeEncodeBytes(bs: seq<Byte>)
    ensures UrlDecode(EncodeBytes(bs)) == bs
  {
    if bs != [] {
      DecodeEncodedByte(bs[0], EncodeBytes(bs[1..]));
      DecodeEncodeBytes(bs[1..]);
      assert [bs[0]] + bs[1..] == bs;
    }
  }

  /** `urldecode(urlencode(s))` is the UTF-8 encoding of `s`, and decoding
      that yields `s` again. */
  lemma UrlRoundTrip(s: string)
    ensures UrlDecode(UrlEncode(s)) == Utf8(s)
    ensures Utf8Decode(UrlDecode(UrlEncode(s))) == Some(s)
  {
    DecodeEncodeBytes(Utf8(s));
    Utf8RoundTrip(s);
  }

  /** Distinct values have distinct encodings. */
  lemma UrlEncodeInjective(s: string, t: string)
    requires UrlEncode(s) == UrlEncode(t)
    ensures s == t
  {
    UrlRoundTrip(s);
    UrlRoundTrip(t);
  }

  /** `urlencode` output uses letters, digits, `-_.+%` only, so it never
      contains a query-string delimiter such as `&`, `=`, `?` or `#`. */
  lemma {:induction false} EncodeBytesAlphabet(bs: seq<Byte>)
    ensures forall i :: 0 <= i < |EncodeBytes(bs)| ==> IsEncodedChar(EncodeBytes(bs)[i])
  {
    if bs != [] {
      EncodeBytesAlphabet(bs[1..]);
      var e := EncodeByte(bs[0]);
      if !IsUnreserved(bs[0]) && bs[0] != 0x20 {
        HexDigitValue(bs[0] / 16);
        HexDigitValue(bs[0] % 16);
      }
      assert forall i :: 0 <= i < |e| ==> IsEncodedChar(e[i]);
      var all := EncodeBytes(bs);
      assert all == e + EncodeBytes(bs[1..]);
      forall i | 0 <= i < |all| ensures IsEncodedChar(all[i]) {
        if i >= |e| {
          assert all[i] == EncodeBytes(bs[1..])[i - |e|];
        }
      }
    }
  }

  lemma UrlEncodeAlphabet(s: string)
    ensures forall i :: 0 <= i < |UrlEncode(s)| ==> IsEncodedChar(UrlEncode(s)[i])
    ensures '&' !in UrlEncode(s) && '=' !in UrlEncode(s) && '?' !in UrlEncode(s) && '#' !in UrlEncode(s) && '/' !in UrlEncode(s)
  {
    EncodeBytesAlphabet(Utf8(s));
  }

  /** A text made only of unreserved characters is encoded as itself. */
  lemma {:induction false} UrlEncodeUnreserved(s: string)
    requires forall i :: 0 <= i < |s| ==> IsUnreserved(s[i] as int)
    ensures UrlEncode(s) == s
  {
    if s != [] {
      UrlEncodeUnreserved(s[1..]);
      assert Utf8(s) == [s[0] as int] + Utf8(s[1..]);
      assert EncodeBytes(Utf8(s)) == EncodeByte(s[0] as int) + EncodeBytes(Utf8(s[1..]));
      assert [s[0]] + s[1..] == s;
    }
  }
}
