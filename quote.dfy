/** `urllib.parse.quote(s)` as the search URL uses it: the text is encoded
    as UTF-8, and every byte that is not a letter, a digit, one of `_.-~` or
    `/` becomes `%` followed by two upper-case hexadecimal digits (the
    percent-encoding of section 2.1 of RFC 3986). */
module Quote {
  import opened Wrappers

  type Byte = b: int | 0 <= b < 256

  /** The UTF-8 encoding of one Unicode scalar value: one byte for ASCII, two
      to four otherwise, a lead byte from 0xC0 up and continuation bytes in
      0x80..0xBF. */
  function EncodeChar(c: char): (r: seq<Byte>)
    ensures 1 <= |r| <= 4
    ensures |r| == 1 <==> c as int < 0x80
    ensures |r| == 1 ==> r[0] == c as int
    ensures |r| > 1 ==> 0xC0 <= r[0] && forall i :: 1 <= i < |r| ==> 0x80 <= r[i] < 0xC0
  {
    var cp := c as int;
    if cp < 0x80 then [cp]
    else if cp < 0x800 then [0xC0 + cp / 64, 0x80 + cp % 64]
    else if cp < 0x10000 then [0xE0 + cp / 4096, 0x80 + (cp / 64) % 64, 0x80 + cp % 64]
    else [0xF0 + cp / 262144, 0x80 + (cp / 4096) % 64, 0x80 + (cp / 64) % 64, 0x80 + cp % 64]
  }

  /** The code point that one encoded character carries. */
  function DecodeChar(r: seq<Byte>): int
    requires 1 <= |r| <= 4
  {
    var b := seq(|r|, i requires 0 <= i < |r| => r[i] as int);
    if |b| == 1 then b[0]
    else if |b| == 2 then (b[0] - 0xC0) * 64 + (b[1] - 0x80)
    else if |b| == 3 then (b[0] - 0xE0) * 4096 + (b[1] - 0x80) * 64 + (b[2] - 0x80)
    else (b[0] - 0xF0) * 262144 + (b[1] - 0x80) * 4096 + (b[2] - 0x80) * 64 + (b[3] - 0x80)
  }

  /** Decoding the bytes of a character gives the character back. */
  lemma EncodeCharRoundTrip(c: char)
    ensures DecodeChar(EncodeChar(c)) == c as int
  {
    var cp := c as int;
    assert cp == (cp / 64) * 64 + cp % 64;
    assert cp / 64 == (cp / 4096) * 64 + (cp / 64) % 64;
    assert cp / 4096 == (cp / 262144) * 64 + (cp / 4096) % 64;
  }

  function Utf8(s: string): (r: seq<Byte>)
    ensures |r| >= |s|
  {
    if s == [] then [] else EncodeChar(s[0]) + Utf8(s[1..])
  }

  /** Python's always-safe characters plus `/`, the default `safe` argument. */
  predicate IsSafe(b: Byte) {
    ('a' as int <= b <= 'z' as int) || ('A' as int <= b <= 'Z' as int)
    || ('0' as int <= b <= '9' as int)
    || b == '_' as int || b == '.' as int || b == '-' as int || b == '~' as int
    || b == '/' as int
  }

  function HexDigit(n: int): (c: char)
    requires 0 <= n < 16
  {
    if n < 10 then ('0' as int + n) as char else ('A' as int + n - 10) as char
  }

  /** The value of an upper-case hexadecimal digit. */
  function HexValue(c: char): (r: Option<int>)
    ensures r.Some? ==> 0 <= r.value < 16
  {
    if '0' <= c <= '9' then Some(c as int - '0' as int)
    else if 'A' <= c <= 'F' then Some(c as int - 'A' as int + 10)
    else None
  }

  function EncodeByte(b: Byte): (r: string)
  {
    if IsSafe(b) then [b as char] else ['%', HexDigit(b / 16), HexDigit(b % 16)]
  }

  function PercentEncode(bs: seq<Byte>): (r: string)
    ensures |r| >= |bs|
  {
    if bs == [] then [] else EncodeByte(bs[0]) + PercentEncode(bs[1..])
  }

  /** Python's `quote(s)`: the text decodes back to the UTF-8 bytes of s,
      and is at least as long as s. */
  function Quote(s: string): (r: string)
    ensures PercentDecode(r) == Some(Utf8(s)) && |r| >= |s|
  {
    PercentRoundTrip(Utf8(s));
    PercentEncode(Utf8(s))
  }

  /** The inverse of percent-encoding, `unquote_to_bytes`, for text made of
      safe characters and `%XX` escapes with upper-case digits; anything else
      is rejected. */
  function PercentDecode(s: string): Option<seq<Byte>>
    decreases |s|
  {
    if s == [] then Some([])
    else if s[0] == '%' then
      if |s| >= 3 && HexValue(s[1]).Some? && HexValue(s[2]).Some? then
        match PercentDecode(s[3..])
        case None => None
        case Some(rest) => Some([HexValue(s[1]).value * 16 + HexValue(s[2]).value] + rest)
      else None
    else if s[0] as int < 256 && IsSafe(s[0] as int) then
      match PercentDecode(s[1..])
      case None => None
      case Some(rest) => Some([s[0] as int] + rest)
    else None
  }

  lemma HexRoundTrip(n: int)
    requires 0 <= n < 16
    ensures HexValue(HexDigit(n)) == Some(n)
  {
  }

  /** Decoding one encoded byte in front of more text. */
  lemma DecodeByte(b: Byte, rest: string)
    ensures PercentDecode(EncodeByte(b) + rest) ==
      match PercentDecode(rest) case None => None case Some(r) => Some([b] + r)
  {
    var s := EncodeByte(b) + rest;
    if IsSafe(b) {
      assert s[0] == b as char && s[1..] == rest;
    } else {
      HexRoundTrip(b / 16);
      HexRoundTrip(b % 16);
      assert s[0] == '%' && s[1] == HexDigit(b / 16) && s[2] == HexDigit(b % 16);
      assert s[3..] == rest;
    }
  }

  /** Percent-decoding undoes percent-encoding, so the search query carries
      exactly the UTF-8 bytes of the SKU. */
  lemma {:induction false} PercentRoundTrip(bs: seq<Byte>)
    ensures PercentDecode(PercentEncode(bs)) == Some(bs)
  {
    if bs != [] {
      PercentRoundTrip(bs[1..]);
      DecodeByte(bs[0], PercentEncode(bs[1..]));
      assert [bs[0]] + bs[1..] == bs;
    }
  }

  predicate IsQuoted(s: string) {
    forall i :: 0 <= i < |s| ==>
      s[i] == '%' || HexValue(s[i]).Some? || (s[i] as int < 256 && IsSafe(s[i] as int))
  }

  /** A quoted SKU holds only safe characters, `%` and hexadecimal digits:
      nothing in it can end the query string or start a fragment. */
  lemma {:induction false} QuoteAlphabet(bs: seq<Byte>)
    ensures IsQuoted(PercentEncode(bs))
  {
    if bs != [] {
      QuoteAlphabet(bs[1..]);
      var e := EncodeByte(bs[0]);
      if !IsSafe(bs[0]) {
        HexRoundTrip(bs[0] / 16);
        HexRoundTrip(bs[0] % 16);
      }
      assert IsQuoted(e);
    }
  }

  /** A SKU made only of safe ASCII characters is put in the URL as it is. */
  lemma {:induction false} QuoteSafeText(s: string)
    requires forall i :: 0 <= i < |s| ==> s[i] as int < 0x80 && IsSafe(s[i] as int)
    ensures Quote(s) == s
  {
    if s != [] {
      QuoteSafeText(s[1..]);
      assert Utf8(s) == [s[0] as int] + Utf8(s[1..]);
      assert PercentEncode(Utf8(s)) == EncodeByte(s[0] as int) + PercentEncode(Utf8(s[1..]));
      assert [s[0]] + s[1..] == s;
    }
  }
}
