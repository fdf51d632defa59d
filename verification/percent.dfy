/** Percent-encoding as the two ends of the download header use it.

    The backend's `urllib.parse.quote(name)` encodes the name as UTF-8 (RFC
    3629) and writes every byte outside its safe set as `%XX` with upper-case
    hex digits (section 2.1 of RFC 3986). The safe set is ASCII letters,
    digits, `_.-~` and the default extra safe character `/`.

    The frontend's `decodeURIComponent` is the inverse: it turns `%XX` groups
    that spell a well-formed UTF-8 sequence back into one character, copies
    every other character, and throws `URIError` on anything malformed, which
    is `None` here. */
module Percent {
  import opened Wrappers

  type byte = x: int | 0 <= x < 256
  type nibble = x: int | 0 <= x < 16

  /** UTF-8 encoding of one Unicode scalar value (section 3 of RFC 3629). */
  function Utf8(c: char): seq<byte> {
    var cp := c as int;
    if cp < 0x80 then [cp]
    else if cp < 0x800 then [0xC0 + cp / 64, 0x80 + cp % 64]
    else if cp < 0x1_0000 then [0xE0 + cp / 64 / 64, 0x80 + cp / 64 % 64, 0x80 + cp % 64]
    else [0xF0 + cp / 64 / 64 / 64, 0x80 + cp / 64 / 64 % 64, 0x80 + cp / 64 % 64, 0x80 + cp % 64]
  }

  /** UTF-8 encoding of a string (Python `s.encode("utf-8")`). */
  function Utf8Encode(s: string): seq<byte>
    decreases |s|
  {
    if s == [] then [] else Utf8(s[0]) + Utf8Encode(s[1..])
  }

  /** Characters `quote` copies unchanged: the unreserved characters of RFC
      3986 and `/`. */
  predicate Unescaped(c: char) {
    || 'A' <= c <= 'Z'
    || 'a' <= c <= 'z'
    || '0' <= c <= '9'
    || c in {'_', '.', '-', '~', '/'}
  }

  /** Upper-case hex digit, as `quote` writes it. */
  function HexDigit(n: nibble): char {
    if n < 10 then ('0' as int + n) as char else ('A' as int + n - 10) as char
  }

  /** Value of a hex digit of either case, as `decodeURIComponent` reads it. */
  function HexValue(c: char): Option<nibble> {
    if '0' <= c <= '9' then Some(c as int - '0' as int)
    else if 'A' <= c <= 'F' then Some(c as int - 'A' as int + 10)
    else if 'a' <= c <= 'f' then Some(c as int - 'a' as int + 10)
    else None
  }

  /** `%XX` for one byte. */
  function Escape(b: byte): string {
    ['%', HexDigit(b / 16), HexDigit(b % 16)]
  }

  function QuoteByte(b: byte): string {
    if b < 0x80 && Unescaped(b as char) then [b as char] else Escape(b)
  }

  /** Python `quote_from_bytes(bs)`. */
  function QuoteBytes(bs: seq<byte>): string
    decreases |bs|
  {
    if bs == [] then [] else QuoteByte(bs[0]) + QuoteBytes(bs[1..])
  }

  /** Python `quote(s)`: default `safe="/"`, UTF-8, strict errors. */
  function Quote(s: string): string {
    QuoteBytes(Utf8Encode(s))
  }

  /** The byte spelt by the `%XX` group at position `i`, if there is one. */
  function EscapedByte(t: string, i: nat): Option<byte> {
    if i + 3 <= |t| && t[i] == '%' then
      var hi :- HexValue(t[i + 1]);
      var lo :- HexValue(t[i + 2]);
      Some(hi * 16 + lo)
    else None
  }

  /** A `%XX` group spelling a UTF-8 continuation byte `10xxxxxx`. */
  function ContinuationByte(t: string, i: nat): Option<byte> {
    var b :- EscapedByte(t, i);
    if 0x80 <= b < 0xC0 then Some(b) else None
  }

  /** The escape sequence at the start of `t`: one `%XX` group for an ASCII
      byte, or a lead byte and its continuation bytes spelling a code point
      that is neither overlong, nor a surrogate, nor above U+10FFFF. Gives the
      character and the number of characters of `t` it used. */
  function DecodeEscape(t: string): (r: Option<(char, nat)>)
    ensures r.Some? ==> 3 <= r.value.1 <= |t|
  {
    var b0 :- EscapedByte(t, 0);
    if b0 < 0x80 then
      Some((b0 as char, 3))
    else if b0 < 0xC0 then
      None
    else if b0 < 0xE0 then
      var b1 :- ContinuationByte(t, 3);
      var cp := (b0 - 0xC0) * 64 + (b1 - 0x80);
      if cp < 0x80 then None else Some((cp as char, 6))
    else if b0 < 0xF0 then
      var b1 :- ContinuationByte(t, 3);
      var b2 :- ContinuationByte(t, 6);
      var cp := ((b0 - 0xE0) * 64 + (b1 - 0x80)) * 64 + (b2 - 0x80);
      if cp < 0x800 || 0xD800 <= cp < 0xE000 then None else Some((cp as char, 9))
    else if b0 < 0xF8 then
      var b1 :- ContinuationByte(t, 3);
      var b2 :- ContinuationByte(t, 6);
      var b3 :- ContinuationByte(t, 9);
      var cp := (((b0 - 0xF0) * 64 + (b1 - 0x80)) * 64 + (b2 - 0x80)) * 64 + (b3 - 0x80);
      if cp < 0x1_0000 || cp >= 0x11_0000 then None else Some((cp as char, 12))
    else
      None
  }

  /** JavaScript `decodeURIComponent(t)`; `None` where it throws. */
  function PercentDecode(t: string): Option<string>
    decreases |t|
  {
    if t == [] then Some([])
    else if t[0] != '%' then
      var rest :- PercentDecode(t[1..]);
      Some([t[0]] + rest)
    else
      var e :- DecodeEscape(t);
      var rest :- PercentDecode(t[e.1..]);
      Some([e.0] + rest)
  }

  /** The text `quote` writes for one character. */
  function QuoteChar(c: char): string {
    QuoteBytes(Utf8(c))
  }

  lemma HexRoundTrip(n: nibble)
    ensures HexValue(HexDigit(n)) == Some(n)
  {
  }

  /** A `%XX` group written by `Escape` reads back as its byte. */
  lemma EscapeReadsBack(b: byte, t: string, i: nat)
    requires i + 3 <= |t| && t[i..i + 3] == Escape(b)
    ensures EscapedByte(t, i) == Some(b)
  {
    assert t[i] == '%' && t[i + 1] == HexDigit(b / 16) && t[i + 2] == HexDigit(b % 16);
    HexRoundTrip(b / 16);
    HexRoundTrip(b % 16);
  }

  lemma {:induction false} QuoteBytesAppend(a: seq<byte>, b: seq<byte>)
    ensures QuoteBytes(a + b) == QuoteBytes(a) + QuoteBytes(b)
    decreases |a|
  {
    if a == [] {
      assert a + b == b;
    } else {
      assert (a + b)[1..] == a[1..] + b;
      QuoteBytesAppend(a[1..], b);
    }
  }

  /** Bytes of 0x80 and above are always escaped. */
  lemma QuoteBytesOfHigh2(b0: byte, b1: byte)
    requires b0 >= 0x80 && b1 >= 0x80
    ensures QuoteBytes([b0, b1]) == Escape(b0) + Escape(b1)
  {
    assert [b0, b1][1..] == [b1];
    assert [b1][1..] == [];
    assert QuoteBytes([b1]) == Escape(b1) + [];
    assert Escape(b1) + [] == Escape(b1);
  }

  lemma QuoteBytesOfHigh3(b0: byte, b1: byte, b2: byte)
    requires b0 >= 0x80 && b1 >= 0x80 && b2 >= 0x80
    ensures QuoteBytes([b0, b1, b2]) == Escape(b0) + Escape(b1) + Escape(b2)
  {
    assert [b0, b1, b2][1..] == [b1, b2];
    QuoteBytesOfHigh2(b1, b2);
  }

  lemma QuoteBytesOfHigh4(b0: byte, b1: byte, b2: byte, b3: byte)
    requires b0 >= 0x80 && b1 >= 0x80 && b2 >= 0x80 && b3 >= 0x80
    ensures QuoteBytes([b0, b1, b2, b3]) == Escape(b0) + Escape(b1) + Escape(b2) + Escape(b3)
  {
    assert [b0, b1, b2, b3][1..] == [b1, b2, b3];
    QuoteBytesOfHigh3(b1, b2, b3);
  }

  /** `quote` works character by character. */
  lemma QuoteCons(s: string)
    requires s != []
    ensures Quote(s) == QuoteChar(s[0]) + Quote(s[1..])
  {
    QuoteBytesAppend(Utf8(s[0]), Utf8Encode(s[1..]));
  }

  /** The escape groups `quote` writes for a character outside the safe set
      decode back to that character, consuming exactly those groups. */
  lemma DecodeQuotedChar(c: char, rest: string)
    requires !Unescaped(c)
    ensures DecodeEscape(QuoteChar(c) + rest) == Some((c, |QuoteChar(c)|))
  {
    var cp := c as int;
    if cp < 0x80 {
      assert (cp as char) == c && Utf8(c) == [cp] && [cp][1..] == [];
      assert !Unescaped(cp as char);
      assert QuoteByte(cp) == Escape(cp);
      assert QuoteBytes([cp]) == QuoteByte(cp) + QuoteBytes([]);
      assert QuoteChar(c) == Escape(cp);
      EscapeReadsBack(cp, QuoteChar(c) + rest, 0);
    } else if cp < 0x800 {
      DecodeTwoBytes(c, rest);
    } else if cp < 0x1_0000 {
      DecodeThreeBytes(c, rest);
    } else {
      DecodeFourBytes(c, rest);
    }
  }

  /** Reassembling the six-bit groups UTF-8 splits a code point into. */
  lemma SixBitGroups(cp: nat)
    ensures (cp / 64 / 64) * 64 * 64 + (cp / 64 % 64) * 64 + cp % 64 == cp
    ensures (cp / 64 / 64 / 64) * 64 * 64 * 64 + (cp / 64 / 64 % 64) * 64 * 64 + (cp / 64 % 64) * 64 + cp % 64 == cp
  {
    var q1 := cp / 64;
    var q2 := q1 / 64;
    var q3 := q2 / 64;
    assert cp == q1 * 64 + cp % 64;
    assert q1 == q2 * 64 + q1 % 64;
    assert q2 == q3 * 64 + q2 % 64;
  }

  lemma DecodeTwoBytes(c: char, rest: string)
    requires 0x80 <= c as int < 0x800
    ensures DecodeEscape(QuoteChar(c) + rest) == Some((c, |QuoteChar(c)|))
  {
    var cp := c as int;
    var bs := Utf8(c);
    assert bs == [bs[0], bs[1]];
    QuoteBytesOfHigh2(bs[0], bs[1]);
    var t := QuoteChar(c) + rest;
    assert t[0..3] == Escape(bs[0]);
    assert t[3..6] == Escape(bs[1]);
    EscapeReadsBack(bs[0], t, 0);
    EscapeReadsBack(bs[1], t, 3);
  }

  lemma DecodeThreeBytes(c: char, rest: string)
    requires 0x800 <= c as int < 0x1_0000
    ensures DecodeEscape(QuoteChar(c) + rest) == Some((c, |QuoteChar(c)|))
  {
    var cp := c as int;
    var bs := Utf8(c);
    assert bs == [bs[0], bs[1], bs[2]];
    QuoteBytesOfHigh3(bs[0], bs[1], bs[2]);
    var t := QuoteChar(c) + rest;
    assert t[0..3] == Escape(bs[0]);
    assert t[3..6] == Escape(bs[1]);
    assert t[6..9] == Escape(bs[2]);
    EscapeReadsBack(bs[0], t, 0);
    EscapeReadsBack(bs[1], t, 3);
    EscapeReadsBack(bs[2], t, 6);
    SixBitGroups(cp);
  }

  lemma DecodeFourBytes(c: char, rest: string)
    requires 0x1_0000 <= c as int
    ensures DecodeEscape(QuoteChar(c) + rest) == Some((c, |QuoteChar(c)|))
  {
    var cp := c as int;
    var bs := Utf8(c);
    assert bs == [bs[0], bs[1], bs[2], bs[3]];
    QuoteBytesOfHigh4(bs[0], bs[1], bs[2], bs[3]);
    var t := QuoteChar(c) + rest;
    assert t[0..3] == Escape(bs[0]);
    assert t[3..6] == Escape(bs[1]);
    assert t[6..9] == Escape(bs[2]);
    assert t[9..12] == Escape(bs[3]);
    EscapeReadsBack(bs[0], t, 0);
    EscapeReadsBack(bs[1], t, 3);
    EscapeReadsBack(bs[2], t, 6);
    EscapeReadsBack(bs[3], t, 9);
    SixBitGroups(cp);
  }

  /** `decodeURIComponent` undoes `quote` on every string. */
  lemma {:induction false} DecodeQuote(s: string)
    ensures PercentDecode(Quote(s)) == Some(s)
    decreases |s|
  {
    if s != [] {
      var c := s[0];
      var rest := Quote(s[1..]);
      QuoteCons(s);
      DecodeQuote(s[1..]);
      var t := QuoteChar(c) + rest;
      if Unescaped(c) {
        assert QuoteChar(c) == [c];
        assert t[1..] == rest;
      } else {
        DecodeQuotedChar(c, rest);
        assert t[|QuoteChar(c)|..] == rest;
      }
      assert s == [c] + s[1..];
    }
  }
  /** What `quote` can write: safe characters and `%` (its hex digits are
      safe characters too). */
  lemma {:induction false} QuoteBytesAlphabet(bs: seq<byte>)
    ensures forall i :: 0 <= i < |QuoteBytes(bs)| ==> Unescaped(QuoteBytes(bs)[i]) || QuoteBytes(bs)[i] == '%'
    ensures bs != [] ==> QuoteBytes(bs) != []
    decreases |bs|
  {
    if bs != [] {
      QuoteBytesAlphabet(bs[1..]);
      var head := QuoteByte(bs[0]);
      assert forall i :: 0 <= i < |head| ==> Unescaped(head[i]) || head[i] == '%';
      var q := QuoteBytes(bs);
      assert forall i :: |head| <= i < |q| ==> q[i] == QuoteBytes(bs[1..])[i - |head|];
    }
  }

  /** The encoded name holds only safe characters and `%`, so in particular no
      `;`, line feed, `+` or `"`; and a non-empty name encodes to non-empty
      text. */
  lemma QuoteAlphabet(s: string)
    ensures forall i :: 0 <= i < |Quote(s)| ==> Unescaped(Quote(s)[i]) || Quote(s)[i] == '%'
    ensures s != [] ==> Quote(s) != []
  {
    QuoteBytesAlphabet(Utf8Encode(s));
  }
}
