/** Bytes and the two text encodings the modelled code uses:
    `bytes(s, "ascii")` (which raises on a non-ASCII character) and
    `s.encode()` (UTF-8). */
module Bytes {
  import opened Wrappers

  newtype byte = b: int | 0 <= b < 256

  predicate IsAscii(c: char)
  {
    c as int < 128
  }

  /** `bytes(s, "ascii")`: `None` stands for the UnicodeEncodeError. */
  function AsciiEncode(s: string): (r: Option<seq<byte>>)
    ensures r.Some? <==> forall i :: 0 <= i < |s| ==> IsAscii(s[i])
    ensures r.Some? ==> |r.value| == |s| && forall i :: 0 <= i < |s| ==> r.value[i] as int == s[i] as int
  {
    if s == [] then Some([])
    else if !IsAscii(s[0]) then None
    else match AsciiEncode(s[1..])
      case None => None
      case Some(rest) => Some([s[0] as int as byte] + rest)
  }

  /** The text whose character codes are the given bytes (`b.decode()` for
      ASCII bytes, which is all it is applied to). */
  function AsciiText(b: seq<byte>): (s: string)
    ensures |s| == |b| && forall i :: 0 <= i < |b| ==> s[i] as int == b[i] as int
  {
    seq(|b|, i requires 0 <= i < |b| => b[i] as int as char)
  }

  /** Reading ASCII bytes as text and encoding the text back gives the bytes. */
  lemma AsciiRoundTrip(b: seq<byte>)
    requires forall i :: 0 <= i < |b| ==> b[i] < 128
    ensures AsciiEncode(AsciiText(b)) == Some(b)
  {
    var r := AsciiEncode(AsciiText(b));
    assert r.Some?;
    assert r.value == b;
  }

  /** A continuation byte of RFC 3629: `10xxxxxx`. */
  predicate IsContinuation(b: byte)
  {
    0x80 <= b <= 0xBF
  }

  /** The code point a well-formed UTF-8 sequence of one to four bytes
      stands for (section 3 of RFC 3629, read backwards). */
  function Utf8CodePoint(r: seq<byte>): int
    requires 1 <= |r| <= 4
  {
    if |r| == 1 then r[0] as int
    else if |r| == 2 then (r[0] as int - 0xC0) * 64 + (r[1] as int - 0x80)
    else if |r| == 3 then
      (r[0] as int - 0xE0) * 4096 + (r[1] as int - 0x80) * 64 + (r[2] as int - 0x80)
    else
      (r[0] as int - 0xF0) * 262144 + (r[1] as int - 0x80) * 4096
      + (r[2] as int - 0x80) * 64 + (r[3] as int - 0x80)
  }

  /** The two-byte form of a code point in 0x80..0x7FF. */
  lemma TwoBytes(n: int)
    requires 0x80 <= n < 0x800
    ensures 0xC2 <= 0xC0 + n / 64 <= 0xDF && 0x80 <= 0x80 + n % 64 <= 0xBF
    ensures (n / 64) * 64 + n % 64 == n
  {
  }

  /** The three-byte form of a code point in 0x800..0xFFFF. */
  lemma ThreeBytes(n: int)
    requires 0x800 <= n < 0x10000
    ensures 0xE0 <= 0xE0 + n / 64 / 64 <= 0xEF
    ensures (n / 64 / 64) * 4096 + (n / 64 % 64) * 64 + n % 64 == n
  {
    var t := n / 64;
    assert n == t * 64 + n % 64;
    assert t == (t / 64) * 64 + t % 64;
  }

  /** The four-byte form of a code point from 0x10000 on. */
  lemma FourBytes(n: int)
    requires 0x10000 <= n < 0x110000
    ensures 0xF0 <= 0xF0 + n / 64 / 64 / 64 <= 0xF4
    ensures (n / 64 / 64 / 64) * 262144 + (n / 64 / 64 % 64) * 4096 + (n / 64 % 64) * 64 + n % 64 == n
  {
    var t := n / 64;
    var u := t / 64;
    assert n == t * 64 + n % 64;
    assert t == u * 64 + t % 64;
    assert u == (u / 64) * 64 + u % 64;
  }

  /** UTF-8 encoding of one Unicode scalar value (section 3 of RFC 3629):
      the shortest form, a lead byte announcing the length, then
      continuation bytes, and it decodes back to the character. */
  function Utf8Char(c: char): (r: seq<byte>)
    ensures 1 <= |r| <= 4
    ensures (|r| == 1) <==> IsAscii(c)
    ensures |r| == 1 ==> r[0] as int == c as int
    ensures |r| == 2 ==> 0xC2 <= r[0] <= 0xDF && 0x80 <= c as int < 0x800
    ensures |r| == 3 ==> 0xE0 <= r[0] <= 0xEF && 0x800 <= c as int < 0x10000
    ensures |r| == 4 ==> 0xF0 <= r[0] <= 0xF4 && 0x10000 <= c as int
    ensures forall i :: 1 <= i < |r| ==> IsContinuation(r[i])
    ensures Utf8CodePoint(r) == c as int
  {
    var n := c as int;
    if n < 0x80 then [n as byte]
    else if n < 0x800 then
      TwoBytes(n);
      [(0xC0 + n / 64) as byte, (0x80 + n % 64) as byte]
    else if n < 0x10000 then
      ThreeBytes(n);
      [(0xE0 + n / 64 / 64) as byte, (0x80 + n / 64 % 64) as byte, (0x80 + n % 64) as byte]
    else
      FourBytes(n);
      [(0xF0 + n / 64 / 64 / 64) as byte, (0x80 + n / 64 / 64 % 64) as byte,
       (0x80 + n / 64 % 64) as byte, (0x80 + n % 64) as byte]
  }

  /** `s.encode()` (UTF-8): the characters' encodings one after another
      (`Utf8EncodeChar`, `Utf8EncodeAppend`); on ASCII text it is the ASCII
      encoding (`Utf8EncodeAscii`). */
  function Utf8Encode(s: string): (r: seq<byte>)
    ensures |s| <= |r| <= 4 * |s|
  {
    if s == [] then [] else Utf8Char(s[0]) + Utf8Encode(s[1..])
  }

  /** On ASCII text UTF-8 and ASCII agree. */
  lemma {:induction false} Utf8EncodeAscii(s: string)
    requires forall i :: 0 <= i < |s| ==> IsAscii(s[i])
    ensures AsciiEncode(s) == Some(Utf8Encode(s))
    decreases |s|
  {
    if s != [] {
      assert forall i :: 0 <= i < |s[1..]| ==> IsAscii(s[1..][i]) by {
        forall i | 0 <= i < |s[1..]| ensures IsAscii(s[1..][i]) {
          assert s[1..][i] == s[i + 1];
        }
      }
      Utf8EncodeAscii(s[1..]);
    }
  }

  /** A one-character string is encoded as that character. */
  lemma Utf8EncodeChar(c: char)
    ensures Utf8Encode([c]) == Utf8Char(c)
  {
    assert [c][1..] == [];
  }

  /** The encoding of a non-empty text starts with its first character's. */
  lemma Utf8EncodeCons(s: string)
    requires s != []
    ensures Utf8Encode(s) == Utf8Char(s[0]) + Utf8Encode(s[1..])
  {
  }

  /** The encoding of a concatenation is the concatenation of the
      encodings, so every character of the text is encoded by `Utf8Char`
      in its place. */
  lemma {:induction false} Utf8EncodeAppend(s: string, t: string)
    ensures Utf8Encode(s + t) == Utf8Encode(s) + Utf8Encode(t)
    decreases |s|
  {
    if s == [] {
      assert s + t == t;
    } else {
      var u := s + t;
      assert u[0] == s[0] && u[1..] == s[1..] + t;
      Utf8EncodeAppend(s[1..], t);
      Utf8EncodeCons(u);
      Utf8EncodeCons(s);
      var c, rest, tail := Utf8Char(s[0]), Utf8Encode(s[1..]), Utf8Encode(t);
      assert c + (rest + tail) == (c + rest) + tail;
    }
  }
}
