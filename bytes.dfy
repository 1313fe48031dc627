/**
 * Bytes and text. Swift's `Data` is a sequence of bytes and `String` a
 * sequence of Unicode scalars (Dafny's `char`); `String.data(using: .utf8)`
 * and the UTF-8 view that percent-encoding works on are the UTF-8 encoding
 * of the scalars.
 */
module Bytes {

  newtype byte = x: int | 0 <= x < 256

  /** Swift's `Data`. */
  type Data = seq<byte>

  /** The byte whose value is the code of an ASCII character. */
  function Ascii(c: char): (b: byte)
    requires c as int < 128
    ensures b as int == c as int
  {
    c as int as byte
  }

  /** The UTF-8 encoding of one Unicode scalar (1 to 4 bytes). */
  function Utf8Char(c: char): (r: seq<byte>)
    ensures 1 <= |r| <= 4
    ensures c as int < 128 ==> r == [c as int as byte]
    ensures c as int >= 128 ==> forall i :: 0 <= i < |r| ==> r[i] >= 128
  {
    var cp := c as int;
    if cp < 0x80 then
      [cp as byte]
    else if cp < 0x800 then
      [(0xC0 + cp / 0x40) as byte, (0x80 + cp % 0x40) as byte]
    else if cp < 0x1_0000 then
      [(0xE0 + cp / 0x1000) as byte, (0x80 + cp / 0x40 % 0x40) as byte, (0x80 + cp % 0x40) as byte]
    else
      [(0xF0 + cp / 0x4_0000) as byte, (0x80 + cp / 0x1000 % 0x40) as byte,
       (0x80 + cp / 0x40 % 0x40) as byte, (0x80 + cp % 0x40) as byte]
  }

  /** The UTF-8 encoding of a string (`String.utf8`, `data(using: .utf8)`). */
  function Utf8(s: string): (r: Data)
    ensures |s| <= |r| <= 4 * |s|
  {
    if s == [] then [] else Utf8Char(s[0]) + Utf8(s[1..])
  }

  /** The number of bytes a UTF-8 sequence has, read from its first byte. */
  function SequenceLength(lead: byte): nat {
    if lead < 0x80 then 1 else if lead < 0xE0 then 2 else if lead < 0xF0 then 3 else 4
  }

  /** The first byte of a character's encoding fixes its length and is never a continuation byte. */
  lemma LeadByte(c: char)
    ensures |Utf8Char(c)| == SequenceLength(Utf8Char(c)[0])
    ensures !(0x80 <= Utf8Char(c)[0] < 0xC0)
  {
  }

  /** The code point a one- to four-byte UTF-8 sequence stands for. */
  function CodePoint(bs: seq<byte>): int
    requires 1 <= |bs| <= 4
  {
    var b := seq(|bs|, i requires 0 <= i < |bs| => bs[i] as int);
    if |b| == 1 then b[0]
    else if |b| == 2 then (b[0] - 0xC0) * 0x40 + (b[1] - 0x80)
    else if |b| == 3 then (b[0] - 0xE0) * 0x1000 + (b[1] - 0x80) * 0x40 + (b[2] - 0x80)
    else (b[0] - 0xF0) * 0x4_0000 + (b[1] - 0x80) * 0x1000 + (b[2] - 0x80) * 0x40 + (b[3] - 0x80)
  }

  /** Decoding a character's encoding gives back its code point. */
  lemma CodePointOfUtf8Char(c: char)
    ensures CodePoint(Utf8Char(c)) == c as int
  {
    var cp := c as int;
    if cp < 0x80 {
    } else if cp < 0x800 {
      assert cp == cp / 0x40 * 0x40 + cp % 0x40;
    } else if cp < 0x1_0000 {
      var q := cp / 0x40;
      assert cp == q * 0x40 + cp % 0x40;
      assert q == cp / 0x1000 * 0x40 + q % 0x40;
    } else {
      var q := cp / 0x40;
      var q2 := cp / 0x1000;
      assert cp == q * 0x40 + cp % 0x40;
      assert q2 == q / 0x40;
      assert q == q2 * 0x40 + q % 0x40;
      assert q2 == cp / 0x4_0000 * 0x40 + q2 % 0x40;
      assert q / 0x40 % 0x40 == q2 % 0x40;
    }
  }

  lemma Utf8CharInjective(c: char, d: char)
    requires Utf8Char(c) == Utf8Char(d)
    ensures c == d
  {
    CodePointOfUtf8Char(c);
    CodePointOfUtf8Char(d);
  }

  /** The UTF-8 bytes of a string determine the string. */
  lemma {:induction false} Utf8Injective(s: string, t: string)
    requires Utf8(s) == Utf8(t)
    ensures s == t
  {
    if s != [] && t != [] {
      var u, v := Utf8Char(s[0]), Utf8Char(t[0]);
      assert Utf8(s) == u + Utf8(s[1..]) && Utf8(t) == v + Utf8(t[1..]);
      assert u[0] == Utf8(s)[0] == v[0];
      LeadByte(s[0]);
      LeadByte(t[0]);
      assert u == Utf8(s)[..|u|] == v;
      Utf8CharInjective(s[0], t[0]);
      assert Utf8(s[1..]) == Utf8(s)[|u|..] == Utf8(t[1..]);
      Utf8Injective(s[1..], t[1..]);
      assert s == [s[0]] + s[1..] && t == [t[0]] + t[1..];
    }
  }

  /**
   * An ASCII byte occurs in the UTF-8 encoding of `s` exactly when its
   * character occurs in `s`: every byte of a multi-byte sequence is 0x80 or
   * above.
   */
  lemma {:induction false} Utf8HasAsciiByte(s: string, c: char)
    requires c as int < 128
    ensures Ascii(c) in Utf8(s) <==> c in s
  {
    if s != [] {
      Utf8HasAsciiByte(s[1..], c);
      assert Utf8(s) == Utf8Char(s[0]) + Utf8(s[1..]);
      assert s == [s[0]] + s[1..];
    }
  }

  /** A string made only of ASCII characters encodes to their codes, one byte each. */
  lemma {:induction false} Utf8OfAscii(s: string)
    requires forall i :: 0 <= i < |s| ==> s[i] as int < 128
    ensures |Utf8(s)| == |s|
    ensures forall i :: 0 <= i < |s| ==> Utf8(s)[i] as int == s[i] as int
  {
    if s != [] {
      Utf8OfAscii(s[1..]);
    }
  }

  /** Bytes read back as text, one character per byte (the percent-encoded text is ASCII). */
  function Text(bs: seq<byte>): (s: string)
    ensures |s| == |bs|
    ensures forall i :: 0 <= i < |bs| ==> s[i] as int == bs[i] as int
  {
    seq(|bs|, i requires 0 <= i < |bs| => bs[i] as int as char)
  }

  /** The codes of a string whose characters are all below 256. */
  function Codes(s: string): (bs: seq<byte>)
    requires forall i :: 0 <= i < |s| ==> s[i] as int < 256
    ensures |bs| == |s|
    ensures forall i :: 0 <= i < |s| ==> bs[i] as int == s[i] as int
  {
    seq(|s|, i requires 0 <= i < |s| => s[i] as int as byte)
  }

  /** Reading bytes as text loses nothing. */
  lemma TextRoundTrip(bs: seq<byte>)
    ensures Codes(Text(bs)) == bs
  {
  }
}
