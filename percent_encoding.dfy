/**
 * Percent-encoding as section 2.1 of RFC 3986 defines it: a byte outside the
 * allowed set becomes "%" followed by two upper-case hexadecimal digits.
 * `addingPercentEncoding(withAllowedCharacters:)` applies it to the UTF-8
 * bytes of a string, with Foundation's `.urlQueryAllowed` as the allowed set.
 */
module PercentEncoding {
  import opened Wrappers
  import opened Bytes

  const PERCENT: byte := 37

  predicate IsHexDigit(b: byte) {
    48 <= b <= 57 || 65 <= b <= 70 || 97 <= b <= 102
  }

  predicate IsUpperHexDigit(b: byte) {
    48 <= b <= 57 || 65 <= b <= 70
  }

  /** The upper-case hexadecimal digit for a value below 16. */
  function HexDigit(n: byte): (d: byte)
    requires n < 16
    ensures IsUpperHexDigit(d)
    ensures HexValue(d) == n
  {
    if n < 10 then 48 + n else 55 + n
  }

  /** The value of a hexadecimal digit, either case (section 2.1 of RFC 3986). */
  function HexValue(d: byte): (n: byte)
    requires IsHexDigit(d)
    ensures n < 16
  {
    if d <= 57 then d - 48 else if d <= 70 then d - 55 else d - 87
  }

  /** One byte, kept if allowed, otherwise as a percent-encoded triplet. */
  function EncodeByte(b: byte, allowed: set<byte>): (r: seq<byte>)
  {
    if b in allowed then [b] else [PERCENT, HexDigit(b / 16), HexDigit(b % 16)]
  }

  function PercentEncode(bs: seq<byte>, allowed: set<byte>): (r: seq<byte>)
    ensures |bs| <= |r| <= 3 * |bs|
    ensures forall i :: 0 <= i < |r| ==> r[i] in allowed || r[i] == PERCENT || IsUpperHexDigit(r[i])
  {
    if bs == [] then [] else EncodeByte(bs[0], allowed) + PercentEncode(bs[1..], allowed)
  }

  /** Decoding: a triplet "%" HEXDIG HEXDIG stands for its byte; a stray "%" is malformed. */
  function PercentDecode(bs: seq<byte>): (r: Option<seq<byte>>)
    decreases |bs|
  {
    if bs == [] then Some([])
    else if bs[0] != PERCENT then
      match PercentDecode(bs[1..])
      case None => None
      case Some(rest) => Some([bs[0]] + rest)
    else if |bs| >= 3 && IsHexDigit(bs[1]) && IsHexDigit(bs[2]) then
      match PercentDecode(bs[3..])
      case None => None
      case Some(rest) => Some([HexValue(bs[1]) * 16 + HexValue(bs[2])] + rest)
    else None
  }

  /** Decoding undoes encoding whenever "%" itself is escaped. */
  lemma {:induction false} DecodeEncode(bs: seq<byte>, allowed: set<byte>)
    requires PERCENT !in allowed
    ensures PercentDecode(PercentEncode(bs, allowed)) == Some(bs)
  {
    if bs != [] {
      var b, rest := bs[0], PercentEncode(bs[1..], allowed);
      DecodeEncode(bs[1..], allowed);
      assert PercentEncode(bs, allowed) == EncodeByte(b, allowed) + rest;
      if b in allowed {
        assert ([b] + rest)[1..] == rest;
      } else {
        var e := [PERCENT, HexDigit(b / 16), HexDigit(b % 16)] + rest;
        assert e[3..] == rest;
        assert HexValue(e[1]) * 16 + HexValue(e[2]) == b;
      }
      assert bs == [b] + bs[1..];
    }
  }

  /** Input made only of allowed bytes is left as it is. */
  lemma {:induction false} EncodeAllowedIsIdentity(bs: seq<byte>, allowed: set<byte>)
    requires forall i :: 0 <= i < |bs| ==> bs[i] in allowed
    ensures PercentEncode(bs, allowed) == bs
  {
    if bs != [] {
      EncodeAllowedIsIdentity(bs[1..], allowed);
      assert bs == [bs[0]] + bs[1..];
    }
  }

  /**
   * An allowed byte that is neither "%" nor a hexadecimal digit occurs in the
   * encoding exactly when it occurs in the input.
   */
  lemma {:induction false} EncodeKeepsOccurrence(bs: seq<byte>, allowed: set<byte>, b: byte)
    requires b in allowed && b != PERCENT && !IsUpperHexDigit(b)
    ensures b in PercentEncode(bs, allowed) <==> b in bs
  {
    if bs != [] {
      EncodeKeepsOccurrence(bs[1..], allowed, b);
      assert PercentEncode(bs, allowed) == EncodeByte(bs[0], allowed) + PercentEncode(bs[1..], allowed);
      assert bs == [bs[0]] + bs[1..];
    }
  }

  /**
   * The characters of Foundation's `.urlQueryAllowed`: what section 3.4 of
   * RFC 3986 admits in a query, that is the unreserved characters, the
   * sub-delimiters (`! $ & ' ( ) * + , ; =`) and `: @ / ?`. In particular
   * `&`, `=`, `?` and `/` are NOT escaped; the control characters (0x00 to
   * 0x1F and 0x7F), space, `"`, `#`, `%`, `<`, `>`, `[`, `\`, `]`, `^`,
   * `` ` ``, `{`, `|`, `}` and every non-ASCII byte are.
   */
  predicate IsQueryAllowed(b: byte) {
    || 65 <= b <= 90 || 97 <= b <= 122 || 48 <= b <= 57     // ALPHA DIGIT
    || b == 45 || b == 46 || b == 95 || b == 126           // - . _ ~
    || b == 33 || b == 36 || 38 <= b <= 44 || b == 59 || b == 61   // ! $ & ' ( ) * + , ; =
    || b == 58 || b == 64 || b == 47 || b == 63            // : @ / ?
  }

  const UrlQueryAllowed: set<byte> := set b: byte | 0 <= b < 128 && IsQueryAllowed(b)

  /** The allowed set is ASCII and does not admit "%", so encoding is invertible. */
  lemma UrlQueryAllowedFacts()
    ensures PERCENT !in UrlQueryAllowed
    ensures forall b :: b in UrlQueryAllowed ==> b < 128
    ensures Ascii('&') in UrlQueryAllowed && Ascii('=') in UrlQueryAllowed
    ensures Ascii('?') in UrlQueryAllowed && Ascii('/') in UrlQueryAllowed
    ensures Ascii(' ') !in UrlQueryAllowed && Ascii('"') !in UrlQueryAllowed && Ascii('\\') !in UrlQueryAllowed
  {
  }

  /**
   * `value.addingPercentEncoding(withAllowedCharacters: .urlQueryAllowed)`.
   * The result is optional in Swift; for a Swift string (always valid
   * Unicode) it is present.
   */
  function EncodeQueryValue(s: string): (r: Option<string>)
    ensures r.Some?
    ensures forall i :: 0 <= i < |r.value| ==> r.value[i] as int < 128
    ensures PercentDecode(Codes(r.value)) == Some(Utf8(s))
    ensures '"' !in r.value && '\\' !in r.value
  {
    var e := PercentEncode(Utf8(s), UrlQueryAllowed);
    UrlQueryAllowedFacts();
    DecodeEncode(Utf8(s), UrlQueryAllowed);
    TextRoundTrip(e);
    Some(Text(e))
  }

  /** Decoding an encoded value gives back that value and no other string. */
  lemma EncodeQueryValueRoundTrip(s: string, t: string)
    ensures PercentDecode(Codes(EncodeQueryValue(s).value)) == Some(Utf8(t)) <==> t == s
  {
    if PercentDecode(Codes(EncodeQueryValue(s).value)) == Some(Utf8(t)) {
      Utf8Injective(s, t);
    }
  }

  /** A value made only of allowed ASCII characters is not changed. */
  lemma EncodeQueryValueKeepsAllowed(s: string)
    requires forall i :: 0 <= i < |s| ==> s[i] as int < 128 && IsQueryAllowed(Ascii(s[i]))
    ensures EncodeQueryValue(s) == Some(s)
  {
    Utf8OfAscii(s);
    forall i | 0 <= i < |s| ensures Utf8(s)[i] in UrlQueryAllowed {
      assert Utf8(s)[i] == Ascii(s[i]);
    }
    EncodeAllowedIsIdentity(Utf8(s), UrlQueryAllowed);
    assert Text(Utf8(s)) == s;
  }

  /** `&` is in the encoded value exactly when it is in the value: it is never escaped. */
  lemma EncodedHasAmpersand(s: string)
    ensures '&' in EncodeQueryValue(s).value <==> '&' in s
  {
    var e := PercentEncode(Utf8(s), UrlQueryAllowed);
    UrlQueryAllowedFacts();
    EncodeKeepsOccurrence(Utf8(s), UrlQueryAllowed, Ascii('&'));
    Utf8HasAsciiByte(s, '&');
    assert '&' in Text(e) ==> Ascii('&') in e;
    assert Ascii('&') in e ==> '&' in Text(e);
  }

  /** `&`, `=`, `?` and `/` stay as they are. */
  lemma EncodeQueryValueKeepsDelimiters()
    ensures EncodeQueryValue("&=?/") == Some("&=?/")
  {
    var s := "&=?/";
    assert s[0] == '&' && s[1] == '=' && s[2] == '?' && s[3] == '/';
    assert IsQueryAllowed(38) && IsQueryAllowed(61) && IsQueryAllowed(63) && IsQueryAllowed(47);
    EncodeQueryValueKeepsAllowed(s);
  }

  /** A space becomes "%20". */
  lemma EncodeQueryValueEscapesSpace()
    ensures EncodeQueryValue("a b") == Some("a%20b")
  {
    var u := Utf8("a b");
    assert u == [97, 32, 98] by {
      assert "a b"[1..] == " b" && " b"[1..] == "b" && "b"[1..] == "";
    }
    UrlQueryAllowedFacts();
    assert 97 in UrlQueryAllowed && 98 in UrlQueryAllowed && 32 !in UrlQueryAllowed;
    var tail := PercentEncode([98], UrlQueryAllowed);
    assert tail == [98] by {
      assert PercentEncode([98], UrlQueryAllowed) == EncodeByte(98, UrlQueryAllowed) + PercentEncode([], UrlQueryAllowed);
    }
    var mid := PercentEncode([32, 98], UrlQueryAllowed);
    assert mid == [37, 50, 48, 98] by {
      assert [32, 98][1..] == [98];
      assert mid == EncodeByte(32, UrlQueryAllowed) + tail;
    }
    var e := PercentEncode(u, UrlQueryAllowed);
    assert e == [97, 37, 50, 48, 98] by {
      assert u[1..] == [32, 98];
      assert e == EncodeByte(97, UrlQueryAllowed) + mid;
    }
    assert Text(e) == "a%20b";
  }
}
