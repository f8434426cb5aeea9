/** `encodeURIComponent` as ECMAScript defines it (section 19.2.6.5 of
    ECMA-262): every character outside the unreserved set is replaced by the
    `%XY` escapes of its UTF-8 bytes, with upper-case hexadecimal digits. The
    partner of the encoder is `Decode`, a model of `decodeURIComponent`, which
    rejects malformed escapes and invalid UTF-8; `DecodeEncode` proves that
    decoding undoes encoding. */
module Uri {
  import opened Wrappers

  type Byte = b: int | 0 <= b < 256

  /** The characters `encodeURIComponent` leaves alone: ASCII letters and
      digits and the marks `- _ . ! ~ * ' ( )`. */
  predicate IsUnreserved(c: char) {
    || ('A' <= c <= 'Z') || ('a' <= c <= 'z') || ('0' <= c <= '9')
    || c == '-' || c == '_' || c == '.' || c == '!' || c == '~'
    || c == '*' || c == '\'' || c == '(' || c == ')'
  }

  /** Upper-case hexadecimal digit of a value below 16. */
  function HexDigit(n: int): (c: char)
    requires 0 <= n < 16
    ensures IsUnreserved(c)
    ensures n < 10 ==> c as int == '0' as int + n
    ensures n >= 10 ==> c as int == 'A' as int + n - 10
  {
    if n < 10 then ('0' as int + n) as char else ('A' as int + n - 10) as char
  }

  /** Value of a hexadecimal digit of either case. */
  function HexValue(c: char): (r: Option<int>)
    ensures r.Some? ==> 0 <= r.value < 16
  {
    if '0' <= c <= '9' then Some(c as int - '0' as int)
    else if 'A' <= c <= 'F' then Some(c as int - 'A' as int + 10)
    else if 'a' <= c <= 'f' then Some(c as int - 'a' as int + 10)
    else None
  }

  lemma HexRoundTrip(n: int)
    requires 0 <= n < 16
    ensures HexValue(HexDigit(n)) == Some(n)
  {
  }

  /** The three-character escape `%XY` of one byte. */
  function Escape(b: Byte): string {
    ['%', HexDigit(b / 16), HexDigit(b % 16)]
  }

  /** The UTF-8 encoding of a Unicode scalar value: one to four bytes, the
      first announcing the length, the others of the form 10xxxxxx. */
  function Utf8(c: char): (bs: seq<Byte>)
    ensures 1 <= |bs| <= 4
    ensures |bs| == 1 <==> c as int < 0x80
    ensures forall k :: 1 <= k < |bs| ==> 0x80 <= bs[k] < 0xC0
  {
    var cp := c as int;
    if cp < 0x80 then [cp]
    else if cp < 0x800 then [0xC0 + cp / 64, 0x80 + cp % 64]
    else if cp < 0x10000 then [0xE0 + cp / 4096, 0x80 + (cp / 64) % 64, 0x80 + cp % 64]
    else [0xF0 + cp / 262144, 0x80 + (cp / 4096) % 64, 0x80 + (cp / 64) % 64, 0x80 + cp % 64]
  }

  function EscapeAll(bs: seq<Byte>): (r: string)
    ensures |r| == 3 * |bs|
  {
    if bs == [] then [] else Escape(bs[0]) + EscapeAll(bs[1..])
  }

  /** `encodeURIComponent` of one character. */
  function EncodeChar(c: char): string {
    if IsUnreserved(c) then [c] else EscapeAll(Utf8(c))
  }

  /** `encodeURIComponent(s)`. Its output consists of unreserved characters
      and `%` only, so it never contains a query delimiter (`?`, `&`, `=`,
      `#`) or a space; it is `s` itself exactly when `s` needs no escaping. */
  function Encode(s: string): (r: string)
    ensures forall k :: 0 <= k < |r| ==> IsUnreserved(r[k]) || r[k] == '%'
    ensures |r| >= |s|
    ensures r == s <==> forall k :: 0 <= k < |s| ==> IsUnreserved(s[k])
  {
    if s == [] then []
    else
      var head := EncodeChar(s[0]);
      var tail := Encode(s[1..]);
      assert forall k :: 0 <= k < |head| ==> IsUnreserved(head[k]) || head[k] == '%' by {
        if !IsUnreserved(s[0]) { EscapeAllAlphabet(Utf8(s[0])); }
      }
      assert |head| == 1 <==> IsUnreserved(s[0]);
      assert head + tail == s <==> IsUnreserved(s[0]) && tail == s[1..];
      assert (forall k :: 0 <= k < |s| ==> IsUnreserved(s[k]))
         <==> IsUnreserved(s[0]) && (forall k :: 0 <= k < |s[1..]| ==> IsUnreserved(s[1..][k])) by {
        if forall k :: 0 <= k < |s[1..]| ==> IsUnreserved(s[1..][k]) {
          assert forall k :: 1 <= k < |s| ==> s[k] == s[1..][k - 1];
        }
      }
      head + tail
  }

  lemma {:induction false} EscapeAllAlphabet(bs: seq<Byte>)
    ensures forall k :: 0 <= k < |EscapeAll(bs)| ==> IsUnreserved(EscapeAll(bs)[k]) || EscapeAll(bs)[k] == '%'
    ensures bs != [] ==> EscapeAll(bs)[0] == '%'
  {
    if bs != [] {
      EscapeAllAlphabet(bs[1..]);
    }
  }

  /** Encoding distributes over concatenation. */
  lemma {:induction false} EncodeAppend(a: string, b: string)
    ensures Encode(a + b) == Encode(a) + Encode(b)
  {
    if a == [] {
      assert a + b == b;
    } else {
      assert (a + b)[1..] == a[1..] + b;
      EncodeAppend(a[1..], b);
    }
  }

  /** An encoded string contains none of the characters that delimit URL
      parts or HTML attribute values. */
  lemma EncodeAvoids(s: string, c: char)
    requires !IsUnreserved(c) && c != '%'
    ensures c !in Encode(s)
  {
  }

  /** A space is sent as `%20`. */
  lemma EncodeSpace()
    ensures Encode(" ") == "%20"
  {
    assert Utf8(' ') == [32];
    assert EscapeAll([32]) == Escape(32);
  }

  // ---------------------------------------------------------------------
  // Decoding

  datatype Decoded = Decoded(c: char, rest: string)

  /** Reads one escape `%XY` off the front of `s`. */
  function ReadByte(s: string): (r: Option<(Byte, string)>)
    ensures r.Some? ==> |r.value.1| == |s| - 3
  {
    if |s| < 3 || s[0] != '%' then None
    else match (HexValue(s[1]), HexValue(s[2]))
      case (Some(hi), Some(lo)) => Some((hi * 16 + lo, s[3..]))
      case _ => None
  }

  /** Reads one escaped continuation byte 10xxxxxx and returns its six
      payload bits. */
  function ReadContinuation(s: string): (r: Option<(int, string)>)
    ensures r.Some? ==> 0 <= r.value.0 < 64 && |r.value.1| == |s| - 3
  {
    match ReadByte(s)
    case Some((b, rest)) => if 0x80 <= b < 0xC0 then Some((b - 0x80, rest)) else None
    case None => None
  }

  /** A code point completed from its multi-byte form is accepted only when it
      is not overlong, not a surrogate and not beyond U+10FFFF. */
  function Accept(cp: int, least: nat, rest: string): Option<Decoded> {
    if least <= cp <= 0x10FFFF && !(0xD800 <= cp <= 0xDFFF) then Some(Decoded(cp as char, rest)) else None
  }

  /** Decodes the escaped UTF-8 sequence at the front of `s` to one character. */
  function DecodeEscaped(s: string): (r: Option<Decoded>)
    ensures r.Some? ==> |r.value.rest| < |s|
  {
    match ReadByte(s)
    case None => None
    case Some((b0, s1)) =>
      if b0 < 0x80 then Some(Decoded(b0 as char, s1))
      else if b0 < 0xC0 then None
      else match ReadContinuation(s1)
        case None => None
        case Some((p1, s2)) =>
          if b0 < 0xE0 then Accept((b0 - 0xC0) * 64 + p1, 0x80, s2)
          else match ReadContinuation(s2)
            case None => None
            case Some((p2, s3)) =>
              if b0 < 0xF0 then Accept((b0 - 0xE0) * 4096 + p1 * 64 + p2, 0x800, s3)
              else if b0 < 0xF8 then
                match ReadContinuation(s3)
                case None => None
                case Some((p3, s4)) => Accept((b0 - 0xF0) * 262144 + p1 * 4096 + p2 * 64 + p3, 0x10000, s4)
              else None
  }

  /** `decodeURIComponent(s)`; `None` where JavaScript throws `URIError`. */
  function Decode(s: string): Option<string>
    decreases |s|
  {
    if s == [] then Some([])
    else if s[0] != '%' then
      match Decode(s[1..])
      case Some(t) => Some([s[0]] + t)
      case None => None
    else
      match DecodeEscaped(s)
      case None => None
      case Some(Decoded(c, rest)) =>
        match Decode(rest)
        case Some(t) => Some([c] + t)
        case None => None
  }

  lemma ReadEscape(b: Byte, rest: string)
    ensures ReadByte(Escape(b) + rest) == Some((b, rest))
  {
    var s := Escape(b) + rest;
    HexRoundTrip(b / 16);
    HexRoundTrip(b % 16);
    assert s[1] == HexDigit(b / 16) && s[2] == HexDigit(b % 16);
    assert s[3..] == rest;
  }

  lemma ReadEscapedContinuation(b: Byte, rest: string)
    requires 0x80 <= b < 0xC0
    ensures ReadContinuation(Escape(b) + rest) == Some((b - 0x80, rest))
  {
    ReadEscape(b, rest);
  }

  /** The escaped UTF-8 bytes of a character decode back to it. */
  lemma DecodeEscapedUtf8(c: char, rest: string)
    ensures DecodeEscaped(EscapeAll(Utf8(c)) + rest) == Some(Decoded(c, rest))
  {
    var cp := c as int;
    if cp < 0x80 {
      ReadEscape(cp, rest);
      assert EscapeAll(Utf8(c)) == Escape(cp);
    } else if cp < 0x800 {
      DecodeTwo(c, rest);
    } else if cp < 0x10000 {
      DecodeThree(c, rest);
    } else {
      DecodeFour(c, rest);
    }
  }

  lemma DecodeTwo(c: char, rest: string)
    requires 0x80 <= c as int < 0x800
    ensures DecodeEscaped(EscapeAll(Utf8(c)) + rest) == Some(Decoded(c, rest))
  {
    var cp := c as int;
    var b0, b1 := 0xC0 + cp / 64, 0x80 + cp % 64;
    assert Utf8(c) == [b0, b1];
    assert EscapeAll(Utf8(c)) + rest == Escape(b0) + (Escape(b1) + rest);
    ReadEscape(b0, Escape(b1) + rest);
    ReadEscapedContinuation(b1, rest);
  }

  lemma DecodeThree(c: char, rest: string)
    requires 0x800 <= c as int < 0x10000
    ensures DecodeEscaped(EscapeAll(Utf8(c)) + rest) == Some(Decoded(c, rest))
  {
    var cp := c as int;
    var b0, b1, b2 := 0xE0 + cp / 4096, 0x80 + (cp / 64) % 64, 0x80 + cp % 64;
    assert Utf8(c) == [b0, b1, b2];
    assert [b0, b1, b2][1..] == [b1, b2] && [b1, b2][1..] == [b2] && [b2][1..] == [];
    assert EscapeAll([b2]) == Escape(b2);
    assert EscapeAll([b1, b2]) == Escape(b1) + Escape(b2);
    assert EscapeAll(Utf8(c)) + rest == Escape(b0) + (Escape(b1) + (Escape(b2) + rest));
    ReadEscape(b0, Escape(b1) + (Escape(b2) + rest));
    ReadEscapedContinuation(b1, Escape(b2) + rest);
    ReadEscapedContinuation(b2, rest);
    Split3(cp);
  }

  lemma DecodeFour(c: char, rest: string)
    requires 0x10000 <= c as int
    ensures DecodeEscaped(EscapeAll(Utf8(c)) + rest) == Some(Decoded(c, rest))
  {
    var cp := c as int;
    var b0, b1, b2, b3 := 0xF0 + cp / 262144, 0x80 + (cp / 4096) % 64, 0x80 + (cp / 64) % 64, 0x80 + cp % 64;
    assert Utf8(c) == [b0, b1, b2, b3];
    assert [b0, b1, b2, b3][1..] == [b1, b2, b3] && [b1, b2, b3][1..] == [b2, b3];
    assert [b2, b3][1..] == [b3] && [b3][1..] == [];
    assert EscapeAll([b3]) == Escape(b3);
    assert EscapeAll([b2, b3]) == Escape(b2) + Escape(b3);
    assert EscapeAll([b1, b2, b3]) == Escape(b1) + (Escape(b2) + Escape(b3));
    assert EscapeAll(Utf8(c)) + rest == Escape(b0) + (Escape(b1) + (Escape(b2) + (Escape(b3) + rest)));
    ReadEscape(b0, Escape(b1) + (Escape(b2) + (Escape(b3) + rest)));
    ReadEscapedContinuation(b1, Escape(b2) + (Escape(b3) + rest));
    ReadEscapedContinuation(b2, Escape(b3) + rest);
    ReadEscapedContinuation(b3, rest);
    Split4(cp);
  }

  /** Reassembling six-bit groups gives back the code point. */
  lemma Split3(cp: nat)
    ensures (cp / 4096) * 4096 + ((cp / 64) % 64) * 64 + cp % 64 == cp
  {
    assert cp == (cp / 64) * 64 + cp % 64;
    assert cp / 64 == (cp / 4096) * 64 + (cp / 64) % 64;
  }

  lemma Split4(cp: nat)
    ensures (cp / 262144) * 262144 + ((cp / 4096) % 64) * 4096 + ((cp / 64) % 64) * 64 + cp % 64 == cp
  {
    Split3(cp);
    assert cp / 4096 == (cp / 262144) * 64 + (cp / 4096) % 64;
  }

  /** Decoding the encoding of one character, followed by anything, yields
      that character and leaves the rest. */
  lemma DecodeEncodeChar(c: char, rest: string)
    ensures Decode(EncodeChar(c) + rest) == (match Decode(rest) case Some(t) => Some([c] + t) case None => None)
  {
    if IsUnreserved(c) {
      assert (EncodeChar(c) + rest)[1..] == rest;
    } else {
      DecodeEscapedUtf8(c, rest);
      EscapeAllAlphabet(Utf8(c));
    }
  }

  /** `decodeURIComponent(encodeURIComponent(s)) == s`: encoding loses
      nothing, and in particular is injective. */
  lemma {:induction false} DecodeEncode(s: string)
    ensures Decode(Encode(s)) == Some(s)
  {
    if s != [] {
      DecodeEncode(s[1..]);
      DecodeEncodeChar(s[0], Encode(s[1..]));
      assert [s[0]] + s[1..] == s;
    }
  }

  lemma EncodeInjective(a: string, b: string)
    requires Encode(a) == Encode(b)
    ensures a == b
  {
    DecodeEncode(a);
    DecodeEncode(b);
  }
}
