/**
  JavaScript's `encodeURIComponent`, which the composer applies to every value it
  puts into a `mailto:` link or a form body, and `decodeURIComponent` as the
  reference inverse.  A character outside the unreserved set is written as the
  UTF-8 bytes of its code point, each as `%` and two upper-case hexadecimal digits.
  Dafny characters are Unicode scalar values, so the lone surrogates on which
  `encodeURIComponent` throws cannot occur.
 */
module UriComponent {
  import opened Common

  type Byte = b: int | 0 <= b < 256

  /** The characters `encodeURIComponent` leaves alone: letters, digits and `-_.!~*'()`. */
  predicate Unreserved(c: char) {
    ('A' <= c <= 'Z') || ('a' <= c <= 'z') || ('0' <= c <= '9')
    || c == '-' || c == '_' || c == '.' || c == '!' || c == '~' || c == '*' || c == '\'' || c == '(' || c == ')'
  }

  // ---------------------------------------------------------------------------
  // UTF-8
  // ---------------------------------------------------------------------------

  /** The UTF-8 encoding of one code point: one to four bytes. */
  function Utf8(c: char): (bs: seq<Byte>)
    ensures 1 <= |bs| <= 4
  {
    var v := c as int;
    if v < 0x80 then [v]
    else if v < 0x800 then [0xC0 + v / 64, 0x80 + v % 64]
    else if v < 0x10000 then [0xE0 + v / 4096, 0x80 + (v / 64) % 64, 0x80 + v % 64]
    else [0xF0 + v / 262144, 0x80 + (v / 4096) % 64, 0x80 + (v / 64) % 64, 0x80 + v % 64]
  }

  /** The length of the UTF-8 sequence a lead byte announces, or 0 when it cannot start one. */
  function SequenceLength(b: Byte): (n: nat)
    ensures n <= 4
  {
    if b < 0x80 then 1
    else if 0xC0 <= b < 0xE0 then 2
    else if 0xE0 <= b < 0xF0 then 3
    else if 0xF0 <= b < 0xF8 then 4
    else 0
  }

  predicate Continuation(b: Byte) {
    0x80 <= b < 0xC0
  }

  /** The smallest code point that needs `n` bytes: shorter (overlong) forms are refused. */
  function MinCodePoint(n: nat): int {
    if n <= 1 then 0 else if n == 2 then 0x80 else if n == 3 then 0x800 else 0x10000
  }

  /** The code point of a whole UTF-8 sequence, or None when the bytes are not a valid encoding. */
  function DecodeUtf8(bs: seq<Byte>): (r: Option<char>)
  {
    if |bs| == 0 || SequenceLength(bs[0]) != |bs| then None
    else if exists i :: 1 <= i < |bs| && !Continuation(bs[i]) then None
    else
      var v :=
        if |bs| == 1 then bs[0] as int
        else if |bs| == 2 then (bs[0] as int - 0xC0) * 64 + (bs[1] as int - 0x80)
        else if |bs| == 3 then (bs[0] as int - 0xE0) * 4096 + (bs[1] as int - 0x80) * 64 + (bs[2] as int - 0x80)
        else (bs[0] as int - 0xF0) * 262144 + (bs[1] as int - 0x80) * 4096 + (bs[2] as int - 0x80) * 64 + (bs[3] as int - 0x80);
      if v < MinCodePoint(|bs|) || v >= 0x110000 || (0xD800 <= v < 0xE000) then None
      else Some(v as char)
  }

  lemma Utf8Two(v: int)
    requires 0x80 <= v < 0x800
    ensures 0xC0 <= 0xC0 + v / 64 < 0xE0 && 0x80 <= 0x80 + v % 64 < 0xC0
    ensures v / 64 * 64 + v % 64 == v
  {
  }

  lemma Utf8Three(v: int)
    requires 0x800 <= v < 0x10000
    ensures 0xE0 <= 0xE0 + v / 4096 < 0xF0
    ensures 0 <= (v / 64) % 64 < 64 && 0 <= v % 64 < 64
    ensures v / 4096 * 4096 + (v / 64) % 64 * 64 + v % 64 == v
  {
    var q := v / 64;
    assert v == q * 64 + v % 64;
    assert q == (q / 64) * 64 + q % 64;
    assert q / 64 == v / 4096;
  }

  lemma Utf8Four(v: int)
    requires 0x10000 <= v < 0x110000
    ensures 0xF0 <= 0xF0 + v / 262144 < 0xF8
    ensures 0 <= (v / 4096) % 64 < 64 && 0 <= (v / 64) % 64 < 64 && 0 <= v % 64 < 64
    ensures v / 262144 * 262144 + (v / 4096) % 64 * 4096 + (v / 64) % 64 * 64 + v % 64 == v
  {
    var q := v / 64;
    var p := q / 64;
    assert v == q * 64 + v % 64;
    assert q == p * 64 + q % 64;
    assert p == (p / 64) * 64 + p % 64;
    assert p == v / 4096;
    assert p / 64 == v / 262144;
  }

  /** Decoding the UTF-8 encoding of a character gives the character back. */
  lemma DecodeUtf8OfUtf8(c: char)
    ensures SequenceLength(Utf8(c)[0]) == |Utf8(c)|
    ensures DecodeUtf8(Utf8(c)) == Some(c)
  {
    var v := c as int;
    var bs := Utf8(c);
    if v < 0x80 {
    } else if v < 0x800 {
      Utf8Two(v);
    } else if v < 0x10000 {
      Utf8Three(v);
    } else {
      Utf8Four(v);
    }
  }

  // ---------------------------------------------------------------------------
  // Percent-encoding
  // ---------------------------------------------------------------------------

  /** An upper-case hexadecimal digit, as `encodeURIComponent` writes it. */
  function HexDigit(d: nat): (c: char)
    requires d < 16
    ensures Unreserved(c)
  {
    if d < 10 then ('0' as int + d) as char else ('A' as int + d - 10) as char
  }

  /** The value of a hexadecimal digit of either case. */
  function HexValue(c: char): (r: Option<nat>)
    ensures r.Some? ==> r.value < 16
  {
    if '0' <= c <= '9' then Some(c as int - '0' as int)
    else if 'A' <= c <= 'F' then Some(c as int - 'A' as int + 10)
    else if 'a' <= c <= 'f' then Some(c as int - 'a' as int + 10)
    else None
  }

  lemma HexValueOfDigit(d: nat)
    requires d < 16
    ensures HexValue(HexDigit(d)) == Some(d)
  {
  }

  function PercentByte(b: Byte): (r: string)
    ensures |r| == 3 && r[0] == '%'
  {
    ['%', HexDigit(b / 16), HexDigit(b % 16)]
  }

  function PercentBytes(bs: seq<Byte>): (r: string)
    ensures |r| == 3 * |bs|
  {
    if bs == [] then [] else PercentByte(bs[0]) + PercentBytes(bs[1..])
  }

  /** One character as `encodeURIComponent` writes it. */
  function EncodeChar(c: char): (r: string)
    ensures |r| >= 1
  {
    if Unreserved(c) then [c] else PercentBytes(Utf8(c))
  }

  /** `encodeURIComponent(s)`. */
  function Encode(s: string): (r: string)
    ensures |r| >= |s|
  {
    if s == [] then [] else EncodeChar(s[0]) + Encode(s[1..])
  }

  /** The output holds only unreserved characters and `%`: no `&`, `=`, `+`, `?` or space survives. */
  lemma {:induction false} EncodeAlphabet(s: string)
    ensures forall i :: 0 <= i < |Encode(s)| ==> Unreserved(Encode(s)[i]) || Encode(s)[i] == '%'
  {
    if s != [] {
      EncodeAlphabet(s[1..]);
      var c := s[0];
      if !Unreserved(c) {
        PercentBytesAlphabet(Utf8(c));
      }
    }
  }

  lemma {:induction false} PercentBytesAlphabet(bs: seq<Byte>)
    ensures forall i :: 0 <= i < |PercentBytes(bs)| ==> Unreserved(PercentBytes(bs)[i]) || PercentBytes(bs)[i] == '%'
  {
    if bs != [] {
      PercentBytesAlphabet(bs[1..]);
    }
  }

  /** A string of unreserved characters is its own encoding. */
  lemma {:induction false} EncodeUnreserved(s: string)
    requires forall i :: 0 <= i < |s| ==> Unreserved(s[i])
    ensures Encode(s) == s
  {
    if s != [] {
      EncodeUnreserved(s[1..]);
      assert s == [s[0]] + s[1..];
    }
  }

  // ---------------------------------------------------------------------------
  // decodeURIComponent
  // ---------------------------------------------------------------------------

  /** Reads `n` consecutive `%XX` groups from the start of `s`. */
  function ReadBytes(s: string, n: nat): (r: Option<seq<Byte>>)
    ensures r.Some? ==> |r.value| == n && 3 * n <= |s|
  {
    if n == 0 then Some([])
    else if |s| < 3 || s[0] != '%' || HexValue(s[1]).None? || HexValue(s[2]).None? then None
    else match ReadBytes(s[3..], n - 1)
      case None => None
      case Some(rest) => Some([HexValue(s[1]).value * 16 + HexValue(s[2]).value] + rest)
  }

  /**
    `decodeURIComponent(s)`: every `%XX` group is a byte, consecutive bytes form
    one UTF-8 sequence, and anything malformed makes the whole call fail (URIError).
   */
  function Decode(s: string): (r: Option<string>)
    decreases |s|
  {
    if s == [] then Some([])
    else if s[0] != '%' then
      match Decode(s[1..])
      case None => None
      case Some(t) => Some([s[0]] + t)
    else
      match ReadBytes(s, 1)
      case None => None
      case Some(lead) =>
        var n := SequenceLength(lead[0]);
        if n == 0 then None
        else match ReadBytes(s, n)
          case None => None
          case Some(bs) =>
            match DecodeUtf8(bs)
            case None => None
            case Some(c) =>
              match Decode(s[3 * n..])
              case None => None
              case Some(t) => Some([c] + t)
  }

  lemma {:induction false} ReadPercentBytes(bs: seq<Byte>, rest: string, n: nat)
    requires 1 <= n <= |bs|
    ensures ReadBytes(PercentBytes(bs) + rest, n) == Some(bs[..n])
  {
    var s := PercentBytes(bs) + rest;
    var b := bs[0];
    assert s[..3] == PercentByte(b);
    assert s[1] == HexDigit(b / 16) && s[2] == HexDigit(b % 16);
    HexValueOfDigit(b / 16);
    HexValueOfDigit(b % 16);
    assert HexValue(s[1]).value * 16 + HexValue(s[2]).value == b;
    if n > 1 {
      assert s[3..] == PercentBytes(bs[1..]) + rest;
      ReadPercentBytes(bs[1..], rest, n - 1);
      assert bs[..n] == [b] + bs[1..][..n - 1];
    } else {
      assert ReadBytes(s[3..], 0) == Some([]);
      assert bs[..1] == [b] + [];
    }
  }

  /** Decoding the encoding of one character followed by anything decodes that character first. */
  lemma DecodeEncodeChar(c: char, rest: string)
    ensures Decode(EncodeChar(c) + rest) == match Decode(rest) case None => None case Some(t) => Some([c] + t)
  {
    var s := EncodeChar(c) + rest;
    if Unreserved(c) {
      assert s[1..] == rest;
    } else {
      var bs := Utf8(c);
      DecodeUtf8OfUtf8(c);
      ReadPercentBytes(bs, rest, 1);
      ReadPercentBytes(bs, rest, |bs|);
      assert bs[..|bs|] == bs;
      assert s[3 * |bs|..] == rest;
    }
  }

  /** `decodeURIComponent(encodeURIComponent(s)) == s` for every string. */
  lemma {:induction false} DecodeEncode(s: string)
    ensures Decode(Encode(s)) == Some(s)
  {
    if s != [] {
      calc {
        Decode(Encode(s));
        Decode(EncodeChar(s[0]) + Encode(s[1..]));
      == { DecodeEncodeChar(s[0], Encode(s[1..])); DecodeEncode(s[1..]); }
        Some([s[0]] + s[1..]);
      == { assert s == [s[0]] + s[1..]; }
        Some(s);
      }
    }
  }

  /** A string without `%` decodes to itself. */
  lemma {:induction false} DecodePlain(s: string)
    requires '%' !in s
    ensures Decode(s) == Some(s)
  {
    if s != [] {
      DecodePlain(s[1..]);
      assert s == [s[0]] + s[1..];
    }
  }
}
