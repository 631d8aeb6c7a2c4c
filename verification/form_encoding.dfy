/** Percent-encoding of one URL path segment the way the external API client
    builds it: `URLEncoder.encode(text, "UTF-8")` (the
    `application/x-www-form-urlencoded` scheme, which writes a space as `+`)
    followed by `.replace("+", "%20")`. The result is proved to keep
    URLEncoder's safe set (alphanumerics and `. - * _`) and to escape every
    other UTF-8 byte as `%XY` in uppercase hex, to contain no `+`, `/` or
    space, and to decode back to the UTF-8 bytes of the text. */
module FormEncoding {
  import opened Wrappers

  type Byte = x: int | 0 <= x < 256

  /** Characters `URLEncoder` leaves as they are. */
  predicate IsFormSafe(c: char) {
    ('a' <= c <= 'z') || ('A' <= c <= 'Z') || ('0' <= c <= '9') ||
    c == '.' || c == '-' || c == '*' || c == '_'
  }

  /** UTF-8 bytes of one Unicode scalar value. */
  function Utf8(c: char): (bs: seq<Byte>)
    ensures 1 <= |bs| <= 4
    ensures |bs| == 1 <==> (c as int) < 0x80
    ensures |bs| == 1 ==> bs[0] == c as int
  {
    var cp := c as int;
    if cp < 0x80 then [cp]
    else if cp < 0x800 then [0xC0 + cp / 64, 0x80 + cp % 64]
    else if cp < 0x1_0000 then [0xE0 + cp / 4096, 0x80 + (cp / 64) % 64, 0x80 + cp % 64]
    else [0xF0 + cp / 262144, 0x80 + (cp / 4096) % 64, 0x80 + (cp / 64) % 64, 0x80 + cp % 64]
  }

  function Utf8String(s: string): seq<Byte> {
    if |s| == 0 then [] else Utf8(s[0]) + Utf8String(s[1..])
  }

  predicate IsHex(c: char) {
    ('0' <= c <= '9') || ('A' <= c <= 'F') || ('a' <= c <= 'f')
  }

  /** Upper-case hexadecimal digit, as `URLEncoder` writes it. */
  function HexDigit(v: nat): (c: char)
    requires v < 16
    ensures IsHex(c)
  {
    "0123456789ABCDEF"[v]
  }

  function HexValue(c: char): (v: nat)
    requires IsHex(c)
    ensures v < 16
  {
    if '0' <= c <= '9' then (c as int) - ('0' as int)
    else if 'A' <= c <= 'F' then (c as int) - ('A' as int) + 10
    else (c as int) - ('a' as int) + 10
  }

  lemma HexRoundTrip(v: nat)
    requires v < 16
    ensures HexValue(HexDigit(v)) == v
  {
  }

  /** `%XY` for every byte. */
  function PercentBytes(bs: seq<Byte>): (s: string)
    ensures |s| == 3 * |bs|
  {
    if |bs| == 0 then []
    else ['%', HexDigit(bs[0] / 16), HexDigit(bs[0] % 16)] + PercentBytes(bs[1..])
  }

  /** Characters that can appear in an escape: `%` and hexadecimal digits. */
  predicate IsEscapeChar(c: char) {
    c == '%' || IsHex(c)
  }

  lemma {:induction false} PercentBytesChars(bs: seq<Byte>)
    ensures forall i :: 0 <= i < |PercentBytes(bs)| ==> IsEscapeChar(PercentBytes(bs)[i])
  {
    if |bs| > 0 {
      PercentBytesChars(bs[1..]);
      var head := ['%', HexDigit(bs[0] / 16), HexDigit(bs[0] % 16)];
      assert PercentBytes(bs) == head + PercentBytes(bs[1..]);
    }
  }

  /** One character as `URLEncoder.encode` writes it. */
  function FormEncodeChar(c: char): string {
    if IsFormSafe(c) then [c]
    else if c == ' ' then "+"
    else PercentBytes(Utf8(c))
  }

  /** `URLEncoder.encode(s, "UTF-8")`. */
  function FormEncode(s: string): string {
    if |s| == 0 then [] else FormEncodeChar(s[0]) + FormEncode(s[1..])
  }

  /** `String.replace("+", "%20")`: every `+` becomes `%20`. */
  function ReplacePlus(s: string): (r: string)
    ensures forall i :: 0 <= i < |r| ==> r[i] != '+'
    ensures '+' !in s ==> r == s
  {
    if |s| == 0 then []
    else (if s[0] == '+' then "%20" else [s[0]]) + ReplacePlus(s[1..])
  }

  /** The encoding of an activity text as it appears in the request URL. */
  function EncodeSegment(s: string): string {
    ReplacePlus(FormEncode(s))
  }

  /** Reference definition: URLEncoder's safe set (alphanumerics and
      `. - * _`) kept, every other UTF-8 byte escaped as `%XY` in uppercase
      hex, space included. */
  function PercentEncodeChar(c: char): string {
    if IsFormSafe(c) then [c] else PercentBytes(Utf8(c))
  }

  function PercentEncode(s: string): string {
    if |s| == 0 then [] else PercentEncodeChar(s[0]) + PercentEncode(s[1..])
  }

  lemma {:induction false} ReplacePlusAppend(a: string, b: string)
    ensures ReplacePlus(a + b) == ReplacePlus(a) + ReplacePlus(b)
  {
    if |a| > 0 {
      assert (a + b)[1..] == a[1..] + b;
      ReplacePlusAppend(a[1..], b);
    } else {
      assert a + b == b;
    }
  }

  lemma ReplacePlusChar(c: char)
    ensures ReplacePlus(FormEncodeChar(c)) == PercentEncodeChar(c)
  {
    if !IsFormSafe(c) && c != ' ' {
      var e := PercentBytes(Utf8(c));
      PercentBytesChars(Utf8(c));
      assert forall i :: 0 <= i < |e| ==> e[i] != '+';
    } else if c == ' ' {
      assert Utf8(c) == [32];
      assert PercentBytes([32]) == "%20";
    }
  }

  /** Form-encoding then turning `+` into `%20` is exactly the percent-encoding
      of every non-safe character. */
  lemma {:induction false} EncodeSegmentIsPercentEncode(s: string)
    ensures EncodeSegment(s) == PercentEncode(s)
  {
    if |s| > 0 {
      ReplacePlusAppend(FormEncodeChar(s[0]), FormEncode(s[1..]));
      ReplacePlusChar(s[0]);
      EncodeSegmentIsPercentEncode(s[1..]);
    }
  }

  /** Every character of an encoded segment is form-safe or part of an escape;
      in particular no `+`, `/` or space survives. */
  lemma {:induction false} PercentEncodeChars(s: string)
    ensures forall i :: 0 <= i < |PercentEncode(s)| ==>
      IsFormSafe(PercentEncode(s)[i]) || IsEscapeChar(PercentEncode(s)[i])
  {
    if |s| > 0 {
      PercentEncodeChars(s[1..]);
      if !IsFormSafe(s[0]) {
        PercentBytesChars(Utf8(s[0]));
      }
      var e := PercentEncode(s);
      var h := PercentEncodeChar(s[0]);
      assert e == h + PercentEncode(s[1..]);
      forall i | 0 <= i < |e|
        ensures IsFormSafe(e[i]) || IsEscapeChar(e[i])
      {
        if i >= |h| {
          assert e[i] == PercentEncode(s[1..])[i - |h|];
        }
      }
    }
  }

  lemma EncodeSegmentHasNoDelimiters(s: string)
    ensures '+' !in EncodeSegment(s)
    ensures '/' !in EncodeSegment(s)
    ensures ' ' !in EncodeSegment(s)
  {
    EncodeSegmentIsPercentEncode(s);
    PercentEncodeChars(s);
  }

  function Prepend(bs: seq<Byte>, o: Option<seq<Byte>>): Option<seq<Byte>> {
    match o
    case Some(v) => Some(bs + v)
    case None => None
  }

  /** Percent-decoding of a path segment: `%XY` is one byte, an ASCII
      character stands for itself, anything else is malformed. */
  function PercentDecode(s: string): Option<seq<Byte>>
    decreases |s|
  {
    if |s| == 0 then Some([])
    else if s[0] == '%' then
      if |s| >= 3 && IsHex(s[1]) && IsHex(s[2])
      then Prepend([HexValue(s[1]) * 16 + HexValue(s[2])], PercentDecode(s[3..]))
      else None
    else if (s[0] as int) < 0x80 then Prepend([s[0] as int], PercentDecode(s[1..]))
    else None
  }

  lemma DecodeEscape(b: Byte, rest: string)
    ensures PercentDecode(['%', HexDigit(b / 16), HexDigit(b % 16)] + rest)
         == Prepend([b], PercentDecode(rest))
  {
    var u := ['%', HexDigit(b / 16), HexDigit(b % 16)] + rest;
    HexRoundTrip(b / 16);
    HexRoundTrip(b % 16);
    assert u[3..] == rest;
  }

  lemma PrependTwice(a: seq<Byte>, b: seq<Byte>, o: Option<seq<Byte>>)
    ensures Prepend(a, Prepend(b, o)) == Prepend(a + b, o)
  {
    if o.Some? {
      assert a + (b + o.value) == (a + b) + o.value;
    }
  }

  lemma {:induction false} DecodePercentBytes(bs: seq<Byte>, t: string)
    ensures PercentDecode(PercentBytes(bs) + t) == Prepend(bs, PercentDecode(t))
  {
    if |bs| == 0 {
      assert PercentBytes(bs) + t == t;
      var d := PercentDecode(t);
      if d.Some? {
        assert bs + d.value == d.value;
      }
    } else {
      var b := bs[0];
      var rest := PercentBytes(bs[1..]) + t;
      assert PercentBytes(bs) + t == ['%', HexDigit(b / 16), HexDigit(b % 16)] + rest;
      DecodeEscape(b, rest);
      DecodePercentBytes(bs[1..], t);
      PrependTwice([b], bs[1..], PercentDecode(t));
      assert [b] + bs[1..] == bs;
    }
  }

  /** Decoding an encoded segment gives back the UTF-8 bytes of the text:
      the encoding loses nothing. */
  lemma {:induction false} PercentRoundTrip(s: string)
    ensures PercentDecode(PercentEncode(s)) == Some(Utf8String(s))
  {
    if |s| > 0 {
      PercentRoundTrip(s[1..]);
      var c := s[0];
      if IsFormSafe(c) {
        var u := PercentEncode(s);
        assert u == [c] + PercentEncode(s[1..]);
        assert u[1..] == PercentEncode(s[1..]);
      } else {
        DecodePercentBytes(Utf8(c), PercentEncode(s[1..]));
      }
    }
  }

  /** The segment the client puts in the URL decodes to the UTF-8 of the text. */
  lemma EncodeSegmentRoundTrip(s: string)
    ensures PercentDecode(EncodeSegment(s)) == Some(Utf8String(s))
  {
    EncodeSegmentIsPercentEncode(s);
    PercentRoundTrip(s);
  }
}
