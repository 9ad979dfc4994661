/**
  Percent-encoding as `wrapQuery` uses it: `fullEncodeUri` (JavaScript's
  `encodeURIComponent` followed by the escaping of `! ' ( ) *`) and `decodeURIComponent`.

  A character is a Unicode scalar value, so it always has a UTF-8 encoding; the lone
  surrogates for which `encodeURIComponent` throws cannot occur. Decoding throws a
  `URIError` on a `%` that does not start a well-formed escape, and on escapes whose
  bytes are not the UTF-8 encoding of one character.
 */
module UriCodec {

  type byte = b: int | 0 <= b < 256

  datatype Option<T> = None | Some(value: T)

  /** What a JavaScript call produces: a string, or a thrown `URIError`. */
  datatype Outcome = Returns(value: string) | Throws

  /** Prefix a character to a result; a thrown error stays thrown. */
  function Cons(ch: char, o: Outcome): (r: Outcome)
    ensures o.Throws? <==> r.Throws?
    ensures o.Returns? ==> r.value == [ch] + o.value
  {
    match o
    case Returns(s) => Returns([ch] + s)
    case Throws => Throws
  }

  /** The UTF-8 encoding of a character: one to four bytes. */
  function Utf8(ch: char): (bs: seq<byte>)
    ensures 1 <= |bs| <= 4
    ensures |bs| == 1 <==> ch as int < 0x80
    ensures |bs| == 1 ==> bs[0] == ch as int
  {
    var n := ch as int;
    if n < 0x80 then [n]
    else if n < 0x800 then [0xC0 + n / 64, 0x80 + n % 64]
    else if n < 0x10000 then [0xE0 + n / 4096, 0x80 + n / 64 % 64, 0x80 + n % 64]
    else [0xF0 + n / 262144, 0x80 + n / 4096 % 64, 0x80 + n / 64 % 64, 0x80 + n % 64]
  }

  /** An upper-case hexadecimal digit, as `encodeURIComponent` writes them. */
  function HexDigit(d: int): (r: char)
    requires 0 <= d < 16
    ensures '0' <= r <= '9' || 'A' <= r <= 'F'
  {
    if d < 10 then ('0' as int + d) as char else ('A' as int + d - 10) as char
  }

  /** A lower-case hexadecimal digit, as `Number.prototype.toString(16)` writes them. */
  function LowerHexDigit(d: int): (r: char)
    requires 0 <= d < 16
    ensures '0' <= r <= '9' || 'a' <= r <= 'f'
  {
    if d < 10 then ('0' as int + d) as char else ('a' as int + d - 10) as char
  }

  /** The value of a hexadecimal digit of either case, or -1 for any other character. */
  function HexValue(ch: char): (r: int)
    ensures -1 <= r < 16
    ensures r >= 0 ==> HexDigit(r) == ch || LowerHexDigit(r) == ch
  {
    if '0' <= ch <= '9' then ch as int - '0' as int
    else if 'A' <= ch <= 'F' then ch as int - 'A' as int + 10
    else if 'a' <= ch <= 'f' then ch as int - 'a' as int + 10
    else -1
  }

  /** `%XY` for one byte, with upper-case digits. */
  function Escape(b: byte): (r: string)
    ensures |r| == 3 && r[0] == '%'
  {
    ['%', HexDigit(b / 16), HexDigit(b % 16)]
  }

  /** The escapes of a sequence of bytes, one after the other. */
  function Escapes(bs: seq<byte>): (r: string)
    ensures |r| == 3 * |bs|
  {
    if bs == [] then [] else Escape(bs[0]) + Escapes(bs[1..])
  }

  /** The characters `encodeURIComponent` leaves as they are. */
  predicate Unescaped(ch: char) {
    ('A' <= ch <= 'Z') || ('a' <= ch <= 'z') || ('0' <= ch <= '9') || ch in "-_.!~*'()"
  }

  /** The characters `fullEncodeUri` escapes again after `encodeURIComponent`. */
  predicate Marks(ch: char) {
    ch in "!'()*"
  }

  /** `fullEncodeUri` of one character. */
  function EncodeChar(ch: char): (r: string)
    ensures |r| >= 1
    ensures Unescaped(ch) && !Marks(ch) <==> r == [ch]
  {
    if Marks(ch) then ['%', LowerHexDigit(ch as int / 16), LowerHexDigit(ch as int % 16)]
    else if Unescaped(ch) then [ch]
    else Escapes(Utf8(ch))
  }

  /** `fullEncodeUri`: encode each character in turn. */
  function FullEncode(s: string): (r: string)
    ensures |r| >= |s|
  {
    if s == [] then [] else EncodeChar(s[0]) + FullEncode(s[1..])
  }

  /** Every character of `s` is one `fullEncodeUri` leaves as it is. */
  predicate KeptText(s: string) {
    forall i :: 0 <= i < |s| ==> Unescaped(s[i]) && !Marks(s[i])
  }

  /** Text of kept characters is its own encoding. */
  lemma {:induction false} FullEncodeKept(s: string)
    requires KeptText(s)
    ensures FullEncode(s) == s
  {
    if s != [] {
      assert KeptText(s[1..]);
      FullEncodeKept(s[1..]);
      assert [s[0]] + s[1..] == s;
    }
  }

  /** The encoding works character by character, so it distributes over concatenation. */
  lemma {:induction false} FullEncodeConcat(a: string, b: string)
    ensures FullEncode(a + b) == FullEncode(a) + FullEncode(b)
  {
    if a != [] {
      assert (a + b)[1..] == a[1..] + b;
      FullEncodeConcat(a[1..], b);
    } else {
      assert a + b == b;
    }
  }

  /** The byte of the escape `%XY` at the front of `t`, if there is one. */
  function EscapedByte(t: string): (r: int)
    ensures -1 <= r < 256
  {
    if |t| >= 3 && t[0] == '%' && HexValue(t[1]) >= 0 && HexValue(t[2]) >= 0
    then HexValue(t[1]) * 16 + HexValue(t[2])
    else -1
  }

  /**
    How many bytes a UTF-8 sequence has that starts with byte `b`: 1 for an ASCII byte,
    2 to 4 for a lead byte, 0 for a continuation byte or a byte that cannot start one.
   */
  function SequenceLength(b: byte): (n: nat)
    ensures n <= 4
  {
    if b < 0x80 then 1
    else if b < 0xC0 then 0
    else if b < 0xE0 then 2
    else if b < 0xF0 then 3
    else if b < 0xF8 then 4
    else 0
  }

  /**
    The `count` continuation bytes escaped at the front of `t`, each of the form
    `10xxxxxx`, or `None` when they are not all there.
   */
  function Continuations(t: string, count: nat): (r: Option<seq<byte>>)
    ensures r.Some? ==> |r.value| == count && 3 * count <= |t|
    ensures r.Some? ==> forall j :: 0 <= j < count ==> 0x80 <= r.value[j] < 0xC0
    decreases count
  {
    if count == 0 then Some([])
    else
      var b := EscapedByte(t);
      if b < 0x80 || 0xC0 <= b then None
      else
        match Continuations(t[3..], count - 1)
        case None => None
        case Some(rest) => Some([b as byte] + rest)
  }

  /** The code point a UTF-8 sequence of 2 to 4 bytes spells out, before validation. */
  function CodePoint(bs: seq<byte>): int
    requires 2 <= |bs| <= 4
  {
    var b0, b1: int := bs[0], bs[1];
    if |bs| == 2 then (b0 - 0xC0) * 64 + (b1 - 0x80)
    else
      var b2: int := bs[2];
      if |bs| == 3 then (b0 - 0xE0) * 4096 + (b1 - 0x80) * 64 + (b2 - 0x80)
      else
        var b3: int := bs[3];
        (b0 - 0xF0) * 262144 + (b1 - 0x80) * 4096 + (b2 - 0x80) * 64 + (b3 - 0x80)
  }

  /** Whether `v` is a Unicode scalar value, that is, a Dafny `char`. */
  predicate IsScalar(v: int) {
    (0 <= v < 0xD800) || (0xE000 <= v < 0x110000)
  }

  /**
    `decodeURIComponent`. A `%` must start an escape; an escaped byte below 0x80 is that
    character; a lead byte must be followed by its escaped continuation bytes, and the
    bytes together must be the UTF-8 encoding of a character (no overlong form, no
    surrogate, nothing above U+10FFFF). Anything else throws.
   */
  function Decode(t: string): Outcome
    decreases |t|
  {
    if t == [] then Returns([])
    else if t[0] != '%' then Cons(t[0], Decode(t[1..]))
    else
      var b := EscapedByte(t);
      if b < 0 then Throws
      else
        var n := SequenceLength(b);
        if n == 0 then Throws
        else if n == 1 then Cons(b as char, Decode(t[3..]))
        else
          match Continuations(t[3..], n - 1)
          case None => Throws
          case Some(rest) =>
            var bs := [b as byte] + rest;
            var v := CodePoint(bs);
            if IsScalar(v) && Utf8(v as char) == bs then Cons(v as char, Decode(t[3 * n..]))
            else Throws
  }

  /** Either case of a hexadecimal digit reads back as its value. */
  lemma HexDigitRoundTrip(d: int)
    requires 0 <= d < 16
    ensures HexValue(HexDigit(d)) == d && HexValue(LowerHexDigit(d)) == d
  {
  }

  /** A written escape reads back as its byte. */
  lemma EscapeRoundTrip(b: byte, rest: string)
    ensures EscapedByte(Escape(b) + rest) == b
    ensures (Escape(b) + rest)[3..] == rest
  {
    HexDigitRoundTrip(b / 16);
    HexDigitRoundTrip(b % 16);
  }

  /** Escaped continuation bytes read back as those bytes. */
  lemma {:induction false} ContinuationsRoundTrip(cs: seq<byte>, rest: string)
    requires forall j :: 0 <= j < |cs| ==> 0x80 <= cs[j] < 0xC0
    ensures Continuations(Escapes(cs) + rest, |cs|) == Some(cs)
  {
    if cs != [] {
      var t := Escapes(cs) + rest;
      var tail := Escapes(cs[1..]) + rest;
      assert EscapedByte(t) == cs[0] && t[3..] == tail by {
        assert t == Escape(cs[0]) + tail;
        EscapeRoundTrip(cs[0], tail);
      }
      assert Continuations(tail, |cs| - 1) == Some(cs[1..]) by {
        ContinuationsRoundTrip(cs[1..], rest);
      }
      assert [cs[0]] + cs[1..] == cs;
    }
  }

  /**
    The UTF-8 encoding of a character beyond ASCII starts with a lead byte announcing its
    length, goes on with continuation bytes, and spells out the character's code point.
   */
  lemma Utf8Structure(ch: char)
    requires ch as int >= 0x80
    ensures var bs := Utf8(ch);
      && SequenceLength(bs[0]) == |bs|
      && (forall j :: 1 <= j < |bs| ==> 0x80 <= bs[j] < 0xC0)
      && CodePoint(bs) == ch as int
  {
    var n := ch as int;
    assert n == n / 64 * 64 + n % 64;
    assert n / 64 == n / 4096 * 64 + n / 64 % 64;
    assert n / 4096 == n / 262144 * 64 + n / 4096 % 64;
  }

  /** Decoding undoes `fullEncodeUri` of one character, whatever follows it. */
  lemma DecodeEncodedChar(ch: char, rest: string)
    ensures Decode(EncodeChar(ch) + rest) == Cons(ch, Decode(rest))
  {
    if Marks(ch) {
      DecodeMarkChar(ch, rest);
    } else if Unescaped(ch) {
      assert (EncodeChar(ch) + rest)[1..] == rest;
    } else if ch as int < 0x80 {
      DecodeAsciiEscape(ch, rest);
    } else {
      DecodeUtf8Escapes(ch, rest);
    }
  }

  /** A character escaped again by `fullEncodeUri` decodes back. */
  lemma DecodeMarkChar(ch: char, rest: string)
    requires Marks(ch)
    ensures Decode(EncodeChar(ch) + rest) == Cons(ch, Decode(rest))
  {
    var t := EncodeChar(ch) + rest;
    var n := ch as int;
    HexDigitRoundTrip(n / 16);
    HexDigitRoundTrip(n % 16);
    assert t[3..] == rest;
    assert EscapedByte(t) == n;
  }

  /** An ASCII character escaped by `encodeURIComponent` decodes back. */
  lemma DecodeAsciiEscape(ch: char, rest: string)
    requires !Unescaped(ch) && ch as int < 0x80
    ensures Decode(EncodeChar(ch) + rest) == Cons(ch, Decode(rest))
  {
    var t := EncodeChar(ch) + rest;
    assert Utf8(ch) == [ch as int];
    assert t == Escape(ch as int) + rest;
    EscapeRoundTrip(ch as int, rest);
  }

  /** A character beyond ASCII, escaped byte by byte, decodes back. */
  lemma DecodeUtf8Escapes(ch: char, rest: string)
    requires ch as int >= 0x80
    ensures Decode(EncodeChar(ch) + rest) == Cons(ch, Decode(rest))
  {
    var t := EncodeChar(ch) + rest;
    var bs := Utf8(ch);
    var m := |bs|;
    assert t == Escape(bs[0]) + (Escapes(bs[1..]) + rest);
    EscapeRoundTrip(bs[0], Escapes(bs[1..]) + rest);
    Utf8Structure(ch);
    ContinuationsRoundTrip(bs[1..], rest);
    assert [bs[0]] + bs[1..] == bs;
    assert t[3 * m..] == rest by {
      assert t[3..] == Escapes(bs[1..]) + rest;
      assert t[3 * m..] == t[3..][3 * (m - 1)..];
    }
  }

  /** `decodeURIComponent` undoes `fullEncodeUri`: it never throws on encoded text. */
  lemma {:induction false} DecodeFullEncode(s: string)
    ensures Decode(FullEncode(s)) == Returns(s)
  {
    if s != [] {
      DecodeEncodedChar(s[0], FullEncode(s[1..]));
      DecodeFullEncode(s[1..]);
      assert [s[0]] + s[1..] == s;
    }
  }
}
