/**
 * JavaScript values as they reach the request handlers after JSON body
 * parsing, JavaScript truthiness, and the two string length measures the
 * handlers use: the UTF-16 length reported by `String.prototype.length` and
 * the UTF-8 byte length reported by `Buffer.byteLength(s, 'utf8')`.
 *
 * Strings are Dafny strings, i.e. sequences of Unicode scalar values.
 */
module JsValues {
  import opened Results

  /** The kinds of value a field of a parsed JSON request body can hold;
      `Undefined` is a field that is not present at all, `Compound` is any
      array or object. */
  datatype JsValue =
    | Undefined
    | Null
    | Bool(b: bool)
    | Number(x: real)
    | Str(s: string)
    | Compound

  /** JavaScript's ToBoolean: `undefined`, `null`, `false`, `0` and `""` are
      falsy, everything else is truthy. */
  predicate Truthy(v: JsValue) {
    match v
    case Undefined => false
    case Null => false
    case Bool(b) => b
    case Number(x) => x != 0.0
    case Str(s) => s != []
    case Compound => true
  }

  /** `typeof v === 'string'` */
  predicate IsString(v: JsValue) {
    v.Str?
  }

  /** The guard `!v || typeof v !== 'string'` fails exactly for non-empty strings. */
  lemma PresentStringIsNonEmpty(v: JsValue)
    ensures (Truthy(v) && IsString(v)) <==> (v.Str? && |v.s| > 0)
  {
  }

  // ---------------------------------------------------------------------
  // UTF-16 length (String.prototype.length)
  // ---------------------------------------------------------------------

  /** Number of UTF-16 code units one scalar value occupies. */
  function Utf16Width(c: char): nat {
    if c as int < 0x1_0000 then 1 else 2
  }

  /** `s.length` in JavaScript. */
  function Utf16Length(s: string): (n: nat)
    ensures |s| <= n <= 2 * |s|
  {
    if s == [] then 0 else Utf16Width(s[0]) + Utf16Length(s[1..])
  }

  /** A string whose characters all lie in the Basic Multilingual Plane has
      as many UTF-16 units as characters. */
  lemma {:induction false} Utf16LengthOfBmp(s: string)
    requires forall i :: 0 <= i < |s| ==> s[i] as int < 0x1_0000
    ensures Utf16Length(s) == |s|
  {
    if s != [] {
      assert forall i :: 0 <= i < |s[1..]| ==> s[1..][i] == s[i + 1];
      Utf16LengthOfBmp(s[1..]);
    }
  }

  // ---------------------------------------------------------------------
  // UTF-8 (RFC 3629)
  // ---------------------------------------------------------------------

  newtype byte = x: int | 0 <= x < 0x100

  /** Number of bytes RFC 3629 uses for one scalar value. */
  function Utf8Width(c: char): nat {
    if c as int < 0x80 then 1
    else if c as int < 0x800 then 2
    else if c as int < 0x1_0000 then 3
    else 4
  }

  /** `Buffer.byteLength(s, 'utf8')`: the per-character widths summed. */
  function Utf8Length(s: string): (n: nat)
    ensures |s| <= n <= 4 * |s|
  {
    if s == [] then 0 else Utf8Width(s[0]) + Utf8Length(s[1..])
  }

  /** An ASCII string takes one byte per character. */
  lemma {:induction false} Utf8LengthOfAscii(s: string)
    requires forall i :: 0 <= i < |s| ==> s[i] as int < 0x80
    ensures Utf8Length(s) == |s|
  {
    if s != [] {
      assert forall i :: 0 <= i < |s[1..]| ==> s[1..][i] == s[i + 1];
      Utf8LengthOfAscii(s[1..]);
    }
  }

  /** The encoding of one scalar value, section 3 of RFC 3629. */
  function EncodeChar(c: char): (bs: seq<byte>)
    ensures |bs| == Utf8Width(c)
  {
    var v := c as int;
    if v < 0x80 then
      [v as byte]
    else if v < 0x800 then
      [(0xC0 + v / 0x40) as byte, (0x80 + v % 0x40) as byte]
    else if v < 0x1_0000 then
      [(0xE0 + v / 0x1000) as byte,
       (0x80 + (v / 0x40) % 0x40) as byte,
       (0x80 + v % 0x40) as byte]
    else
      [(0xF0 + v / 0x4_0000) as byte,
       (0x80 + (v / 0x1000) % 0x40) as byte,
       (0x80 + (v / 0x40) % 0x40) as byte,
       (0x80 + v % 0x40) as byte]
  }

  /** The UTF-8 encoding of a whole string. */
  function Encode(s: string): seq<byte> {
    if s == [] then [] else EncodeChar(s[0]) + Encode(s[1..])
  }

  /** The byte length the size check measures is the length of the UTF-8
      encoding of the content. */
  lemma {:induction false} Utf8LengthIsEncodedLength(s: string)
    ensures |Encode(s)| == Utf8Length(s)
  {
    if s != [] {
      Utf8LengthIsEncodedLength(s[1..]);
    }
  }

  predicate IsContinuation(b: byte) {
    0x80 <= b < 0xC0
  }

  predicate IsScalar(v: int) {
    (0 <= v < 0xD800) || (0xE000 <= v < 0x11_0000)
  }

  /** Decodes one scalar value from the front of `bs`, yielding the value and
      the number of bytes it used, or None if `bs` does not start with a
      well-formed sequence. */
  function DecodeChar(bs: seq<byte>): (r: Option<(char, nat)>)
    ensures r.Some? ==> 1 <= r.value.1 <= |bs|
  {
    if bs == [] then None
    else
      var b0 := bs[0] as int;
      if b0 < 0x80 then
        Some((b0 as char, 1))
      else if 0xC0 <= b0 < 0xE0 && |bs| >= 2 && IsContinuation(bs[1]) then
        var v := (b0 - 0xC0) * 0x40 + (bs[1] as int - 0x80);
        if 0x80 <= v then Some((v as char, 2)) else None
      else if 0xE0 <= b0 < 0xF0 && |bs| >= 3 && IsContinuation(bs[1]) && IsContinuation(bs[2]) then
        var v := (b0 - 0xE0) * 0x1000 + (bs[1] as int - 0x80) * 0x40 + (bs[2] as int - 0x80);
        if 0x800 <= v && IsScalar(v) then Some((v as char, 3)) else None
      else if 0xF0 <= b0 < 0xF8 && |bs| >= 4 && IsContinuation(bs[1]) && IsContinuation(bs[2])
              && IsContinuation(bs[3]) then
        var v := (b0 - 0xF0) * 0x4_0000 + (bs[1] as int - 0x80) * 0x1000
                 + (bs[2] as int - 0x80) * 0x40 + (bs[3] as int - 0x80);
        if 0x1_0000 <= v && IsScalar(v) then Some((v as char, 4)) else None
      else
        None
  }

  /** Decodes a whole byte sequence, or None if it is not well-formed UTF-8. */
  function Decode(bs: seq<byte>): Option<string>
    decreases |bs|
  {
    if bs == [] then Some([])
    else match DecodeChar(bs)
      case None => None
      case Some((c, n)) =>
        match Decode(bs[n..])
        case None => None
        case Some(rest) => Some([c] + rest)
  }

  /** Decoding the encoding of one character, followed by anything, gives
      that character back and consumes exactly its bytes. */
  lemma DecodeEncodeChar(c: char, tail: seq<byte>)
    ensures DecodeChar(EncodeChar(c) + tail) == Some((c, Utf8Width(c)))
  {
    var v := c as int;
    if v < 0x80 {
    } else if v < 0x800 {
      DecodeTwoBytes(c, tail);
    } else if v < 0x1_0000 {
      DecodeThreeBytes(c, tail);
    } else {
      DecodeFourBytes(c, tail);
    }
  }

  lemma DecodeTwoBytes(c: char, tail: seq<byte>)
    requires 0x80 <= c as int < 0x800
    ensures DecodeChar(EncodeChar(c) + tail) == Some((c, 2))
  {
    var v := c as int;
    var bs := EncodeChar(c) + tail;
    assert bs[0] as int == 0xC0 + v / 0x40;
    assert bs[1] as int == 0x80 + v % 0x40;
    assert (bs[0] as int - 0xC0) * 0x40 + (bs[1] as int - 0x80) == v;
  }

  lemma DecodeThreeBytes(c: char, tail: seq<byte>)
    requires 0x800 <= c as int < 0x1_0000
    ensures DecodeChar(EncodeChar(c) + tail) == Some((c, 3))
  {
    var v := c as int;
    var bs := EncodeChar(c) + tail;
    assert bs[0] as int == 0xE0 + v / 0x1000;
    assert bs[1] as int == 0x80 + (v / 0x40) % 0x40;
    assert bs[2] as int == 0x80 + v % 0x40;
    assert (v / 0x1000) * 0x1000 + ((v / 0x40) % 0x40) * 0x40 + v % 0x40 == v;
    assert (bs[0] as int - 0xE0) * 0x1000 + (bs[1] as int - 0x80) * 0x40 + (bs[2] as int - 0x80) == v;
  }

  lemma DecodeFourBytes(c: char, tail: seq<byte>)
    requires 0x1_0000 <= c as int
    ensures DecodeChar(EncodeChar(c) + tail) == Some((c, 4))
  {
    var v := c as int;
    var bs := EncodeChar(c) + tail;
    assert bs[0] as int == 0xF0 + v / 0x4_0000;
    assert bs[1] as int == 0x80 + (v / 0x1000) % 0x40;
    assert bs[2] as int == 0x80 + (v / 0x40) % 0x40;
    assert bs[3] as int == 0x80 + v % 0x40;
    assert (v / 0x4_0000) * 0x4_0000 + ((v / 0x1000) % 0x40) * 0x1000
           + ((v / 0x40) % 0x40) * 0x40 + v % 0x40 == v;
    assert (bs[0] as int - 0xF0) * 0x4_0000 + (bs[1] as int - 0x80) * 0x1000
           + (bs[2] as int - 0x80) * 0x40 + (bs[3] as int - 0x80) == v;
  }

  /** UTF-8 round trip: the encoder loses nothing. */
  lemma {:induction false} DecodeEncode(s: string)
    ensures Decode(Encode(s)) == Some(s)
  {
    if s != [] {
      var head := EncodeChar(s[0]);
      var rest := Encode(s[1..]);
      assert Encode(s) == head + rest;
      DecodeEncodeChar(s[0], rest);
      assert (head + rest)[|head|..] == rest;
      DecodeEncode(s[1..]);
      assert [s[0]] + s[1..] == s;
    }
  }
}
