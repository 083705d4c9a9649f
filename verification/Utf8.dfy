/** UTF-8 as in section 3 of RFC 3629. */
module Utf8 {
  import opened Wrappers

  newtype byte = x: int | 0 <= x < 256

  function EncodeChar(c: char): (bytes: seq<byte>)
    ensures 1 <= |bytes| <= 4
  {
    var n := c as int;
    if n < 0x80 then [n as byte]
    else if n < 0x800 then [(0xC0 + n / 64) as byte, (0x80 + n % 64) as byte]
    else if n < 0x1_0000 then
      [(0xE0 + n / 4096) as byte, (0x80 + n / 64 % 64) as byte, (0x80 + n % 64) as byte]
    else
      [(0xF0 + n / 262144) as byte, (0x80 + n / 4096 % 64) as byte, (0x80 + n / 64 % 64) as byte, (0x80 + n % 64) as byte]
  }

  function Encode(text: string): seq<byte>
    decreases |text|
  {
    if text == "" then [] else EncodeChar(text[0]) + Encode(text[1..])
  }

  predicate Continuation(b: byte) {
    0x80 <= b < 0xC0
  }

  /** The code point at the head of `bytes`, read back by the lead byte's length. */
  function DecodeHead(bytes: seq<byte>): int
    requires bytes != []
    requires bytes[0] >= 0xC0 ==> |bytes| >= 2
    requires bytes[0] >= 0xE0 ==> |bytes| >= 3
    requires bytes[0] >= 0xF0 ==> |bytes| >= 4
  {
    var b := bytes[0] as int;
    if b < 0xC0 then b
    else if b < 0xE0 then (b - 0xC0) * 64 + (bytes[1] as int - 0x80)
    else if b < 0xF0 then (b - 0xE0) * 4096 + (bytes[1] as int - 0x80) * 64 + (bytes[2] as int - 0x80)
    else (b - 0xF0) * 262144 + (bytes[1] as int - 0x80) * 4096 + (bytes[2] as int - 0x80) * 64 + (bytes[3] as int - 0x80)
  }

  /** A character is read back from its bytes, whatever follows, and only its first byte starts one. */
  lemma CharRoundTrip(c: char, rest: seq<byte>)
    ensures var bytes := EncodeChar(c);
      && (bytes[0] >= 0xC0 ==> |bytes| >= 2) && (bytes[0] >= 0xE0 ==> |bytes| >= 3) && (bytes[0] >= 0xF0 ==> |bytes| >= 4)
      && DecodeHead(bytes + rest) == c as int
      && !Continuation(bytes[0]) && forall i | 1 <= i < |bytes| :: Continuation(bytes[i])
  {
    var n := c as int;
    SixBits(n);
    SixBits(n / 64);
    SixBits(n / 4096);
    ShiftTwice(n);
    var bytes := EncodeChar(c);
    assert forall i | 0 <= i < |bytes| :: (bytes + rest)[i] == bytes[i];
  }

  lemma SixBits(n: nat)
    ensures n == n / 64 * 64 + n % 64 && n % 64 < 64
  {
  }

  lemma ShiftTwice(n: nat)
    ensures n / 64 / 64 == n / 4096 && n / 4096 / 64 == n / 262144
  {
  }

  lemma {:induction false} EncodeConcat(a: string, b: string)
    ensures Encode(a + b) == Encode(a) + Encode(b)
    decreases |a|
  {
    hide EncodeChar;
    if a == "" {
      assert a + b == b;
    } else {
      EncodeConcat(a[1..], b);
      assert (a + b)[1..] == a[1..] + b;
      assert EncodeChar(a[0]) + (Encode(a[1..]) + Encode(b)) == (EncodeChar(a[0]) + Encode(a[1..])) + Encode(b);
    }
  }

  /** A slice of the text is, in the encoding, the slice between the encoded offsets. */
  lemma EncodeSlice(text: string, start: nat, end: nat)
    requires start <= end <= |text|
    ensures |Encode(text[..start])| <= |Encode(text[..end])| <= |Encode(text)|
    ensures Encode(text)[|Encode(text[..start])|..|Encode(text[..end])|] == Encode(text[start..end])
  {
    hide Encode;
    EncodeConcat(text[..start], text[start..end]);
    EncodeConcat(text[..end], text[end..]);
    assert text[..start] + text[start..end] == text[..end];
    assert text[..end] + text[end..] == text;
  }

  lemma {:induction false} EncodeNoShorter(text: string)
    ensures |text| <= |Encode(text)|
    decreases |text|
  {
    if text != "" {
      EncodeNoShorter(text[1..]);
    }
  }

  // ------------------------------------------------------------------ decoding

  function Width(lead: byte): (n: nat)
    ensures 1 <= n <= 4
  {
    if lead < 0xC0 then 1 else if lead < 0xE0 then 2 else if lead < 0xF0 then 3 else 4
  }

  /** Strict decoding: no continuation out of place, no overlong form, no surrogate. */
  function Decode(bytes: seq<byte>): Option<string>
    decreases |bytes|
  {
    if bytes == [] then Some("")
    else if Width(bytes[0]) > |bytes| then None
    else
      var code := DecodeHead(bytes);
      if !(0 <= code < 0xD800 || 0xE000 <= code < 0x11_0000) then None
      else if EncodeChar(code as char) != bytes[..Width(bytes[0])] then None
      else
        match Decode(bytes[Width(bytes[0])..])
        case None => None
        case Some(text) => Some([code as char] + text)
  }

  lemma WidthIsLength(c: char)
    ensures Width(EncodeChar(c)[0]) == |EncodeChar(c)|
  {
  }

  /** What was encoded is decoded to itself. */
  lemma {:induction false} DecodeInvertsEncode(text: string)
    ensures Decode(Encode(text)) == Some(text)
    decreases |text|
  {
    hide EncodeChar, DecodeHead, Width;
    if text != "" {
      var c, rest := text[0], Encode(text[1..]);
      DecodeInvertsEncode(text[1..]);
      CharRoundTrip(c, rest);
      WidthIsLength(c);
      assert (EncodeChar(c) + rest)[..|EncodeChar(c)|] == EncodeChar(c);
      assert (EncodeChar(c) + rest)[|EncodeChar(c)|..] == rest;
      assert (EncodeChar(c) + rest)[0] == EncodeChar(c)[0];
      assert text == [c] + text[1..];
    }
  }

  /** What decodes is the encoding of what it decodes to. */
  lemma {:induction false} EncodeInvertsDecode(bytes: seq<byte>)
    ensures Decode(bytes).Some? ==> Encode(Decode(bytes).value) == bytes
    decreases |bytes|
  {
    hide EncodeChar, DecodeHead;
    if bytes != [] && Decode(bytes).Some? {
      var n, text := Width(bytes[0]), Decode(bytes).value;
      EncodeInvertsDecode(bytes[n..]);
      assert text[1..] == Decode(bytes[n..]).value;
      assert bytes == bytes[..n] + bytes[n..];
    }
  }

  /** Text below 0x80 takes one byte a character. */
  lemma {:induction false} EncodeAscii(text: string, bytes: seq<byte>)
    requires |text| == |bytes| && forall i | 0 <= i < |text| :: text[i] as int == bytes[i] as int < 0x80
    ensures Encode(text) == bytes
    decreases |text|
  {
    if text != "" {
      EncodeAscii(text[1..], bytes[1..]);
      assert bytes == [bytes[0]] + bytes[1..];
    }
  }
}
