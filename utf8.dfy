/**
 * The bytes of a string. A Go string is a byte sequence holding UTF-8 text;
 * here strings are sequences of Unicode scalar values, so the conversion
 * `[]byte(s)` becomes the UTF-8 encoding of the string. A decoder is its
 * partner: decoding gives the string back, so the encoding loses nothing.
 */
module Utf8 {

  /** One byte, as held by a Go `[]byte`. */
  type Byte = b: int | 0 <= b < 256

  /** The UTF-8 encoding of one scalar value: one to four bytes. */
  function EncodeChar(c: char): (bs: seq<Byte>)
    ensures 1 <= |bs| <= 4
    ensures (c as int < 0x80) <==> (|bs| == 1)
    ensures |bs| == 1 ==> bs[0] == c as int
    ensures |bs| > 1 ==> bs[0] >= 0xC0 && forall k :: 1 <= k < |bs| ==> 0x80 <= bs[k] < 0xC0
  {
    var n := c as int;
    if n < 0x80 then [n]
    else if n < 0x800 then [0xC0 + n / 0x40, 0x80 + n % 0x40]
    else if n < 0x1_0000 then [0xE0 + n / 0x1000, 0x80 + (n / 0x40) % 0x40, 0x80 + n % 0x40]
    else [0xF0 + n / 0x4_0000, 0x80 + (n / 0x1000) % 0x40, 0x80 + (n / 0x40) % 0x40, 0x80 + n % 0x40]
  }

  /** The UTF-8 encoding of a string, character by character. */
  function Encode(s: string): (bs: seq<Byte>)
    ensures |s| <= |bs| <= 4 * |s|
    ensures |bs| == 0 <==> |s| == 0
  {
    if s == [] then [] else EncodeChar(s[0]) + Encode(s[1..])
  }

  /** The encoding is a homomorphism: the bytes of a concatenation are the concatenated bytes. */
  lemma {:induction false} EncodeAppend(s: string, t: string)
    ensures Encode(s + t) == Encode(s) + Encode(t)
  {
    if s == [] {
      assert s + t == t;
    } else {
      assert (s + t)[1..] == s[1..] + t;
      EncodeAppend(s[1..], t);
    }
  }

  /** Text made of ASCII characters is its own byte sequence. */
  lemma {:induction false} EncodeAscii(s: string)
    requires forall i :: 0 <= i < |s| ==> s[i] as int < 0x80
    ensures |Encode(s)| == |s|
    ensures forall i :: 0 <= i < |s| ==> Encode(s)[i] == s[i] as int
  {
    if s != [] {
      EncodeAscii(s[1..]);
    }
  }

  datatype Option<T> = None | Some(value: T)

  /** The length of the character a lead byte announces; 0 for a byte no character starts with. */
  function Width(lead: Byte): (w: nat)
    ensures w <= 4
  {
    if lead < 0x80 then 1
    else if lead < 0xC0 then 0
    else if lead < 0xE0 then 2
    else if lead < 0xF0 then 3
    else if lead < 0xF8 then 4
    else 0
  }

  predicate IsContinuation(b: Byte) {
    0x80 <= b < 0xC0
  }

  /**
   * The character one encoded sequence stands for: None when a continuation
   * byte is missing, the encoding is longer than needed, or the value is a
   * surrogate or beyond U+10FFFF.
   */
  function DecodeChar(q: seq<Byte>): Option<char>
    requires 1 <= |q| <= 4 && Width(q[0]) == |q|
  {
    if !(forall k | 1 <= k < |q| :: IsContinuation(q[k])) then None
    else
      var n: int :=
        if |q| == 1 then q[0]
        else if |q| == 2 then (q[0] as int - 0xC0) * 0x40 + (q[1] as int - 0x80)
        else if |q| == 3 then (q[0] as int - 0xE0) * 0x1000 + (q[1] as int - 0x80) * 0x40 + (q[2] as int - 0x80)
        else (q[0] as int - 0xF0) * 0x4_0000 + (q[1] as int - 0x80) * 0x1000 + (q[2] as int - 0x80) * 0x40 + (q[3] as int - 0x80);
      var least: int := if |q| == 1 then 0 else if |q| == 2 then 0x80 else if |q| == 3 then 0x800 else 0x1_0000;
      if n < least || (0xD800 <= n < 0xE000) || 0x11_0000 <= n then None
      else Some(n as char)
  }

  /** Decodes UTF-8 text; None when the bytes are not a valid encoding. */
  function Decode(bs: seq<Byte>): Option<string>
    decreases |bs|
  {
    if bs == [] then Some("")
    else
      var w := Width(bs[0]);
      if w == 0 || |bs| < w then None
      else match DecodeChar(bs[..w])
        case None => None
        case Some(c) =>
          match Decode(bs[w..])
          case None => None
          case Some(rest) => Some([c] + rest)
  }

  /** The lead byte of an encoded character announces its length, and the character decodes back. */
  lemma DecodeEncodeChar(c: char)
    ensures Width(EncodeChar(c)[0]) == |EncodeChar(c)|
    ensures DecodeChar(EncodeChar(c)) == Some(c)
  {
    var n := c as int;
    var q := EncodeChar(c);
    if n < 0x80 {
    } else if n < 0x800 {
      Reassemble2(n);
    } else if n < 0x1_0000 {
      Reassemble3(n);
    } else {
      Reassemble4(n);
    }
  }

  /** The bits of a two-byte character, split into a 5-bit and a 6-bit group and put back together. */
  lemma Reassemble2(n: int)
    requires 0x80 <= n < 0x800
    ensures var q := [0xC0 + n / 0x40, 0x80 + n % 0x40];
      (q[0] as int - 0xC0) * 0x40 + (q[1] as int - 0x80) == n
  {
  }

  /** The bits of a three-byte character, split into groups of 4, 6 and 6 bits and put back together. */
  lemma Reassemble3(n: int)
    requires 0x800 <= n < 0x1_0000
    ensures n / 0x1000 * 0x1000 + (n / 0x40) % 0x40 * 0x40 + n % 0x40 == n
  {
    var hi, mid, lo := n / 0x1000, (n / 0x40) % 0x40, n % 0x40;
    assert n / 0x40 == hi * 0x40 + mid;
    assert n == (n / 0x40) * 0x40 + lo;
  }

  /** The bits of a four-byte character, split into groups of 3, 6, 6 and 6 bits and put back together. */
  lemma Reassemble4(n: int)
    requires 0x1_0000 <= n < 0x11_0000
    ensures n / 0x4_0000 * 0x4_0000 + (n / 0x1000) % 0x40 * 0x1000 + (n / 0x40) % 0x40 * 0x40 + n % 0x40 == n
  {
    var m := n / 0x40;
    assert n == m * 0x40 + n % 0x40;
    assert m / 0x40 == n / 0x1000;
    assert m == (m / 0x40) * 0x40 + m % 0x40;
    var k := n / 0x1000;
    assert k / 0x40 == n / 0x4_0000;
    assert k == (k / 0x40) * 0x40 + k % 0x40;
  }

  /** Decoding undoes encoding: the credentials can be read back from their bytes. */
  lemma {:induction false} DecodeEncode(s: string)
    ensures Decode(Encode(s)) == Some(s)
  {
    if s != [] {
      var q := EncodeChar(s[0]);
      var tail := Encode(s[1..]);
      var bs := Encode(s);
      DecodeEncodeChar(s[0]);
      DecodeEncode(s[1..]);
      assert bs == q + tail;
      assert bs[0] == q[0];
      assert bs[..|q|] == q && bs[|q|..] == tail;
      assert [s[0]] + s[1..] == s;
    }
  }

  /** Different strings have different bytes. */
  lemma EncodeInjective(s: string, t: string)
    requires Encode(s) == Encode(t)
    ensures s == t
  {
    DecodeEncode(s);
    DecodeEncode(t);
  }
}
