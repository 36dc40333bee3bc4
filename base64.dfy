/**
 * Base 64 encoding with the standard alphabet and '=' padding, as defined in
 * section 4 of RFC 4648 (Go's `base64.StdEncoding`). The client only encodes;
 * the decoder is here as the encoder's partner: decoding undoes encoding.
 */
module Base64 {
  import opened Utf8

  /** The padding character of section 3.2 of RFC 4648. */
  const Pad: char := '='

  /** The character for a 6-bit value (Table 1 of RFC 4648). */
  function Digit(v: int): (c: char)
    requires 0 <= v < 64
    ensures c != Pad
  {
    if v < 26 then ('A' as int + v) as char
    else if v < 52 then ('a' as int + (v - 26)) as char
    else if v < 62 then ('0' as int + (v - 52)) as char
    else if v == 62 then '+'
    else '/'
  }

  /** The 6-bit value of an alphabet character; None for any other character. */
  function Value(c: char): (r: Option<int>)
    ensures r.Some? ==> 0 <= r.value < 64 && Digit(r.value) == c
    ensures c == Pad ==> r.None?
  {
    if 'A' <= c <= 'Z' then Some(c as int - 'A' as int)
    else if 'a' <= c <= 'z' then Some(c as int - 'a' as int + 26)
    else if '0' <= c <= '9' then Some(c as int - '0' as int + 52)
    else if c == '+' then Some(62)
    else if c == '/' then Some(63)
    else None
  }

  lemma ValueOfDigit(v: int)
    requires 0 <= v < 64
    ensures Value(Digit(v)) == Some(v)
  {
  }

  /** Four characters for three bytes: 24 bits read as four 6-bit groups. */
  function EncodeGroup(a: Byte, b: Byte, c: Byte): (q: string)
  {
    [Digit(a / 4), Digit((a % 4) * 16 + b / 16), Digit((b % 16) * 4 + c / 64), Digit(c % 64)]
  }

  /** The padded final quantum for the last one or two bytes (none for zero). */
  function EncodeFinal(bs: seq<Byte>): (s: string)
    requires |bs| < 3
    ensures |s| == (if |bs| == 0 then 0 else 4)
  {
    if |bs| == 0 then ""
    else if |bs| == 1 then [Digit(bs[0] / 4), Digit((bs[0] % 4) * 16), Pad, Pad]
    else [Digit(bs[0] / 4), Digit((bs[0] % 4) * 16 + bs[1] / 16), Digit((bs[1] % 16) * 4), Pad]
  }

  /** `StdEncoding.EncodeToString`: full groups, then a padded final group of one or two bytes. */
  function Encode(bs: seq<Byte>): (s: string)
    ensures |s| % 4 == 0
    ensures |s| == 0 <==> |bs| == 0
    decreases |bs|
  {
    if |bs| < 3 then EncodeFinal(bs)
    else EncodeGroup(bs[0], bs[1], bs[2]) + Encode(bs[3..])
  }

  /** Decodes one quantum of four characters; padding is accepted only in the last one. */
  function DecodeQuantum(q: string, last: bool): (r: Option<seq<Byte>>)
    requires |q| == 4
    ensures r.Some? ==> 1 <= |r.value| <= 3
  {
    var v0, v1, v2, v3 := Value(q[0]), Value(q[1]), Value(q[2]), Value(q[3]);
    if v0.None? || v1.None? then None
    else if last && q[2] == Pad && q[3] == Pad then
      Some([v0.value * 4 + v1.value / 16])
    else if v2.None? then None
    else if last && q[3] == Pad then
      Some([v0.value * 4 + v1.value / 16, (v1.value % 16) * 16 + v2.value / 4])
    else if v3.None? then None
    else
      Some([v0.value * 4 + v1.value / 16, (v1.value % 16) * 16 + v2.value / 4, (v2.value % 4) * 64 + v3.value])
  }

  /** Decodes padded base 64 text; None when the text is not a valid encoding. */
  function Decode(s: string): (r: Option<seq<Byte>>)
    decreases |s|
  {
    if |s| == 0 then Some([])
    else if |s| < 4 then None
    else match DecodeQuantum(s[..4], |s| == 4)
      case None => None
      case Some(head) =>
        match Decode(s[4..])
        case None => None
        case Some(tail) => Some(head + tail)
  }

  /** Reading 24 bits as four 6-bit groups and back gives the three bytes again. */
  lemma GroupArithmetic(a: Byte, b: Byte, c: Byte)
    ensures a / 4 * 4 + ((a % 4) * 16 + b / 16) / 16 == a
    ensures ((a % 4) * 16 + b / 16) % 16 * 16 + ((b % 16) * 4 + c / 64) / 4 == b
    ensures ((b % 16) * 4 + c / 64) % 4 * 64 + c % 64 == c
  {
  }

  /** A full group decodes to its three bytes, whether or not it is the last quantum. */
  lemma GroupRoundTrip(a: Byte, b: Byte, c: Byte, last: bool)
    ensures DecodeQuantum(EncodeGroup(a, b, c), last) == Some([a, b, c])
  {
    var v0, v1, v2, v3 := a / 4, (a % 4) * 16 + b / 16, (b % 16) * 4 + c / 64, c % 64;
    var q := EncodeGroup(a, b, c);
    assert q == [Digit(v0), Digit(v1), Digit(v2), Digit(v3)];
    ValueOfDigit(v0);
    ValueOfDigit(v1);
    ValueOfDigit(v2);
    ValueOfDigit(v3);
    GroupArithmetic(a, b, c);
  }

  /** A final group of one byte decodes back to it. */
  lemma OneByteRoundTrip(a: Byte)
    ensures Decode(Encode([a])) == Some([a])
  {
    var s := Encode([a]);
    assert s == EncodeFinal([a]);
    assert s == [Digit(a / 4), Digit((a % 4) * 16), Pad, Pad];
    ValueOfDigit(a / 4);
    ValueOfDigit((a % 4) * 16);
    assert DecodeQuantum(s, true) == Some([a]);
    assert s[..4] == s && Decode(s[4..]) == Some([]);
    assert [a] + [] == [a];
    assert Decode(s) == Some([a] + []);
  }

  /** A final group of two bytes decodes back to them. */
  lemma TwoByteRoundTrip(a: Byte, b: Byte)
    ensures Decode(Encode([a, b])) == Some([a, b])
  {
    var s := Encode([a, b]);
    assert s == EncodeFinal([a, b]);
    assert s == [Digit(a / 4), Digit((a % 4) * 16 + b / 16), Digit((b % 16) * 4), Pad];
    ValueOfDigit(a / 4);
    ValueOfDigit((a % 4) * 16 + b / 16);
    ValueOfDigit((b % 16) * 4);
    assert DecodeQuantum(s, true) == Some([a, b]);
    assert s[..4] == s && Decode(s[4..]) == Some([]);
    assert [a, b] + [] == [a, b];
    assert Decode(s) == Some([a, b] + []);
  }

  /** Decoding undoes encoding, for every byte sequence. */
  lemma {:induction false} DecodeEncode(bs: seq<Byte>)
    ensures Decode(Encode(bs)) == Some(bs)
    decreases |bs|
  {
    if |bs| == 1 {
      OneByteRoundTrip(bs[0]);
      assert bs == [bs[0]];
    } else if |bs| == 2 {
      TwoByteRoundTrip(bs[0], bs[1]);
      assert bs == [bs[0], bs[1]];
    } else if |bs| >= 3 {
      DecodeEncode(bs[3..]);
      DecodeEncodeStep(bs);
    }
  }

  /** One full group in front of an encoding that decodes correctly. */
  lemma DecodeEncodeStep(bs: seq<Byte>)
    requires |bs| >= 3
    requires Decode(Encode(bs[3..])) == Some(bs[3..])
    ensures Decode(Encode(bs)) == Some(bs)
  {
    var rest := bs[3..];
    var g := EncodeGroup(bs[0], bs[1], bs[2]);
    var t := Encode(rest);
    assert Encode(bs) == g + t;
    DecodeAfterGroup(bs[0], bs[1], bs[2], t);
    assert Decode(g + t) == Some([bs[0], bs[1], bs[2]] + rest);
    FirstThree(bs);
  }

  lemma FirstThree<T>(xs: seq<T>)
    requires |xs| >= 3
    ensures [xs[0], xs[1], xs[2]] + xs[3..] == xs
  {
  }

  /** An encoding has four characters for every started group of three bytes. */
  lemma {:induction false} EncodeLength(bs: seq<Byte>)
    ensures |Encode(bs)| == 4 * ((|bs| + 2) / 3)
    decreases |bs|
  {
    if |bs| >= 3 {
      EncodeLength(bs[3..]);
      assert (|bs| + 2) / 3 == (|bs[3..]| + 2) / 3 + 1;
    }
  }

  /** A full group in front of decodable text decodes to its three bytes in front. */
  lemma DecodeAfterGroup(a: Byte, b: Byte, c: Byte, t: string)
    requires Decode(t).Some?
    ensures Decode(EncodeGroup(a, b, c) + t) == Some([a, b, c] + Decode(t).value)
  {
    var s := EncodeGroup(a, b, c) + t;
    assert s[..4] == EncodeGroup(a, b, c) && s[4..] == t;
    GroupRoundTrip(a, b, c, |s| == 4);
  }

  /** Every character of an encoding is an alphabet character or padding. */
  lemma {:induction false} EncodeAlphabet(bs: seq<Byte>)
    ensures forall i :: 0 <= i < |Encode(bs)| ==> Encode(bs)[i] == Pad || Value(Encode(bs)[i]).Some?
    decreases |bs|
  {
    if |bs| >= 3 {
      EncodeAlphabet(bs[3..]);
      var s := Encode(bs);
      var g := EncodeGroup(bs[0], bs[1], bs[2]);
      ValueOfDigit(bs[0] / 4);
      ValueOfDigit((bs[0] % 4) * 16 + bs[1] / 16);
      ValueOfDigit((bs[1] % 16) * 4 + bs[2] / 64);
      ValueOfDigit(bs[2] % 64);
      forall i | 0 <= i < |s|
        ensures s[i] == Pad || Value(s[i]).Some?
      {
        if i >= 4 {
          assert s[i] == Encode(bs[3..])[i - 4];
        }
      }
    } else if |bs| == 2 {
      ValueOfDigit(bs[0] / 4);
      ValueOfDigit((bs[0] % 4) * 16 + bs[1] / 16);
      ValueOfDigit((bs[1] % 16) * 4);
    } else if |bs| == 1 {
      ValueOfDigit(bs[0] / 4);
      ValueOfDigit((bs[0] % 4) * 16);
    }
  }
}
