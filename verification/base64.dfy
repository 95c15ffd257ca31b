/** PHP's `base64_encode`, which the message uses for attachment content: the
    base 64 encoding of section 4 of RFC 4648 with `=` padding. A decoder is
    given alongside so that the encoding can be shown to lose nothing. */
module Base64 {
  import opened Results

  type byte = b: int | 0 <= b < 256

  /** A 6-bit value, one digit of the encoding. */
  type sextet = i: int | 0 <= i < 64

  /** Table 1 of RFC 4648: A-Z, a-z, 0-9, '+', '/'. */
  function Digit(i: sextet): char
  {
    if i < 26 then ('A' as int + i) as char
    else if i < 52 then ('a' as int + (i - 26)) as char
    else if i < 62 then ('0' as int + (i - 52)) as char
    else if i == 62 then '+'
    else '/'
  }

  const Pad: char := '='

  /** The inverse of `Digit`: which sextet a character stands for, if any. */
  function DigitValue(c: char): (r: Option<sextet>)
    ensures r.Some? ==> Digit(r.value) == c
  {
    if 'A' <= c <= 'Z' then Some(c as int - 'A' as int)
    else if 'a' <= c <= 'z' then Some(c as int - 'a' as int + 26)
    else if '0' <= c <= '9' then Some(c as int - '0' as int + 52)
    else if c == '+' then Some(62)
    else if c == '/' then Some(63)
    else None
  }

  lemma DigitValueOfDigit(i: sextet)
    ensures DigitValue(Digit(i)) == Some(i)
  {
  }

  /** Every digit of a group and of a padded final group is a digit or a pad. */
  lemma GroupDigits(g: string, a: sextet, b: sextet, c: sextet, d: sextet)
    requires g == [Digit(a), Digit(b), Digit(c), Digit(d)]
      || g == [Digit(a), Digit(b), Digit(c), Pad]
      || g == [Digit(a), Digit(b), Pad, Pad]
    ensures forall i :: 0 <= i < 4 ==> IsDigit(g[i]) || g[i] == Pad
  {
    DigitValueOfDigit(a);
    DigitValueOfDigit(b);
    DigitValueOfDigit(c);
    DigitValueOfDigit(d);
  }

  predicate IsDigit(c: char)
  {
    DigitValue(c).Some?
  }

  /** Three bytes become four digits, six bits each, most significant first. */
  function EncodeGroup(b0: byte, b1: byte, b2: byte): string
  {
    [Digit(b0 / 4), Digit((b0 % 4) * 16 + b1 / 16), Digit((b1 % 16) * 4 + b2 / 64), Digit(b2 % 64)]
  }

  /** A final single byte: two digits, the unused bits zero, and two pads. */
  function EncodeOne(b0: byte): string
  {
    [Digit(b0 / 4), Digit((b0 % 4) * 16), Pad, Pad]
  }

  /** A final pair of bytes: three digits, the unused bits zero, and one pad. */
  function EncodeTwo(b0: byte, b1: byte): string
  {
    [Digit(b0 / 4), Digit((b0 % 4) * 16 + b1 / 16), Digit((b1 % 16) * 4), Pad]
  }

  /** `base64_encode($bytes)`. */
  function Encode(bs: seq<byte>): (r: string)
    ensures |r| == 4 * ((|bs| + 2) / 3)
    ensures forall i :: 0 <= i < |r| ==> IsDigit(r[i]) || r[i] == Pad
    decreases |bs|
  {
    if |bs| == 0 then ""
    else if |bs| == 1 then
      GroupDigits(EncodeOne(bs[0]), bs[0] / 4, (bs[0] % 4) * 16, 0, 0);
      EncodeOne(bs[0])
    else if |bs| == 2 then
      GroupDigits(EncodeTwo(bs[0], bs[1]), bs[0] / 4, (bs[0] % 4) * 16 + bs[1] / 16, (bs[1] % 16) * 4, 0);
      EncodeTwo(bs[0], bs[1])
    else
      var g := EncodeGroup(bs[0], bs[1], bs[2]);
      GroupDigits(g, bs[0] / 4, (bs[0] % 4) * 16 + bs[1] / 16, (bs[1] % 16) * 4 + bs[2] / 64, bs[2] % 64);
      var rest := Encode(bs[3..]);
      assert forall i :: 4 <= i < |g + rest| ==> (g + rest)[i] == rest[i - 4];
      g + rest
  }

  /** Four digits back to three bytes. */
  function DecodeGroup(i0: sextet, i1: sextet, i2: sextet, i3: sextet): seq<byte>
  {
    [i0 * 4 + i1 / 16, (i1 % 16) * 16 + i2 / 4, (i2 % 4) * 64 + i3]
  }

  /** One quantum of four characters: four digits, or a final quantum that
      ends in one or two pads. The bits a padded quantum leaves unused must
      be zero, as section 3.5 of RFC 4648 allows a decoder to require, so
      that every accepted input is an encoder's output. */
  function DecodeQuantum(q: string, last: bool): (r: Option<seq<byte>>)
    requires |q| == 4
    ensures r.Some? ==> 1 <= |r.value| <= 3
    ensures r.Some? && !last ==> |r.value| == 3
  {
    var d0, d1, d2, d3 := DigitValue(q[0]), DigitValue(q[1]), DigitValue(q[2]), DigitValue(q[3]);
    if d0.None? || d1.None? then None
    else if d2.Some? && d3.Some? then Some(DecodeGroup(d0.value, d1.value, d2.value, d3.value))
    else if !last || q[3] != Pad then None
    else if d2.Some? then
      if d2.value % 4 != 0 then None
      else Some(DecodeGroup(d0.value, d1.value, d2.value, 0)[..2])
    else if q[2] == Pad && d1.value % 16 == 0 then Some(DecodeGroup(d0.value, d1.value, 0, 0)[..1])
    else None
  }

  /** The decoder of section 4 of RFC 4648: the input is a whole number of
      four-character quanta, and only the last may carry padding. */
  function Decode(s: string): (r: Option<seq<byte>>)
    decreases |s|
  {
    if |s| == 0 then Some([])
    else if |s| < 4 then None
    else
      match DecodeQuantum(s[..4], |s| == 4)
      case None => None
      case Some(head) =>
        match Decode(s[4..])
        case None => None
        case Some(tail) => Some(head + tail)
  }

  /** The second digit carries the low two bits of one byte and the high
      four bits of the next. */
  lemma SplitHigh(x: byte, y: byte)
    ensures ((x % 4) * 16 + y / 16) / 16 == x % 4
    ensures ((x % 4) * 16 + y / 16) % 16 == y / 16
    ensures (x / 4) * 4 + x % 4 == x
  {
  }

  /** The third digit carries the low four bits of one byte and the high two
      bits of the next. */
  lemma SplitLow(y: byte, z: byte)
    ensures ((y % 16) * 4 + z / 64) / 4 == y % 16
    ensures ((y % 16) * 4 + z / 64) % 4 == z / 64
    ensures (y / 16) * 16 + y % 16 == y
    ensures (z / 64) * 64 + z % 64 == z
  {
  }

  lemma GroupRoundTrip(b0: byte, b1: byte, b2: byte)
    ensures DecodeQuantum(EncodeGroup(b0, b1, b2), false) == Some([b0, b1, b2])
    ensures DecodeQuantum(EncodeGroup(b0, b1, b2), true) == Some([b0, b1, b2])
  {
    var c0: sextet, c1: sextet, c2: sextet, c3: sextet := b0 / 4, (b0 % 4) * 16 + b1 / 16, (b1 % 16) * 4 + b2 / 64, b2 % 64;
    var g := EncodeGroup(b0, b1, b2);
    assert g == [Digit(c0), Digit(c1), Digit(c2), Digit(c3)];
    DigitValueOfDigit(c0);
    DigitValueOfDigit(c1);
    DigitValueOfDigit(c2);
    DigitValueOfDigit(c3);
    SplitHigh(b0, b1);
    SplitLow(b1, b2);
    assert DecodeGroup(c0, c1, c2, c3) == [b0, b1, b2];
  }

  lemma TailRoundTrip(bs: seq<byte>)
    requires 1 <= |bs| <= 2
    ensures |bs| == 1 ==> DecodeQuantum(EncodeOne(bs[0]), true) == Some(bs)
    ensures |bs| == 2 ==> DecodeQuantum(EncodeTwo(bs[0], bs[1]), true) == Some(bs)
  {
    var b0 := bs[0];
    var c0: sextet := b0 / 4;
    DigitValueOfDigit(c0);
    if |bs| == 1 {
      var c1: sextet := (b0 % 4) * 16;
      DigitValueOfDigit(c1);
      SplitHigh(b0, 0);
      assert EncodeOne(b0) == [Digit(c0), Digit(c1), Pad, Pad];
      assert DecodeGroup(c0, c1, 0, 0)[..1] == bs;
    } else {
      var b1 := bs[1];
      var c1: sextet, c2: sextet := (b0 % 4) * 16 + b1 / 16, (b1 % 16) * 4;
      DigitValueOfDigit(c1);
      DigitValueOfDigit(c2);
      SplitHigh(b0, b1);
      SplitLow(b1, 0);
      assert EncodeTwo(b0, b1) == [Digit(c0), Digit(c1), Digit(c2), Pad];
      assert DecodeGroup(c0, c1, c2, 0)[..2] == bs;
    }
  }

  /** Decoding a quantum followed by more input decodes each in turn. */
  lemma DecodeAppend(q: string, rest: string, head: seq<byte>, tail: seq<byte>)
    requires |q| == 4
    requires DecodeQuantum(q, |rest| == 0) == Some(head)
    requires Decode(rest) == Some(tail)
    ensures Decode(q + rest) == Some(head + tail)
  {
    var s := q + rest;
    assert s[..4] == q && s[4..] == rest;
  }

  /** Decoding an encoding gives back the bytes that were encoded. */
  lemma {:induction false} RoundTrip(bs: seq<byte>)
    ensures Decode(Encode(bs)) == Some(bs)
    decreases |bs|
  {
    if |bs| == 1 || |bs| == 2 {
      ShortRoundTrip(bs);
    } else if |bs| > 2 {
      RoundTrip(bs[3..]);
      GroupStep(bs[0], bs[1], bs[2], Encode(bs[3..]), bs[3..]);
      assert Encode(bs) == EncodeGroup(bs[0], bs[1], bs[2]) + Encode(bs[3..]);
      assert [bs[0], bs[1], bs[2]] + bs[3..] == bs;
    }
  }

  /** One or two bytes make a single padded quantum, which decodes back. */
  lemma ShortRoundTrip(bs: seq<byte>)
    requires 1 <= |bs| <= 2
    ensures Decode(Encode(bs)) == Some(bs)
  {
    var e := if |bs| == 1 then EncodeOne(bs[0]) else EncodeTwo(bs[0], bs[1]);
    assert Encode(bs) == e;
    TailRoundTrip(bs);
    DecodeAppend(e, "", bs, []);
    assert e + "" == e && bs + [] == bs;
  }

  /** A full group in front of input that decodes also decodes, to the
      group's three bytes followed by the rest. */
  lemma GroupStep(b0: byte, b1: byte, b2: byte, rest: string, tail: seq<byte>)
    requires Decode(rest) == Some(tail)
    ensures Decode(EncodeGroup(b0, b1, b2) + rest) == Some([b0, b1, b2] + tail)
  {
    GroupRoundTrip(b0, b1, b2);
    DecodeAppend(EncodeGroup(b0, b1, b2), rest, [b0, b1, b2], tail);
  }

  /** No two byte strings share an encoding. */
  lemma EncodeInjective(xs: seq<byte>, ys: seq<byte>)
    requires Encode(xs) == Encode(ys)
    ensures xs == ys
  {
    RoundTrip(xs);
    RoundTrip(ys);
  }

  /** Re-encoding the bytes of a full quantum gives the quantum back. */
  lemma JoinGroup(i0: sextet, i1: sextet, i2: sextet, i3: sextet)
    ensures var g := DecodeGroup(i0, i1, i2, i3);
      && g[0] / 4 == i0 && (g[0] % 4) * 16 + g[1] / 16 == i1
      && (g[1] % 16) * 4 + g[2] / 64 == i2 && g[2] % 64 == i3
  {
  }

  /** A decoded quantum is exactly what the encoder writes for its bytes. */
  lemma QuantumCanonical(q: string, last: bool)
    requires |q| == 4 && DecodeQuantum(q, last).Some?
    ensures var h := DecodeQuantum(q, last).value;
      && (|h| == 3 ==> EncodeGroup(h[0], h[1], h[2]) == q)
      && (|h| == 2 ==> EncodeTwo(h[0], h[1]) == q)
      && (|h| == 1 ==> EncodeOne(h[0]) == q)
  {
    var d0, d1, d2, d3 := DigitValue(q[0]), DigitValue(q[1]), DigitValue(q[2]), DigitValue(q[3]);
    if d2.Some? && d3.Some? {
      FullCanonical(q, d0.value, d1.value, d2.value, d3.value);
    } else if d2.Some? {
      TwoCanonical(q, d0.value, d1.value, d2.value);
    } else {
      OneCanonical(q, d0.value, d1.value);
    }
  }

  lemma FullCanonical(q: string, i0: sextet, i1: sextet, i2: sextet, i3: sextet)
    requires |q| == 4 && q[0] == Digit(i0) && q[1] == Digit(i1) && q[2] == Digit(i2) && q[3] == Digit(i3)
    ensures var h := DecodeGroup(i0, i1, i2, i3); EncodeGroup(h[0], h[1], h[2]) == q
  {
    JoinGroup(i0, i1, i2, i3);
  }

  lemma TwoCanonical(q: string, i0: sextet, i1: sextet, i2: sextet)
    requires |q| == 4 && q[0] == Digit(i0) && q[1] == Digit(i1) && q[2] == Digit(i2) && q[3] == Pad
    requires i2 % 4 == 0
    ensures var h := DecodeGroup(i0, i1, i2, 0); EncodeTwo(h[0], h[1]) == q
  {
    JoinGroup(i0, i1, i2, 0);
  }

  lemma OneCanonical(q: string, i0: sextet, i1: sextet)
    requires |q| == 4 && q[0] == Digit(i0) && q[1] == Digit(i1) && q[2] == Pad && q[3] == Pad
    requires i1 % 16 == 0
    ensures var h := DecodeGroup(i0, i1, 0, 0); EncodeOne(h[0]) == q
  {
    JoinGroup(i0, i1, 0, 0);
  }

  /** A full quantum in front of the encoding of more bytes is the encoding of
      the quantum's bytes followed by them. */
  lemma EncodePrepend(h: seq<byte>, tail: seq<byte>)
    requires |h| == 3
    ensures Encode(h + tail) == EncodeGroup(h[0], h[1], h[2]) + Encode(tail)
  {
    assert (h + tail)[3..] == tail;
  }

  /** The decoder accepts only the encoder's output: whatever decodes is the
      encoding of the bytes it decodes to. */
  lemma {:induction false} DecodeCanonical(s: string)
    requires Decode(s).Some?
    ensures Encode(Decode(s).value) == s
    decreases |s|
  {
    if |s| > 0 {
      var q, rest := s[..4], s[4..];
      var h := DecodeQuantum(q, |s| == 4).value;
      var tail := Decode(rest).value;
      assert Decode(s).value == h + tail;
      QuantumCanonical(q, |s| == 4);
      if |s| == 4 {
        assert rest == [] && tail == [] && h + tail == h;
        assert s == q;
      } else {
        DecodeCanonical(rest);
        EncodePrepend(h, tail);
        assert s == q + rest;
      }
    }
  }

  /** The decoder is the exact inverse of the encoder. */
  lemma DecodeIff(s: string, bs: seq<byte>)
    ensures Decode(s) == Some(bs) <==> s == Encode(bs)
  {
    RoundTrip(bs);
    if Decode(s) == Some(bs) {
      DecodeCanonical(s);
    }
  }

  /** `"QR=="` leaves non-zero unused bits and is refused; the encoding of
      the byte 65 is `"QQ=="`. */
  lemma NonZeroPaddingRefused()
    ensures Decode("QR==") == None
    ensures Encode([65]) == "QQ=="
  {
    assert DigitValue('Q') == Some(16);
    assert DigitValue('R') == Some(17);
    assert Digit(16) == 'Q';
    assert "QR=="[..4] == "QR==";
  }
}
