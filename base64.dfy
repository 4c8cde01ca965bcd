/**
 * `base64.b64decode(s)` with its defaults (no alternative alphabet,
 * `validate=False`), as CPython implements it.
 *
 * A `str` argument is first encoded as ASCII; a non-ASCII character raises
 * `ValueError`. The characters then go through the non-strict decoder of
 * `binascii.a2b_base64`. It reads the alphabet of section 4 of RFC 4648
 * four characters (a "quad") at a time, skips every character outside that
 * alphabet, and stops at the first pad sequence that completes a quad. When
 * no such pad sequence has been seen, it fails if the last quad is incomplete.
 */
module Base64 {
  import opened Common
  import opened PyStr

  /** The value of `c` in the base64 alphabet, or -1 when `c` is not in it. */
  function SextetOf(c: char): (v: int)
    ensures -1 <= v < 64
  {
    if 'A' <= c <= 'Z' then c as int - 'A' as int
    else if 'a' <= c <= 'z' then c as int - 'a' as int + 26
    else if '0' <= c <= '9' then c as int - '0' as int + 52
    else if c == '+' then 62
    else if c == '/' then 63
    else -1
  }

  /** The alphabet character for a 6-bit value: the inverse of SextetOf. */
  function AlphabetChar(v: nat): (c: char)
    requires v < 64
    ensures SextetOf(c) == v && c as int < 128
  {
    if v < 26 then ('A' as int + v) as char
    else if v < 52 then ('a' as int + v - 26) as char
    else if v < 62 then ('0' as int + v - 52) as char
    else if v == 62 then '+'
    else '/'
  }

  /** The decoder's registers: the position in the current quad (`quad_pos`),
      the bits left over from the previous character (`leftchar`), the pad
      characters counted since the last data character (`pads`), the bytes
      written so far, and whether a pad sequence has ended the input. */
  datatype Decoder = Decoder(quad: nat, left: nat, pads: nat, out: seq<byte>, done: bool)

  /** How many bits each quad position leaves over: 6, 4 and 2 after the
      first, second and third character, none at the start of a quad. */
  predicate Valid(d: Decoder) {
    && d.quad < 4
    && (d.quad == 0 ==> d.left == 0)
    && (d.quad == 1 ==> d.left < 64)
    && (d.quad == 2 ==> d.left < 16)
    && (d.quad == 3 ==> d.left < 4)
  }

  const Initial := Decoder(0, 0, 0, [], false)

  /** One iteration of the decoding loop, on character `c`. A byte is
      written at the 2nd, 3rd and 4th data character of a quad; the written
      bytes are never changed afterwards. */
  function Step(d: Decoder, c: char): (e: Decoder)
    requires Valid(d) && !d.done
    ensures Valid(e)
    ensures |d.out| <= |e.out| <= |d.out| + 1 && e.out[..|d.out|] == d.out
  {
    if c == '=' then
      if d.quad >= 2 then
        if d.quad + d.pads + 1 >= 4 then d.(pads := d.pads + 1, done := true)
        else d.(pads := d.pads + 1)
      else d
    else
      var v := SextetOf(c);
      if v < 0 then d
      else if d.quad == 0 then Decoder(1, v, 0, d.out, false)
      else if d.quad == 1 then Decoder(2, v % 16, 0, d.out + [d.left * 4 + v / 16], false)
      else if d.quad == 2 then Decoder(3, v % 4, 0, d.out + [d.left * 16 + v / 4], false)
      else Decoder(0, 0, 0, d.out + [d.left * 64 + v], false)
  }

  /** The decoding loop over `s`, stopping early once a pad sequence ends
      the input. Output is only ever appended to. */
  function Run(s: string, d: Decoder): (e: Decoder)
    requires Valid(d)
    ensures Valid(e)
    ensures |d.out| <= |e.out| && e.out[..|d.out|] == d.out
    decreases |s|
  {
    if d.done || |s| == 0 then d else Run(s[1..], Step(d, s[0]))
  }

  /** The ways `b64decode` fails with its defaults; all of them are
      `ValueError`s (`binascii.Error` is a subclass of `ValueError`). */
  datatype DecodeError =
    | NonAscii
    | OneMoreThanMultipleOf4(dataChars: nat)
    | IncorrectPadding

  /** The exception message for each failure. */
  function ErrorMessage(e: DecodeError): string {
    match e
    case NonAscii => "string argument should contain only ASCII characters"
    case OneMoreThanMultipleOf4(n) =>
      "Invalid base64-encoded string: number of data characters (" + NatToDecimal(n)
      + ") cannot be 1 more than a multiple of 4"
    case IncorrectPadding => "Incorrect padding"
  }

  /** What happens after the loop: a pad sequence or a complete last quad
      gives the bytes; one stray data character, or two or three without the
      pads that complete them, is an error. */
  function Finish(d: Decoder): (r: Result<seq<byte>, DecodeError>)
    ensures r.Ok? <==> d.done || d.quad == 0
    ensures r.Ok? ==> r.value == d.out
  {
    if d.done || d.quad == 0 then Ok(d.out)
    else if d.quad == 1 then Err(OneMoreThanMultipleOf4(|d.out| / 3 * 4 + 1))
    else Err(IncorrectPadding)
  }

  /** `base64.b64decode(s)`. Only a non-ASCII argument is reported as
      NonAscii. */
  function B64Decode(s: string): (r: Result<seq<byte>, DecodeError>)
    ensures r == Err(NonAscii) <==> !IsAscii(s)
  {
    if !IsAscii(s) then Err(NonAscii) else Finish(Run(s, Initial))
  }

  /** The four characters that encode three bytes. */
  function EncodeQuad(b0: byte, b1: byte, b2: byte): (s: string)
    ensures |s| == 4
  {
    [AlphabetChar(b0 / 4), AlphabetChar(b0 % 4 * 16 + b1 / 16),
     AlphabetChar(b1 % 16 * 4 + b2 / 64), AlphabetChar(b2 % 64)]
  }

  /** The standard encoding with `=` padding (section 4 of RFC 4648), as
      `base64.b64encode` produces it: the reference that decoding inverts. */
  function Encode(bs: seq<byte>): (s: string)
    ensures |bs| > 0 ==> |s| >= 4
    decreases |bs|
  {
    if |bs| == 0 then ""
    else if |bs| == 1 then
      [AlphabetChar(bs[0] / 4), AlphabetChar(bs[0] % 4 * 16), '=', '=']
    else if |bs| == 2 then
      [AlphabetChar(bs[0] / 4), AlphabetChar(bs[0] % 4 * 16 + bs[1] / 16),
       AlphabetChar(bs[1] % 16 * 4), '=']
    else EncodeQuad(bs[0], bs[1], bs[2]) + Encode(bs[3..])
  }

  /** Running the loop over two pieces is running it over the first and then
      over the second (a finished decoder ignores the rest). */
  lemma {:induction false} RunAppend(a: string, b: string, d: Decoder)
    requires Valid(d)
    ensures Run(a + b, d) == Run(b, Run(a, d))
    decreases |a|
  {
    if |a| > 0 && !d.done {
      assert (a + b)[1..] == a[1..] + b;
      RunAppend(a[1..], b, Step(d, a[0]));
    } else if |a| == 0 {
      assert a + b == b;
    } else {
      assert Run(b, d) == d;
    }
  }

  /** Four data characters from the start of a quad write three bytes made
      of their 24 bits and leave the decoder at the start of the next quad. */
  lemma RunDataQuad(c0: char, c1: char, c2: char, c3: char, v0: nat, v1: nat, v2: nat, v3: nat,
                    out: seq<byte>)
    requires SextetOf(c0) == v0 && SextetOf(c1) == v1 && SextetOf(c2) == v2 && SextetOf(c3) == v3
    ensures Run([c0, c1, c2, c3], Decoder(0, 0, 0, out, false))
         == Decoder(0, 0, 0, out + [v0 * 4 + v1 / 16, v1 % 16 * 16 + v2 / 4, v2 % 4 * 64 + v3], false)
  {
    var s := [c0, c1, c2, c3];
    var d0 := Decoder(0, 0, 0, out, false);
    var d1 := Decoder(1, v0, 0, out, false);
    var d2 := Decoder(2, v1 % 16, 0, out + [v0 * 4 + v1 / 16], false);
    var d3 := Decoder(3, v2 % 4, 0, d2.out + [v1 % 16 * 16 + v2 / 4], false);
    var d4 := Decoder(0, 0, 0, d3.out + [v2 % 4 * 64 + v3], false);
    assert Step(d0, c0) == d1;
    assert Step(d1, c1) == d2;
    assert Step(d2, c2) == d3;
    assert Step(d3, c3) == d4;
    assert s[1..][1..][1..][1..] == [];
    assert Run(s[1..][1..][1..], d3) == d4;
    assert Run(s[1..][1..], d2) == d4;
    assert Run(s[1..], d1) == d4;
    assert d4.out == out + [v0 * 4 + v1 / 16, v1 % 16 * 16 + v2 / 4, v2 % 4 * 64 + v3];
  }

  /** Two data characters and two pads write one byte; the second pad ends
      the input. */
  lemma RunTwoPads(c0: char, c1: char, v0: nat, v1: nat, out: seq<byte>)
    requires SextetOf(c0) == v0 && SextetOf(c1) == v1
    ensures Run([c0, c1, '=', '='], Decoder(0, 0, 0, out, false))
         == Decoder(2, v1 % 16, 2, out + [v0 * 4 + v1 / 16], true)
  {
    var s := [c0, c1, '=', '='];
    var d0 := Decoder(0, 0, 0, out, false);
    var d1 := Decoder(1, v0, 0, out, false);
    var d2 := Decoder(2, v1 % 16, 0, out + [v0 * 4 + v1 / 16], false);
    var d3 := d2.(pads := 1);
    var d4 := d2.(pads := 2, done := true);
    assert Step(d0, c0) == d1;
    assert Step(d1, c1) == d2;
    assert Step(d2, '=') == d3;
    assert Step(d3, '=') == d4;
    assert Run(s[1..][1..][1..], d3) == d4;
    assert Run(s[1..][1..], d2) == d4;
    assert Run(s[1..], d1) == d4;
  }

  /** Three data characters and one pad write two bytes; the pad ends the
      input. */
  lemma RunOnePad(c0: char, c1: char, c2: char, v0: nat, v1: nat, v2: nat, out: seq<byte>)
    requires SextetOf(c0) == v0 && SextetOf(c1) == v1 && SextetOf(c2) == v2
    ensures Run([c0, c1, c2, '='], Decoder(0, 0, 0, out, false))
         == Decoder(3, v2 % 4, 1, out + [v0 * 4 + v1 / 16, v1 % 16 * 16 + v2 / 4], true)
  {
    var s := [c0, c1, c2, '='];
    var d0 := Decoder(0, 0, 0, out, false);
    var d1 := Decoder(1, v0, 0, out, false);
    var d2 := Decoder(2, v1 % 16, 0, out + [v0 * 4 + v1 / 16], false);
    var d3 := Decoder(3, v2 % 4, 0, d2.out + [v1 % 16 * 16 + v2 / 4], false);
    var d4 := d3.(pads := 1, done := true);
    assert Step(d0, c0) == d1;
    assert Step(d1, c1) == d2;
    assert Step(d2, c2) == d3;
    assert Step(d3, '=') == d4;
    assert Run(s[1..][1..][1..], d3) == d4;
    assert Run(s[1..][1..], d2) == d4;
    assert Run(s[1..], d1) == d4;
    assert d4.out == out + [v0 * 4 + v1 / 16, v1 % 16 * 16 + v2 / 4];
  }

  /** The sextets of the first two characters of an encoded quad give back
      its first byte, and so on: the bit arithmetic of the encoding undone. */
  lemma QuadArithmetic(b0: byte, b1: byte, b2: byte)
    ensures (b0 / 4) * 4 + (b0 % 4 * 16 + b1 / 16) / 16 == b0
    ensures (b0 % 4 * 16 + b1 / 16) % 16 * 16 + (b1 % 16 * 4 + b2 / 64) / 4 == b1
    ensures (b1 % 16 * 4 + b2 / 64) % 4 * 64 + b2 % 64 == b2
  {
    var x1 := b0 % 4 * 16 + b1 / 16;
    var x2 := b1 % 16 * 4 + b2 / 64;
    assert x1 / 16 == b0 % 4 && x1 % 16 == b1 / 16;
    assert x2 / 4 == b1 % 16 && x2 % 4 == b2 / 64;
  }

  lemma RunLastOne(bs: seq<byte>, out: seq<byte>)
    requires |bs| == 1
    ensures Run(Encode(bs), Decoder(0, 0, 0, out, false)).done
    ensures Run(Encode(bs), Decoder(0, 0, 0, out, false)).out == out + bs
  {
    var b0 := bs[0];
    var x0, x1 := b0 / 4, b0 % 4 * 16;
    QuadArithmetic(b0, 0, 0);
    RunTwoPads(AlphabetChar(x0), AlphabetChar(x1), x0, x1, out);
    assert [x0 * 4 + x1 / 16] == bs;
  }

  /** The bit arithmetic of a two-byte tail undone. */
  lemma PairArithmetic(b0: byte, b1: byte)
    ensures (b0 / 4) * 4 + (b0 % 4 * 16 + b1 / 16) / 16 == b0
    ensures (b0 % 4 * 16 + b1 / 16) % 16 * 16 + (b1 % 16 * 4) / 4 == b1
  {
    var x1 := b0 % 4 * 16 + b1 / 16;
    assert x1 / 16 == b0 % 4 && x1 % 16 == b1 / 16;
  }

  lemma RunLastTwo(bs: seq<byte>, out: seq<byte>)
    requires |bs| == 2
    ensures Run(Encode(bs), Decoder(0, 0, 0, out, false)).done
    ensures Run(Encode(bs), Decoder(0, 0, 0, out, false)).out == out + bs
  {
    var b0, b1 := bs[0], bs[1];
    var x0, x1, x2 := b0 / 4, b0 % 4 * 16 + b1 / 16, b1 % 16 * 4;
    var c0, c1, c2 := AlphabetChar(x0), AlphabetChar(x1), AlphabetChar(x2);
    assert Encode(bs) == [c0, c1, c2, '='];
    PairArithmetic(b0, b1);
    RunOnePad(c0, c1, c2, x0, x1, x2, out);
    assert [x0 * 4 + x1 / 16, x1 % 16 * 16 + x2 / 4] == bs;
  }

  lemma RunFullQuad(b0: byte, b1: byte, b2: byte, out: seq<byte>)
    ensures Run(EncodeQuad(b0, b1, b2), Decoder(0, 0, 0, out, false))
         == Decoder(0, 0, 0, out + [b0, b1, b2], false)
  {
    var x0, x1, x2, x3 := b0 / 4, b0 % 4 * 16 + b1 / 16, b1 % 16 * 4 + b2 / 64, b2 % 64;
    QuadArithmetic(b0, b1, b2);
    RunDataQuad(AlphabetChar(x0), AlphabetChar(x1), AlphabetChar(x2), AlphabetChar(x3),
                x0, x1, x2, x3, out);
    assert [x0 * 4 + x1 / 16, x1 % 16 * 16 + x2 / 4, x2 % 4 * 64 + x3] == [b0, b1, b2];
  }

  /** Decoding an encoding of three bytes or more starts with its first quad. */
  lemma RunFirstQuad(bs: seq<byte>, out: seq<byte>)
    requires |bs| >= 3
    ensures Run(Encode(bs), Decoder(0, 0, 0, out, false))
         == Run(Encode(bs[3..]), Decoder(0, 0, 0, out + [bs[0], bs[1], bs[2]], false))
  {
    var quad := EncodeQuad(bs[0], bs[1], bs[2]);
    assert Encode(bs) == quad + Encode(bs[3..]);
    RunFullQuad(bs[0], bs[1], bs[2], out);
    RunAppend(quad, Encode(bs[3..]), Decoder(0, 0, 0, out, false));
  }

  /** Decoding the encoding of `bs` from the start of a quad appends `bs` to
      the output. The padding finishes the decoder exactly when the length of
      `bs` is not a multiple of three; otherwise the decoder is left at the
      start of a quad. */
  lemma {:induction false} RunEncode(bs: seq<byte>, out: seq<byte>)
    ensures Finish(Run(Encode(bs), Decoder(0, 0, 0, out, false))) == Ok(out + bs)
    decreases |bs|
  {
    if |bs| == 0 {
      assert Encode(bs) == [];
      assert out + bs == out;
    } else if |bs| == 1 {
      RunLastOne(bs, out);
    } else if |bs| == 2 {
      RunLastTwo(bs, out);
    } else {
      RunEncodeStep(bs, out);
    }
  }

  /** The inductive step of RunEncode: after the first quad, the rest. */
  lemma {:induction false} RunEncodeStep(bs: seq<byte>, out: seq<byte>)
    requires |bs| >= 3
    ensures Finish(Run(Encode(bs), Decoder(0, 0, 0, out, false))) == Ok(out + bs)
    decreases |bs|, 0
  {
    var mid := out + bs[..3];
    var rest := bs[3..];
    assert bs[..3] == [bs[0], bs[1], bs[2]];
    RunFirstQuad(bs, out);
    RunEncode(rest, mid);
    assert mid + rest == out + bs;
  }

  lemma {:induction false} RunEncodeEnds(bs: seq<byte>, out: seq<byte>)
    requires |bs| % 3 != 0
    ensures Run(Encode(bs), Decoder(0, 0, 0, out, false)).done
    decreases |bs|
  {
    if |bs| == 1 {
      RunLastOne(bs, out);
    } else if |bs| == 2 {
      RunLastTwo(bs, out);
    } else {
      assert |bs| >= 3;
      var rest := bs[3..];
      assert |rest| % 3 == |bs| % 3;
      RunFirstQuad(bs, out);
      RunEncodeEnds(rest, out + [bs[0], bs[1], bs[2]]);
    }
  }

  /** Decoding the encoding of a whole number of quads (no padding) appends
      the bytes and leaves the decoder at the start of a quad, still
      reading. */
  lemma {:induction false} RunEncodeWhole(bs: seq<byte>, out: seq<byte>)
    requires |bs| % 3 == 0
    ensures Run(Encode(bs), Decoder(0, 0, 0, out, false)) == Decoder(0, 0, 0, out + bs, false)
    decreases |bs|
  {
    if |bs| == 0 {
      assert Encode(bs) == [];
      assert out + bs == out;
    } else {
      RunEncodeWholeStep(bs, out);
    }
  }

  /** The inductive step of RunEncodeWhole: the first quad, then the rest. */
  lemma {:induction false} RunEncodeWholeStep(bs: seq<byte>, out: seq<byte>)
    requires |bs| % 3 == 0 && |bs| >= 3
    ensures Run(Encode(bs), Decoder(0, 0, 0, out, false)) == Decoder(0, 0, 0, out + bs, false)
    decreases |bs|, 0
  {
    var mid := out + bs[..3];
    var rest := bs[3..];
    assert bs[..3] == [bs[0], bs[1], bs[2]];
    assert |rest| % 3 == 0 by {
      assert |bs| == |rest| + 3;
    }
    assert Run(Encode(bs), Decoder(0, 0, 0, out, false)) == Run(Encode(rest), Decoder(0, 0, 0, mid, false)) by {
      RunFirstQuad(bs, out);
    }
    RunEncodeWhole(rest, mid);
    assert mid + rest == out + bs by {
      assert bs[..3] + rest == bs;
    }
  }

  /** After complete quads, the loop over `tail` ends with the decoder `e`. */
  lemma RunAfterWhole(bs: seq<byte>, tail: string, e: Decoder)
    requires |bs| % 3 == 0
    requires Run(tail, Decoder(0, 0, 0, bs, false)) == e
    ensures IsAscii(tail) ==> B64Decode(Encode(bs) + tail) == Finish(e)
  {
    if IsAscii(tail) {
      EncodeIsAscii(bs);
      AsciiAppend(Encode(bs), tail);
      RunEncodeWhole(bs, []);
      assert [] + bs == bs;
      RunAppend(Encode(bs), tail, Initial);
    }
  }

  /** The alphabet is ASCII. */
  lemma AlphabetIsAscii(c: char)
    requires SextetOf(c) >= 0
    ensures c as int < 128
  {
  }

  /** One data character after complete quads is rejected: the number of
      data characters is one more than a multiple of four. */
  lemma StrayDataCharacter(bs: seq<byte>, c: char)
    requires |bs| % 3 == 0 && SextetOf(c) >= 0
    ensures B64Decode(Encode(bs) + [c]) == Err(OneMoreThanMultipleOf4(|Encode(bs)| + 1))
  {
    var e := Decoder(1, SextetOf(c), 0, bs, false);
    assert Run([c], Decoder(0, 0, 0, bs, false)) == e by {
      assert Step(Decoder(0, 0, 0, bs, false), c) == e;
      assert [c][1..] == [];
    }
    AlphabetIsAscii(c);
    assert IsAscii([c]);
    RunAfterWhole(bs, [c], e);
    assert |Encode(bs)| == |bs| / 3 * 4 by {
      EncodeLength(bs);
      assert (|bs| + 2) / 3 == |bs| / 3;
    }
  }

  /** Two data characters from the start of a quad leave the decoder at the
      third position, still reading. */
  lemma RunTwoData(c0: char, c1: char, out: seq<byte>)
    requires SextetOf(c0) >= 0 && SextetOf(c1) >= 0
    ensures var e := Run([c0, c1], Decoder(0, 0, 0, out, false)); e.quad == 2 && !e.done
  {
    var v0, v1 := SextetOf(c0), SextetOf(c1);
    var d1 := Decoder(1, v0, 0, out, false);
    var d2 := Decoder(2, v1 % 16, 0, out + [v0 * 4 + v1 / 16], false);
    assert Step(Decoder(0, 0, 0, out, false), c0) == d1;
    assert Step(d1, c1) == d2;
    assert [c0, c1][1..][1..] == [];
    assert Run([c0, c1][1..], d1) == d2;
  }

  /** Two data characters and one pad leave the decoder at the third
      position, waiting for the second pad. */
  lemma RunTwoDataOnePad(c0: char, c1: char, out: seq<byte>)
    requires SextetOf(c0) >= 0 && SextetOf(c1) >= 0
    ensures var e := Run([c0, c1, '='], Decoder(0, 0, 0, out, false)); e.quad == 2 && !e.done
  {
    var s := [c0, c1, '='];
    var v0, v1 := SextetOf(c0), SextetOf(c1);
    var d1 := Decoder(1, v0, 0, out, false);
    var d2 := Decoder(2, v1 % 16, 0, out + [v0 * 4 + v1 / 16], false);
    var d3 := d2.(pads := 1);
    assert Step(Decoder(0, 0, 0, out, false), c0) == d1;
    assert Step(d1, c1) == d2;
    assert Step(d2, '=') == d3;
    assert s[1..][1..][1..] == [];
    assert Run(s[1..][1..], d2) == d3;
    assert Run(s[1..], d1) == d3;
  }

  /** Three data characters leave the decoder at the fourth position, still
      reading. */
  lemma RunThreeData(c0: char, c1: char, c2: char, out: seq<byte>)
    requires SextetOf(c0) >= 0 && SextetOf(c1) >= 0 && SextetOf(c2) >= 0
    ensures var e := Run([c0, c1, c2], Decoder(0, 0, 0, out, false)); e.quad == 3 && !e.done
  {
    var s := [c0, c1, c2];
    var v0, v1, v2 := SextetOf(c0), SextetOf(c1), SextetOf(c2);
    var d1 := Decoder(1, v0, 0, out, false);
    var d2 := Decoder(2, v1 % 16, 0, out + [v0 * 4 + v1 / 16], false);
    var d3 := Decoder(3, v2 % 4, 0, d2.out + [v1 % 16 * 16 + v2 / 4], false);
    assert Step(Decoder(0, 0, 0, out, false), c0) == d1;
    assert Step(d1, c1) == d2;
    assert Step(d2, c2) == d3;
    assert s[1..][1..][1..] == [];
    assert Run(s[1..][1..], d2) == d3;
    assert Run(s[1..], d1) == d3;
  }

  /** An ASCII tail after complete quads that leaves a quad with two or three
      data characters and without its pads is rejected as incorrect
      padding. */
  lemma IncompleteQuadFails(bs: seq<byte>, tail: string)
    requires |bs| % 3 == 0 && IsAscii(tail)
    requires var e := Run(tail, Decoder(0, 0, 0, bs, false)); e.quad >= 2 && !e.done
    ensures B64Decode(Encode(bs) + tail) == Err(IncorrectPadding)
  {
    RunAfterWhole(bs, tail, Run(tail, Decoder(0, 0, 0, bs, false)));
  }

  /** Two data characters after complete quads, without the two pads that
      complete their quad, are rejected as incorrect padding. */
  lemma MissingTwoPads(bs: seq<byte>, c0: char, c1: char)
    requires |bs| % 3 == 0 && SextetOf(c0) >= 0 && SextetOf(c1) >= 0
    ensures B64Decode(Encode(bs) + [c0, c1]) == Err(IncorrectPadding)
  {
    var e := Run([c0, c1], Decoder(0, 0, 0, bs, false));
    assert e.quad >= 2 && !e.done by {
      RunTwoData(c0, c1, bs);
    }
    assert IsAscii([c0, c1]) by {
      AlphabetIsAscii(c0);
      AlphabetIsAscii(c1);
    }
    IncompleteQuadFails(bs, [c0, c1]);
  }

  /** Two data characters and only one pad are rejected as incorrect
      padding too: a quad with two data characters needs both pads. */
  lemma MissingSecondPad(bs: seq<byte>, c0: char, c1: char)
    requires |bs| % 3 == 0 && SextetOf(c0) >= 0 && SextetOf(c1) >= 0
    ensures B64Decode(Encode(bs) + [c0, c1, '=']) == Err(IncorrectPadding)
  {
    var e := Run([c0, c1, '='], Decoder(0, 0, 0, bs, false));
    assert e.quad >= 2 && !e.done by {
      RunTwoDataOnePad(c0, c1, bs);
    }
    assert IsAscii([c0, c1, '=']) by {
      AlphabetIsAscii(c0);
      AlphabetIsAscii(c1);
    }
    IncompleteQuadFails(bs, [c0, c1, '=']);
  }

  /** Three data characters after complete quads, without the pad that
      completes their quad, are rejected as incorrect padding. */
  lemma MissingOnePad(bs: seq<byte>, c0: char, c1: char, c2: char)
    requires |bs| % 3 == 0 && SextetOf(c0) >= 0 && SextetOf(c1) >= 0 && SextetOf(c2) >= 0
    ensures B64Decode(Encode(bs) + [c0, c1, c2]) == Err(IncorrectPadding)
  {
    var e := Run([c0, c1, c2], Decoder(0, 0, 0, bs, false));
    assert e.quad >= 2 && !e.done by {
      RunThreeData(c0, c1, c2, bs);
    }
    assert IsAscii([c0, c1, c2]) by {
      AlphabetIsAscii(c0);
      AlphabetIsAscii(c1);
      AlphabetIsAscii(c2);
    }
    IncompleteQuadFails(bs, [c0, c1, c2]);
  }

  /** Every three bytes, and a last one or two, take four characters. */
  lemma {:induction false} EncodeLength(bs: seq<byte>)
    ensures |Encode(bs)| == (|bs| + 2) / 3 * 4
    decreases |bs|
  {
    if |bs| > 2 {
      EncodeLength(bs[3..]);
      assert (|bs| + 2) / 3 == (|bs[3..]| + 2) / 3 + 1;
    }
  }

  /** Every encoding is ASCII. */
  lemma {:induction false} EncodeIsAscii(bs: seq<byte>)
    ensures IsAscii(Encode(bs))
    decreases |bs|
  {
    if |bs| > 2 {
      EncodeIsAscii(bs[3..]);
    }
  }

  /** Round trip: `b64decode(b64encode(bs)) == bs` for every byte string. */
  lemma DecodeEncode(bs: seq<byte>)
    ensures B64Decode(Encode(bs)) == Ok(bs)
  {
    EncodeIsAscii(bs);
    RunEncode(bs, []);
    assert [] + bs == bs;
  }

  /** A character the decoder skips: neither in the alphabet nor `=`. */
  predicate Skipped(c: char) {
    c != '=' && SextetOf(c) < 0
  }

  /** `s` without the characters the decoder skips. */
  function WithoutSkipped(s: string): (r: string)
    ensures forall i :: 0 <= i < |r| ==> !Skipped(r[i])
  {
    if |s| == 0 then ""
    else if Skipped(s[0]) then WithoutSkipped(s[1..])
    else [s[0]] + WithoutSkipped(s[1..])
  }

  lemma {:induction false} RunWithoutSkipped(s: string, d: Decoder)
    requires Valid(d)
    ensures Run(s, d) == Run(WithoutSkipped(s), d)
    decreases |s|
  {
    if |s| > 0 && !d.done {
      RunWithoutSkipped(s[1..], Step(d, s[0]));
      if Skipped(s[0]) {
        RunWithoutSkipped(s[1..], d);
      } else {
        assert WithoutSkipped(s)[0] == s[0];
        assert WithoutSkipped(s)[1..] == WithoutSkipped(s[1..]);
      }
    }
  }

  /** Characters outside the alphabet (other than `=`), such as whitespace
      or line breaks inside the payload, do not change what an ASCII
      payload decodes to. */
  lemma DecodeIgnoresSkipped(s: string)
    requires IsAscii(s)
    ensures B64Decode(s) == B64Decode(WithoutSkipped(s))
  {
    RunWithoutSkipped(s, Initial);
    var w := WithoutSkipped(s);
    assert forall i :: 0 <= i < |w| ==> w[i] as int < 128 by {
      forall i | 0 <= i < |w| ensures w[i] as int < 128 {
        assert !Skipped(w[i]);
      }
    }
  }

  /** Once the padding of an encoding has been read, anything after it is
      ignored: only an input whose length is not a multiple of three has such
      padding. */
  lemma DecodeIgnoresAfterPadding(bs: seq<byte>, tail: string)
    requires |bs| % 3 != 0 && IsAscii(tail)
    ensures B64Decode(Encode(bs) + tail) == Ok(bs)
  {
    var enc := Encode(bs);
    EncodeIsAscii(bs);
    AsciiAppend(enc, tail);
    RunEncodeEnds(bs, []);
    RunAppend(enc, tail, Initial);
    var e := Run(enc, Initial);
    assert Run(enc + tail, Initial) == e;
    RunEncode(bs, []);
    assert [] + bs == bs;
  }
}
