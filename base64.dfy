/** Base64 encoding as defined in section 4 of RFC 4648 (standard alphabet,
    `=` padding, no line breaks), which is what Python's `base64.b64encode`
    produces, together with a decoder used to state the round trip. */
module Base64 {
  import opened Wrappers

  type Byte = x: int | 0 <= x < 256

  /** A 6-bit group, the unit that one output character encodes. */
  type Sextet = x: int | 0 <= x < 64

  const Pad := '='

  /** The 64 characters of the alphabet of Table 1, section 4 of RFC 4648. */
  predicate IsAlphabetChar(c: char) {
    ('A' <= c <= 'Z') || ('a' <= c <= 'z') || ('0' <= c <= '9') || c == '+' || c == '/'
  }

  /** The character that Table 1 assigns to a 6-bit value. */
  function Char(v: Sextet): (c: char)
    ensures IsAlphabetChar(c)
  {
    if v < 26 then ('A' as int + v) as char
    else if v < 52 then ('a' as int + (v - 26)) as char
    else if v < 62 then ('0' as int + (v - 52)) as char
    else if v == 62 then '+'
    else '/'
  }

  /** The 6-bit value of an alphabet character; None for any other character. */
  function Value(c: char): (v: Option<Sextet>)
    ensures v.Some? <==> IsAlphabetChar(c)
  {
    if 'A' <= c <= 'Z' then Some(c as int - 'A' as int)
    else if 'a' <= c <= 'z' then Some(c as int - 'a' as int + 26)
    else if '0' <= c <= '9' then Some(c as int - '0' as int + 52)
    else if c == '+' then Some(62)
    else if c == '/' then Some(63)
    else None
  }

  lemma ValueOfChar(v: Sextet)
    ensures Value(Char(v)) == Some(v)
  {
  }

  /** Three bytes, 24 bits, as four characters. */
  function EncodeQuantum(b0: Byte, b1: Byte, b2: Byte): string {
    [Char(b0 / 4), Char((b0 % 4) * 16 + b1 / 16), Char((b1 % 16) * 4 + b2 / 64), Char(b2 % 64)]
  }

  /** A final group of one byte: two characters and `==`. */
  function EncodeFinalOne(b0: Byte): string {
    [Char(b0 / 4), Char((b0 % 4) * 16), Pad, Pad]
  }

  /** A final group of two bytes: three characters and `=`. */
  function EncodeFinalTwo(b0: Byte, b1: Byte): string {
    [Char(b0 / 4), Char((b0 % 4) * 16 + b1 / 16), Char((b1 % 16) * 4), Pad]
  }

  /** The encoding of a byte string: whole 24-bit groups first, then a final
      group of one or two bytes padded with `==` or `=`. */
  function Encode(b: seq<Byte>): string
    decreases |b|
  {
    if |b| == 0 then ""
    else if |b| == 1 then EncodeFinalOne(b[0])
    else if |b| == 2 then EncodeFinalTwo(b[0], b[1])
    else EncodeQuantum(b[0], b[1], b[2]) + Encode(b[3..])
  }

  /** The bytes carried by the sextets of a group: the first byte spans the
      first sextet and the top two bits of the second, and so on. */
  function First(a: Sextet, b: Sextet): Byte { (a as int) * 4 + b / 16 }
  function Second(b: Sextet, c: Sextet): Byte { ((b as int) % 16) * 16 + c / 4 }
  function Third(c: Sextet, d: Sextet): Byte { ((c as int) % 4) * 64 + d }

  /** Decoding of padded input in groups of four characters; None on anything else. */
  function Decode(e: string): Option<seq<Byte>>
    decreases |e|
  {
    if |e| == 0 then Some([])
    else if |e| < 4 then None
    else
      var a, b, c, d := Value(e[0]), Value(e[1]), Value(e[2]), Value(e[3]);
      if a.None? || b.None? then None
      else if |e| == 4 && e[2] == Pad && e[3] == Pad then
        Some([First(a.value, b.value)])
      else if c.None? then None
      else if |e| == 4 && e[3] == Pad then
        Some([First(a.value, b.value), Second(b.value, c.value)])
      else if d.None? then None
      else
        var rest := Decode(e[4..]);
        if rest.None? then None
        else Some([First(a.value, b.value), Second(b.value, c.value), Third(c.value, d.value)] + rest.value)
  }

  lemma QuantumRoundTrip(b0: Byte, b1: Byte, b2: Byte)
    ensures First(b0 / 4, (b0 % 4) * 16 + b1 / 16) == b0
    ensures Second((b0 % 4) * 16 + b1 / 16, (b1 % 16) * 4 + b2 / 64) == b1
    ensures Third((b1 % 16) * 4 + b2 / 64, b2 % 64) == b2
  {
  }

  lemma DecodeOnePadded(e: string)
    requires |e| == 4 && IsAlphabetChar(e[0]) && IsAlphabetChar(e[1]) && e[2] == Pad && e[3] == Pad
    ensures Decode(e) == Some([First(Value(e[0]).value, Value(e[1]).value)])
  {
  }

  lemma DecodeTwoPadded(e: string)
    requires |e| == 4 && IsAlphabetChar(e[0]) && IsAlphabetChar(e[1]) && IsAlphabetChar(e[2]) && e[3] == Pad
    ensures Decode(e) == Some([First(Value(e[0]).value, Value(e[1]).value), Second(Value(e[1]).value, Value(e[2]).value)])
  {
    assert !IsAlphabetChar(Pad);
  }

  lemma FinalOneBytes(b0: Byte)
    ensures First(b0 / 4, (b0 % 4) * 16) == b0
  {
  }

  lemma FinalTwoBytes(b0: Byte, b1: Byte)
    ensures First(b0 / 4, (b0 % 4) * 16 + b1 / 16) == b0
    ensures Second((b0 % 4) * 16 + b1 / 16, (b1 % 16) * 4) == b1
  {
  }

  /** A final one-byte group decodes to that byte. */
  lemma FinalOneDecodes(b0: Byte)
    ensures Decode(EncodeFinalOne(b0)) == Some([b0])
  {
    var e := EncodeFinalOne(b0);
    ValueOfChar(b0 / 4);
    ValueOfChar((b0 % 4) * 16);
    assert Value(e[0]).value == b0 / 4 && Value(e[1]).value == (b0 % 4) * 16;
    DecodeOnePadded(e);
    FinalOneBytes(b0);
  }

  /** A final two-byte group decodes to those bytes. */
  lemma FinalTwoDecodes(b0: Byte, b1: Byte)
    ensures Decode(EncodeFinalTwo(b0, b1)) == Some([b0, b1])
  {
    var e := EncodeFinalTwo(b0, b1);
    var s0, s1, s2 := b0 / 4, (b0 % 4) * 16 + b1 / 16, (b1 % 16) * 4;
    ValueOfChar(s0);
    ValueOfChar(s1);
    ValueOfChar(s2);
    assert Value(e[0]).value == s0 && Value(e[1]).value == s1 && Value(e[2]).value == s2;
    DecodeTwoPadded(e);
    FinalTwoBytes(b0, b1);
  }

  lemma RoundTripOne(b: seq<Byte>)
    requires |b| == 1
    ensures Decode(Encode(b)) == Some(b)
  {
    assert Encode(b) == EncodeFinalOne(b[0]);
    FinalOneDecodes(b[0]);
    assert b == [b[0]];
  }

  lemma RoundTripTwo(b: seq<Byte>)
    requires |b| == 2
    ensures Decode(Encode(b)) == Some(b)
  {
    assert Encode(b) == EncodeFinalTwo(b[0], b[1]);
    FinalTwoDecodes(b[0], b[1]);
    assert b == [b[0], b[1]];
  }

  /** A full group in front of `t` decodes to three bytes in front of `t`'s decoding. */
  lemma DecodeFullGroup(q: string, t: string)
    requires |q| == 4 && forall i :: 0 <= i < 4 ==> IsAlphabetChar(q[i])
    ensures Decode(q + t) ==
      match Decode(t)
      case None => None
      case Some(rest) =>
        Some([First(Value(q[0]).value, Value(q[1]).value), Second(Value(q[1]).value, Value(q[2]).value),
              Third(Value(q[2]).value, Value(q[3]).value)] + rest)
  {
    var e := q + t;
    assert e[..4] == q && e[4..] == t;
    assert !IsAlphabetChar(Pad);
    assert e[0] == q[0] && e[1] == q[1] && e[2] == q[2] && e[3] == q[3];
  }

  /** The four characters of a group decode to its three bytes. */
  lemma QuantumDecodes(b0: Byte, b1: Byte, b2: Byte)
    ensures var q := EncodeQuantum(b0, b1, b2);
            |q| == 4 && (forall i :: 0 <= i < 4 ==> IsAlphabetChar(q[i])) &&
            First(Value(q[0]).value, Value(q[1]).value) == b0 &&
            Second(Value(q[1]).value, Value(q[2]).value) == b1 &&
            Third(Value(q[2]).value, Value(q[3]).value) == b2
  {
    ValueOfChar(b0 / 4);
    ValueOfChar((b0 % 4) * 16 + b1 / 16);
    ValueOfChar((b1 % 16) * 4 + b2 / 64);
    ValueOfChar(b2 % 64);
    QuantumRoundTrip(b0, b1, b2);
  }

  lemma SplitGroup(b: seq<Byte>)
    requires |b| >= 3
    ensures b == [b[0], b[1], b[2]] + b[3..]
  {
  }

  lemma RoundTripQuantum(b: seq<Byte>)
    requires |b| >= 3 && Decode(Encode(b[3..])) == Some(b[3..])
    ensures Decode(Encode(b)) == Some(b)
  {
    SplitGroup(b);
    var q := EncodeQuantum(b[0], b[1], b[2]);
    QuantumDecodes(b[0], b[1], b[2]);
    assert Encode(b) == q + Encode(b[3..]);
    DecodeFullGroup(q, Encode(b[3..]));
  }

  /** Decoding an encoding gives back the bytes. */
  lemma {:induction false} RoundTrip(b: seq<Byte>)
    ensures Decode(Encode(b)) == Some(b)
    decreases |b|
  {
    if |b| == 0 {
    } else if |b| == 1 {
      RoundTripOne(b);
    } else if |b| == 2 {
      RoundTripTwo(b);
    } else {
      RoundTrip(b[3..]);
      RoundTripQuantum(b);
    }
  }

  /** Output length is 4 * ceil(n / 3). */
  lemma {:induction false} LengthOfEncoding(b: seq<Byte>)
    ensures |Encode(b)| == 4 * ((|b| + 2) / 3)
    decreases |b|
  {
    if |b| == 1 {
      assert Encode(b) == EncodeFinalOne(b[0]);
    } else if |b| == 2 {
      assert Encode(b) == EncodeFinalTwo(b[0], b[1]);
    } else if |b| >= 3 {
      LengthOfEncoding(b[3..]);
      assert Encode(b) == EncodeQuantum(b[0], b[1], b[2]) + Encode(b[3..]);
      assert (|b| + 2) / 3 == (|b[3..]| + 2) / 3 + 1;
    }
  }

  /** Every character of `e` is from the alphabet or is `=`, and `=` stands
      exactly in the positions that a final group of `n mod 3 = rem` bytes
      leaves empty: the last one when rem is 2, the last two when it is 1,
      none when it is 0. */
  ghost predicate PaddedFor(e: string, rem: int) {
    forall i :: 0 <= i < |e| ==>
      (IsAlphabetChar(e[i]) || e[i] == Pad) &&
      (e[i] == Pad <==> (i == |e| - 1 && rem != 0) || (i == |e| - 2 && rem == 1))
  }

  lemma PrependQuantum(q: string, t: string, rem: int)
    requires |q| == 4 && forall i :: 0 <= i < 4 ==> IsAlphabetChar(q[i])
    requires PaddedFor(t, rem) && (rem != 0 ==> |t| >= 4)
    ensures PaddedFor(q + t, rem)
  {
    assert !IsAlphabetChar(Pad);
    var e := q + t;
    forall i | 0 <= i < |e|
      ensures (IsAlphabetChar(e[i]) || e[i] == Pad) &&
              (e[i] == Pad <==> (i == |e| - 1 && rem != 0) || (i == |e| - 2 && rem == 1))
    {
      if i >= 4 {
        assert e[i] == t[i - 4];
      } else {
        assert e[i] == q[i];
      }
    }
  }

  lemma PaddedOne(b: seq<Byte>)
    requires |b| == 1
    ensures PaddedFor(Encode(b), 1)
  {
    assert !IsAlphabetChar(Pad);
    var e := Encode(b);
    assert e == EncodeFinalOne(b[0]);
  }

  lemma PaddedTwo(b: seq<Byte>)
    requires |b| == 2
    ensures PaddedFor(Encode(b), 2)
  {
    assert !IsAlphabetChar(Pad);
    var e := Encode(b);
    assert e == EncodeFinalTwo(b[0], b[1]);
  }

  lemma QuantumAlphabet(b0: Byte, b1: Byte, b2: Byte)
    ensures var q := EncodeQuantum(b0, b1, b2);
            |q| == 4 && forall i :: 0 <= i < 4 ==> IsAlphabetChar(q[i])
  {
  }

  lemma EncodeGroup(b: seq<Byte>)
    requires |b| >= 3
    ensures Encode(b) == EncodeQuantum(b[0], b[1], b[2]) + Encode(b[3..])
    ensures |b| % 3 != 0 ==> |Encode(b[3..])| >= 4
  {
    LengthOfEncoding(b[3..]);
  }

  lemma PaddedGroup(b: seq<Byte>)
    requires |b| >= 3 && PaddedFor(Encode(b[3..]), |b| % 3)
    ensures PaddedFor(Encode(b), |b| % 3)
  {
    EncodeGroup(b);
    QuantumAlphabet(b[0], b[1], b[2]);
    PrependQuantum(EncodeQuantum(b[0], b[1], b[2]), Encode(b[3..]), |b| % 3);
  }

  /** The encoding uses only the alphabet and `=` padding, in the places RFC 4648 puts it. */
  lemma {:induction false} CharactersOfEncoding(b: seq<Byte>)
    ensures PaddedFor(Encode(b), |b| % 3)
    decreases |b|
  {
    if |b| == 1 {
      PaddedOne(b);
    } else if |b| == 2 {
      PaddedTwo(b);
    } else if |b| >= 3 {
      assert |b[3..]| % 3 == |b| % 3;
      CharactersOfEncoding(b[3..]);
      PaddedGroup(b);
    }
  }
}
