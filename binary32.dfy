/**
 * The IEEE 754-2008 binary32 interchange format (section 3.4 of IEEE 754-2008),
 * stated on the 32-bit pattern alone, without floating-point arithmetic.
 *
 * The standard describes an encoding as a string of k = 32 bits split into a
 * 1-bit sign S, a w = 8 bit biased exponent E and a t = 23 bit trailing
 * significand T, most significant first, and classifies a datum by whether E
 * and T are all ones or all zeros.  This module writes that description down
 * literally, on strings of binary digits, and proves how it relates to the
 * masks a program applies to the pattern.
 */
module Binary32 {
  type Bits = bv32
  type Byte = bv8
  type Digits = seq<bool>

  const Width: nat := 32
  const ExponentWidth: nat := 8
  const TrailingWidth: nat := 23

  const SignBit: Bits := 0x8000_0000
  const ExponentField: Bits := 0x7f80_0000
  const TrailingField: Bits := 0x007f_ffff

  // ---------------------------------------------------------------------
  // Bytes of a pattern
  // ---------------------------------------------------------------------

  /** The four bytes of a pattern, most significant first. */
  function Bytes(x: Bits): (bs: seq<Byte>)
    ensures |bs| == 4
  {
    [(x >> 24) as Byte, ((x >> 16) & 0xff) as Byte, ((x >> 8) & 0xff) as Byte, (x & 0xff) as Byte]
  }

  /** The pattern whose bytes, most significant first, are `bs`. */
  function Word(bs: seq<Byte>): Bits
    requires |bs| == 4
  {
    (bs[0] as Bits << 24) | (bs[1] as Bits << 16) | (bs[2] as Bits << 8) | bs[3] as Bits
  }

  lemma WordBytes(x: Bits)
    ensures Word(Bytes(x)) == x
  {
  }

  lemma BytesWord(bs: seq<Byte>)
    requires |bs| == 4
    ensures Bytes(Word(bs)) == bs
  {
  }

  // ---------------------------------------------------------------------
  // Binary digits of a byte
  // ---------------------------------------------------------------------

  /** The eight binary digits of a byte, most significant first. */
  function ByteDigits(b: Byte): (s: Digits)
    ensures |s| == 8
  {
    [b & 0x80 != 0, b & 0x40 != 0, b & 0x20 != 0, b & 0x10 != 0,
     b & 0x08 != 0, b & 0x04 != 0, b & 0x02 != 0, b & 0x01 != 0]
  }

  function Place(d: bool, weight: Byte): Byte
  {
    if d then weight else 0
  }

  /** The byte whose binary digits, most significant first, are `s`. */
  function DigitsByte(s: Digits): Byte
    requires |s| == 8
  {
    Place(s[0], 0x80) | Place(s[1], 0x40) | Place(s[2], 0x20) | Place(s[3], 0x10) |
    Place(s[4], 0x08) | Place(s[5], 0x04) | Place(s[6], 0x02) | Place(s[7], 0x01)
  }

  lemma DigitsByteDigits(b: Byte)
    ensures DigitsByte(ByteDigits(b)) == b
  {
  }

  lemma ByteDigitsByte(s: Digits)
    requires |s| == 8
    ensures ByteDigits(DigitsByte(s)) == s
  {
  }

  predicate AllOnes(s: Digits)
  {
    forall i | 0 <= i < |s| :: s[i]
  }

  predicate AllZeros(s: Digits)
  {
    forall i | 0 <= i < |s| :: !s[i]
  }

  lemma AllOnesConcat(a: Digits, b: Digits)
    ensures AllOnes(a + b) <==> AllOnes(a) && AllOnes(b)
  {
    if AllOnes(a) && AllOnes(b) {
      forall i | 0 <= i < |a + b| ensures (a + b)[i] {
        if i < |a| { assert (a + b)[i] == a[i]; } else { assert (a + b)[i] == b[i - |a|]; }
      }
    }
    if AllOnes(a + b) {
      forall i | 0 <= i < |a| ensures a[i] { assert (a + b)[i] == a[i]; }
      forall i | 0 <= i < |b| ensures b[i] { assert (a + b)[|a| + i] == b[i]; }
    }
  }

  lemma AllZerosConcat(a: Digits, b: Digits)
    ensures AllZeros(a + b) <==> AllZeros(a) && AllZeros(b)
  {
    if AllZeros(a) && AllZeros(b) {
      forall i | 0 <= i < |a + b| ensures !(a + b)[i] {
        if i < |a| { assert (a + b)[i] == a[i]; } else { assert (a + b)[i] == b[i - |a|]; }
      }
    }
    if AllZeros(a + b) {
      forall i | 0 <= i < |a| ensures !a[i] { assert (a + b)[i] == a[i]; }
      forall i | 0 <= i < |b| ensures !b[i] { assert (a + b)[|a| + i] == b[i]; }
    }
  }

  /** The seven low digits of a byte are all ones exactly when its low seven bits are set. */
  lemma LowDigitsAllOnes(b: Byte)
    ensures AllOnes(ByteDigits(b)[1..]) <==> b & 0x7f == 0x7f
  {
    var s := ByteDigits(b)[1..];
    if AllOnes(s) {
      assert s[0] && s[1] && s[2] && s[3] && s[4] && s[5] && s[6];
    }
  }

  /** The seven low digits of a byte are all zeros exactly when its low seven bits are clear. */
  lemma LowDigitsAllZeros(b: Byte)
    ensures AllZeros(ByteDigits(b)[1..]) <==> b & 0x7f == 0
  {
    var s := ByteDigits(b)[1..];
    if AllZeros(s) {
      assert !s[0] && !s[1] && !s[2] && !s[3] && !s[4] && !s[5] && !s[6];
    }
  }

  /** All eight digits of a byte are zeros exactly when the byte is zero. */
  lemma DigitsAllZeros(b: Byte)
    ensures AllZeros(ByteDigits(b)) <==> b == 0
  {
    var s := ByteDigits(b);
    if AllZeros(s) {
      assert !s[0] && !s[1] && !s[2] && !s[3] && !s[4] && !s[5] && !s[6] && !s[7];
    }
  }

  // ---------------------------------------------------------------------
  // The 32-digit string of a pattern
  // ---------------------------------------------------------------------

  /** The binary digits of a pattern, most significant first. */
  function BitString(x: Bits): (s: Digits)
    ensures |s| == Width
  {
    var bs := Bytes(x);
    ByteDigits(bs[0]) + ByteDigits(bs[1]) + ByteDigits(bs[2]) + ByteDigits(bs[3])
  }

  /** The pattern whose binary digits, most significant first, are `s`. */
  function FromBitString(s: Digits): Bits
    requires |s| == Width
  {
    Word([DigitsByte(s[0..8]), DigitsByte(s[8..16]), DigitsByte(s[16..24]), DigitsByte(s[24..32])])
  }

  /** Slicing a string of four bytes' digits back into them, for any digits. */
  lemma QuarterSlices(a: Digits, b: Digits, c: Digits, d: Digits)
    requires |a| == 8 && |b| == 8 && |c| == 8 && |d| == 8
    ensures (a + b + c + d)[0..8] == a && (a + b + c + d)[8..16] == b
    ensures (a + b + c + d)[16..24] == c && (a + b + c + d)[24..32] == d
    ensures (a + b + c + d)[0] == a[0]
    ensures (a + b + c + d)[1..9] == a[1..] + b[..1]
    ensures (a + b + c + d)[9..32] == b[1..] + c + d
  {
    var s := a + b + c + d;
    assert s[1..9] == a[1..] + b[..1];
    assert s[9..32] == b[1..] + c + d;
  }

  lemma QuarterJoin(s: Digits)
    requires |s| == Width
    ensures s == s[0..8] + s[8..16] + s[16..24] + s[24..32]
  {
  }

  lemma BitStringBytes(x: Bits)
    ensures BitString(x)[0..8] == ByteDigits(Bytes(x)[0])
    ensures BitString(x)[8..16] == ByteDigits(Bytes(x)[1])
    ensures BitString(x)[16..24] == ByteDigits(Bytes(x)[2])
    ensures BitString(x)[24..32] == ByteDigits(Bytes(x)[3])
  {
    var bs := Bytes(x);
    QuarterSlices(ByteDigits(bs[0]), ByteDigits(bs[1]), ByteDigits(bs[2]), ByteDigits(bs[3]));
  }

  lemma FromBitStringBitString(x: Bits)
    ensures FromBitString(BitString(x)) == x
  {
    var bs := Bytes(x);
    BitStringBytes(x);
    DigitsByteDigits(bs[0]);
    DigitsByteDigits(bs[1]);
    DigitsByteDigits(bs[2]);
    DigitsByteDigits(bs[3]);
    assert [DigitsByte(ByteDigits(bs[0])), DigitsByte(ByteDigits(bs[1])),
            DigitsByte(ByteDigits(bs[2])), DigitsByte(ByteDigits(bs[3]))] == bs;
    WordBytes(x);
  }

  lemma BitStringFromBitString(s: Digits)
    requires |s| == Width
    ensures BitString(FromBitString(s)) == s
  {
    var bs := [DigitsByte(s[0..8]), DigitsByte(s[8..16]), DigitsByte(s[16..24]), DigitsByte(s[24..32])];
    BytesWord(bs);
    ByteDigitsByte(s[0..8]);
    ByteDigitsByte(s[8..16]);
    ByteDigitsByte(s[16..24]);
    ByteDigitsByte(s[24..32]);
    QuarterJoin(s);
  }

  // ---------------------------------------------------------------------
  // Fields and classification
  // ---------------------------------------------------------------------

  /** An encoding split into its three fields, each most significant digit first. */
  datatype Encoding = Encoding(sign: bool, biasedExponent: Digits, trailingSignificand: Digits)
  {
    predicate WellFormed()
    {
      |biasedExponent| == ExponentWidth && |trailingSignificand| == TrailingWidth
    }
  }

  /** The classes of datum an encoding can represent. */
  datatype Class = NaN | Infinity | Normal | Subnormal | Zero

  /**
   * Classification by the fields: E all ones is an infinity when T is all
   * zeros and a NaN otherwise; E all zeros is a zero when T is all zeros and
   * a subnormal number otherwise; any other E is a normal number.
   */
  function Classify(e: Encoding): Class
  {
    if AllOnes(e.biasedExponent) then
      if AllZeros(e.trailingSignificand) then Infinity else NaN
    else if AllZeros(e.biasedExponent) then
      if AllZeros(e.trailingSignificand) then Zero else Subnormal
    else
      Normal
  }

  /** The class of a datum does not depend on its sign. */
  lemma ClassifyIgnoresSign(e: Encoding, sign: bool)
    ensures Classify(e.(sign := sign)) == Classify(e)
  {
  }

  /** The fields of a pattern: the first digit, the next eight, the last twenty-three. */
  function Decode(x: Bits): (e: Encoding)
    ensures e.WellFormed()
    ensures e.sign <==> x & SignBit != 0
  {
    var s := BitString(x);
    Encoding(s[0], s[1..9], s[9..32])
  }

  /** The pattern with the given fields. */
  function Encode(e: Encoding): (x: Bits)
    requires e.WellFormed()
  {
    FromBitString([e.sign] + e.biasedExponent + e.trailingSignificand)
  }

  /** Splitting a 32-digit string into the three fields and joining them again, for any digits. */
  lemma FieldsJoin(s: Digits)
    requires |s| == Width
    ensures [s[0]] + s[1..9] + s[9..32] == s
  {
  }

  lemma FieldsSplit(sign: bool, exponent: Digits, trailing: Digits)
    requires |exponent| == ExponentWidth && |trailing| == TrailingWidth
    ensures ([sign] + exponent + trailing)[0] == sign
    ensures ([sign] + exponent + trailing)[1..9] == exponent
    ensures ([sign] + exponent + trailing)[9..32] == trailing
  {
    var s := [sign] + exponent + trailing;
    assert s[1..9] == exponent;
    assert s[9..32] == trailing;
  }

  lemma EncodeDecode(x: Bits)
    ensures Encode(Decode(x)) == x
  {
    FieldsJoin(BitString(x));
    FromBitStringBitString(x);
  }

  lemma DecodeEncode(e: Encoding)
    requires e.WellFormed()
    ensures Decode(Encode(e)) == e
  {
    BitStringFromBitString([e.sign] + e.biasedExponent + e.trailingSignificand);
    FieldsSplit(e.sign, e.biasedExponent, e.trailingSignificand);
  }

  /** Where the fields lie in the bytes of the pattern. */
  lemma FieldDigits(x: Bits)
    ensures Decode(x).biasedExponent == ByteDigits(Bytes(x)[0])[1..] + ByteDigits(Bytes(x)[1])[..1]
    ensures Decode(x).trailingSignificand ==
      ByteDigits(Bytes(x)[1])[1..] + ByteDigits(Bytes(x)[2]) + ByteDigits(Bytes(x)[3])
  {
    var bs := Bytes(x);
    QuarterSlices(ByteDigits(bs[0]), ByteDigits(bs[1]), ByteDigits(bs[2]), ByteDigits(bs[3]));
  }

  lemma ExponentBytes(x: Bits)
    ensures x & ExponentField == ExponentField <==> Bytes(x)[0] & 0x7f == 0x7f && Bytes(x)[1] & 0x80 != 0
    ensures x & ExponentField == 0 <==> Bytes(x)[0] & 0x7f == 0 && Bytes(x)[1] & 0x80 == 0
  {
  }

  lemma TrailingBytes(x: Bits)
    ensures x & TrailingField == 0 <==> Bytes(x)[1] & 0x7f == 0 && Bytes(x)[2] == 0 && Bytes(x)[3] == 0
  {
  }

  /** The exponent's digits straddle two bytes: the seven low digits of one and the top digit of the next. */
  lemma StraddleAllOnes(a: Digits, b: Digits)
    requires |a| == 8 && |b| == 8
    ensures AllOnes(a[1..] + b[..1]) <==> AllOnes(a[1..]) && b[0]
  {
    AllOnesConcat(a[1..], b[..1]);
    assert AllOnes(b[..1]) ==> b[..1][0];
  }

  lemma StraddleAllZeros(a: Digits, b: Digits)
    requires |a| == 8 && |b| == 8
    ensures AllZeros(a[1..] + b[..1]) <==> AllZeros(a[1..]) && !b[0]
  {
    AllZerosConcat(a[1..], b[..1]);
    assert AllZeros(b[..1]) ==> !b[..1][0];
  }

  lemma HighDigit(b: Byte)
    ensures ByteDigits(b)[0] <==> b & 0x80 != 0
  {
  }

  /** The biased exponent is all ones exactly when every bit of the exponent mask is set. */
  lemma ExponentAllOnes(x: Bits)
    ensures AllOnes(Decode(x).biasedExponent) <==> x & ExponentField == ExponentField
  {
    var bs := Bytes(x);
    FieldDigits(x);
    StraddleAllOnes(ByteDigits(bs[0]), ByteDigits(bs[1]));
    LowDigitsAllOnes(bs[0]);
    HighDigit(bs[1]);
    ExponentBytes(x);
  }

  /** The biased exponent is all zeros exactly when no bit of the exponent mask is set. */
  lemma ExponentAllZeros(x: Bits)
    ensures AllZeros(Decode(x).biasedExponent) <==> x & ExponentField == 0
  {
    var bs := Bytes(x);
    FieldDigits(x);
    StraddleAllZeros(ByteDigits(bs[0]), ByteDigits(bs[1]));
    LowDigitsAllZeros(bs[0]);
    HighDigit(bs[1]);
    ExponentBytes(x);
  }

  /** The trailing significand is all zeros exactly when no bit of the trailing mask is set. */
  lemma TrailingAllZeros(x: Bits)
    ensures AllZeros(Decode(x).trailingSignificand) <==> x & TrailingField == 0
  {
    var bs := Bytes(x);
    FieldDigits(x);
    AllZerosConcat(ByteDigits(bs[1])[1..], ByteDigits(bs[2]));
    AllZerosConcat(ByteDigits(bs[1])[1..] + ByteDigits(bs[2]), ByteDigits(bs[3]));
    LowDigitsAllZeros(bs[1]);
    DigitsAllZeros(bs[2]);
    DigitsAllZeros(bs[3]);
    TrailingBytes(x);
  }

  /** The standard's classification, restated as tests of the two field masks. */
  lemma ClassifyBits(x: Bits)
    ensures Classify(Decode(x)) == NaN <==> x & ExponentField == ExponentField && x & TrailingField != 0
    ensures Classify(Decode(x)) == Infinity <==> x & ExponentField == ExponentField && x & TrailingField == 0
    ensures Classify(Decode(x)) == Zero <==> x & ExponentField == 0 && x & TrailingField == 0
    ensures Classify(Decode(x)) == Subnormal <==> x & ExponentField == 0 && x & TrailingField != 0
    ensures Classify(Decode(x)) == Normal <==> x & ExponentField != ExponentField && x & ExponentField != 0
  {
    ExponentAllOnes(x);
    ExponentAllZeros(x);
    TrailingAllZeros(x);
  }

  lemma FlipHighDigit(b: Byte)
    ensures ByteDigits(b ^ 0x80)[1..] == ByteDigits(b)[1..]
  {
  }

  lemma FlipHighByte(x: Bits)
    ensures Bytes(x ^ SignBit)[0] == Bytes(x)[0] ^ 0x80
    ensures Bytes(x ^ SignBit)[1..] == Bytes(x)[1..]
  {
  }

  /** Flipping the top bit of a pattern flips its sign and keeps both other fields. */
  lemma FlipSignDecode(x: Bits)
    ensures Decode(x ^ SignBit) == Decode(x).(sign := !Decode(x).sign)
  {
    var bs, fs := Bytes(x), Bytes(x ^ SignBit);
    FlipHighByte(x);
    assert fs[1] == bs[1] && fs[2] == bs[2] && fs[3] == bs[3] by {
      assert fs[1..][0] == fs[1] && fs[1..][1] == fs[2] && fs[1..][2] == fs[3];
    }
    FlipHighDigit(bs[0]);
    FieldDigits(x);
    FieldDigits(x ^ SignBit);
  }

  /** Clearing the top bit of a pattern clears its sign and keeps both other fields. */
  lemma ClearSignDecode(x: Bits)
    ensures Decode(x & 0x7fff_ffff) == Decode(x).(sign := false)
  {
    if x & SignBit != 0 {
      var y := x ^ SignBit;
      assert x & 0x7fff_ffff == y;
      FlipSignDecode(x);
    } else {
      assert x & 0x7fff_ffff == x;
    }
  }
}
