/**
 * The simple label of Vowpal Wabbit: the `label_data` record, the record
 * size the `simple_label` parser table announces, and the `nanpattern`
 * test on the bit pattern of a single-precision float.
 *
 * A `float` is modelled by its 32-bit pattern (`Binary32.Bits`); nothing
 * here does floating-point arithmetic.
 */
module SimpleLabel {
  import opened Binary32

  // ---------------------------------------------------------------------
  // nanpattern
  // ---------------------------------------------------------------------

  const MagnitudeMask: Bits := 0x7fff_ffff
  const InfinityPattern: Bits := 0x7f80_0000

  /**
   * Reinterprets the float's storage as an unsigned 32-bit integer, clears
   * the sign bit and compares (unsigned) with the pattern of +infinity.
   * The result is true exactly when every exponent bit is set and at least
   * one trailing-significand bit is set.
   */
  function NanPattern(value: Bits): (r: bool)
    ensures r <==> value & ExponentField == ExponentField && value & TrailingField != 0
  {
    (value & MagnitudeMask) > InfinityPattern
  }

  /** The test agrees with the classification of IEEE 754-2008, section 3.4: it holds of NaNs and only of them. */
  lemma NanPatternIsNaN(x: Bits)
    ensures NanPattern(x) <==> Classify(Decode(x)) == NaN
  {
    ClassifyBits(x);
  }

  /** In terms of the fields: the biased exponent is all ones and the trailing significand is not all zeros. */
  lemma NanPatternFields(x: Bits)
    ensures NanPattern(x) <==>
      AllOnes(Decode(x).biasedExponent) && !AllZeros(Decode(x).trailingSignificand)
  {
    ExponentAllOnes(x);
    TrailingAllZeros(x);
  }

  /** The sign bit is ignored: flipping or clearing it keeps both the test's result and the class of the datum. */
  lemma SignIgnored(x: Bits)
    ensures NanPattern(x ^ SignBit) == NanPattern(x)
    ensures NanPattern(x & MagnitudeMask) == NanPattern(x)
    ensures Classify(Decode(x ^ SignBit)) == Classify(Decode(x))
    ensures Classify(Decode(x & MagnitudeMask)) == Classify(Decode(x))
  {
    FlipSignDecode(x);
    ClearSignDecode(x);
    ClassifyIgnoresSign(Decode(x), false);
  }

  /** Both infinities have the all-ones exponent and are not NaN patterns. */
  lemma InfinitiesNotNaN()
    ensures !NanPattern(0x7f80_0000) && !NanPattern(0xff80_0000)
    ensures Classify(Decode(0x7f80_0000)) == Infinity && !Decode(0x7f80_0000).sign
    ensures Classify(Decode(0xff80_0000)) == Infinity && Decode(0xff80_0000).sign
  {
    ClassifyBits(0x7f80_0000);
    ClassifyBits(0xff80_0000);
  }

  /** A pattern whose biased exponent is not all ones (zeros, subnormals, normals) is never reported as NaN. */
  lemma FiniteNotNaN(x: Bits)
    requires !AllOnes(Decode(x).biasedExponent)
    ensures !NanPattern(x)
    ensures Classify(Decode(x)) in {Zero, Subnormal, Normal}
  {
    ExponentAllOnes(x);
    ClassifyBits(x);
  }

  /**
   * The NaN patterns are exactly those whose magnitude lies strictly above
   * +infinity; 0x7f800001 and 0x7fffffff, and their sign-flipped forms
   * 0xff800001 and 0xffffffff, are the smallest and largest of them.
   */
  lemma NanRange(x: Bits)
    ensures NanPattern(x) <==> 0x7f80_0001 <= x & MagnitudeMask <= 0x7fff_ffff
    ensures NanPattern(x) && x & SignBit == 0 ==> 0x7f80_0001 <= x <= 0x7fff_ffff
    ensures NanPattern(x) && x & SignBit != 0 ==> 0xff80_0001 <= x
  {
  }

  lemma NanExtremes()
    ensures NanPattern(0x7f80_0001) && NanPattern(0x7fff_ffff)
    ensures NanPattern(0xff80_0001) && NanPattern(0xffff_ffff)
    ensures !NanPattern(0x7f80_0000) && !NanPattern(0x7f7f_ffff)
  {
  }

  // ---------------------------------------------------------------------
  // label_data and the simple_label table
  // ---------------------------------------------------------------------

  /** The label of one example: the target, its importance weight and the initial prediction. */
  datatype LabelData = LabelData(labelValue: Bits, weight: Bits, initial: Bits)

  /** Bytes taken by one `float` field. */
  const FieldSize: nat := 4

  /** `sizeof(label_data)`: three four-byte fields and no padding. */
  const LabelSize: nat := 3 * FieldSize

  /**
   * The storage of one field: the bytes of its pattern, least significant
   * first, as on x86.  Nothing proved below depends on this byte order.
   */
  function FieldImage(x: Bits): (bs: seq<Byte>)
    ensures |bs| == FieldSize
  {
    var b := Bytes(x);
    [b[3], b[2], b[1], b[0]]
  }

  /** The pattern stored in four bytes, least significant first. */
  function FieldOf(bs: seq<Byte>): Bits
    requires |bs| == FieldSize
  {
    Word([bs[3], bs[2], bs[1], bs[0]])
  }

  /** The storage of a record: its fields in declaration order. */
  function Image(d: LabelData): (bs: seq<Byte>)
    ensures |bs| == LabelSize
  {
    FieldImage(d.labelValue) + FieldImage(d.weight) + FieldImage(d.initial)
  }

  /** The record stored in `LabelSize` bytes. */
  function FromImage(bs: seq<Byte>): LabelData
    requires |bs| == LabelSize
  {
    LabelData(FieldOf(bs[0..4]), FieldOf(bs[4..8]), FieldOf(bs[8..12]))
  }

  lemma FieldOfImage(x: Bits)
    ensures FieldOf(FieldImage(x)) == x
  {
    WordBytes(x);
  }

  lemma ImageOfField(bs: seq<Byte>)
    requires |bs| == FieldSize
    ensures FieldImage(FieldOf(bs)) == bs
  {
    BytesWord([bs[3], bs[2], bs[1], bs[0]]);
  }

  /** The fields lie at offsets 0, 4 and 8. */
  lemma FieldOffsets(d: LabelData)
    ensures Image(d)[0..4] == FieldImage(d.labelValue)
    ensures Image(d)[4..8] == FieldImage(d.weight)
    ensures Image(d)[8..12] == FieldImage(d.initial)
  {
    var a, b, c := FieldImage(d.labelValue), FieldImage(d.weight), FieldImage(d.initial);
    assert (a + b + c)[4..8] == b;
    assert (a + b + c)[8..12] == c;
  }

  /** Reading back the storage of a record gives the record. */
  lemma FromImageImage(d: LabelData)
    ensures FromImage(Image(d)) == d
  {
    FieldOffsets(d);
    FieldOfImage(d.labelValue);
    FieldOfImage(d.weight);
    FieldOfImage(d.initial);
  }

  /** Every `LabelSize` bytes are the storage of exactly one record. */
  lemma ImageFromImage(bs: seq<Byte>)
    requires |bs| == LabelSize
    ensures Image(FromImage(bs)) == bs
  {
    ImageOfField(bs[0..4]);
    ImageOfField(bs[4..8]);
    ImageOfField(bs[8..12]);
    assert bs == bs[0..4] + bs[4..8] + bs[8..12];
  }

  /**
   * The `label_parser` table, reduced to its record-size field; its
   * function-pointer slots refer to functions this model does not contain.
   */
  datatype LabelParser = LabelParser(labelSize: nat)

  const SimpleLabelParser: LabelParser := LabelParser(LabelSize)

  /** The table announces twelve bytes per label, the size of every record's storage. */
  lemma SimpleLabelSize(d: LabelData)
    ensures SimpleLabelParser.labelSize == 12
    ensures |Image(d)| == SimpleLabelParser.labelSize
  {
  }
}
