# Vowpal Wabbit simple label: NaN bit-pattern test and label record

This project models the simple-label header of Vowpal Wabbit
(`vowpalwabbit/simple_label.h`):

- `nanpattern`, the inline test that reads a single-precision `float` as
  a raw `uint32_t`, clears the sign bit and reports a NaN pattern when the
  rest is strictly greater than `0x7f800000`, the pattern of +infinity.
  Vowpal Wabbit relies on this exact bit-level test rather than a
  floating-point comparison.
- the `label_data` record, with its three `float` fields: label, weight,
  initial.
- the `simple_label` parser table, reduced to its record-size entry
  `sizeof(label_data)`.

A `float` is modelled by its 32-bit pattern (`bv32`). No floating-point
arithmetic is modelled.

`binary32.dfy` (module `Binary32`) is an independent reference: the
binary32 interchange format of section 3.4 of IEEE 754-2008, written as
the standard words it.

- A pattern is a 32-digit string: the sign S, then 8 digits of biased
  exponent E, then 23 digits of trailing significand T.
- A datum is classified by whether E and T are all ones or all zeros.

The digit string is built byte by byte, so the proofs never convert
between bit-vectors and integers. `Decode` and `Encode` are inverse to
each other. `ClassifyBits` states each class as a test of the two field
masks `0x7f800000` (exponent) and `0x007fffff` (trailing significand).

`simple_label.dfy` (module `SimpleLabel`) models the header itself.

- `NanPattern` has the same mask, unsigned comparison and constant as line 31.
- The lemmas tie `NanPattern` to the standard's NaN class. They show
  that the sign bit is ignored, that infinities and finite values are
  never reported, and which patterns are the smallest and largest NaNs.
- The record's storage is three 4-byte fields in declaration order, and
  reading it back gives the record.
- The table's size is 12, the length of that storage.

Dafny functions are total and deterministic, so `NanPattern` has a result
for every one of the 2^32 patterns and depends on nothing but its
argument. No extra lemma is needed for that.

The record field `label` is named `labelValue` in the model, because
`label` is a Dafny keyword.

## Model

| member | source | states |
|---|---|---|
| SimpleLabel.NanPattern | vowpalwabbit/simple_label.h:31 | after the sign bit is cleared, the unsigned comparison with `0x7f800000` holds exactly when all exponent bits are set and at least one trailing-significand bit is set |
| SimpleLabel.NanPatternIsNaN | vowpalwabbit/simple_label.h:31 | the test holds of a pattern if and only if IEEE 754-2008 section 3.4 classifies it as a NaN |
| SimpleLabel.NanPatternFields | vowpalwabbit/simple_label.h:31 | the test holds if and only if the biased exponent's digits are all ones and the trailing significand's digits are not all zeros |
| Binary32.Classify | vowpalwabbit/simple_label.h:31 | the reference classification of IEEE 754-2008 section 3.4. E all ones is an infinity when T is all zeros and a NaN otherwise. E all zeros is a zero when T is all zeros and a subnormal otherwise. Any other E is a normal number |
| SimpleLabel.SignIgnored | vowpalwabbit/simple_label.h:31 | flipping or clearing the sign bit changes neither the test's result nor the standard class of the datum |
| SimpleLabel.InfinitiesNotNaN | vowpalwabbit/simple_label.h:31 | `0x7f800000` and `0xff800000` are not NaN patterns; the standard classifies them as +infinity and -infinity |
| SimpleLabel.FiniteNotNaN | vowpalwabbit/simple_label.h:31 | an exponent that is not all ones is never reported; such a pattern is a zero, a subnormal or a normal number |
| SimpleLabel.NanRange | vowpalwabbit/simple_label.h:31 | the test holds if and only if the magnitude lies in `[0x7f800001, 0x7fffffff]`; a positive NaN lies in that range, and a negative NaN is at least `0xff800001` |
| SimpleLabel.NanExtremes | vowpalwabbit/simple_label.h:31 | `0x7f800001`, `0x7fffffff`, `0xff800001` and `0xffffffff` are NaN patterns; `0x7f800000` and `0x7f7fffff`, just below, are not |
| Binary32.Decode | vowpalwabbit/simple_label.h:31 | splits the reinterpreted pattern into well-formed fields (8 exponent digits, 23 trailing digits); the sign digit is set exactly when the top bit is |
| Binary32.EncodeDecode | vowpalwabbit/simple_label.h:31 | encoding the fields of any pattern gives the pattern back |
| Binary32.DecodeEncode | vowpalwabbit/simple_label.h:31 | decoding the encoding of any well-formed fields gives the fields back |
| Binary32.ExponentAllOnes | vowpalwabbit/simple_label.h:31 | the biased exponent is all ones if and only if every bit of `0x7f800000` is set |
| Binary32.ExponentAllZeros | vowpalwabbit/simple_label.h:31 | the biased exponent is all zeros if and only if no bit of `0x7f800000` is set |
| Binary32.TrailingAllZeros | vowpalwabbit/simple_label.h:31 | the trailing significand is all zeros if and only if no bit of `0x007fffff` is set |
| Binary32.ClassifyBits | vowpalwabbit/simple_label.h:31 | each of the five classes (NaN, infinity, zero, subnormal, normal), stated both ways as a test of the exponent and trailing masks |
| Binary32.FlipSignDecode | vowpalwabbit/simple_label.h:31 | flipping the top bit flips the sign field and keeps the exponent and trailing significand |
| Binary32.ClearSignDecode | vowpalwabbit/simple_label.h:31 | clearing the top bit, as the mask `0x7fffffff` does, clears the sign field and keeps the exponent and trailing significand |
| SimpleLabel.LabelData | vowpalwabbit/simple_label.h:9-13 | the record: three 32-bit float patterns (label, weight, initial) in declaration order |
| SimpleLabel.Image | vowpalwabbit/simple_label.h:9-13 | a record's storage is 12 bytes long |
| SimpleLabel.FieldOffsets | vowpalwabbit/simple_label.h:9-13 | label, weight and initial lie at byte offsets 0, 4 and 8, in declaration order |
| SimpleLabel.FromImageImage | vowpalwabbit/simple_label.h:9-13 | reading back a record's storage gives the same label, weight and initial |
| SimpleLabel.ImageFromImage | vowpalwabbit/simple_label.h:9-13 | any 12 bytes are the storage of exactly the record read from them |
| SimpleLabel.SimpleLabelParser | vowpalwabbit/simple_label.h:24-27 | the `simple_label` table reduced to its size slot, `LabelSize` = 3 × 4 = 12 |
| SimpleLabel.SimpleLabelSize | vowpalwabbit/simple_label.h:24-27 | the table's record size is 12, the length of every record's storage |

## Left out

- `parse_simple_label`, `cache_simple_label`, `read_cached_simple_label`, `default_simple_label`, `delete_simple_label`, `get_weight`, `get_initial`, `return_simple_example` and `query_decision` (lines 15-23 and 29) are only declared in the header, with no bodies, so their behaviour cannot be modelled.
- The table's seven function-pointer slots (lines 24-26) point at those declared-only functions, so only the size slot is modelled.
- The included headers `io.h`, `parse_primitives.h`, `global_data.h` and `example.h` (lines 4-7), and the types they define (`vw`, `example`, `io_buf`, `shared_data`, `v_array`, `substring`, `label_parser`), are not part of this model.
- Floating-point values and arithmetic: a `float` is modelled only by its 32-bit pattern.
- The record's storage: `sizeof(label_data)` = 12 means three 4-byte fields with no padding, which is what the model lays out. The order of the bytes within a field is a separate choice: the model takes them least significant first, as on x86. The round trips, offsets and length hold for any order. Other byte orders are not modelled.
- The pointer cast `*(uint32_t*)&value` is modelled as reading the pattern unchanged. C's strict-aliasing rules are not modelled.
