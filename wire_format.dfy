/**
 * Wire-format primitives of the Protocol Buffers binary encoding: packing
 * and unpacking of field tags, the wire-type constants, the closed table from
 * field type to wire type, and the field labels.
 */
module WireFormat {
  import opened JavaInts

  const WIRETYPE_VARINT: Int32 := 0
  const WIRETYPE_FIXED64: Int32 := 1
  const WIRETYPE_LENGTH_DELIMITED: Int32 := 2
  const WIRETYPE_START_GROUP: Int32 := 3
  const WIRETYPE_END_GROUP: Int32 := 4
  const WIRETYPE_FIXED32: Int32 := 5
  const TAG_TYPE_BITS: nat := 3
  const TAG_TYPE_MASK: Int32 := ShiftLeft(1, TAG_TYPE_BITS) - 1

  /** The wire type of a tag: its lower three bits. */
  function GetTagWireType(tag: Int32): (w: Int32)
    ensures 0 <= w <= 7
    ensures w == Unsigned32(tag) % 8 == tag % 8
  {
    MaskLowBits(tag);
    And(tag, TAG_TYPE_MASK)
  }

  /** Masking with TAG_TYPE_MASK keeps the remainder of the pattern modulo 8. */
  lemma MaskLowBits(tag: Int32)
    ensures TAG_TYPE_MASK == 7
    ensures And(tag, TAG_TYPE_MASK) == Unsigned32(tag) % 8 == tag % 8
  {
    assert Unsigned32(tag) % 8 == tag % 8 by {
      if tag < 0 {
        assert Unsigned32(tag) == tag + 8 * 0x2000_0000;
      }
    }
    ShiftLeftThree(1);
    var u: int := Unsigned32(tag);
    BitAndSeven(u);
    assert Unsigned32(7) == 7;
    assert And(tag, 7) == Wrap32(u % 8);
  }

  /** The field number of a tag: its upper 29 bits, shifted down without sign. */
  function GetTagFieldNumber(tag: Int32): (n: Int32)
    ensures 0 <= n < 0x2000_0000
    ensures n == Unsigned32(tag) / 8
  {
    UnsignedShiftRightThree(tag);
    UnsignedShiftRight(tag, TAG_TYPE_BITS)
  }

  /** The tag of a field number and a wire type: `(fieldNumber << 3) | wireType`. */
  function MakeTag(fieldNumber: Int32, wireType: Int32): Int32 {
    Or(ShiftLeft(fieldNumber, TAG_TYPE_BITS), wireType)
  }

  /** Shifting left by the tag-type bits keeps eight times the low 29 bits. */
  lemma {:induction false} ShiftedPattern(fieldNumber: Int32)
    ensures Unsigned32(ShiftLeft(fieldNumber, TAG_TYPE_BITS)) == 8 * (fieldNumber % 0x2000_0000)
  {
    var x: int := fieldNumber;
    ShiftLeftThree(fieldNumber);
    UnsignedOfWrap(8 * x);
    EightTimesModulo(x);
  }

  /** OR-ing a wire type into a multiple of 8 below 2^32 adds it. */
  lemma {:induction false} OrPattern(shifted: Int32, m: int, wireType: Int32)
    requires 0 <= m < 0x2000_0000
    requires 0 <= wireType <= 7
    requires Unsigned32(shifted) == 8 * m
    ensures Unsigned32(Or(shifted, wireType)) == 8 * m + wireType
  {
    var o: int := BitOr(8 * m, Unsigned32(wireType));
    assert o == 8 * m + wireType by { BitOrBelowEight(m, wireType); }
    UnsignedOfWrap(o);
  }

  /** For a wire type in 0..7, the tag's pattern is 8 times the field number modulo 2^29, plus the wire type. */
  lemma {:induction false} MakeTagPattern(fieldNumber: Int32, wireType: Int32)
    requires 0 <= wireType <= 7
    ensures Unsigned32(MakeTag(fieldNumber, wireType)) == 8 * (fieldNumber % 0x2000_0000) + wireType
  {
    ShiftedPattern(fieldNumber);
    OrPattern(ShiftLeft(fieldNumber, TAG_TYPE_BITS), fieldNumber % 0x2000_0000, wireType);
  }

  /** The wire type read from a pattern `8 * m + w` is `w`. */
  lemma {:induction false} WireTypeOfPattern(tag: Int32, m: int, wireType: int)
    requires 0 <= wireType <= 7
    requires Unsigned32(tag) == 8 * m + wireType
    ensures GetTagWireType(tag) == wireType
  {
    assert (8 * m + wireType) % 8 == wireType;
  }

  /** The field number read from a pattern `8 * m + w` is `m`. */
  lemma {:induction false} FieldNumberOfPattern(tag: Int32, m: int, wireType: int)
    requires 0 <= wireType <= 7
    requires Unsigned32(tag) == 8 * m + wireType
    ensures GetTagFieldNumber(tag) == m
  {
    assert (8 * m + wireType) / 8 == m;
  }

  /** Unpacking the wire type of a packed tag gives back the wire type. */
  lemma {:induction false} WireTypeRoundTrip(fieldNumber: Int32, wireType: Int32)
    requires 0 <= wireType <= 7
    ensures GetTagWireType(MakeTag(fieldNumber, wireType)) == wireType
  {
    MakeTagPattern(fieldNumber, wireType);
    WireTypeOfPattern(MakeTag(fieldNumber, wireType), fieldNumber % 0x2000_0000, wireType);
  }

  /** Unpacking the field number of a packed tag gives back a field number below 2^29. */
  lemma {:induction false} FieldNumberRoundTrip(fieldNumber: Int32, wireType: Int32)
    requires 0 <= fieldNumber < 0x2000_0000
    requires 0 <= wireType <= 7
    ensures GetTagFieldNumber(MakeTag(fieldNumber, wireType)) == fieldNumber
  {
    MakeTagInRange(fieldNumber, wireType);
    FieldNumberOfPattern(MakeTag(fieldNumber, wireType), fieldNumber, wireType);
  }

  /** A valid field number never packs to the end-of-stream tag 0. */
  lemma {:induction false} TagOfFieldIsNonZero(fieldNumber: Int32, wireType: Int32)
    requires 1 <= fieldNumber < 0x2000_0000
    requires 0 <= wireType <= 7
    ensures MakeTag(fieldNumber, wireType) != 0
  {
    MakeTagInRange(fieldNumber, wireType);
    assert Unsigned32(MakeTag(fieldNumber, wireType)) >= 8;
  }

  /** Two ints with the same unsigned pattern are equal. */
  lemma SamePatternSameInt(a: Int32, b: Int32)
    requires Unsigned32(a) == Unsigned32(b)
    ensures a == b
  {
  }

  /** A field number below 2^29 and a wire type pack to the pattern `8 * n + w`. */
  lemma {:induction false} MakeTagInRange(fieldNumber: Int32, wireType: Int32)
    requires 0 <= fieldNumber < 0x2000_0000
    requires 0 <= wireType <= 7
    ensures Unsigned32(MakeTag(fieldNumber, wireType)) == 8 * fieldNumber + wireType
  {
    MakeTagPattern(fieldNumber, wireType);
  }

  /** Every int is the packing of its own field number and wire type. */
  lemma {:induction false} TagRecompose(tag: Int32)
    ensures MakeTag(GetTagFieldNumber(tag), GetTagWireType(tag)) == tag
  {
    var n := GetTagFieldNumber(tag);
    var w := GetTagWireType(tag);
    var u: int := Unsigned32(tag);
    assert 8 * (n as int) + (w as int) == u by {
      assert n as int == u / 8 && w as int == u % 8;
    }
    MakeTagInRange(n, w);
    SamePatternSameInt(MakeTag(n, w), tag);
  }

  /** The declared field types; UNKNOWN is the "infer from the host type" default. */
  datatype FieldType =
    | DOUBLE | FLOAT | INT64 | UINT64 | INT32 | FIXED64 | FIXED32 | BOOL | STRING
    | GROUP | MESSAGE | BYTES | UINT32 | ENUM | SFIXED32 | SFIXED64 | SINT32 | SINT64
    | UNKNOWN

  /** The wire type each field type is encoded with. */
  function WireTypeOf(t: FieldType): (w: Int32)
    ensures w == WIRETYPE_LENGTH_DELIMITED <==> t in {STRING, MESSAGE, BYTES}
    ensures w == WIRETYPE_FIXED64 <==> t in {DOUBLE, FIXED64, SFIXED64}
    ensures w == WIRETYPE_FIXED32 <==> t in {FLOAT, FIXED32, SFIXED32}
    ensures w == WIRETYPE_START_GROUP <==> t == GROUP
    ensures w == WIRETYPE_VARINT <==>
              t in {INT64, UINT64, INT32, BOOL, UINT32, ENUM, SINT32, SINT64, UNKNOWN}
    ensures w != WIRETYPE_END_GROUP
  {
    match t
    case DOUBLE => WIRETYPE_FIXED64
    case FLOAT => WIRETYPE_FIXED32
    case INT64 => WIRETYPE_VARINT
    case UINT64 => WIRETYPE_VARINT
    case INT32 => WIRETYPE_VARINT
    case FIXED64 => WIRETYPE_FIXED64
    case FIXED32 => WIRETYPE_FIXED32
    case BOOL => WIRETYPE_VARINT
    case STRING => WIRETYPE_LENGTH_DELIMITED
    case GROUP => WIRETYPE_START_GROUP
    case MESSAGE => WIRETYPE_LENGTH_DELIMITED
    case BYTES => WIRETYPE_LENGTH_DELIMITED
    case UINT32 => WIRETYPE_VARINT
    case ENUM => WIRETYPE_VARINT
    case SFIXED32 => WIRETYPE_FIXED32
    case SFIXED64 => WIRETYPE_FIXED64
    case SINT32 => WIRETYPE_VARINT
    case SINT64 => WIRETYPE_VARINT
    case UNKNOWN => WIRETYPE_VARINT
  }

  datatype FieldLabel = OPTIONAL | REQUIRED | REPEATED
}
