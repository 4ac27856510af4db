/** The conversion record dd_parse_replacement fills in for one directive
    (struct replacement, dd_scanf.h) and the layout of its state byte. */
module Directive {
  import opened Results

  /** format_type: what a directive converts to. */
  datatype FormatType =
    | SignedInt | UnsignedInt
    | BigNormFloat | BigExpFloat | LittleNormFloat | LittleExpFloat
    | Character | String
    | BigHex | LittleHex | OctalInt | Pointer
    | Boolean | Range

  /** The record. The source leaves the type field uninitialised until a type character
      is seen; kind is that field and None its indeterminate value. chset holds the
      characters written to the 128-byte class buffer, in order; the source keeps
      no length for it, the sequence's length stands for the write pointer. */
  datatype Replacement = Replacement(state: bv8, width: nat, kind: Option<FormatType>, chset: seq<char>)

  // Bits of the state byte (little end first):
  //   0 escaped, 1 ignored, 2 sign, 3 precision, 4 class negated, 5-6 length tier.
  const EscapedBit: bv8 := 0x01
  const IgnoredBit: bv8 := 0x02
  const SignBit: bv8 := 0x04
  const PrecisionBit: bv8 := 0x08
  const NegatedBit: bv8 := 0x10
  const LongBit: bv8 := 0x20
  const ShortBit: bv8 := 0x40

  predicate Has(state: bv8, bit: bv8) {
    state & bit != 0
  }

  /** (state >> 5) & 3: 0 default, 1 long long, 2 short, 3 char-sized. */
  function Tier(state: bv8): nat {
    ((state >> 5) & 3) as nat
  }

  /** width is a size_t: its arithmetic wraps modulo 2^64. */
  const SizeModulus: nat := 0x1_0000_0000_0000_0000

  /** Capacity of the class buffer chset. */
  const ChsetCapacity: nat := 128

  const IntDefaultWidth: nat := 10
  const FloatDefaultWidth: nat := 8

  /** The record as dd_parse_replacement starts it: state and width cleared. */
  const Cleared := Replacement(0, 0, None, [])
}
