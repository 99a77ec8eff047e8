/** The field-width constants of the crate root. */
module Lib {
  import opened Arith

  /** The maximum value of the 48-bit `timestamp` field. */
  const MAX_TIMESTAMP: nat := 0xffff_ffff_ffff

  /** The maximum value of the 24-bit `counter_hi` field. */
  const MAX_COUNTER_HI: nat := 0xff_ffff

  /** The maximum value of the 24-bit `counter_lo` field. */
  const MAX_COUNTER_LO: nat := 0xff_ffff

  /** Each constant is the largest value of its field width. */
  lemma FieldWidths()
    ensures MAX_TIMESTAMP == Pow(2, 48) - 1
    ensures MAX_COUNTER_HI == Pow(2, 24) - 1
    ensures MAX_COUNTER_LO == Pow(2, 24) - 1
  {
    Pow2Values();
  }
}
