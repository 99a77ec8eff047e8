/** The bit layout shared by both revisions of the identifier: a 48-bit
    timestamp, a 24-bit counter_hi, a 24-bit counter_lo and a 32-bit
    entropy field, most significant first, in one 128-bit integer.

    Rust's shifts are written as arithmetic: `x << k` is x * 2^k, `x >> k`
    is x / 2^k, a cast `as uN` keeps x % 2^N and a mask `& (2^k - 1)` keeps
    x % 2^k. */
module Layout {
  import opened Arith
  import opened RustPrims
  import opened Lib

  const P24: nat := 0x100_0000
  const P32: nat := 0x1_0000_0000
  const P56: nat := 0x100_0000_0000_0000
  const P64: nat := 0x1_0000_0000_0000_0000
  const P80: nat := 0x1_0000_0000_0000_0000_0000

  /** The field values fit their declared widths. */
  predicate FieldsInRange(timestamp: nat, counterHi: nat, counterLo: nat)
  {
    timestamp <= MAX_TIMESTAMP && counterHi <= MAX_COUNTER_HI && counterLo <= MAX_COUNTER_LO
  }

  /** `(timestamp << 80) | (counter_hi << 56) | (counter_lo << 32) | entropy`.
      The range check leaves the four shifted fields without a common bit,
      so the bitwise or is their sum. */
  function Pack(timestamp: nat, counterHi: nat, counterLo: nat, entropy: u32): (v: u128)
    requires FieldsInRange(timestamp, counterHi, counterLo)
  {
    timestamp * P80 + counterHi * P56 + counterLo * P32 + entropy
  }

  /** `(v >> 80) as u64`: the 48-bit timestamp field. */
  function TimestampOf(v: u128): (timestamp: u64)
    ensures timestamp <= MAX_TIMESTAMP
  {
    (v / P80) % P64
  }

  /** `(v >> 56) as u32 & MAX_COUNTER_HI`: the 24-bit counter_hi field. */
  function CounterHiOf(v: u128): (counterHi: u32)
    ensures counterHi <= MAX_COUNTER_HI
  {
    ((v / P56) % P32) % P24
  }

  /** `(v >> 32) as u32 & MAX_COUNTER_LO`: the 24-bit counter_lo field. */
  function CounterLoOf(v: u128): (counterLo: u32)
    ensures counterLo <= MAX_COUNTER_LO
  {
    ((v / P32) % P32) % P24
  }

  /** `v as u32 & u32::MAX`: the 32-bit entropy field. */
  function EntropyOf(v: u128): u32
  {
    (v % P32) % P32
  }

  /** Each accessor recovers the field it was packed from. */
  lemma UnpackPack(timestamp: nat, counterHi: nat, counterLo: nat, entropy: u32)
    requires FieldsInRange(timestamp, counterHi, counterLo)
    ensures TimestampOf(Pack(timestamp, counterHi, counterLo, entropy)) == timestamp
    ensures CounterHiOf(Pack(timestamp, counterHi, counterLo, entropy)) == counterHi
    ensures CounterLoOf(Pack(timestamp, counterHi, counterLo, entropy)) == counterLo
    ensures EntropyOf(Pack(timestamp, counterHi, counterLo, entropy)) == entropy
  {
    var v := Pack(timestamp, counterHi, counterLo, entropy);
    // the three right shifts
    DivModUnique(v, P80, timestamp, counterHi * P56 + counterLo * P32 + entropy);
    DivModUnique(v, P56, timestamp * P24 + counterHi, counterLo * P32 + entropy);
    DivModUnique(v, P32, timestamp * P48 + counterHi * P24 + counterLo, entropy);
    SmallDiv(timestamp, P64);
    SmallDiv(entropy, P32);
    // the casts to u32 followed by the 24-bit masks
    KeepLow24(timestamp * P24 + counterHi, timestamp, counterHi);
    KeepLow24(timestamp * P48 + counterHi * P24 + counterLo, timestamp * P24 + counterHi, counterLo);
  }

  const P48: nat := 0x1_0000_0000_0000

  /** Casting to u32 and masking with 2^24 - 1 keeps the low 24 bits. */
  lemma KeepLow24(x: nat, high: nat, low: nat)
    requires x == high * P24 + low && low < P24
    ensures (x % P32) % P24 == low
  {
    ModOfMultiple(x, P24, 0x100);
    DivModUnique(x, P24, high, low);
  }

  /** Every 128-bit value is the packing of its four fields. */
  lemma PackUnpack(v: u128)
    ensures FieldsInRange(TimestampOf(v), CounterHiOf(v), CounterLoOf(v))
    ensures Pack(TimestampOf(v), CounterHiOf(v), CounterLoOf(v), EntropyOf(v)) == v
  {
    var a, b, c := v / P32, v / P56, v / P80;
    DivDiv(v, P32, P24);
    DivDiv(v, P56, P24);
    assert b == a / P24 && c == b / P24;
    ModOfMultiple(a, P24, 0x100);
    ModOfMultiple(b, P24, 0x100);
    assert CounterLoOf(v) == a % P24 && CounterHiOf(v) == b % P24;
    DivLess(v, P80, P48);
    SmallDiv(c, P64);
    SmallDiv(v % P32, P32);
    assert TimestampOf(v) == c && EntropyOf(v) == v % P32;
    assert v == a * P32 + v % P32;
    assert a == b * P24 + a % P24;
    assert b == c * P24 + b % P24;
  }

  /** Lexicographic order of (timestamp, counter_hi, counter_lo). */
  predicate TupleLess(t1: nat, h1: nat, l1: nat, t2: nat, h2: nat, l2: nat)
  {
    t1 < t2 || (t1 == t2 && (h1 < h2 || (h1 == h2 && l1 < l2)))
  }

  /** A greater (timestamp, counter_hi, counter_lo) tuple packs to a greater
      integer whatever the two entropy values are. */
  lemma PackOrder(t1: nat, h1: nat, l1: nat, e1: u32, t2: nat, h2: nat, l2: nat, e2: u32)
    requires FieldsInRange(t1, h1, l1) && FieldsInRange(t2, h2, l2)
    requires TupleLess(t1, h1, l1, t2, h2, l2)
    ensures Pack(t1, h1, l1, e1) < Pack(t2, h2, l2, e2)
  {
  }
}
