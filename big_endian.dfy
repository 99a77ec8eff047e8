/** `u128::to_be_bytes` and `u128::from_be_bytes`: a 128-bit integer as
    sixteen bytes, most significant first. */
module BigEndian {
  import opened Arith
  import opened RustPrims
  import opened Positional

  /** The sixteen base-256 digits of x, most significant first. */
  function ToBeBytes(x: u128): (b: Bytes16)
    ensures forall k :: 0 <= k < 16 ==> b[k] == (x / Pow(256, 15 - k)) % 256
  {
    var d := Digits(x, 16, 256);
    ByteDigits(x);
    seq(16, k requires 0 <= k < 16 => ByteOf(d[k]))
  }

  /** A digit below 256 as a byte. */
  function ByteOf(d: nat): u8
    requires d < 256
  {
    d
  }

  lemma ByteDigits(x: nat)
    ensures forall k :: 0 <= k < 16 ==> Digits(x, 16, 256)[k] == (x / Pow(256, 15 - k)) % 256
  {
    forall k | 0 <= k < 16
      ensures Digits(x, 16, 256)[k] == (x / Pow(256, 15 - k)) % 256
    {
      DigitsAt(x, 16, k, 256);
    }
  }

  /** The integer whose big-endian bytes are b. */
  function FromBeBytes(b: Bytes16): u128
  {
    ValueBound(b, 256);
    Pow256Values();
    Value(b, 256)
  }

  /** Reading back the bytes of an integer gives the integer. */
  lemma FromToBeBytes(x: u128)
    ensures FromBeBytes(ToBeBytes(x)) == x
  {
    var d := Digits(x, 16, 256);
    assert ToBeBytes(x) == d;
    ValueOfDigits(x, 16, 256);
    Pow256Values();
    SmallDiv(x, Pow(256, 16));
  }

  /** Writing out the integer of a byte array gives the array. */
  lemma ToFromBeBytes(b: Bytes16)
    ensures ToBeBytes(FromBeBytes(b)) == b
  {
    DigitsOfValue(b, 256);
    assert ToBeBytes(FromBeBytes(b)) == Digits(Value(b, 256), 16, 256);
  }
}
