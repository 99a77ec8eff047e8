/** The earlier `Scru128Id`: the same 128-bit identifier stored as a `u128`,
    with upper-case Base36 text written by a carry-propagation loop over
    56-bit words. */
module Identifier {
  import opened Arith
  import opened RustPrims
  import opened Positional
  import opened Lib
  import opened Layout
  import opened Base36
  import opened BigEndian

  /** The digit characters "0123456789ABCDEFGHIJKLMNOPQRSTUVWXYZ". */
  function DigitTable(): (t: seq<u8>)
    ensures |t| == 36
  {
    seq(36, d requires 0 <= d < 36 => if d < 10 then 0x30 + d else 0x41 + (d - 10))
  }

  /** `DIGITS`: digit d of the Base36 notation is written DIGITS[d]. */
  const DIGITS: seq<u8> := DigitTable()

  /** The decoding map reads every upper-case digit back as its value, and
      the digit bytes increase with the value. */
  lemma DigitsAreDecodable()
    ensures IsDigitTable(DIGITS)
  {
    forall d | 0 <= d < 36
      ensures DECODE_MAP[DIGITS[d]] == d
    {
      DecodeMapLayout(DIGITS[d]);
    }
  }

  /** A SCRU128 identifier held as one 128-bit integer. */
  datatype Scru128Id = Scru128Id(value: u128)

  /** `from_u128` and `From<u128>`. */
  function FromU128(intValue: u128): Scru128Id
  {
    Scru128Id(intValue)
  }

  /** `to_u128` and `From<Scru128Id> for u128`. */
  function ToU128(id: Scru128Id): u128
  {
    id.value
  }

  /** `to_bytes` and `From<Scru128Id> for [u8; 16]`: the big-endian bytes. */
  function ToBytes(id: Scru128Id): (b: Bytes16)
    ensures forall k :: 0 <= k < 16 ==> b[k] == (id.value / Pow(256, 15 - k)) % 256
  {
    ToBeBytes(id.value)
  }

  /** `From<[u8; 16]>`: the identifier whose integer has these big-endian
      bytes. */
  function FromBytes(arrayValue: Bytes16): (id: Scru128Id)
    ensures forall k :: 0 <= k < 16 ==> (id.value / Pow(256, 15 - k)) % 256 == arrayValue[k]
  {
    ToFromBeBytes(arrayValue);
    Scru128Id(FromBeBytes(arrayValue))
  }

  /** The integer conversions are mutually inverse. */
  lemma U128RoundTrip(intValue: u128, id: Scru128Id)
    ensures ToU128(FromU128(intValue)) == intValue
    ensures FromU128(ToU128(id)) == id
  {
  }

  /** The byte conversions are mutually inverse. */
  lemma BytesRoundTrip(arrayValue: Bytes16, id: Scru128Id)
    ensures ToBytes(FromBytes(arrayValue)) == arrayValue
    ensures FromBytes(ToBytes(id)) == id
  {
    ToFromBeBytes(arrayValue);
    FromToBeBytes(id.value);
  }

  /** `from_fields`: packs the four fields, and panics if one of the first
      three does not fit its width. */
  function FromFields(timestamp: u64, counterHi: u32, counterLo: u32, entropy: u32): (r: Outcome<Scru128Id>)
    ensures r.Panic? <==> timestamp > MAX_TIMESTAMP || counterHi > MAX_COUNTER_HI || counterLo > MAX_COUNTER_LO
    ensures r.Return? ==> Timestamp(r.value) == timestamp && CounterHi(r.value) == counterHi
    ensures r.Return? ==> CounterLo(r.value) == counterLo && Entropy(r.value) == entropy
  {
    if timestamp > MAX_TIMESTAMP || counterHi > MAX_COUNTER_HI || counterLo > MAX_COUNTER_LO then
      Panic("invalid field value")
    else
      UnpackPack(timestamp, counterHi, counterLo, entropy);
      Return(Scru128Id(Pack(timestamp, counterHi, counterLo, entropy)))
  }

  /** `timestamp`: `(self.0 >> 80) as u64`. */
  function Timestamp(id: Scru128Id): (timestamp: u64)
    ensures timestamp <= MAX_TIMESTAMP
  {
    TimestampOf(id.value)
  }

  /** `counter_hi`: `(self.0 >> 56) as u32 & MAX_COUNTER_HI`. */
  function CounterHi(id: Scru128Id): (counterHi: u32)
    ensures counterHi <= MAX_COUNTER_HI
  {
    CounterHiOf(id.value)
  }

  /** `counter_lo`: `(self.0 >> 32) as u32 & MAX_COUNTER_LO`. */
  function CounterLo(id: Scru128Id): (counterLo: u32)
    ensures counterLo <= MAX_COUNTER_LO
  {
    CounterLoOf(id.value)
  }

  /** `entropy`: `self.0 as u32 & u32::MAX`. */
  function Entropy(id: Scru128Id): u32
  {
    EntropyOf(id.value)
  }

  /** Every identifier is rebuilt from its own four fields. */
  lemma FieldsRoundTrip(id: Scru128Id)
    ensures FromFields(Timestamp(id), CounterHi(id), CounterLo(id), Entropy(id)) == Return(id)
  {
    PackUnpack(id.value);
  }

  /** The derived order of a struct holding one `u128`. */
  predicate Less(a: Scru128Id, b: Scru128Id)
  {
    a.value < b.value
  }

  /** Error parsing a text; the source keeps only a message for debugging. */
  datatype ParseError = ParseError(debugMessage: string)

  /** What parsing a text yields: a length other than 25 is reported first,
      then a byte that is not a Base36 digit, then a value that does not fit
      128 bits. */
  function Parsed(s: seq<u8>): Result<Scru128Id, ParseError>
  {
    if |s| != 25 then Err(ParseError("invalid length"))
    else if FirstInvalid(s).Some? then Err(ParseError("invalid digit"))
    else if TextValue(s) >= U128_LIMIT then Err(ParseError("out of 128-bit value range"))
    else Ok(Scru128Id(TextValue(s)))
  }

  /** `FromStr::from_str`: reads the bytes from the left with checked
      128-bit arithmetic. */
  method FromStr(strValue: seq<u8>) returns (r: Result<Scru128Id, ParseError>)
    ensures r == Parsed(strValue)
  {
    if |strValue| != 25 {
      return Err(ParseError("invalid length"));
    }
    var intValue: u128 := 0;
    for i := 0 to |strValue|
      invariant forall k :: 0 <= k < i ==> DECODE_MAP[strValue[k]] != 0xff
      invariant intValue == TextValue(strValue[..i])
    {
      var n := DECODE_MAP[strValue[i]];
      if n == 0xff {
        return Err(ParseError("invalid digit"));
      }
      TextValueStep(strValue, i);
      ReadFits(strValue, i);
      var product := CheckedMul(intValue, 36);
      if product.None? {
        return Err(ParseError("out of 128-bit value range"));
      }
      var sum := CheckedAdd(product.value, n);
      if sum.None? {
        return Err(ParseError("out of 128-bit value range"));
      }
      intValue := sum.value;
    }
    assert strValue[..25] == strValue;
    r := Ok(Scru128Id(intValue));
  }

  /** The canonical text: the 25 Base36 digits of the integer, most
      significant first, written with the upper-case DIGITS. */
  function Canonical(id: Scru128Id): (s: seq<u8>)
    ensures |s| == 25
  {
    Base36Text(id.value, DIGITS)
  }

  /** The canonical text is 25 bytes from [0-9A-Z]. */
  lemma CanonicalFormat(id: Scru128Id)
    ensures forall k :: 0 <= k < 25 ==>
      (0x30 <= Canonical(id)[k] <= 0x39) || (0x41 <= Canonical(id)[k] <= 0x5a)
  {
  }

  /** Parsing the canonical text gives back the identifier. */
  lemma ParseCanonical(id: Scru128Id)
    ensures Parsed(Canonical(id)) == Ok(id)
  {
    DigitsAreDecodable();
    ReadBase36Text(id.value, DIGITS);
  }

  /** Canonical texts compare as strings exactly as their identifiers
      compare. */
  lemma CanonicalOrder(a: Scru128Id, b: Scru128Id)
    ensures LexLess(Canonical(a), Canonical(b)) <==> Less(a, b)
  {
    DigitsAreDecodable();
    Base36TextOrder(a.value, b.value, DIGITS);
  }

  /** The upper-case digit for the value of a digit byte is the byte in
      upper case. */
  lemma DigitOfDecoded(b: u8)
    requires IsBase36Byte(b)
    ensures DIGITS[DECODE_MAP[b]] == ToUpper(b)
  {
    DecodeMapLayout(b);
  }

  /** The canonical text of a parsed identifier is the parsed text in upper
      case. */
  lemma CanonicalOfParsed(s: seq<u8>)
    requires Parsed(s).Ok?
    ensures Canonical(Parsed(s).value) == TextToUpper(s)
  {
    DigitsOfText(s);
    forall k | 0 <= k < 25
      ensures Canonical(Parsed(s).value)[k] == TextToUpper(s)[k]
    {
      DecodeMapLayout(s[k]);
      DigitOfDecoded(s[k]);
    }
  }

  /** Parsing does not see the case of the letters. */
  lemma ParseIgnoresCase(s: seq<u8>)
    ensures Parsed(TextToLower(s)) == Parsed(s)
  {
    DecodeIgnoresCase(s);
  }

  /** `encode`: a zeroed 25-byte buffer filled by `encode_inner`. */
  method Encode(id: Scru128Id) returns (s: seq<u8>)
    ensures s == Canonical(id)
  {
    var buffer := new u8[25](_ => 0);
    EncodeInner(id, buffer);
    s := buffer[..];
  }

  /** `encode_buf`: writes the canonical text to the first 25 bytes of the
      buffer and returns them; panics if the buffer is shorter. */
  method EncodeBuf(id: Scru128Id, buffer: array<u8>) returns (r: Outcome<seq<u8>>)
    modifies buffer
    ensures buffer.Length < 25 ==> r == Panic("length of `buffer` must be at least 25")
    ensures buffer.Length < 25 ==> buffer[..] == old(buffer[..])
    ensures buffer.Length >= 25 ==> r == Return(Canonical(id))
    ensures buffer.Length >= 25 ==> buffer[..25] == Canonical(id) && buffer[25..] == old(buffer[25..])
  {
    if buffer.Length < 25 {
      return Panic("length of `buffer` must be at least 25");
    }
    for k := 0 to 25
      invariant forall j :: 0 <= j < k ==> buffer[j] == 0
      invariant buffer[25..] == old(buffer[25..])
    {
      buffer[k] := 0;
    }
    EncodeInner(id, buffer);
    r := Return(buffer[..25]);
  }

  /** `encode_inner`: Base36 by long division of 56-bit words into the
      digit buffer dst[..25], which starts all zero. Each word is multiplied
      into the digits written so far, carrying from the right; min_index
      remembers how far left the digits reach, so a word only walks as far
      as its carry or the written digits need. Then each digit value becomes
      its character. */
  method EncodeInner(id: Scru128Id, dst: array<u8>)
    requires dst.Length >= 25 && forall k :: 0 <= k < 25 ==> dst[k] == 0
    modifies dst
    ensures dst[..25] == Canonical(id) && dst[25..] == old(dst[25..])
  {
    var x := id.value;
    var minIndex := 99;
    ghost var high := 168;
    NoDigitsYet(dst[..], x, high);
    for r := 0 to 3
      invariant high == 168 - 56 * r
      invariant Encoded(dst[..], x, high, minIndex)
      invariant dst[25..] == old(dst[25..])
    {
      minIndex, high := EncodeRound(dst, x, r, minIndex, high);
    }
    ghost var ds := dst[..];
    AllWordsDone(ds, x);
    SpellDigits(dst);
    Spelled(ds, dst[..], x);
  }

  /** The last step of `encode_inner`: each digit value in dst[..25] becomes
      its character. */
  method SpellDigits(dst: array<u8>)
    requires AllDigits(dst[..])
    modifies dst
    ensures forall k :: 0 <= k < 25 ==> dst[k] == DIGITS[old(dst[k])]
    ensures dst[25..] == old(dst[25..])
  {
    for k := 0 to 25
      invariant forall j :: 0 <= j < k ==> dst[j] == DIGITS[old(dst[j])]
      invariant forall j :: k <= j < dst.Length ==> dst[j] == old(dst[j])
    {
      DigitAt(old(dst[..]), k);
      dst[k] := DIGITS[dst[k]];
    }
  }

  /** The state of `encode_inner` before a round: dst[..25] holds the
      Base36 digit values of x shifted right by `high` bits, and is zero up
      to min_index. */
  ghost predicate Encoded(d: seq<u8>, x: nat, high: nat, minIndex: int)
  {
    AllDigits(d)
    && (minIndex == 99 || -1 <= minIndex <= 24)
    && (forall k :: 0 <= k < 25 && k <= minIndex ==> d[k] == 0)
    && DigitsValue(d) == x / Pow(2, high)
  }

  /** Round r of `encode_inner`: brings the next 56 bits of x, from bit
      112 - 56 * r up, into the digits. */
  method EncodeRound(dst: array<u8>, x: u128, r: nat, minIndex: int, ghost high: nat) returns (m: int, ghost shift: nat)
    requires dst.Length >= 25 && r < 3 && high == 168 - 56 * r && Encoded(dst[..], x, high, minIndex)
    modifies dst
    ensures shift == 112 - 56 * r && Encoded(dst[..], x, shift, m)
    ensures dst[25..] == old(dst[25..])
  {
    var bits := 112 - 56 * r;
    shift := bits;
    var carry := (x / Pow(2, bits)) % P64 % P56;
    ghost var v := DigitsValue(dst[..]);
    assert v == x / Pow(2, shift + 56) by {
      assert high == shift + 56;
    }
    WordSplit(x, shift, carry, v);
    m := EncodeWord(dst, carry, minIndex, v);
  }

  /** One round of `encode_inner`: dst[..25] := dst[..25] * 2^56 + word in
      Base36, walking left from place 24 while there is a carry or a digit
      left of min_index; returns the new min_index. */
  method EncodeWord(dst: array<u8>, word: nat, minIndex: int, ghost v: nat) returns (i: int)
    requires dst.Length >= 25 && word < P56 && v == DigitsValue(dst[..])
    requires minIndex == 99 || -1 <= minIndex <= 24
    requires AllDigits(dst[..])
    requires forall k :: 0 <= k < 25 && k <= minIndex ==> dst[k] == 0
    requires v * P56 + word < Pow(36, 25)
    modifies dst
    ensures -1 <= i <= 24
    ensures AllDigits(dst[..])
    ensures forall k :: 0 <= k < 25 && k <= i ==> dst[k] == 0
    ensures DigitsValue(dst[..]) == v * P56 + word
    ensures dst[25..] == old(dst[25..])
  {
    ghost var d0 := dst[..];
    var carry: u64 := word;
    i := 24;
    assert Walking(dst[..], d0, i, carry, word) by {
      assert dst[i + 1..25] == [];
    }
    while carry > 0 || i > minIndex
      invariant -1 <= i <= 24 && carry < P56
      invariant i == -1 ==> carry == 0
      invariant Walking(dst[..], d0, i, carry, word)
      decreases i + 1
    {
      carry, i := CarryPlace(dst, d0, i, carry, word);
    }
    WordDone(dst[..], d0, i, minIndex, word);
  }

  /** The first 25 entries of d are Base36 digit values. */
  ghost predicate AllDigits(d: seq<u8>)
  {
    |d| >= 25 && forall k :: 0 <= k < 25 ==> d[k] < 36
  }

  lemma DigitAt(d: seq<u8>, i: nat)
    requires AllDigits(d) && i < 25
    ensures d[i] < 36
  {
  }

  /** The body of the walk: `carry += (dst[i] as u64) << 56;
      dst[i] = (carry % 36) as u8; carry /= 36;` */
  method CarryPlace(dst: array<u8>, ghost d0: seq<u8>, i: nat, carry0: u64, ghost word: nat) returns (carry: u64, next: int)
    requires i <= 24 && carry0 < P56 && Walking(dst[..], d0, i, carry0, word)
    requires DigitsValue(d0) * P56 + word < Pow(36, 25)
    modifies dst
    ensures next == i - 1
    ensures carry < P56 && Walking(dst[..], d0, next, carry, word)
    ensures next == -1 ==> carry == 0
  {
    ghost var before := dst[..];
    DigitAt(before, i);
    SumFits(carry0, dst[i]);
    carry := carry0 + dst[i] * P56;
    ghost var sum := carry;
    dst[i] := carry % 36;
    carry := carry / 36;
    next := i - 1;
    CarryStep(before, dst[..], d0, i, next, carry0, sum, carry, word);
    if i == 0 {
      NoCarryOut(dst[..], d0, carry, word);
    }
  }

  /** The number the first 25 digit values of d stand for. */
  ghost function DigitsValue(d: seq<u8>): nat
    requires |d| >= 25
  {
    Value(d[..25], 36)
  }

  /** The walk of one word has reached place i + 1: the digits from there
      to the right, plus the carry at its place, equal the digits d0 the
      word started from, times 2^56, plus the word. */
  ghost predicate Walked(d: seq<u8>, d0: seq<u8>, i: int, carry: nat, word: nat)
    requires -1 <= i <= 24 && 25 <= |d| && 25 <= |d0|
  {
    Value(d[i + 1..25], 36) + CarryAt(carry, 24 - i) == Value(d0[i + 1..25], 36) * P56 + word
  }

  /** A carry standing at the place n digits from the right: carry * 36^n. */
  ghost function CarryAt(carry: nat, n: nat): nat
  {
    if n == 0 then carry else 36 * CarryAt(carry, n - 1)
  }

  lemma {:induction false} CarryAtIsProduct(carry: nat, n: nat)
    ensures CarryAt(carry, n) == carry * Pow(36, n)
  {
    if n > 0 {
      CarryAtIsProduct(carry, n - 1);
      MulSwap(36, carry, Pow(36, n - 1));
    }
  }

  /** The state of the walk of one word at place i: the digits are still
      Base36 digit values, those left of the walk and those past the first
      25 are as the word found them, and the long-division equation holds. */
  ghost predicate Walking(d: seq<u8>, d0: seq<u8>, i: int, carry: nat, word: nat)
  {
    -1 <= i <= 24 && |d| == |d0| && AllDigits(d)
    && d[..i + 1] == d0[..i + 1] && d[25..] == d0[25..]
    && Walked(d, d0, i, carry, word)
  }

  /** Before the first word the digits are all zero, which is x shifted
      right by 168 bits. */
  lemma NoDigitsYet(d: seq<u8>, x: u128, high: nat)
    requires |d| >= 25 && forall k :: 0 <= k < 25 ==> d[k] == 0
    requires high == 168
    ensures Encoded(d, x, high, 99)
  {
    var zeros: seq<nat> := d[..25];
    ValueOfZeros(zeros, 36);
    Pow2Values();
    SmallDiv(x, Pow(2, 168));
  }

  /** After the word of shift 0 the digits hold x itself. */
  lemma AllWordsDone(d: seq<u8>, x: u128)
    requires AllDigits(d) && DigitsValue(d) == x / Pow(2, 0)
    ensures d[..25] == Digits(x, 25, 36)
  {
    var ds: seq<nat> := d[..25];
    assert Value(ds, 36) == x by {
      assert Pow(2, 0) == 1;
    }
    assert IsDigits(ds, 36) by {
      forall k | 0 <= k < 25
        ensures ds[k] < 36
      {
        assert ds[k] == d[k];
      }
    }
    DigitsOfValue(ds, 36);
  }

  /** Spelling each digit of x gives its canonical text. */
  lemma Spelled(before: seq<u8>, after: seq<u8>, x: u128)
    requires AllDigits(before) && before[..25] == Digits(x, 25, 36)
    requires |after| >= 25 && forall k :: 0 <= k < 25 ==> after[k] == DIGITS[before[k]]
    ensures after[..25] == Base36Text(x, DIGITS)
  {
    forall k | 0 <= k < 25
      ensures after[k] == Base36Text(x, DIGITS)[k]
    {
      assert before[k] == before[..25][k];
    }
  }

  /** The word `(x >> shift) as u64 & 0xff_ffff_ffff_ffff` appended to
      x >> (shift + 56) gives x >> shift, which has 25 Base36 digits. */
  lemma WordSplit(x: u128, shift: nat, word: nat, high: nat)
    requires word == (x / Pow(2, shift)) % P64 % P56
    requires high == x / Pow(2, shift + 56)
    ensures word < P56
    ensures high * P56 + word == x / Pow(2, shift)
    ensures high * P56 + word < Pow(36, 25)
  {
    HighWord(x, shift);
    LowWord(x / Pow(2, shift), word);
    assert x / Pow(2, shift) < Pow(36, 25) by {
      DivAtMost(x, Pow(2, shift));
      Pow36Values();
    }
  }

  /** `y as u64 & 0xff_ffff_ffff_ffff` is the low 56 bits of y. */
  lemma LowWord(y: nat, word: nat)
    requires word == y % P64 % P56
    ensures word < P56 && (y / P56) * P56 + word == y
  {
    ModOfMultiple(y, P56, 256);
  }

  /** x >> (shift + 56) is (x >> shift) >> 56. */
  lemma HighWord(x: nat, shift: nat)
    ensures x / Pow(2, shift + 56) == x / Pow(2, shift) / P56
  {
    Pow2Values();
    PowAdd(2, shift, 56);
    DivDiv(x, Pow(2, shift), P56);
  }

  /** `carry + (dst[i] << 56)` stays below 36 * 2^56, so it fits a u64 and
      its quotient by 36 fits 56 bits. */
  lemma SumFits(carry: nat, digit: nat)
    requires carry < P56 && digit < 36
    ensures carry + digit * P56 < 36 * P56 < P64
    ensures (carry + digit * P56) / 36 < P56
  {
    MulMonoLeft(digit, 35, P56);
    DivLess(carry + digit * P56, 36, P56);
  }

  /** One carry step at place i keeps the long-division equation: the
      digits right of the walk plus the carry scaled to its place equal the
      old digits times 2^56 plus the word. */
  lemma CarryStep(before: seq<u8>, after: seq<u8>, d0: seq<u8>, i: nat, next: int, c0: nat, sum: nat, q: nat, word: nat)
    requires i <= 24 && next == i - 1 && Walking(before, d0, i, c0, word)
    requires sum == c0 + before[i] * P56 && q == sum / 36
    requires after == before[i := sum % 36]
    ensures Walking(after, d0, next, q, word)
  {
    assert after[25..] == before[25..];
    assert after[..i] == d0[..i] by {
      assert after[..i] == before[..i + 1][..i];
    }
    var p := Pow(36, 24 - i);
    assert before[i] == d0[i] by {
      assert before[i] == before[..i + 1][i];
    }
    var r := sum % 36;
    assert after[i + 1..25] == before[i + 1..25];
    var rest := Value(before[i + 1..25], 36);
    assert Value(after[i..25], 36) == r * p + rest by {
      ValueFront(after[i..25], 36);
      assert after[i..25][1..] == after[i + 1..25];
    }
    assert Value(d0[i..25], 36) == d0[i] * p + Value(d0[i + 1..25], 36) by {
      ValueFront(d0[i..25], 36);
      assert d0[i..25][1..] == d0[i + 1..25];
    }
    assert Pow(36, 24 - (i - 1)) == 36 * p;
    assert sum == 36 * q + r;
    CarryAtIsProduct(c0, 24 - i);
    CarryAtIsProduct(q, 24 - (i - 1));
    CarryArith(r, q, p, rest, c0, d0[i], Value(d0[i + 1..25], 36), word);
  }

  /** The arithmetic of CarryStep: the digit r and carry q of the sum
      c0 + d * 2^56 stand for that sum at place p. */
  lemma CarryArith(r: nat, q: nat, p: nat, rest: nat, c0: nat, d: nat, v: nat, word: nat)
    requires c0 + d * P56 == 36 * q + r
    requires rest + c0 * p == v * P56 + word
    ensures r * p + rest + q * (36 * p) == (d * p + v) * P56 + word
  {
    calc {
      r * p + rest + q * (36 * p);
      (36 * q + r) * p + rest;
      (c0 + d * P56) * p + rest;
      c0 * p + rest + d * P56 * p;
      v * P56 + word + d * p * P56;
      (d * p + v) * P56 + word;
    }
  }

  /** A carry out of place 0 would make the value reach 36^25. */
  lemma NoCarryOut(d: seq<u8>, d0: seq<u8>, carry: nat, word: nat)
    requires Walking(d, d0, -1, carry, word) && DigitsValue(d0) * P56 + word < Pow(36, 25)
    ensures carry == 0
  {
    assert d0[..25] == d0[0..25];
    CarryAtIsProduct(carry, 25);
    if carry > 0 {
      MulMonoLeft(1, carry, Pow(36, 25));
    }
  }

  /** When the walk stops, everything left of it is still the zero prefix,
      so the whole buffer holds the old value times 2^56 plus the word. */
  lemma WordDone(d: seq<u8>, d0: seq<u8>, i: int, minIndex: int, word: nat)
    requires -1 <= i <= 24 && i <= minIndex && Walking(d, d0, i, 0, word)
    requires forall k :: 0 <= k < 25 && k <= minIndex ==> d0[k] == 0
    ensures AllDigits(d) && d[25..] == d0[25..]
    ensures forall k :: 0 <= k < 25 && k <= i ==> d[k] == 0
    ensures DigitsValue(d) == DigitsValue(d0) * P56 + word
  {
    CarryAtIsProduct(0, 24 - i);
    var zeros: seq<nat> := d0[..i + 1];
    forall k | 0 <= k <= i
      ensures d[k] == 0
    {
      assert d[k] == d[..i + 1][k];
    }
    ValueOfZeros(zeros, 36);
    assert d[..25] == zeros + d[i + 1..25];
    assert d0[..25] == zeros + d0[i + 1..25];
    ValueAppend(zeros, d[i + 1..25], 36);
    ValueAppend(zeros, d0[i + 1..25], 36);
  }
}
