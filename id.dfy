/** The current `Scru128Id`: a 128-bit identifier stored as a 16-byte
    big-endian array, with its integer and byte conversions, its field
    accessors, its order and its 25-digit lower-case Base36 text form. */
module Id {
  import opened Arith
  import opened RustPrims
  import opened Positional
  import opened Lib
  import opened Layout
  import opened Base36
  import opened BigEndian

  /** The digit characters "0123456789abcdefghijklmnopqrstuvwxyz". */
  function DigitTable(): (t: seq<u8>)
    ensures |t| == 36
  {
    seq(36, d requires 0 <= d < 36 => if d < 10 then 0x30 + d else 0x61 + (d - 10))
  }

  /** `DIGITS`: digit d of the Base36 notation is written DIGITS[d]. */
  const DIGITS: seq<u8> := DigitTable()

  /** The decoding map reads every lower-case digit back as its value, and
      the digit bytes increase with the value. */
  lemma DigitsAreDecodable()
    ensures IsDigitTable(DIGITS)
  {
    forall d | 0 <= d < 36
      ensures DECODE_MAP[DIGITS[d]] == d
    {
      DecodeMapLayout(DIGITS[d]);
    }
  }

  /** A SCRU128 identifier: sixteen bytes, the big-endian form of a 128-bit
      integer. */
  datatype Scru128Id = Scru128Id(bytes: Bytes16)

  /** `from_u128`: the identifier whose bytes are the big-endian bytes of
      the integer. */
  function FromU128(intValue: u128): (id: Scru128Id)
    ensures forall k :: 0 <= k < 16 ==> id.bytes[k] == (intValue / Pow(256, 15 - k)) % 256
  {
    Scru128Id(ToBeBytes(intValue))
  }

  /** `to_u128`: the integer the bytes spell out, most significant first. */
  function ToU128(id: Scru128Id): (intValue: u128)
    ensures forall k :: 0 <= k < 16 ==> (intValue / Pow(256, 15 - k)) % 256 == id.bytes[k]
  {
    ToFromBeBytes(id.bytes);
    FromBeBytes(id.bytes)
  }

  /** `from_bytes`: the identifier holding the given bytes. */
  function FromBytes(arrayValue: Bytes16): (id: Scru128Id)
    ensures forall k :: 0 <= k < 16 ==> (ToU128(id) / Pow(256, 15 - k)) % 256 == arrayValue[k]
  {
    Scru128Id(arrayValue)
  }

  /** `to_bytes` (and `as_bytes`): the stored bytes, which are the
      big-endian bytes of `to_u128`. */
  function ToBytes(id: Scru128Id): (b: Bytes16)
    ensures forall k :: 0 <= k < 16 ==> b[k] == (ToU128(id) / Pow(256, 15 - k)) % 256
  {
    id.bytes
  }

  /** The integer conversions are mutually inverse. */
  lemma U128RoundTrip(intValue: u128, id: Scru128Id)
    ensures ToU128(FromU128(intValue)) == intValue
    ensures FromU128(ToU128(id)) == id
  {
    FromToBeBytes(intValue);
    ToFromBeBytes(id.bytes);
  }

  /** The byte conversions are mutually inverse, and the bytes of an
      identifier are the big-endian bytes of its integer. */
  lemma BytesRoundTrip(arrayValue: Bytes16, id: Scru128Id)
    ensures ToBytes(FromBytes(arrayValue)) == arrayValue
    ensures FromBytes(ToBytes(id)) == id
    ensures ToBytes(id) == ToBeBytes(ToU128(id))
  {
    ToFromBeBytes(id.bytes);
  }

  /** `from_fields`: packs the four fields, and panics if one of the first
      three does not fit its width. */
  function FromFields(timestamp: u64, counterHi: u32, counterLo: u32, entropy: u32): (r: Outcome<Scru128Id>)
    ensures r.Panic? <==> timestamp > MAX_TIMESTAMP || counterHi > MAX_COUNTER_HI || counterLo > MAX_COUNTER_LO
    ensures r.Return? ==> Timestamp(r.value) == timestamp && CounterHi(r.value) == counterHi
    ensures r.Return? ==> CounterLo(r.value) == counterLo && Entropy(r.value) == entropy
  {
    if timestamp > MAX_TIMESTAMP || counterHi > MAX_COUNTER_HI || counterLo > MAX_COUNTER_LO then
      Panic("invalid field value")
    else
      var v := Pack(timestamp, counterHi, counterLo, entropy);
      UnpackPack(timestamp, counterHi, counterLo, entropy);
      FromToBeBytes(v);
      Return(FromU128(v))
  }

  /** `timestamp`: the 48-bit field, bits 127 to 80. */
  function Timestamp(id: Scru128Id): (timestamp: u64)
    ensures timestamp <= MAX_TIMESTAMP
  {
    TimestampOf(ToU128(id))
  }

  /** `counter_hi`: the 24-bit field, bits 79 to 56. */
  function CounterHi(id: Scru128Id): (counterHi: u32)
    ensures counterHi <= MAX_COUNTER_HI
  {
    CounterHiOf(ToU128(id))
  }

  /** `counter_lo`: the 24-bit field, bits 55 to 32. */
  function CounterLo(id: Scru128Id): (counterLo: u32)
    ensures counterLo <= MAX_COUNTER_LO
  {
    CounterLoOf(ToU128(id))
  }

  /** `entropy`: the 32-bit field, bits 31 to 0. */
  function Entropy(id: Scru128Id): u32
  {
    EntropyOf(ToU128(id))
  }

  /** Every identifier is rebuilt from its own four fields. */
  lemma FieldsRoundTrip(id: Scru128Id)
    ensures FromFields(Timestamp(id), CounterHi(id), CounterLo(id), Entropy(id)) == Return(id)
  {
    var v := ToU128(id);
    PackUnpack(v);
    ToFromBeBytes(id.bytes);
  }

  /** The derived order of the struct: lexicographic order of the bytes. */
  predicate Less(a: Scru128Id, b: Scru128Id)
  {
    LexLess(a.bytes, b.bytes)
  }

  /** The byte order is the numeric order of the integers. */
  lemma LessIsNumeric(a: Scru128Id, b: Scru128Id)
    ensures Less(a, b) <==> ToU128(a) < ToU128(b)
  {
    LexLessIsValueLess(a.bytes, b.bytes, 256);
  }

  /** The order is a strict total order. */
  lemma LessIsTotalOrder(a: Scru128Id, b: Scru128Id, c: Scru128Id)
    ensures !Less(a, a)
    ensures a != b ==> (Less(a, b) <==> !Less(b, a))
    ensures Less(a, b) && Less(b, c) ==> Less(a, c)
  {
    LessIsNumeric(a, a);
    LessIsNumeric(a, b);
    LessIsNumeric(b, a);
    LessIsNumeric(b, c);
    LessIsNumeric(a, c);
    U128RoundTrip(0, a);
    U128RoundTrip(0, b);
  }

  /** Why a text is not an identifier. The source keeps the whole UTF-8
      character of an invalid digit; this model keeps its first byte. */
  datatype ParseErrorKind =
    | InvalidLength(nBytes: nat)
    | InvalidDigit(byte: u8, position: nat)
    | OutOfU128Range

  datatype ParseError = ParseError(kind: ParseErrorKind)

  /** `ParseError::invalid_length`. */
  function InvalidLengthError(nBytes: nat): ParseError
  {
    ParseError(InvalidLength(nBytes))
  }

  /** `ParseError::invalid_digit`: the byte at the position and the position. */
  function InvalidDigitError(src: seq<u8>, position: nat): ParseError
    requires position < |src|
  {
    ParseError(InvalidDigit(src[position], position))
  }

  /** `ParseError::out_of_u128_range`. */
  function OutOfU128RangeError(): ParseError
  {
    ParseError(OutOfU128Range)
  }

  /** What parsing a text yields: a length other than 25 is reported first,
      then the first byte that is not a Base36 digit, then a value that does
      not fit 128 bits. */
  function Parsed(s: seq<u8>): Result<Scru128Id, ParseError>
  {
    if |s| != 25 then Err(InvalidLengthError(|s|))
    else
      var bad := FirstInvalid(s);
      if bad.Some? then Err(InvalidDigitError(s, bad.value))
      else if TextValue(s) >= U128_LIMIT then Err(OutOfU128RangeError())
      else Ok(FromU128(TextValue(s)))
  }

  /** `try_from_str` (and `FromStr::from_str`): reads the digits from the
      left with checked 128-bit arithmetic. */
  method TryFromStr(strValue: seq<u8>) returns (r: Result<Scru128Id, ParseError>)
    ensures r == Parsed(strValue)
  {
    if |strValue| != 25 {
      return Err(InvalidLengthError(|strValue|));
    }
    var intValue: u128 := 0;
    var i := 0;
    while i < 25
      invariant 0 <= i <= 25
      invariant forall k :: 0 <= k < i ==> DECODE_MAP[strValue[k]] != 0xff
      invariant intValue == TextValue(strValue[..i])
    {
      var n := DECODE_MAP[strValue[i]];
      if n == 0xff {
        return Err(InvalidDigitError(strValue, i));
      }
      TextValueStep(strValue, i);
      ReadFits(strValue, i);
      var product := CheckedMul(intValue, 36);
      if product.None? {
        return Err(OutOfU128RangeError());
      }
      var sum := CheckedAdd(product.value, n);
      if sum.None? {
        return Err(OutOfU128RangeError());
      }
      intValue := sum.value;
      i := i + 1;
    }
    assert strValue[..25] == strValue;
    r := Ok(FromU128(intValue));
  }

  /** The canonical text: the 25 Base36 digits of the integer, most
      significant first, written with the lower-case DIGITS. */
  function Canonical(id: Scru128Id): (s: seq<u8>)
    ensures |s| == 25
  {
    Base36Text(ToU128(id), DIGITS)
  }

  /** The canonical text is 25 bytes from [0-9a-z]. */
  lemma CanonicalFormat(id: Scru128Id)
    ensures forall k :: 0 <= k < 25 ==>
      (0x30 <= Canonical(id)[k] <= 0x39) || (0x61 <= Canonical(id)[k] <= 0x7a)
  {
  }

  /** Parsing the canonical text gives back the identifier. */
  lemma ParseCanonical(id: Scru128Id)
    ensures Parsed(Canonical(id)) == Ok(id)
  {
    var x := ToU128(id);
    DigitsAreDecodable();
    ReadBase36Text(x, DIGITS);
    U128RoundTrip(x, id);
  }

  /** Canonical texts compare as strings exactly as their identifiers
      compare. */
  lemma CanonicalOrder(a: Scru128Id, b: Scru128Id)
    ensures LexLess(Canonical(a), Canonical(b)) <==> Less(a, b)
  {
    DigitsAreDecodable();
    Base36TextOrder(ToU128(a), ToU128(b), DIGITS);
    LessIsNumeric(a, b);
  }

  /** The lower-case digit for the value of a digit byte is the byte in
      lower case. */
  lemma DigitOfDecoded(b: u8)
    requires IsBase36Byte(b)
    ensures DIGITS[DECODE_MAP[b]] == ToLower(b)
  {
    DecodeMapLayout(b);
  }

  /** The canonical text of a parsed identifier is the parsed text in lower
      case. */
  lemma CanonicalOfParsed(s: seq<u8>)
    requires Parsed(s).Ok?
    ensures Canonical(Parsed(s).value) == TextToLower(s)
  {
    var id, x := Parsed(s).value, TextValue(s);
    assert ToU128(id) == x by {
      U128RoundTrip(x, id);
    }
    DigitsOfText(s);
    forall k | 0 <= k < 25
      ensures Canonical(id)[k] == TextToLower(s)[k]
    {
      DecodeMapLayout(s[k]);
      DigitOfDecoded(s[k]);
    }
  }

  /** Parsing does not see the case of the letters. */
  lemma ParseIgnoresCase(s: seq<u8>)
    ensures Parsed(TextToLower(s)) == Parsed(s)
  {
    DecodeIgnoresCase(s);
    var bad := FirstInvalid(s);
    if |s| == 25 && bad.Some? {
      DecodeMapLayout(s[bad.value]);
    }
  }

  /** `usize::MAX.ilog(36)` for a 64-bit `usize`: a chunk of 12 digits. */
  const N_CHUNK_DIGITS: nat := 12

  /** `36u128.pow(N_CHUNK_DIGITS)`. */
  const CHUNK_SIZE: nat := 4738381338321616896

  /** `encode`: fills a buffer of '0' bytes from the right, a chunk of 12
      digits at a time. */
  method Encode(id: Scru128Id) returns (s: seq<u8>)
    ensures s == Canonical(id)
  {
    var x := ToU128(id);
    var dst := new u8[25](_ => 0x30);
    var i := dst.Length;
    var intValue: nat := x;
    U128FitsText(x);
    NothingWritten(dst[..], x);
    while intValue > 0
      invariant 0 <= i <= 25 && dst.Length == 25
      invariant intValue == x / Pow(36, 25 - i) && intValue < Pow(36, i)
      invariant Written(dst[..], x, i)
      decreases i
    {
      intValue, i := EncodeChunk(dst, x, intValue, i);
    }
    AllWritten(dst[..], x, i);
    s := dst[..];
  }

  /** The text from place i on spells x in 25 - i places, and the places
      before it still hold the '0' bytes the buffer started with. */
  ghost predicate Written(d: seq<u8>, x: nat, i: nat)
  {
    i <= |d| == 25
    && (forall k :: 0 <= k < i ==> d[k] == 0x30)
    && d[i..] == Spell(Digits(x, 25 - i, 36), DIGITS)
  }

  /** A buffer of '0' bytes spells x in no places. */
  lemma NothingWritten(d: seq<u8>, x: nat)
    requires |d| == 25 && forall k :: 0 <= k < 25 ==> d[k] == 0x30
    ensures Written(d, x, 25)
  {
    assert d[25..] == [] && Digits(x, 0, 36) == [];
  }

  /** One pass of the outer loop of `encode`: takes the low chunk of the
      value left, writes its digits left of place i and moves i one chunk
      (or to the front) leftwards. */
  method EncodeChunk(dst: array<u8>, ghost x: nat, intValue: nat, i: nat) returns (rest: nat, next: nat)
    requires dst.Length == 25 && x < Pow(36, 25) && 0 < intValue
    requires i <= 25 && intValue == x / Pow(36, 25 - i) && intValue < Pow(36, i)
    requires Written(dst[..], x, i)
    modifies dst
    ensures next < i
    ensures rest == x / Pow(36, 25 - next) && rest < Pow(36, next)
    ensures Written(dst[..], x, next)
  {
    var j := i;
    next := if i >= N_CHUNK_DIGITS then i - N_CHUNK_DIGITS else 0;
    assert next < i;
    ChunkStep(x, intValue, j, next);
    var chunk: nat := intValue % CHUNK_SIZE;
    rest := intValue / CHUNK_SIZE;
    ghost var before := dst[..];
    j := WriteChunk(dst, next, j, chunk);
    ChunkWritten(before, dst[..], x, next, j, i, chunk);
  }

  /** The inner loop of `encode`: writes the digits of a chunk leftwards
      from place j0, and stops as soon as the chunk has no digits left. */
  method WriteChunk(dst: array<u8>, i: nat, j0: nat, chunk0: nat) returns (j: nat)
    requires i <= j0 <= dst.Length && chunk0 < Pow(36, j0 - i)
    modifies dst
    ensures i <= j <= j0 && chunk0 < Pow(36, j0 - j)
    ensures dst[j..j0] == Spell(Digits(chunk0, j0 - j, 36), DIGITS)
    ensures dst[..j] == old(dst[..j]) && dst[j0..] == old(dst[j0..])
  {
    j := j0;
    var chunk := chunk0;
    ghost var orig := dst[..];
    assert Pow(36, 0) == 1 && dst[j..j0] == [] && Digits(chunk0, 0, 36) == [];
    while chunk > 0
      invariant Placing(dst[..], orig, i, j, j0, chunk0, chunk)
      decreases chunk
    {
      j, chunk := PlaceDigit(dst, orig, i, j, j0, chunk0, chunk);
    }
    ChunkDone(chunk0, j0 - j, j0 - j);
  }

  /** The state of the inner loop of `encode`: the places j..j0 hold the
      low digits of the chunk, the value left is the chunk above them and
      still fits the places from i to j, and nothing else has changed. */
  ghost predicate Placing(d: seq<u8>, orig: seq<u8>, i: nat, j: nat, j0: nat, chunk0: nat, chunk: nat)
  {
    i <= j <= j0 <= |d| == |orig|
    && chunk == chunk0 / Pow(36, j0 - j) && chunk < Pow(36, j - i)
    && d[j..j0] == Spell(Digits(chunk0, j0 - j, 36), DIGITS)
    && d[..j] == orig[..j] && d[j0..] == orig[j0..]
  }

  /** The body of the inner loop of `encode`: `j -= 1; dst[j] =
      DIGITS[chunk % 36]; chunk /= 36;`. */
  method PlaceDigit(dst: array<u8>, ghost orig: seq<u8>, i: nat, j: nat, ghost j0: nat, ghost chunk0: nat, chunk: nat)
    returns (next: nat, rest: nat)
    requires 0 < chunk && Placing(dst[..], orig, i, j, j0, chunk0, chunk)
    modifies dst
    ensures rest < chunk && Placing(dst[..], orig, i, next, j0, chunk0, rest)
  {
    ghost var before := dst[..];
    DigitStep(chunk0, chunk, i, j, j0);
    next := j - 1;
    dst[next] := DIGITS[chunk % 36];
    rest := chunk / 36;
    DigitWritten(before, dst[..], next, j0, chunk0);
    assert dst[..next] == orig[..next] by {
      assert dst[..next] == before[..next];
      assert before[..next] == before[..j][..next];
    }
  }

  /** Writing the next digit to the left extends the chunk's digits. */
  lemma DigitWritten(before: seq<u8>, after: seq<u8>, j: nat, j0: nat, c: nat)
    requires j < j0 <= |before| == |after|
    requires after == before[j := DIGITS[c / Pow(36, j0 - j - 1) % 36]]
    requires before[j + 1..j0] == Spell(Digits(c, j0 - j - 1, 36), DIGITS)
    requires Digits(c, j0 - j, 36) == [c / Pow(36, j0 - j - 1) % 36] + Digits(c, j0 - j - 1, 36)
    ensures after[j..j0] == Spell(Digits(c, j0 - j, 36), DIGITS)
    ensures after[..j] == before[..j] && after[j0..] == before[j0..]
  {
    assert after[j..j0] == [after[j]] + before[j + 1..j0];
  }

  /** Once a chunk has no digits left, the rest of its places hold '0', so
      the text from i on spells x in 25 - i places. */
  lemma ChunkWritten(before: seq<u8>, d: seq<u8>, x: nat, i: nat, j: nat, j0: nat, c: nat)
    requires i <= j <= j0 <= |d| == |before| == 25
    requires Written(before, x, j0)
    requires d[..j] == before[..j] && d[j0..] == before[j0..]
    requires d[j..j0] == Spell(Digits(c, j0 - j, 36), DIGITS)
    requires c < Pow(36, j0 - j)
    requires Digits(x, 25 - i, 36) == Digits(c, j0 - i, 36) + Digits(x, 25 - j0, 36)
    ensures Written(d, x, i)
  {
    assert forall k :: 0 <= k < j ==> d[k] == d[..j][k];
    var ds := Digits(c, j0 - i, 36);
    PaddedChunk(d, c, i, j, j0);
    SpellAppend(ds, Digits(x, 25 - j0, 36), DIGITS);
    assert d[i..] == d[i..j0] + d[j0..];
  }

  /** A chunk's digits with '0' bytes in front of them spell the chunk in
      the wider field. */
  lemma PaddedChunk(d: seq<u8>, c: nat, i: nat, j: nat, j0: nat)
    requires i <= j <= j0 <= |d|
    requires forall k :: i <= k < j ==> d[k] == 0x30
    requires d[j..j0] == Spell(Digits(c, j0 - j, 36), DIGITS)
    requires c < Pow(36, j0 - j)
    ensures d[i..j0] == Spell(Digits(c, j0 - i, 36), DIGITS)
  {
    LeadingZeros(c, j0 - i, j0 - j, 36);
    var ds, low := Digits(c, j0 - i, 36), Digits(c, j0 - j, 36);
    forall k | 0 <= k < j0 - i
      ensures d[i + k] == DIGITS[ds[k]]
    {
      if k < j - i {
        assert ds[k] == 0;
      } else {
        var m := k - (j - i);
        assert ds[k] == low[m] by {
          assert ds[k] == ds[j - i..][m];
        }
        assert d[i + k] == d[j..j0][m];
      }
    }
  }

  /** When no value is left, the '0' bytes in front are the leading zeros of
      the 25-digit form. */
  lemma AllWritten(d: seq<u8>, x: nat, i: nat)
    requires Written(d, x, i) && x / Pow(36, 25 - i) == 0
    ensures d == Spell(Digits(x, 25, 36), DIGITS)
  {
    var w := 25 - i;
    ChunkDone(x, w, w);
    PaddedChunk(d, x, 0, i, 25);
    assert d == d[0..25];
  }

  /** The bookkeeping of one outer round of Encode: the next chunk has at
      most j0 - i digits, the remaining value is x in fewer places, and the
      chunk's digits extend the digits written so far. */
  lemma ChunkStep(x: nat, intValue: nat, j0: nat, i: nat)
    requires x < Pow(36, 25) && j0 <= 25
    requires intValue == x / Pow(36, 25 - j0) && intValue < Pow(36, j0)
    requires i == if j0 >= N_CHUNK_DIGITS then j0 - N_CHUNK_DIGITS else 0
    ensures i <= j0
    ensures intValue % CHUNK_SIZE < Pow(36, j0 - i)
    ensures intValue / CHUNK_SIZE == x / Pow(36, 25 - i)
    ensures intValue / CHUNK_SIZE < Pow(36, i)
    ensures Digits(x, 25 - i, 36) == Digits(intValue % CHUNK_SIZE, j0 - i, 36) + Digits(x, 25 - j0, 36)
  {
    Pow36Values();
    if j0 >= N_CHUNK_DIGITS {
      FullChunk(x, intValue, j0, i);
    } else {
      LastChunk(x, intValue, j0);
    }
    DigitsSplit(x, j0 - i, 25 - j0, 36);
    DigitsOfWiderRemainder(intValue, j0 - i, N_CHUNK_DIGITS, 36);
  }

  /** A round that still has 12 places to the left of it. */
  lemma FullChunk(x: nat, intValue: nat, j0: nat, i: nat)
    requires j0 <= 25 && i + N_CHUNK_DIGITS == j0 && CHUNK_SIZE == Pow(36, N_CHUNK_DIGITS)
    requires intValue == x / Pow(36, 25 - j0) && intValue < Pow(36, j0)
    ensures intValue % CHUNK_SIZE < Pow(36, j0 - i)
    ensures intValue / CHUNK_SIZE == x / Pow(36, 25 - i)
    ensures intValue / CHUNK_SIZE < Pow(36, i)
  {
    PowAdd(36, i, N_CHUNK_DIGITS);
    PowAdd(36, 25 - j0, N_CHUNK_DIGITS);
    DivDiv(x, Pow(36, 25 - j0), CHUNK_SIZE);
    DivLess(intValue, CHUNK_SIZE, Pow(36, i));
  }

  /** A round with fewer than 12 places left: the whole remaining value is
      the chunk. */
  lemma LastChunk(x: nat, intValue: nat, j0: nat)
    requires j0 < N_CHUNK_DIGITS && CHUNK_SIZE == Pow(36, N_CHUNK_DIGITS) && x < Pow(36, 25)
    requires intValue < Pow(36, j0)
    ensures intValue % CHUNK_SIZE == intValue && intValue / CHUNK_SIZE == 0
    ensures x / Pow(36, 25) == 0
  {
    PowMono(36, j0, N_CHUNK_DIGITS);
    SmallDiv(intValue, CHUNK_SIZE);
    SmallDiv(x, Pow(36, 25));
  }

  /** One inner round of Encode: a chunk with digits left has room for
      them left of place j; its last digit is the next one to write, and the
      rest of the chunk is the value one place further up. */
  lemma DigitStep(chunk0: nat, chunk: nat, i: nat, j: nat, j0: nat)
    requires i <= j <= j0 && 0 < chunk
    requires chunk == chunk0 / Pow(36, j0 - j) && chunk < Pow(36, j - i)
    ensures i < j
    ensures chunk / 36 == chunk0 / Pow(36, j0 - (j - 1))
    ensures chunk / 36 < Pow(36, j - 1 - i)
    ensures Digits(chunk0, j0 - (j - 1), 36) == [chunk % 36] + Digits(chunk0, j0 - j, 36)
  {
    var w := j0 - j;
    DigitsSplit(chunk0, 1, w, 36);
    DivDiv(chunk0, Pow(36, w), 36);
    PowAdd(36, w, 1);
    DivLess(chunk, 36, Pow(36, j - 1 - i));
  }

  /** A value that has run out of digits after w places is zero-padded in
      n >= w places. */
  lemma ChunkDone(c: nat, w: nat, n: nat)
    requires w <= n && c / Pow(36, w) == 0
    ensures c < Pow(36, w)
    ensures forall k :: 0 <= k < n - w ==> Digits(c, n, 36)[k] == 0
    ensures Digits(c, n, 36)[n - w..] == Digits(c, w, 36)
  {
    assert c == Pow(36, w) * (c / Pow(36, w)) + c % Pow(36, w);
    LeadingZeros(c, n, w, 36);
  }
}
