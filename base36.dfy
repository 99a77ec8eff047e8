/** The Base36 alphabet shared by both revisions of the identifier: the
    byte-to-digit decoding table and the digit-by-digit reading of a text.
    Text is handled as the UTF-8 bytes of a Rust `&str`. */
module Base36 {
  import opened Arith
  import opened RustPrims
  import opened Positional

  /** Entry b of the decoding table: '0'-'9' decode to 0-9, 'A'-'Z' and
      'a'-'z' both decode to 10-35, and every other byte to the marker 0xff. */
  function DecodeEntry(b: int): u8
  {
    if 0x30 <= b <= 0x39 then b - 0x30
    else if 0x41 <= b <= 0x5a then b - 0x41 + 10
    else if 0x61 <= b <= 0x7a then b - 0x61 + 10
    else 0xff
  }

  /** The 256 entries of the decoding table, in byte order. */
  function DecodeTable(): (t: seq<u8>)
    ensures |t| == 256
  {
    seq(256, b => DecodeEntry(b))
  }

  /** `DECODE_MAP: [u8; 256]`, the O(1) map from a byte to its digit value,
      written entry by entry in the source and by ranges here. */
  const DECODE_MAP: seq<u8> := DecodeTable()

  /** The byte is one of the 62 ASCII digits and letters. */
  predicate IsBase36Byte(b: u8)
  {
    0x30 <= b <= 0x39 || 0x41 <= b <= 0x5a || 0x61 <= b <= 0x7a
  }

  /** The map marks exactly the non-alphanumeric bytes as invalid and gives
      every other byte a digit value below 36; a letter and its other case
      decode alike. */
  lemma DecodeMapLayout(b: u8)
    ensures DECODE_MAP[b] != 0xff <==> IsBase36Byte(b)
    ensures IsBase36Byte(b) ==> DECODE_MAP[b] < 36
    ensures 0x41 <= b <= 0x5a ==> DECODE_MAP[b] == DECODE_MAP[b + 0x20]
  {
  }

  /** The position of the first byte of s that the map marks as invalid, if
      there is one. */
  function FirstInvalid(s: seq<u8>): (r: Option<nat>)
    ensures r.Some? ==> r.value < |s| && DECODE_MAP[s[r.value]] == 0xff
    ensures r.Some? ==> forall k :: 0 <= k < r.value ==> DECODE_MAP[s[k]] != 0xff
    ensures r.None? <==> forall k :: 0 <= k < |s| ==> DECODE_MAP[s[k]] != 0xff
  {
    if |s| == 0 then None
    else if DECODE_MAP[s[0]] == 0xff then Some(0)
    else
      var rest := FirstInvalid(s[1..]);
      if rest.None? then None else Some(rest.value + 1)
  }

  /** The digit value the map gives to a byte (0xff for a non-digit). */
  function DigitOf(b: u8): nat
  {
    DECODE_MAP[b]
  }

  /** The digit values the map gives to the bytes of s. */
  function DigitValues(s: seq<u8>): (r: seq<nat>)
    ensures |r| == |s|
  {
    seq(|s|, k requires 0 <= k < |s| => DigitOf(s[k]))
  }

  /** The number a text of valid digits spells out in Base36. */
  function TextValue(s: seq<u8>): nat
  {
    Value(DigitValues(s), 36)
  }

  /** A text whose bytes all decode has digit values below 36, so its value
      stays below 36^|s|. */
  lemma TextValueBound(s: seq<u8>)
    requires forall k :: 0 <= k < |s| ==> DECODE_MAP[s[k]] != 0xff
    ensures IsDigits(DigitValues(s), 36)
    ensures TextValue(s) < Pow(36, |s|)
  {
    forall k | 0 <= k < |s|
      ensures DigitValues(s)[k] < 36
    {
      DecodeMapLayout(s[k]);
    }
    ValueBound(DigitValues(s), 36);
  }

  /** Reading one more digit multiplies the value read so far by 36 and adds
      the digit. */
  lemma TextValueStep(s: seq<u8>, i: nat)
    requires i < |s|
    ensures TextValue(s[..i + 1]) == TextValue(s[..i]) * 36 + DECODE_MAP[s[i]]
  {
    assert DigitValues(s[..i + 1])[..i] == DigitValues(s[..i]);
  }

  /** The text written with a digit table: digit d becomes the byte digits[d]. */
  function Spell(ds: seq<nat>, digits: seq<u8>): (r: seq<u8>)
    requires |digits| == 36 && IsDigits(ds, 36)
    ensures |r| == |ds|
  {
    seq(|ds|, k requires 0 <= k < |ds| => digits[ds[k]])
  }

  /** A digit table the decoding map inverts and whose bytes increase with
      the digit value. */
  predicate IsDigitTable(digits: seq<u8>)
  {
    |digits| == 36
    && (forall d :: 0 <= d < 36 ==> DECODE_MAP[digits[d]] == d)
    && (forall d, e :: 0 <= d < e < 36 ==> digits[d] < digits[e])
  }

  /** Decoding a spelled-out text gives back its digits. */
  lemma DecodeSpell(ds: seq<nat>, digits: seq<u8>)
    requires IsDigitTable(digits) && IsDigits(ds, 36)
    ensures FirstInvalid(Spell(ds, digits)).None?
    ensures DigitValues(Spell(ds, digits)) == ds
  {
  }

  /** Spelling with an increasing digit table keeps lexicographic order. */
  lemma {:induction false} SpellKeepsOrder(a: seq<nat>, b: seq<nat>, digits: seq<u8>)
    requires IsDigitTable(digits) && IsDigits(a, 36) && IsDigits(b, 36) && |a| == |b|
    ensures LexLess(Spell(a, digits), Spell(b, digits)) <==> LexLess(a, b)
  {
    if |a| > 0 {
      var sa, sb := Spell(a, digits), Spell(b, digits);
      assert sa[1..] == Spell(a[1..], digits);
      assert sb[1..] == Spell(b[1..], digits);
      SpellKeepsOrder(a[1..], b[1..], digits);
      if a[0] < b[0] {
        assert sa[0] < sb[0];
      } else if a[0] > b[0] {
        assert sa[0] > sb[0];
      }
    }
  }

  /** The ASCII lower-case form of a byte. */
  function ToLower(b: u8): (r: u8)
    ensures 0x41 <= b <= 0x5a ==> r == b + 0x20
    ensures !(0x41 <= b <= 0x5a) ==> r == b
  {
    if 0x41 <= b <= 0x5a then b + 0x20 else b
  }

  /** The ASCII lower-case form of a text. */
  function TextToLower(s: seq<u8>): (r: seq<u8>)
    ensures |r| == |s|
  {
    seq(|s|, k requires 0 <= k < |s| => ToLower(s[k]))
  }

  /** The ASCII upper-case form of a byte. */
  function ToUpper(b: u8): (r: u8)
    ensures 0x61 <= b <= 0x7a ==> r == b - 0x20
    ensures !(0x61 <= b <= 0x7a) ==> r == b
  {
    if 0x61 <= b <= 0x7a then b - 0x20 else b
  }

  /** The ASCII upper-case form of a text. */
  function TextToUpper(s: seq<u8>): (r: seq<u8>)
    ensures |r| == |s|
  {
    seq(|s|, k requires 0 <= k < |s| => ToUpper(s[k]))
  }

  /** The decoding map does not see case. */
  lemma DecodeIgnoresCase(s: seq<u8>)
    ensures FirstInvalid(TextToLower(s)) == FirstInvalid(s)
    ensures DigitValues(TextToLower(s)) == DigitValues(s)
  {
    var t := TextToLower(s);
    forall k | 0 <= k < |s|
      ensures DECODE_MAP[t[k]] == DECODE_MAP[s[k]]
    {
      DecodeMapLayout(s[k]);
    }
    FirstInvalidDependsOnMap(s, t);
  }

  lemma {:induction false} FirstInvalidDependsOnMap(s: seq<u8>, t: seq<u8>)
    requires |s| == |t| && forall k :: 0 <= k < |s| ==> DECODE_MAP[t[k]] == DECODE_MAP[s[k]]
    ensures FirstInvalid(t) == FirstInvalid(s)
  {
    if |s| > 0 {
      FirstInvalidDependsOnMap(s[1..], t[1..]);
    }
  }

  lemma SpellAppend(a: seq<nat>, b: seq<nat>, digits: seq<u8>)
    requires |digits| == 36 && IsDigits(a, 36) && IsDigits(b, 36)
    ensures Spell(a + b, digits) == Spell(a, digits) + Spell(b, digits)
  {
  }

  /** Every 128-bit value has a 25-digit Base36 form. */
  lemma U128FitsText(x: u128)
    ensures x < Pow(36, 25)
    ensures x / Pow(36, 25 - 25) == x
  {
    Pow36Values();
  }

  /** While a 25-digit text is read from the left, the first 24 digits never
      overflow 128 bits; only the last one can, and reading it completes the
      text. */
  lemma ReadFits(s: seq<u8>, i: nat)
    requires i < |s| == 25 && forall k :: 0 <= k <= i ==> DECODE_MAP[s[k]] != 0xff
    ensures i < 24 ==> TextValue(s[..i + 1]) < U128_LIMIT
    ensures i == 24 ==> s[..i + 1] == s && FirstInvalid(s).None?
  {
    if i < 24 {
      var t := s[..i + 1];
      assert forall k :: 0 <= k < |t| ==> DECODE_MAP[t[k]] != 0xff;
      TextValueBound(t);
      PowMono(36, i + 1, 24);
      Pow36Values();
    } else {
      assert s[..i + 1] == s;
    }
  }

  /** The 25-digit Base36 form of a 128-bit integer, most significant digit
      first, written with a digit table. */
  function Base36Text(x: u128, digits: seq<u8>): (s: seq<u8>)
    requires |digits| == 36
    ensures |s| == 25
  {
    Spell(Digits(x, 25, 36), digits)
  }

  /** Reading the Base36 text of an integer finds no invalid byte and gives
      the integer back. */
  lemma ReadBase36Text(x: u128, digits: seq<u8>)
    requires IsDigitTable(digits)
    ensures FirstInvalid(Base36Text(x, digits)).None?
    ensures TextValue(Base36Text(x, digits)) == x
  {
    DecodeSpell(Digits(x, 25, 36), digits);
    ValueOfDigits(x, 25, 36);
    U128FitsText(x);
    SmallDiv(x, Pow(36, 25));
  }

  /** Base36 texts compare as byte strings exactly as their integers
      compare. */
  lemma Base36TextOrder(x: u128, y: u128, digits: seq<u8>)
    requires IsDigitTable(digits)
    ensures LexLess(Base36Text(x, digits), Base36Text(y, digits)) <==> x < y
  {
    var dx, dy := Digits(x, 25, 36), Digits(y, 25, 36);
    SpellKeepsOrder(dx, dy, digits);
    LexLessIsValueLess(dx, dy, 36);
    ValueOfDigits(x, 25, 36);
    ValueOfDigits(y, 25, 36);
    U128FitsText(x);
    U128FitsText(y);
    SmallDiv(x, Pow(36, 25));
    SmallDiv(y, Pow(36, 25));
  }

  /** A 25-digit text of valid digits holds exactly the digits of its value. */
  lemma DigitsOfText(s: seq<u8>)
    requires |s| == 25 && FirstInvalid(s).None?
    ensures Digits(TextValue(s), 25, 36) == DigitValues(s)
  {
    TextValueBound(s);
    DigitsOfValue(DigitValues(s), 36);
  }
}
