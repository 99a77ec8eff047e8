# SCRU128 in Dafny

A model of the core of the Rust `scru128` crate. The crate makes SCRU128 identifiers: 128-bit,
sortable, 25-character Base36 identifiers.

An identifier packs four fields, most significant first:

| bits | field |
|---|---|
| 48 | `timestamp` |
| 24 | `counter_hi` |
| 24 | `counter_lo` |
| 32 | `entropy` |

Its canonical text form is 25 Base36 digits.

The model covers:

- **`Id`** (`src/id.rs`): the current `Scru128Id`, sixteen big-endian bytes. It covers:
  - the integer and byte conversions;
  - `from_fields` and the four field accessors;
  - the derived byte order;
  - `try_from_str`, with its three error kinds;
  - the chunked encoder `encode`.
- **`Identifier`** (`src/identifier.rs`): the earlier `Scru128Id`, which holds a `u128` and writes upper-case text. It covers:
  - the same conversions and accessors, and `FromStr`;
  - `encode`, `encode_buf`, and `encode_inner`, the carry-propagating loop over 56-bit words that keeps `min_index`.
- **`Generator`** (`src/generator.rs`): `Scru128Generator` as a class whose methods update its fields in place. It covers:
  - `with_rng`, `generate_core_no_rewind`, `generate_core` and `Status`;
  - the pure functions `NoRewind` and `Core` that specify those methods.

  The random number generator is a `Rng` object: its n-th `next_u32` is `draw(n)`. The lemmas hold for every `draw`, so they hold for every sequence of random numbers.
- **`CrateProperties`** (`src/lib.rs`): the properties the crate's tests check, proved for every run of successive calls:
  - 25-character `[0-9a-z]` text;
  - no collisions;
  - order by creation;
  - increasing (timestamp, counter_hi, counter_lo) tuples.
- **Shared modules**:
  - `Lib`: the field maxima.
  - `Layout`: the bit layout, as arithmetic.
  - `Base36`: the decoding map and digit texts.
  - `BigEndian`: byte conversions.
  - `Positional`: digit sequences.
  - `RustPrims`: integer widths, checked arithmetic, and panics as `Outcome` values.
  - `Arith`: powers, division and remainder.

The source's integer operations are written out as arithmetic on unbounded integers:

- `x << k` is multiplication by 2^k, and `x >> k` is division by 2^k.
- `as u64` is a remainder modulo 2^64, and `& (2^k - 1)` is a remainder modulo 2^k.

A panic is a `Panic(message)` result carrying the message the source panics with.

`generate_core_no_rewind` compares with a strict `timestamp + 10_000 > self.timestamp`. So it refuses a rollback of exactly 10000 ms, which matches the type's documentation ("by ten seconds or more"). `NoRewindRefusesRollback` states both directions of this boundary.

## Model

| member | source | states |
|---|---|---|
| Lib.FieldWidths | src/lib.rs:67-74 | the maxima are 2^48 - 1 for `timestamp` and 2^24 - 1 for both counters |
| RustPrims.CheckedMul | src/id.rs:142-147 | `checked_mul` yields a value exactly when the product fits 128 bits, and then it is the product |
| RustPrims.CheckedAdd | src/id.rs:143-146 | `checked_add` yields a value exactly when the sum fits 128 bits, and then it is the sum |
| Layout.UnpackPack | src/id.rs:80-116 | the accessors read back each in-range field that `from_fields` packed |
| Layout.PackUnpack | src/id.rs:99-116 | every 128-bit value is the packing of its own four fields, all in range |
| Layout.PackOrder | src/id.rs:88-93 | a smaller (timestamp, counter_hi, counter_lo) tuple packs to a smaller integer, whatever the entropy |
| BigEndian.ToBeBytes | src/id.rs:51-53 | byte k of `to_be_bytes` is base-256 digit 15 - k of the integer |
| BigEndian.FromToBeBytes | src/id.rs:56-58 | `from_be_bytes` inverts `to_be_bytes` |
| BigEndian.ToFromBeBytes | src/id.rs:51-53 | `to_be_bytes` inverts `from_be_bytes` |
| Base36.DecodeMapLayout | src/id.rs:11-29 | `DECODE_MAP` accepts exactly the digits and letters of both cases and maps them below 36; an upper-case letter maps like its lower-case one |
| Base36.FirstInvalid | src/id.rs:137-141 | the first position whose byte the map rejects, or none when every byte is accepted |
| Base36.DecodeIgnoresCase | src/id.rs:11-29 | lower-casing a text changes neither the first rejected position nor any digit value |
| Id.DigitsAreDecodable | src/id.rs:8-29 | `DECODE_MAP` reads `DIGITS[d]` back as d, and the digit bytes increase with d |
| Id.FromU128 | src/id.rs:50-53 | the bytes of `from_u128` are the big-endian bytes of the integer |
| Id.ToU128 | src/id.rs:55-58 | the integer `to_u128` returns has the stored bytes as its big-endian bytes |
| Id.FromBytes | src/id.rs:60-63 | the identifier `from_bytes` returns has the given bytes as the big-endian bytes of its integer |
| Id.ToBytes | src/id.rs:65-73 | `to_bytes` and `as_bytes` return the big-endian bytes of `to_u128` |
| Id.U128RoundTrip | src/id.rs:50-58 | `from_u128` and `to_u128` are mutually inverse |
| Id.BytesRoundTrip | src/id.rs:60-73 | `from_bytes` and `to_bytes` are mutually inverse, and the bytes are the big-endian bytes of `to_u128` |
| Id.FromFields | src/id.rs:80-97 | panics with "invalid field value" if and only if a field is out of range; otherwise each accessor returns its argument |
| Id.Timestamp | src/id.rs:98-101 | the timestamp fits 48 bits |
| Id.CounterHi | src/id.rs:103-106 | `counter_hi` fits 24 bits |
| Id.CounterLo | src/id.rs:108-111 | `counter_lo` fits 24 bits |
| Id.Entropy | src/id.rs:113-116 | `entropy` is bits 31 to 0 of `to_u128`; a definition, whose property is `FieldsRoundTrip` |
| Id.FieldsRoundTrip | src/id.rs:80-116 | `from_fields` of the four accessors rebuilds the identifier without panicking |
| Id.Less | src/id.rs:45-47 | the derived `Ord` of the struct: lexicographic order of its 16 bytes; a definition, whose properties are `LessIsNumeric` and `LessIsTotalOrder` |
| Id.LessIsNumeric | src/id.rs:45-46 | the derived byte-array order is the order of `to_u128` |
| Id.LessIsTotalOrder | src/id.rs:45-46 | the derived order is irreflexive, total and transitive |
| Id.InvalidLengthError | src/id.rs:274-279 | `invalid_length` reports the length; a definition |
| Id.InvalidDigitError | src/id.rs:281-307 | `invalid_digit` reports the offending byte and its position; a definition |
| Id.OutOfU128RangeError | src/id.rs:309-314 | `out_of_u128_range`; a definition |
| Id.Parsed | src/id.rs:130-152 | the parse result as a function of the text, checked in the order length, digits, range; the reference definition that `TryFromStr` is proved against |
| Id.TryFromStr | src/id.rs:130-152 | returns the parse result: `InvalidLength` for a length other than 25, else `InvalidDigit` at the first rejected byte, else `OutOfU128Range` when the value reaches 2^128, else the identifier of the value |
| Id.CanonicalFormat | src/lib.rs:92-99 | the canonical text is 25 characters of `[0-9a-z]` |
| Id.ParseCanonical | src/id.rs:168-190 | parsing the encoded text returns the identifier |
| Id.CanonicalOrder | src/id.rs:45-46 | canonical texts compare as strings exactly as their identifiers compare |
| Id.DigitOfDecoded | src/id.rs:8-29 | `DIGITS[DECODE_MAP[b]]` is b in lower case for every accepted byte |
| Id.CanonicalOfParsed | src/id.rs:130-152 | re-encoding a parsed text gives the text in lower case |
| Id.ParseIgnoresCase | src/id.rs:11-29 | a text parses exactly as its lower-case form does |
| Id.Encode | src/id.rs:168-190 | `encode` returns the 25 lower-case Base36 digits of the integer |
| Id.EncodeChunk | src/id.rs:176-187 | one outer pass moves i left by a chunk (or to 0), divides the value left by `CHUNK_SIZE`, and leaves every place from i on holding its digit |
| Id.WriteChunk | src/id.rs:182-186 | the inner loop writes a chunk's digits leftwards from j and touches nothing outside the chunk |
| Identifier.DigitsAreDecodable | src/identifier.rs:8-29 | `DECODE_MAP` reads each upper-case `DIGITS[d]` back as d, and the digit bytes increase with d |
| Identifier.FromU128 | src/identifier.rs:55-57 | `from_u128` and `From<u128>` (lines 229-233) wrap the integer; a definition, whose property is `U128RoundTrip` |
| Identifier.ToU128 | src/identifier.rs:60-62 | `to_u128` and `From<Scru128Id> for u128` (lines 235-239) unwrap the integer; a definition, whose property is `U128RoundTrip` |
| Identifier.U128RoundTrip | src/identifier.rs:55-62 | `from_u128` and `to_u128` are mutually inverse |
| Identifier.ToBytes | src/identifier.rs:65-67 | byte k is base-256 digit 15 - k of the integer |
| Identifier.FromBytes | src/identifier.rs:241-246 | `From<[u8; 16]>` returns the identifier whose integer has the given bytes as its big-endian bytes |
| Identifier.BytesRoundTrip | src/identifier.rs:241-253 | the two `From` conversions between the identifier and `[u8; 16]` are mutually inverse |
| Identifier.FromFields | src/identifier.rs:74-90 | panics with "invalid field value" if and only if a field is out of range; otherwise each accessor returns its argument |
| Identifier.Timestamp | src/identifier.rs:93-95 | the timestamp fits 48 bits |
| Identifier.CounterHi | src/identifier.rs:98-100 | `counter_hi` fits 24 bits |
| Identifier.CounterLo | src/identifier.rs:103-105 | `counter_lo` fits 24 bits |
| Identifier.Entropy | src/identifier.rs:107-110 | `entropy` is bits 31 to 0 of the integer; a definition, whose property is `FieldsRoundTrip` |
| Identifier.FieldsRoundTrip | src/identifier.rs:74-110 | `from_fields` of the four accessors rebuilds the identifier without panicking |
| Identifier.Less | src/identifier.rs:45-46 | the derived `Ord` of a struct holding one `u128`: the order of the integers; a definition, whose property is `CanonicalOrder` |
| Identifier.Parsed | src/identifier.rs:193-219 | the parse result as a function of the text, checked in the order length, digits, range; the reference definition that `FromStr` is proved against |
| Identifier.FromStr | src/identifier.rs:193-219 | returns the parse result with the source's three debug messages, in the same order of checks |
| Identifier.CanonicalFormat | src/identifier.rs:166-186 | the encoded text is 25 characters of `[0-9A-Z]` |
| Identifier.ParseCanonical | src/identifier.rs:189-219 | parsing the encoded text returns the identifier |
| Identifier.CanonicalOrder | src/identifier.rs:45-46 | encoded texts compare as strings exactly as the integers compare |
| Identifier.DigitOfDecoded | src/identifier.rs:8-29 | `DIGITS[DECODE_MAP[b]]` is b in upper case for every accepted byte |
| Identifier.CanonicalOfParsed | src/identifier.rs:193-219 | re-encoding a parsed text gives the text in upper case |
| Identifier.ParseIgnoresCase | src/identifier.rs:11-29 | a text parses exactly as its lower-case form does |
| Identifier.Encode | src/identifier.rs:129-133 | `encode` returns the 25 upper-case Base36 digits of the integer |
| Identifier.EncodeBuf | src/identifier.rs:157-164 | panics if the buffer is shorter than 25 and leaves it unchanged; otherwise writes the encoded text to its first 25 bytes, returns it and keeps the rest |
| Identifier.EncodeInner | src/identifier.rs:166-186 | from an all-zero dst[..25], leaves the upper-case Base36 text of the integer there and nothing else changed |
| Identifier.SpellDigits | src/identifier.rs:185 | each digit value becomes its character from `DIGITS` |
| Identifier.EncodeRound | src/identifier.rs:170-182 | after the round for shift 112 - 56r, the digits hold the integer shifted right by that many bits, zero up to the new `min_index` |
| Identifier.EncodeWord | src/identifier.rs:175-182 | the walk turns the digits' value v into v * 2^56 + word, and everything left of the returned index is zero |
| Identifier.CarryPlace | src/identifier.rs:177-180 | one step keeps the carry below 2^56 and the walk's invariant, and leaves no carry past place 0 |
| Generator.Low24 | src/generator.rs:161 | `next_u32() & MAX_COUNTER_LO` fits both 24-bit counters |
| Generator.Rng.constructor | src/generator.rs:94-95 | a random number generator that has drawn nothing yet, whose n-th number is draw(n) |
| Generator.Rng.NextU32 | src/generator.rs:98 | `next_u32` returns the next number of the sequence and advances it by one |
| Generator.Advance | src/generator.rs:159-182 | the timestamp and counters after the first half of `generate_core_no_rewind`, or none on a rollback of 10000 ms or more; `ts_counter_hi` stays at or below the timestamp; its properties are the `NoRewind...` lemmas |
| Generator.NoRewind | src/generator.rs:152-195 | `generate_core_no_rewind` as a function of the fields and the random numbers: the reference definition that `GenerateCoreNoRewind` is proved against |
| Generator.Renew | src/generator.rs:184-194 | the `counter_hi` renewal and the identifier built from the fields and one more random number; the reference definition that `RenewAndBuild` is proved against |
| Generator.Core | src/generator.rs:131-142 | `generate_core` as a function of the fields and the random numbers: the reference definition that `GenerateCore` is proved against |
| Generator.NoRewindPanics | src/generator.rs:155-157 | panics exactly on a timestamp that is zero or wider than 48 bits, with the state untouched, or when counter overflow pushes the timestamp past 48 bits |
| Generator.NoRewindRefusesRollback | src/generator.rs:163-182 | returns `None` with the state and the random numbers untouched if and only if the timestamp is 10000 ms or more behind the stored one |
| Generator.NoRewindNewTimestamp | src/generator.rs:159-162 | a newer timestamp is stored with a random `counter_lo` and `NewTimestamp` |
| Generator.NoRewindCountsUp | src/generator.rs:163-187 | a timestamp less than 10000 ms behind increments `counter_lo`, else resets it and increments `counter_hi`, else resets `counter_hi`, increments the timestamp and draws `counter_lo`, with the matching status; a `counter_hi` due for renewal is then drawn afresh |
| Generator.NoRewindCountsUpAfterFirst | src/generator.rs:163-187 | once the generator has generated, such a timestamp keeps `counter_hi`, increments it when `counter_lo` overflows, or resets it to 0 with the timestamp unless the new timestamp is exactly 1000 ms past the last renewal |
| Generator.NoRewindRenewsCounterHi | src/generator.rs:184-187 | `counter_hi` is drawn afresh and `ts_counter_hi` set if and only if the last renewal is 1000 ms old or never happened |
| Generator.NoRewindReturns | src/generator.rs:189-194 | a returned identifier carries the stored timestamp and counters, and the state is valid |
| Generator.NoRewindKeepsValid | src/generator.rs:152-195 | a call that does not panic keeps the state invariant |
| Generator.NoRewindIncreases | src/generator.rs:72-76 | after a generation, a returned identifier's (timestamp, counter_hi, counter_lo) exceeds the stored one |
| Generator.NoRewindIdIncreases | src/generator.rs:72-76 | the identifier returned after `prev` is greater than `prev` |
| Generator.FieldOrder | src/lib.rs:133-150 | a smaller field tuple means a smaller identifier |
| Generator.CoreWithoutRollback | src/generator.rs:131-133 | without a large rollback, `generate_core` is `generate_core_no_rewind` with the identifier unwrapped |
| Generator.CoreRollsBack | src/generator.rs:134-141 | on a large rollback `generate_core` never fails to unwrap: it returns an identifier with the new timestamp, reports `ClockRollback` and leaves a valid state |
| Generator.CoreKeepsValid | src/generator.rs:131-142 | a `generate_core` call that does not panic leaves a valid state |
| Generator.Scru128Generator.WithRng | src/generator.rs:113-122 | all fields zero and `NotExecuted`, which is a valid state |
| Generator.Scru128Generator.GenerateCoreNoRewind | src/generator.rs:152-195 | the result and new fields are those of `NoRewind`; a valid state stays valid; the stored tuple increases after a returned identifier |
| Generator.Scru128Generator.AdvanceFields | src/generator.rs:159-182 | moves the fields as `Advance` says, or on a large rollback changes nothing |
| Generator.Scru128Generator.RenewAndBuild | src/generator.rs:184-194 | the renewal and the identifier are those of `Renew` |
| Generator.Scru128Generator.GenerateCore | src/generator.rs:131-142 | the result and new fields are those of `Core`, and a returned identifier leaves a valid state |
| CrateProperties.RunAbove | src/lib.rs:133-150 | every identifier of a run after `prev` is above `prev`, and the tuples and the identifiers increase along the run |
| CrateProperties.RunIncreases | src/lib.rs:133-150 | from any valid state, `with_rng`'s included, the tuples of a run increase and the identifiers are strictly increasing |
| CrateProperties.RunHasNoCollision | src/lib.rs:101-107 | no two identifiers of a run are equal |
| CrateProperties.RunTextsIncrease | src/lib.rs:109-116 | the canonical texts of a run increase as strings in generation order |
| CrateProperties.RunTextsAreCanonical | src/lib.rs:92-99 | every canonical text of a run matches `^[0-9a-z]{25}$` |

## Left out

- Serde support and the `Display` impls are not modelled. `Display` writes the encoded text.
- `TryFrom<String>` and `From<Scru128Id> for String` are not modelled. They only wrap `try_from_str` and `encode`.
- `ParseError`'s `Display` text is not modelled.
- `Id.InvalidDigitError`: keeps only the first byte of the rejected character, not the up-to-four UTF-8 bytes. Input is modelled as bytes, not as a guaranteed-valid UTF-8 `&str`.
- `Id.Encode`: `N_CHUNK_DIGITS` is fixed at 12, the value `usize::MAX.ilog(36)` has for a 64-bit `usize`.
- `Id.Encode`: the two nested loops are split into the helper methods `EncodeChunk`, `WriteChunk` and `PlaceDigit`.
- `Identifier.EncodeInner`: the rounds and the carry walk are split into `EncodeRound`, `EncodeWord`, `CarryPlace` and `SpellDigits`.
- `Identifier.EncodeInner`: the source's `debug_assert_eq!(dst, &[0; 25])` becomes a precondition.
- `Identifier.EncodeBuf`: the final `str::from_utf8(..).unwrap()` always succeeds, because the bytes are ASCII digits and letters. It is modelled as returning the bytes.
- `Generator.Scru128Generator.GenerateCoreNoRewind`: the body is split into `AdvanceFields` and `RenewAndBuild`.
- `Generator.Scru128Generator.GenerateCoreNoRewind`: after a panic from `from_fields`, the contract states only the fields left behind, not a valid state. Counter overflow can push the timestamp past 48 bits.
- Random number generator adapters are not modelled: `rand` 0.8 and 0.9, and `DefaultRng` with its ChaCha core and OS seeding.
- `Rng`: an oracle function `draw` stands in for the random number generator.
- `generate`, `generate_no_rewind` and the `Iterator` impl are not modelled. They read the system clock, which is I/O; the model takes the timestamp as an argument.
- The global, standard and default generators are not modelled. They involve thread-local storage, a mutex or process-wide state, which is concurrency and I/O.
- The deprecated `last_status` getter is not modelled. The field itself is modelled as `lastStatus`.
- `CrateProperties.RunIncreases`: the crate's samples come from `generate` with the system clock. The run here is successive `generate_core_no_rewind` calls up to the first `None`. By `CoreWithoutRollback`, this is what `generate_core` does while the clock does not move back by 10 s or more.
- The test that the timestamp is within 16 ms of the wall clock is not modelled. It needs a real clock.
