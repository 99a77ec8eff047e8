/** `Scru128Generator` of src/generator.rs: the state machine that stamps
    each new identifier with a timestamp and two counters so that the
    identifiers one generator returns increase.

    The random number generator is an oracle: its n-th `next_u32` returns
    draw(n) for a function draw that every contract below quantifies over,
    so what is proved holds for every sequence of random numbers. */
module Generator {
  import opened RustPrims
  import opened Lib
  import opened Layout
  import opened Id

  /** `Status`: what the last generation did. */
  datatype Status =
    | NotExecuted
    | NewTimestamp
    | CounterLoInc
    | CounterHiInc
    | TimestampInc
    | ClockRollback

  /** `ROLLBACK_ALLOWANCE`: ten seconds, in milliseconds. */
  const ROLLBACK_ALLOWANCE: nat := 10_000

  /** `counter_hi` is renewed once its timestamp is a second old. */
  const RENEWAL_INTERVAL: nat := 1_000

  const TIMESTAMP_PANIC: string := "`timestamp` must be a 48-bit positive integer"

  /** The message of `Option::unwrap` on `None`. */
  const UNWRAP_PANIC: string := "called `Option::unwrap()` on a `None` value"

  /** `x & MAX_COUNTER_LO` (and `& MAX_COUNTER_HI`): the low 24 bits of a
      random number. */
  function Low24(x: u32): (r: u32)
    ensures r <= MAX_COUNTER_LO && r <= MAX_COUNTER_HI
  {
    x % P24
  }

  /** A source of 32-bit random numbers whose n-th number is draw(n). */
  class Rng {
    const draw: nat -> u32
    var drawn: nat

    constructor(draw: nat -> u32)
      ensures this.draw == draw && drawn == 0
    {
      this.draw := draw;
      drawn := 0;
    }

    /** `RngCore::next_u32`. */
    method NextU32() returns (r: u32)
      modifies this
      ensures r == draw(old(drawn)) && drawn == old(drawn) + 1
    {
      r := draw(drawn);
      drawn := drawn + 1;
    }
  }

  /** The fields of a generator other than its random number generator. */
  datatype GenState = GenState(timestamp: u64, counterHi: u32, counterLo: u32, tsCounterHi: u64, lastStatus: Status)

  /** The bounds every reachable state keeps: the counters fit 24 bits, the
      stored timestamp fits 48 bits and `ts_counter_hi` never passes it, so
      `timestamp - ts_counter_hi` cannot underflow. */
  predicate InRange(s: GenState)
  {
    s.counterHi <= MAX_COUNTER_HI && s.counterLo <= MAX_COUNTER_LO
    && s.tsCounterHi <= s.timestamp <= MAX_TIMESTAMP
  }

  /** InRange, and once the generator has generated, `counter_hi` was
      renewed within the last second: the next call keeps it unless the
      timestamp moves on. */
  predicate ValidState(s: GenState)
  {
    InRange(s)
    && (s.lastStatus != NotExecuted ==> 0 < s.tsCounterHi && s.timestamp - s.tsCounterHi < RENEWAL_INTERVAL)
  }

  /** The result of one call, the fields after it and the number of random
      numbers drawn so far. */
  datatype Step = Step(result: Outcome<Option<Scru128Id>>, state: GenState, drawn: nat)

  /** The first half of `generate_core_no_rewind` on state s, with the
      random numbers from draw(n) on: the timestamp and counters it moves to
      and the random numbers drawn by then, or None on a large rollback. */
  function Advance(s: GenState, timestamp: u64, draw: nat -> u32, n: nat): (r: Option<(GenState, nat)>)
    requires InRange(s) && 0 < timestamp <= MAX_TIMESTAMP
    ensures r.Some? ==> r.value.0.tsCounterHi <= r.value.0.timestamp
  {
    if timestamp > s.timestamp then
      Some((s.(timestamp := timestamp, counterLo := Low24(draw(n)), lastStatus := NewTimestamp), n + 1))
    else if timestamp + ROLLBACK_ALLOWANCE > s.timestamp then
      if s.counterLo < MAX_COUNTER_LO then
        Some((s.(counterLo := s.counterLo + 1, lastStatus := CounterLoInc), n))
      else if s.counterHi < MAX_COUNTER_HI then
        Some((s.(counterLo := 0, counterHi := s.counterHi + 1, lastStatus := CounterHiInc), n))
      else
        Some((s.(counterHi := 0, timestamp := s.timestamp + 1, counterLo := Low24(draw(n)), lastStatus := TimestampInc), n + 1))
    else
      None
  }

  /** `generate_core_no_rewind` on state s, with the random numbers from
      draw(n) on. */
  function NoRewind(s: GenState, timestamp: u64, draw: nat -> u32, n: nat): Step
    requires InRange(s)
  {
    if timestamp == 0 || timestamp > MAX_TIMESTAMP then
      Step(Panic(TIMESTAMP_PANIC), s, n)
    else
      var next := Advance(s, timestamp, draw, n);
      if next.None? then Step(Return(None), s, n)
      else Renew(next.value.0, draw, next.value.1)
  }

  /** `counter_hi` is due for renewal: it was drawn at a timestamp a second
      or more before the stored one, or never. */
  predicate RenewalDue(s: GenState)
  {
    s.timestamp - s.tsCounterHi >= RENEWAL_INTERVAL || s.tsCounterHi == 0
  }

  /** The second half of `generate_core_no_rewind`: the `counter_hi`
      renewal, then the identifier built from the fields and one more random
      number. */
  function Renew(s: GenState, draw: nat -> u32, n: nat): Step
    requires s.tsCounterHi <= s.timestamp
  {
    var renew := RenewalDue(s);
    var s' := if renew then s.(tsCounterHi := s.timestamp, counterHi := Low24(draw(n))) else s;
    var n' := if renew then n + 1 else n;
    var id := FromFields(s'.timestamp, s'.counterHi, s'.counterLo, draw(n'));
    Step(if id.Return? then Return(Some(id.value)) else Panic(id.message), s', n' + 1)
  }

  /** The result of one call of `generate_core`. */
  datatype CoreStep = CoreStep(result: Outcome<Scru128Id>, state: GenState, drawn: nat)

  /** `generate_core`: on a large rollback, forget the stored timestamp and
      generate again. */
  function Core(s: GenState, timestamp: u64, draw: nat -> u32, n: nat): CoreStep
    requires InRange(s)
  {
    var g := NoRewind(s, timestamp, draw, n);
    if g.result == Return(None) then
      var g' := NoRewind(g.state.(timestamp := 0, tsCounterHi := 0), timestamp, draw, g.drawn);
      match g'.result
      case Return(Some(id)) => CoreStep(Return(id), g'.state.(lastStatus := ClockRollback), g'.drawn)
      case Return(None) => CoreStep(Panic(UNWRAP_PANIC), g'.state, g'.drawn)
      case Panic(m) => CoreStep(Panic(m), g'.state, g'.drawn)
    else if g.result.Panic? then
      CoreStep(Panic(g.result.message), g.state, g.drawn)
    else
      CoreStep(Return(g.result.value.value), g.state, g.drawn)
  }

  /** `generate_core_no_rewind` panics exactly when the timestamp is not a
      48-bit positive integer, leaving the state as it was, or when the
      counters overflow into a timestamp past 48 bits, which `from_fields`
      rejects. */
  lemma NoRewindPanics(s: GenState, timestamp: u64, draw: nat -> u32, n: nat)
    requires InRange(s)
    ensures var g := NoRewind(s, timestamp, draw, n);
      g.result.Panic? <==> timestamp == 0 || timestamp > MAX_TIMESTAMP || g.state.timestamp > MAX_TIMESTAMP
    ensures timestamp == 0 || timestamp > MAX_TIMESTAMP ==>
      NoRewind(s, timestamp, draw, n) == Step(Panic(TIMESTAMP_PANIC), s, n)
  {
  }

  /** A timestamp ten seconds or more behind the stored one is refused
      without touching the state: with the strict comparison, a rollback of
      exactly 10000 ms is refused too. */
  lemma NoRewindRefusesRollback(s: GenState, timestamp: u64, draw: nat -> u32, n: nat)
    requires InRange(s) && 0 < timestamp <= MAX_TIMESTAMP
    ensures NoRewind(s, timestamp, draw, n).result == Return(None) <==> timestamp + ROLLBACK_ALLOWANCE <= s.timestamp
    ensures timestamp + ROLLBACK_ALLOWANCE <= s.timestamp ==> NoRewind(s, timestamp, draw, n) == Step(Return(None), s, n)
  {
  }

  /** A newer timestamp is adopted with a fresh random `counter_lo`. */
  lemma NoRewindNewTimestamp(s: GenState, timestamp: u64, draw: nat -> u32, n: nat)
    requires InRange(s) && s.timestamp < timestamp <= MAX_TIMESTAMP
    ensures var t := NoRewind(s, timestamp, draw, n).state;
      t.timestamp == timestamp && t.counterLo == Low24(draw(n)) && t.lastStatus == NewTimestamp
  {
  }

  /** A timestamp less than ten seconds behind keeps the stored one and
      counts up: `counter_lo` first, then `counter_hi`, then the timestamp,
      with `counter_lo` drawn afresh and `counter_hi` back at zero when the
      timestamp moves. A `counter_hi` due for renewal is then drawn afresh
      instead. */
  lemma NoRewindCountsUp(s: GenState, timestamp: u64, draw: nat -> u32, n: nat)
    requires InRange(s) && 0 < timestamp <= s.timestamp < timestamp + ROLLBACK_ALLOWANCE
    ensures var t := NoRewind(s, timestamp, draw, n).state;
      if s.counterLo < MAX_COUNTER_LO then
        t.timestamp == s.timestamp && t.counterLo == s.counterLo + 1 && t.lastStatus == CounterLoInc
        && t.counterHi == (if RenewalDue(s) then Low24(draw(n)) else s.counterHi)
      else if s.counterHi < MAX_COUNTER_HI then
        t.timestamp == s.timestamp && t.counterLo == 0 && t.lastStatus == CounterHiInc
        && t.counterHi == (if RenewalDue(s) then Low24(draw(n)) else s.counterHi + 1)
      else
        t.timestamp == s.timestamp + 1 && t.counterLo == Low24(draw(n)) && t.lastStatus == TimestampInc
        && t.counterHi == (if RenewalDue(s.(timestamp := s.timestamp + 1)) then Low24(draw(n + 1)) else 0)
  {
  }

  /** Once the generator has generated, the same timestamp or one less than
      ten seconds behind renews `counter_hi` only when the counters overflow
      into the millisecond a second after its last renewal: otherwise it
      stays, goes up by one when `counter_lo` overflows, or starts over at
      zero with the timestamp. */
  lemma NoRewindCountsUpAfterFirst(s: GenState, timestamp: u64, draw: nat -> u32, n: nat)
    requires ValidState(s) && s.lastStatus != NotExecuted
    requires 0 < timestamp <= s.timestamp < timestamp + ROLLBACK_ALLOWANCE
    ensures var t := NoRewind(s, timestamp, draw, n).state;
      if s.counterLo < MAX_COUNTER_LO then t.counterHi == s.counterHi
      else if s.counterHi < MAX_COUNTER_HI then t.counterHi == s.counterHi + 1
      else t.counterHi == (if s.timestamp + 1 - s.tsCounterHi == RENEWAL_INTERVAL then Low24(draw(n + 1)) else 0)
  {
  }

  /** `counter_hi` is drawn afresh, and `ts_counter_hi` set to the stored
      timestamp, exactly when the last renewal is a second old or never
      happened; otherwise both stay as the first half of the call left them. */
  lemma NoRewindRenewsCounterHi(s: GenState, timestamp: u64, draw: nat -> u32, n: nat)
    requires InRange(s) && 0 < timestamp <= MAX_TIMESTAMP
    requires Advance(s, timestamp, draw, n).Some?
    ensures var (a, m) := Advance(s, timestamp, draw, n).value;
      var t := NoRewind(s, timestamp, draw, n).state;
      if RenewalDue(a) then
        t.tsCounterHi == a.timestamp && t.counterHi == Low24(draw(m))
      else
        t.tsCounterHi == a.tsCounterHi && t.counterHi == a.counterHi
  {
  }

  /** A returned identifier carries the stored timestamp and counters, and
      the state it leaves is valid. */
  lemma NoRewindReturns(s: GenState, timestamp: u64, draw: nat -> u32, n: nat)
    requires InRange(s)
    ensures var g := NoRewind(s, timestamp, draw, n);
      g.result.Return? && g.result.value.Some? ==>
        var id := g.result.value.value;
        ValidState(g.state) && g.state.lastStatus != NotExecuted
        && Timestamp(id) == g.state.timestamp && CounterHi(id) == g.state.counterHi
        && CounterLo(id) == g.state.counterLo
  {
  }

  /** A call that does not panic keeps the state valid. */
  lemma NoRewindKeepsValid(s: GenState, timestamp: u64, draw: nat -> u32, n: nat)
    requires ValidState(s)
    ensures NoRewind(s, timestamp, draw, n).result.Return? ==> ValidState(NoRewind(s, timestamp, draw, n).state)
  {
    NoRewindReturns(s, timestamp, draw, n);
  }

  /** Monotonicity: after a generation, the next identifier returned has a
      greater (timestamp, counter_hi, counter_lo) tuple than the stored one. */
  lemma NoRewindIncreases(s: GenState, timestamp: u64, draw: nat -> u32, n: nat)
    requires ValidState(s) && s.lastStatus != NotExecuted
    ensures var g := NoRewind(s, timestamp, draw, n);
      g.result.Return? && g.result.value.Some? ==>
        TupleLess(s.timestamp, s.counterHi, s.counterLo, g.state.timestamp, g.state.counterHi, g.state.counterLo)
  {
  }

  /** The identifier returned after `prev`, the one the stored fields came
      from, is greater than `prev`. */
  lemma NoRewindIdIncreases(s: GenState, timestamp: u64, draw: nat -> u32, n: nat, prev: Scru128Id)
    requires ValidState(s) && s.lastStatus != NotExecuted
    requires Timestamp(prev) == s.timestamp && CounterHi(prev) == s.counterHi && CounterLo(prev) == s.counterLo
    ensures var g := NoRewind(s, timestamp, draw, n);
      g.result.Return? && g.result.value.Some? ==> Less(prev, g.result.value.value)
  {
    var g := NoRewind(s, timestamp, draw, n);
    if g.result.Return? && g.result.value.Some? {
      NoRewindIncreases(s, timestamp, draw, n);
      NoRewindReturns(s, timestamp, draw, n);
      FieldOrder(prev, g.result.value.value);
    }
  }

  /** Identifiers compare like their (timestamp, counter_hi, counter_lo)
      tuples when those differ. */
  lemma FieldOrder(a: Scru128Id, b: Scru128Id)
    requires TupleLess(Timestamp(a), CounterHi(a), CounterLo(a), Timestamp(b), CounterHi(b), CounterLo(b))
    ensures Less(a, b)
  {
    PackUnpack(ToU128(a));
    PackUnpack(ToU128(b));
    PackOrder(Timestamp(a), CounterHi(a), CounterLo(a), Entropy(a), Timestamp(b), CounterHi(b), CounterLo(b), Entropy(b));
    LessIsNumeric(a, b);
  }

  /** Without a large rollback, `generate_core` is `generate_core_no_rewind`
      with the identifier unwrapped. */
  lemma CoreWithoutRollback(s: GenState, timestamp: u64, draw: nat -> u32, n: nat)
    requires InRange(s)
    requires NoRewind(s, timestamp, draw, n).result != Return(None)
    ensures var g, c := NoRewind(s, timestamp, draw, n), Core(s, timestamp, draw, n);
      c.state == g.state && c.drawn == g.drawn
      && (c.result.Panic? <==> g.result.Panic?)
      && (c.result.Return? ==> g.result == Return(Some(c.result.value)))
  {
  }

  /** On a large rollback `generate_core` starts over from the new
      timestamp: it never fails to unwrap, returns an identifier with that
      timestamp and reports `ClockRollback`. */
  lemma CoreRollsBack(s: GenState, timestamp: u64, draw: nat -> u32, n: nat)
    requires InRange(s) && 0 < timestamp <= MAX_TIMESTAMP
    requires timestamp + ROLLBACK_ALLOWANCE <= s.timestamp
    ensures var c := Core(s, timestamp, draw, n);
      c.result.Return? && Timestamp(c.result.value) == timestamp
      && c.state.timestamp == timestamp && c.state.tsCounterHi == timestamp
      && c.state.lastStatus == ClockRollback && ValidState(c.state)
  {
    NoRewindRefusesRollback(s, timestamp, draw, n);
    var reset := s.(timestamp := 0, tsCounterHi := 0);
    NoRewindReturns(reset, timestamp, draw, n);
  }

  /** A call of `generate_core` that does not panic leaves a valid state. */
  lemma CoreKeepsValid(s: GenState, timestamp: u64, draw: nat -> u32, n: nat)
    requires InRange(s)
    ensures Core(s, timestamp, draw, n).result.Return? ==> ValidState(Core(s, timestamp, draw, n).state)
  {
    var g := NoRewind(s, timestamp, draw, n);
    NoRewindReturns(s, timestamp, draw, n);
    if g.result == Return(None) {
      NoRewindReturns(g.state.(timestamp := 0, tsCounterHi := 0), timestamp, draw, g.drawn);
    }
  }

  /** `Scru128Generator`. */
  class Scru128Generator {
    var timestamp: u64
    var counterHi: u32
    var counterLo: u32
    /** Timestamp at the last renewal of `counter_hi`. */
    var tsCounterHi: u64
    /** Status reported at the last generation. */
    var lastStatus: Status
    /** The random number generator the generator owns. */
    const rng: Rng

    /** The fields other than the random number generator. */
    function Fields(): GenState
      reads this
    {
      GenState(timestamp, counterHi, counterLo, tsCounterHi, lastStatus)
    }

    ghost predicate Valid()
      reads this
    {
      ValidState(Fields())
    }

    /** `with_rng`: all fields zero, nothing generated yet. */
    constructor WithRng(rng: Rng)
      ensures Fields() == GenState(0, 0, 0, 0, NotExecuted) && this.rng == rng
      ensures Valid()
    {
      timestamp := 0;
      counterHi := 0;
      counterLo := 0;
      tsCounterHi := 0;
      lastStatus := NotExecuted;
      this.rng := rng;
    }

    /** `generate_core_no_rewind`. */
    method GenerateCoreNoRewind(timestamp: u64) returns (r: Outcome<Option<Scru128Id>>)
      requires InRange(Fields())
      modifies this, rng
      ensures Step(r, Fields(), rng.drawn) == NoRewind(old(Fields()), timestamp, rng.draw, old(rng.drawn))
      ensures old(Valid()) && r.Return? ==> Valid()
      ensures old(Valid()) && old(lastStatus) != NotExecuted && r.Return? && r.value.Some? ==>
        TupleLess(old(this.timestamp), old(counterHi), old(counterLo), this.timestamp, counterHi, counterLo)
    {
      if Valid() {
        NoRewindKeepsValid(Fields(), timestamp, rng.draw, rng.drawn);
        if lastStatus != NotExecuted {
          NoRewindIncreases(Fields(), timestamp, rng.draw, rng.drawn);
        }
      }
      if timestamp == 0 || timestamp > MAX_TIMESTAMP {
        return Panic(TIMESTAMP_PANIC);
      }
      var advanced := AdvanceFields(timestamp);
      if !advanced {
        // a rollback of ten seconds or more: leave the fields alone
        return Return(None);
      }
      r := RenewAndBuild();
    }

    /** The first half of `generate_core_no_rewind`: moves the timestamp and
        the counters on, or reports a large rollback and changes nothing. */
    method AdvanceFields(timestamp: u64) returns (advanced: bool)
      requires InRange(Fields()) && 0 < timestamp <= MAX_TIMESTAMP
      modifies this, rng
      ensures var next := Advance(old(Fields()), timestamp, rng.draw, old(rng.drawn));
        if advanced then next == Some((Fields(), rng.drawn))
        else next.None? && Fields() == old(Fields()) && rng.drawn == old(rng.drawn)
    {
      advanced := true;
      if timestamp > this.timestamp {
        this.timestamp := timestamp;
        var x := rng.NextU32();
        counterLo := Low24(x);
        lastStatus := NewTimestamp;
      } else if timestamp + ROLLBACK_ALLOWANCE > this.timestamp {
        // a small rollback or the same millisecond: count on from the stored timestamp
        counterLo := counterLo + 1;
        lastStatus := CounterLoInc;
        if counterLo > MAX_COUNTER_LO {
          counterLo := 0;
          counterHi := counterHi + 1;
          lastStatus := CounterHiInc;
          if counterHi > MAX_COUNTER_HI {
            counterHi := 0;
            // both counters are exhausted: borrow the next millisecond
            this.timestamp := this.timestamp + 1;
            var x := rng.NextU32();
            counterLo := Low24(x);
            lastStatus := TimestampInc;
          }
        }
      } else {
        advanced := false;
      }
    }

    /** The end of `generate_core_no_rewind`: renews `counter_hi` once its
        timestamp is a second old, then builds the identifier. */
    method RenewAndBuild() returns (r: Outcome<Option<Scru128Id>>)
      requires tsCounterHi <= timestamp
      modifies this, rng
      ensures Step(r, Fields(), rng.drawn) == Renew(old(Fields()), rng.draw, old(rng.drawn))
    {
      if RenewalDue(Fields()) {
        tsCounterHi := timestamp;
        var x := rng.NextU32();
        counterHi := Low24(x);
      }
      var entropy := rng.NextU32();
      var id := FromFields(timestamp, counterHi, counterLo, entropy);
      r := if id.Return? then Return(Some(id.value)) else Panic(id.message);
    }

    /** `generate_core`. */
    method GenerateCore(timestamp: u64) returns (r: Outcome<Scru128Id>)
      requires InRange(Fields())
      modifies this, rng
      ensures CoreStep(r, Fields(), rng.drawn) == Core(old(Fields()), timestamp, rng.draw, old(rng.drawn))
      ensures r.Return? ==> Valid()
    {
      CoreKeepsValid(Fields(), timestamp, rng.draw, rng.drawn);
      var first := GenerateCoreNoRewind(timestamp);
      if first == Return(None) {
        // forget the stored timestamp and try once more
        this.timestamp := 0;
        tsCounterHi := 0;
        var second := GenerateCoreNoRewind(timestamp);
        match second
        case Return(Some(value)) =>
          lastStatus := ClockRollback;
          r := Return(value);
        case Return(None) =>
          r := Panic(UNWRAP_PANIC);
        case Panic(m) =>
          r := Panic(m);
      } else if first.Panic? {
        r := Panic(first.message);
      } else {
        r := Return(first.value.value);
      }
    }
  }
}
