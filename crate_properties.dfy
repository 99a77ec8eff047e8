/** The properties the crate root's tests check on a run of generated
    identifiers (src/lib.rs): every canonical text is 25 digits or
    lower-case letters, the identifiers never collide, they increase as
    integers and as texts, and so do their (timestamp, counter_hi,
    counter_lo) tuples. The run is one generator's successive calls of
    `generate_core_no_rewind`, the variant that never rewinds. */
module CrateProperties {
  import opened RustPrims
  import opened Positional
  import opened Layout
  import opened Id
  import opened Generator

  /** The identifiers that successive calls with the timestamps tss return,
      starting from state s with the random numbers from draw(n) on, up to
      the first call that returns none or panics. */
  function Run(s: GenState, tss: seq<u64>, draw: nat -> u32, n: nat): (ids: seq<Scru128Id>)
    requires InRange(s)
    ensures |ids| <= |tss|
    decreases |tss|
  {
    if |tss| == 0 then []
    else
      var g := NoRewind(s, tss[0], draw, n);
      if g.result.Return? && g.result.value.Some? then
        NoRewindReturns(s, tss[0], draw, n);
        [g.result.value.value] + Run(g.state, tss[1..], draw, g.drawn)
      else []
  }

  /** The fields of an identifier as a tuple are less than those of another. */
  predicate FieldsLess(a: Scru128Id, b: Scru128Id)
  {
    TupleLess(Timestamp(a), CounterHi(a), CounterLo(a), Timestamp(b), CounterHi(b), CounterLo(b))
  }

  /** The identifiers are in strictly increasing order. */
  predicate Increasing(ids: seq<Scru128Id>)
  {
    forall i, j :: 0 <= i < j < |ids| ==> Less(ids[i], ids[j])
  }

  /** `ids` only goes up after `prev`: every identifier is above `prev`,
      the tuples increase from `prev` through each identifier to the next,
      and the identifiers are in increasing order. */
  predicate Chain(prev: Scru128Id, ids: seq<Scru128Id>)
  {
    (forall i :: 0 <= i < |ids| ==> Less(prev, ids[i]))
    && (|ids| > 0 ==> FieldsLess(prev, ids[0]))
    && (forall i :: 0 < i < |ids| ==> FieldsLess(ids[i - 1], ids[i]))
    && Increasing(ids)
  }

  /** A chain after `first` stays one after `prev` once `first` is put in
      front, when `first` is above `prev` as an integer and as a tuple. */
  lemma ChainCons(prev: Scru128Id, first: Scru128Id, rest: seq<Scru128Id>)
    requires Less(prev, first) && FieldsLess(prev, first) && Chain(first, rest)
    ensures Chain(prev, [first] + rest)
  {
    var ids := [first] + rest;
    forall i | 0 < i < |ids|
      ensures Less(prev, ids[i]) && Less(first, ids[i])
    {
      assert ids[i] == rest[i - 1];
      LessIsTotalOrder(prev, first, ids[i]);
    }
    forall i | 0 < i < |ids|
      ensures FieldsLess(ids[i - 1], ids[i])
    {
      if i > 1 {
        assert ids[i - 1] == rest[i - 2] && ids[i] == rest[i - 1];
      }
    }
    forall i, j | 0 <= i < j < |ids|
      ensures Less(ids[i], ids[j])
    {
      if i > 0 {
        assert ids[i] == rest[i - 1] && ids[j] == rest[j - 1];
      }
    }
  }

  /** After `prev`, whose fields the state holds, a run is a chain. */
  lemma {:induction false} RunAbove(s: GenState, tss: seq<u64>, draw: nat -> u32, n: nat, prev: Scru128Id)
    requires ValidState(s) && s.lastStatus != NotExecuted
    requires Timestamp(prev) == s.timestamp && CounterHi(prev) == s.counterHi && CounterLo(prev) == s.counterLo
    ensures Chain(prev, Run(s, tss, draw, n))
    decreases |tss|
  {
    if |tss| > 0 {
      var g := NoRewind(s, tss[0], draw, n);
      if g.result.Return? && g.result.value.Some? {
        var first := g.result.value.value;
        NoRewindReturns(s, tss[0], draw, n);
        NoRewindIncreases(s, tss[0], draw, n);
        NoRewindIdIncreases(s, tss[0], draw, n, prev);
        RunAbove(g.state, tss[1..], draw, g.drawn, first);
        ChainCons(prev, first, Run(g.state, tss[1..], draw, g.drawn));
      }
    }
  }

  /** The identifiers of a run from a valid state, the state `with_rng`
      creates included, increase strictly, with increasing tuples. */
  lemma RunIncreases(s: GenState, tss: seq<u64>, draw: nat -> u32, n: nat)
    requires ValidState(s)
    ensures var ids := Run(s, tss, draw, n);
      (forall i :: 0 < i < |ids| ==> FieldsLess(ids[i - 1], ids[i])) && Increasing(ids)
  {
    if |tss| > 0 {
      var g := NoRewind(s, tss[0], draw, n);
      if g.result.Return? && g.result.value.Some? {
        var first := g.result.value.value;
        NoRewindReturns(s, tss[0], draw, n);
        RunAbove(g.state, tss[1..], draw, g.drawn, first);
        ChainHead(first, Run(g.state, tss[1..], draw, g.drawn));
      }
    }
  }

  /** A chain after `first`, with `first` in front, is increasing. */
  lemma ChainHead(first: Scru128Id, rest: seq<Scru128Id>)
    requires Chain(first, rest)
    ensures var ids := [first] + rest;
      (forall i :: 0 < i < |ids| ==> FieldsLess(ids[i - 1], ids[i])) && Increasing(ids)
  {
    var ids := [first] + rest;
    forall i | 0 < i < |ids|
      ensures FieldsLess(ids[i - 1], ids[i])
    {
      if i > 1 {
        assert ids[i - 1] == rest[i - 2] && ids[i] == rest[i - 1];
      }
    }
    forall i, j | 0 <= i < j < |ids|
      ensures Less(ids[i], ids[j])
    {
      if i > 0 {
        assert ids[i] == rest[i - 1];
      }
      assert ids[j] == rest[j - 1];
    }
  }

  /** No two identifiers of a run collide. */
  lemma RunHasNoCollision(s: GenState, tss: seq<u64>, draw: nat -> u32, n: nat)
    requires ValidState(s)
    ensures var ids := Run(s, tss, draw, n);
      forall i, j :: 0 <= i < |ids| && 0 <= j < |ids| && i != j ==> ids[i] != ids[j]
  {
    RunIncreases(s, tss, draw, n);
    IncreasingAreDistinct(Run(s, tss, draw, n));
  }

  /** Identifiers in strictly increasing order are pairwise distinct. */
  lemma IncreasingAreDistinct(ids: seq<Scru128Id>)
    requires Increasing(ids)
    ensures forall i, j :: 0 <= i < |ids| && 0 <= j < |ids| && i != j ==> ids[i] != ids[j]
  {
    forall i, j | 0 <= i < |ids| && 0 <= j < |ids| && i != j
      ensures ids[i] != ids[j]
    {
      LessIsTotalOrder(ids[i], ids[i], ids[i]);
      if i < j {
        assert Less(ids[i], ids[j]);
      } else {
        assert Less(ids[j], ids[i]);
      }
    }
  }

  /** The canonical texts of a run sort strictly in generation order. */
  lemma RunTextsIncrease(s: GenState, tss: seq<u64>, draw: nat -> u32, n: nat)
    requires ValidState(s)
    ensures var ids := Run(s, tss, draw, n);
      forall i, j :: 0 <= i < j < |ids| ==> LexLess(Canonical(ids[i]), Canonical(ids[j]))
  {
    var ids := Run(s, tss, draw, n);
    RunIncreases(s, tss, draw, n);
    forall i, j | 0 <= i < j < |ids|
      ensures LexLess(Canonical(ids[i]), Canonical(ids[j]))
    {
      CanonicalOrder(ids[i], ids[j]);
    }
  }

  /** Every canonical text of a run matches `^[0-9a-z]{25}$`. */
  lemma RunTextsAreCanonical(s: GenState, tss: seq<u64>, draw: nat -> u32, n: nat)
    requires InRange(s)
    ensures var ids := Run(s, tss, draw, n);
      forall i :: 0 <= i < |ids| ==>
        (|Canonical(ids[i])| == 25
         && forall k :: 0 <= k < 25 ==>
              (0x30 <= Canonical(ids[i])[k] <= 0x39) || (0x61 <= Canonical(ids[i])[k] <= 0x7a))
  {
    var ids := Run(s, tss, draw, n);
    forall i | 0 <= i < |ids|
      ensures forall k :: 0 <= k < 25 ==>
        (0x30 <= Canonical(ids[i])[k] <= 0x39) || (0x61 <= Canonical(ids[i])[k] <= 0x7a)
    {
      CanonicalFormat(ids[i]);
    }
  }
}
