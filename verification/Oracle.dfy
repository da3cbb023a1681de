/** The price oracle: a ring of one hundred observations with wrapping cumulative prices, and
    the unbounded log of ticks that it refines. */
module Oracle {
  import opened Checked
  import opened Rounding
  import opened Tokens

  const OBSERVATION_NUM := 100
  const UPDATE_DURATION: u64 := 15
  const TWO_96: int := 0x1_0000_0000_0000_0000_0000_0000
  const TWO_32: int := 0x1_0000_0000

  datatype Observation = Observation(timestamp: u64, cumulative0: u128, cumulative1: u128) {
    function Cumulative(t: Token): u128 {
      if t == Token0 then cumulative0 else cumulative1
    }
  }

  type SlotIndex = i: int | 0 <= i < 100

  type Slots = s: seq<Observation> | |s| == OBSERVATION_NUM
    witness seq(OBSERVATION_NUM, _ => Observation(0, 0, 0))

  datatype Ring = Ring(initialized: bool, index: SlotIndex, slots: Slots)

  /** The ring of a newly created account. */
  function EmptyRing(): Ring {
    Ring(false, 0, seq(OBSERVATION_NUM, _ => Observation(0, 0, 0)))
  }

  /** A value kept in 128 bits. */
  function Wrap(v: int): u128 {
    v % 0x1_0000_0000_0000_0000_0000_0000_0000_0000
  }

  function WrappingAdd(a: u128, b: u128): u128 {
    Wrap(a + b)
  }

  function WrappingSub(a: u128, b: u128): u128 {
    Wrap(a - b)
  }

  const TWO_128: nat := 0x1_0000_0000_0000_0000_0000_0000_0000_0000

  /** Wrapping may be done before or after adding and subtracting. */
  lemma WrapLaws(a: int, b: int)
    ensures WrappingAdd(Wrap(a), Wrap(b)) == Wrap(a + b)
    ensures WrappingSub(Wrap(a), Wrap(b)) == Wrap(a - b)
  {
    ModAddSub(a, b, TWO_128);
  }

  lemma WrapFits(a: u128)
    ensures Wrap(a) == a
  {
    DivModUnique(a, TWO_128, 0, a);
  }

  lemma WrapSum(a: int, delta: u128, sum: int)
    requires sum == a + delta
    ensures Wrap(sum) == WrappingAdd(Wrap(a), delta)
  {
    WrapLaws(a, delta);
    WrapFits(delta);
  }

  lemma WrapGap(older: nat, newer: nat, gap: nat)
    requires newer == older + gap
    ensures WrappingSub(Wrap(newer), Wrap(older)) == Wrap(gap)
    ensures gap <= U128_MAX ==> Wrap(gap) == gap
  {
    WrapLaws(newer, older);
    if gap <= U128_MAX {
      WrapFits(gap);
    }
  }

  /** The slot that tick k of the log occupies. */
  function SlotOf(k: nat): SlotIndex {
    k % 100
  }

  /** Ticks less than a hundred apart occupy different slots; the next tick's slot is the next
      index; stepping back along the ring is stepping back in the log. */
  lemma SlotLaws(k: nat, back: nat)
    requires back < 100
    ensures SlotOf(k + 1) == NextIndex(SlotOf(k))
    ensures 0 < back <= k ==> SlotOf(k - back) != SlotOf(k)
    ensures back <= k ==> SlotOf(k - back) == (SlotOf(k) + 100 - back) % 100
  {
    var q, r := k / 100, k % 100;
    if r == 99 {
      DivModUnique(k + 1, 100, q + 1, 0);
    } else {
      DivModUnique(k + 1, 100, q, r + 1);
    }
    if back <= r {
      DivModUnique(k - back, 100, q, r - back);
      DivModUnique(r + 100 - back, 100, 1, r - back);
    } else {
      DivModUnique(k - back, 100, q - 1, r + 100 - back);
      DivModUnique(r + 100 - back, 100, 0, r + 100 - back);
    }
  }

  function NextIndex(i: SlotIndex): SlotIndex {
    if i == OBSERVATION_NUM - 1 then 0 else i + 1
  }

  function Updated(o: Ring, now: u64, price0: u128, price1: u128): Result<Ring> {
    if !o.initialized then Ok(Ring(true, o.index, o.slots[o.index := Observation(now, 0, 0)]))
    else
      var last := o.slots[o.index];
      var elapsed := SaturatingSub(now, last.timestamp);
      if elapsed < UPDATE_DURATION then Ok(o)
      else
        var delta0 :- CheckedMul(price0, elapsed).Unwrap();
        var delta1 :- CheckedMul(price1, elapsed).Unwrap();
        var next := NextIndex(o.index);
        var entry := Observation(now,
                                 WrappingAdd(last.cumulative0, delta0),
                                 WrappingAdd(last.cumulative1, delta1));
        Ok(Ring(true, next, o.slots[next := entry]))
  }

  /** The update writes a first observation, or skips one that comes too soon, or can multiply both
      prices by the elapsed time within 128 bits. */
  ghost predicate Takes(o: Ring, now: u64, price0: u128, price1: u128) {
    || !o.initialized
    || now < o.slots[o.index].timestamp + 15
    || (var elapsed := now - o.slots[o.index].timestamp;
        Times(price0, elapsed) <= U128_MAX && Times(price1, elapsed) <= U128_MAX)
  }

  lemma UpdatedIff(o: Ring, now: u64, price0: u128, price1: u128)
    ensures Updated(o, now, price0, price1).Ok? <==> Takes(o, now, price0, price1)
  {
  }

  /** What an update writes: the first observation in the current slot; nothing before 15 seconds have
      passed; and after that the next slot, with the prices of the elapsed time added on. */
  lemma UpdateEffect(o: Ring, now: u64, price0: u128, price1: u128)
    requires Takes(o, now, price0, price1)
    ensures var last := o.slots[o.index];
            Updated(o, now, price0, price1)
            == Ok(if !o.initialized then Ring(true, o.index, o.slots[o.index := Observation(now, 0, 0)])
                  else if now < last.timestamp + 15 then o
                  else
                    var next, elapsed := (o.index + 1) % 100, now - last.timestamp;
                    Ring(true, next, o.slots[next := Observation(now, Wrap(last.cumulative0 + Times(price0, elapsed)),
                                                                 Wrap(last.cumulative1 + Times(price1, elapsed)))]))
  {
    SlotLaws(o.index, 0);
  }

  // ---------- The log ----------

  /** A recorded update; the prices held from the tick before until this one. */
  datatype Tick = Tick(time: u64, price0: u128, price1: u128) {
    function Price(t: Token): u128 {
      if t == Token0 then price0 else price1
    }
  }

  /** The log takes a tick only when it is empty or its last tick is old enough. */
  function Appended(log: seq<Tick>, tick: Tick): seq<Tick> {
    if log == [] || log[|log| - 1].time + 15 <= tick.time then log + [tick] else log
  }

  /** Consecutive ticks are at least 15 seconds apart. */
  ghost predicate Spaced(log: seq<Tick>) {
    forall k :: 0 < k < |log| ==> log[k - 1].time + 15 <= log[k].time
  }

  /** Price times elapsed time, summed over the intervals from tick i to tick j. */
  ghost function Area(log: seq<Tick>, i: nat, j: nat, t: Token): (area: nat)
    requires Spaced(log)
    requires i <= j < |log|
    decreases j
  {
    if i == j then 0
    else Area(log, i, j - 1, t) + Times(log[j].Price(t), log[j].time - log[j - 1].time)
  }

  ghost function Entry(log: seq<Tick>, k: nat): Observation
    requires Spaced(log)
    requires k < |log|
  {
    Observation(log[k].time, Wrap(Area(log, 0, k, Token0)), Wrap(Area(log, 0, k, Token1)))
  }

  /** How many of the newest ticks the ring still holds. */
  function Retained(n: nat): nat {
    Min(n, 100)
  }

  /** The ring holds exactly the newest ticks of the log, tick k in slot k mod 100. */
  ghost predicate Refines(o: Ring, log: seq<Tick>) {
    && Spaced(log)
    && (o.initialized <==> log != [])
    && o.index == (if log == [] then 0 else SlotOf(|log| - 1))
    && (forall k :: |log| - Retained(|log|) <= k < |log| ==> o.slots[SlotOf(k)] == Entry(log, k))
  }

  lemma {:induction false} AreaOfPrefix(log: seq<Tick>, tick: Tick, i: nat, j: nat, t: Token)
    requires i <= j < |log| && Spaced(log) && Spaced(log + [tick])
    ensures Area(log + [tick], i, j, t) == Area(log, i, j, t)
    decreases j
  {
    if i < j {
      AreaOfPrefix(log, tick, i, j - 1, t);
    }
  }

  /** An appended tick extends the area by its price times the elapsed time. */
  lemma NextArea(log: seq<Tick>, tick: Tick, t: Token)
    requires Spaced(log) && log != []
    requires log[|log| - 1].time + 15 <= tick.time
    ensures Spaced(log + [tick])
    ensures Area(log + [tick], 0, |log|, t)
         == Area(log, 0, |log| - 1, t) + Times(tick.Price(t), tick.time - log[|log| - 1].time)
  {
    AreaOfPrefix(log, tick, 0, |log| - 1, t);
  }

  lemma NextCumulative(log: seq<Tick>, tick: Tick, delta: u128, t: Token)
    requires Spaced(log) && log != []
    requires log[|log| - 1].time + 15 <= tick.time
    requires delta == Times(tick.Price(t), tick.time - log[|log| - 1].time)
    ensures Spaced(log + [tick])
    ensures Wrap(Area(log + [tick], 0, |log|, t)) == WrappingAdd(Wrap(Area(log, 0, |log| - 1, t)), delta)
  {
    NextArea(log, tick, t);
    WrapSum(Area(log, 0, |log| - 1, t), delta, Area(log + [tick], 0, |log|, t));
  }

  /** Writing the entry of a new tick into the next slot keeps the ring on the newest ticks. */
  lemma PushRefines(o: Ring, log: seq<Tick>, tick: Tick)
    requires Refines(o, log) && log != []
    requires Spaced(log + [tick])
    ensures Refines(Ring(true, NextIndex(o.index), o.slots[NextIndex(o.index) := Entry(log + [tick], |log|)]),
                    log + [tick])
  {
    var n := |log|;
    var longer := log + [tick];
    SlotLaws(n - 1, 0);
    forall k | n + 1 - Retained(n + 1) <= k < n
      ensures Entry(longer, k) == Entry(log, k) && SlotOf(k) != SlotOf(n)
    {
      SlotLaws(n, n - k);
      AreaOfPrefix(log, tick, 0, k, Token0);
      AreaOfPrefix(log, tick, 0, k, Token1);
    }
  }

  /** An accepted update of the ring is the appending of a tick to the log. */
  lemma UpdateRefines(o: Ring, log: seq<Tick>, now: u64, price0: u128, price1: u128)
    requires Refines(o, log)
    requires Updated(o, now, price0, price1).Ok?
    ensures Refines(Updated(o, now, price0, price1).value, Appended(log, Tick(now, price0, price1)))
  {
    var tick := Tick(now, price0, price1);
    var n := |log|;
    if log == [] {
      assert Entry([tick], 0) == Observation(now, 0, 0) by { WrapFits(0); }
    } else {
      var last := o.slots[o.index];
      assert last == Entry(log, n - 1) by { assert o.slots[SlotOf(n - 1)] == Entry(log, n - 1); }
      if last.timestamp + 15 <= now {
        var delta0, delta1 := Times(price0, now - last.timestamp), Times(price1, now - last.timestamp);
        NextCumulative(log, tick, delta0, Token0);
        NextCumulative(log, tick, delta1, Token1);
        PushRefines(o, log, tick);
      }
    }
  }

  /** Reading back from the current index visits the newest ticks of the log, newest first. */
  lemma ReadBack(o: Ring, log: seq<Tick>, back: nat)
    requires Refines(o, log)
    requires back < Retained(|log|)
    ensures o.slots[(o.index + 100 - back) % 100] == Entry(log, |log| - 1 - back)
  {
    SlotLaws(|log| - 1, back);
  }

  lemma {:induction false} AreaSplits(log: seq<Tick>, i: nat, j: nat, t: Token)
    requires Spaced(log) && i <= j < |log|
    ensures Area(log, 0, j, t) == Area(log, 0, i, t) + Area(log, i, j, t)
    decreases j
  {
    if i < j {
      AreaSplits(log, i, j - 1, t);
    }
  }

  /** Prices below 2^96 keep an area below 2^96 times its span. */
  lemma {:induction false} AreaBounded(log: seq<Tick>, i: nat, j: nat, t: Token)
    requires Spaced(log) && i <= j < |log|
    requires forall k :: i < k <= j ==> log[k].Price(t) < TWO_96
    ensures log[i].time <= log[j].time
    ensures Area(log, i, j, t) <= TWO_96 * (log[j].time - log[i].time)
    ensures log[j].time - log[i].time < TWO_32 ==> Area(log, i, j, t) <= U128_MAX
    decreases j
  {
    if i < j {
      AreaBounded(log, i, j - 1, t);
      TimesIs(log[j].Price(t), log[j].time - log[j - 1].time);
      MulMono(log[j].Price(t), TWO_96, log[j].time - log[j - 1].time);
    }
  }

  /** Telescoping: between two retained observations the wrapping difference of the cumulative
      prices is the area between them modulo 2^128, and with prices below 2^96 over a span
      below 2^32 seconds it is the area itself. */
  lemma Telescoping(o: Ring, log: seq<Tick>, i: nat, j: nat, t: Token)
    requires Refines(o, log)
    requires |log| - Retained(|log|) <= i <= j < |log|
    ensures var older, newer := o.slots[SlotOf(i)], o.slots[SlotOf(j)];
            var difference := WrappingSub(newer.Cumulative(t), older.Cumulative(t));
            && newer.timestamp - older.timestamp == log[j].time - log[i].time
            && difference == Wrap(Area(log, i, j, t))
            && (&& (forall k :: i < k <= j ==> log[k].Price(t) < 0x1_0000_0000_0000_0000_0000_0000)
                && log[j].time - log[i].time < 0x1_0000_0000
                ==> difference == Area(log, i, j, t))
  {
    AreaSplits(log, i, j, t);
    WrapGap(Area(log, 0, i, t), Area(log, 0, j, t), Area(log, i, j, t));
    if forall k :: i < k <= j ==> log[k].Price(t) < TWO_96 {
      AreaBounded(log, i, j, t);
    }
    assert o.slots[SlotOf(i)] == Entry(log, i) && o.slots[SlotOf(j)] == Entry(log, j);
  }

  /** With prices below 2^96 and less than 2^32 seconds since the last observation an update
      never aborts. */
  lemma UpdateNeverAborts(o: Ring, now: u64, price0: u128, price1: u128)
    requires price0 < 0x1_0000_0000_0000_0000_0000_0000 && price1 < 0x1_0000_0000_0000_0000_0000_0000
    requires o.initialized ==> now < o.slots[o.index].timestamp + 0x1_0000_0000
    ensures Updated(o, now, price0, price1).Ok?
  {
    var elapsed := SaturatingSub(now, o.slots[o.index].timestamp);
    if o.initialized {
      TimesIs(price0, elapsed);
      TimesIs(price1, elapsed);
      MulMono(price0, TWO_96, elapsed);
      MulMono(price1, TWO_96, elapsed);
    }
  }

  // ---------- The account ----------

  class ObservationState {
    var initialized: bool
    var observationIndex: SlotIndex
    const observations: array<Observation>
    ghost var log: seq<Tick>

    ghost function Value(): Ring
      requires observations.Length == OBSERVATION_NUM
      reads this, observations
    {
      Ring(initialized, observationIndex, observations[..])
    }

    ghost predicate Valid()
      reads this, observations
    {
      observations.Length == OBSERVATION_NUM && Refines(Value(), log)
    }

    constructor ()
      ensures Valid() && fresh(observations)
      ensures Value() == EmptyRing() && log == []
    {
      initialized := false;
      observationIndex := 0;
      observations := new Observation[OBSERVATION_NUM](_ => Observation(0, 0, 0));
      log := [];
      new;
      assert observations[..] == seq(OBSERVATION_NUM, _ => Observation(0, 0, 0));
    }

    method Update(now: u64, price0: u128, price1: u128) returns (r: Result<()>)
      requires Valid()
      modifies this, observations
      ensures Valid()
      ensures match Updated(old(Value()), now, price0, price1)
              case Ok(ring) => r.Ok? && Value() == ring && log == Appended(old(log), Tick(now, price0, price1))
              case Err(e) => r == Err(e) && Value() == old(Value()) && log == old(log)
    {
      var index := observationIndex;
      if !initialized {
        initialized := true;
        observations[index] := Observation(now, 0, 0);
      } else {
        var last := observations[index];
        var elapsed := SaturatingSub(now, last.timestamp);
        assert last.timestamp == log[|log| - 1].time by {
          assert Value().slots[SlotOf(|log| - 1)] == Entry(log, |log| - 1);
        }
        if elapsed < UPDATE_DURATION {
          return Ok(());
        }
        var delta0 :- CheckedMul(price0, elapsed).Unwrap();
        var delta1 :- CheckedMul(price1, elapsed).Unwrap();
        var next := if index == OBSERVATION_NUM - 1 then 0 else index + 1;
        observations[next] := Observation(now,
                                          WrappingAdd(last.cumulative0, delta0),
                                          WrappingAdd(last.cumulative1, delta1));
        observationIndex := next;
      }
      log := Appended(log, Tick(now, price0, price1));
      UpdateRefines(old(Value()), old(log), now, price0, price1);
      return Ok(());
    }
  }
}
