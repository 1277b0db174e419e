/**
 rate_update of io/smtpe.c: a ring of ten intervals against the full log of what
 was added, and what a limit on its sum means for any window of ten ticks.
 */
module RateWindow {
  const RATE_INTERVALS: nat := 10
  const WORD: nat := 0x1_0000_0000_0000_0000

  /** The value of an unsigned long that x is stored in. */
  function Wrap(x: int): nat {
    x % WORD
  }

  datatype RateInterval = RateInterval(ticks: nat, count: nat)

  /** One call of rate_update. */
  datatype Event = Event(tick: nat, step: int)

  type Ring = seq<RateInterval>

  // ---------- The log ----------

  /** The steps logged from tick lo to tick hi. */
  function Net(log: seq<Event>, lo: int, hi: int): int {
    if log == [] then 0
    else
      var e := log[|log| - 1];
      Net(log[..|log| - 1], lo, hi) + if lo <= e.tick <= hi then e.step else 0
  }

  /** Those of them that fall into slot i of the ring. */
  function NetSlot(log: seq<Event>, lo: int, hi: int, i: nat): int {
    if log == [] then 0
    else
      var e := log[|log| - 1];
      NetSlot(log[..|log| - 1], lo, hi, i)
        + if lo <= e.tick <= hi && e.tick % RATE_INTERVALS == i then e.step else 0
  }

  function NetSlots(log: seq<Event>, lo: int, hi: int, n: nat): int {
    if n == 0 then 0 else NetSlots(log, lo, hi, n - 1) + NetSlot(log, lo, hi, n - 1)
  }

  predicate UpTo(log: seq<Event>, tick: nat) {
    forall i :: 0 <= i < |log| ==> log[i].tick <= tick
  }

  lemma UpToSnoc(log: seq<Event>, e: Event, tick: nat)
    requires UpTo(log, tick) && e.tick <= tick
    ensures UpTo(log + [e], tick)
  {
  }

  lemma NetSnoc(log: seq<Event>, e: Event, lo: int, hi: int)
    ensures Net(log + [e], lo, hi) == Net(log, lo, hi) + if lo <= e.tick <= hi then e.step else 0
  {
    assert (log + [e])[..|log|] == log;
  }

  lemma {:induction false} NetSlotsFront(log: seq<Event>, lo: int, hi: int, n: nat)
    requires log != []
    ensures var e := log[|log| - 1];
            NetSlots(log, lo, hi, n) == NetSlots(log[..|log| - 1], lo, hi, n)
              + if lo <= e.tick <= hi && e.tick % RATE_INTERVALS < n then e.step else 0
  {
    if n > 0 {
      NetSlotsFront(log, lo, hi, n - 1);
    }
  }

  lemma NetSlotsOfNothing(lo: int, hi: int, n: nat)
    ensures NetSlots([], lo, hi, n) == 0
  {
  }

  /** The slots share out the log. */
  lemma {:induction false} SlotsCover(log: seq<Event>, lo: int, hi: int)
    ensures NetSlots(log, lo, hi, RATE_INTERVALS) == Net(log, lo, hi)
  {
    if log == [] {
      NetSlotsOfNothing(lo, hi, RATE_INTERVALS);
    } else {
      SlotsCover(log[..|log| - 1], lo, hi);
      NetSlotsFront(log, lo, hi, RATE_INTERVALS);
    }
  }

  /** Only one tick of a window of ten falls into a slot. */
  lemma {:induction false} SlotIsOneTick(log: seq<Event>, lo: int, i: nat, t: nat)
    requires i < RATE_INTERVALS && t % RATE_INTERVALS == i && lo <= t < lo + RATE_INTERVALS
    ensures NetSlot(log, lo, lo + RATE_INTERVALS - 1, i) == Net(log, t, t)
  {
    if log != [] {
      SlotIsOneTick(log[..|log| - 1], lo, i, t);
      var e := log[|log| - 1];
      if lo <= e.tick < lo + RATE_INTERVALS && e.tick % RATE_INTERVALS == i {
        SameResidue(e.tick, t, lo);
      }
    }
  }

  lemma SameResidue(a: nat, b: nat, lo: int)
    requires a % RATE_INTERVALS == b % RATE_INTERVALS
    requires lo <= a < lo + RATE_INTERVALS && lo <= b < lo + RATE_INTERVALS
    ensures a == b
  {
  }

  lemma {:induction false} NothingInSlot(log: seq<Event>, lo: int, hi: int, i: nat)
    requires forall k :: 0 <= k < |log| && log[k].tick % RATE_INTERVALS == i ==> log[k].tick < lo
    ensures NetSlot(log, lo, hi, i) == 0
  {
    if log != [] {
      NothingInSlot(log[..|log| - 1], lo, hi, i);
    }
  }

  lemma {:induction false} NothingAt(log: seq<Event>, t: nat)
    requires forall k :: 0 <= k < |log| ==> log[k].tick != t
    ensures Net(log, t, t) == 0
  {
    if log != [] {
      NothingAt(log[..|log| - 1], t);
    }
  }

  // ---------- The ring ----------

  /**
   A slot holds the last tick logged for it, which is not ahead of the clock, and
   what that tick adds up to, or is as memset left it and nothing was logged for it.
   */
  predicate SlotOf(log: seq<Event>, r: RateInterval, i: nat, clock: nat) {
    && r.ticks <= clock
    && if r.ticks % RATE_INTERVALS == i then
         && r.count == Wrap(Net(log, r.ticks, r.ticks))
         && forall k :: 0 <= k < |log| && log[k].tick % RATE_INTERVALS == i ==> log[k].tick <= r.ticks
       else
         && r == RateInterval(0, 0)
         && forall k :: 0 <= k < |log| ==> log[k].tick % RATE_INTERVALS != i
  }

  predicate RingOf(log: seq<Event>, ring: Ring, clock: nat) {
    && UpTo(log, clock)
    && |ring| == RATE_INTERVALS
    && forall i :: 0 <= i < RATE_INTERVALS ==> SlotOf(log, ring[i], i, clock)
  }

  /** The intervals as memset leaves them are a ring of nothing. */
  lemma EmptyRing(ring: Ring, clock: nat)
    requires |ring| == RATE_INTERVALS && forall i :: 0 <= i < RATE_INTERVALS ==> ring[i] == RateInterval(0, 0)
    ensures RingOf([], ring, clock)
  {
  }

  /** A ring stays one while the clock moves on. */
  lemma Later(log: seq<Event>, ring: Ring, clock: nat, later: nat)
    requires RingOf(log, ring, clock) && clock <= later
    ensures RingOf(log, ring, later)
  {
  }

  /** The current interval, started afresh for a new tick, with the step added. */
  function Bumped(r: RateInterval, tick: nat, step: int): RateInterval {
    RateInterval(tick, Wrap((if r.ticks == tick then r.count else 0) + step))
  }

  lemma OtherSlot(log: seq<Event>, e: Event, r: RateInterval, i: nat, clock: nat)
    requires SlotOf(log, r, i, clock) && e.tick % RATE_INTERVALS != i
    ensures SlotOf(log + [e], r, i, clock)
  {
    NetSnoc(log, e, r.ticks, r.ticks);
    var log' := log + [e];
    forall k | 0 <= k < |log'| && log'[k].tick % RATE_INTERVALS == i ensures log'[k] == log[k] && k < |log| {
    }
  }

  lemma WrapAdds(a: int, b: int)
    ensures Wrap(Wrap(a) + b) == Wrap(a + b)
  {
  }

  lemma NothingNow(log: seq<Event>, r: RateInterval, tick: nat)
    requires SlotOf(log, r, tick % RATE_INTERVALS, tick) && r.ticks != tick
    ensures Net(log, tick, tick) == 0
  {
    NothingAt(log, tick);
  }

  lemma ThisSlot(log: seq<Event>, e: Event, r: RateInterval)
    requires UpTo(log, e.tick) && SlotOf(log, r, e.tick % RATE_INTERVALS, e.tick)
    ensures SlotOf(log + [e], Bumped(r, e.tick, e.step), e.tick % RATE_INTERVALS, e.tick)
  {
    NetSnoc(log, e, e.tick, e.tick);
    WrapAdds(Net(log, e.tick, e.tick), e.step);
    UpToSnoc(log, e, e.tick);
    if r.ticks != e.tick {
      NothingNow(log, r, e.tick);
    }
  }

  /** The intervals after the current one took the step. */
  function Updated(ring: Ring, tick: nat, step: int): Ring
    requires |ring| == RATE_INTERVALS
  {
    var i := tick % RATE_INTERVALS;
    ring[i := Bumped(ring[i], tick, step)]
  }

  lemma UpdatedRing(log: seq<Event>, ring: Ring, e: Event)
    requires RingOf(log, ring, e.tick)
    ensures RingOf(log + [e], Updated(ring, e.tick, e.step), e.tick)
  {
    UpToSnoc(log, e, e.tick);
    var ring' := Updated(ring, e.tick, e.step);
    forall i | 0 <= i < RATE_INTERVALS ensures SlotOf(log + [e], ring'[i], i, e.tick) {
      if i == e.tick % RATE_INTERVALS {
        ThisSlot(log, e, ring[i]);
      } else {
        OtherSlot(log, e, ring[i], i, e.tick);
      }
    }
  }

  /** The slot's share of the ten ticks that end at tick, as the sum finds it. */
  function Share(r: RateInterval, tick: nat): nat {
    if Wrap(tick - RATE_INTERVALS) <= r.ticks <= tick then r.count else 0
  }

  lemma ShareIsCount(r: RateInterval, i: nat, tick: nat)
    requires RATE_INTERVALS <= tick < WORD && i < RATE_INTERVALS && r.ticks <= tick
    requires i == tick % RATE_INTERVALS ==> r.ticks == tick
    ensures r.ticks % RATE_INTERVALS == i ==> Share(r, tick) == if tick - 9 <= r.ticks then r.count else 0
    ensures r == RateInterval(0, 0) ==> Share(r, tick) == 0
  {
    assert Wrap(tick - RATE_INTERVALS) == tick - RATE_INTERVALS;
    if r.ticks == tick - RATE_INTERVALS {
      assert r.ticks % RATE_INTERVALS == tick % RATE_INTERVALS;
    }
  }

  lemma ShareIsNet(log: seq<Event>, r: RateInterval, i: nat, tick: nat)
    requires RATE_INTERVALS <= tick < WORD && i < RATE_INTERVALS && SlotOf(log, r, i, tick)
    requires i == tick % RATE_INTERVALS ==> r.ticks == tick
    ensures Share(r, tick) == Wrap(NetSlot(log, tick - 9, tick, i))
  {
    hide Share, Net, NetSlot;
    ShareIsCount(r, i, tick);
    if r.ticks % RATE_INTERVALS != i {
      NothingInSlot(log, tick - 9, tick, i);
    } else if tick - 9 <= r.ticks {
      SlotIsOneTick(log, tick - 9, i, r.ticks);
    } else {
      NothingInSlot(log, tick - 9, tick, i);
    }
  }

  /** What rate_update's second loop adds up over the first n intervals. */
  function Summed(ring: Ring, tick: nat, n: nat): (sum: nat)
    requires n <= |ring|
    ensures sum < WORD
  {
    if n == 0 then 0 else Wrap(Summed(ring, tick, n - 1) + Share(ring[n - 1], tick))
  }

  lemma {:induction false} SummedIsNet(log: seq<Event>, ring: Ring, tick: nat, n: nat)
    requires RATE_INTERVALS <= tick < WORD && RingOf(log, ring, tick) && n <= RATE_INTERVALS
    requires ring[tick % RATE_INTERVALS].ticks == tick
    ensures Summed(ring, tick, n) == Wrap(NetSlots(log, tick - 9, tick, n))
  {
    if n > 0 {
      SummedIsNet(log, ring, tick, n - 1);
      ShareIsNet(log, ring[n - 1], n - 1, tick);
      WrapAdds(NetSlots(log, tick - 9, tick, n - 1), Share(ring[n - 1], tick));
      WrapAdds(NetSlot(log, tick - 9, tick, n - 1), NetSlots(log, tick - 9, tick, n - 1));
    }
  }

  /** From the tenth tick on the sum is what the log holds for the last ten ticks. */
  lemma RateIsNet(log: seq<Event>, ring: Ring, tick: nat)
    requires RATE_INTERVALS <= tick < WORD && RingOf(log, ring, tick)
    requires ring[tick % RATE_INTERVALS].ticks == tick
    ensures Summed(ring, tick, RATE_INTERVALS) == Wrap(Net(log, tick - 9, tick))
  {
    SummedIsNet(log, ring, tick, RATE_INTERVALS);
    SlotsCover(log, tick - 9, tick);
  }

  /** Before it, the lower bound wraps around and nothing is counted. */
  lemma {:induction false} TooEarly(ring: Ring, tick: nat, n: nat)
    requires tick < RATE_INTERVALS && n <= |ring|
    ensures Summed(ring, tick, n) == 0
  {
    if n > 0 {
      TooEarly(ring, tick, n - 1);
    }
  }

  /**
   Adds step to the current interval and returns the sum over the last ten ticks.
   log is what was logged in these intervals before.
   */
  method RateUpdate(intervals: array<RateInterval>, ticks: nat, step: int, ghost log: seq<Event>)
    returns (connections: nat)
    requires ticks < WORD && intervals.Length == RATE_INTERVALS
    modifies intervals
    ensures intervals[..] == Updated(old(intervals[..]), ticks, step)
    ensures RingOf(log, old(intervals[..]), ticks) ==> RingOf(log + [Event(ticks, step)], intervals[..], ticks)
    ensures RingOf(log, old(intervals[..]), ticks) && RATE_INTERVALS <= ticks
            ==> connections == Wrap(Net(log + [Event(ticks, step)], ticks - 9, ticks))
    ensures ticks < RATE_INTERVALS ==> connections == 0
  {
    var now := ticks % RATE_INTERVALS;
    if intervals[now].ticks != ticks {
      intervals[now] := RateInterval(ticks, 0);
    }
    intervals[now] := intervals[now].(count := Wrap(intervals[now].count + step));
    assert intervals[..] == Updated(old(intervals[..]), ticks, step);
    connections := 0;
    for i := 0 to RATE_INTERVALS
      invariant connections == Summed(intervals[..], ticks, i)
    {
      if Wrap(ticks - RATE_INTERVALS) <= intervals[i].ticks && intervals[i].ticks <= ticks {
        connections := Wrap(connections + intervals[i].count);
      }
    }
    if ticks < RATE_INTERVALS {
      TooEarly(intervals[..], ticks, RATE_INTERVALS);
    }
    if RingOf(log, old(intervals[..]), ticks) {
      UpdatedRing(log, old(intervals[..]), Event(ticks, step));
      if RATE_INTERVALS <= ticks {
        RateIsNet(log + [Event(ticks, step)], intervals[..], ticks);
      }
    }
  }
}
