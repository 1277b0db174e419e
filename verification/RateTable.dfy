/**
 rate_client of io/smtpe.c: a table of clients probed over a bounded window, against
 a plain map of clients from which a full window drops the least recently touched.
 */
module RateTable {
  import opened RateWindow

  const HASH_TABLE_SIZE: nat := 16384
  const MAX_LINEAR_PROBE: nat := 24
  const RATE_TICK: nat := 6

  type byte = b: bv64 | b < 256

  type Address = a: seq<byte> | |a| == 16 witness [0, 0, 0, 0, 0, 0, 0, 0, 0, 0, 0, 0, 0, 0, 0, 0]

  const ZERO: Address := [0, 0, 0, 0, 0, 0, 0, 0, 0, 0, 0, 0, 0, 0, 0, 0]

  datatype Reply = Okay | TryAgainLater

  // ---------- What a cap on each sum means for every window ----------

  ghost predicate Ones(log: seq<Event>) {
    forall i :: 0 <= i < |log| ==> log[i].step == 1
  }

  function WindowAt(log: seq<Event>, w: int): int {
    Net(log, w, w + RATE_INTERVALS - 1)
  }

  /** No ten ticks in a row hold more than limit. */
  ghost predicate Capped(log: seq<Event>, limit: int) {
    forall w :: WindowAt(log, w) <= limit
  }

  lemma {:induction false} NetGrows(log: seq<Event>, low: int, lo: int, hi: int)
    requires Ones(log) && low <= lo
    ensures 0 <= Net(log, lo, hi) <= Net(log, low, hi)
  {
    if log != [] {
      NetGrows(log[..|log| - 1], low, lo, hi);
    }
  }

  lemma {:induction false} NothingAhead(log: seq<Event>, lo: int, hi: int, tick: nat)
    requires UpTo(log, tick) && tick <= hi
    ensures Net(log, lo, hi) == Net(log, lo, tick)
  {
    if log != [] {
      NothingAhead(log[..|log| - 1], lo, hi, tick);
    }
  }

  lemma OnesSnoc(log: seq<Event>, tick: nat)
    requires Ones(log)
    ensures Ones(log + [Event(tick, 1)])
  {
  }

  lemma WindowStaysCapped(log: seq<Event>, tick: nat, limit: int, w: int)
    requires Ones(log) && UpTo(log, tick) && Capped(log, limit)
    requires Net(log, tick - 9, tick) < limit
    ensures WindowAt(log + [Event(tick, 1)], w) <= limit
  {
    assert WindowAt(log, w) <= limit;
    NetSnoc(log, Event(tick, 1), w, w + 9);
    if w <= tick <= w + 9 {
      NothingAhead(log, w, w + 9, tick);
      NetGrows(log, tick - 9, w, tick);
    }
  }

  /** Admitting only below the limit of the last ten ticks caps every ten ticks. */
  lemma StaysCapped(log: seq<Event>, tick: nat, limit: int)
    requires Ones(log) && UpTo(log, tick) && Capped(log, limit)
    requires Net(log, tick - 9, tick) < limit
    ensures Capped(log + [Event(tick, 1)], limit)
  {
    forall w ensures WindowAt(log + [Event(tick, 1)], w) <= limit {
      WindowStaysCapped(log, tick, limit, w);
    }
  }

  // ---------- Undoing an attempt ----------

  lemma NetUndone(log: seq<Event>, tick: nat, lo: int, hi: int)
    ensures Net(log + [Event(tick, 1)] + [Event(tick, -1)], lo, hi) == Net(log, lo, hi)
  {
    NetSnoc(log, Event(tick, 1), lo, hi);
    NetSnoc(log + [Event(tick, 1)], Event(tick, -1), lo, hi);
  }

  lemma SlotUndone(log: seq<Event>, tick: nat, r: RateInterval, i: nat)
    requires SlotOf(log + [Event(tick, 1)] + [Event(tick, -1)], r, i, tick)
    ensures SlotOf(log, r, i, tick)
  {
    NetUndone(log, tick, r.ticks, r.ticks);
    var log' := log + [Event(tick, 1)] + [Event(tick, -1)];
    forall k | 0 <= k < |log| ensures log[k] == log'[k] {
    }
  }

  /** Intervals that took a step and took it back are a ring of what they were before. */
  lemma RingUndone(log: seq<Event>, tick: nat, ring: Ring)
    requires UpTo(log, tick) && RingOf(log + [Event(tick, 1)] + [Event(tick, -1)], ring, tick)
    ensures RingOf(log, ring, tick)
  {
    forall i | 0 <= i < RATE_INTERVALS ensures SlotOf(log, ring[i], i, tick) {
      SlotUndone(log, tick, ring[i], i);
    }
  }

  // ---------- The hash ----------

  function Mix(hash: bv64, c: bv64): bv64 {
    ((hash << 5) + hash) ^ c
  }

  /** Bernstein's hash of the octets. */
  function DjbHash(buffer: seq<byte>): bv64 {
    if buffer == [] then 5381
    else Mix(DjbHash(buffer[..|buffer| - 1]), buffer[|buffer| - 1])
  }

  function Mask(hash: bv64): (h: nat)
    ensures h < HASH_TABLE_SIZE
  {
    (hash & 0x3FFF) as nat
  }

  function Hash(a: Address): (h: nat)
    ensures h < HASH_TABLE_SIZE
  {
    Mask(DjbHash(a))
  }

  /** From 5381 on, each octet multiplies by 33 and is xored in; the index is the rest modulo the size of the table. */
  lemma HashIs(hash: bv64, c: bv64, a: Address)
    ensures Mix(hash, c) == (hash * 33) ^ c
    ensures DjbHash([]) == 5381
    ensures Hash(a) as int == (DjbHash(a) % 16384) as int
  {
    hide DjbHash;
    ShiftIsProduct(hash);
    MaskIsRest(DjbHash(a));
    NothingHashed();
  }

  lemma NothingHashed()
    ensures DjbHash([]) == 5381
  {
  }

  lemma ShiftIsProduct(hash: bv64)
    ensures (hash << 5) + hash == hash * 33
  {
  }

  lemma MaskIsRest(hash: bv64)
    ensures hash & 0x3FFF == hash % 16384
  {
  }

  /** The slot that the i-th probe from hash looks at. */
  function Slot(hash: nat, i: nat): nat {
    (hash + i) % HASH_TABLE_SIZE
  }

  /** The number of the probe from hash that looks at slot s. */
  function Probe(hash: nat, s: nat): nat
    requires hash < HASH_TABLE_SIZE
  {
    (s + HASH_TABLE_SIZE - hash) % HASH_TABLE_SIZE
  }

  lemma ProbeOfSlot(hash: nat, i: nat)
    requires hash < HASH_TABLE_SIZE && i < HASH_TABLE_SIZE
    ensures Slot(hash, i) < HASH_TABLE_SIZE && Probe(hash, Slot(hash, i)) == i
  {
  }

  lemma SlotOfProbe(hash: nat, s: nat)
    requires hash < HASH_TABLE_SIZE && s < HASH_TABLE_SIZE
    ensures Slot(hash, Probe(hash, s)) == s
  {
  }

  method DjbHashIndex(buffer: Address) returns (index: nat)
    ensures index == Hash(buffer)
  {
    var hash: bv64 := 5381;
    for i := 0 to |buffer|
      invariant hash == DjbHash(buffer[..i])
    {
      assert buffer[..i + 1][..i] == buffer[..i];
      hash := Mix(hash, buffer[i]);
    }
    assert buffer[..|buffer|] == buffer;
    index := Mask(hash);
  }

  // ---------- The table and the map ----------

  datatype Entry = Entry(ipv6: Address, touched: nat, ring: Ring)

  /** A client: where it is kept, when it was last seen, and what was admitted of it. */
  datatype Client = Client(slot: nat, touched: nat, admitted: seq<Event>)

  ghost predicate ClientKept(a: Address, c: Client, t: seq<Entry>, limit: int, clock: nat) {
    && a != ZERO
    && c.slot < |t|
    && t[c.slot].ipv6 == a
    && t[c.slot].touched == c.touched
    && Probe(Hash(a), c.slot) < MAX_LINEAR_PROBE
    && RingOf(c.admitted, t[c.slot].ring, clock)
    && Ones(c.admitted) && Capped(c.admitted, limit)
  }

  ghost predicate SlotKept(s: nat, t: seq<Entry>, clients: map<Address, Client>)
    requires s < |t|
  {
    t[s].ipv6 != ZERO ==> t[s].ipv6 in clients && clients[t[s].ipv6].slot == s
  }

  /**
   The table is the map: each client is within reach of its hash, with its own
   intervals, and each slot with an address in it is that client's only slot.
   */
  ghost predicate Agree(t: seq<Entry>, clients: map<Address, Client>, limit: int, clock: nat) {
    && |t| == HASH_TABLE_SIZE
    && (forall a :: a in clients ==> ClientKept(a, clients[a], t, limit, clock))
    && (forall s :: 0 <= s < |t| ==> SlotKept(s, t, clients))
    && (forall s :: 0 <= s < |t| ==> |t[s].ring| == RATE_INTERVALS)
  }

  lemma OneSlotEach(t: seq<Entry>, clients: map<Address, Client>, limit: int, clock: nat, s: nat, s': nat)
    requires Agree(t, clients, limit, clock)
    requires s < |t| && s' < |t| && t[s].ipv6 == t[s'].ipv6 != ZERO
    ensures s == s' && Probe(Hash(t[s].ipv6), s) < MAX_LINEAR_PROBE
  {
    assert SlotKept(s, t, clients) && SlotKept(s', t, clients);
  }

  /** A probe of the whole window that does not see a client means there is none. */
  lemma Missed(t: seq<Entry>, clients: map<Address, Client>, limit: int, clock: nat, a: Address)
    requires Agree(t, clients, limit, clock)
    requires forall i :: 0 <= i < MAX_LINEAR_PROBE ==> t[Slot(Hash(a), i)].ipv6 != a
    ensures a !in clients
  {
    if a in clients {
      assert ClientKept(a, clients[a], t, limit, clock);
      SlotOfProbe(Hash(a), clients[a].slot);
      assert false;
    }
  }

  /** The map after the slot of v is given over to a, which may be v itself. */
  ghost function Moved(clients: map<Address, Client>, v: Address, a: Address, c: Client): map<Address, Client> {
    if a == ZERO then clients - {v} else (clients - {v})[a := c]
  }

  lemma OthersKept(t: seq<Entry>, clients: map<Address, Client>, limit: int, clock: nat, tick: nat,
                   at: nat, e: Entry, b: Address)
    requires Agree(t, clients, limit, clock) && at < |t| && clock <= tick
    requires b in clients && b != t[at].ipv6
    ensures ClientKept(b, clients[b], t[at := e], limit, tick)
  {
    assert ClientKept(b, clients[b], t, limit, clock);
    Later(clients[b].admitted, t[clients[b].slot].ring, clock, tick);
  }

  lemma ZeroIsNoClient(t: seq<Entry>, clients: map<Address, Client>, limit: int, clock: nat)
    requires Agree(t, clients, limit, clock)
    ensures ZERO !in clients
  {
    assert ZERO in clients ==> ClientKept(ZERO, clients[ZERO], t, limit, clock);
  }

  lemma SlotsMoved(t: seq<Entry>, clients: map<Address, Client>, limit: int, clock: nat, at: nat, e: Entry,
                   c: Client, s: nat)
    requires Agree(t, clients, limit, clock) && at < |t| && s < |t| && c.slot == at
    requires t[at].ipv6 == e.ipv6 || e.ipv6 !in clients
    ensures SlotKept(s, t[at := e], Moved(clients, t[at].ipv6, e.ipv6, c))
  {
    hide ClientKept;
    assert SlotKept(s, t, clients) && SlotKept(at, t, clients);
  }

  lemma MovedAgrees(t: seq<Entry>, clients: map<Address, Client>, limit: int, clock: nat, tick: nat,
                    at: nat, e: Entry, admitted: seq<Event>)
    requires Agree(t, clients, limit, clock) && at < |t| && clock <= tick && |e.ring| == RATE_INTERVALS
    requires t[at].ipv6 == e.ipv6 || e.ipv6 !in clients
    requires Probe(Hash(e.ipv6), at) < MAX_LINEAR_PROBE
    requires e.ipv6 != ZERO ==> RingOf(admitted, e.ring, tick) && Ones(admitted) && Capped(admitted, limit)
    ensures Agree(t[at := e], Moved(clients, t[at].ipv6, e.ipv6, Client(at, e.touched, admitted)), limit, tick)
  {
    hide RingOf, Ones, Capped, Hash, Probe, SlotKept;
    ZeroIsNoClient(t, clients, limit, clock);
    var t', clients' := t[at := e], Moved(clients, t[at].ipv6, e.ipv6, Client(at, e.touched, admitted));
    forall b | b in clients' ensures ClientKept(b, clients'[b], t', limit, tick) {
      if b != e.ipv6 {
        OthersKept(t, clients, limit, clock, tick, at, e, b);
      }
    }
    forall s | 0 <= s < |t'| ensures SlotKept(s, t', clients') {
      SlotsMoved(t, clients, limit, clock, at, e, Client(at, e.touched, admitted), s);
    }
  }

  // ---------- The table in memory ----------

  class RateHash {
    const intervals: array<RateInterval>
    var ipv6: Address
    var touched: nat

    constructor ()
      ensures fresh(intervals) && intervals.Length == RATE_INTERVALS
      ensures ipv6 == ZERO && touched == 0
      ensures forall i :: 0 <= i < RATE_INTERVALS ==> intervals[i] == RateInterval(0, 0)
    {
      intervals := new RateInterval[RATE_INTERVALS](_ => RateInterval(0, 0));
      ipv6, touched := ZERO, 0;
    }

    ghost function View(): Entry
      reads this, intervals
    {
      Entry(ipv6, touched, intervals[..])
    }

    /** memset of the intervals. */
    method Clear()
      requires intervals.Length == RATE_INTERVALS
      modifies intervals
      ensures forall i :: 0 <= i < RATE_INTERVALS ==> intervals[i] == RateInterval(0, 0)
    {
      for k := 0 to RATE_INTERVALS
        invariant forall i :: 0 <= i < k ==> intervals[i] == RateInterval(0, 0)
      {
        intervals[k] := RateInterval(0, 0);
      }
    }

    /**
     One connection at now against the limit. was is what was admitted of this
     client before.
     */
    method Connect(limit: nat, now: nat, ghost was: seq<Event>) returns (rc: Reply)
      requires intervals.Length == RATE_INTERVALS
      requires RATE_INTERVALS <= now / RATE_TICK < WORD && limit < WORD - 1
      modifies this`touched, intervals
      ensures touched == now
      ensures RingOf(was, old(intervals[..]), now / RATE_TICK) && Ones(was) && Capped(was, limit) ==>
                && Admits(rc, was, now / RATE_TICK, limit)
                && RingOf(Admitted(was, now / RATE_TICK, limit), intervals[..], now / RATE_TICK)
    {
      var tick := now / RATE_TICK;
      ghost var ring := intervals[..];
      var clientRate := RateUpdate(intervals, tick, 1, was);
      touched := now;
      rc := Okay;
      if RingOf(was, ring, tick) && Ones(was) && Capped(was, limit) {
        RateIsCount(was, tick, limit);
      }
      if limit < clientRate {
        var _ := RateUpdate(intervals, tick, -1, was + [Event(tick, 1)]);
        rc := TryAgainLater;
        if RingOf(was, ring, tick) {
          RingUndone(was, tick, intervals[..]);
        }
      }
    }
  }

  /** What is admitted after an attempt at tick: below the limit, it is one more. */
  ghost function Admitted(was: seq<Event>, tick: nat, limit: int): seq<Event> {
    if Net(was, tick - 9, tick) < limit then was + [Event(tick, 1)] else was
  }

  ghost predicate Admits(rc: Reply, was: seq<Event>, tick: nat, limit: int) {
    rc == Okay <==> Net(was, tick - 9, tick) < limit
  }

  lemma RateIsCount(was: seq<Event>, tick: nat, limit: nat)
    requires UpTo(was, tick) && Ones(was) && Capped(was, limit) && limit < WORD - 1
    ensures Wrap(Net(was + [Event(tick, 1)], tick - 9, tick)) == Net(was, tick - 9, tick) + 1
  {
    NetSnoc(was, Event(tick, 1), tick - 9, tick);
    NetGrows(was, tick - 9, tick - 9, tick);
    assert WindowAt(was, tick - 9) <= limit;
  }

  lemma AdmittedIsCapped(was: seq<Event>, tick: nat, limit: int)
    requires UpTo(was, tick) && Ones(was) && Capped(was, limit)
    ensures Ones(Admitted(was, tick, limit)) && Capped(Admitted(was, tick, limit), limit)
  {
    if Net(was, tick - 9, tick) < limit {
      StaysCapped(was, tick, limit);
      OnesSnoc(was, tick);
    }
  }

  // ---------- The table of clients ----------

  /**
   No slot of the first n probes from hash was touched less recently than the one at,
   and those before it were all touched later.
   */
  ghost predicate Oldest(t: seq<Entry>, hash: nat, at: nat, n: nat)
    requires |t| == HASH_TABLE_SIZE && hash < HASH_TABLE_SIZE && at < HASH_TABLE_SIZE
  {
    && (forall i :: 0 <= i < n ==> t[at].touched <= t[Slot(hash, i)].touched)
    && (forall i :: 0 <= i < Probe(hash, at) ==> t[at].touched < t[Slot(hash, i)].touched)
  }

  lemma OldestAtFirst(t: seq<Entry>, hash: nat)
    requires |t| == HASH_TABLE_SIZE && hash < HASH_TABLE_SIZE
    ensures Oldest(t, hash, hash, 0) && Probe(hash, hash) == 0
  {
  }

  lemma OldestSoFar(t: seq<Entry>, hash: nat, at: nat, n: nat)
    requires |t| == HASH_TABLE_SIZE && hash < HASH_TABLE_SIZE && at < HASH_TABLE_SIZE && n < HASH_TABLE_SIZE
    requires Oldest(t, hash, at, n) && (Probe(hash, at) < n || at == hash)
    ensures Slot(hash, n) < HASH_TABLE_SIZE && Probe(hash, Slot(hash, n)) == n
    ensures Oldest(t, hash, if t[Slot(hash, n)].touched < t[at].touched then Slot(hash, n) else at, n + 1)
  {
    ProbeOfSlot(hash, n);
  }

  ghost predicate NotSeen(t: seq<Entry>, a: Address, n: nat)
    requires |t| == HASH_TABLE_SIZE
  {
    forall i :: 0 <= i < n ==> t[Slot(Hash(a), i)].ipv6 != a
  }

  /** What was admitted of the client since it was last put in the table. */
  ghost function Known(clients: map<Address, Client>, a: Address): seq<Event> {
    if a in clients then clients[a].admitted else []
  }

  class RateHashes {
    const limit: int
    const hashes: seq<RateHash>
    ghost var clients: map<Address, Client>
    ghost var clock: nat

    ghost function Repr(): set<object> {
      (set i: nat | i < |hashes| :: hashes[i]) + (set i: nat | i < |hashes| :: hashes[i].intervals)
    }

    ghost predicate Shape() {
      && limit < WORD - 1
      && |hashes| == HASH_TABLE_SIZE
      && (forall i :: 0 <= i < |hashes| ==> hashes[i].intervals.Length == RATE_INTERVALS)
      && (forall i, j :: 0 <= i < j < |hashes| ==> hashes[i] != hashes[j] && hashes[i].intervals != hashes[j].intervals)
    }

    ghost function Entries(): (t: seq<Entry>)
      reads Repr()
      ensures |t| == |hashes| && forall i :: 0 <= i < |hashes| ==> t[i] == hashes[i].View()
    {
      seq(|hashes|, i requires 0 <= i < |hashes| reads Repr() => hashes[i].View())
    }

    ghost predicate Valid()
      reads this, Repr()
    {
      Shape() && Agree(Entries(), clients, limit, clock)
    }

    method Find(ip: Address) returns (found: bool, at: nat)
      requires Shape()
      ensures at < HASH_TABLE_SIZE && Sought(Entries(), ip, found, at)
    {
      hide Hash, Probe;
      var hash := DjbHashIndex(ip);
      ghost var t := Entries();
      OldestAtFirst(t, hash);
      var oldest: nat := hash;
      for i := 0 to MAX_LINEAR_PROBE
        invariant oldest < HASH_TABLE_SIZE && (Probe(hash, oldest) < i || oldest == hash)
        invariant NotSeen(t, ip, i) && Oldest(t, hash, oldest, i)
      {
        var entry: nat := (hash + i) % HASH_TABLE_SIZE;
        OldestSoFar(t, hash, oldest, i);
        if hashes[entry].touched < hashes[oldest].touched {
          oldest := entry;
        }
        if hashes[entry].ipv6 == ip {
          return true, entry;
        }
      }
      return false, oldest;
    }

    /** The table before any connection. */
    constructor (limit: int)
      requires limit < WORD - 1
      ensures Valid() && fresh(Repr()) && this.limit == limit
      ensures clients == map[] && clock == 0
    {
      var hs: seq<RateHash> := [];
      for n := 0 to HASH_TABLE_SIZE
        invariant |hs| == n
        invariant forall i :: 0 <= i < n ==> Blank(hs[i]) && fresh(hs[i]) && fresh(hs[i].intervals)
        invariant forall i, j :: 0 <= i < j < n ==> hs[i] != hs[j] && hs[i].intervals != hs[j].intervals
      {
        var h := new RateHash();
        hs := hs + [h];
      }
      this.limit, hashes := limit, hs;
      clients, clock := map[], 0;
    }

    /** Gives the slot at over to ip. */
    method Overwrite(at: nat, ip: Address, ghost tick: nat)
      requires Shape() && at < |hashes|
      modifies hashes[at], hashes[at].intervals
      ensures hashes[at].ipv6 == ip && RingOf([], hashes[at].intervals[..], tick)
      ensures Entries() == old(Entries())[at := hashes[at].View()]
    {
      var entry := hashes[at];
      entry.Clear();
      entry.ipv6 := ip;
      EmptyRing(entry.intervals[..], tick);
      assert forall i :: 0 <= i < |hashes| && i != at ==> hashes[i].View() == old(hashes[i].View());
    }

    method ConnectAt(at: nat, now: nat, ghost was: seq<Event>) returns (rc: Reply)
      requires Shape() && at < |hashes| && 0 < limit
      requires RATE_INTERVALS <= now / RATE_TICK < WORD
      modifies hashes[at], hashes[at].intervals
      ensures hashes[at].ipv6 == old(hashes[at].ipv6) && hashes[at].touched == now
      ensures Entries() == old(Entries())[at := hashes[at].View()]
      ensures RingOf(was, old(hashes[at].intervals[..]), now / RATE_TICK) && Ones(was) && Capped(was, limit) ==>
                && Admits(rc, was, now / RATE_TICK, limit)
                && RingOf(Admitted(was, now / RATE_TICK, limit), hashes[at].intervals[..], now / RATE_TICK)
    {
      rc := hashes[at].Connect(limit, now, was);
      assert forall i :: 0 <= i < |hashes| && i != at ==> hashes[i].View() == old(hashes[i].View());
    }

    method Place(found: bool, at: nat, ip: Address, now: nat, ghost known: seq<Event>) returns (rc: Reply)
      requires Shape() && at < |hashes| && 0 < limit
      requires RATE_INTERVALS <= now / RATE_TICK < WORD
      requires Standing(hashes[at].View(), ip, found, known, limit, now / RATE_TICK)
      modifies hashes[at], hashes[at].intervals
      ensures hashes[at].ipv6 == ip && hashes[at].touched == now
      ensures Entries() == old(Entries())[at := hashes[at].View()]
      ensures ip != ZERO ==>
                && Admits(rc, known, now / RATE_TICK, limit)
                && RingOf(Admitted(known, now / RATE_TICK, limit), hashes[at].intervals[..], now / RATE_TICK)
    {
      if !found {
        Overwrite(at, ip, now / RATE_TICK);
      }
      rc := ConnectAt(at, now, known);
    }

    /**
     A connection from ip at now, with its verdict. at is the slot that now holds ip.
     */
    method RateClient(ip: Address, now: nat) returns (rc: Reply, ghost at: nat)
      requires Valid() && clock <= now / RATE_TICK
      requires RATE_INTERVALS <= now / RATE_TICK < WORD
      modifies this, Repr()
      ensures Valid()
      ensures limit <= 0 ==> rc == Okay && Entries() == old(Entries()) && clients == old(clients) && clock == old(clock)
      ensures 0 < limit ==>
                var tick := now / RATE_TICK;
                && clock == tick
                && Took(old(Entries()), old(clients), ip, at)
                && clients == Moved(old(clients), old(Entries())[at].ipv6, ip,
                                    Client(at, now, Admitted(Known(old(clients), ip), tick, limit)))
                && (ip != ZERO ==> (rc == Okay <==> Net(Known(old(clients), ip), tick - 9, tick) < limit))
                && (ip != ZERO ==> clients[ip].admitted
                                   == Known(old(clients), ip) + if rc == Okay then [Event(tick, 1)] else [])
    {
      if limit <= 0 {
        return Okay, 0;
      }
      hide Moved, Took, Admitted, Admits;
      ghost var was := Known(clients, ip);
      rc, at := Probed(ip, now);
      if ip != ZERO {
        VerdictIs(rc, was, now / RATE_TICK, limit);
        MovedHolds(old(clients), old(Entries())[at].ipv6, ip, Client(at, now, Admitted(was, now / RATE_TICK, limit)));
      }
    }

    method Probed(ip: Address, now: nat) returns (rc: Reply, ghost at: nat)
      requires Valid() && clock <= now / RATE_TICK && 0 < limit
      requires RATE_INTERVALS <= now / RATE_TICK < WORD
      modifies this, Repr()
      ensures Valid() && clock == now / RATE_TICK
      ensures Took(old(Entries()), old(clients), ip, at)
      ensures var was := Known(old(clients), ip);
              && clients == Moved(old(clients), old(Entries())[at].ipv6, ip, Client(at, now, Admitted(was, clock, limit)))
              && (ip != ZERO ==> Admits(rc, was, clock, limit))
    {
      var found, slot := Find(ip);
      at := slot;
      ghost var t, was, tick := Entries(), Known(clients, ip), now / RATE_TICK;
      KnownBefore(t, clients, limit, clock, tick, ip, found, slot);
      rc := Place(found, slot, ip, now, was);
      ghost var e := hashes[slot].View();
      Connected(t, clients, limit, clock, tick, ip, found, slot, e);
      clients := Moved(clients, t[slot].ipv6, ip, Client(slot, now, Admitted(was, tick, limit)));
      clock := tick;
      assert Entries() == t[slot := e];
    }
  }

  /** A connection is admitted, and logged, iff less than the limit was in the last ten ticks. */
  lemma VerdictIs(rc: Reply, was: seq<Event>, tick: nat, limit: int)
    requires Admits(rc, was, tick, limit)
    ensures rc == Okay <==> Net(was, tick - 9, tick) < limit
    ensures Admitted(was, tick, limit) == was + if rc == Okay then [Event(tick, 1)] else []
  {
    assert was + [] == was;
  }

  lemma MovedHolds(clients: map<Address, Client>, v: Address, a: Address, c: Client)
    requires a != ZERO
    ensures a in Moved(clients, v, a, c) && Moved(clients, v, a, c)[a] == c
  {
  }

  ghost predicate Blank(h: RateHash)
    reads h, h.intervals
  {
    && h.ipv6 == ZERO && h.touched == 0 && h.intervals.Length == RATE_INTERVALS
    && forall i :: 0 <= i < RATE_INTERVALS ==> h.intervals[i] == RateInterval(0, 0)
  }

  /**
   The slot that a connection from ip takes: the first of its window that holds ip,
   or when none does the first of those touched least recently.
   */
  ghost predicate Took(t: seq<Entry>, clients: map<Address, Client>, ip: Address, at: nat)
    requires |t| == HASH_TABLE_SIZE
  {
    && at < HASH_TABLE_SIZE
    && Probe(Hash(ip), at) < MAX_LINEAR_PROBE
    && if t[at].ipv6 == ip then NotSeen(t, ip, Probe(Hash(ip), at))
       else ip !in clients && NotSeen(t, ip, MAX_LINEAR_PROBE) && Oldest(t, Hash(ip), at, MAX_LINEAR_PROBE)
  }

  lemma FoundIsKnown(t: seq<Entry>, clients: map<Address, Client>, limit: int, clock: nat, at: nat)
    requires Agree(t, clients, limit, clock) && at < |t|
    ensures |t[at].ring| == RATE_INTERVALS
    ensures t[at].ipv6 != ZERO ==>
              && t[at].ipv6 in clients
              && clients[t[at].ipv6].slot == at
              && ClientKept(t[at].ipv6, clients[t[at].ipv6], t, limit, clock)
  {
    assert SlotKept(at, t, clients);
  }

  /** What is known of ip before it connects, where e is what its slot holds. */
  ghost predicate Standing(e: Entry, ip: Address, found: bool, known: seq<Event>, limit: int, tick: nat) {
    && Ones(known) && Capped(known, limit)
    && (found ==> e.ipv6 == ip)
    && UpTo(known, tick)
    && (found && ip != ZERO ==> RingOf(known, e.ring, tick))
    && (!found ==> known == [])
  }

  lemma KnownBefore(t: seq<Entry>, clients: map<Address, Client>, limit: int, clock: nat, tick: nat,
                    ip: Address, found: bool, at: nat)
    requires Agree(t, clients, limit, clock) && at < |t| && clock <= tick && 0 < limit
    requires Sought(t, ip, found, at)
    ensures Standing(t[at], ip, found, Known(clients, ip), limit, tick)
    ensures !found ==> ip !in clients
  {
    if !found {
      Missed(t, clients, limit, clock, ip);
    } else if ip != ZERO {
      FoundIsKnown(t, clients, limit, clock, at);
      Later(Known(clients, ip), t[at].ring, clock, tick);
    } else {
      ZeroIsNoClient(t, clients, limit, clock);
    }
  }

  /** What Find tells of the slot at. */
  ghost predicate Sought(t: seq<Entry>, ip: Address, found: bool, at: nat)
    requires |t| == HASH_TABLE_SIZE && at < |t|
  {
    && Probe(Hash(ip), at) < MAX_LINEAR_PROBE
    && if found then t[at].ipv6 == ip && NotSeen(t, ip, Probe(Hash(ip), at))
       else NotSeen(t, ip, MAX_LINEAR_PROBE) && Oldest(t, Hash(ip), at, MAX_LINEAR_PROBE)
  }

  /** The map moves with the table. */
  lemma Connected(t: seq<Entry>, clients: map<Address, Client>, limit: int, clock: nat, tick: nat,
                  ip: Address, found: bool, at: nat, e: Entry)
    requires Agree(t, clients, limit, clock) && at < |t| && clock <= tick && 0 < limit
    requires Sought(t, ip, found, at) && e.ipv6 == ip && |e.ring| == RATE_INTERVALS
    requires ip != ZERO ==> RingOf(Admitted(Known(clients, ip), tick, limit), e.ring, tick)
    ensures Took(t, clients, ip, at)
    ensures Agree(t[at := e], Moved(clients, t[at].ipv6, ip,
                                    Client(at, e.touched, Admitted(Known(clients, ip), tick, limit))), limit, tick)
  {
    SlotOfProbe(Hash(ip), at);
    KnownBefore(t, clients, limit, clock, tick, ip, found, at);
    AdmittedIsCapped(Known(clients, ip), tick, limit);
    MovedAgrees(t, clients, limit, clock, tick, at, e, Admitted(Known(clients, ip), tick, limit));
  }
}
