/**
 The name codec of io/Dns.c: names as section 4.1.4 of RFC 1035 lays them out,
 walked by a measuring pass, a copying pass and a skip, and written by the query
 builder.
 */
module DnsName {
  import opened Octets

  type Label = seq<octet>

  const HEADER: nat := 12
  const LABEL_LENGTH: nat := 63
  const DOMAIN_LENGTH: nat := 255
  const UDP_PACKET_SIZE: nat := 512
  const DOT: octet := 0x2E

  // ---------- The walk over a message ----------

  /**
   What a name at an offset is: its labels, or it leaves the message, or its pointers
   lead back to one of them.
   */
  datatype Walk = Outside | Loops | Name(labels: seq<Label>)

  predicate IsPointer(x: octet) {
    x >= 0xC0
  }

  /** The 14-bit offset of the pointer at an offset. */
  function Target(p: seq<octet>, at: nat): nat
    requires at + 1 < |p|
  {
    PointerTo(p[at], p[at + 1])
  }

  function PointerTo(high: octet, low: octet): nat {
    var h: int := high % 0x40;
    h * 0x100 + low
  }

  /** The offsets in the message that are not in the set. */
  function Others(len: nat, followed: set<nat>): set<nat> {
    set i: nat | i < len && i !in followed
  }

  lemma OneLess(len: nat, followed: set<nat>, at: nat)
    requires at < len && at !in followed
    ensures Others(len, followed + {at}) < Others(len, followed)
  {
    assert at in Others(len, followed) && at !in Others(len, followed + {at});
  }

  /** followed are the offsets of the pointers that led to at. */
  function WalkFrom(p: seq<octet>, len: nat, followed: set<nat>, at: nat): (w: Walk)
    requires len < |p|
    ensures w.Name? ==> at < len
    decreases Others(len, followed), if at < len then len - at else 0
  {
    if at >= len then Outside
    else if p[at] == 0 then Name([])
    else if IsPointer(p[at]) then
      if at in followed then Loops
      else
        OneLess(len, followed, at);
        WalkFrom(p, len, followed + {at}, Target(p, at))
    else
      match WalkFrom(p, len, followed, at + p[at] + 1)
      case Name(ls) => Name([LabelAt(p, at)] + ls)
      case w => w
  }

  /** How much of a label comes before its first NUL. */
  function NulSpan(l: Label): (n: nat)
    ensures n <= |l| && (n < |l| ==> l[n] == 0)
    ensures forall i :: 0 <= i < n ==> l[i] != 0
  {
    if l == [] || l[0] == 0 then 0 else 1 + NulSpan(l[1..])
  }

  /** strncpy of a label: what follows a NUL in it becomes NULs. */
  function Padded(l: Label): (r: Label)
    ensures |r| == |l|
    ensures 0 !in l ==> r == l
  {
    l[..NulSpan(l)] + seq(|l| - NulSpan(l), i => 0)
  }

  /** From the first NUL on there are only NULs. */
  lemma PaddedAt(l: Label, i: nat)
    requires i < |l|
    ensures Padded(l)[i] == if 0 in l[..i + 1] then 0 else l[i]
  {
    var n := NulSpan(l);
    if n <= i {
      assert l[..i + 1][n] == 0;
    }
  }

  /** The label at an offset; past the end of the buffer it does not matter. */
  function LabelAt(p: seq<octet>, at: nat): (l: Label)
    requires at < |p|
    ensures |l| == p[at]
  {
    if at + 1 + p[at] <= |p| then p[at + 1..at + 1 + p[at]] else seq(p[at], i => 0)
  }

  /** One piece for every element, in order. */
  function Pieces<T>(piece: T -> seq<octet>, s: seq<T>): seq<octet> {
    if s == [] then [] else Pieces(piece, s[..|s| - 1]) + piece(s[|s| - 1])
  }

  lemma PiecesSnoc<T>(piece: T -> seq<octet>, s: seq<T>, x: T)
    ensures Pieces(piece, s + [x]) == Pieces(piece, s) + piece(x)
  {
    assert (s + [x])[..|s|] == s;
  }

  lemma {:induction false} PiecesAppend<T>(piece: T -> seq<octet>, a: seq<T>, b: seq<T>)
    ensures Pieces(piece, a + b) == Pieces(piece, a) + Pieces(piece, b)
  {
    if b == [] {
      assert a + b == a;
    } else {
      var n := |b| - 1;
      assert (a + b)[..|a| + n] == a + b[..n];
      PiecesAppend(piece, a, b[..n]);
      Assoc(Pieces(piece, a), Pieces(piece, b[..n]), piece(b[n]));
    }
  }

  function WithDot(l: Label): seq<octet> {
    Padded(l) + [DOT]
  }

  /** Every label and its dot. */
  function Dotted(ls: seq<Label>): seq<octet> {
    Pieces(WithDot, ls)
  }

  function DottedLength(ls: seq<Label>): (n: nat)
    ensures ls != [] ==> n > 0
  {
    if ls == [] then 0 else DottedLength(ls[..|ls| - 1]) + |ls[|ls| - 1]| + 1
  }

  lemma DottedHasLength(ls: seq<Label>)
    ensures |Dotted(ls)| == DottedLength(ls)
  {
  }

  /** The text of a name; the root is a single dot. */
  function Text(ls: seq<Label>): seq<octet> {
    if ls == [] then [DOT] else Dotted(ls)
  }

  /** What nameLength answers for a walk. */
  function LengthOf(w: Walk): int {
    if w.Name? && |Text(w.labels)| <= DOMAIN_LENGTH then |Text(w.labels)| else -1
  }

  /** Where nameSkip stops. */
  function SkipFrom(p: seq<octet>, len: nat, at: nat): nat
    requires len <= |p|
    decreases if at < len then len - at else 0
  {
    if at >= len || p[at] == 0 then at + 1
    else if IsPointer(p[at]) then at + 2
    else SkipFrom(p, len, at + p[at] + 1)
  }

  // ---------- The code ----------

  datatype NameText = NoName | SomeName(text: seq<octet>)

  /**
   The message from its header on. The array is one octet longer than the packet:
   the second octet of a pointer may lie behind the last one of the packet.
   */
  class Packet {
    const buf: array<octet>
    var length: nat

    constructor ()
      ensures Valid() && fresh(buf) && length == 0
    {
      buf := new octet[UDP_PACKET_SIZE + 1];
      length := 0;
    }

    ghost predicate Valid()
      reads this
    {
      buf.Length == UDP_PACKET_SIZE + 1 && length <= UDP_PACKET_SIZE
    }

    function NameAt(ptr: nat): Walk
      requires Valid()
      reads this, buf
    {
      WalkFrom(buf[..], length, {}, ptr)
    }

    method NameLength(ptr: int) returns (r: int)
      requires Valid()
      requires 0 <= ptr ==> NameAt(ptr) != Loops
      ensures r == if ptr < 0 then -1 else LengthOf(NameAt(ptr))
      ensures 0 <= ptr && NameAt(ptr).Name? && |Text(NameAt(ptr).labels)| <= 255 ==> r == |Text(NameAt(ptr).labels)|
      ensures ptr < 0 || NameAt(ptr) == Outside || |Text(NameAt(ptr).labels)| > 255 ==> r == -1
    {
      if ptr < 0 {
        return -1;
      }
      var len, at := Measure(ptr);
      if NameAt(ptr).Name? {
        DottedHasLength(NameAt(ptr).labels);
      }
      if len == 0 {
        len := 1;
      }
      if length <= at {
        return -1;
      }
      if DOMAIN_LENGTH < len {
        return -1;
      }
      return len;
    }

    /** The loop of nameLength: the octets of the labels and their dots, and where it ends. */
    method Measure(ptr: nat) returns (len: nat, at: nat)
      requires Valid() && NameAt(ptr) != Loops
      ensures NameAt(ptr).Name? <==> at < length
      ensures NameAt(ptr).Name? ==> len == DottedLength(NameAt(ptr).labels)
    {
      ghost var p, whole := buf[..], NameAt(ptr);
      len, at := 0, ptr;
      ghost var followed: set<nat>, seen: seq<Label> := {}, [];
      StartOfWalk(whole);
      while at < length && buf[at] != 0
        invariant len == DottedLength(seen)
        invariant Continues(whole, seen, WalkFrom(p, length, followed, at))
        decreases Others(length, followed), if at < length then length - at else 0
      {
        if IsPointer(buf[at]) {
          OneLess(length, followed, at);
          followed := followed + {at};
          at := PointerTo(buf[at], buf[at + 1]);
          continue;
        }
        var n: nat := buf[at];
        SeenOneMore(whole, seen, LabelAt(p, at), WalkFrom(p, length, followed, at + n + 1));
        seen := seen + [LabelAt(p, at)];
        len := len + (n + 1);
        at := at + (n + 1);
      }
      EndOfWalk(whole, seen, WalkFrom(p, length, followed, at));
    }

    /** strncpy of the n octets at ptr + 1. */
    method Strncpy(out: array<octet>, k: nat, ptr: nat, n: nat)
      requires out != buf && ptr + 1 + n <= buf.Length && k + n <= out.Length
      modifies out
      ensures out[..k + n] == old(out[..k]) + Padded(buf[ptr + 1..ptr + 1 + n])
    {
      ghost var l := buf[ptr + 1..ptr + 1 + n];
      var i := CopySpan(out, k, ptr, n);
      Fill(out, k + i, n - i);
      Assoc(old(out[..k]), l[..i], seq(n - i, j => 0));
    }

    /** The octets before the first NUL. */
    method CopySpan(out: array<octet>, k: nat, ptr: nat, n: nat) returns (i: nat)
      requires out != buf && ptr + 1 + n <= buf.Length && k + n <= out.Length
      modifies out
      ensures i == NulSpan(buf[ptr + 1..ptr + 1 + n])
      ensures out[..k + i] == old(out[..k]) + buf[ptr + 1..ptr + 1 + n][..i]
    {
      ghost var l := buf[ptr + 1..ptr + 1 + n];
      i := 0;
      while i < n && buf[ptr + 1 + i] != 0
        invariant 0 <= i <= NulSpan(l) <= n
        invariant out[..k + i] == old(out[..k]) + l[..i]
      {
        ghost var was := out[..k + i];
        assert buf[ptr + 1 + i] == l[i];
        out[k + i] := buf[ptr + 1 + i];
        i := i + 1;
        assert out[..k + i] == was + [l[i - 1]];
      }
      assert i < n ==> l[i] == 0;
    }

    method Fill(out: array<octet>, k: nat, n: nat)
      requires out != buf && k + n <= out.Length
      modifies out
      ensures out[..k + n] == old(out[..k]) + seq(n, i => 0)
    {
      var i := 0;
      while i < n
        invariant 0 <= i <= n
        invariant out[..k] == old(out[..k]) && forall j :: k <= j < k + i ==> out[j] == 0
      {
        out[k + i] := 0;
        i := i + 1;
      }
    }

    /** The label at an offset and its dot, into the k-th octet of out. */
    method CopyLabel(out: array<octet>, k: nat, at: nat)
      requires out != buf && at < buf.Length && at + 1 + buf[at] <= buf.Length && k + buf[at] < out.Length
      modifies out
      ensures out[..k + buf[at] + 1] == old(out[..k]) + WithDot(LabelAt(buf[..], at))
    {
      var n: nat := buf[at];
      Strncpy(out, k, at, n);
      LabelInBuffer(at);
      ghost var copied := out[..k + n];
      out[k + n] := DOT;
      assert out[..k + n + 1] == copied + [DOT];
      Assoc(old(out[..k]), Padded(LabelAt(buf[..], at)), [DOT]);
    }

    lemma LabelInBuffer(at: nat)
      requires at < buf.Length && at + 1 + buf[at] <= buf.Length
      ensures buf[at + 1..at + 1 + buf[at]] == LabelAt(buf[..], at)
    {
      assert buf[..][at + 1..at + 1 + buf[at]] == buf[at + 1..at + 1 + buf[at]];
    }

    /**
     Copies the name into the size octets of out. The room must be one octet more
     than the labels and their dots; a second octet is taken as a root label.
     */
    method NameCopy(ptr: int, out: array<octet>, size: nat) returns (r: int)
      requires Valid() && 0 <= ptr && NameAt(ptr).Name?
      requires out != buf && size <= out.Length
      modifies out
      ensures r in {0, -1}
      ensures var spare := size - DottedLength(NameAt(ptr).labels);
              && (r == 0 <==> spare in {1, 2})
              && (spare == 1 ==> out[..size] == Dotted(NameAt(ptr).labels) + [0])
              && (spare == 2 ==> out[..size] == Dotted(NameAt(ptr).labels) + [DOT, 0])
    {
      var fits, k, at := CopyLabels(ptr, out, size);
      if !fits {
        return -1;
      }
      ghost var text := out[..k];
      var len := size - k;
      if len == 2 && buf[at] == 0 {
        out[k] := DOT;
        k := k + 1;
        len := len - 1;
        assert out[..k] == text + [DOT];
      }
      if len != 1 {
        return -1;
      }
      out[k] := 0;
      return 0;
    }

    /** The loop of nameCopy; it gives up at the first label that finds no room. */
    method CopyLabels(ptr: nat, out: array<octet>, size: nat) returns (fits: bool, k: nat, at: nat)
      requires Valid() && NameAt(ptr).Name?
      requires out != buf && size <= out.Length
      modifies out
      ensures fits <==> DottedLength(NameAt(ptr).labels) <= size
      ensures fits ==> k == DottedLength(NameAt(ptr).labels) && out[..k] == Dotted(NameAt(ptr).labels)
      ensures fits ==> at < length && buf[at] == 0
    {
      ghost var p, all := buf[..], NameAt(ptr).labels;
      at, k, fits := ptr, 0, true;
      ghost var followed: set<nat>, seen: seq<Label> := {}, [];
      while at < length && buf[at] != 0
        invariant k == DottedLength(seen) <= size
        invariant p == buf[..] && SeenOf(p, length, all, followed, at, seen)
        invariant out[..k] == Dotted(seen)
        decreases Others(length, followed), if at < length then length - at else 0
      {
        if IsPointer(buf[at]) {
          OneLess(length, followed, at);
          followed := followed + {at};
          at := PointerTo(buf[at], buf[at + 1]);
          continue;
        }
        NextLabel(p, length, all, followed, at, seen);
        seen := seen + [LabelAt(p, at)];
        fits, k, at := CopyNext(out, size, k, at);
        if !fits {
          return;
        }
      }
      assert all[|seen|..] == [] && all == seen;
    }

    /** One label, if length octets of room are more than it has. */
    method CopyNext(out: array<octet>, size: nat, from: nat, here: nat) returns (fits: bool, k: nat, at: nat)
      requires out != buf && from <= size <= out.Length
      requires here < buf.Length && here + 1 + buf[here] <= buf.Length
      modifies out
      ensures fits <==> from + buf[here] + 1 <= size
      ensures at == here + buf[here] + 1 && k == from + buf[here] + 1
      ensures fits ==> out[..k] == old(out[..from]) + WithDot(LabelAt(buf[..], here))
    {
      var n: nat := buf[here];
      var length := size - from;
      k, at := from + n + 1, here + n + 1;
      if length <= n {
        return false, k, at;
      }
      CopyLabel(out, from, here);
      return true, k, at;
    }

    method NameSkip(ptr: nat) returns (next: nat)
      requires Valid()
      ensures next == SkipFrom(buf[..], length, ptr)
    {
      var at := ptr;
      while at < length && buf[at] != 0
        invariant SkipFrom(buf[..], length, ptr) == SkipFrom(buf[..], length, at)
        decreases if at < length then length - at else 0
      {
        if IsPointer(buf[at]) {
          at := at + 1;
          return at + 1;
        }
        var n: nat := buf[at];
        at := at + (n + 1);
      }
      return at + 1;
    }

    /** A name is read exactly when it is measured; the copy then never falls short. */
    method NameGet(ptr: int) returns (r: NameText, stop: nat)
      requires Valid()
      requires 0 <= ptr ==> NameAt(ptr) != Loops
      ensures r.SomeName? <==> 0 <= ptr && LengthOf(NameAt(ptr)) >= 0
      ensures r.SomeName? ==> r.text == Text(NameAt(ptr).labels)
      ensures r.SomeName? ==> stop == SkipFrom(buf[..], length, ptr)
    {
      stop := 0;
      var len := NameLength(ptr);
      if len < 0 {
        return NoName, stop;
      }
      var out := new octet[len + 1];
      DottedHasLength(NameAt(ptr).labels);
      var rc := NameCopy(ptr, out, len + 1);
      if rc < 0 {
        return NoName, stop;
      }
      stop := NameSkip(ptr);
      TextOf(NameAt(ptr).labels, out[..len + 1], len);
      r := SomeName(out[..len]);
    }
  }

  /** What a walk from the start is, once the labels seen are behind it. */
  ghost predicate Continues(whole: Walk, seen: seq<Label>, rest: Walk) {
    match rest
    case Name(ls) => whole == Name(seen + ls)
    case Outside => whole == Outside
    case Loops => false
  }

  /** The buffer that nameCopy fills, when it is as long as nameLength says. */
  lemma TextOf(ls: seq<Label>, filled: seq<octet>, len: nat)
    requires len == |Text(ls)| && |filled| == len + 1
    requires var spare := len + 1 - DottedLength(ls);
             && (spare == 1 ==> filled == Dotted(ls) + [0])
             && (spare == 2 ==> filled == Dotted(ls) + [DOT, 0])
    ensures filled[..len] == Text(ls)
  {
    DottedHasLength(ls);
  }

  lemma StartOfWalk(whole: Walk)
    requires whole != Loops
    ensures Continues(whole, [], whole)
  {
    if whole.Name? {
      assert [] + whole.labels == whole.labels;
    }
  }

  lemma EndOfWalk(whole: Walk, seen: seq<Label>, rest: Walk)
    requires Continues(whole, seen, rest) && (rest == Name([]) || rest == Outside)
    ensures whole == if rest == Outside then Outside else Name(seen)
  {
    assert seen + [] == seen;
  }

  lemma SeenOneMore(whole: Walk, seen: seq<Label>, l: Label, rest: Walk)
    requires Continues(whole, seen, if rest.Name? then Name([l] + rest.labels) else rest)
    ensures Continues(whole, seen + [l], rest)
    ensures DottedLength(seen + [l]) == DottedLength(seen) + |l| + 1
  {
    DottedSnoc(seen, l);
    if rest.Name? {
      assert seen + ([l] + rest.labels) == seen + [l] + rest.labels;
    }
  }

  /** The walk of a name with the labels all has come to at, and seen these of them. */
  ghost predicate SeenOf(p: seq<octet>, len: nat, all: seq<Label>, followed: set<nat>, at: nat, seen: seq<Label>) {
    len < |p| && seen <= all && WalkFrom(p, len, followed, at) == Name(all[|seen|..])
  }

  lemma NextLabel(p: seq<octet>, len: nat, all: seq<Label>, followed: set<nat>, at: nat, seen: seq<Label>)
    requires SeenOf(p, len, all, followed, at, seen)
    requires at < len && p[at] != 0 && !IsPointer(p[at])
    ensures at + p[at] + 1 < len
    ensures var l := LabelAt(p, at);
            && SeenOf(p, len, all, followed, at + p[at] + 1, seen + [l])
            && Dotted(seen + [l]) == Dotted(seen) + WithDot(l)
            && DottedLength(seen + [l]) == DottedLength(seen) + |l| + 1 <= DottedLength(all)
  {
    var l := LabelAt(p, at);
    var rest := all[|seen|..][1..];
    assert all[|seen|..] == [l] + rest;
    assert all == seen + [l] + rest;
    assert all[|seen + [l]|..] == rest;
    DottedSnoc(seen, l);
    PiecesAppend(WithDot, seen + [l], rest);
    DottedHasLength(all);
    DottedHasLength(seen + [l]);
  }

  lemma DottedSnoc(ls: seq<Label>, l: Label)
    ensures Dotted(ls + [l]) == Dotted(ls) + WithDot(l)
    ensures DottedLength(ls + [l]) == DottedLength(ls) + |l| + 1
  {
    PiecesSnoc(WithDot, ls, l);
    assert (ls + [l])[..|ls|] == ls;
  }

  // ---------- When the loops end ----------

  /** The loops of nameLength and nameCopy go on at an offset. */
  predicate Going(p: seq<octet>, len: nat, at: nat)
    requires len < |p|
  {
    at < len && p[at] != 0
  }

  /** Where one turn of the loops goes. */
  function Next(p: seq<octet>, len: nat, at: nat): nat
    requires len < |p|
  {
    if !Going(p, len, at) then at
    else if IsPointer(p[at]) then Target(p, at)
    else at + p[at] + 1
  }

  /** Where n turns go. */
  function Turns(p: seq<octet>, len: nat, at: nat, n: nat): nat
    requires len < |p|
  {
    if n == 0 then at else Next(p, len, Turns(p, len, at, n - 1))
  }

  /** No number of turns ends the loops. */
  ghost predicate NeverEnds(p: seq<octet>, len: nat, at: nat)
    requires len < |p|
  {
    forall n: nat :: Going(p, len, Turns(p, len, at, n))
  }

  lemma {:induction false} TurnsFirst(p: seq<octet>, len: nat, at: nat, n: nat)
    requires len < |p|
    ensures Turns(p, len, at, n + 1) == Turns(p, len, Next(p, len, at), n)
  {
    if n > 0 {
      TurnsFirst(p, len, at, n - 1);
    }
  }

  lemma NeverEndsNext(p: seq<octet>, len: nat, at: nat)
    requires len < |p| && Going(p, len, at)
    ensures NeverEnds(p, len, at) <==> NeverEnds(p, len, Next(p, len, at))
  {
    if NeverEnds(p, len, Next(p, len, at)) {
      forall n: nat ensures Going(p, len, Turns(p, len, at, n)) {
        if n > 0 {
          TurnsFirst(p, len, at, n - 1);
          assert Going(p, len, Turns(p, len, Next(p, len, at), n - 1));
        }
      }
    }
    if NeverEnds(p, len, at) {
      forall n: nat ensures Going(p, len, Turns(p, len, Next(p, len, at), n)) {
        TurnsFirst(p, len, at, n);
        assert Going(p, len, Turns(p, len, at, n + 1));
      }
    }
  }

  /** at is where some turns from the pointer go, all of them inside the message. */
  ghost predicate LeadsTo(p: seq<octet>, len: nat, pointer: nat, at: nat)
    requires len < |p|
  {
    exists n: nat :: 0 < n && Leads(p, len, pointer, at, n)
  }

  ghost predicate Leads(p: seq<octet>, len: nat, pointer: nat, at: nat, n: nat)
    requires len < |p|
  {
    Turns(p, len, pointer, n) == at && forall k: nat :: k < n ==> Going(p, len, Turns(p, len, pointer, k))
  }

  lemma LeadsOn(p: seq<octet>, len: nat, pointer: nat, at: nat)
    requires len < |p| && (LeadsTo(p, len, pointer, at) || pointer == at) && Going(p, len, at)
    ensures LeadsTo(p, len, pointer, Next(p, len, at))
  {
    if LeadsTo(p, len, pointer, at) {
      var n: nat :| 0 < n && Leads(p, len, pointer, at, n);
      assert Leads(p, len, pointer, Next(p, len, at), n + 1);
    } else {
      assert Turns(p, len, pointer, 0) == pointer;
      assert Leads(p, len, pointer, Next(p, len, at), 1);
    }
  }

  /** An offset that leads back to itself goes round for ever. */
  lemma {:induction false} RoundFor(p: seq<octet>, len: nat, at: nat, period: nat, n: nat)
    requires len < |p| && 0 < period && Leads(p, len, at, at, period)
    ensures Going(p, len, Turns(p, len, at, n))
    decreases n
  {
    if period <= n {
      TurnsAdd(p, len, at, period, n - period);
      RoundFor(p, len, at, period, n - period);
    }
  }

  lemma {:induction false} TurnsAdd(p: seq<octet>, len: nat, at: nat, m: nat, n: nat)
    requires len < |p|
    ensures Turns(p, len, at, m + n) == Turns(p, len, Turns(p, len, at, m), n)
  {
    if n > 0 {
      TurnsAdd(p, len, at, m, n - 1);
    }
  }

  /** The walk finds a loop exactly when the loops of the code never end. */
  lemma {:induction false} LoopsIff(p: seq<octet>, len: nat, followed: set<nat>, at: nat)
    requires len < |p| && forall f :: f in followed ==> LeadsTo(p, len, f, at)
    ensures WalkFrom(p, len, followed, at) == Loops <==> NeverEnds(p, len, at)
    decreases Others(len, followed), if at < len then len - at else 0
  {
    if !Going(p, len, at) {
      assert !Going(p, len, Turns(p, len, at, 0));
    } else if IsPointer(p[at]) && at in followed {
      var period: nat :| 0 < period && Leads(p, len, at, at, period);
      forall n: nat ensures Going(p, len, Turns(p, len, at, n)) {
        RoundFor(p, len, at, period, n);
      }
    } else {
      var next := Next(p, len, at);
      NeverEndsNext(p, len, at);
      var followed' := if IsPointer(p[at]) then followed + {at} else followed;
      forall f | f in followed' ensures LeadsTo(p, len, f, next) {
        LeadsOn(p, len, f, at);
      }
      if IsPointer(p[at]) {
        OneLess(len, followed, at);
      }
      LoopsIff(p, len, followed', next);
    }
  }

  /** nameLength comes to an end exactly for the names that the walk reads or sees leave the message. */
  lemma WalkEndsIff(p: seq<octet>, len: nat, at: nat)
    requires len < |p|
    ensures WalkFrom(p, len, {}, at) != Loops <==> !NeverEnds(p, len, at)
  {
    LoopsIff(p, len, {}, at);
  }

  /** Every pointer goes back to before the run of labels that it ends, which began at start. */
  predicate GoesBack(p: seq<octet>, len: nat, start: nat, at: nat)
    requires len < |p| && start <= at
    decreases start, if at < len then len - at else 0
  {
    if !Going(p, len, at) then true
    else if IsPointer(p[at]) then Target(p, at) < start && GoesBack(p, len, Target(p, at), Target(p, at))
    else GoesBack(p, len, start, at + p[at] + 1)
  }

  /** Pointers as section 4.1.4 of RFC 1035 has them, to a prior occurrence, do not loop. */
  lemma {:induction false} PriorPointersEnd(p: seq<octet>, len: nat, followed: set<nat>, start: nat, at: nat)
    requires len < |p| && start <= at && GoesBack(p, len, start, at)
    requires forall f :: f in followed ==> f < len && start <= Target(p, f)
    ensures WalkFrom(p, len, followed, at) != Loops
    decreases Others(len, followed), if at < len then len - at else 0
  {
    if Going(p, len, at) {
      if IsPointer(p[at]) {
        OneLess(len, followed, at);
        PriorPointersEnd(p, len, followed + {at}, Target(p, at), Target(p, at));
      } else {
        PriorPointersEnd(p, len, followed, start, at + p[at] + 1);
      }
    }
  }

  /** A pointer to itself is a loop. */
  lemma SelfPointerLoops()
    ensures WalkFrom([0xC0, 0, 0], 2, {}, 0) == Loops
  {
    var p: seq<octet> := [0xC0, 0, 0];
    assert Target(p, 0) == 0;
    OneLess(2, {}, 0);
    assert WalkFrom(p, 2, {} + {0}, 0) == Loops;
  }

  /** The two octets of a pointer are the top bits and the offset, the high octet first. */
  lemma PointerIs(p: seq<octet>, at: nat, offset: nat)
    requires at + 1 < |p| && offset < 0x4000
    requires p[at] as int * 0x100 + p[at + 1] == 0xC000 + offset
    ensures IsPointer(p[at]) && Target(p, at) == offset
  {
  }

  lemma WalkOne(p: seq<octet>, len: nat, followed: set<nat>, at: nat)
    requires at + 2 < len < |p| && p[at] == 1 && p[at + 2] == 0
    ensures WalkFrom(p, len, followed, at) == Name([[p[at + 1]]])
  {
    assert LabelAt(p, at) == [p[at + 1]];
    assert WalkFrom(p, len, followed, at + 2) == Name([]);
    assert [[p[at + 1]]] + [] == [[p[at + 1]]];
  }

  /** A pointer forward to a label is read. */
  lemma ForwardPointerIsRead()
    ensures WalkFrom([0xC0, 2, 1, 0x61, 0, 0], 5, {}, 0) == Name([[0x61]])
    ensures !GoesBack([0xC0, 2, 1, 0x61, 0, 0], 5, 0, 0)
  {
    var p: seq<octet> := [0xC0, 2, 1, 0x61, 0, 0];
    assert Target(p, 0) == 2;
    OneLess(5, {}, 0);
    WalkOne(p, 5, {} + {0}, 2);
  }

  /** The label b and a pointer back to the label a are read as the two, and go back as pointers should. */
  lemma PriorPointerIsRead()
    ensures WalkFrom([1, 0x61, 0, 1, 0x62, 0xC0, 0, 0], 7, {}, 3) == Name([[0x62], [0x61]])
    ensures GoesBack([1, 0x61, 0, 1, 0x62, 0xC0, 0, 0], 7, 3, 3)
  {
    var p: seq<octet> := [1, 0x61, 0, 1, 0x62, 0xC0, 0, 0];
    assert Target(p, 5) == 0;
    OneLess(7, {}, 5);
    WalkOne(p, 7, {} + {5}, 0);
    assert WalkFrom(p, 7, {}, 5) == Name([[0x61]]);
    assert LabelAt(p, 3) == [0x62];
    assert [[0x62]] + [[0x61]] == [[0x62], [0x61]];
    assert GoesBack(p, 7, 0, 2) && GoesBack(p, 7, 0, 0) && GoesBack(p, 7, 3, 5);
  }
}
