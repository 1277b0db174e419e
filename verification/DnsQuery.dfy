/**
 DnsBuildQuery of io/Dns.c, and that the name readers get back the name that was
 put into the question.
 */
module DnsQuery {
  import opened Octets
  import opened DnsName

  // ---------- The question ----------

  /** The labels of a name that a dot has ended, and what follows the last dot. */
  datatype Parts = Parts(ended: seq<Label>, last: Label)

  function Split(n: seq<octet>): Parts {
    if n == [] then Parts([], []) else Append(Split(n[..|n| - 1]), n[|n| - 1])
  }

  function Append(s: Parts, c: octet): Parts {
    if c == DOT then Parts(s.ended + [s.last], []) else Parts(s.ended, s.last + [c])
  }

  function WithLength(l: Label): seq<octet> {
    [|l| % 0x100] + l
  }

  /** The root label is written apart unless the name is empty or ends in a dot. */
  predicate NeedRoot(n: seq<octet>) {
    n != [] && !EndsWith(n, DOT)
  }

  /** The labels as the loop of the builder writes them. */
  function WireLabels(s: Parts): seq<octet> {
    Pieces(WithLength, s.ended) + WithLength(s.last)
  }

  function WireName(n: seq<octet>): seq<octet> {
    WireLabels(Split(n)) + if NeedRoot(n) then [0] else []
  }

  /** The labels the name has, without the empty one that stands for the root. */
  function NameLabels(n: seq<octet>): seq<Label> {
    if NeedRoot(n) then Split(n).ended + [Split(n).last] else Split(n).ended
  }

  /** The name with its trailing dot. */
  function FullText(n: seq<octet>): seq<octet> {
    if n == [] || NeedRoot(n) then n + [DOT] else n
  }

  predicate ShortLabels(ls: seq<Label>) {
    forall i :: 0 <= i < |ls| ==> |ls[i]| <= LABEL_LENGTH
  }

  predicate ShortParts(s: Parts) {
    ShortLabels(s.ended) && |s.last| <= LABEL_LENGTH
  }

  predicate NoEmptyLabel(ls: seq<Label>) {
    forall i :: 0 <= i < |ls| ==> ls[i] != []
  }

  lemma SplitSnoc(m: seq<octet>, c: octet)
    ensures Split(m + [c]) == Append(Split(m), c)
  {
    assert (m + [c])[..|m|] == m;
  }

  lemma SplitNext(n: seq<octet>, s: nat)
    requires s < |n|
    ensures Split(n[..s + 1]) == Append(Split(n[..s]), n[s])
  {
    SplitSnoc(n[..s], n[s]);
    assert n[..s] + [n[s]] == n[..s + 1];
  }

  lemma {:induction false} WireLength(n: seq<octet>)
    ensures |WireLabels(Split(n))| == |n| + 1
  {
    if n != [] {
      var s := Split(n[..|n| - 1]);
      WireLength(n[..|n| - 1]);
      PiecesSnoc(WithLength, s.ended, s.last);
    }
  }

  lemma LastPart(n: seq<octet>)
    ensures NeedRoot(n) <==> Split(n).last != []
  {
  }

  lemma RootLabel(n: seq<octet>)
    ensures WireName(n) == WireOf(NameLabels(n))
  {
    var s := Split(n);
    LastPart(n);
    if NeedRoot(n) {
      PiecesSnoc(WithLength, s.ended, s.last);
    } else {
      assert WithLength([]) == [0];
      assert WireName(n) == WireLabels(s) + [];
    }
  }

  // ---------- Reading the question ----------

  /** p holds s at an offset. */
  predicate Holds(p: seq<octet>, at: nat, s: seq<octet>) {
    at + |s| <= |p| && p[at..at + |s|] == s
  }

  lemma HoldsParts(p: seq<octet>, at: nat, a: seq<octet>, b: seq<octet>)
    requires Holds(p, at, a + b)
    ensures Holds(p, at, a) && Holds(p, at + |a|, b)
  {
    assert p[at..at + |a|] == (a + b)[..|a|];
    assert p[at + |a|..at + |a| + |b|] == (a + b)[|a|..];
  }

  /** A label of 1 to 63 octets is walked over, and so skipped. */
  lemma WalkLabel(p: seq<octet>, len: nat, followed: set<nat>, at: nat, l: Label)
    requires Holds(p, at, WithLength(l)) && at + 1 + |l| < len < |p|
    requires 1 <= |l| <= LABEL_LENGTH
    ensures WalkFrom(p, len, followed, at)
      == match WalkFrom(p, len, followed, at + 1 + |l|)
         case Name(ls) => Name([l] + ls)
         case w => w
    ensures SkipFrom(p, len, at) == SkipFrom(p, len, at + 1 + |l|)
  {
    HoldsParts(p, at, [|l| % 0x100], l);
    assert p[at] == p[at..at + 1][0] == |l|;
    assert LabelAt(p, at) == l;
  }

  lemma PiecesFront<T>(piece: T -> seq<octet>, x: T, s: seq<T>)
    ensures Pieces(piece, [x] + s) == piece(x) + Pieces(piece, s)
  {
    PiecesAppend(piece, [x], s);
    PiecesSnoc(piece, [], x);
    assert [] + [x] == [x];
  }

  /** The labels with their lengths, and the root label. */
  function WireOf(ls: seq<Label>): seq<octet> {
    Pieces(WithLength, ls) + [0]
  }

  lemma WireFront(ls: seq<Label>)
    requires ls != []
    ensures WireOf(ls) == WithLength(ls[0]) + WireOf(ls[1..])
  {
    var l, rest := ls[0], ls[1..];
    assert ls == [l] + rest;
    PiecesFront(WithLength, l, rest);
    Assoc(WithLength(l), Pieces(WithLength, rest), [0]);
  }

  lemma WireRoot()
    ensures WireOf([]) == [0]
  {
  }

  /** What the message holds from an offset on, label by label. */
  ghost predicate HoldsName(p: seq<octet>, at: nat, ls: seq<Label>)
    decreases |ls|
  {
    if ls == [] then at < |p| && p[at] == 0
    else Holds(p, at, WithLength(ls[0])) && HoldsName(p, at + 1 + |ls[0]|, ls[1..])
  }

  function WireSize(ls: seq<Label>): nat {
    if ls == [] then 1 else 1 + |ls[0]| + WireSize(ls[1..])
  }

  lemma {:induction false} HoldsWire(p: seq<octet>, at: nat, ls: seq<Label>)
    requires Holds(p, at, WireOf(ls))
    ensures HoldsName(p, at, ls) && WireSize(ls) == |WireOf(ls)|
    decreases |ls|
  {
    if ls == [] {
      WireRoot();
      assert p[at] == p[at..at + 1][0];
    } else {
      WireFront(ls);
      HoldsParts(p, at, WithLength(ls[0]), WireOf(ls[1..]));
      HoldsWire(p, at + 1 + |ls[0]|, ls[1..]);
    }
  }

  /** The labels in front of the first empty one, which reads as the root. */
  function UpToEmpty(ls: seq<Label>): seq<Label> {
    if ls == [] || ls[0] == [] then [] else [ls[0]] + UpToEmpty(ls[1..])
  }

  lemma WalkAtEmpty(p: seq<octet>, len: nat, followed: set<nat>, at: nat)
    requires at < len < |p| && p[at] == 0
    ensures WalkFrom(p, len, followed, at) == Name([])
  {
  }

  lemma EmptyLabelHere(p: seq<octet>, at: nat, ls: seq<Label>)
    requires HoldsName(p, at, ls) && (ls == [] || ls[0] == [])
    ensures at < |p| && p[at] == 0
  {
    if ls != [] {
      assert p[at] == p[at..at + 1][0];
    }
  }

  /** Labels and a root label are read back, up to an empty label ... */
  lemma {:induction false} WalkLabels(p: seq<octet>, len: nat, followed: set<nat>, at: nat, ls: seq<Label>)
    requires ShortLabels(ls) && HoldsName(p, at, ls)
    requires at + WireSize(ls) <= len < |p|
    ensures WalkFrom(p, len, followed, at) == Name(UpToEmpty(ls))
    decreases |ls|
  {
    hide WalkFrom, SkipFrom, WithLength, Holds;
    if ls == [] || ls[0] == [] {
      EmptyLabelHere(p, at, ls);
      WalkAtEmpty(p, len, followed, at);
    } else {
      WalkLabels(p, len, followed, at + 1 + |ls[0]|, ls[1..]);
      WalkLabel(p, len, followed, at, ls[0]);
    }
  }

  lemma {:induction false} NoneIsEmpty(ls: seq<Label>)
    ensures NoEmptyLabel(ls) ==> UpToEmpty(ls) == ls
    ensures !NoEmptyLabel(ls) ==> DottedLength(UpToEmpty(ls)) < DottedLength(ls)
  {
    if ls != [] {
      NoneIsEmpty(ls[1..]);
      assert ls == [ls[0]] + ls[1..];
      DottedFront(ls[0], ls[1..]);
      if ls[0] != [] {
        DottedFront(ls[0], UpToEmpty(ls[1..]));
      }
    }
  }

  lemma {:induction false} DottedFront(l: Label, ls: seq<Label>)
    ensures DottedLength([l] + ls) == |l| + 1 + DottedLength(ls)
  {
    if ls == [] {
      assert [l] + ls == [] + [l];
      DottedSnoc([], l);
    } else {
      var n := |ls| - 1;
      DottedFront(l, ls[..n]);
      assert [l] + ls == [l] + ls[..n] + [ls[n]];
      assert ls == ls[..n] + [ls[n]];
      DottedSnoc([l] + ls[..n], ls[n]);
      DottedSnoc(ls[..n], ls[n]);
    }
  }

  /** ... and the skip lands right behind them. */
  lemma {:induction false} SkipLabels(p: seq<octet>, len: nat, at: nat, ls: seq<Label>)
    requires ShortLabels(ls) && NoEmptyLabel(ls) && HoldsName(p, at, ls)
    requires at + WireSize(ls) <= len < |p|
    ensures SkipFrom(p, len, at) == at + WireSize(ls)
    decreases |ls|
  {
    if ls != [] {
      WalkLabel(p, len, {}, at, ls[0]);
      SkipLabels(p, len, at + 1 + |ls[0]|, ls[1..]);
    }
  }

  lemma SkipAtEmpty(p: seq<octet>, len: nat, at: nat)
    requires Holds(p, at, WithLength([])) && at < len < |p|
    ensures SkipFrom(p, len, at) == at + 1
  {
    assert p[at] == p[at..at + 1][0];
  }

  /** With an empty label among them, the skip stops short. */
  lemma {:induction false} SkipStopsShort(p: seq<octet>, len: nat, at: nat, ls: seq<Label>)
    requires ShortLabels(ls) && !NoEmptyLabel(ls) && HoldsName(p, at, ls)
    requires at + WireSize(ls) <= len < |p|
    ensures SkipFrom(p, len, at) < at + WireSize(ls)
    decreases |ls|
  {
    hide WalkFrom, SkipFrom, WithLength, Holds;
    if ls[0] == [] {
      SkipAtEmpty(p, len, at);
    } else {
      WalkLabel(p, len, {}, at, ls[0]);
      SkipStopsShort(p, len, at + 1 + |ls[0]|, ls[1..]);
    }
  }

  // ---------- Compression ----------

  /** Labels, and a pointer behind them. */
  ghost predicate HoldsPointer(p: seq<octet>, at: nat, ls: seq<Label>, target: nat)
    decreases |ls|
  {
    if ls == [] then at + 1 < |p| && p[at] as int * 0x100 + p[at + 1] == 0xC000 + target && target < 0x4000
    else Holds(p, at, WithLength(ls[0])) && HoldsPointer(p, at + 1 + |ls[0]|, ls[1..], target)
  }

  function LabelsSize(ls: seq<Label>): nat {
    if ls == [] then 0 else 1 + |ls[0]| + LabelsSize(ls[1..])
  }

  /** The labels in front of what a walk reads. */
  function Behind(ls: seq<Label>, w: Walk): Walk {
    if w.Name? then Name(ls + w.labels) else w
  }

  lemma BehindMore(l: Label, ls: seq<Label>, w: Walk)
    requires ls != [] && l == ls[0]
    ensures Behind(ls, w) == match Behind(ls[1..], w) case Name(rest) => Name([l] + rest) case other => other
  {
    if w.Name? {
      assert [l] + (ls[1..] + w.labels) == ls + w.labels;
    }
  }

  lemma PointerAlone(p: seq<octet>, len: nat, followed: set<nat>, at: nat, target: nat)
    requires at < len < |p| && target < 0x4000 && at !in followed
    requires at + 1 < |p| && p[at] as int * 0x100 + p[at + 1] == 0xC000 + target
    ensures WalkFrom(p, len, followed, at) == Behind([], WalkFrom(p, len, followed + {at}, target))
    ensures SkipFrom(p, len, at) == at + 2
  {
    PointerIs(p, at, target);
    OneLess(len, followed, at);
    var w := WalkFrom(p, len, followed + {at}, target);
    assert w.Name? ==> [] + w.labels == w.labels;
  }

  /** Section 4.1.4 of RFC 1035: a pointer stands for the name it points to, and the skip passes over its two octets. */
  lemma {:induction false} PointerStands(p: seq<octet>, len: nat, followed: set<nat>, at: nat, ls: seq<Label>, target: nat)
    requires ShortLabels(ls) && NoEmptyLabel(ls) && HoldsPointer(p, at, ls, target)
    requires at + LabelsSize(ls) < len < |p| && at + LabelsSize(ls) !in followed
    ensures WalkFrom(p, len, followed, at) == Behind(ls, WalkFrom(p, len, followed + {at + LabelsSize(ls)}, target))
    ensures SkipFrom(p, len, at) == at + LabelsSize(ls) + 2
    decreases |ls|
  {
    hide WalkFrom, SkipFrom, WithLength, Holds, Behind;
    if ls == [] {
      PointerAlone(p, len, followed, at, target);
    } else {
      PointerStands(p, len, followed, at + 1 + |ls[0]|, ls[1..], target);
      WalkLabel(p, len, followed, at, ls[0]);
      BehindMore(ls[0], ls, WalkFrom(p, len, followed + {at + LabelsSize(ls)}, target));
    }
  }

  /** n has a run of more than 63 octets without a dot. */
  predicate HasLongLabel(n: seq<octet>) {
    exists i :: 0 <= i <= |n| - 64 && LongAt(n, i)
  }

  predicate LongAt(n: seq<octet>, i: nat)
    requires i + 64 <= |n|
  {
    DOT !in n[i..i + 64]
  }

  /** l is what follows the last dot of n. */
  predicate EndsIn(n: seq<octet>, l: Label) {
    |l| <= |n| && l == n[|n| - |l|..] && DOT !in l && (|l| < |n| ==> n[|n| - |l| - 1] == DOT)
  }

  lemma EndsInMore(m: seq<octet>, l: Label, c: octet)
    requires EndsIn(m, l)
    ensures EndsIn(m + [c], if c == DOT then [] else l + [c])
  {
    var n := m + [c];
    if c == DOT {
      assert n[|n|..] == [] && n[|n| - 1] == DOT;
    } else {
      assert n[|n| - |l| - 1..] == m[|m| - |l|..] + [c];
      assert |l| < |m| ==> n[|m| - |l| - 1] == m[|m| - |l| - 1];
    }
  }

  lemma {:induction false} LastPartIs(n: seq<octet>)
    ensures EndsIn(n, Split(n).last)
  {
    if n != [] {
      hide Split, EndsIn;
      var m, c := n[..|n| - 1], n[|n| - 1];
      assert n == m + [c];
      LastPartIs(m);
      SplitSnoc(m, c);
      EndsInMore(m, Split(m).last, c);
    }
  }

  /** The builder takes a name iff it has no label of more than 63 octets. */
  lemma {:induction false} LabelsFitIff(n: seq<octet>)
    ensures ShortParts(Split(n)) <==> !HasLongLabel(n)
  {
    if n != [] {
      hide Split, HasLongLabel, ShortParts;
      var m, c := n[..|n| - 1], n[|n| - 1];
      LabelsFitIff(m);
      assert n == m + [c];
      SplitSnoc(m, c);
      LastPartIs(n);
      LongSnoc(m, c);
      LongAtEnd(n, Split(n).last);
      PartsSnoc(Split(m), c);
    } else {
      SplitNothing();
    }
  }

  /** One more octet is too much only where it makes the last label too long. */
  lemma PartsSnoc(s: Parts, c: octet)
    ensures ShortParts(Append(s, c)) <==> ShortParts(s) && |Append(s, c).last| <= LABEL_LENGTH
  {
    ShortSnoc(s.ended, s.last);
  }

  lemma ShortSnoc(ls: seq<Label>, l: Label)
    ensures ShortLabels(ls + [l]) <==> ShortLabels(ls) && |l| <= LABEL_LENGTH
  {
    assert forall i :: 0 <= i < |ls| ==> (ls + [l])[i] == ls[i];
    assert (ls + [l])[|ls|] == l;
  }

  /** A run in n is one of m, or the last of n. */
  lemma LongSnoc(m: seq<octet>, c: octet)
    ensures HasLongLabel(m + [c]) <==> HasLongLabel(m) || (|m| >= 63 && LongAt(m + [c], |m| - 63))
  {
    var n := m + [c];
    forall i | 0 <= i <= |m| - 64 ensures LongAt(n, i) <==> LongAt(m, i) {
      assert n[i..i + 64] == m[i..i + 64];
    }
    if HasLongLabel(m) {
      var i :| 0 <= i <= |m| - 64 && LongAt(m, i);
      assert LongAt(n, i);
    }
  }

  /** The last 64 octets are without a dot iff the last label has them all. */
  lemma LongAtEnd(n: seq<octet>, l: Label)
    requires EndsIn(n, l)
    ensures |n| >= 64 && LongAt(n, |n| - 64) <==> |l| >= 64
  {
    if 64 <= |l| {
      assert n[|n| - 64..|n|] == l[|l| - 64..];
    } else if |n| >= 64 {
      assert n[|n| - 64..|n|][63 - |l|] == DOT;
    }
  }

  /** The dotted text of the labels of a name is the name. */
  lemma {:induction false} DottedSplit(n: seq<octet>)
    requires 0 !in n
    ensures Dotted(Split(n).ended) + Split(n).last == n && 0 !in Split(n).last
  {
    if n != [] {
      var m, c := n[..|n| - 1], n[|n| - 1];
      var s := Split(m);
      assert n == m + [c];
      DottedSplit(m);
      if c == DOT {
        PiecesSnoc(WithDot, s.ended, s.last);
        Assoc(Dotted(s.ended), s.last, [DOT]);
        assert Dotted(s.ended + [s.last]) + [] == Dotted(s.ended + [s.last]);
      } else {
        Assoc(Dotted(s.ended), s.last, [c]);
      }
    }
  }

  lemma TextOfName(n: seq<octet>)
    requires 0 !in n
    ensures Text(NameLabels(n)) == FullText(n)
  {
    var s := Split(n);
    DottedSplit(n);
    LastPart(n);
    if NeedRoot(n) {
      PiecesSnoc(WithDot, s.ended, s.last);
      Assoc(Dotted(s.ended), s.last, [DOT]);
    } else {
      assert Dotted(s.ended) + [] == Dotted(s.ended);
      assert s.ended == [] <==> n == [] by { DottedHasLength(s.ended); }
    }
  }

  lemma NameLabelsShort(n: seq<octet>)
    requires ShortParts(Split(n))
    ensures ShortLabels(NameLabels(n))
  {
  }

  lemma SameText(n: seq<octet>)
    requires 0 !in n
    ensures Text(UpToEmpty(NameLabels(n))) == FullText(n) <==> NoEmptyLabel(NameLabels(n)) || n == [DOT]
  {
    var ls := NameLabels(n);
    TextOfName(n);
    NoneIsEmpty(ls);
    DottedHasLength(ls);
    DottedHasLength(UpToEmpty(ls));
    if n == [DOT] {
      assert [DOT][..0] == [];
      assert Split([DOT]) == Append(Split([]), DOT) == Parts([[]], []);
    } else if !NoEmptyLabel(ls) && Text(UpToEmpty(ls)) == FullText(n) {
      OneEmptyLabel(n);
      assert false;
    }
  }

  /** The only name whose text is as short as that of the root. */
  lemma OneEmptyLabel(n: seq<octet>)
    requires 0 !in n && NameLabels(n) != [] && |FullText(n)| == 1
    ensures n == [DOT]
  {
    assert n == [] ==> NameLabels(n) == [];
  }

  /**
   What the readers make of the question of a name: they give the dotted name back
   iff no label is empty, or the name is the root's dot, and the skip lands right
   behind the name iff no label is empty.
   */
  lemma QuestionReads(p: seq<octet>, len: nat, n: seq<octet>)
    requires 0 !in n && ShortParts(Split(n))
    requires Holds(p, HEADER, WireName(n)) && HEADER + |WireName(n)| <= len < |p|
    ensures WalkFrom(p, len, {}, HEADER) == Name(UpToEmpty(NameLabels(n)))
    ensures Text(UpToEmpty(NameLabels(n))) == FullText(n) <==> NoEmptyLabel(NameLabels(n)) || n == [DOT]
    ensures SkipFrom(p, len, HEADER) == HEADER + |WireName(n)| <==> NoEmptyLabel(NameLabels(n))
  {
    RootLabel(n);
    SameText(n);
    NameLabelsShort(n);
    HoldsWire(p, HEADER, NameLabels(n));
    var ls := NameLabels(n);
    WalkLabels(p, len, {}, HEADER, ls);
    if NoEmptyLabel(ls) {
      SkipLabels(p, len, HEADER, ls);
    } else {
      SkipStopsShort(p, len, HEADER, ls);
    }
  }

  const TWO_DOTS: seq<octet> := [0x61, DOT, DOT, 0x62]

  lemma SplitTwoDots()
    ensures Split(TWO_DOTS) == Parts([[0x61], []], [0x62])
  {
    hide Split;
    assert Split([]) == Parts([], []) by { SplitNothing(); }
    SplitSnoc([], 0x61);
    SplitSnoc([0x61], DOT);
    SplitSnoc([0x61, DOT], DOT);
    SplitSnoc([0x61, DOT, DOT], 0x62);
    assert [] + [0x61] == [0x61] && [0x61] + [DOT] == [0x61, DOT];
    assert [0x61, DOT] + [DOT] == [0x61, DOT, DOT] && [0x61, DOT, DOT] + [0x62] == TWO_DOTS;
  }

  lemma SplitNothing()
    ensures Split([]) == Parts([], [])
  {
  }

  lemma StopsAtEmpty(a: Label, rest: seq<Label>)
    requires a != [] && rest != [] && rest[0] == []
    ensures UpToEmpty([a] + rest) == [a]
  {
    assert ([a] + rest)[1..] == rest;
  }

  lemma TextOfOne(a: Label)
    requires 0 !in a
    ensures Text([a]) == a + [DOT]
  {
    hide Padded;
    PiecesSnoc(WithDot, [], a);
    assert [] + [a] == [a];
    assert Padded(a) == a;
    assert Pieces(WithDot, []) == [];
  }

  /** a..b reads as a. */
  lemma EmptyLabelEndsName()
    ensures ShortParts(Split(TWO_DOTS)) && !NoEmptyLabel(NameLabels(TWO_DOTS))
    ensures Text(UpToEmpty(NameLabels(TWO_DOTS))) == [0x61, DOT]
  {
    hide Split, Text;
    SplitTwoDots();
    var a: Label, b: Label := [0x61], [0x62];
    var ls: seq<Label> := [a, [], b];
    assert [a, []] + [b] == ls;
    assert NameLabels(TWO_DOTS) == ls && ls[1] == [];
    assert ls == [a] + [[], b];
    StopsAtEmpty(a, [[], b]);
    TextOfOne(a);
    assert a + [DOT] == [0x61, DOT];
  }

  // ---------- The code ----------

  const OP_MASK: bv16 := 0x7800
  const BITS_RD: bv16 := 0x0100
  const CLASS_IN: octet := 1

  datatype BuildError = NameLength | LabelLength

  datatype Built = Ok | Failed(error: BuildError)

  class Dns {
    const packet: Packet
    var counter: nat

    constructor (counter: nat)
      requires counter < 0x1_0000
      ensures Valid() && this.counter == counter && fresh(packet) && fresh(packet.buf)
    {
      this.counter := counter;
      packet := new Packet();
    }

    ghost predicate Valid()
      reads this, packet
    {
      packet.Valid() && counter < 0x1_0000
    }

    ghost predicate HeaderKept(was: seq<octet>)
      reads packet.buf
    {
      |was| == packet.buf.Length && forall i :: 0 <= i < HEADER && i < |was| ==> packet.buf[i] == was[i]
    }

    method PutShort(at: nat, value: nat)
      requires Valid() && at + 1 < packet.buf.Length && value < 0x1_0000
      modifies packet.buf
      ensures packet.buf[at] == value / 0x100 && packet.buf[at + 1] == value % 0x100
      ensures forall i :: 0 <= i < packet.buf.Length && i != at && i != at + 1 ==> packet.buf[i] == old(packet.buf[i])
    {
      packet.buf[at] := value / 0x100;
      packet.buf[at + 1] := value % 0x100;
    }

    method PutHeader(opcode: bv16)
      requires Valid()
      modifies packet.buf
      ensures packet.buf[0] == counter / 0x100 && packet.buf[1] == counter % 0x100
      ensures (packet.buf[2] as int) * 0x100 + packet.buf[3] == ((opcode & 0x7800) | 0x0100) as nat
      ensures packet.buf[4..12] == [0, 1, 0, 0, 0, 0, 0, 0]
    {
      PutShort(0, counter);
      PutShort(2, ((opcode & OP_MASK) | BITS_RD) as nat);
      PutShort(4, 1);
      PutShort(6, 0);
      PutShort(8, 0);
      PutShort(10, 0);
    }

    method BuildQuery(name: seq<octet>, qtype: nat, opcode: bv16) returns (r: Built)
      requires Valid() && 0 !in name
      modifies this, packet, packet.buf
      ensures Valid()
      ensures r == if |name| > DOMAIN_LENGTH then Failed(NameLength)
                   else if !ShortParts(Split(name)) then Failed(LabelLength) else Ok
      ensures r == Ok ==>
        && Holds(packet.buf[..], HEADER, WireName(name) + [0, qtype % 0x100, 0, CLASS_IN])
        && packet.length == HEADER + |WireName(name)| + 4
        && counter == (old(counter) + 1) % 0x1_0000
        && packet.buf[0] == counter / 0x100 && packet.buf[1] == counter % 0x100
        && (packet.buf[2] as int) * 0x100 + packet.buf[3] == ((opcode & 0x7800) | 0x0100) as nat
        && packet.buf[4..12] == [0, 1, 0, 0, 0, 0, 0, 0]
    {
      var buf := packet.buf;
      var needRoot := 0 < |name| && name[|name| - 1] != DOT;
      if DOMAIN_LENGTH < |name| {
        return Failed(NameLength);
      }
      packet.length := HEADER + 1 + |name| + (if needRoot then 1 else 0) + 4;
      counter := (counter + 1) % 0x1_0000;
      PutHeader(opcode);
      var ok, end := PutLabels(name);
      if !ok {
        return Failed(LabelLength);
      }
      WireLength(name);
      PutTrailer(name, end, needRoot, qtype);
      assert packet.buf[4..12] == [0, 1, 0, 0, 0, 0, 0, 0];
      return Ok;
    }

    /** The root label, if it is still missing, and the type and class. */
    method PutTrailer(name: seq<octet>, end: nat, needRoot: bool, qtype: nat)
      requires Valid() && end == HEADER + |WireLabels(Split(name))| && end + 5 <= packet.buf.Length
      requires needRoot == NeedRoot(name) && packet.buf[HEADER..end] == WireLabels(Split(name))
      modifies packet.buf
      ensures Holds(packet.buf[..], HEADER, WireName(name) + [0, qtype % 0x100, 0, CLASS_IN])
      ensures HeaderKept(old(packet.buf[..]))
    {
      var next := end;
      if needRoot {
        packet.buf[next] := 0;
        next := next + 1;
      }
      assert packet.buf[HEADER..next] == WireName(name);
      PutField(next, qtype, WireName(name));
    }

    method PutField(next: nat, qtype: nat, ghost wire: seq<octet>)
      requires Valid() && HEADER <= next && next + 4 <= packet.buf.Length && packet.buf[HEADER..next] == wire
      modifies packet.buf
      ensures Holds(packet.buf[..], HEADER, wire + [0, qtype % 0x100, 0, CLASS_IN])
      ensures HeaderKept(old(packet.buf[..]))
    {
      var buf := packet.buf;
      buf[next] := 0;
      buf[next + 1] := qtype % 0x100;
      buf[next + 2] := 0;
      buf[next + 3] := CLASS_IN;
      assert buf[HEADER..next] == wire;
      assert buf[next..next + 4] == [0, qtype % 0x100, 0, CLASS_IN];
      assert buf[..][HEADER..next + 4] == buf[HEADER..next] + buf[next..next + 4];
    }

    /**
     s characters of the name are in the packet: the ended labels with their
     lengths, and from lab on a free octet and the label that is being filled.
     */
    ghost predicate Filled(parts: Parts, s: nat, lab: nat)
      reads this, packet, packet.buf
    {
      && Valid() && s <= DOMAIN_LENGTH && HEADER <= lab && lab + |parts.last| == HEADER + s
      && packet.buf[HEADER..lab] == Pieces(WithLength, parts.ended)
      && packet.buf[lab + 1..HEADER + 1 + s] == parts.last
    }

    /** Every label behind the octet that holds its length; end is one past the last. */
    method PutLabels(name: seq<octet>) returns (ok: bool, end: nat)
      requires Valid() && |name| <= DOMAIN_LENGTH
      modifies packet.buf
      ensures ok <==> ShortParts(Split(name))
      ensures ok ==> end == HEADER + |name| + 1 && packet.buf[HEADER..end] == WireLabels(Split(name))
      ensures HeaderKept(old(packet.buf[..]))
    {
      var lab: nat, s: nat := HEADER, 0;
      ghost var parts := Parts([], []);
      assert name[..0] == [];
      while s < |name|
        invariant s <= |name| && parts == Split(name[..s]) && ShortLabels(parts.ended)
        invariant Filled(parts, s, lab)
        invariant HeaderKept(old(packet.buf[..]))
      {
        SplitNext(name, s);
        lab, ok := PutNext(parts, s, lab, name[s]);
        parts := Append(parts, name[s]);
        s := s + 1;
        if !ok {
          LongLabelStays(name, s);
          return false, lab;
        }
      }
      assert name[..s] == name;
      if LABEL_LENGTH < HEADER + s - lab {
        return false, lab;
      }
      PutLength(parts, s, lab);
      return true, HEADER + 1 + s;
    }

    /** One character of the name; ok says that the label it ends, if it ends one, is short. */
    method PutNext(ghost parts: Parts, s: nat, lab: nat, c: octet) returns (next: nat, ok: bool)
      requires Filled(parts, s, lab) && ShortLabels(parts.ended) && s < DOMAIN_LENGTH
      modifies packet.buf
      ensures ok <==> ShortLabels(Append(parts, c).ended)
      ensures ok ==> Filled(Append(parts, c), s + 1, next)
      ensures HeaderKept(old(packet.buf[..]))
    {
      next := lab;
      if c == DOT {
        assert Append(parts, DOT).ended[|parts.ended|] == parts.last;
        if LABEL_LENGTH < HEADER + s - lab {
          return next, false;
        }
        EndLabel(parts, s, lab);
        next := HEADER + 1 + s;
      } else {
        PutOctet(parts, s, lab, c);
      }
      ok := true;
    }

    method EndLabel(ghost parts: Parts, s: nat, lab: nat)
      requires Filled(parts, s, lab) && |parts.last| <= LABEL_LENGTH && s < DOMAIN_LENGTH
      modifies packet.buf
      ensures Filled(Append(parts, DOT), s + 1, HEADER + 1 + s)
      ensures HeaderKept(old(packet.buf[..]))
    {
      PutLength(parts, s, lab);
      PiecesSnoc(WithLength, parts.ended, parts.last);
    }

    method PutOctet(ghost parts: Parts, s: nat, lab: nat, c: octet)
      requires Filled(parts, s, lab) && c != DOT && s < DOMAIN_LENGTH
      modifies packet.buf
      ensures Filled(Append(parts, c), s + 1, lab)
      ensures HeaderKept(old(packet.buf[..]))
    {
      ghost var done, label' := packet.buf[HEADER..lab], packet.buf[lab + 1..HEADER + 1 + s];
      packet.buf[HEADER + 1 + s] := c;
      assert packet.buf[HEADER..lab] == done;
      assert packet.buf[lab + 1..HEADER + 2 + s] == label' + [c];
    }

    /** A finished label gets its length. */
    method PutLength(ghost parts: Parts, s: nat, lab: nat)
      requires Filled(parts, s, lab) && |parts.last| <= LABEL_LENGTH
      modifies packet.buf
      ensures packet.buf[HEADER..HEADER + 1 + s] == WireLabels(parts)
      ensures HeaderKept(old(packet.buf[..]))
    {
      ghost var done, label' := packet.buf[HEADER..lab], packet.buf[lab + 1..HEADER + 1 + s];
      packet.buf[lab] := HEADER + s - lab;
      assert packet.buf[HEADER..HEADER + 1 + s] == done + ([packet.buf[lab]] + label');
    }
  }

  /**
   A question that was built, read again: the name comes back with its trailing dot
   and the next field is the type iff no label is empty and the text is not too long.
   */
  method BuildAndGet(dns: Dns, name: seq<octet>, qtype: nat, opcode: bv16)
    returns (built: Built, r: NameText, stop: nat)
    requires dns.Valid() && 0 !in name
    modifies dns, dns.packet, dns.packet.buf
    ensures built == if |name| > DOMAIN_LENGTH then Failed(NameLength)
                     else if !ShortParts(Split(name)) then Failed(LabelLength) else Ok
    ensures built == Ok ==>
      var text := Text(UpToEmpty(NameLabels(name)));
      r == if |text| <= DOMAIN_LENGTH then SomeName(text) else NoName
    ensures built == Ok ==>
      (r == SomeName(FullText(name))
       <==> |FullText(name)| <= DOMAIN_LENGTH && (NoEmptyLabel(NameLabels(name)) || name == [DOT]))
    ensures built == Ok && r.SomeName? ==>
      (stop == HEADER + |WireName(name)| <==> NoEmptyLabel(NameLabels(name)))
  {
    r, stop := NoName, 0;
    built := dns.BuildQuery(name, qtype, opcode);
    if built != Ok {
      return;
    }
    ghost var p := dns.packet.buf[..];
    HoldsParts(p, HEADER, WireName(name), [0, qtype % 0x100, 0, CLASS_IN]);
    QuestionReads(p, dns.packet.length, name);
    NotLonger(name);
    r, stop := dns.packet.NameGet(HEADER);
  }

  lemma NotLonger(n: seq<octet>)
    requires 0 !in n
    ensures |Text(UpToEmpty(NameLabels(n)))| <= |FullText(n)|
  {
    TextOfName(n);
    NoneIsEmpty(NameLabels(n));
    DottedHasLength(NameLabels(n));
    DottedHasLength(UpToEmpty(NameLabels(n)));
  }

  /** A label that a dot has ended is a label of the whole name. */
  lemma LongLabelStays(n: seq<octet>, s: nat)
    requires s <= |n| && !ShortLabels(Split(n[..s]).ended)
    ensures !ShortLabels(Split(n).ended)
    decreases |n|
  {
    if s < |n| {
      var m := n[..|n| - 1];
      assert m[..s] == n[..s];
      LongLabelStays(m, s);
      EndedGrows(Split(m), n[|n| - 1]);
    } else {
      assert n[..s] == n;
    }
  }

  lemma EndedGrows(s: Parts, c: octet)
    requires !ShortLabels(s.ended)
    ensures !ShortLabels(Append(s, c).ended)
  {
    var i :| 0 <= i < |s.ended| && |s.ended[i]| > LABEL_LENGTH;
    assert Append(s, c).ended[i] == s.ended[i];
  }
}
