/**
 The message loop of smtpSendString (mail/smtp.c): the transparency procedure of
 section 4.5.2 of RFC 5321, against receivers that undo it. One ends lines at any LF;
 one at CRLF alone, as section 4.1.1.4 of that RFC demands.
 */
module SmtpSend {
  import opened Octets

  const DOT: octet := 0x2E

  const END_OF_DATA: seq<octet> := [DOT, CR, LF]

  /** The length of the first line of s, its LF included. */
  function LineSpan(s: seq<octet>): (n: nat)
    ensures n <= |s| && (s != [] ==> n > 0)
    ensures forall i :: 0 <= i < n - 1 ==> s[i] != LF
    ensures n < |s| ==> s[n - 1] == LF
  {
    if s == [] then 0 else if s[0] == LF then 1 else 1 + LineSpan(s[1..])
  }

  function StuffLine(line: seq<octet>): seq<octet> {
    (if line != [] && line[0] == DOT then [DOT] else []) + line
  }

  function Stuff(s: seq<octet>): seq<octet>
    decreases |s|
  {
    if s == [] then []
    else StuffLine(s[..LineSpan(s)]) + Stuff(s[LineSpan(s)..])
  }

  /** The message as it must arrive: its last line ends in a newline. */
  function Completed(s: seq<octet>): seq<octet> {
    if s == [] || EndsWith(s, LF) then s else s + CRLF
  }

  // ---------- A receiver that ends lines at any LF ----------

  datatype Received = Incomplete | Message(text: seq<octet>, rest: seq<octet>)

  predicate IsEnd(line: seq<octet>) {
    line == END_OF_DATA || line == [DOT, LF]
  }

  function UnstuffLine(line: seq<octet>): seq<octet> {
    if line != [] && line[0] == DOT then line[1..] else line
  }

  /** Reads lines until the first that is a lone dot; takes one leading dot off the others. */
  function Receive(s: seq<octet>): Received
    decreases |s|
  {
    var n := LineSpan(s);
    if n == 0 || s[n - 1] != LF then Incomplete
    else if IsEnd(s[..n]) then Message([], s[n..])
    else match Receive(s[n..])
      case Incomplete => Incomplete
      case Message(text, rest) => Message(UnstuffLine(s[..n]) + text, rest)
  }

  predicate IsLine(l: seq<octet>) {
    EndsWith(l, LF) && forall i :: 0 <= i < |l| - 1 ==> l[i] != LF
  }

  lemma LineSpanOf(l: seq<octet>, after: seq<octet>)
    requires IsLine(l)
    ensures LineSpan(l + after) == |l|
  {
    if |l| > 1 {
      assert l[1..] + after == (l + after)[1..];
      LineSpanOf(l[1..], after);
    }
  }

  /** A stuffed line is one line, is never taken for the end, and unstuffs to itself. */
  lemma StuffedLine(l: seq<octet>)
    requires IsLine(l)
    ensures IsLine(StuffLine(l)) && !IsEnd(StuffLine(l)) && UnstuffLine(StuffLine(l)) == l
  {
    if l[0] == DOT {
      assert StuffLine(l)[1..] == l;
      assert StuffLine(l)[1] == DOT;
    } else {
      assert END_OF_DATA[0] == DOT && StuffLine(l)[0] != DOT;
    }
  }

  lemma ReceiveLine(l: seq<octet>, after: seq<octet>)
    requires IsLine(l)
    ensures Receive(StuffLine(l) + after)
      == match Receive(after)
         case Incomplete => Incomplete
         case Message(text, rest) => Message(l + text, rest)
  {
    var s := StuffLine(l);
    StuffedLine(l);
    LineSpanOf(s, after);
    assert (s + after)[..|s|] == s && (s + after)[|s|..] == after;
  }

  lemma ReceiveEnd(after: seq<octet>)
    ensures Receive(END_OF_DATA + after) == Message([], after)
  {
    LineSpanOf(END_OF_DATA, after);
    assert (END_OF_DATA + after)[..3] == END_OF_DATA;
    assert (END_OF_DATA + after)[3..] == after;
  }

  /** What the loop and the two lines after it put on the wire. */
  function Wire(s: seq<octet>): seq<octet> {
    Stuff(s) + (if s == [] || EndsWith(s, LF) then [] else CRLF) + END_OF_DATA
  }

  lemma WireLine(s: seq<octet>)
    requires s != [] && s[LineSpan(s) - 1] == LF
    ensures Wire(s) == StuffLine(s[..LineSpan(s)]) + Wire(s[LineSpan(s)..])
  {
    var n := LineSpan(s);
    var a, b := StuffLine(s[..n]), Stuff(s[n..]);
    var e := if s == [] || EndsWith(s, LF) then [] else CRLF;
    Assoc(a, b, e);
    Assoc(a, b + e, END_OF_DATA);
  }

  lemma WireLastLine(s: seq<octet>)
    requires s != [] && s[LineSpan(s) - 1] != LF
    ensures Wire(s) == StuffLine(s + CRLF) + END_OF_DATA
    ensures IsLine(s + CRLF) && Completed(s) == s + CRLF
  {
    hide StuffLine, Stuff;
    StuffLast(s);
    StuffedCrlf(s);
    LastLineIsLine(s);
  }

  lemma StuffLast(s: seq<octet>)
    requires s != [] && s[LineSpan(s) - 1] != LF
    ensures Stuff(s) == StuffLine(s) && !EndsWith(s, LF)
  {
    var n := LineSpan(s);
    assert s[..n] == s && s[n..] == [];
    assert StuffLine(s) + [] == StuffLine(s);
  }

  lemma StuffedCrlf(s: seq<octet>)
    requires s != []
    ensures StuffLine(s) + CRLF == StuffLine(s + CRLF)
  {
    assert (s + CRLF)[0] == s[0];
    Assoc([DOT], s, CRLF);
  }

  lemma LastLineIsLine(s: seq<octet>)
    requires s != [] && s[LineSpan(s) - 1] != LF
    ensures IsLine(s + CRLF)
  {
  }

  /**
   That receiver gets every message back, a newline added if it lacked a final one,
   and stops exactly at the end of what was sent: no earlier line is a lone dot.
   */
  lemma {:induction false} ReceiveWire(s: seq<octet>, after: seq<octet>)
    ensures Receive(Wire(s) + after) == Message(Completed(s), after)
    decreases |s|
  {
    var n := LineSpan(s);
    if s == [] {
      assert Wire(s) == END_OF_DATA;
      ReceiveEnd(after);
    } else if s[n - 1] == LF {
      WireLine(s);
      Assoc(StuffLine(s[..n]), Wire(s[n..]), after);
      ReceiveLine(s[..n], Wire(s[n..]) + after);
      ReceiveWire(s[n..], after);
      CompletedFront(s, n);
    } else {
      WireLastLine(s);
      Assoc(StuffLine(s + CRLF), END_OF_DATA, after);
      ReceiveLine(s + CRLF, END_OF_DATA + after);
      ReceiveEnd(after);
    }
  }

  lemma CompletedFront(s: seq<octet>, n: nat)
    requires 0 < n <= |s| && s[n - 1] == LF
    ensures s[..n] + Completed(s[n..]) == Completed(s)
  {
    assert s[..n] + s[n..] == s;
    assert s[..n] + (s[n..] + CRLF) == s + CRLF;
  }

  // ---------- A receiver that ends lines at CRLF ----------

  predicate CrlfAt(s: seq<octet>, i: nat) {
    i + 1 < |s| && s[i] == CR && s[i + 1] == LF
  }

  /** The length of the first line of s, its CRLF included. */
  function CrlfSpan(s: seq<octet>): (n: nat)
    ensures n <= |s| && (s != [] ==> n > 0)
    ensures forall i: nat :: i + 2 < n ==> !CrlfAt(s, i)
    ensures n < |s| ==> 2 <= n && CrlfAt(s, n - 2)
  {
    if s == [] then 0
    else if CrlfAt(s, 0) then 2
    else
      assert forall i: nat :: CrlfAt(s, i + 1) == CrlfAt(s[1..], i);
      assert forall i: nat :: 0 < i ==> CrlfAt(s, i) == CrlfAt(s[1..], i - 1);
      1 + CrlfSpan(s[1..])
  }

  /** A CRLF at the end and none before it. */
  predicate IsCrlfLine(l: seq<octet>) {
    2 <= |l| && CrlfAt(l, |l| - 2) && forall i: nat :: i + 2 < |l| ==> !CrlfAt(l, i)
  }

  /** Reads lines until the first that is a lone dot; takes one leading dot off the others. */
  function ReceiveCrlf(s: seq<octet>): (r: Received)
    ensures r.Message? ==> |r.rest| < |s|
    decreases |s|
  {
    var n := CrlfSpan(s);
    if !IsCrlfLine(s[..n]) then Incomplete
    else if s[..n] == END_OF_DATA then Message([], s[n..])
    else match ReceiveCrlf(s[n..])
      case Incomplete => Incomplete
      case Message(text, rest) => Message(UnstuffLine(s[..n]) + text, rest)
  }

  /** An LF without a CR before it. */
  predicate BareLf(s: seq<octet>, i: nat) {
    i < |s| && s[i] == LF && (i == 0 || s[i - 1] != CR)
  }

  /** No such LF ends the message or stands in front of a dot. */
  predicate CrlfSafe(s: seq<octet>) {
    forall i: nat :: i < |s| && BareLf(s, i) ==> i + 1 < |s| && s[i + 1] != DOT
  }

  lemma CrlfSpanOf(l: seq<octet>, after: seq<octet>)
    requires IsCrlfLine(l)
    ensures CrlfSpan(l + after) == |l|
  {
    var s := l + after;
    assert CrlfAt(s, |l| - 2);
    assert forall i: nat :: i + 1 < |l| ==> (CrlfAt(s, i) <==> CrlfAt(l, i));
  }

  lemma ReceiveCrlfLine(l: seq<octet>, after: seq<octet>)
    requires IsCrlfLine(l) && l != END_OF_DATA
    ensures ReceiveCrlf(l + after)
      == match ReceiveCrlf(after)
         case Incomplete => Incomplete
         case Message(text, rest) => Message(UnstuffLine(l) + text, rest)
  {
    CrlfSpanOf(l, after);
    assert (l + after)[..|l|] == l && (l + after)[|l|..] == after;
  }

  lemma ReceiveCrlfEnd(after: seq<octet>)
    ensures ReceiveCrlf(END_OF_DATA + after) == Message([], after)
  {
    assert IsCrlfLine(END_OF_DATA);
    CrlfSpanOf(END_OF_DATA, after);
    assert (END_OF_DATA + after)[..3] == END_OF_DATA;
    assert (END_OF_DATA + after)[3..] == after;
  }

  // ---------- What stuffing does to a line that ends in CRLF ----------

  lemma {:induction false} StuffSplit(a: seq<octet>, b: seq<octet>)
    requires a == [] || EndsWith(a, LF)
    ensures Stuff(a + b) == Stuff(a) + Stuff(b)
    decreases |a|
  {
    if a == [] {
      assert a + b == b;
    } else {
      var n := LineSpan(a);
      assert a == a[..n] + a[n..];
      Assoc(a[..n], a[n..], b);
      LineSpanOf(a[..n], a[n..] + b);
      assert (a + b)[..n] == a[..n] && (a + b)[n..] == a[n..] + b;
      StuffSplit(a[n..], b);
      Assoc(StuffLine(a[..n]), Stuff(a[n..]), Stuff(b));
    }
  }

  lemma StuffOneLine(s: seq<octet>)
    requires s != [] && LineSpan(s) == |s|
    ensures Stuff(s) == StuffLine(s)
  {
    assert s[..|s|] == s && s[|s|..] == [];
    assert StuffLine(s) + [] == StuffLine(s);
  }

  /** A last line without its newline is stuffed as with it. */
  lemma {:induction false} StuffUnended(s: seq<octet>, newline: seq<octet>)
    requires s != [] && !EndsWith(s, LF) && newline in [[LF], CRLF]
    ensures Stuff(s + newline) == Stuff(s) + newline
    decreases |s|
  {
    var n := LineSpan(s);
    var t := s + newline;
    if n < |s| {
      assert IsLine(s[..n]);
      assert s == s[..n] + s[n..];
      Assoc(s[..n], s[n..], newline);
      LineSpanOf(s[..n], s[n..] + newline);
      assert t[..n] == s[..n] && t[n..] == s[n..] + newline;
      StuffUnended(s[n..], newline);
      Assoc(StuffLine(s[..n]), Stuff(s[n..]), newline);
    } else {
      LineSpanOf(t, []);
      assert t + [] == t;
      StuffOneLine(s);
      StuffOneLine(t);
      Assoc([DOT], s, newline);
    }
  }

  ghost predicate NoCrlf(s: seq<octet>) {
    forall i: nat :: !CrlfAt(s, i)
  }

  lemma NoCrlfJoined(a: seq<octet>, b: seq<octet>)
    requires NoCrlf(a) && NoCrlf(b) && !EndsWith(a, CR)
    ensures NoCrlf(a + b)
  {
    forall i: nat ensures !CrlfAt(a + b, i) {
      assert !CrlfAt(a, i);
      assert |a| <= i ==> !CrlfAt(b, i - |a|);
    }
  }

  lemma NoCrlfSlice(s: seq<octet>, from: nat, to: nat)
    requires NoCrlf(s) && from <= to <= |s|
    ensures NoCrlf(s[from..to])
  {
    assert forall i: nat :: CrlfAt(s[from..to], i) ==> CrlfAt(s, from + i);
  }

  lemma StuffLineNoCrlf(l: seq<octet>)
    requires NoCrlf(l) && l != []
    ensures NoCrlf(StuffLine(l)) && StuffLine(l) != [] && StuffLine(l)[|StuffLine(l)| - 1] == l[|l| - 1]
  {
    NoCrlfJoined([DOT], l);
    assert [] + l == l;
  }

  lemma {:induction false} StuffNoCrlf(s: seq<octet>)
    requires NoCrlf(s)
    ensures NoCrlf(Stuff(s))
    ensures s != [] ==> Stuff(s) != [] && Stuff(s)[|Stuff(s)| - 1] == s[|s| - 1]
    decreases |s|
  {
    hide NoCrlf, StuffLine;
    if s == [] {
      NothingNoCrlf();
    } else {
      var n := LineSpan(s);
      NoCrlfSlice(s, 0, n);
      NoCrlfSlice(s, n, |s|);
      assert s[0..n] == s[..n] && s[n..|s|] == s[n..];
      StuffLineNoCrlf(s[..n]);
      if n < |s| {
        StuffNoCrlf(s[n..]);
        NoCrlfJoined(StuffLine(s[..n]), Stuff(s[n..]));
      } else {
        assert s[..n] == s;
        StuffOneLine(s);
      }
    }
  }

  lemma NothingNoCrlf()
    ensures NoCrlf(Stuff([]))
  {
  }

  lemma CrlfLineOf(m: seq<octet>)
    requires NoCrlf(m) && EndsWith(m, CR)
    ensures IsCrlfLine(m + [LF])
  {
    forall i: nat | i + 2 < |m| + 1 ensures !CrlfAt(m + [LF], i) {
      assert !CrlfAt(m, i);
    }
  }

  /** A stuffed line that ends in CRLF is one, and never the end. */
  lemma StuffedCrlfLine(l: seq<octet>)
    requires IsCrlfLine(l)
    ensures IsCrlfLine(Stuff(l)) && Stuff(l) != END_OF_DATA
  {
    var m := l[..|l| - 1];
    assert l == m + [LF];
    assert NoCrlf(m) by {
      forall i: nat ensures !CrlfAt(m, i) {
        assert CrlfAt(m, i) ==> CrlfAt(l, i);
      }
    }
    StuffNoCrlf(m);
    StuffUnended(m, [LF]);
    CrlfLineOf(Stuff(m));
    StuffStarts(l);
  }

  lemma StuffFront(l: seq<octet>)
    requires l != []
    ensures l[..LineSpan(l)] != [] && l[..LineSpan(l)][0] == l[0]
    ensures Stuff(l) == StuffLine(l[..LineSpan(l)]) + Stuff(l[LineSpan(l)..])
  {
  }

  lemma UnstuffedFront(a: seq<octet>, rest: seq<octet>)
    requires a != []
    ensures var s := StuffLine(a) + rest;
            && s != [] && UnstuffLine(s) == a + rest
            && if a[0] == DOT then 2 <= |s| && s[0] == s[1] == DOT else s[0] == a[0]
  {
    if a[0] == DOT {
      Assoc([DOT], a, rest);
      assert ([DOT] + (a + rest))[1..] == a + rest;
    } else {
      assert [] + a == a;
    }
  }

  lemma StuffStarts(l: seq<octet>)
    requires l != []
    ensures Stuff(l) != [] && (l[0] != DOT ==> Stuff(l)[0] == l[0])
    ensures l[0] == DOT ==> 2 <= |Stuff(l)| && Stuff(l)[0] == Stuff(l)[1] == DOT
    ensures UnstuffLine(Stuff(l)) == l[..LineSpan(l)] + Stuff(l[LineSpan(l)..])
  {
    hide LineSpan, Stuff, StuffLine, UnstuffLine;
    StuffFront(l);
    UnstuffedFront(l[..LineSpan(l)], Stuff(l[LineSpan(l)..]));
  }

  /** How many lines of s start with a dot. */
  function DotLines(s: seq<octet>): nat
    decreases |s|
  {
    if s == [] then 0 else (if s[0] == DOT then 1 else 0) + DotLines(s[LineSpan(s)..])
  }

  lemma StuffLineLength(l: seq<octet>)
    requires l != []
    ensures |StuffLine(l)| == |l| + if l[0] == DOT then 1 else 0
    ensures l[0] != DOT ==> StuffLine(l) == l
  {
    assert [] + l == l;
  }

  lemma {:induction false} StuffLength(s: seq<octet>)
    ensures |Stuff(s)| == |s| + DotLines(s)
    ensures DotLines(s) == 0 ==> Stuff(s) == s
    decreases |s|
  {
    hide StuffLine, LineSpan;
    if s != [] {
      var n := LineSpan(s);
      StuffLength(s[n..]);
      assert s[..n][0] == s[0];
      StuffLineLength(s[..n]);
      assert s[..n] + s[n..] == s;
    }
  }

  /** No LF stands in front of a dot. */
  predicate NoLfDot(s: seq<octet>) {
    forall i: nat :: i + 1 < |s| && s[i] == LF ==> s[i + 1] != DOT
  }

  lemma NoLfDotParts(s: seq<octet>, n: nat)
    requires 0 < n < |s| && s[n - 1] == LF && forall i :: 0 <= i < n - 1 ==> s[i] != LF
    ensures NoLfDot(s) <==> s[n] != DOT && NoLfDot(s[n..])
  {
    if NoLfDot(s) {
      forall i: nat | i + 1 < |s[n..]| && s[n..][i] == LF ensures s[n..][i + 1] != DOT {
        assert s[n + i] == LF && s[n + i + 1] != DOT;
      }
    }
    if s[n] != DOT && NoLfDot(s[n..]) {
      forall i: nat | i + 1 < |s| && s[i] == LF ensures s[i + 1] != DOT {
        assert n <= i ==> s[n..][i - n] == LF && s[n..][i - n + 1] == s[i + 1];
      }
    }
  }

  lemma {:induction false} NoDotInside(s: seq<octet>)
    requires s != []
    ensures DotLines(s[LineSpan(s)..]) == 0 <==> NoLfDot(s)
    decreases |s|
  {
    var n := LineSpan(s);
    if n < |s| {
      hide NoLfDot, LineSpan;
      NoDotInside(s[n..]);
      assert s[n..][0] == s[n];
      NoLfDotParts(s, n);
    }
  }

  lemma SafeLine(l: seq<octet>)
    requires IsCrlfLine(l)
    ensures CrlfSafe(l) <==> NoLfDot(l)
  {
    if CrlfSafe(l) {
      forall i: nat | i + 1 < |l| && l[i] == LF ensures l[i + 1] != DOT {
        assert 0 < i ==> !CrlfAt(l, i - 1);
        assert BareLf(l, i);
      }
    }
    assert CrlfAt(l, |l| - 2);
  }

  lemma NotEmpty(l: seq<octet>)
    requires IsCrlfLine(l)
    ensures l != []
  {
  }

  /** What the receiver makes of a stuffed line: no less than the line, and the line itself iff it is safe. */
  lemma UnstuffedCrlfLine(l: seq<octet>)
    requires IsCrlfLine(l)
    ensures var u := UnstuffLine(Stuff(l)); |u| >= |l| && if CrlfSafe(l) then u == l else |u| > |l|
  {
    hide Stuff, LineSpan, IsCrlfLine, CrlfSafe, NoLfDot, UnstuffLine;
    assert l != [] by { NotEmpty(l); }
    var rest := l[LineSpan(l)..];
    StuffStarts(l);
    StuffLength(rest);
    NoDotInside(l);
    SafeLine(l);
    assert l[..LineSpan(l)] + rest == l;
  }

  lemma SafeParts(l: seq<octet>, c: seq<octet>)
    requires IsCrlfLine(l)
    ensures CrlfSafe(l + c) <==> CrlfSafe(l) && CrlfSafe(c)
  {
    var s := l + c;
    assert CrlfAt(l, |l| - 2);
    assert forall i: nat :: i < |l| ==> (BareLf(s, i) <==> BareLf(l, i));
    assert forall i: nat :: BareLf(s, |l| + i) <==> BareLf(c, i);
    if CrlfSafe(s) {
      forall i: nat | BareLf(l, i) ensures i + 1 < |l| && l[i + 1] != DOT {
        assert BareLf(s, i);
      }
      forall i: nat | BareLf(c, i) ensures i + 1 < |c| && c[i + 1] != DOT {
        assert BareLf(s, |l| + i);
      }
    }
    if CrlfSafe(l) && CrlfSafe(c) {
      forall i: nat | BareLf(s, i) ensures i + 1 < |s| && s[i + 1] != DOT {
        assert i < |l| ==> BareLf(l, i);
        assert |l| <= i ==> BareLf(s, |l| + (i - |l|)) && BareLf(c, i - |l|);
      }
    }
  }

  // ---------- What the receiver makes of a message ----------

  /** c is received as it is, or the end is missed, or the text is longer than c. */
  ghost predicate ReceivedIff(c: seq<octet>, r: Received, after: seq<octet>) {
    if CrlfSafe(c) then r == Message(c, after) else r.Message? && r.rest == after ==> |r.text| > |c|
  }

  /** A message that ends in an LF without a CR runs into its end mark. */
  lemma MissesEnd(c: seq<octet>, after: seq<octet>)
    requires NoCrlf(c) && EndsWith(c, LF)
    ensures ReceivedIff(c, ReceiveCrlf(Stuff(c) + (END_OF_DATA + after)), after)
  {
    assert !CrlfAt(c, if |c| == 1 then 0 else |c| - 2);
    assert BareLf(c, |c| - 1);
    StuffNoCrlf(c);
    assert NoCrlf([DOT, CR]);
    NoCrlfJoined(Stuff(c), [DOT, CR]);
    var m := Stuff(c) + [DOT, CR];
    CrlfLineOf(m);
    assert m + [LF] + after == Stuff(c) + (END_OF_DATA + after);
    ReceiveCrlfLine(m + [LF], after);
  }

  lemma {:induction false} ReceiveCompleted(c: seq<octet>, after: seq<octet>)
    requires c == [] || EndsWith(c, LF)
    ensures ReceivedIff(c, ReceiveCrlf(Stuff(c) + (END_OF_DATA + after)), after)
    decreases |c|
  {
    hide ReceiveCrlf, Stuff;
    var n := CrlfSpan(c);
    var l, rest := c[..n], c[n..];
    assert forall i: nat :: CrlfAt(l, i) <==> i + 1 < n && CrlfAt(c, i);
    if c == [] {
      NothingSent(after);
    } else if IsCrlfLine(l) {
      ReceiveCompleted(rest, after);
      assert c == l + rest;
      StuffSplit(l, rest);
      Assoc(Stuff(l), Stuff(rest), END_OF_DATA + after);
      StuffedCrlfLine(l);
      ReceiveCrlfLine(Stuff(l), Stuff(rest) + (END_OF_DATA + after));
      UnstuffedCrlfLine(l);
      SafeParts(l, rest);
    } else {
      assert n == |c| && l == c;
      forall i: nat ensures !CrlfAt(c, i) {
        assert i + 2 < n || i + 2 == n || i + 1 >= n;
      }
      MissesEnd(c, after);
    }
  }

  lemma NothingSent(after: seq<octet>)
    ensures ReceivedIff([], ReceiveCrlf(Stuff([]) + (END_OF_DATA + after)), after)
  {
    assert Stuff([]) + (END_OF_DATA + after) == END_OF_DATA + after;
    ReceiveCrlfEnd(after);
  }

  lemma WireCompleted(s: seq<octet>)
    ensures Wire(s) == Stuff(Completed(s)) + END_OF_DATA
  {
    if s != [] && !EndsWith(s, LF) {
      StuffUnended(s, CRLF);
    } else {
      assert Stuff(s) + [] == Stuff(s);
    }
  }

  lemma SafeCompleted(s: seq<octet>)
    ensures CrlfSafe(Completed(s)) <==> CrlfSafe(s)
  {
    var c := Completed(s);
    if c != s {
      assert forall i: nat :: i < |s| ==> (BareLf(c, i) <==> BareLf(s, i));
      if CrlfSafe(c) {
        forall i: nat | BareLf(s, i) ensures i + 1 < |s| && s[i + 1] != DOT {
          assert BareLf(c, i);
        }
      }
      if CrlfSafe(s) {
        forall i: nat | BareLf(c, i) ensures i + 1 < |c| && c[i + 1] != DOT {
          assert i < |s| ==> BareLf(s, i);
        }
      }
    }
  }

  /**
   A receiver that ends lines at CRLF alone gets the message back, a newline added if it
   lacked a final one, and stops at the end of what was sent, iff no LF without a CR
   before it ends the message or stands in front of a dot.
   */
  lemma ReceiveCrlfIff(s: seq<octet>, after: seq<octet>)
    ensures ReceiveCrlf(Wire(s) + after) == Message(Completed(s), after) <==> CrlfSafe(s)
  {
    WireCompleted(s);
    SafeCompleted(s);
    Assoc(Stuff(Completed(s)), END_OF_DATA, after);
    ReceiveCompleted(Completed(s), after);
  }

  /** The end of a and an LF is never found. */
  lemma BareLfNeverEnds()
    ensures ReceiveCrlf(Wire([0x61, LF])) == Incomplete && !CrlfSafe([0x61, LF])
  {
    var s: seq<octet> := [0x61, LF];
    assert BareLf(s, 1);
    LineSpanOf(s, []);
    assert s + [] == s;
    StuffOneLine(s);
    assert Wire(s) == [0x61, LF, DOT, CR, LF];
    assert CrlfAt(Wire(s), 3);
    assert IsCrlfLine(Wire(s));
    ReceiveCrlfLine(Wire(s), []);
    assert Wire(s) + [] == Wire(s);
  }

  lemma TwoDotsStuffed()
    ensures Stuff([0x61, LF, DOT, 0x62, CR, LF]) == [0x61, LF, DOT, DOT, 0x62, CR, LF]
  {
    var a: seq<octet>, b: seq<octet> := [0x61, LF], [DOT, 0x62, CR, LF];
    assert a + b == [0x61, LF, DOT, 0x62, CR, LF];
    LineSpanOf(a, []);
    LineSpanOf(b, []);
    assert a + [] == a && b + [] == b;
    hide Stuff, LineSpan;
    StuffOneLine(a);
    StuffOneLine(b);
    StuffSplit(a, b);
    assert a + ([DOT] + b) == [0x61, LF, DOT, DOT, 0x62, CR, LF];
  }

  /** From a, an LF, a dot and b on a line, such a receiver gets two dots. */
  lemma BareLfKeepsDot()
    ensures ReceiveCrlf(Wire([0x61, LF, DOT, 0x62, CR, LF])) == Message([0x61, LF, DOT, DOT, 0x62, CR, LF], [])
  {
    var s: seq<octet> := [0x61, LF, DOT, 0x62, CR, LF];
    var l: seq<octet> := [0x61, LF, DOT, DOT, 0x62, CR, LF];
    assert IsCrlfLine(l);
    hide Stuff, ReceiveCrlf, Wire, IsCrlfLine;
    TwoDotsStuffed();
    WireCompleted(s);
    ReceiveCrlfLine(l, END_OF_DATA);
    ReceiveCrlfEnd([]);
    assert END_OF_DATA + [] == END_OF_DATA && l + [] == l;
  }

  // ---------- The code ----------

  class Client {
    var sent: seq<octet>

    method SocketWrite(octets: seq<octet>)
      modifies this
      ensures sent == old(sent) + octets
    {
      sent := sent + octets;
    }

    /** One turn of the loop: the line at offset, a dot before it if it starts with one. */
    method SendLine(buffer: seq<octet>, offset: nat) returns (span: nat)
      requires offset < |buffer|
      modifies this
      ensures span == LineSpan(buffer[offset..])
      ensures sent == old(sent) + StuffLine(buffer[offset..][..span])
    {
      span := StrcspnLf(buffer, offset);
      if offset + span < |buffer| {
        span := span + 1;
      }
      assert buffer[offset..][..span] == buffer[offset..offset + span];
      if buffer[offset] == DOT {
        SocketWrite([DOT]);
      }
      SocketWrite(buffer[offset..offset + span]);
      Assoc(old(sent), [DOT], buffer[offset..offset + span]);
      assert [] + buffer[offset..offset + span] == buffer[offset..offset + span];
    }

    method SendLines(buffer: seq<octet>)
      modifies this
      ensures sent == old(sent) + Stuff(buffer)
    {
      var offset := 0;
      while offset < |buffer|
        invariant 0 <= offset <= |buffer|
        invariant old(sent) + Stuff(buffer) == sent + Stuff(buffer[offset..])
      {
        ghost var before, left := sent, buffer[offset..];
        var span := SendLine(buffer, offset);
        Assoc(before, StuffLine(left[..span]), Stuff(left[span..]));
        assert left[span..] == buffer[offset + span..];
        offset := offset + span;
      }
      assert buffer[offset..] == [];
      assert sent + [] == sent;
    }

    method SendContent(buffer: seq<octet>)
      modifies this
      ensures sent == old(sent) + Wire(buffer)
    {
      SendLines(buffer);
      var offset := |buffer|;
      if 0 < offset && buffer[offset - 1] != LF {
        SocketWrite(CRLF);
      }
      SocketWrite(END_OF_DATA);
      WireParts(old(sent), buffer);
    }
  }

  lemma WireParts(start: seq<octet>, s: seq<octet>)
    ensures start + Wire(s)
      == (if s == [] || EndsWith(s, LF) then start + Stuff(s) else start + Stuff(s) + CRLF) + END_OF_DATA
  {
    var e := if s == [] || EndsWith(s, LF) then [] else CRLF;
    Assoc(start, Stuff(s), e);
    Assoc(start, Stuff(s) + e, END_OF_DATA);
    assert start + Stuff(s) + [] == start + Stuff(s);
  }

  /** strcspn(buffer + offset, "\n") */
  method StrcspnLf(buffer: seq<octet>, offset: nat) returns (span: nat)
    requires offset < |buffer|
    ensures offset + span <= |buffer|
    ensures LineSpan(buffer[offset..]) == if offset + span < |buffer| then span + 1 else span
  {
    span := 0;
    while offset + span < |buffer| && buffer[offset + span] != LF
      invariant offset + span <= |buffer|
      invariant LineSpan(buffer[offset..]) == span + LineSpan(buffer[offset + span..])
    {
      assert buffer[offset + span..][1..] == buffer[offset + span + 1..];
      span := span + 1;
    }
  }
}
