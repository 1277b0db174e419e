/**
 The "relaxed" body form: section 3.4.4 of RFC 6376 over lines, the automaton
 of mail/dkim-hash.c as a function, and exactly when the two agree.
 */
module DkimRelaxed {
  import opened Octets

  // ---------- Lines ----------

  type Line = seq<octet>

  /** CR and LF occur only as CRLF, as RFC 5322 demands of a message body. */
  predicate Paired(s: seq<octet>) {
    s == [] ||
    (if s[0] == CR then |s| >= 2 && s[1] == LF && Paired(s[2..]) else s[0] != LF && Paired(s[1..]))
  }

  predicate IsLine(l: Line) {
    CR !in l && LF !in l
  }

  predicate AreLines(ls: seq<Line>) {
    forall i :: 0 <= i < |ls| ==> IsLine(ls[i])
  }

  /** Every line with its CRLF. */
  function Terminated(ls: seq<Line>): seq<octet> {
    if ls == [] then [] else Terminated(ls[..|ls| - 1]) + (ls[|ls| - 1] + CRLF)
  }

  /** The body whose lines, split at CRLF, are ls; the last one has no CRLF. */
  function Join(ls: seq<Line>): seq<octet>
    requires ls != []
  {
    Terminated(ls[..|ls| - 1]) + ls[|ls| - 1]
  }

  /** The lines of a body; the last one is what follows the last CRLF. */
  function Split(s: seq<octet>): (ls: seq<Line>)
    requires Paired(s)
    ensures ls != [] && AreLines(ls)
  {
    if s == [] then [[]]
    else if s[0] == CR then [[]] + Split(s[2..])
    else var r := Split(s[1..]); [[s[0]] + r[0]] + r[1..]
  }

  lemma TerminatedFront(l: Line, ls: seq<Line>)
    ensures Terminated([l] + ls) == l + CRLF + Terminated(ls)
  {
    if ls == [] {
      assert [l] + ls == [l];
    } else {
      var n := |ls| - 1;
      TerminatedFront(l, ls[..n]);
      assert ([l] + ls)[..n + 1] == [l] + ls[..n];
      assert l + CRLF + (Terminated(ls[..n]) + (ls[n] + CRLF)) == l + CRLF + Terminated(ls[..n]) + (ls[n] + CRLF);
    }
  }

  lemma JoinCons(l: Line, ls: seq<Line>)
    requires ls != []
    ensures Join([l] + ls) == l + CRLF + Join(ls)
  {
    var all, n := [l] + ls, |ls| - 1;
    assert all[..n + 1] == [l] + ls[..n];
    TerminatedFront(l, ls[..n]);
    assert l + CRLF + (Terminated(ls[..n]) + ls[n]) == l + CRLF + Terminated(ls[..n]) + ls[n];
  }

  lemma JoinOne(l: Line)
    ensures Join([l]) == l
  {
    var one: seq<Line> := [l];
    assert one[..0] == [];
  }

  lemma JoinHead(c: octet, ls: seq<Line>)
    requires ls != []
    ensures Join([[c] + ls[0]] + ls[1..]) == [c] + Join(ls)
  {
    var l := [c] + ls[0];
    if |ls| == 1 {
      assert [l] + ls[1..] == [l];
      assert ls[..0] == [] && Join(ls) == ls[0];
      JoinOne(l);
    } else {
      JoinCons(l, ls[1..]);
      JoinCons(ls[0], ls[1..]);
      assert ls == [ls[0]] + ls[1..];
      assert l + CRLF + Join(ls[1..]) == [c] + (ls[0] + CRLF + Join(ls[1..]));
    }
  }

  lemma {:induction false} JoinSplit(s: seq<octet>)
    requires Paired(s)
    ensures Join(Split(s)) == s
  {
    if s == [] {
      assert Split(s)[..0] == [];
    } else if s[0] == CR {
      JoinSplit(s[2..]);
      JoinCons([], Split(s[2..]));
      assert s == [] + CRLF + s[2..];
    } else {
      JoinSplit(s[1..]);
      JoinHead(s[0], Split(s[1..]));
    }
  }

  lemma SplitPrefix(l: Line, ls: seq<Line>)
    requires IsLine(l) && AreLines(ls) && ls != [] && Paired(Join(ls)) && Split(Join(ls)) == ls
    ensures Paired(l + CRLF + Join(ls)) && Split(l + CRLF + Join(ls)) == [l] + ls
  {
    var s := l + CRLF + Join(ls);
    if l == [] {
      assert s[2..] == Join(ls);
    } else {
      SplitPrefix(l[1..], ls);
      assert s[1..] == l[1..] + CRLF + Join(ls);
      assert l == [l[0]] + l[1..];
    }
  }

  lemma SplitOne(l: Line)
    requires IsLine(l)
    ensures Paired(l) && Split(l) == [l]
  {
    if l != [] {
      SplitOne(l[1..]);
      assert l == [l[0]] + l[1..];
    }
  }

  lemma {:induction false} SplitJoin(ls: seq<Line>)
    requires ls != [] && AreLines(ls)
    ensures Paired(Join(ls)) && Split(Join(ls)) == ls
  {
    if |ls| == 1 {
      SplitOne(ls[0]);
      assert ls == [ls[0]];
      assert ls[..0] == [];
      assert Join(ls) == ls[0];
    } else {
      SplitJoin(ls[1..]);
      SplitPrefix(ls[0], ls[1..]);
      JoinCons(ls[0], ls[1..]);
      assert ls == [ls[0]] + ls[1..];
    }
  }

  // ---------- Section 3.4.4 of RFC 6376 ----------

  function DropWsp(l: Line): (r: Line)
    ensures |r| <= |l| && (r == [] || !IsWsp(r[0]))
    ensures IsLine(l) ==> IsLine(r)
  {
    if l != [] && IsWsp(l[0]) then DropWsp(l[1..]) else l
  }

  /** A run of whitespace becomes one space; at the end of the line it goes. */
  function Squeeze(l: Line): (r: Line)
    ensures IsLine(l) ==> IsLine(r)
    decreases |l|
  {
    if l == [] then []
    else if IsWsp(l[0]) then
      var r := DropWsp(l);
      if r == [] then [] else [SPACE] + Squeeze(r)
    else [l[0]] + Squeeze(l[1..])
  }

  function SqueezeAll(ls: seq<Line>): (r: seq<Line>)
    ensures |r| == |ls| && forall i :: 0 <= i < |ls| ==> r[i] == Squeeze(ls[i])
  {
    seq(|ls|, i requires 0 <= i < |ls| => Squeeze(ls[i]))
  }

  /** ls without the empty lines at its end. */
  function DropEmpty(ls: seq<Line>): (r: seq<Line>)
    ensures |r| <= |ls| && r == ls[..|r|]
    ensures r == [] || r[|r| - 1] != []
    ensures forall i :: |r| <= i < |ls| ==> ls[i] == []
  {
    if ls != [] && ls[|ls| - 1] == [] then DropEmpty(ls[..|ls| - 1]) else ls
  }

  /**
   Reduce whitespace in every line, ignore the empty lines at the end, and end
   every remaining line in CRLF.
   */
  function RfcRelaxed(body: seq<octet>): seq<octet>
    requires Paired(body)
  {
    Terminated(DropEmpty(SqueezeAll(Split(body))))
  }

  // ---------- The automaton ----------

  datatype Status = Start | End | Text | Wsp | AtCr | AtLf

  /** status, the octets the hash has absorbed, and the saved copy of them. */
  datatype Machine = Machine(status: Status, ctx: seq<octet>, saved: seq<octet>)

  /** One octet; beforeLf says whether the octet after it is LF. */
  function Step(m: Machine, c: octet, beforeLf: bool): Machine {
    match m.status
    case Start => StepText(m.(status := Text), c)
    case Text => StepText(m, c)
    case Wsp =>
      if IsWsp(c) then m
      else if c == CR && beforeLf then Machine(AtCr, m.ctx + [c], m.ctx)
      else Machine(Text, m.ctx + [SPACE, c], m.saved)
    case AtCr =>
      if IsWsp(c) then m.(status := Wsp)
      else Machine(if c == LF then AtLf else if c == CR then AtCr else Text, m.ctx + [c], m.saved)
    case AtLf =>
      if IsWsp(c) then m.(status := Wsp)
      else Machine(if c == CR then AtCr else Text, m.ctx + [c], m.saved)
    case End => m.(ctx := m.ctx + [c])
  }

  function StepText(m: Machine, c: octet): Machine {
    if IsWsp(c) then m.(status := Wsp)
    else if c == CR then Machine(AtCr, m.ctx + [c], m.ctx)
    else m.(ctx := m.ctx + [c])
  }

  function Finish(m: Machine): Machine {
    var kept := if m.status == AtLf then m.saved else m.ctx;
    Machine(End, if m.status == Start then kept else kept + CRLF, m.saved)
  }

  predicate NextIsLf(s: seq<octet>, i: nat) {
    i + 1 < |s| && s[i + 1] == LF
  }

  function Run(m: Machine, s: seq<octet>): Machine
    decreases |s|
  {
    if s == [] then m else Run(Step(m, s[0], NextIsLf(s, 0)), s[1..])
  }

  /** What a body hashes to, from the machine m. */
  function CodeRelaxed(m: Machine, body: seq<octet>): seq<octet> {
    Finish(Run(m, body)).ctx
  }

  // ---------- Runs over lines ----------

  /** A split that does not fall between a CR and the octet after it splits the run. */
  lemma RunAppend(m: Machine, a: seq<octet>, b: seq<octet>)
    requires !EndsWith(a, CR)
    ensures Run(m, a + b) == Run(Run(m, a), b)
    decreases |a|
  {
    if a == [] {
      assert a + b == b;
    } else {
      assert (a + b)[1..] == a[1..] + b;
      var m' := Step(m, a[0], NextIsLf(a, 0));
      assert m' == Step(m, a[0], NextIsLf(a + b, 0));
      RunAppend(m', a[1..], b);
    }
  }

  predicate Between(m: Machine) {
    m.status in {Start, Text, AtLf}
  }

  /** Squeeze, when a run of whitespace is already waiting. */
  function SqueezeHeld(l: Line): Line {
    var r := DropWsp(l);
    if r == [] then [] else [SPACE] + Squeeze(r)
  }

  function AfterLine(m: Machine, l: Line): Machine {
    Machine(
      if l == [] then m.status else if IsWsp(l[|l| - 1]) then Wsp else Text,
      m.ctx + if m.status == Wsp then SqueezeHeld(l) else Squeeze(l),
      m.saved)
  }

  /** One line's octets: whitespace waits until something follows it. */
  lemma {:induction false} RunLine(m: Machine, l: Line)
    requires IsLine(l) && (Between(m) || m.status == Wsp)
    ensures Run(m, l) == AfterLine(m, l)
    decreases |l|
  {
    if l != [] {
      var m' := Step(m, l[0], NextIsLf(l, 0));
      assert l[0] in l;
      assert IsLine(l[1..]) by { assert forall c :: c in l[1..] ==> c in l; }
      RunLine(m', l[1..]);
      AfterOctet(m, l);
    }
  }

  lemma AfterOctet(m: Machine, l: Line)
    requires IsLine(l) && l != [] && (Between(m) || m.status == Wsp)
    ensures AfterLine(Step(m, l[0], NextIsLf(l, 0)), l[1..]) == AfterLine(m, l)
  {
    assert l[0] in l;
    var m' := Step(m, l[0], NextIsLf(l, 0));
    if IsWsp(l[0]) {
      assert m' == m.(status := Wsp);
      assert SqueezeHeld(l) == SqueezeHeld(l[1..]);
    } else if m.status == Wsp {
      assert DropWsp(l) == l;
      assert m.ctx + [SPACE, l[0]] + Squeeze(l[1..]) == m.ctx + ([SPACE] + ([l[0]] + Squeeze(l[1..])));
    } else {
      assert m.ctx + [l[0]] + Squeeze(l[1..]) == m.ctx + ([l[0]] + Squeeze(l[1..]));
    }
  }

  /** Then its CRLF, which saves the context unless the line is empty after a CRLF. */
  lemma RunEol(m: Machine)
    requires Between(m) || m.status == Wsp
    ensures Run(m, CRLF) == Machine(AtLf, m.ctx + CRLF, if m.status == AtLf then m.saved else m.ctx)
  {
    var m1 := Step(m, CR, true);
    assert CRLF[1..] == [LF];
    assert Run(m, CRLF) == Run(m1, [LF]);
    assert Run(m1, [LF]) == Step(m1, LF, false) by { assert [LF][1..] == []; }
    assert m.ctx + [CR] + [LF] == m.ctx + CRLF;
  }

  /** The terminated lines up to the last that is not empty, without its CRLF. */
  function Kept(ls: seq<Line>): seq<octet> {
    var t := DropEmpty(ls);
    if t == [] then [] else Terminated(SqueezeAll(t[..|t| - 1])) + Squeeze(t[|t| - 1])
  }

  lemma SqueezeAllSnoc(ls: seq<Line>, l: Line)
    ensures SqueezeAll(ls + [l]) == SqueezeAll(ls) + [Squeeze(l)]
  {
  }

  /** The machine after the terminated lines ls. */
  function AfterLines(m0: Machine, ls: seq<Line>): Machine {
    if ls == [] then m0
    else Machine(AtLf, m0.ctx + Terminated(SqueezeAll(ls)), m0.ctx + Kept(ls))
  }

  lemma TerminatedSnoc(front: seq<Line>, l: Line)
    ensures Terminated(front + [l]) == Terminated(front) + (l + CRLF)
  {
    assert (front + [l])[..|front|] == front;
  }

  lemma DropEmptySnoc(ls: seq<Line>)
    ensures DropEmpty(ls + [[]]) == DropEmpty(ls)
  {
    assert (ls + [[]])[..|ls|] == ls;
  }

  lemma DropEmptyKeeps(ls: seq<Line>)
    requires ls == [] || ls[|ls| - 1] != []
    ensures DropEmpty(ls) == ls
  {
  }

  lemma KeptSnoc(front: seq<Line>, l: Line)
    ensures Kept(front + [l]) == if l == [] then Kept(front) else Terminated(SqueezeAll(front)) + Squeeze(l)
  {
    hide DropEmpty, Terminated, SqueezeAll, Squeeze;
    assert (front + [l])[..|front|] == front;
    if l == [] {
      DropEmptySnoc(front);
    } else {
      DropEmptyKeeps(front + [l]);
    }
  }

  /** One more terminated line. */
  function AfterEol(m: Machine, l: Line): Machine {
    var out := m.ctx + Squeeze(l);
    Machine(AtLf, out + CRLF, if l == [] && m.status == AtLf then m.saved else out)
  }

  lemma AfterLinesSnoc(m0: Machine, front: seq<Line>, l: Line)
    requires m0.status == Start
    ensures AfterLines(m0, front + [l]) == AfterEol(AfterLines(m0, front), l)
  {
    var t, q := Terminated(SqueezeAll(front)), Squeeze(l);
    KeptSnoc(front, l);
    SqueezeAllSnoc(front, l);
    TerminatedSnoc(SqueezeAll(front), q);
    Assoc4(m0.ctx, t, q, CRLF);
    Assoc(m0.ctx, t, q);
    if front == [] {
      assert t == [] && m0.ctx + t == m0.ctx;
    }
  }

  /** One line and its CRLF, from a state between lines. */
  lemma RunOneLine(m: Machine, l: Line)
    requires IsLine(l) && m.status in {Start, AtLf}
    ensures Run(m, l + CRLF) == AfterEol(m, l)
  {
    LineNoCr(l);
    RunAppend(m, l, CRLF);
    RunLine(m, l);
    RunEol(AfterLine(m, l));
    if l == [] {
      assert m.ctx + Squeeze(l) == m.ctx;
    }
  }

  lemma RunSnocLine(m0: Machine, front: seq<Line>, l: Line)
    requires m0.status == Start
    requires IsLine(l) && Run(m0, Terminated(front)) == AfterLines(m0, front)
    ensures Run(m0, Terminated(front) + (l + CRLF)) == AfterEol(AfterLines(m0, front), l)
  {
    TerminatedEnds(front);
    RunAppend(m0, Terminated(front), l + CRLF);
    RunOneLine(AfterLines(m0, front), l);
  }

  lemma {:induction false} RunTerminated(m0: Machine, ls: seq<Line>)
    requires m0.status == Start
    requires AreLines(ls)
    ensures Run(m0, Terminated(ls)) == AfterLines(m0, ls)
  {
    if ls != [] {
      var n := |ls| - 1;
      var front, l := ls[..n], ls[n];
      RunTerminated(m0, front);
      RunSnocLine(m0, front, l);
      assert ls == front + [l];
      AfterLinesSnoc(m0, front, l);
    }
  }

  lemma LineNoCr(l: Line)
    requires IsLine(l)
    ensures !EndsWith(l, CR)
  {
  }

  lemma TerminatedEnds(ls: seq<Line>)
    ensures !EndsWith(Terminated(ls), CR)
    ensures ls != [] ==> Terminated(ls) != []
  {
  }

  /** What the code's relaxed form of a body is, by its lines. */
  function CodeForm(body: seq<octet>): seq<octet>
    requires Paired(body)
  {
    var t := DropEmpty(Split(body));
    if t != [] then Terminated(SqueezeAll(t)) else if body == [] then [] else CRLF
  }

  /** The end of the file after the terminated lines front and the octets l. */
  lemma FinishLine(m0: Machine, front: seq<Line>, l: Line)
    requires m0.status == Start
    requires IsLine(l)
    ensures Finish(Run(AfterLines(m0, front), l)).ctx
      == if l == [] then (if front == [] then m0.ctx else m0.ctx + Kept(front) + CRLF)
         else m0.ctx + Terminated(SqueezeAll(front + [l]))
  {
    hide SqueezeAll, Squeeze, Terminated, Kept, Run;
    var m := AfterLines(m0, front);
    RunLine(m, l);
    if l == [] {
      RunNothing(m);
    } else {
      var t, q := Terminated(SqueezeAll(front)), Squeeze(l);
      SqueezeAllSnoc(front, l);
      TerminatedSnoc(SqueezeAll(front), q);
      Assoc4(m0.ctx, t, q, CRLF);
      LinesAreOut(m0, front);
      FinishText(m, l);
    }
  }

  lemma RunNothing(m: Machine)
    ensures Run(m, []) == m
  {
  }

  lemma LinesAreOut(m0: Machine, front: seq<Line>)
    ensures AfterLines(m0, front).ctx == m0.ctx + Terminated(SqueezeAll(front))
  {
    if front == [] {
      assert m0.ctx + [] == m0.ctx;
    }
  }

  /** A last line without CRLF gets one. */
  lemma FinishText(m: Machine, l: Line)
    requires Between(m) && IsLine(l) && l != []
    ensures Finish(Run(m, l)).ctx == m.ctx + Squeeze(l) + CRLF
  {
    RunLine(m, l);
  }

  lemma CodeOfLines(m0: Machine, front: seq<Line>, l: Line)
    requires m0.status == Start
    requires AreLines(front) && IsLine(l)
    ensures CodeRelaxed(m0, Terminated(front) + l)
      == Finish(Run(AfterLines(m0, front), l)).ctx
  {
    RunTerminated(m0, front);
    TerminatedEnds(front);
    RunAppend(m0, Terminated(front), l);
  }

  /**
   The code squeezes the lines but drops the trailing empty ones as they were
   before squeezing; a body of nothing but CRLFs leaves one CRLF.
   */
  lemma {:induction false} CodeRelaxedForm(m0: Machine, body: seq<octet>)
    requires m0.status == Start
    requires Paired(body)
    ensures CodeRelaxed(m0, body) == m0.ctx + CodeForm(body)
  {
    var ls := Split(body);
    var n := |ls| - 1;
    var front, l := ls[..n], ls[n];
    JoinSplit(body);
    assert body == Terminated(front) + l;
    CodeOfLines(m0, front, l);
    FinishLine(m0, front, l);
    FormOfLast(m0.ctx, body, front, l);
  }

  lemma FormOfLast(base: seq<octet>, body: seq<octet>, front: seq<Line>, l: Line)
    requires Paired(body) && Split(body) == front + [l] && body == Terminated(front) + l
    ensures base + CodeForm(body)
      == if l == [] then (if front == [] then base else base + Kept(front) + CRLF)
         else base + Terminated(SqueezeAll(front + [l]))
  {
    var ls := front + [l];
    assert ls[..|front|] == front;
    if l != [] {
      assert DropEmpty(ls) == ls;
    } else if front == [] {
      assert base + [] == base;
    } else {
      TerminatedEnds(front);
      KeptIsTerminated(base, front);
      assert DropEmpty(ls) == DropEmpty(front);
    }
  }

  /** From a body-only file an empty body gives one CRLF, and any other what it gives behind a header. */
  lemma BodyOnlyForm(ctx: seq<octet>, saved: seq<octet>, body: seq<octet>)
    requires Paired(body)
    ensures CodeRelaxed(Machine(Text, ctx, saved), body) == ctx + if body == [] then CRLF else CodeForm(body)
  {
    if body != [] {
      var start, text := Machine(Start, ctx, saved), Machine(Text, ctx, saved);
      assert Step(start, body[0], NextIsLf(body, 0)) == Step(text, body[0], NextIsLf(body, 0));
      CodeRelaxedForm(start, body);
    }
  }

  lemma CodeFormFromNothing(body: seq<octet>)
    requires Paired(body)
    ensures CodeRelaxed(Machine(Start, [], []), body) == CodeForm(body)
  {
    CodeRelaxedForm(Machine(Start, [], []), body);
  }

  lemma KeptIsTerminated(base: seq<octet>, ls: seq<Line>)
    ensures var t := DropEmpty(ls);
            base + Kept(ls) + CRLF == base + if t != [] then Terminated(SqueezeAll(t)) else CRLF
  {
    hide DropEmpty, SqueezeAll, Squeeze, Terminated;
    var t := DropEmpty(ls);
    if t == [] {
      assert base + [] == base;
    } else {
      var n := |t| - 1;
      assert t == t[..n] + [t[n]];
      SqueezeAllSnoc(t[..n], t[n]);
      TerminatedSnoc(SqueezeAll(t[..n]), Squeeze(t[n]));
      Assoc4(base, Terminated(SqueezeAll(t[..n])), Squeeze(t[n]), CRLF);
      Assoc(base, Terminated(SqueezeAll(t[..n])), Squeeze(t[n]));
    }
  }

  // ---------- When the code meets the RFC ----------

  /** The body is empty, or its last line that is not empty holds more than whitespace. */
  predicate EndsInText(body: seq<octet>)
    requires Paired(body)
  {
    var t := DropEmpty(Split(body));
    body == [] || (t != [] && HasText(t[|t| - 1]))
  }

  predicate HasText(l: Line) {
    exists i :: 0 <= i < |l| && !IsWsp(l[i])
  }

  lemma SqueezeEmptyIff(l: Line)
    ensures Squeeze(l) == [] <==> forall i :: 0 <= i < |l| ==> IsWsp(l[i])
  {
    DropWspEmptyIff(l);
  }

  lemma DropWspEmptyIff(l: Line)
    ensures DropWsp(l) == [] <==> forall i :: 0 <= i < |l| ==> IsWsp(l[i])
  {
    if l != [] && IsWsp(l[0]) {
      DropWspEmptyIff(l[1..]);
      assert forall i :: 0 < i < |l| ==> l[i] == l[1..][i - 1];
    }
  }

  lemma TerminatedPrefixShorter(ls: seq<Line>, n: nat)
    requires n <= |ls|
    ensures |Terminated(ls[..n])| + 2 * (|ls| - n) <= |Terminated(ls)|
  {
    if n < |ls| {
      TerminatedPrefixShorter(ls[..|ls| - 1], n);
      assert ls[..|ls| - 1][..n] == ls[..n];
    } else {
      assert ls[..n] == ls;
    }
  }

  /** Trailing empty lines of the squeezed body: the raw ones, then the whitespace-only ones. */
  lemma {:induction false} DropEmptySqueezed(ls: seq<Line>)
    ensures DropEmpty(SqueezeAll(ls)) == DropEmpty(SqueezeAll(DropEmpty(ls)))
  {
    hide SqueezeAll, Squeeze, DropEmpty;
    if ls != [] && ls[|ls| - 1] == [] {
      var front := ls[..|ls| - 1];
      DropEmptySqueezed(front);
      assert ls == front + [[]];
      SqueezeAllSnoc(front, []);
      SqueezeNothing();
      DropEmptySnoc(front);
      DropEmptySnoc(SqueezeAll(front));
    } else {
      DropEmptyKeeps(ls);
    }
  }

  lemma SqueezeNothing()
    ensures Squeeze([]) == []
  {
  }

  lemma DropShortens(ls: seq<Line>)
    ensures Terminated(DropEmpty(ls)) == Terminated(ls) <==> |DropEmpty(ls)| == |ls|
  {
    var k := |DropEmpty(ls)|;
    TerminatedPrefixShorter(ls, k);
    assert ls[..|ls|] == ls;
  }

  lemma BlankIffDropped(t: seq<Line>)
    requires t != []
    ensures |DropEmpty(SqueezeAll(t))| == |t| <==> HasText(t[|t| - 1])
  {
    SqueezeEmptyIff(t[|t| - 1]);
  }

  /** The code's relaxed form is the RFC's exactly on the bodies that end in text. */
  lemma {:induction false} RelaxedMeetsRfcIff(body: seq<octet>)
    requires Paired(body)
    ensures CodeRelaxed(Machine(Start, [], []), body) == RfcRelaxed(body) <==> EndsInText(body)
  {
    CodeFormFromNothing(body);
    FormMeetsRfcIff(body);
  }

  /**
   For a body-only file, exactly on those that are not empty. The context is empty if the
   header pass failed at the first octet; an empty file is not one of these, as its
   header pass ends without failing.
   */
  lemma BodyOnlyMeetsRfcIff(body: seq<octet>)
    requires Paired(body)
    ensures CodeRelaxed(Machine(Text, [], []), body) == RfcRelaxed(body) <==> body != [] && EndsInText(body)
  {
    BodyOnlyForm([], [], body);
    if body == [] {
      EmptyBodyForm();
    } else {
      assert [] + CodeForm(body) == CodeForm(body);
      FormMeetsRfcIff(body);
    }
  }

  /** Section 3.4.4 of RFC 6376 has nothing for an empty body. */
  lemma EmptyBodyForm()
    ensures RfcRelaxed([]) == []
  {
    FormMeetsRfcIff([]);
  }

  lemma FormMeetsRfcIff(body: seq<octet>)
    requires Paired(body)
    ensures CodeForm(body) == RfcRelaxed(body) <==> EndsInText(body)
  {
    var ls := Split(body);
    var t := DropEmpty(ls);
    DropEmptySqueezed(ls);
    if t != [] {
      BlankIffDropped(t);
      DropShortens(SqueezeAll(t));
    }
  }

  lemma TerminatedExamples()
    ensures Terminated([[0x61]]) == [0x61, CR, LF]
    ensures Terminated([[0x61], [SPACE]]) == [0x61, CR, LF, SPACE, CR, LF]
    ensures Terminated([[0x61], []]) == [0x61, CR, LF, CR, LF]
  {
    var one: seq<Line> := [[0x61]];
    assert [] + [[0x61]] == one && one + [[SPACE]] == [[0x61], [SPACE]] && one + [[]] == [[0x61], []];
    TerminatedSnoc([], [0x61]);
    TerminatedSnoc(one, [SPACE]);
    TerminatedSnoc(one, []);
  }

  /** A whitespace-only last line is enough to differ: a CRLF SP CRLF. */
  lemma BlankLastLineDiffers()
    ensures var ls: seq<Line> := [[0x61], [SPACE], []];
            && Paired(Join(ls))
            && Join(ls) == [0x61, CR, LF, SPACE, CR, LF]
            && CodeRelaxed(Machine(Start, [], []), Join(ls)) == [0x61, CR, LF, CR, LF]
            && RfcRelaxed(Join(ls)) == [0x61, CR, LF]
  {
    hide DropEmpty, Squeeze, Split, CodeRelaxed, Terminated, Paired;
    var ls: seq<Line> := [[0x61], [SPACE], []];
    var one: seq<Line>, two: seq<Line> := [[0x61]], [[0x61], [SPACE]];
    var sq: seq<Line> := [[0x61], []];
    assert ls == two + [[]] && two == one + [[SPACE]] && sq == one + [[]];
    assert ls[..2] == two;
    TerminatedExamples();
    SplitJoin(ls);
    CodeFormFromNothing(Join(ls));
    DropEmptySnoc(two);
    DropEmptyKeeps(two);
    SqueezeExamples();
    assert SqueezeAll(two) == sq;
    DropEmptySqueezed(ls);
    DropEmptySnoc(one);
    DropEmptyKeeps(one);
  }

  lemma SqueezeExamples()
    ensures Squeeze([0x61]) == [0x61] && Squeeze([SPACE]) == []
  {
    assert [0x61][1..] == [] && [SPACE][1..] == [];
    assert DropWsp([SPACE]) == DropWsp([]);
  }

  // ---------- Idempotence ----------

  lemma SqueezeIdempotent(l: Line)
    ensures Squeeze(Squeeze(l)) == Squeeze(l)
    decreases |l|
  {
    if l == [] {
    } else if IsWsp(l[0]) {
      var r := DropWsp(l);
      if r != [] {
        SqueezeIdempotent(r);
        var q := [SPACE] + Squeeze(r);
        assert q[1..] == Squeeze(r);
        assert DropWsp(q) == Squeeze(r);
      }
    } else {
      SqueezeIdempotent(l[1..]);
      assert Squeeze(l)[1..] == Squeeze(l[1..]);
    }
  }

  /** On bodies that end in text, canonicalising what was canonicalised changes nothing. */
  lemma {:induction false} RelaxedIdempotent(body: seq<octet>)
    requires Paired(body) && EndsInText(body)
    ensures var m := Machine(Start, [], []);
            CodeRelaxed(m, CodeRelaxed(m, body)) == CodeRelaxed(m, body)
  {
    CodeFormFromNothing(body);
    FormIdempotent(body);
    CodeFormFromNothing(CodeForm(body));
  }

  lemma FormIdempotent(body: seq<octet>)
    requires Paired(body) && EndsInText(body)
    ensures Paired(CodeForm(body)) && CodeForm(CodeForm(body)) == CodeForm(body)
  {
    if body != [] {
      var t := DropEmpty(Split(body));
      var sq := SqueezeAll(t);
      BlankIffDropped(t);
      SqueezedIsFixed(t);
      var ls := sq + [[]];
      assert ls[..|sq|] == sq;
      assert Join(ls) == Terminated(sq);
      SplitJoin(ls);
      assert DropEmpty(ls) == DropEmpty(sq);
      DropEmptyAll(sq);
    }
  }

  lemma DropEmptyAll(ls: seq<Line>)
    requires |DropEmpty(ls)| == |ls|
    ensures DropEmpty(ls) == ls
  {
  }

  lemma SqueezedIsFixed(t: seq<Line>)
    ensures SqueezeAll(SqueezeAll(t)) == SqueezeAll(t)
    ensures AreLines(t) ==> AreLines(SqueezeAll(t))
  {
    forall i | 0 <= i < |t| ensures SqueezeAll(SqueezeAll(t))[i] == SqueezeAll(t)[i] {
      SqueezeIdempotent(t[i]);
    }
  }
}
