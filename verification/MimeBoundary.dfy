/**
 Which lines of a body the source states of mail/mime.c take for a boundary: read off
 the octets of the body, for a part of any encoding.
 */
module MimeBoundary {
  import opened Octets
  import opened MimeDecoder
  import opened MimeMachine

  // ---------- Runs ----------

  /** The machine after the octets s, or at the boundary line among them. */
  ghost function Run(m: Machine, s: seq<octet>): (r: Machine)
    requires m.Valid()
    ensures r.Valid()
  {
    if s == [] then m
    else
      var r := Run(m, s[..|s| - 1]);
      if r.state == HdrStart then r else NextOctet(r, s[|s| - 1])
  }

  /** The machine at the start of a body. */
  function Begin(multipart: bool, quoted: bool): Machine {
    Machine([], [], [], HdrBdy, multipart, quoted, Decoder([], [], false, if quoted then QpLiteral else Literal, NUL))
  }

  lemma SourceKeepsKind(m: Machine, ch: octet)
    requires m.Valid() && m.state != HdrStart
    ensures var r := NextOctet(m, ch);
            r.multipart == m.multipart && (r.state != HdrStart ==> r.quoted == m.quoted)
  {
    hide Decode, DecodeAll, IsBoundaryLine;
  }

  /** The body, behind the line break that a hyphen first of all is taken to follow. */
  function Led(s: seq<octet>): seq<octet> {
    if s != [] && s[0] == DASH then [LF] + s else s
  }

  lemma LedSnoc(s: seq<octet>, c: octet)
    ensures Led(s + [c]) == Led(s) + if s == [] && c == DASH then [LF, c] else [c]
  {
    if s == [] {
      assert [] + [c] == [c] && [LF] + [c] == [LF, c];
    } else {
      assert (s + [c])[0] == s[0];
      Assoc([LF], s, [c]);
    }
  }

  /** What follows the last LF of a body. */
  function LastLine(body: seq<octet>): seq<octet> {
    if body == [] || body[|body| - 1] == LF then [] else LastLine(body[..|body| - 1]) + [body[|body| - 1]]
  }

  /** A line that is read to its end before it is known whether it is a boundary. */
  predicate Undecided(line: seq<octet>) {
    || line == [DASH] || line == [DASH, DASH]
    || (2 < |line| && line[..2] == [DASH, DASH] && IsBoundaryChar(line[2]) && !IsSpace(line[2]))
  }

  lemma UndecidedSnoc(line: seq<octet>, c: octet)
    ensures Undecided(line + [c]) <==>
              || (line == [] && c == DASH)
              || (line == [DASH] && c == DASH)
              || (line == [DASH, DASH] && IsBoundaryChar(c) && !IsSpace(c))
              || (2 < |line| && Undecided(line))
  {
    hide IsBoundaryChar, IsSpace;
    var l := line + [c];
    if 2 < |line| {
      assert l[..2] == line[..2] && l[2] == line[2];
    } else if |line| == 2 {
      assert l[..2] == line && l[2] == c;
    } else {
      assert l == if line == [] then [c] else [line[0], c];
    }
  }

  lemma UndecidedShort(line: seq<octet>)
    ensures !Undecided([]) && Undecided([DASH]) && Undecided([DASH, DASH])
    ensures Undecided(line) && line != [DASH] && line != [DASH, DASH] ==> 2 < |line|
  {
  }

  // ---------- Which state a body leads to ----------

  /** The states that hold a line break back until the line after it is known. */
  predicate Deferring(s: SourceState) {
    s == BdyLF || s == Dash1 || s == Dash2 || s == Boundary
  }

  predicate NoLf(s: seq<octet>) {
    LF !in s
  }

  /**
   The line break in front of the body's last line is deferred: there is one, and it
   does not end a line that was itself undecided.
   */
  predicate AfterDeferred(body: seq<octet>) {
    if body == [] then false
    else
      var front := body[..|body| - 1];
      if body[|body| - 1] == LF then !(AfterDeferred(front) && Undecided(LastLine(front))) else AfterDeferred(front)
  }

  /**
   The body ends in a deferred line break with nothing after it, or with a hyphen, two
   hyphens or a candidate line that has not come to its end.
   */
  predicate EndsDeferred(body: seq<octet>) {
    AfterDeferred(body) && (LastLine(body) == [] || Undecided(LastLine(body)))
  }

  /** The state that a body of a multipart leads to, as long as no boundary was found. */
  function StateOf(body: seq<octet>): SourceState {
    if body == [] then HdrBdy
    else if !EndsDeferred(body) then Bdy
    else if LastLine(body) == [] then BdyLF
    else if LastLine(body) == [DASH] then Dash1
    else if LastLine(body) == [DASH, DASH] then Dash2
    else Boundary
  }

  lemma LastLineSnoc(body: seq<octet>, c: octet)
    ensures LastLine(body + [c]) == if c == LF then [] else LastLine(body) + [c]
    ensures AfterDeferred(body + [c])
            <==> if c == LF then !(AfterDeferred(body) && Undecided(LastLine(body))) else AfterDeferred(body)
  {
    assert (body + [c])[..|body|] == body;
  }

  lemma StateStep(m: Machine, body: seq<octet>, ch: octet)
    requires m.Valid() && m.multipart && m.state == StateOf(body) && (body == [] ==> ch != DASH)
    ensures NextOctet(m, ch).state == HdrStart || NextOctet(m, ch).state == StateOf(body + [ch])
  {
    hide Decode, DecodeAll, IsBoundaryChar, IsSpace, IsBoundaryLine, Undecided, AfterDeferred, LastLine;
    NothingBefore();
    LastLineSnoc(body, ch);
    UndecidedSnoc(LastLine(body), ch);
    UndecidedShort(LastLine(body));
    assert [] + [ch] == [ch] && [DASH] + [ch] == [DASH, ch];
    assert IsSpace(LF) by { LfIsSpace(); }
    assert |LastLine(body) + [ch]| == |LastLine(body)| + 1;
  }

  lemma NothingBefore()
    ensures !AfterDeferred([]) && LastLine([]) == []
  {
  }

  /** How many lines in a row, right before the last, read like the beginning of a boundary. */
  function UndecidedBefore(body: seq<octet>): nat {
    if body == [] then 0
    else
      var front := body[..|body| - 1];
      if body[|body| - 1] != LF then UndecidedBefore(front)
      else if Undecided(LastLine(front)) then UndecidedBefore(front) + 1
      else 0
  }

  lemma UndecidedBeforeSnoc(body: seq<octet>, c: octet)
    ensures UndecidedBefore(body + [c])
         == if c != LF then UndecidedBefore(body) else if Undecided(LastLine(body)) then UndecidedBefore(body) + 1 else 0
  {
    hide Undecided, LastLine;
    assert (body + [c])[..|body|] == body;
  }

  /** Every other one of them is read as a candidate: the line break after a candidate is not deferred. */
  lemma {:induction false} AfterDeferredIff(body: seq<octet>)
    ensures AfterDeferred(Led(body)) <==> LF in Led(body) && UndecidedBefore(body) % 2 == 0
  {
    hide Undecided, LastLine, AfterDeferred, UndecidedBefore;
    NothingBefore();
    if body == [] {
    } else if body == [DASH] {
      HyphenDeferred();
    } else {
      var front, c := body[..|body| - 1], body[|body| - 1];
      assert body == front + [c];
      AfterDeferredIff(front);
      AfterDeferredStep(front, c);
    }
  }

  lemma HyphenDeferred()
    ensures AfterDeferred(Led([DASH])) && LF in Led([DASH]) && UndecidedBefore([DASH]) == 0
  {
    hide AfterDeferred, LastLine, Undecided;
    NothingBefore();
    LastLineSnoc([], LF);
    LastLineSnoc([LF], DASH);
    assert [] + [LF] == [LF] && [LF] + [DASH] == [LF, DASH] == Led([DASH]);
    assert [DASH][..0] == [];
  }

  lemma AfterDeferredStep(front: seq<octet>, c: octet)
    requires front != [] || c != DASH
    requires AfterDeferred(Led(front)) <==> LF in Led(front) && UndecidedBefore(front) % 2 == 0
    ensures AfterDeferred(Led(front + [c])) <==> LF in Led(front + [c]) && UndecidedBefore(front + [c]) % 2 == 0
  {
    hide Undecided, LastLine, AfterDeferred, UndecidedBefore, Led;
    LedSnoc(front, c);
    LastLineSnoc(Led(front), c);
    LastLineLed(front);
    UndecidedBeforeSnoc(front, c);
    if Undecided(LastLine(front)) {
      UndecidedHasBreak(front);
    }
  }

  lemma LastLineLed(s: seq<octet>)
    ensures LastLine(Led(s)) == LastLine(s)
  {
    LastLineBehind(s);
  }

  lemma UndecidedHasBreak(s: seq<octet>)
    requires Undecided(LastLine(s))
    ensures LF in Led(s)
  {
    if LF !in s {
      LastLineOfLine(s);
      UndecidedDash(s);
    }
  }

  lemma UndecidedDash(line: seq<octet>)
    requires Undecided(line)
    ensures line[0] == DASH && (1 < |line| ==> line[..2] == [DASH, DASH])
  {
    if 2 < |line| {
      assert line[0] == line[..2][0];
    }
  }

  lemma {:induction false} LastLineOfLine(s: seq<octet>)
    requires NoLf(s)
    ensures LastLine(s) == s
  {
    if s != [] {
      LastLineOfLine(s[..|s| - 1]);
    }
  }

  lemma {:induction false} LastLineBehind(s: seq<octet>)
    ensures LastLine([LF] + s) == LastLine(s)
  {
    if s == [] {
      assert [LF] + [] == [LF];
    } else {
      var n := |s| - 1;
      LastLineBehind(s[..n]);
      assert [LF] + s == ([LF] + s[..n]) + [s[n]];
      LastLineSnoc([LF] + s[..n], s[n]);
    }
  }

  lemma LfIsSpace()
    ensures IsSpace(LF)
  {
  }

  lemma StateDefers(body: seq<octet>)
    ensures Deferring(StateOf(body)) <==> EndsDeferred(body)
  {
  }

  lemma {:induction false} LastLineIs(text: seq<octet>, line: seq<octet>)
    requires NoLf(line)
    ensures LastLine(text + ([LF] + line)) == line
  {
    hide LastLine;
    if line == [] {
      assert text + ([LF] + []) == text + [LF];
      LastLineSnoc(text, LF);
    } else {
      var n := |line| - 1;
      LastLineIs(text, line[..n]);
      assert line == line[..n] + [line[n]];
      Assoc([LF], line[..n], [line[n]]);
      Assoc(text, [LF] + line[..n], [line[n]]);
      LastLineSnoc(text + ([LF] + line[..n]), line[n]);
    }
  }

  lemma {:induction false} NothingUndecided(s: seq<octet>)
    requires NoLf(s)
    ensures UndecidedBefore(s) == 0
  {
    if s != [] {
      NothingUndecided(s[..|s| - 1]);
    }
  }

  lemma {:induction false} UndecidedBeforeIs(text: seq<octet>, line: seq<octet>)
    requires NoLf(line)
    ensures UndecidedBefore(text + ([LF] + line)) == if Undecided(LastLine(text)) then UndecidedBefore(text) + 1 else 0
  {
    hide Undecided, LastLine;
    var s := text + ([LF] + line);
    if line == [] {
      assert s[..|s| - 1] == text;
    } else {
      var n := |line| - 1;
      assert s[..|s| - 1] == text + ([LF] + line[..n]);
      UndecidedBeforeIs(text, line[..n]);
    }
  }

  // ---------- What the source buffer holds ----------

  /** The line, and the line break in front of it if there is one. */
  predicate HoldsLine(buffer: seq<octet>, line: seq<octet>) {
    buffer == line || buffer == [LF] + line || buffer == [CR, LF] + line
  }

  /** No line of the body fills the source buffer. */
  ghost predicate LinesFit(body: seq<octet>) {
    forall n :: 0 <= n <= |body| ==> LineFits(body[..n])
  }

  predicate LineFits(body: seq<octet>) {
    |LastLine(body)| + 2 < MIME_BUFFER_SIZE - 1
  }

  /** Where the machine is in a body in which there was no boundary. */
  ghost predicate At(m: Machine, body: seq<octet>) {
    && m.Valid() && m.multipart && m.state != HdrStart && m.state == StateOf(Led(body))
    && (Deferring(m.state) ==> HoldsLine(m.buffer, LastLine(body)))
    && (body == [] ==> m.buffer == [])
  }

  lemma HoldsMore(buffer: seq<octet>, line: seq<octet>, ch: octet)
    requires HoldsLine(buffer, line)
    ensures HoldsLine(buffer + [ch], line + [ch])
  {
    Assoc([LF], line, [ch]);
    Assoc([CR, LF], line, [ch]);
  }

  lemma HoldsBreak(buffer: seq<octet>)
    ensures HoldsLine((buffer + [LF])[|buffer + [LF]| - BreakLength(buffer + [LF])..], [])
  {
    var b := buffer + [LF];
    if BreakLength(b) == 2 {
      assert b[|b| - 2..] == [CR, LF] + [];
    } else {
      assert b[|b| - 1..] == [LF] + [];
    }
  }

  /** A line break of the text is deferred, and stays in the buffer. */
  lemma TextBreak(m: Machine)
    requires m.dec.Valid() && m.multipart
    ensures var p := m.(buffer := m.buffer + [LF]); HoldsLine(StateBdy(p, LF).buffer, []) && |StateBdy(p, LF).buffer| <= 2
  {
    HoldsBreak(m.buffer);
    BreakShort(m.buffer);
  }

  /** An octet of the text: a line break is deferred, and a hyphen first of all may begin a boundary. */
  lemma TextBuffer(m: Machine, ch: octet)
    requires m.Valid() && m.multipart && (m.state == Bdy || (m.state == HdrBdy && m.buffer == []))
    ensures var r := NextOctet(m, ch);
            Deferring(r.state) ==> if ch == LF then HoldsLine(r.buffer, []) else r.buffer == [ch] && m.state == HdrBdy
  {
    hide Decode, IsBoundaryLine, HoldsLine, FlushBut;
    if ch == LF {
      hide StateBdy;
      TextBreak(m);
      TextBreak(m.(state := Bdy));
    } else {
      assert [] + [ch] == [ch];
    }
  }

  lemma BreakShort(buffer: seq<octet>)
    ensures BreakLength(buffer + [LF]) <= 2
  {
  }

  /** An octet right behind a deferred line break. */
  lemma BreakBuffer(m: Machine, ch: octet)
    requires m.Valid() && m.multipart && m.state == BdyLF && |m.buffer| <= 2
    ensures var r := NextOctet(m, ch);
            Deferring(r.state) ==> if ch == LF then HoldsLine(r.buffer, []) else r.buffer == m.buffer + [ch]
  {
    hide Decode, IsBoundaryLine, HoldsLine, BreakLength;
    HoldsBreak(m.buffer);
    assert BreakLength(m.buffer + [LF]) <= 2 by { BreakShort(m.buffer); }
  }

  /** An octet of a candidate line. */
  lemma CandidateBuffer(m: Machine, ch: octet)
    requires m.Valid() && m.multipart && (m.state == Dash1 || m.state == Dash2 || m.state == Boundary)
    requires ch != LF ==> |m.buffer| + 1 < MIME_BUFFER_SIZE - 1
    ensures var r := NextOctet(m, ch); Deferring(r.state) ==> ch != LF && r.buffer == m.buffer + [ch]
  {
    hide Decode, DecodeAll, IsBoundaryLine, IsBoundaryChar, IsSpace;
    assert IsSpace(LF) by { LfIsSpace(); }
  }

  /** What an octet leaves in the buffer, where the machine waits for the end of a line. */
  lemma BufferStep(m: Machine, line: seq<octet>, ch: octet)
    requires m.Valid() && m.multipart && m.state != HdrStart && (m.state == HdrBdy ==> m.buffer == [] == line)
    requires Deferring(m.state) ==> HoldsLine(m.buffer, line) && (ch != LF ==> |line| + 3 < MIME_BUFFER_SIZE - 1)
    requires m.state == BdyLF ==> line == []
    ensures var r := NextOctet(m, ch);
            Deferring(r.state) ==> HoldsLine(r.buffer, if ch == LF then [] else line + [ch])
  {
    hide NextOctet, HoldsLine;
    if Deferring(m.state) {
      HoldsMore(m.buffer, line, ch);
      HoldsLength(m.buffer, line);
      if m.state == BdyLF {
        BreakBuffer(m, ch);
      } else {
        CandidateBuffer(m, ch);
      }
    } else {
      TextBuffer(m, ch);
      HoldsItself([ch]);
      assert [] + [ch] == [ch];
    }
  }

  lemma HoldsLength(buffer: seq<octet>, line: seq<octet>)
    requires HoldsLine(buffer, line)
    ensures |buffer| <= |line| + 2
  {
  }

  lemma HoldsItself(line: seq<octet>)
    ensures HoldsLine(line, line)
  {
  }

  // ---------- Which bodies hold a boundary ----------

  /** A whole line that the boundary test accepts: boundary characters, and not all of them hyphens and the like. */
  predicate IsBoundaryText(line: seq<octet>) {
    && 2 < |line| && Undecided(line)
    && (forall i :: 0 <= i < |line| ==> IsLineChar(line[i]))
    && (exists i :: 0 <= i < |line| && !IsRule(line[i]))
  }

  /** An equals sign and a hexadecimal digit, which quoted-printable explains better. */
  predicate HoldsQuoted(line: seq<octet>) {
    exists i :: 0 < i < |line| && line[i - 1] == EQUALS && IsHex(line[i])
  }

  predicate IsRecognised(quoted: bool, line: seq<octet>) {
    IsBoundaryText(line) && !(quoted && HoldsQuoted(line))
  }

  /**
   The line that ends at n is recognised: it is such a line, and an even number of lines
   right before it read like the beginning of one.
   */
  predicate EndsAt(quoted: bool, body: seq<octet>, n: nat) {
    n < |body| && body[n] == LF && IsRecognised(quoted, LastLine(body[..n])) && UndecidedBefore(body[..n]) % 2 == 0
  }

  predicate HasBoundary(multipart: bool, quoted: bool, body: seq<octet>) {
    multipart && exists n :: 0 <= n < |body| && EndsAt(quoted, body, n)
  }

  lemma EndsAtFront(quoted: bool, body: seq<octet>, front: seq<octet>, n: nat)
    requires front <= body && n < |front|
    ensures EndsAt(quoted, body, n) <==> EndsAt(quoted, front, n)
  {
    assert body[..n] == front[..n];
  }

  lemma HasBoundarySnoc(multipart: bool, quoted: bool, body: seq<octet>, c: octet)
    ensures HasBoundary(multipart, quoted, body + [c])
       <==> HasBoundary(multipart, quoted, body) || (multipart && EndsAt(quoted, body + [c], |body|))
  {
    hide EndsAt;
    forall n: nat | n < |body| ensures EndsAt(quoted, body + [c], n) <==> EndsAt(quoted, body, n) {
      EndsAtFront(quoted, body + [c], body, n);
    }
    if HasBoundary(multipart, quoted, body) {
      var n :| 0 <= n < |body| && EndsAt(quoted, body, n);
      assert EndsAt(quoted, body + [c], n);
    }
  }

  /** A recognised boundary leaves no encoding, and nothing in the source buffer. */
  lemma RecognisedLeaves(m: Machine)
    requires m.dec.Valid()
    ensures var r := Recognised(m); !r.quoted && r.dec.state == Literal && r.buffer == [] && r.state == HdrStart
  {
    hide Add;
    AddKeeps(m.dec.(cr := false, state := Literal), EOF);
  }

  /** The one way into the state after a boundary. */
  lemma StopsIff(m: Machine, ch: octet)
    requires m.Valid() && m.state != HdrStart
    ensures NextOctet(m, ch).state == HdrStart
       <==> m.state == Boundary && ch == LF && IsBoundaryLine(m.buffer + [ch], m.quoted)
    ensures NextOctet(m, ch).state == HdrStart ==>
              var r := NextOctet(m, ch); !r.quoted && r.dec.state == Literal && r.buffer == []
  {
    hide Decode, DecodeAll, IsBoundaryLine, Recognised;
    RecognisedLeaves(m.(buffer := m.buffer + [ch]));
  }

  lemma BreakChars()
    ensures IsLineChar(DASH) && IsLineChar(CR) && IsLineChar(LF)
    ensures IsRule(DASH) && IsRule(CR) && IsRule(LF)
  {
  }

  /** Whatever line break is in front of it, the boundary test looks at the line. */
  lemma LineTested(buffer: seq<octet>, line: seq<octet>, quoted: bool)
    requires HoldsLine(buffer, line) && 2 < |line| && Undecided(line)
    ensures IsBoundaryLine(buffer + [LF], quoted) <==> IsRecognised(quoted, line)
  {
    hide IsLineChar, IsRule, IsHex, Undecided;
    BreakChars();
    UndecidedDash(line);
    assert line[1] == line[..2][1];
    LineShifted(buffer + [LF], |buffer| - |line|, line);
    QuotedShifted(buffer + [LF], |buffer| - |line|, line);
  }

  lemma LineShifted(s: seq<octet>, k: nat, line: seq<octet>)
    requires k <= 2 < |line| && |s| == k + |line| + 1 && s[k..k + |line|] == line && s[|s| - 1] == LF
    requires forall i :: 0 <= i < k ==> s[i] in {CR, LF}
    requires line[0] == line[1] == DASH && Undecided(line)
    ensures IsBoundaryLine(s, false) <==> IsBoundaryText(line)
  {
    hide IsLineChar, IsRule, Undecided;
    BreakChars();
    assert forall i :: 0 <= i < |line| ==> s[k + i] == line[i];
    if IsBoundaryLine(s, false) {
      forall i | 0 <= i < |line| ensures IsLineChar(line[i]) {
        assert 2 <= i ==> IsLineChar(s[k + i]);
      }
      var i :| 2 <= i < |s| && !IsRule(s[i]);
      assert s[i] == line[i - k];
    }
    if IsBoundaryText(line) {
      forall i | 2 <= i < |s| ensures IsLineChar(s[i]) {
        assert k <= i < k + |line| ==> s[i] == line[i - k];
      }
      var i :| 0 <= i < |line| && !IsRule(line[i]);
      assert 2 <= i && !IsRule(s[k + i]);
    }
  }

  /** The test for quoted-printable is one on the line, too. */
  lemma QuotedShifted(s: seq<octet>, k: nat, line: seq<octet>)
    requires k <= 2 < |line| && |s| == k + |line| + 1 && s[k..k + |line|] == line && s[|s| - 1] == LF
    requires line[0] == line[1] == DASH
    ensures (forall i :: 2 <= i < |s| && IsHex(s[i]) ==> s[i - 1] != EQUALS) <==> !HoldsQuoted(line)
  {
    assert forall i :: 0 <= i < |line| ==> s[k + i] == line[i];
    if HoldsQuoted(line) {
      var i :| 0 < i < |line| && line[i - 1] == EQUALS && IsHex(line[i]);
      assert IsHex(s[k + i]) && s[k + i - 1] == EQUALS;
    } else {
      forall i | 2 <= i < |s| && IsHex(s[i]) ensures s[i - 1] != EQUALS {
        if k < i < k + |line| {
          assert s[i] == line[i - k] && s[i - 1] == line[i - k - 1];
        }
      }
    }
  }

  /** The part ends exactly where the body says so. */
  lemma EndsIff(m: Machine, body: seq<octet>, ch: octet)
    requires At(m, body)
    ensures NextOctet(m, ch).state == HdrStart <==> EndsAt(m.quoted, body + [ch], |body|)
  {
    hide NextOctet, IsBoundaryLine, Undecided, LastLine, AfterDeferred, UndecidedBefore, HoldsLine, HoldsQuoted;
    assert (body + [ch])[..|body|] == body;
    var line := LastLine(body);
    StopsIff(m, ch);
    LastLineLed(body);
    UndecidedShort(line);
    AfterDeferredIff(body);
    if Undecided(line) {
      UndecidedHasBreak(body);
    }
    if m.state == Boundary {
      LineTested(m.buffer, line, m.quoted);
    }
  }

  lemma AtStart(quoted: bool)
    ensures At(Begin(true, quoted), []) && Run(Begin(true, quoted), []) == Begin(true, quoted)
    ensures !HasBoundary(true, quoted, [])
  {
    NothingBefore();
  }

  lemma StateKinds(body: seq<octet>)
    ensures StateOf(Led(body)) != HdrStart && (StateOf(Led(body)) == HdrBdy <==> body == [])
    ensures StateOf(Led(body)) == BdyLF ==> LastLine(body) == []
  {
    hide LastLine, EndsDeferred;
    LastLineLed(body);
  }

  lemma FirstIsHyphen(m: Machine)
    requires m.Valid() && m.multipart && m.state == HdrBdy
    ensures NextOctet(m, DASH).state == StateOf([LF, DASH]) == Dash1
  {
    assert [] + [LF] == [LF] && [LF] + [DASH] == [LF, DASH];
    LastLineSnoc([], LF);
    LastLineSnoc([LF], DASH);
    NothingBefore();
  }

  lemma AtKinds(m: Machine, body: seq<octet>)
    requires At(m, body)
    ensures m.Valid() && m.multipart && m.state != HdrStart
  {
  }

  lemma LinesFitFront(body: seq<octet>)
    requires LinesFit(body) && body != []
    ensures LinesFit(body[..|body| - 1]) && LineFits(body)
  {
    var front := body[..|body| - 1];
    assert body[..|body|] == body;
    forall n | 0 <= n <= |front| ensures LineFits(front[..n]) {
      assert front[..n] == body[..n];
    }
  }

  lemma AtStep(m: Machine, body: seq<octet>, ch: octet)
    requires At(m, body) && LineFits(body + [ch])
    ensures NextOctet(m, ch).state != HdrStart ==> At(NextOctet(m, ch), body + [ch])
  {
    hide NextOctet, StateOf, HoldsLine, LastLine;
    NothingBefore();
    SourceKeepsKind(m, ch);
    LedSnoc(body, ch);
    LastLineSnoc(body, ch);
    StateKinds(body);
    BufferStep(m, LastLine(body), ch);
    if body == [] && ch == DASH {
      assert [LF] + [DASH] == [LF, DASH] && [] + [DASH] == [DASH];
      FirstIsHyphen(m);
    } else {
      StateStep(m, Led(body), ch);
    }
  }

  lemma {:induction false} AtRun(quoted: bool, body: seq<octet>)
    requires LinesFit(body)
    ensures var r := Run(Begin(true, quoted), body);
            && (r.state == HdrStart <==> HasBoundary(true, quoted, body))
            && (r.state != HdrStart ==> At(r, body) && r.quoted == quoted)
            && (r.state == HdrStart ==> !r.quoted && r.dec.state == Literal && r.buffer == [])
  {
    hide NextOctet, At, EndsAt, HasBoundary, LineFits;
    if body == [] {
      AtStart(quoted);
    } else {
      var n := |body| - 1;
      var front := body[..n];
      LinesFitFront(body);
      AtRun(quoted, front);
      var r := Run(Begin(true, quoted), front);
      assert front + [body[n]] == body && body[..|body|] == body;
      HasBoundarySnoc(true, quoted, front, body[n]);
      if r.state != HdrStart {
        AtKinds(r, front);
        StopsIff(r, body[n]);
        EndsIff(r, front, body[n]);
        AtStep(r, front, body[n]);
        SourceKeepsKind(r, body[n]);
      }
    }
  }

  /**
   Which state a body of a multipart leads to, whatever the encoding of the part; after a
   boundary the next part has none yet.
   */
  lemma StateOfRun(quoted: bool, body: seq<octet>)
    requires LinesFit(body)
    ensures var r := Run(Begin(true, quoted), body);
            && r.state == (if HasBoundary(true, quoted, body) then HdrStart else StateOf(Led(body)))
            && (r.state == HdrStart ==> !r.quoted && r.dec.state == Literal && r.buffer == [])
  {
    hide Run, LinesFit, HasBoundary, StateOf;
    AtRun(quoted, body);
  }

  // ---------- Boundaries by section 5.1.1 of RFC 2046 ----------

  /** bcharsnospace */
  predicate IsBchar(c: octet) {
    var ch := c as char;
    '0' <= ch <= '9' || 'A' <= ch <= 'Z' || 'a' <= ch <= 'z' || ch in "'()+_,-./:=?"
  }

  /** The code takes a NUL for one, too. */
  lemma BoundaryCharIs(c: octet)
    ensures IsBoundaryChar(c) <==> IsBchar(c) || c == 0
    ensures IsSpace(c) <==> c as char in " \t\n\r" || c == 0x0B || c == 0x0C
    ensures IsRule(c) <==> c as char in "-=\r\n" || c == 0
  {
  }

  /** Two hyphens and boundary characters, up to the CR of a line break, of which one is neither hyphen nor equals sign. */
  lemma BoundaryTextIs(line: seq<octet>)
    ensures IsBoundaryText(line) <==>
              && 2 < |line| && line[0] as char == '-' && line[1] as char == '-' && line[2] as char !in "\r\n"
              && (forall i :: 0 <= i < |line| ==> IsBchar(line[i]) || line[i] as char in "\r\n" || line[i] == 0)
              && (exists i :: 0 <= i < |line| && line[i] as char !in "-=\r\n" && line[i] != 0)
  {
    hide IsBchar, IsBoundaryChar, IsSpace, IsRule;
    forall c: octet ensures IsLineChar(c) <==> IsBchar(c) || c as char in "\r\n" || c == 0 {
      BoundaryCharIs(c);
    }
    forall c: octet ensures IsRule(c) <==> c as char in "-=\r\n" || c == 0 {
      BoundaryCharIs(c);
    }
    if 2 < |line| {
      assert line[..2] == [line[0], line[1]];
      BcharOrBreak(line[2]);
    }
  }

  lemma BcharOrBreak(c: octet)
    ensures IsBoundaryChar(c) && !IsSpace(c) <==> (IsBchar(c) || c == 0) && c as char !in "\r\n"
    ensures IsBchar(c) ==> !IsSpace(c)
  {
  }

  /**
   The LF after a last line ends the part iff the line reads as a boundary, no equals
   sign in it stands in front of a hexadecimal digit if the part is quoted-printable, and
   an even number of lines right before it read like the beginning of a boundary: behind
   a candidate that was none, a delimiter line of RFC 2046 is missed.
   */
  lemma DelimiterFoundIff(quoted: bool, body: seq<octet>)
    requires LinesFit(body + [LF]) && !HasBoundary(true, quoted, body)
    ensures var line := LastLine(body);
            Run(Begin(true, quoted), body + [LF]).state == HdrStart <==>
              && IsBoundaryText(line) && UndecidedBefore(body) % 2 == 0
              && !(quoted && exists i :: 0 < i < |line| && line[i - 1] as char == '=' && IsHexChar(line[i] as char))
  {
    hide Run, LinesFit, HasBoundary, IsBoundaryText, UndecidedBefore;
    StateOfRun(quoted, body + [LF]);
    StateKinds(body + [LF]);
    HasBoundarySnoc(true, quoted, body, LF);
    assert (body + [LF])[..|body|] == body;
    QuotedIs(LastLine(body));
  }

  predicate IsHexChar(ch: char) {
    ch in "0123456789ABCDEFabcdef"
  }

  lemma QuotedIs(line: seq<octet>)
    ensures HoldsQuoted(line) <==>
              exists i :: 0 < i < |line| && line[i - 1] as char == '=' && IsHexChar(line[i] as char)
  {
    hide IsHex, IsHexChar;
    forall c: octet ensures IsHex(c) <==> IsHexChar(c as char) {
      HexIs(c);
    }
    if HoldsQuoted(line) {
      var i :| 0 < i < |line| && line[i - 1] == EQUALS && IsHex(line[i]);
      assert line[i - 1] as char == '=' && IsHexChar(line[i] as char);
    }
    if i :| 0 < i < |line| && line[i - 1] as char == '=' && IsHexChar(line[i] as char) {
      assert line[i - 1] == EQUALS && IsHex(line[i]);
    }
  }

  lemma HexIs(c: octet)
    ensures IsHex(c) <==> IsHexChar(c as char)
  {
  }

  lemma {:induction false} ShortFits(body: seq<octet>)
    ensures |LastLine(body)| <= |body|
  {
    if body != [] {
      ShortFits(body[..|body| - 1]);
    }
  }

  lemma ShortBody(body: seq<octet>)
    requires |body| < 1000
    ensures LinesFit(body)
  {
    forall n | 0 <= n <= |body| ensures LineFits(body[..n]) {
      ShortFits(body[..n]);
    }
  }

  const RULED: seq<octet> := [DASH, DASH, 0x61, SPACE]

  const DELIMITER: seq<octet> := [DASH, DASH, 0x78]
  const SOFT: seq<octet> := [DASH, DASH, 0x61, EQUALS, 0x32, 0x30]

  lemma LooksOnly()
    ensures NoLf(RULED) && Undecided(RULED) && !IsBoundaryText(RULED)
    ensures NoLf(DELIMITER) && IsBoundaryText(DELIMITER) && EQUALS !in DELIMITER
    ensures NoLf(SOFT) && IsBoundaryText(SOFT) && HoldsQuoted(SOFT)
  {
    assert !IsLineChar(RULED[3]);
    assert !IsRule(DELIMITER[2]) && !IsRule(SOFT[2]);
    assert RULED[..2] == [DASH, DASH] && DELIMITER[..2] == [DASH, DASH] && SOFT[..2] == [DASH, DASH];
    assert SOFT[4 - 1] == EQUALS && IsHex(SOFT[4]);
  }

  lemma OneLine(quoted: bool, line: seq<octet>)
    requires NoLf(line) && |line| < 900
    ensures LastLine(line) == line && UndecidedBefore(line) == 0 && LinesFit(line + [LF])
    ensures !HasBoundary(true, quoted, line)
  {
    LastLineOfLine(line);
    NothingUndecided(line);
    ShortBody(line + [LF]);
  }

  /** A part of any encoding ends at the line --x; at --a=20 it does unless it is quoted-printable. */
  lemma DelimiterIsFound(quoted: bool)
    ensures Run(Begin(true, quoted), DELIMITER + [LF]).state == HdrStart
    ensures Run(Begin(true, quoted), SOFT + [LF]).state == HdrStart <==> !quoted
  {
    hide Run, IsBoundaryText, UndecidedBefore, LastLine, LinesFit, HasBoundary;
    LooksOnly();
    OneLine(quoted, DELIMITER);
    DelimiterFoundIff(quoted, DELIMITER);
    OneLine(quoted, SOFT);
    DelimiterFoundIff(quoted, SOFT);
    QuotedIs(SOFT);
  }

  /** Behind a line of two hyphens, a and a space, the line --x is missed. */
  lemma DelimiterIsMissed(quoted: bool)
    ensures IsBoundaryText(DELIMITER)
    ensures Run(Begin(true, quoted), RULED + ([LF] + DELIMITER) + [LF]).state != HdrStart
  {
    hide Run, IsBoundaryText, Undecided, LinesFit, LastLine, UndecidedBefore;
    var body := RULED + ([LF] + DELIMITER);
    LooksOnly();
    LastLineIs(RULED, DELIMITER);
    LastLineOfLine(RULED);
    NothingUndecided(RULED);
    UndecidedBeforeIs(RULED, DELIMITER);
    ShortBody(body + [LF]);
    forall n | 0 <= n < |body| ensures !EndsAt(quoted, body, n) {
      assert body[n] == LF ==> n == 4;
      assert body[..4] == RULED;
    }
    DelimiterFoundIff(quoted, body);
  }
}
