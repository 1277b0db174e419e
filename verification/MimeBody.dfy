/**
 What the body states of mail/mime.c keep after every octet: the source hooks lose
 nothing at all, and with literal decoding neither does the decoder, up to the line
 break in front of a boundary.
 */
module MimeBody {
  import opened Octets
  import opened MimeDecoder
  import opened MimeBoundary
  import opened MimeMachine

  // ---------- The source ----------

  function Read(m: Machine): seq<octet> {
    m.flushed + m.buffer
  }

  lemma FlushButKeeps(m: Machine, n: nat)
    requires n <= |m.buffer|
    ensures Read(FlushBut(m, n)) == Read(m) && |FlushBut(m, n).buffer| == n
  {
    var k := |m.buffer| - n;
    assert m.buffer[..k] + m.buffer[k..] == m.buffer;
    Assoc(m.flushed, m.buffer[..k], m.buffer[k..]);
  }

  /** Nothing left the buffer but through the hooks, or as a dropped boundary. */
  predicate Accounted(m: Machine, r: Machine) {
    if r.state == HdrStart then r.flushed + r.dropped == Read(m) && r.buffer == [] else Read(r) == Read(m)
  }

  lemma BdyKeeps(m: Machine, ch: octet)
    requires m.dec.Valid() && EndsWith(m.buffer, ch) && m.state != HdrStart
    ensures Accounted(m, StateBdy(m, ch))
  {
    hide FlushBut, Decode;
    FlushButKeeps(m, BreakLength(m.buffer));
    FlushButState(m, BreakLength(m.buffer));
  }

  lemma FlushButState(m: Machine, n: nat)
    requires n <= |m.buffer|
    ensures FlushBut(m, n).state == m.state && FlushBut(m, n).dec == m.dec
  {
  }

  lemma BdyLFKeeps(m: Machine, ch: octet)
    requires m.dec.Valid() && EndsWith(m.buffer, ch) && m.state != HdrStart
    ensures Accounted(m, StateBdyLF(m, ch))
  {
    hide FlushBut, Decode, StateBdy;
    FlushButKeeps(m, if ch == CR then 1 else 0);
    FlushButState(m, if ch == CR then 1 else 0);
    if ch == LF {
      BdyKeeps(Feed(m, LF), LF);
    }
  }

  lemma BoundaryKeeps(m: Machine, ch: octet)
    requires m.dec.Valid() && m.state == Boundary
    ensures Accounted(m, StateBoundary(m, ch))
  {
    hide Decode, DecodeAll, IsBoundaryLine;
  }

  lemma SourceKeeps(m: Machine, ch: octet)
    requires m.dec.Valid() && EndsWith(m.buffer, ch) && m.state != HdrStart
    ensures Accounted(m, Source(m, ch))
  {
    hide Decode, StateBdy, StateBdyLF, StateBoundary;
    var m' := m.(state := Bdy);
    match m.state
    case HdrBdy =>
      BdyKeeps(m', ch);
      BdyLFKeeps(m', ch);
    case Bdy => BdyKeeps(m, ch);
    case BdyLF => BdyLFKeeps(m, ch);
    case Dash1 =>
    case Dash2 =>
    case Boundary => BoundaryKeeps(m, ch);
  }

  /**
   Whatever the body is, what the source hooks were handed and what the source buffer
   still holds is the body so far, and a recognised boundary is all that is dropped.
   */
  lemma NothingLostFromSource(m: Machine, ch: octet)
    requires m.Valid() && m.state != HdrStart
    ensures var r := NextOctet(m, ch);
            if r.state == HdrStart then r.flushed + r.dropped == Read(m) + [ch] && r.buffer == []
            else Read(r) == Read(m) + [ch]
  {
    hide Source;
    var p := m.(buffer := m.buffer + [ch]);
    SourceKeeps(p, ch);
    Assoc(m.flushed, m.buffer, [ch]);
    assert Read(p) == Read(m) + [ch];
  }

  // ---------- Lines ----------

  /** The length of the line that s ends in, after its last LF. */
  function Line(s: seq<octet>): nat {
    if s == [] || s[|s| - 1] == LF then 0 else Line(s[..|s| - 1]) + 1
  }

  /** The length of the line before that, with its LF. */
  function LineBefore(s: seq<octet>): nat {
    if s == [] then 0
    else if s[|s| - 1] == LF then Line(s[..|s| - 1]) + 1
    else LineBefore(s[..|s| - 1])
  }

  lemma LineSnoc(s: seq<octet>, c: octet)
    ensures Line(s + [c]) == if c == LF then 0 else Line(s) + 1
    ensures LineBefore(s + [c]) == if c == LF then Line(s) + 1 else LineBefore(s)
  {
    assert (s + [c])[..|s|] == s;
  }

  /** The last two lines of s fit the source buffer, with the line break before them. */
  predicate Fits(s: seq<octet>) {
    LineBefore(s) + Line(s) + 2 < MIME_BUFFER_SIZE - 1
  }

  // ---------- What is deferred ----------

  /** The line break, without its CR, and what follows it so far. */
  function Deferred(m: Machine): seq<octet> {
    if Deferring(m.state) && |m.dec.Held()| <= |m.buffer| then m.buffer[|m.dec.Held()|..] else []
  }

  /** What the deferred octets look like in each state. */
  predicate LeadIn(state: SourceState, s: seq<octet>) {
    match state
    case BdyLF => s == [LF]
    case Dash1 => s == [LF, DASH]
    case Dash2 => s == [LF, DASH, DASH]
    case Boundary => 3 < |s| && s[..3] == [LF, DASH, DASH] && NoLf(s[1..])
    case _ => s == []
  }

  /**
   What was decoded, the held CR and what is deferred are the body so far, the held CR
   being the body's last octet or the first of the deferred line break.
   */
  ghost predicate Kept(m: Machine, body: seq<octet>) {
    && m.Valid() && Has(m.dec, m.dec.All())
    && m.dec.All() + Deferred(m) == body
    && LeadIn(m.state, Deferred(m))
    && m.state != HdrStart
    && if Deferring(m.state) then Candidate(m, body) else InText(m, body)
  }

  ghost predicate InText(m: Machine, body: seq<octet>) {
    && (m.dec.cr <==> EndsWith(body, CR)) && (m.dec.cr <==> EndsWith(m.buffer, CR))
    && (m.state == HdrBdy <==> body == [])
    && |m.buffer| <= LineBefore(body) + Line(body) + 2
  }

  ghost predicate Candidate(m: Machine, body: seq<octet>) {
    && m.multipart
    && m.buffer == m.dec.Held() + Deferred(m)
    && |m.buffer| <= Line(body) + 2
  }

  /** The next octet does not put a CR behind a CR, a hyphen first of all, or too much on a line. */
  predicate Allowed(body: seq<octet>, ch: octet) {
    && !(EndsWith(body, CR) && ch == CR)
    && (body == [] ==> ch != DASH)
    && Fits(body + [ch])
  }

  // ---------- One octet through the decoder ----------

  /** The literal decoder has the octets s, and a CR only if that is its last. */
  ghost predicate Has(d: Decoder, s: seq<octet>) {
    d.Valid() && d.state == Literal && d.All() == s && !EndsWith(d.Out(), CR)
  }

  lemma Fed(m: Machine, ch: octet, s: seq<octet>)
    requires Has(m.dec, s) && !(ch == CR && m.dec.cr)
    ensures Has(Feed(m, ch).dec, s + [ch]) && (Feed(m, ch).dec.cr <==> ch == CR)
  {
    AddKeeps(m.dec, ch);
    var d, d' := m.dec, Feed(m, ch).dec;
    if d'.cr {
      assert d'.Out() + [CR] == d.Out() + [CR];
      assert d'.Out() == (d'.Out() + [CR])[..|d'.Out()|];
      assert d.Out() == (d.Out() + [CR])[..|d.Out()|];
    } else {
      assert d'.All() == d'.Out();
    }
  }

  lemma {:induction false} FedAll(d: Decoder, s: seq<octet>)
    requires d.Valid() && d.state == Literal
    ensures DecodeAll(d, s).state == Literal && DecodeAll(d, s).All() == d.All() + s
  {
    if s == [] {
      assert d.All() + [] == d.All();
    } else {
      var n := |s| - 1;
      FedAll(d, s[..n]);
      AddKeeps(DecodeAll(d, s[..n]), s[n]);
      Assoc(d.All(), s[..n], [s[n]]);
      assert s == s[..n] + [s[n]];
    }
  }

  // ---------- One octet through the states ----------

  function Pushed(m: Machine, ch: octet): Machine {
    m.(buffer := m.buffer + [ch])
  }

  /** Decoded text is kept if the held CR is in the source buffer too. */
  lemma TextKept(r: Machine, body: seq<octet>)
    requires r.Valid() && r.state == Bdy && body != [] && Has(r.dec, body)
    requires (r.dec.cr <==> EndsWith(body, CR)) && (r.dec.cr <==> EndsWith(r.buffer, CR))
    requires |r.buffer| <= LineBefore(body) + Line(body) + 2
    ensures Kept(r, body)
  {
    hide Has, EndsWith, Line, LineBefore;
    HasAll(r.dec, body);
    assert body + [] == body;
  }

  lemma HasAll(d: Decoder, s: seq<octet>)
    requires Has(d, s)
    ensures d.All() == s && Has(d, d.All())
  {
  }

  lemma KeptText(m: Machine, body: seq<octet>)
    requires Kept(m, body) && !Deferring(m.state)
    ensures Has(m.dec, body) && InText(m, body)
  {
    assert m.dec.All() + [] == m.dec.All();
  }

  /** A candidate boundary grows by one octet. */
  lemma CandidateGrows(m: Machine, body: seq<octet>, ch: octet, state: SourceState)
    requires Kept(m, body) && Deferring(m.state) && Deferring(state) && ch != LF && Fits(body + [ch])
    requires LeadIn(state, Deferred(m) + [ch])
    ensures Kept(Pushed(m, ch).(state := state), body + [ch])
  {
    hide Kept, Has, LeadIn, Deferred, Line, LineBefore;
    KeptCandidate(m, body);
    KeptIsValid(m, body);
    LineSnoc(body, ch);
    Assoc(m.dec.Held(), Deferred(m), [ch]);
    Assoc(m.dec.All(), Deferred(m), [ch]);
    CandidateKept(Pushed(m, ch).(state := state), m.dec.All(), Deferred(m) + [ch], body + [ch]);
  }

  lemma PlainOctet(m: Machine, body: seq<octet>, ch: octet)
    requires Kept(m, body) && !Deferring(m.state) && Allowed(body, ch) && ch != LF
    ensures Kept(Feed(Pushed(m, ch).(state := Bdy), ch), body + [ch])
  {
    hide Decode, Has;
    KeptText(m, body);
    Fed(Pushed(m, ch).(state := Bdy), ch, body);
    LineSnoc(body, ch);
    TextKept(Feed(Pushed(m, ch).(state := Bdy), ch), body + [ch]);
  }

  /** The line break at the end of a line is the held CR and the LF. */
  lemma BreakInText(m: Machine, body: seq<octet>)
    requires Kept(m, body) && !Deferring(m.state)
    ensures var p := Pushed(m, LF);
            p.buffer[|p.buffer| - BreakLength(p.buffer)..] == m.dec.Held() + [LF]
  {
    hide Line, LineBefore, Has;
  }

  lemma CandidateKept(r: Machine, s: seq<octet>, x: seq<octet>, body: seq<octet>)
    requires r.Valid() && Deferring(r.state) && r.multipart && Has(r.dec, s)
    requires r.buffer == r.dec.Held() + x && LeadIn(r.state, x) && s + x == body
    requires |r.buffer| <= Line(body) + 2
    ensures Kept(r, body)
  {
    hide Has, EndsWith, Line, LineBefore;
    HasAll(r.dec, s);
    assert Deferred(r) == x;
  }

  lemma BreakDeferred(m: Machine, body: seq<octet>, r: Machine)
    requires Has(m.dec, body) && r.dec == m.dec && r.buffer == m.dec.Held() + [LF]
    requires r.multipart && r.state == BdyLF
    ensures Kept(r, body + [LF])
  {
    hide Has;
    LineSnoc(body, LF);
    HasIsValid(m.dec, body);
    CandidateKept(r, body, [LF], body + [LF]);
  }

  lemma HasIsValid(d: Decoder, s: seq<octet>)
    requires Has(d, s)
    ensures d.Valid() && d.state == Literal
  {
  }

  lemma BreakDecoded(p: Machine, body: seq<octet>, r: Machine)
    requires Has(p.dec, body) && r.dec == Feed(p, LF).dec && EndsWith(r.buffer, LF) && |r.buffer| <= 2
    requires r.state == Bdy
    ensures Kept(r, body + [LF])
  {
    hide Has, Decode;
    Fed(p, LF, body);
    LineSnoc(body, LF);
    TextKept(r, body + [LF]);
  }

  lemma LineEnds(m: Machine, body: seq<octet>)
    requires Kept(m, body) && !Deferring(m.state)
    ensures Kept(StateBdy(Pushed(m, LF).(state := Bdy), LF), body + [LF])
  {
    hide Decode, Has, Kept;
    KeptText(m, body);
    BreakInText(m, body);
    var p := Pushed(m, LF).(state := Bdy);
    var r := StateBdy(p, LF);
    if m.multipart {
      BreakDeferred(m, body, r);
    } else {
      BreakDecoded(p, body, r);
    }
  }

  /** The last octet of a line that is no boundary after all, once the rest of it is decoded. */
  lemma ReleasedKept(d: Machine, r: Machine, text: seq<octet>, ch: octet)
    requires Has(d.dec, text) && !d.dec.cr && r.dec == Feed(d, ch).dec && r.state == Bdy
    requires (ch == CR <==> EndsWith(r.buffer, CR)) && |r.buffer| <= Line(text) + 3 && Fits(text + [ch])
    ensures Kept(r, text + [ch])
  {
    hide Has, Decode;
    Fed(d, ch, text);
    LineSnoc(text, ch);
    TextKept(r, text + [ch]);
  }

  lemma FedBreak(m: Machine, s: seq<octet>)
    requires Has(m.dec, s)
    ensures m.dec.Valid() && var m1 := Feed(m, LF); var m2 := Feed(m1, DASH); var m3 := Feed(m2, DASH);
            && Has(m1.dec, s + [LF]) && !m1.dec.cr
            && Has(m2.dec, s + [LF, DASH]) && !m2.dec.cr
            && Has(m3.dec, s + [LF, DASH, DASH]) && !m3.dec.cr
  {
    hide Has, Decode;
    HasIsValid(m.dec, s);
    Fed(m, LF, s);
    Fed(Feed(m, LF), DASH, s + [LF]);
    assert s + [LF] + [DASH] == s + [LF, DASH];
    Fed(Feed(Feed(m, LF), DASH), DASH, s + [LF, DASH]);
    assert s + [LF, DASH] + [DASH] == s + [LF, DASH, DASH];
  }

  lemma KeptCandidate(m: Machine, body: seq<octet>)
    requires Kept(m, body) && Deferring(m.state)
    ensures Has(m.dec, m.dec.All()) && m.dec.All() + Deferred(m) == body && |m.buffer| <= Line(body) + 2
    ensures LeadIn(m.state, Deferred(m)) && m.buffer == m.dec.Held() + Deferred(m) && m.multipart
  {
  }

  lemma FromDash1(m: Machine, body: seq<octet>, ch: octet)
    requires Kept(m, body) && m.state == Dash1 && Fits(body + [ch])
    ensures Kept(StateDash1(Pushed(m, ch), ch), body + [ch])
  {
    hide Has, Decode, Kept;
    KeptCandidate(m, body);
    if ch == DASH {
      CandidateGrows(m, body, ch, Dash2);
    } else {
      var p := Pushed(m, ch);
      FedBreak(p, m.dec.All());
      ReleasedKept(Feed(Feed(p, LF), DASH), StateDash1(p, ch), body, ch);
    }
  }

  lemma BoundaryBegins(x: seq<octet>, ch: octet)
    requires LeadIn(Dash2, x) && ch != LF
    ensures LeadIn(Boundary, x + [ch])
  {
    assert (x + [ch])[..3] == x;
  }

  lemma FromDash2(m: Machine, body: seq<octet>, ch: octet)
    requires Kept(m, body) && m.state == Dash2 && Fits(body + [ch])
    ensures Kept(StateDash2(Pushed(m, ch), ch), body + [ch])
  {
    hide Has, Decode, Kept, LeadIn, IsBoundaryChar;
    KeptCandidate(m, body);
    var p := Pushed(m, ch);
    if IsSpace(ch) || !IsBoundaryChar(ch) {
      NotABoundary(m, body, ch);
    } else {
      BoundaryBegins(Deferred(m), ch);
      CandidateGrows(m, body, ch, Boundary);
    }
  }

  lemma NotABoundary(m: Machine, body: seq<octet>, ch: octet)
    requires Kept(m, body) && m.state == Dash2 && Fits(body + [ch])
    ensures m.dec.Valid()
    ensures var p := Pushed(m, ch); Kept(Feed(Feed(Feed(Feed(p, LF), DASH), DASH), ch).(state := Bdy), body + [ch])
  {
    hide Has, Decode, Kept;
    KeptIsValid(m, body);
    KeptCandidate(m, body);
    var p := Pushed(m, ch);
    FedBreak(p, m.dec.All());
    var d := Feed(Feed(Feed(p, LF), DASH), DASH);
    ReleasedKept(d, Feed(d, ch).(state := Bdy), body, ch);
  }

  /** A second LF: the first is decoded, and the second is deferred. */
  lemma BreakAgain(m: Machine, body: seq<octet>)
    requires Kept(m, body) && m.state == BdyLF
    ensures m.dec.Valid() && Kept(StateBdyLF(Pushed(m, LF), LF), body + [LF])
  {
    hide Has, Decode, Kept;
    KeptIsValid(m, body);
    KeptCandidate(m, body);
    var p := Pushed(m, LF);
    FedBreak(p, m.dec.All());
    assert p.buffer[|p.buffer| - 1..] == [LF];
    assert Feed(p, LF).dec.Held() + [LF] == [LF];
    BreakDeferred(Feed(p, LF), body, StateBdyLF(p, LF));
  }

  lemma FlushedButCr(b: seq<octet>, ch: octet)
    ensures (b + [ch])[|b + [ch]| - (if ch == CR then 1 else 0)..] == if ch == CR then [CR] else []
  {
  }

  /** Any other octet: the LF is decoded, and a CR stays in the source buffer. */
  lemma BreakReleased(m: Machine, body: seq<octet>, ch: octet)
    requires Kept(m, body) && m.state == BdyLF && Fits(body + [ch]) && ch != LF && ch != DASH
    ensures m.dec.Valid() && Kept(StateBdyLF(Pushed(m, ch), ch), body + [ch])
  {
    hide Has, Decode, Kept;
    KeptIsValid(m, body);
    KeptCandidate(m, body);
    var p := Pushed(m, ch);
    FedBreak(p, m.dec.All());
    FlushedButCr(m.buffer, ch);
    ReleasedKept(Feed(p, LF), StateBdyLF(p, ch), body, ch);
  }

  lemma FromBdyLF(m: Machine, body: seq<octet>, ch: octet)
    requires Kept(m, body) && m.state == BdyLF && Fits(body + [ch])
    ensures m.dec.Valid() && Kept(StateBdyLF(Pushed(m, ch), ch), body + [ch])
  {
    hide Has, Decode, Kept;
    KeptIsValid(m, body);
    if ch == DASH {
      KeptCandidate(m, body);
      CandidateGrows(m, body, ch, Dash1);
    } else if ch == LF {
      BreakAgain(m, body);
    } else {
      BreakReleased(m, body, ch);
    }
  }

  /** A boundary line, with the line break in front of it unless it is the first line. */
  ghost predicate IsDelimiter(line: seq<octet>, quoted: bool) {
    && IsBoundaryLine(line, quoted) && EndsWith(line, LF)
    && ([LF, DASH, DASH] <= line || [CR, LF, DASH, DASH] <= line || [DASH, DASH] <= line)
  }

  /** Everything decoded is everything in front of the line break, CR and LF or just LF. */
  ghost predicate Found(m: Machine, quoted: bool, body: seq<octet>) {
    && m.dec.flushed + m.dropped == body
    && m.dec.buffer == [] && !m.dec.cr
    && IsDelimiter(m.dropped, quoted)
    && (m.dropped[0] == LF ==> !EndsWith(m.dec.flushed, CR))
    && (m.dropped[0] == DASH ==> m.dec.flushed == [])
  }

  lemma HeldCandidate(m: Machine, body: seq<octet>)
    requires Kept(m, body) && Deferring(m.state)
    ensures m.dec.Out() + m.buffer == body
    ensures !EndsWith(m.dec.Out(), CR) && m.dec.state == Literal && m.dec.Valid()
  {
    Assoc(m.dec.Out(), m.dec.Held(), Deferred(m));
  }

  lemma LineRecognised(m: Machine, body: seq<octet>)
    requires Kept(m, body) && m.state == Boundary && IsBoundaryLine(m.buffer + [LF], m.quoted)
    ensures Found(Recognised(Pushed(m, LF)), m.quoted, body + [LF])
  {
    hide IsBoundaryLine, Kept, Add, LineBefore, Line;
    HeldCandidate(m, body);
    KeptCandidate(m, body);
    var d := m.dec.(cr := false, state := Literal);
    AddKeeps(d, EOF);
    assert d.All() == m.dec.Out();
    Assoc(m.dec.Out(), m.buffer, [LF]);
    LeadInFirst(m, Deferred(m));
  }

  lemma LeadInFirst(m: Machine, x: seq<octet>)
    requires m.state == Boundary && LeadIn(m.state, x) && m.buffer == m.dec.Held() + x
    ensures [LF, DASH, DASH] <= m.buffer + [LF] || [CR, LF, DASH, DASH] <= m.buffer + [LF]
    ensures (m.buffer + [LF])[0] == if m.dec.cr then CR else LF
  {
    if m.dec.cr {
      assert (m.buffer + [LF])[1..4] == x[..3];
    } else {
      assert (m.buffer + [LF])[..3] == x[..3];
    }
  }

  lemma LineReplayed(m: Machine, body: seq<octet>)
    requires Kept(m, body) && m.state == Boundary && Fits(body + [LF])
    ensures Kept(Replayed(Pushed(m, LF), LF), body + [LF])
  {
    hide Kept, Decode, DecodeAll;
    HeldCandidate(m, body);
    KeptCandidate(m, body);
    LineSnoc(body, LF);
    var d := m.dec.(cr := false);
    ReplayedText(d, m.buffer, body);
    var r := Replayed(Pushed(m, LF), LF);
    TextKept(r, body + [LF]);
  }

  lemma ReplayedText(d: Decoder, s: seq<octet>, body: seq<octet>)
    requires d.Valid() && d.state == Literal && !d.cr && d.Out() + s == body
    ensures Has(DecodeAll(d, s + [LF]), body + [LF]) && !DecodeAll(d, s + [LF]).cr
  {
    hide DecodeAll, Add;
    var d1 := DecodeAll(d, s);
    FedAll(d, s);
    assert d.All() == d.Out();
    LastDecoded(d, s, LF);
    AddKeeps(d1, LF);
    FedAll(d, s + [LF]);
    assert DecodeAll(d, s + [LF]).All() == DecodeAll(d, s + [LF]).Out();
  }

  /**
   After every octet the decoded output, the held CR and the deferred line break are
   the body so far; or the octet completed a boundary line, and what is decoded is
   just what came before the line break in front of it.
   */
  lemma NothingLostFromDecoder(m: Machine, body: seq<octet>, ch: octet)
    requires Kept(m, body) && Allowed(body, ch)
    ensures var r := NextOctet(m, ch);
            if r.state == HdrStart then Found(r, m.quoted, body + [ch]) else Kept(r, body + [ch])
  {
    hide Kept, Decode, Has, IsBoundaryLine;
    SourceStep(m, body, ch);
    var r := Source(Pushed(m, ch), ch);
    if r.state != HdrStart {
      KeptFits(r, body + [ch]);
    }
  }

  lemma KeptFits(m: Machine, body: seq<octet>)
    requires Kept(m, body) && Fits(body)
    ensures |m.buffer| < MIME_BUFFER_SIZE - 1
  {
  }

  lemma KeptIsValid(m: Machine, body: seq<octet>)
    requires Kept(m, body)
    ensures m.Valid() && m.state != HdrStart && (m.state == HdrBdy <==> body == [])
  {
  }

  lemma SourceStep(m: Machine, body: seq<octet>, ch: octet)
    requires Kept(m, body) && Allowed(body, ch)
    ensures m.Valid() && m.state != HdrStart
    ensures var r := Source(Pushed(m, ch), ch);
            if r.state == HdrStart then Found(r, m.quoted, body + [ch]) else Kept(r, body + [ch])
  {
    hide Kept, Decode, Has, IsBoundaryLine, Found, StateBdyLF, StateDash1, StateDash2, Recognised, Replayed;
    KeptIsValid(m, body);
    match m.state
    case HdrBdy => TextStep(m, body, ch);
    case Bdy => TextStep(m, body, ch);
    case BdyLF =>
      FromBdyLF(m, body, ch);
      KeptIsValid(StateBdyLF(Pushed(m, ch), ch), body + [ch]);
    case Dash1 =>
      FromDash1(m, body, ch);
      KeptIsValid(StateDash1(Pushed(m, ch), ch), body + [ch]);
    case Dash2 =>
      FromDash2(m, body, ch);
      KeptIsValid(StateDash2(Pushed(m, ch), ch), body + [ch]);
    case Boundary => FromBoundary(m, body, ch);
  }

  lemma TextStep(m: Machine, body: seq<octet>, ch: octet)
    requires Kept(m, body) && Allowed(body, ch) && !Deferring(m.state) && (m.state == HdrBdy ==> ch != DASH)
    ensures m.dec.Valid()
    ensures var r := StateBdy(Pushed(m, ch).(state := Bdy), ch); r.state != HdrStart && Kept(r, body + [ch])
  {
    hide Decode, Has, Kept;
    KeptIsValid(m, body);
    if ch == LF {
      LineEnds(m, body);
      KeptIsValid(StateBdy(Pushed(m, LF).(state := Bdy), LF), body + [LF]);
    } else {
      PlainOctet(m, body, ch);
    }
  }

  lemma FromBoundary(m: Machine, body: seq<octet>, ch: octet)
    requires Kept(m, body) && m.state == Boundary && Fits(body + [ch])
    ensures m.dec.Valid()
    ensures var r := StateBoundary(Pushed(m, ch), ch);
            if r.state == HdrStart then Found(r, m.quoted, body + [ch]) else Kept(r, body + [ch])
  {
    hide Kept, Decode, DecodeAll, IsBoundaryLine, Found;
    KeptIsValid(m, body);
    KeptCandidate(m, body);
    LineSnoc(body, ch);
    if ch != LF {
      NoLfGrows(Deferred(m), ch);
      CandidateGrows(m, body, ch, Boundary);
      assert Pushed(m, ch).(state := Boundary) == Pushed(m, ch);
    } else if IsBoundaryLine(m.buffer + [LF], m.quoted) {
      LineRecognised(m, body);
    } else {
      LineReplayed(m, body);
    }
  }

  lemma NoLfGrows(x: seq<octet>, ch: octet)
    requires LeadIn(Boundary, x) && ch != LF
    ensures LeadIn(Boundary, x + [ch])
  {
    assert (x + [ch])[..3] == x[..3];
    assert (x + [ch])[1..] == x[1..] + [ch];
  }

  // ---------- The end of the input ----------

  /** At EOF a held CR is let go, but a deferred line break and what follows it are lost. */
  lemma EofLosesDeferred(m: Machine, body: seq<octet>)
    requires Kept(m, body)
    ensures NextEof(m).dec.flushed + Deferred(m) == body
    ensures NextEof(m).dec.flushed == body <==> !Deferring(m.state)
  {
    AddKeeps(m.dec, EOF);
    var f := NextEof(m).dec.flushed;
    assert f == m.dec.All();
    assert f + [] == f;
    if f == body {
      assert |Deferred(m)| == 0;
    }
  }

  // ---------- Whole bodies ----------

  /** No CR behind a CR, no hyphen first of all, and no two lines too long for the source buffer. */
  ghost predicate AllAllowed(body: seq<octet>) {
    forall n :: 0 <= n < |body| ==> Allowed(body[..n], body[n])
  }

  lemma AllAllowedFront(body: seq<octet>, n: nat)
    requires AllAllowed(body) && n <= |body|
    ensures AllAllowed(body[..n])
  {
    forall k | 0 <= k < n ensures Allowed(body[..n][..k], body[..n][k]) {
      assert body[..n][..k] == body[..k];
      assert Allowed(body[..k], body[k]);
    }
  }

  // ---------- A hyphen first of all ----------

  /** A first line that may be a boundary is decoded again once it is none, and then without the line break. */
  predicate ReplayedAtStart(multipart: bool, body: seq<octet>) {
    multipart && 2 < |body| && Undecided(body) && LF in body
  }

  /** What a body shows of itself once it is decoded: a line break is added to some that start with a hyphen. */
  function Shown(multipart: bool, body: seq<octet>): seq<octet> {
    if ReplayedAtStart(multipart, body) then body else Led(body)
  }

  /** It shows the body itself just when the body starts with no hyphen, or with a line decoded again. */
  lemma ShownIff(multipart: bool, body: seq<octet>)
    ensures Shown(multipart, body) == body <==> body == [] || body[0] != DASH || ReplayedAtStart(multipart, body)
  {
    assert |[LF] + body| == |body| + 1;
  }

  /** The first line may be a boundary, and has not come to its end. */
  predicate InLead(multipart: bool, body: seq<octet>) {
    multipart && Undecided(body) && NoLf(body)
  }

  /** The machine at a first line that may be a boundary: all of it is in the source buffer. */
  function AtLead(body: seq<octet>): Machine {
    Begin(true, false).(buffer := body, state := if |body| == 1 then Dash1 else if |body| == 2 then Dash2 else Boundary)
  }

  /** After a body: nothing is decoded of such a line yet, or what the body shows is kept. */
  ghost predicate KeptAs(m: Machine, multipart: bool, body: seq<octet>) {
    if InLead(multipart, body) then m == AtLead(body)
    else Kept(m, Shown(multipart, body)) && m.multipart == multipart && !m.quoted
  }

  lemma {:induction false} LineBehind(s: seq<octet>)
    ensures Line([LF] + s) == Line(s)
    ensures LineBefore(s) <= LineBefore([LF] + s)
  {
    if s == [] {
      assert [LF] + [] == [LF];
    } else {
      var n := |s| - 1;
      LineBehind(s[..n]);
      assert [LF] + s == ([LF] + s[..n]) + [s[n]] && s == s[..n] + [s[n]];
      LineSnoc([LF] + s[..n], s[n]);
      LineSnoc(s[..n], s[n]);
    }
  }

  lemma AllowedShown(multipart: bool, body: seq<octet>, ch: octet)
    requires body != [] && Allowed(Led(body), ch)
    ensures Allowed(Shown(multipart, body), ch)
  {
    LineBehind(body + [ch]);
    Assoc([LF], body, [ch]);
  }

  /** A first line that is no boundary stays what it is. */
  lemma ShownSnoc(multipart: bool, body: seq<octet>, ch: octet)
    requires body != [] && !InLead(multipart, body)
    ensures !InLead(multipart, body + [ch])
    ensures Shown(multipart, body + [ch]) == Shown(multipart, body) + [ch]
  {
    hide IsBoundaryChar, IsSpace;
    LedSnoc(body, ch);
    UndecidedSnoc(body, ch);
    UndecidedShort(body);
    if body == [DASH, DASH] {
      assert LF !in body;
    }
  }

  lemma HyphenOfSingle()
    ensures var r := NextOctet(Begin(false, false), DASH);
            Kept(r, [LF, DASH]) && r.state != HdrStart && !r.multipart && !r.quoted
  {
    hide Kept, Has, Decode, Line, LineBefore;
    var p := Begin(false, false).(buffer := [DASH]);
    assert [] + [DASH] == [DASH];
    var f := FlushBut(p, 0);
    assert f.buffer == [];
    HasNothing(f.dec);
    FedBreak(f, []);
    assert [] + [LF] == [LF] && [] + [LF, DASH] == [LF, DASH];
    TextKept(Feed(Feed(f, LF), DASH).(state := Bdy), [LF, DASH]);
  }

  lemma HasNothing(d: Decoder)
    requires d == Decoder([], [], false, Literal, NUL)
    ensures Has(d, []) && d.Valid()
  {
  }

  /** The first octet: a hyphen of a multipart may begin a boundary. */
  lemma FirstOctet(multipart: bool, ch: octet)
    requires ch != DASH ==> Allowed([], ch)
    ensures var r := NextOctet(Begin(multipart, false), ch); r.state != HdrStart && KeptAs(r, multipart, [ch])
  {
    hide Kept, Has, Decode, Allowed;
    var m := Begin(multipart, false);
    assert [] + [ch] == [ch];
    if ch != DASH {
      BeginKept(multipart);
      NothingLostFromDecoder(m, [], ch);
      SourceKeepsKind(m, ch);
    } else if !multipart {
      HyphenOfSingle();
      assert [LF] + [DASH] == [LF, DASH];
    }
  }

  lemma LeadFits(body: seq<octet>, ch: octet)
    requires InLead(true, body) && Fits(Led(body) + [ch])
    ensures Led(body) == [LF] + body && |body| + 3 < MIME_BUFFER_SIZE - 1
    ensures [DASH] <= body && (|body| == 1 || [DASH, DASH] <= body)
    ensures AtLead(body).Valid()
    ensures Line(Led(body)) == |body|
  {
    if 1 < |body| {
      assert body[0] == body[..2][0];
    }
    LineOfLead(body);
    LineSnoc([LF] + body, ch);
  }

  /** The first line is no boundary after one hyphen: a line break is put in front of it ... */
  lemma HyphenReleased(ch: octet)
    requires ch != DASH && Fits([LF, DASH] + [ch]) && AtLead([DASH]).Valid()
    ensures var r := NextOctet(AtLead([DASH]), ch);
            Kept(r, [LF, DASH] + [ch]) && r.state == Bdy && r.multipart && !r.quoted
  {
    hide Kept, Has, Decode, Line, LineBefore;
    LineOfLead([DASH]);
    assert [LF] + [DASH] == [LF, DASH];
    var p := Pushed(AtLead([DASH]), ch);
    HasNothing(p.dec);
    FedBreak(p, []);
    assert [] + [LF, DASH] == [LF, DASH];
    ReleasedKept(Feed(Feed(p, LF), DASH), StateDash1(p, ch), [LF, DASH], ch);
  }

  /** ... or after two. */
  lemma HyphensReleased(ch: octet)
    requires (IsSpace(ch) || !IsBoundaryChar(ch)) && Fits([LF, DASH, DASH] + [ch]) && AtLead([DASH, DASH]).Valid()
    ensures var r := NextOctet(AtLead([DASH, DASH]), ch);
            Kept(r, [LF, DASH, DASH] + [ch]) && r.state == Bdy && r.multipart && !r.quoted
  {
    hide Kept, Has, Decode, Line, LineBefore, IsSpace, IsBoundaryChar;
    LineOfLead([DASH, DASH]);
    assert [LF] + [DASH, DASH] == [LF, DASH, DASH];
    var p := Pushed(AtLead([DASH, DASH]), ch);
    HasNothing(p.dec);
    FedBreak(p, []);
    assert [] + [LF, DASH, DASH] == [LF, DASH, DASH];
    ReleasedKept(Feed(Feed(Feed(p, LF), DASH), DASH), StateDash2(p, ch), [LF, DASH, DASH], ch);
  }

  lemma LeadReleased(body: seq<octet>, ch: octet)
    requires InLead(true, body) && !Undecided(body + [ch]) && |body| <= 2
    requires Fits(Led(body) + [ch]) && AtLead(body).Valid()
    ensures var r := NextOctet(AtLead(body), ch); Kept(r, Led(body) + [ch]) && r.state == Bdy && r.multipart && !r.quoted
  {
    hide Kept, NextOctet, Fits, IsSpace, IsBoundaryChar;
    UndecidedSnoc(body, ch);
    if body == [DASH] {
      assert Led(body) == [LF, DASH];
      HyphenReleased(ch);
    } else {
      assert Led(body) == [LF, DASH, DASH];
      HyphensReleased(ch);
    }
  }

  lemma {:induction false} LineOfLead(s: seq<octet>)
    requires NoLf(s)
    ensures Line([LF] + s) == |s|
  {
    if s == [] {
      assert [LF] + [] == [LF];
    } else {
      var n := |s| - 1;
      LineOfLead(s[..n]);
      assert [LF] + s == ([LF] + s[..n]) + [s[n]];
      LineSnoc([LF] + s[..n], s[n]);
    }
  }

  /** The first line goes on. */
  lemma LeadGrows(body: seq<octet>, ch: octet)
    requires InLead(true, body) && ch != LF && Undecided(body + [ch])
    requires Fits(Led(body) + [ch]) && AtLead(body).Valid()
    ensures NextOctet(AtLead(body), ch) == AtLead(body + [ch])
  {
    hide Kept, Has, Decode, Line, LineBefore, IsSpace, IsBoundaryChar, IsBoundaryLine;
    UndecidedSnoc(body, ch);
    UndecidedShort(body);
    LeadFits(body, ch);
  }

  /** The first line is the boundary: nothing is decoded. */
  lemma LeadFound(body: seq<octet>)
    requires AtLead(body).Valid() && [DASH, DASH] <= body && IsBoundaryLine(body + [LF], false)
    ensures Found(Recognised(Pushed(AtLead(body), LF)), false, body + [LF])
  {
    hide Add, IsBoundaryLine;
    AddKeeps(AtLead(body).dec, EOF);
    assert (body + [LF])[..2] == body[..2];
    assert [] + (body + [LF]) == body + [LF];
  }

  /** The first line comes to its end: it is the boundary, or all of it is decoded. */
  lemma LeadEnds(body: seq<octet>)
    requires InLead(true, body) && 2 < |body| && Fits(Led(body) + [LF]) && AtLead(body).Valid()
    ensures var r := NextOctet(AtLead(body), LF);
            if r.state == HdrStart then Found(r, false, body + [LF])
            else Kept(r, body + [LF]) && r.multipart && !r.quoted
  {
    hide Kept, Has, Decode, DecodeAll, Line, LineBefore, IsBoundaryLine, Found;
    var m := AtLead(body);
    LeadFits(body, LF);
    if IsBoundaryLine(body + [LF], false) {
      LeadFound(body);
    } else {
      HasNothing(m.dec);
      assert [] + body == body;
      ReplayedText(m.dec, body, body);
      LineSnoc(body, LF);
      LineBehind(body);
      TextKept(Replayed(Pushed(m, LF), LF), body + [LF]);
    }
  }

  /** One more octet of a first line that may be a boundary. */
  lemma LeadStep(body: seq<octet>, ch: octet)
    requires InLead(true, body) && Fits(Led(body) + [ch]) && AtLead(body).Valid()
    ensures var r := NextOctet(AtLead(body), ch);
            if r.state == HdrStart then Found(r, false, Shown(true, body + [ch])) else KeptAs(r, true, body + [ch])
  {
    hide Kept, NextOctet, Fits, Found, IsSpace, IsBoundaryChar, Undecided;
    UndecidedShort(body);
    UndecidedSnoc(body, ch);
    LeadFits(body, ch);
    LedSnoc(body, ch);
    if ch == LF && 2 < |body| {
      LeadEnds(body);
    } else if Undecided(body + [ch]) {
      assert IsSpace(LF) by { LfIsSpace(); }
      LeadGrows(body, ch);
    } else {
      LeadReleased(body, ch);
    }
  }

  /** One more octet of any body but for its first. */
  lemma LaterOctet(m: Machine, multipart: bool, body: seq<octet>, ch: octet)
    requires body != [] && KeptAs(m, multipart, body) && Allowed(Led(body), ch)
    ensures m.Valid() && m.state != HdrStart
    ensures var r := NextOctet(m, ch);
            if r.state == HdrStart then Found(r, false, Shown(multipart, body + [ch]))
            else KeptAs(r, multipart, body + [ch])
  {
    hide Kept, NextOctet, Fits, Found, Undecided, Shown;
    if InLead(multipart, body) {
      LeadFits(body, ch);
      LeadStep(body, ch);
    } else {
      AllowedShown(multipart, body, ch);
      ShownSnoc(multipart, body, ch);
      KeptIsValid(m, Shown(multipart, body));
      NothingLostFromDecoder(m, Shown(multipart, body), ch);
      SourceKeepsKind(m, ch);
    }
  }

  lemma LedFront(body: seq<octet>)
    requires body != [] && AllAllowed(Led(body))
    ensures var n := |body| - 1;
            && AllAllowed(Led(body[..n]))
            && if n == 0 then body[0] == DASH || Allowed([], body[0]) else Allowed(Led(body[..n]), body[n])
  {
    hide Allowed;
    var n := |body| - 1;
    var k := |Led(body)| - 1;
    assert Allowed(Led(body)[..k], Led(body)[k]);
    if n > 0 {
      assert Led(body[..n]) == Led(body)[..k];
      AllAllowedFront(Led(body), k);
    }
  }

  lemma BeginKept(multipart: bool)
    ensures Kept(Begin(multipart, false), [])
  {
  }

  /** Outside of a multipart each octet goes straight to the decoder, behind an LF if it is a hyphen and the first. */
  lemma SinglePart(m: Machine, ch: octet)
    requires m.Valid() && !m.multipart && (m.state == Bdy || m.state == HdrBdy)
    ensures var lead := m.state == HdrBdy && ch == DASH;
            NextOctet(m, ch).dec == DecodeAll(m.dec, if lead then [LF, ch] else [ch])
    ensures NextOctet(m, ch).state == Bdy
  {
    hide Decode;
    OneDecoded(m.dec, ch);
    OneDecoded(m.dec, LF);
    assert [LF, ch] == [LF] + [ch];
    LastDecoded(m.dec, [LF], ch);
  }

  lemma {:induction false} SinglePartRun(m: Machine, s: seq<octet>)
    requires m.Valid() && !m.multipart && m.state == HdrBdy
    ensures var r := Run(m, s);
            r.dec == DecodeAll(m.dec, Led(s)) && !r.multipart && r.state == if s == [] then HdrBdy else Bdy
  {
    hide NextOctet, Decode, DecodeAll, Led;
    if s == [] {
      FedNothing(m.dec);
    } else {
      var n := |s| - 1;
      SinglePartRun(m, s[..n]);
      SinglePart(Run(m, s[..n]), s[n]);
      SourceKeepsKind(Run(m, s[..n]), s[n]);
      LedSnoc(s[..n], s[n]);
      assert s == s[..n] + [s[n]];
      AllOfTwo(m.dec, Led(s[..n]), if s[..n] == [] && s[n] == DASH then [LF, s[n]] else [s[n]]);
    }
  }

  lemma FedNothing(d: Decoder)
    requires d.Valid()
    ensures DecodeAll(d, Led([])) == d && DecodeAll(d, []) == d
  {
  }

  /**
   A quoted-printable body that is no multipart is decoded to what was encoded, with
   an LF in front if the encoding starts with a hyphen.
   */
  lemma QuotedBody(units: seq<Unit>)
    requires Encodable(units)
    ensures var lead: seq<octet> := if Encode(units) != [] && Encode(units)[0] == DASH then [LF] else [];
            NextEof(Run(Begin(false, true), Encode(units))).dec.flushed == lead + Meant(units)
  {
    hide Run, Decode, DecodeAll;
    var m := Begin(false, true);
    var lead: seq<octet> := if Encode(units) != [] && Encode(units)[0] == DASH then [LF] else [];
    SinglePartRun(m, Encode(units));
    LeadDecoded(m.dec, lead);
    AllOfTwo(m.dec, lead, Encode(units));
    assert [] + Encode(units) == Encode(units);
    QpRecovers(DecodeAll(m.dec, lead), units);
    QpRecoversAtEof(DecodeAll(m.dec, lead), units);
    AtEof(DecodeAll(DecodeAll(m.dec, lead), Encode(units)));
  }

  lemma LeadDecoded(d: Decoder, lead: seq<octet>)
    requires Between(d) && d.All() == [] && (lead == [] || lead == [LF])
    ensures Between(DecodeAll(d, lead)) && DecodeAll(d, lead).All() == lead
  {
    hide Decode;
    if lead == [] {
      FedNothing(d);
    } else {
      OneDecoded(d, LF);
      PlainDecoded(d, LF);
    }
  }

  lemma AtEof(d: Decoder)
    requires Between(d)
    ensures Flush(Decode(d, EOF)).flushed == Decode(d, EOF).flushed
  {
    AddKeeps(d, EOF);
  }

  // ---------- Bodies up to their first boundary ----------

  lemma ShownLastLine(multipart: bool, body: seq<octet>)
    ensures LastLine(Shown(multipart, body)) == LastLine(body)
  {
    LastLineBehind(body);
  }

  lemma {:induction false} SingleStaysSingle(body: seq<octet>)
    ensures var r := Run(Begin(false, false), body); !Deferring(r.state) && !r.multipart
  {
    SinglePartRun(Begin(false, false), body);
  }

  lemma {:induction false} LineIsLastLine(s: seq<octet>)
    ensures Line(s) == |LastLine(s)|
  {
    if s != [] {
      LineIsLastLine(s[..|s| - 1]);
    }
  }

  lemma AllowedPrefix(led: seq<octet>, n: nat)
    requires AllAllowed(led) && 0 < n <= |led|
    ensures Fits(led[..n])
  {
    assert led[..n - 1] + [led[n - 1]] == led[..n];
    assert Allowed(led[..n - 1], led[n - 1]);
  }

  lemma AllowedFits(body: seq<octet>)
    requires AllAllowed(Led(body))
    ensures LinesFit(body)
  {
    hide AllAllowed, LastLine, Line, LineBefore;
    forall n | 0 <= n <= |body| ensures LineFits(body[..n]) {
      if n > 0 {
        assert Led(body[..n]) == Led(body)[..|Led(body[..n])|];
        AllowedPrefix(Led(body), |Led(body[..n])|);
        LineIsLastLine(Led(body[..n]));
        LastLineLed(body[..n]);
      } else {
        NothingBefore();
      }
    }
  }

  /** The part ends at the first boundary of the body, the line that ends at n. */
  ghost predicate FoundAt(r: Machine, body: seq<octet>, n: nat) {
    && EndsAt(false, body, n) && (forall k :: 0 <= k < n ==> !EndsAt(false, body, k))
    && Found(r, false, Shown(true, body[..n + 1]))
  }

  lemma FoundAtSnoc(r: Machine, body: seq<octet>, c: octet, n: nat)
    requires FoundAt(r, body, n)
    ensures FoundAt(r, body + [c], n)
  {
    hide Found, Shown;
    assert n < |body|;
    forall k: nat | k <= n ensures EndsAt(false, body + [c], k) <==> EndsAt(false, body, k) {
      EndsAtFront(false, body + [c], body, k);
    }
    assert (body + [c])[..n + 1] == body[..n + 1];
  }

  /** The part has ended at its first boundary, or there was none and the body is kept. */
  ghost predicate KeptOrFound(r: Machine, multipart: bool, body: seq<octet>) {
    && (r.state == HdrStart <==> HasBoundary(multipart, false, body))
    && if HasBoundary(multipart, false, body) then exists n: nat :: FoundAt(r, body, n) else KeptAs(r, multipart, body)
  }

  lemma StaysFound(r: Machine, multipart: bool, front: seq<octet>, c: octet)
    requires KeptOrFound(r, multipart, front) && r.state == HdrStart
    ensures KeptOrFound(r, multipart, front + [c])
  {
    hide FoundAt, HasBoundary, EndsAt;
    HasBoundarySnoc(multipart, false, front, c);
    var k: nat :| FoundAt(r, front, k);
    FoundAtSnoc(r, front, c, k);
  }

  lemma EndsFirst(body: seq<octet>, r: Machine)
    requires body != [] && HasBoundary(true, false, body) && !HasBoundary(true, false, body[..|body| - 1])
    requires Found(r, false, Shown(true, body))
    ensures FoundAt(r, body, |body| - 1)
  {
    hide Found, Shown, EndsAt;
    var n := |body| - 1;
    forall k | 0 <= k < n ensures !EndsAt(false, body, k) {
      EndsAtFront(false, body, body[..n], k);
      assert !EndsAt(false, body[..n], k);
    }
    assert body[..n + 1] == body;
  }

  /** The run knows a boundary from the body alone; a part that is no multipart has none. */
  lemma RunFinds(multipart: bool, body: seq<octet>)
    requires AllAllowed(Led(body))
    ensures Run(Begin(multipart, false), body).state == HdrStart <==> HasBoundary(multipart, false, body)
  {
    hide Run, AllAllowed, StateOf;
    if multipart {
      AllowedFits(body);
      AtRun(false, body);
    } else {
      SinglePartRun(Begin(false, false), body);
    }
  }

  /** One octet more, of a body in which there was no boundary. */
  lemma OneMore(multipart: bool, front: seq<octet>, c: octet, r: Machine)
    requires AllAllowed(Led(front)) && AllAllowed(Led(front + [c]))
    requires if front == [] then c == DASH || Allowed([], c) else Allowed(Led(front), c)
    requires r == Run(Begin(multipart, false), front) && KeptOrFound(r, multipart, front) && r.state != HdrStart
    ensures KeptOrFound(NextOctet(r, c), multipart, front + [c])
  {
    hide KeptAs, NextOctet, Allowed, FoundAt, Found, Led, Shown, AllAllowed, HasBoundary, EndsAt;
    assert (front + [c])[..|front|] == front;
    RunFinds(multipart, front + [c]);
    if front == [] {
      assert r == Begin(multipart, false);
      assert [] + [c] == [c];
      FirstOctet(multipart, c);
    } else {
      LaterOctet(r, multipart, front, c);
    }
    if NextOctet(r, c).state == HdrStart {
      OnlyMultiparts(multipart, front + [c]);
      EndsFirst(front + [c], NextOctet(r, c));
      assert FoundAt(NextOctet(r, c), front + [c], |front|);
    }
  }

  lemma OnlyMultiparts(multipart: bool, body: seq<octet>)
    requires HasBoundary(multipart, false, body)
    ensures multipart
  {
  }

  /**
   From the start of a body with literal decoding, for every body of such lines. The
   LF that a hyphen first of all is taken to follow shows in front of it, unless its
   line is a boundary, or is decoded again because it only looked like one.
   */
  lemma {:induction false} BodyIsKept(multipart: bool, body: seq<octet>)
    requires AllAllowed(Led(body))
    ensures KeptOrFound(Run(Begin(multipart, false), body), multipart, body)
  {
    hide KeptOrFound, NextOctet, Allowed, Led, AllAllowed;
    if body == [] {
      NothingKept(multipart);
    } else {
      var n := |body| - 1;
      LedFront(body);
      BodyIsKept(multipart, body[..n]);
      var r := Run(Begin(multipart, false), body[..n]);
      assert body[..n] + [body[n]] == body;
      if r.state == HdrStart {
        StaysFound(r, multipart, body[..n], body[n]);
      } else {
        OneMore(multipart, body[..n], body[n], r);
      }
    }
  }

  lemma NothingKept(multipart: bool)
    ensures AllAllowed(Led([])) && KeptOrFound(Begin(multipart, false), multipart, [])
  {
    BeginKept(multipart);
  }

  // ---------- Which bodies lose their end ----------

  /** What is deferred is the last line and the LF in front of it. */
  lemma DeferredIsLine(m: Machine, body: seq<octet>)
    requires Kept(m, body) && Deferring(m.state)
    ensures Deferred(m) == [LF] + LastLine(body)
  {
    hide Has, Line, LineBefore;
    var x := Deferred(m);
    assert NoLf(x[1..]) && x[0] == LF by { LeadInIsLine(m.state, x); }
    assert x == [LF] + x[1..];
    LastLineIs(m.dec.All(), x[1..]);
  }

  lemma LeadInIsLine(state: SourceState, x: seq<octet>)
    requires Deferring(state) && LeadIn(state, x)
    ensures x != [] && x[0] == LF && NoLf(x[1..])
  {
    if state == Boundary {
      assert x[..3][0] == x[0];
    }
  }

  /**
   With literal decoding, at the end of the input a body without a recognised
   boundary has been decoded in full, unless it is a multipart's and ends in a
   deferred line break, which is then lost with what follows it.
   */
  lemma EndIsLostIff(multipart: bool, body: seq<octet>)
    requires AllAllowed(Led(body)) && !HasBoundary(multipart, false, body)
    ensures var flushed := NextEof(Run(Begin(multipart, false), body)).dec.flushed;
            && (flushed == Shown(multipart, body) <==> !multipart || !EndsDeferred(Led(body)))
            && (multipart && EndsDeferred(Led(body)) ==> flushed + ([LF] + LastLine(body)) == Shown(multipart, body))
  {
    hide Run, NextEof, Kept, EndsDeferred, AllAllowed, Shown, Led, LastLine, StateOf, HasBoundary;
    BodyIsKept(multipart, body);
    var r := Run(Begin(multipart, false), body);
    if multipart {
      AllowedFits(body);
      StateOfRun(false, body);
      StateDefers(Led(body));
    } else {
      SingleStaysSingle(body);
    }
    if InLead(multipart, body) {
      LeadIsLost(body);
    } else {
      EofLosesDeferred(r, Shown(multipart, body));
      if Deferring(r.state) {
        DeferredIsLine(r, Shown(multipart, body));
        ShownLastLine(multipart, body);
      }
    }
  }

  /** A first line that may be a boundary and does not come to its end is lost. */
  lemma LeadIsLost(body: seq<octet>)
    requires InLead(true, body) && AtLead(body).Valid()
    ensures Deferring(AtLead(body).state)
    ensures var flushed := NextEof(AtLead(body)).dec.flushed;
            flushed != Shown(true, body) && flushed + ([LF] + LastLine(body)) == Shown(true, body)
  {
    hide Add, LastLine;
    UndecidedShort(body);
    AddKeeps(AtLead(body).dec, EOF);
    assert [] + ([LF] + body) == [LF] + body;
    assert body[0] == DASH by { if 1 < |body| { assert body[0] == body[..2][0]; } }
    LastLineOfLine(body);
  }

  lemma LineBreakAllowed()
    ensures AllAllowed([0x61, LF]) && Led([0x61, LF]) == Shown(true, [0x61, LF]) == [0x61, LF]
    ensures EndsDeferred([0x61, LF]) && LastLine([0x61, LF]) == [] && !HasBoundary(true, false, [0x61, LF])
  {
    var body: seq<octet> := [0x61, LF];
    assert body[..0] == [] && body[..1] == [0x61];
    LineSnoc([], 0x61);
    LineSnoc([0x61], LF);
    assert [] + [0x61] == [0x61] && [0x61] + [LF] == body;
    assert Allowed([], 0x61) && Allowed([0x61], LF);
    LastLineSnoc([], 0x61);
    LastLineSnoc([0x61], LF);
    NothingBefore();
  }

  lemma LineBreakDefers()
    ensures Run(Begin(true, false), [0x61, LF]).state == BdyLF
  {
    var body: seq<octet> := [0x61, LF];
    assert body[..1] == [0x61] && [0x61][..0] == [];
    assert Run(Begin(true, false), []) == Begin(true, false);
    assert Run(Begin(true, false), [0x61]).state == Bdy;
  }

  /** a and a line break at the end of a multipart: the line break is lost. */
  lemma LineBreakIsLost()
    ensures NextEof(Run(Begin(true, false), [0x61, LF])).dec.flushed == [0x61]
  {
    hide Run, NextEof;
    LineBreakAllowed();
    LineBreakDefers();
    EndIsLostIff(true, [0x61, LF]);
    FrontIs(NextEof(Run(Begin(true, false), [0x61, LF])).dec.flushed, [0x61, LF]);
  }

  lemma FrontIs(f: seq<octet>, body: seq<octet>)
    requires body == [0x61, LF] && f + ([LF] + []) == body
    ensures f == [0x61]
  {
    assert f == body[..|f|];
  }

  /** A hyphen that is all of a body comes out behind a line break. */
  lemma HyphenShowsBreak()
    ensures NextEof(Run(Begin(false, false), [DASH])).dec.flushed == [LF, DASH]
  {
  }
}
