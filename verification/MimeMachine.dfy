/**
 The body states of mail/mime.c as a function of the machine's state: the source
 buffer with its deferred line break, in front of the decoder.
 */
module MimeMachine {
  import opened Octets
  import opened MimeDecoder

  const DASH: octet := 0x2D

  datatype SourceState = HdrBdy | Bdy | BdyLF | Dash1 | Dash2 | Boundary | HdrStart

  /**
   buffer is the source buffer, flushed all that was handed to the source hooks, and
   dropped a recognised boundary line with the line break in front of it. multipart
   and quoted are is_multipart and whether the encoding is quoted-printable.
   */
  datatype Machine = Machine(buffer: seq<octet>, flushed: seq<octet>, dropped: seq<octet>, state: SourceState,
                             multipart: bool, quoted: bool, dec: Decoder)
  {
    predicate Valid() {
      |buffer| < MIME_BUFFER_SIZE - 1 && dec.Valid()
    }
  }

  // ---------- Boundary lines ----------

  predicate IsAlnum(c: int) {
    0x30 <= c <= 0x39 || 0x41 <= c <= 0x5A || 0x61 <= c <= 0x7A
  }

  /** mimeNoSpaceBoundary. The search for NUL finds the end of the string of extra characters. */
  predicate IsBoundaryChar(c: int) {
    IsAlnum(c) || c in [0x2D, 0x3D, 0x5F, 0x27, 0x28, 0x29, 0x2B, 0x2C, 0x2E, 0x2F, 0x3A, 0x3F, 0]
  }

  predicate IsSpace(c: int) {
    0x09 <= c <= 0x0D || c == SPACE
  }

  /** What may stand in a line of nothing but hyphens. */
  predicate IsRule(c: octet) {
    c in [DASH, EQUALS, CR, LF, 0]
  }

  predicate IsLineChar(c: octet) {
    IsBoundaryChar(c) || c == CR || c == LF
  }

  /**
   A line break and a line of boundary characters, not all of them hyphens, that a
   quoted-printable part does not explain better.
   */
  ghost predicate IsBoundaryLine(line: seq<octet>, quoted: bool) {
    && 2 <= |line|
    && (forall i :: 2 <= i < |line| ==> IsLineChar(line[i]))
    && (exists i :: 2 <= i < |line| && !IsRule(line[i]))
    && (quoted ==> forall i :: 2 <= i < |line| && IsHex(line[i]) ==> line[i - 1] != EQUALS)
  }

  // ---------- The states ----------

  function SourceFlush(m: Machine): Machine {
    m.(flushed := m.flushed + m.buffer, buffer := [])
  }

  function Feed(m: Machine, ch: input): (r: Machine)
    requires m.dec.Valid()
    ensures r.dec.Valid() && r == m.(dec := r.dec)
  {
    DecodeIsValid(m.dec, ch);
    m.(dec := Decode(m.dec, ch))
  }

  function FeedAll(m: Machine, s: seq<octet>): (r: Machine)
    requires m.dec.Valid()
    ensures r.dec.Valid() && r == m.(dec := r.dec)
  {
    m.(dec := DecodeAll(m.dec, s))
  }

  /** The buffer up to its last n octets, flushed, with those octets put back. */
  function FlushBut(m: Machine, n: nat): Machine
    requires n <= |m.buffer|
  {
    var k := |m.buffer| - n;
    SourceFlush(m.(buffer := m.buffer[..k])).(buffer := m.buffer[k..])
  }

  /** The length of the line break that the buffer ends in. */
  function BreakLength(buffer: seq<octet>): nat
    requires buffer != []
  {
    if 1 < |buffer| && buffer[|buffer| - 2] == CR then 2 else 1
  }

  /** mimeStateBdy, once the octet is in the buffer. */
  function StateBdy(m: Machine, ch: octet): (r: Machine)
    requires m.dec.Valid() && EndsWith(m.buffer, ch)
    ensures r.dec.Valid() && |r.buffer| <= |m.buffer|
  {
    if ch == LF then
      var m' := FlushBut(m, BreakLength(m.buffer));
      if m.multipart then m'.(state := BdyLF) else Feed(m', LF)
    else Feed(m, ch)
  }

  function StateBdyLF(m: Machine, ch: octet): (r: Machine)
    requires m.dec.Valid() && EndsWith(m.buffer, ch)
    ensures r.dec.Valid() && |r.buffer| <= |m.buffer|
  {
    if m.multipart && ch == DASH then m.(state := Dash1)
    else if ch == LF then StateBdy(Feed(m, LF), LF)
    else Feed(Feed(FlushBut(m, if ch == CR then 1 else 0), LF), ch).(state := Bdy)
  }

  function StateDash1(m: Machine, ch: octet): (r: Machine)
    requires m.dec.Valid()
    ensures r.dec.Valid() && r.buffer == m.buffer
  {
    if ch == DASH then m.(state := Dash2)
    else Feed(Feed(Feed(m, LF), DASH), ch).(state := Bdy)
  }

  function StateDash2(m: Machine, ch: octet): (r: Machine)
    requires m.dec.Valid()
    ensures r.dec.Valid() && r.buffer == m.buffer
  {
    if IsSpace(ch) || !IsBoundaryChar(ch) then Feed(Feed(Feed(Feed(m, LF), DASH), DASH), ch).(state := Bdy)
    else m.(state := Boundary)
  }

  /** A recognised boundary ends the part: what the decoder holds is let go, and the buffer dropped. */
  function Recognised(m: Machine): (r: Machine)
    requires m.dec.Valid()
    ensures r.dec.Valid() && r.buffer == []
  {
    var d := m.dec.(cr := false, state := Literal);
    AddIsValid(d, EOF);
    m.(dec := Decode(d, EOF), dropped := m.buffer, buffer := [], quoted := false, state := HdrStart)
  }

  /** What only looked like a boundary is decoded after all. */
  function Replayed(m: Machine, ch: octet): (r: Machine)
    requires m.dec.Valid()
    ensures r.dec.Valid() && r.buffer == m.buffer
  {
    var m' := FeedAll(m.(dec := m.dec.(cr := false), state := Bdy), m.buffer);
    if ch != LF then Feed(m', ch) else m'
  }

  ghost function StateBoundary(m: Machine, ch: octet): (r: Machine)
    requires m.dec.Valid()
    ensures r.dec.Valid() && |r.buffer| <= |m.buffer|
  {
    if ch == LF || MIME_BUFFER_SIZE <= |m.buffer| then
      if IsBoundaryLine(m.buffer, m.quoted) then Recognised(m) else Replayed(m, ch)
    else m
  }

  function StateHdrBdy(m: Machine, ch: octet): (r: Machine)
    requires m.dec.Valid() && EndsWith(m.buffer, ch)
    ensures r.dec.Valid() && |r.buffer| <= |m.buffer|
  {
    var m' := m.(state := Bdy);
    if ch == DASH then StateBdyLF(m', ch) else StateBdy(m', ch)
  }

  ghost function Source(m: Machine, ch: octet): (r: Machine)
    requires m.dec.Valid() && EndsWith(m.buffer, ch) && m.state != HdrStart
    ensures r.dec.Valid() && |r.buffer| <= |m.buffer|
  {
    match m.state
    case HdrBdy => StateHdrBdy(m, ch)
    case Bdy => StateBdy(m, ch)
    case BdyLF => StateBdyLF(m, ch)
    case Dash1 => StateDash1(m, ch)
    case Dash2 => StateDash2(m, ch)
    case Boundary => StateBoundary(m, ch)
  }

  /** mimeNextCh, for one more octet of the body. */
  ghost function NextOctet(m: Machine, ch: octet): (r: Machine)
    requires m.Valid() && m.state != HdrStart
    ensures r.Valid()
  {
    var m' := Source(m.(buffer := m.buffer + [ch]), ch);
    if MIME_BUFFER_SIZE - 1 <= |m'.buffer| then SourceFlush(m') else m'
  }

  /** mimeNextCh at the end of the input. */
  function NextEof(m: Machine): (r: Machine)
    requires m.Valid()
  {
    var m' := Feed(m, EOF);
    SourceFlush(m'.(dec := Flush(m'.dec)))
  }
}
