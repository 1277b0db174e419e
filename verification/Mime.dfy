/** The body parser of mail/mime.c, octet by octet over its two buffers. */
module Mime {
  import opened Octets
  import opened MimeDecoder
  import opened MimeMachine

  datatype MimeEncoding = NoEncoding | QuotedPrintable

  class Mime {
    const source: array<octet>
    var sourceLength: nat
    const decode: array<octet>
    var decodeLength: nat
    var decodeStateCr: bool
    var decodeState: DecodeState
    var sourceState: SourceState
    var isMultipart: bool
    var encoding: MimeEncoding
    /** What the flush hooks were handed, and the boundary that was dropped. */
    ghost var sourced: seq<octet>
    ghost var decoded: seq<octet>
    ghost var dropped: seq<octet>

    constructor (isMultipart: bool, encoding: MimeEncoding)
      ensures Shape() && fresh(source) && fresh(decode)
      ensures View() == Machine([], [], [], HdrBdy, isMultipart, encoding == QuotedPrintable,
                                Decoder([], [], false, if encoding == QuotedPrintable then QpLiteral else Literal, NUL))
    {
      source := new octet[MIME_BUFFER_SIZE](_ => NUL);
      decode := new octet[MIME_BUFFER_SIZE](_ => NUL);
      sourceLength, decodeLength, decodeStateCr := 0, 0, false;
      decodeState := if encoding == QuotedPrintable then QpLiteral else Literal;
      sourceState := HdrBdy;
      this.isMultipart, this.encoding := isMultipart, encoding;
      sourced, decoded, dropped := [], [], [];
    }

    ghost predicate Shape()
      reads this
    {
      && source.Length == decode.Length == MIME_BUFFER_SIZE && source != decode
      && sourceLength <= MIME_BUFFER_SIZE && decodeLength < MIME_BUFFER_SIZE - 1
    }

    ghost function Dec(): Decoder
      reads this, decode
      requires Shape()
    {
      Decoder(decode[..decodeLength], decoded, decodeStateCr, decodeState, decode[decodeLength])
    }

    ghost function Src(): seq<octet>
      reads this, source
      requires Shape()
    {
      source[..sourceLength]
    }

    ghost function View(): Machine
      reads this, source, decode
      requires Shape()
    {
      Machine(Src(), sourced, dropped, sourceState, isMultipart, encoding == QuotedPrintable, Dec())
    }

    // ---------- The decode buffer ----------

    /** mimeDecodeFlush. */
    method DecodeFlush()
      requires source.Length == decode.Length == MIME_BUFFER_SIZE && decodeLength < MIME_BUFFER_SIZE
      modifies this`decodeLength, this`decoded, decode
      ensures decodeLength == 0 && decoded == old(decoded + decode[..decodeLength])
      ensures old(decodeLength) == 0 ==> decode[..] == old(decode[..])
      ensures forall i :: 0 <= i < MIME_BUFFER_SIZE ==> decode[i] == if i < old(decodeLength) then NUL else old(decode[i])
    {
      if 0 < decodeLength {
        decoded := decoded + decode[..decodeLength];
        forall i | 0 <= i < decodeLength {
          decode[i] := NUL;
        }
        decodeLength := 0;
      }
    }

    /** mimeDecodeAppend. */
    method DecodeAppend(ch: input)
      requires Shape()
      modifies this`decodeLength, this`decoded, decode
      ensures Shape()
      ensures Dec() == Append(old(Dec()), ch).(next := Dec().next)
    {
      ghost var d := Dec();
      if ch != EOF {
        decode[decodeLength] := ch;
        decodeLength := decodeLength + 1;
        assert decode[..decodeLength] == d.buffer + [ch];
      }
      if ch == LF || ch == EOF || MIME_BUFFER_SIZE - 1 <= decodeLength {
        DecodeFlush();
      }
    }

    /** mimeDecodeAdd. */
    method DecodeAdd(ch: input)
      requires Shape()
      modifies this`decodeLength, this`decoded, this`decodeStateCr, decode
      ensures Shape() && Dec() == Add(old(Dec()), ch)
    {
      hide Append;
      if ch == CR && !decodeStateCr {
        decodeStateCr := true;
        return;
      }
      if decodeStateCr {
        ghost var held := Dec();
        DecodeAppend(CR);
        decodeStateCr := false;
        AppendNext(Append(held, CR).(cr := false), Dec().next, ch);
      }
      DecodeAppend(ch);
      ghost var d := Dec();
      decode[decodeLength] := NUL;
      assert decode[..decodeLength] == d.buffer;
    }

    /** mimeStateQpLiteral and mimeStateQpSoftLine. */
    method QpLiteralState(ch: input)
      requires Shape()
      modifies this`decodeLength, this`decoded, this`decodeStateCr, this`decodeState, decode
      ensures Shape() && Dec() == Literally(old(Dec()), ch)
    {
      hide Add;
      if ch == EQUALS {
        decodeState := QpEqual;
      } else {
        DecodeAdd(ch);
      }
    }

    /** mimeStateQpEqual. */
    method QpEqualState(ch: input)
      requires Shape() && decodeState == QpEqual
      modifies this`decodeLength, this`decoded, this`decodeStateCr, this`decodeState, decode
      ensures Shape() && Dec() == Decode(old(Dec()), ch)
    {
      hide Add, IsHex;
      if ch == CR {
      } else if ch == LF {
        decodeState := QpSoftLine;
      } else if IsHex(ch) {
        ghost var d := Dec();
        HexIsOctet(ch);
        decode[decodeLength] := ch;
        decodeState := QpDecode;
        assert decode[..decodeLength] == d.buffer;
      } else {
        decodeState := QpLiteral;
        DecodeAdd(EQUALS);
        DecodeAdd(ch);
      }
    }

    /** mimeStateQpDecode. */
    method QpDecodeState(ch: input)
      requires Shape() && decodeState == QpDecode && IsHex(decode[decodeLength])
      modifies this`decodeLength, this`decoded, this`decodeStateCr, this`decodeState, decode
      ensures Shape() && Dec() == Decode(old(Dec()), ch)
    {
      hide Add, IsHex, HexDigit;
      var value := decode[decodeLength];
      if IsHex(ch) {
        DecodeAdd(HexDigit(value) * 16 + HexDigit(ch));
      } else {
        DecodeAdd(EQUALS);
        DecodeAdd(value);
        DecodeAdd(ch);
      }
      decodeState := QpLiteral;
    }

    /** mimeDecodeState. */
    method DecodeState(ch: input)
      requires Shape() && Dec().Valid()
      modifies this`decodeLength, this`decoded, this`decodeStateCr, this`decodeState, decode
      ensures Shape() && Dec().Valid() && View() == Feed(old(View()), ch)
    {
      hide Add, IsHex;
      DecodeIsValid(Dec(), ch);
      match decodeState
      case Literal => DecodeAdd(ch);
      case QpLiteral => QpLiteralState(ch);
      case QpSoftLine => QpLiteralState(ch);
      case QpEqual => QpEqualState(ch);
      case QpDecode => QpDecodeState(ch);
    }

    // ---------- The source buffer ----------

    /** mimeSourceFlush. */
    method SourceFlush()
      requires Shape()
      modifies this`sourceLength, this`sourced, source
      ensures Shape() && sourceLength == 0 && sourced == old(sourced + Src())
      ensures forall i :: 0 <= i < MIME_BUFFER_SIZE ==> source[i] == if i < old(sourceLength) then NUL else old(source[i])
    {
      if 0 < sourceLength {
        sourced := sourced + Src();
        forall i | 0 <= i < sourceLength {
          source[i] := NUL;
        }
        sourceLength := 0;
      }
    }

    method SourceAdd(ch: octet)
      requires Shape() && sourceLength < MIME_BUFFER_SIZE - 1
      modifies this`sourceLength, source
      ensures Shape() && sourceLength == old(sourceLength) + 1 && Src() == old(Src()) + [ch]
    {
      source[sourceLength] := ch;
      sourceLength := sourceLength + 1;
    }

    ghost predicate Ready()
      reads this, source, decode
    {
      Shape() && Dec().Valid()
    }

    /** Takes the line break off the end of the source buffer. */
    method CutBreak() returns (hasCr: bool)
      requires Shape() && EndsWith(Src(), LF)
      modifies this`sourceLength
      ensures Shape() && hasCr == (BreakLength(old(Src())) == 2)
      ensures sourceLength + BreakLength(old(Src())) == old(sourceLength)
    {
      hasCr := false;
      sourceLength := sourceLength - 1;
      if 0 < sourceLength && source[sourceLength - 1] == CR {
        sourceLength := sourceLength - 1;
        hasCr := true;
      }
    }

    /** Flushes all but the line break that the source buffer ends in. */
    method FlushLine()
      requires Shape() && EndsWith(Src(), LF)
      modifies this`sourceLength, this`sourced, source
      ensures Shape() && View() == FlushBut(old(View()), BreakLength(old(Src())))
    {
      hide FlushBut, BreakLength, EndsWith;
      ghost var m := View();
      BreakIs(m.buffer);
      FlushButIs(m, BreakLength(m.buffer));
      var hasCr := CutBreak();
      assert Src() == m.buffer[..|m.buffer| - BreakLength(m.buffer)];
      SourceFlush();
      if hasCr {
        SourceAdd(CR);
      }
      SourceAdd(LF);
    }

    /** mimeStateBdy. */
    method StateBdy(ch: octet)
      requires Ready() && EndsWith(Src(), ch)
      modifies this, source, decode
      ensures Ready() && View() == MimeMachine.StateBdy(old(View()), ch)
    {
      hide Feed, FlushBut;
      if ch == LF {
        FlushLine();
        if isMultipart {
          sourceState := BdyLF;
        } else {
          DecodeState(LF);
        }
      } else {
        DecodeState(ch);
      }
    }

    /** Flushes all but a CR that the source buffer ends in. */
    method FlushButCr(ch: octet)
      requires Shape() && EndsWith(Src(), ch)
      modifies this`sourceLength, this`sourced, source
      ensures Shape() && View() == FlushBut(old(View()), if ch == CR then 1 else 0)
    {
      ghost var b := Src();
      if ch == CR {
        sourceLength := sourceLength - 1;
      }
      SourceFlush();
      if ch == CR {
        SourceAdd(CR);
      }
    }

    /** mimeStateBdyLF. */
    method StateBdyLF(ch: octet)
      requires Ready() && EndsWith(Src(), ch)
      modifies this, source, decode
      ensures Ready() && View() == MimeMachine.StateBdyLF(old(View()), ch)
    {
      hide Feed, FlushBut, MimeMachine.StateBdy;
      if isMultipart && ch == DASH {
        sourceState := Dash1;
      } else if ch == LF {
        DecodeState(LF);
        StateBdy(LF);
      } else {
        FlushButCr(ch);
        DecodeState(LF);
        DecodeState(ch);
        sourceState := Bdy;
      }
    }

    /** mimeStateDash1. */
    method StateDash1(ch: octet)
      requires Ready()
      modifies this, decode
      ensures Ready() && View() == MimeMachine.StateDash1(old(View()), ch)
    {
      hide Feed;
      if ch == DASH {
        sourceState := Dash2;
      } else {
        DecodeState(LF);
        DecodeState(DASH);
        DecodeState(ch);
        sourceState := Bdy;
      }
    }

    /** mimeStateDash2. */
    method StateDash2(ch: octet)
      requires Ready()
      modifies this, decode
      ensures Ready() && View() == MimeMachine.StateDash2(old(View()), ch)
    {
      hide Feed, IsSpace, IsBoundaryChar;
      if IsSpace(ch) || !IsBoundaryChar(ch) {
        DecodeState(LF);
        DecodeState(DASH);
        DecodeState(DASH);
        DecodeState(ch);
        sourceState := Bdy;
      } else {
        sourceState := Boundary;
      }
    }

    /** The loop of mimeStateBoundary over the line in the source buffer. */
    method IsBoundary() returns (found: bool)
      requires Shape()
      ensures found <==> IsBoundaryLine(Src(), encoding == QuotedPrintable)
    {
      hide IsLineChar, IsRule, IsHex;
      var i: nat, hasQp, allHyphen := 2, false, true;
      while i < sourceLength && IsLineChar(source[i])
        invariant 2 <= i && (i <= sourceLength || i == 2)
        invariant forall k :: 2 <= k < i ==> IsLineChar(source[k])
        invariant allHyphen <==> forall k :: 2 <= k < i ==> IsRule(source[k])
        invariant hasQp <==> exists k :: 2 <= k < i && IsHex(source[k]) && source[k - 1] == EQUALS
      {
        allHyphen := allHyphen && IsRule(source[i]);
        if IsHex(source[i]) && source[i - 1] == EQUALS {
          hasQp := true;
        }
        i := i + 1;
      }
      found := !allHyphen && (encoding != QuotedPrintable || !hasQp) && i == sourceLength;
      ghost var line := Src();
      assert forall k :: 0 <= k < sourceLength ==> line[k] == source[k];
      if 2 <= sourceLength && i < sourceLength {
        assert !IsLineChar(line[i]);
      }
    }

    /** Decodes what is in the source buffer. */
    method Replay()
      requires Ready()
      modifies this`decodeLength, this`decoded, this`decodeStateCr, this`decodeState, decode
      ensures Ready() && View() == FeedAll(old(View()), old(Src()))
    {
      hide Decode;
      ghost var m := View();
      for i := 0 to sourceLength
        invariant Ready() && View() == FeedAll(m, m.buffer[..i])
      {
        LastFed(m, m.buffer, i);
        DecodeState(source[i]);
      }
      assert m.buffer[..sourceLength] == m.buffer;
    }

    /** mimeStateBoundary. */
    method StateBoundary(ch: octet)
      requires Ready()
      modifies this, source, decode
      ensures Ready() && View() == MimeMachine.StateBoundary(old(View()), ch)
    {
      hide Feed, FeedAll, IsBoundaryLine;
      if ch == LF || MIME_BUFFER_SIZE <= sourceLength {
        var found := IsBoundary();
        decodeStateCr := false;
        if found {
          decodeState := Literal;
          EndPart();
        } else {
          sourceState := Bdy;
          Replay();
          if ch != LF {
            DecodeState(ch);
          }
        }
      }
    }

    /** What mimeStateBoundary does about a boundary line. */
    method EndPart()
      requires Ready() && !decodeStateCr && decodeState == Literal
      modifies this, source, decode
      ensures Ready() && View() == Recognised(old(View())) && source[0] == NUL
    {
      hide Decode;
      DecodeState(EOF);
      dropped := Src();
      sourceLength := 0;
      source[0] := NUL;
      encoding := NoEncoding;
      sourceState := HdrStart;
    }

    /** mimeStateHdrBdy. */
    method StateHdrBdy(ch: octet)
      requires Ready() && EndsWith(Src(), ch)
      modifies this, source, decode
      ensures Ready() && View() == MimeMachine.StateHdrBdy(old(View()), ch)
    {
      hide MimeMachine.StateBdy, MimeMachine.StateBdyLF;
      sourceState := Bdy;
      if ch == DASH {
        StateBdyLF(ch);
      } else {
        StateBdy(ch);
      }
    }

    /** The call of the current source state. */
    method SourceStep(ch: octet)
      requires Ready() && EndsWith(Src(), ch) && sourceState != HdrStart
      modifies this, source, decode
      ensures Ready() && View() == Source(old(View()), ch)
    {
      hide MimeMachine.StateBdy, MimeMachine.StateBdyLF, MimeMachine.StateDash1, MimeMachine.StateDash2;
      hide MimeMachine.StateBoundary, MimeMachine.StateHdrBdy;
      match sourceState
      case HdrBdy => StateHdrBdy(ch);
      case Bdy => StateBdy(ch);
      case BdyLF => StateBdyLF(ch);
      case Dash1 => StateDash1(ch);
      case Dash2 => StateDash2(ch);
      case Boundary => StateBoundary(ch);
    }

    /** mimeNextCh for an octet. */
    method NextCh(ch: octet)
      requires Ready() && View().Valid() && sourceState != HdrStart
      modifies this, source, decode
      ensures Ready() && View().Valid() && View() == NextOctet(old(View()), ch)
    {
      hide Source;
      SourceAdd(ch);
      SourceStep(ch);
      if MIME_BUFFER_SIZE - 1 <= sourceLength {
        SourceFlush();
      }
    }

    /** mimeNextCh at the end of the input. */
    method NextChEof()
      requires Ready() && View().Valid()
      modifies this, source, decode
      ensures Shape() && View() == NextEof(old(View())).(dec := Dec())
      ensures Dec() == NextEof(old(View())).dec.(next := Dec().next)
    {
      hide Feed;
      DecodeState(EOF);
      DecodeFlush();
      SourceFlush();
    }
  }

  lemma LastFed(m: Machine, s: seq<octet>, i: nat)
    requires m.dec.Valid() && i < |s|
    ensures FeedAll(m, s[..i + 1]) == Feed(FeedAll(m, s[..i]), s[i])
  {
    assert s[..i + 1] == s[..i] + [s[i]];
    LastDecoded(m.dec, s[..i], s[i]);
  }

  lemma FlushButIs(m: Machine, n: nat)
    requires n <= |m.buffer|
    ensures var k := |m.buffer| - n;
            FlushBut(m, n) == m.(flushed := m.flushed + m.buffer[..k], buffer := m.buffer[k..])
  {
  }

  lemma BreakIs(b: seq<octet>)
    requires EndsWith(b, LF)
    ensures b != [] && 1 <= BreakLength(b) <= |b|
    ensures b[|b| - BreakLength(b)..] == if BreakLength(b) == 2 then [CR] + [LF] else [LF]
  {
  }

  lemma AppendNext(d: Decoder, next: octet, ch: input)
    ensures Append(d.(next := next), ch) == Append(d, ch).(next := next)
  {
  }

  lemma HexIsOctet(c: input)
    requires IsHex(c)
    ensures 0 <= c
  {
  }
}
