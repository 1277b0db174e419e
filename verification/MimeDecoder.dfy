/**
 The decoding half of mail/mime.c as a function of its state: the decode buffer with
 its held back CR, and the quoted-printable states in front of it.
 */
module MimeDecoder {
  import opened Octets

  const MIME_BUFFER_SIZE: nat := 1024
  const NUL: octet := 0
  const EQUALS: octet := 0x3D

  /** An octet or EOF. */
  type input = c: int | -1 <= c < 256

  datatype DecodeState = Literal | QpLiteral | QpEqual | QpDecode | QpSoftLine

  /**
   buffer is the decode buffer, flushed all that was handed to the flush hooks, cr
   whether a CR is held back, and next the octet behind the end of the buffer.
   */
  datatype Decoder = Decoder(buffer: seq<octet>, flushed: seq<octet>, cr: bool, state: DecodeState, next: octet) {
    /** Whatever left the decoder, or is in its buffer. */
    function Out(): seq<octet> {
      flushed + buffer
    }

    function Held(): seq<octet> {
      if cr then [CR] else []
    }

    /** Everything that the decoder was given, if it takes octets as they are. */
    function All(): seq<octet> {
      Out() + Held()
    }

    predicate Valid() {
      |buffer| < MIME_BUFFER_SIZE - 1 && (state == QpDecode ==> IsHex(next))
    }
  }

  predicate IsDigit(c: int) {
    0x30 <= c <= 0x39
  }

  predicate IsHex(c: int) {
    IsDigit(c) || 0x41 <= c <= 0x46 || 0x61 <= c <= 0x66
  }

  /** qpHexDigit, for what is a digit. */
  function HexDigit(c: int): (v: nat)
    requires IsHex(c)
    ensures v < 16
  {
    if IsDigit(c) then c - 0x30 else if c <= 0x46 then c - 0x41 + 10 else c - 0x61 + 10
  }

  function Flush(d: Decoder): Decoder {
    d.(flushed := d.flushed + d.buffer, buffer := [])
  }

  function Append(d: Decoder, ch: input): Decoder {
    var d' := if ch == EOF then d else d.(buffer := d.buffer + [ch]);
    if ch == LF || ch == EOF || MIME_BUFFER_SIZE - 1 <= |d'.buffer| then Flush(d') else d'
  }

  function Add(d: Decoder, ch: input): Decoder {
    if ch == CR && !d.cr then d.(cr := true)
    else
      var d' := if d.cr then Append(d, CR).(cr := false) else d;
      Append(d', ch).(next := NUL)
  }

  /** What the current state of the decoder makes of the next octet. */
  function Decode(d: Decoder, ch: input): Decoder
    requires d.Valid()
  {
    match d.state
    case Literal => Add(d, ch)
    case QpLiteral => Literally(d, ch)
    case QpSoftLine => Literally(d, ch)
    case QpEqual =>
      if ch == CR then d
      else if ch == LF then d.(state := QpSoftLine)
      else if IsHex(ch) then d.(next := ch, state := QpDecode)
      else Add(Add(d.(state := QpLiteral), EQUALS), ch)
    case QpDecode =>
      if IsHex(ch) then Add(d, HexDigit(d.next) * 16 + HexDigit(ch)).(state := QpLiteral)
      else Add(Add(Add(d, EQUALS), d.next), ch).(state := QpLiteral)
  }

  function Literally(d: Decoder, ch: input): Decoder {
    if ch == EQUALS then d.(state := QpEqual) else Add(d, ch)
  }

  function DecodeAll(d: Decoder, s: seq<octet>): Decoder
    requires d.Valid()
    ensures DecodeAll(d, s).Valid()
  {
    if s == [] then d
    else
      DecodeIsValid(DecodeAll(d, s[..|s| - 1]), s[|s| - 1]);
      Decode(DecodeAll(d, s[..|s| - 1]), s[|s| - 1])
  }

  lemma AddIsValid(d: Decoder, ch: input)
    requires |d.buffer| < MIME_BUFFER_SIZE - 1
    ensures |Add(d, ch).buffer| < MIME_BUFFER_SIZE - 1 && Add(d, ch).state == d.state
  {
  }

  lemma DecodeIsValid(d: Decoder, ch: input)
    requires d.Valid()
    ensures Decode(d, ch).Valid()
  {
    hide Add;
    AddIsValid(d, ch);
    match d.state
    case Literal =>
    case QpLiteral =>
    case QpSoftLine =>
    case QpEqual =>
      AddIsValid(d.(state := QpLiteral), EQUALS);
      AddIsValid(Add(d.(state := QpLiteral), EQUALS), ch);
    case QpDecode =>
      if IsHex(ch) {
        AddIsValid(d, HexDigit(d.next) * 16 + HexDigit(ch));
      } else {
        AddIsValid(d, EQUALS);
        AddIsValid(Add(d, EQUALS), d.next);
        AddIsValid(Add(Add(d, EQUALS), d.next), ch);
      }
  }

  // ---------- The held CR and the buffer lose nothing ----------

  lemma AppendKeeps(d: Decoder, ch: input)
    ensures Append(d, ch).Out() == d.Out() + (if ch == EOF then [] else [ch])
    ensures ch == EOF ==> Append(d, ch).buffer == [] && Append(d, ch).flushed == d.Out()
    ensures Append(d, ch).cr == d.cr && Append(d, ch).state == d.state
  {
  }

  /** One octet in is one octet more, and EOF lets go of whatever is held. */
  lemma AddKeeps(d: Decoder, ch: input)
    ensures ch != EOF ==> Add(d, ch).All() == d.All() + [ch]
    ensures ch == EOF ==> Add(d, ch).flushed == d.All() && Add(d, ch).buffer == [] && !Add(d, ch).cr
    ensures Add(d, ch).cr <==> ch == CR && !d.cr
    ensures Add(d, ch).state == d.state
  {
    hide Append;
    if d.cr {
      AppendKeeps(d, CR);
      AppendKeeps(Append(d, CR).(cr := false), ch);
    } else {
      AppendKeeps(d, ch);
    }
  }

  lemma LastDecoded(d: Decoder, s: seq<octet>, c: octet)
    requires d.Valid()
    ensures DecodeAll(d, s + [c]) == Decode(DecodeAll(d, s), c)
  {
    assert (s + [c])[..|s|] == s;
  }

  // ---------- Quoted-printable ----------

  /** What an encoder may write: an octet as it is, one as hexadecimal digits, or a soft line break. */
  datatype Unit = Plain(octet: octet) | Hex(octet: octet, lowerHigh: bool, lowerLow: bool) | Soft(crlf: bool)

  function Digit(v: nat, lower: bool): (c: octet)
    requires v < 16
    ensures IsHex(c) && HexDigit(c) == v
  {
    if v < 10 then 0x30 + v else if lower then 0x61 + v - 10 else 0x41 + v - 10
  }

  /** Section 6.7 of RFC 2045, with either case of digit and either line break. */
  function EncodeUnit(u: Unit): seq<octet> {
    match u
    case Plain(c) => [c]
    case Hex(c, high, low) =>
      var n: nat := c;
      [EQUALS, Digit(n / 16, high), Digit(n % 16, low)]
    case Soft(crlf) => if crlf then [EQUALS, CR, LF] else [EQUALS, LF]
  }

  /** The octets that a unit stands for. */
  function Meaning(u: Unit): seq<octet> {
    if u.Soft? then [] else [u.octet]
  }

  function Encode(units: seq<Unit>): seq<octet> {
    if units == [] then [] else Encode(units[..|units| - 1]) + EncodeUnit(units[|units| - 1])
  }

  function Meant(units: seq<Unit>): seq<octet> {
    if units == [] then [] else Meant(units[..|units| - 1]) + Meaning(units[|units| - 1])
  }

  /** The only thing an encoder must not write as it is is the equals sign. */
  predicate Encodable(units: seq<Unit>) {
    forall i :: 0 <= i < |units| && units[i].Plain? ==> units[i].octet != EQUALS
  }

  predicate Between(d: Decoder) {
    d.Valid() && (d.state == QpLiteral || d.state == QpSoftLine)
  }

  lemma HexPair(c: octet)
    ensures var n: nat := c; n / 16 < 16 && n / 16 * 16 + n % 16 == n
  {
  }

  lemma PlainDecoded(d: Decoder, c: octet)
    requires Between(d) && c != EQUALS
    ensures Between(Decode(d, c)) && Decode(d, c).All() == d.All() + [c]
  {
    DecodeIsValid(d, c);
    AddKeeps(d, c);
  }

  lemma HexDecoded(d: Decoder, c: octet, high: bool, low: bool)
    requires Between(d)
    ensures var n: nat := c;
            var d1 := Decode(d, EQUALS);
            d1.Valid() && var d2 := Decode(d1, Digit(n / 16, high));
            d2.Valid() && var d3 := Decode(d2, Digit(n % 16, low));
            Between(d3) && d3.All() == d.All() + [c]
  {
    hide Add, Digit, HexDigit;
    HexPair(c);
    var n: nat := c;
    var d2 := d.(next := Digit(n / 16, high), state := QpDecode);
    AddKeeps(d2, c);
    AddIsValid(d2, c);
  }

  /** An equals sign that neither a digit nor a line break follows stands for itself, at the end of the input too. */
  lemma EqualsKept(d: Decoder, c: input)
    requires Between(d) && !IsHex(c) && c != CR && c != LF
    ensures var d1 := Decode(d, EQUALS);
            d1.Valid() && var d2 := Decode(d1, c);
            if c == EOF then d2.flushed == d.All() + [EQUALS] && d2.buffer == [] && !d2.cr
            else Between(d2) && d2.All() == d.All() + [EQUALS] + [c]
  {
    hide Add;
    var l := d.(state := QpLiteral);
    AddKeeps(l, EQUALS);
    AddKeeps(Add(l, EQUALS), c);
    AddIsValid(l, EQUALS);
    if c != EOF {
      AddIsValid(Add(l, EQUALS), c);
    }
  }

  /** So does one with a single digit. */
  lemma DigitKept(d: Decoder, h: octet, c: input)
    requires Between(d) && IsHex(h) && !IsHex(c)
    ensures var d1 := Decode(d, EQUALS);
            d1.Valid() && var d2 := Decode(d1, h);
            d2.Valid() && var d3 := Decode(d2, c);
            if c == EOF then d3.flushed == d.All() + [EQUALS] + [h] && d3.buffer == [] && !d3.cr
            else Between(d3) && d3.All() == d.All() + [EQUALS] + [h] + [c]
  {
    hide Add;
    var l := d.(next := h, state := QpDecode);
    AddKeeps(l, EQUALS);
    AddKeeps(Add(l, EQUALS), h);
    AddKeeps(Add(Add(l, EQUALS), h), c);
    AddIsValid(l, EQUALS);
    AddIsValid(Add(l, EQUALS), h);
    if c != EOF {
      AddIsValid(Add(Add(l, EQUALS), h), c);
    }
  }

  /** Behind an equals sign a CR is passed over, whether or not an LF follows it. */
  lemma CrPassedOver(d: Decoder, c: input)
    requires Between(d)
    ensures var d1 := Decode(d, EQUALS); d1.Valid() && Decode(d1, CR) == d1
  {
  }

  /** The decode buffer goes to the flush hooks at every LF, and before it is full. */
  lemma AddFlushes(d: Decoder, ch: input)
    requires |d.buffer| < MIME_BUFFER_SIZE - 1 && LF !in d.buffer
    ensures LF !in Add(d, ch).buffer && |Add(d, ch).buffer| < MIME_BUFFER_SIZE - 1
    ensures ch == LF ==> Add(d, ch).flushed == d.All() + [LF]
    ensures ch != LF && ch != EOF && |d.All()| + 1 < |d.flushed| + MIME_BUFFER_SIZE - 1 ==> Add(d, ch).flushed == d.flushed
  {
  }

  lemma SoftDecoded(d: Decoder, crlf: bool)
    requires Between(d)
    ensures var d1 := Decode(d, EQUALS);
            d1.Valid() && var d2 := if crlf then Decode(d1, CR) else d1;
            d2.Valid() && var d3 := Decode(d2, LF);
            Between(d3) && d3.All() == d.All()
  {
  }

  lemma {:induction false} AllOfTwo(d: Decoder, s: seq<octet>, t: seq<octet>)
    requires d.Valid()
    ensures DecodeAll(d, s + t) == DecodeAll(DecodeAll(d, s), t)
  {
    if t == [] {
      assert s + t == s;
    } else {
      var n := |t| - 1;
      AllOfTwo(d, s, t[..n]);
      Assoc(s, t[..n], [t[n]]);
      assert t == t[..n] + [t[n]];
      LastDecoded(d, s + t[..n], t[n]);
      LastDecoded(DecodeAll(d, s), t[..n], t[n]);
    }
  }

  lemma OneDecoded(d: Decoder, c: octet)
    requires d.Valid()
    ensures DecodeAll(d, [c]) == Decode(d, c)
  {
    assert [c] == [] + [c];
    LastDecoded(d, [], c);
  }

  lemma UnitDecoded(d: Decoder, u: Unit)
    requires Between(d) && (u.Plain? ==> u.octet != EQUALS)
    ensures Between(DecodeAll(d, EncodeUnit(u))) && DecodeAll(d, EncodeUnit(u)).All() == d.All() + Meaning(u)
  {
    hide Decode, Digit;
    match u
    case Plain(c) =>
      OneDecoded(d, c);
      PlainDecoded(d, c);
    case Hex(c, high, low) =>
      HexDecoded(d, c, high, low);
      var n: nat := c;
      ThreeDecoded(d, EQUALS, Digit(n / 16, high), Digit(n % 16, low));
    case Soft(crlf) =>
      SoftDecoded(d, crlf);
      if crlf {
        ThreeDecoded(d, EQUALS, CR, LF);
      } else {
        assert [EQUALS, LF] == [EQUALS] + [LF];
        OneDecoded(d, EQUALS);
        LastDecoded(d, [EQUALS], LF);
      }
  }

  lemma ThreeDecoded(d: Decoder, a: octet, b: octet, c: octet)
    requires d.Valid() && Decode(d, a).Valid() && Decode(Decode(d, a), b).Valid()
    ensures DecodeAll(d, [a, b, c]) == Decode(Decode(Decode(d, a), b), c)
  {
    hide Decode;
    OneDecoded(d, a);
    assert [a, b] == [a] + [b];
    LastDecoded(d, [a], b);
    assert [a, b, c] == [a, b] + [c];
    LastDecoded(d, [a, b], c);
  }

  /** The decoder recovers what was encoded, however that was done. */
  lemma {:induction false} QpRecovers(d: Decoder, units: seq<Unit>)
    requires Between(d) && Encodable(units)
    ensures Between(DecodeAll(d, Encode(units))) && DecodeAll(d, Encode(units)).All() == d.All() + Meant(units)
  {
    hide DecodeAll, EncodeUnit, Meaning;
    if units == [] {
      NothingDecoded(d);
    } else {
      var n := |units| - 1;
      QpRecovers(d, units[..n]);
      AllOfTwo(d, Encode(units[..n]), EncodeUnit(units[n]));
      UnitDecoded(DecodeAll(d, Encode(units[..n])), units[n]);
      Assoc(d.All(), Meant(units[..n]), Meaning(units[n]));
    }
  }

  lemma NothingDecoded(d: Decoder)
    requires d.Valid()
    ensures DecodeAll(d, []) == d
  {
  }

  /** At EOF all of it has gone through the flush hooks. */
  lemma QpRecoversAtEof(d: Decoder, units: seq<Unit>)
    requires Between(d) && Encodable(units)
    ensures Decode(DecodeAll(d, Encode(units)), EOF).flushed == d.All() + Meant(units)
  {
    QpRecovers(d, units);
    AddKeeps(DecodeAll(d, Encode(units)), EOF);
  }
}
