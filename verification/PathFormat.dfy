/**
 Splitting an address into its parts and putting it together again, as
 mail/parsePath.c promises it: on strings.
 */
module PathFormat {
  import opened CString
  import Octets

  const SMTP_LOCAL_PART_LENGTH: nat := 64
  const SMTP_DOMAIN_LENGTH: nat := 255

  /**
   The scanners of the net library, which say how much of a string is a source route,
   a local part or a domain with at least so many dots.
   */
  datatype Spans = Spans(sourceRoute: string -> nat, localPart: string -> nat, domain: (string, int) -> nat)

  ghost predicate WithinStrings(spans: Spans) {
    forall s: string, dots: int :: Scans(spans, s, dots)
  }

  predicate Scans(spans: Spans, s: string, dots: int) {
    spans.sourceRoute(s) <= |s| && spans.localPart(s) <= |s| && spans.domain(s, dots) <= |s|
  }

  datatype Flags = Flags(localLength: bool, domainLength: bool, literalPlus: bool, minDots: bool)

  datatype Failure =
    | InvalidSourceRoute | LocalPartTooLong | InvalidLocalPart
    | DomainTooLong | AddressIncomplete | InvalidDomain

  datatype Result<T> = Ok(value: T) | Err(failure: Failure)

  /** The pieces of an address, and which separators were between them. */
  datatype Pieces = Pieces(route: string, left: string, plus: bool, right: string, at: bool, domain: string)

  /** The parts as they are kept: all but the right part in lower case. */
  datatype Parts =
    Parts(address: string, sourceRoute: string, localLeft: string, localRight: string, domain: string)

  // ---------- Splitting ----------

  function Split(spans: Spans, flags: Flags, dots: int, address: string): Result<Pieces>
    requires WithinStrings(spans)
  {
    if address == "" then Ok(Pieces("", "", false, "", false, ""))
    else
      assert Scans(spans, address, dots);
      var n := spans.sourceRoute(address);
      if n == 0 then SplitLocal(spans, flags, dots, "", address)
      else if n == |address| || address[n] != ':' then Err(InvalidSourceRoute)
      else SplitLocal(spans, flags, dots, address[..n], address[n + 1..])
  }

  /** What follows the source route. */
  function SplitLocal(spans: Spans, flags: Flags, dots: int, route: string, rest: string): Result<Pieces>
    requires WithinStrings(spans)
  {
    assert Scans(spans, rest, dots);
    var n := spans.localPart(rest);
    if flags.localLength && SMTP_LOCAL_PART_LENGTH < n then Err(LocalPartTooLong)
    else if n < |rest| && rest[n] != '@' then Err(InvalidLocalPart)
    else
      var local, left := rest[..n], LeftLength(flags, rest[..n]);
      var pieces := Pieces(route, local[..left], left < n, if left < n then local[left + 1..] else "", n < |rest|, "");
      SplitDomain(spans, flags, dots, pieces, if n < |rest| then rest[n + 1..] else "")
  }

  function LeftLength(flags: Flags, local: string): (n: nat)
    ensures n <= |local|
  {
    if flags.literalPlus then |local| else IndexOf(local, '+')
  }

  function SplitDomain(spans: Spans, flags: Flags, dots: int, pieces: Pieces, domain: string): Result<Pieces>
    requires WithinStrings(spans)
  {
    assert Scans(spans, domain, dots);
    var n := spans.domain(domain, dots);
    if flags.domainLength && SMTP_DOMAIN_LENGTH < n then Err(DomainTooLong)
    else if flags.minDots && 0 < dots && n == 0 then Err(AddressIncomplete)
    else if n < |domain| then Err(InvalidDomain)
    else Ok(pieces.(domain := domain))
  }

  /** Behind the source route, the first check that fails decides, and otherwise the pieces are what the scanners say. */
  lemma RestChecked(spans: Spans, flags: Flags, dots: int, route: string, rest: string)
    requires WithinStrings(spans)
    ensures var n, r := spans.localPart(rest), SplitLocal(spans, flags, dots, route, rest);
            if flags.localLength && n > 64 then r == Err(LocalPartTooLong)
            else if n < |rest| && rest[n] != '@' then r == Err(InvalidLocalPart)
            else if n > |rest| then false
            else
              var domain := if n < |rest| then rest[n + 1..] else "";
              var m := spans.domain(domain, dots);
              if flags.domainLength && m > 255 then r == Err(DomainTooLong)
              else if flags.minDots && dots >= 1 && m == 0 then r == Err(AddressIncomplete)
              else if m != |domain| then r == Err(InvalidDomain)
              else
                && r.Ok? && r.value.route == route && r.value.at == (n < |rest|) && r.value.domain == domain
                && (flags.literalPlus || '+' !in rest[..n] ==> r.value.left == rest[..n] && !r.value.plus && r.value.right == "")
                && (!flags.literalPlus && '+' in rest[..n] ==>
                      r.value.plus && '+' !in r.value.left && r.value.left + "+" + r.value.right == rest[..n])
  {
    assert Scans(spans, rest, dots);
    var n := spans.localPart(rest);
    var local := rest[..n];
    assert Scans(spans, if n < |rest| then rest[n + 1..] else "", dots);
    var k := LeftLength(flags, local);
    if k < n {
      assert local == local[..k] + [local[k]] + local[k + 1..];
      assert local[k] == '+';
    } else {
      assert local[..k] == local;
    }
  }

  /** A source route is what its scanner says, up to a colon; without one the whole address is the rest. */
  lemma RouteChecked(spans: Spans, flags: Flags, dots: int, address: string)
    requires WithinStrings(spans) && address != ""
    ensures var n, r := spans.sourceRoute(address), Split(spans, flags, dots, address);
            && n <= |address|
            && (n == 0 ==> r == SplitLocal(spans, flags, dots, "", address))
            && (0 < n < |address| && address[n] == ':' ==>
                  r == SplitLocal(spans, flags, dots, address[..n], address[n + 1..]))
            && (0 < n && (n == |address| || address[n] != ':') ==> r == Err(InvalidSourceRoute))
    ensures Split(spans, flags, dots, "") == Ok(Pieces("", "", false, "", false, ""))
  {
    assert Scans(spans, address, dots);
  }

  function PartsOf(address: string, p: Pieces): Parts {
    Parts(address, Lower(p.route), Lower(p.left), p.right, Lower(p.domain))
  }

  /** The pieces with the separators between them. */
  function Joined(p: Pieces): string {
    (if p.route == "" then "" else p.route + ":")
      + (p.left + (if p.plus then "+" else "") + p.right)
      + (if p.at then "@" else "") + p.domain
  }

  function LowerPieces(p: Pieces): Pieces {
    p.(route := Lower(p.route), left := Lower(p.left), domain := Lower(p.domain))
  }

  lemma LocalJoined(flags: Flags, local: string)
    ensures var n := LeftLength(flags, local);
            local == local[..n] + (if n < |local| then "+" else "") + (if n < |local| then local[n + 1..] else "")
  {
    var n := LeftLength(flags, local);
    if n < |local| {
      assert local[..n] + [local[n]] + local[n + 1..] == local;
    } else {
      assert local[..n] + "" + "" == local;
    }
  }

  lemma SplitLocalIsExact(spans: Spans, flags: Flags, dots: int, route: string, rest: string)
    requires WithinStrings(spans)
    ensures var r := SplitLocal(spans, flags, dots, route, rest);
            r.Ok? ==> Joined(r.value) == (if route == "" then "" else route + ":") + rest
  {
    assert Scans(spans, rest, dots);
    var r := SplitLocal(spans, flags, dots, route, rest);
    if r.Ok? {
      var n := spans.localPart(rest);
      LocalJoined(flags, rest[..n]);
      var head := if route == "" then "" else route + ":";
      var p := r.value;
      assert p.left + (if p.plus then "+" else "") + p.right == rest[..n];
      RestJoined(head, rest, n);
    }
  }

  lemma RestJoined(head: string, rest: string, n: nat)
    requires n <= |rest| && (n < |rest| ==> rest[n] == '@')
    ensures head + rest == head + rest[..n] + (if n < |rest| then "@" else "") + (if n < |rest| then rest[n + 1..] else "")
  {
    if n < |rest| {
      assert rest == rest[..n] + "@" + rest[n + 1..];
    } else {
      assert rest[..n] == rest;
    }
  }

  /** Nothing of the address is lost or added: the pieces and their separators are the address. */
  lemma SplitIsExact(spans: Spans, flags: Flags, dots: int, address: string)
    requires WithinStrings(spans)
    ensures var r := Split(spans, flags, dots, address); r.Ok? ==> Joined(r.value) == address
  {
    hide SplitLocal, Joined;
    if address == "" {
      NothingJoined();
    } else {
      assert Scans(spans, address, dots);
      var n := spans.sourceRoute(address);
      if n == 0 {
        SplitLocalIsExact(spans, flags, dots, "", address);
        assert "" + address == address;
      } else if n < |address| && address[n] == ':' {
        SplitLocalIsExact(spans, flags, dots, address[..n], address[n + 1..]);
        assert address[..n] + ":" + address[n + 1..] == address;
      }
    }
  }

  lemma NothingJoined()
    ensures Joined(Pieces("", "", false, "", false, "")) == ""
  {
  }

  // ---------- Formatting ----------

  /** What a format letter stands for. */
  function Field(letter: char, p: Parts): string {
    match letter
    case '%' => "%"
    case 'A' => p.address
    case 'D' => p.domain
    case 'L' => p.localLeft
    case 'P' => if p.localRight == "" then p.localLeft else p.localLeft + "+" + p.localRight
    case 'R' => p.localRight
    case 'S' => p.sourceRoute
    case 'T' => if p.sourceRoute == "" then "" else p.sourceRoute + ":"
    case _ => ""
  }

  /** A format in which every percent sign has its letter. */
  predicate Complete(format: string) {
    format == "" || (if format[0] == '%' then 2 <= |format| && Complete(format[2..]) else Complete(format[1..]))
  }

  function Formatted(format: string, p: Parts): string
    requires Complete(format)
  {
    if format == "" then ""
    else if format[0] == '%' then Field(format[1], p) + Formatted(format[2..], p)
    else [format[0]] + Formatted(format[1..], p)
  }

  lemma FormattedWhole(p: Parts)
    ensures Complete("%T%P@%D") && Formatted("%T%P@%D", p) == Field('T', p) + (Field('P', p) + (['@'] + Field('D', p)))
  {
    assert "%D"[2..] == "" && "@%D"[1..] == "%D" && "%P@%D"[2..] == "@%D" && "%T%P@%D"[2..] == "%P@%D";
    assert Formatted("%D", p) == Field('D', p) + "";
    assert Field('D', p) + "" == Field('D', p);
    assert Formatted("@%D", p) == ['@'] + Formatted("%D", p);
    assert Formatted("%P@%D", p) == Field('P', p) + Formatted("@%D", p);
  }

  /** What the single letters stand for, next to those for what is put together of them. */
  lemma LettersAre(p: Parts)
    ensures Complete("%A") && Formatted("%A", p) == p.address
    ensures Complete("%%") && Formatted("%%", p) == "%"
    ensures Complete("%T") && Complete("%S")
            && Formatted("%T", p) == if p.sourceRoute == "" then "" else Formatted("%S", p) + ":"
    ensures Complete("%L") && Complete("%R") && Complete("%P")
            && Formatted("%P", p) == Formatted("%L", p) + if p.localRight == "" then "" else "+" + Formatted("%R", p)
    ensures Formatted("%S", p) == p.sourceRoute && Formatted("%L", p) == p.localLeft && Formatted("%R", p) == p.localRight
    ensures Complete("%D") && Formatted("%D", p) == p.domain
  {
    hide Field;
    OneLetter('A', p);
    OneLetter('%', p);
    OneLetter('T', p);
    OneLetter('S', p);
    OneLetter('L', p);
    OneLetter('R', p);
    OneLetter('P', p);
    OneLetter('D', p);
    FieldsAre(p);
  }

  lemma OneLetter(letter: char, p: Parts)
    ensures Complete(['%', letter]) && Formatted(['%', letter], p) == Field(letter, p)
  {
    assert ['%', letter][2..] == "";
    assert Formatted("", p) == "";
    assert Field(letter, p) + "" == Field(letter, p);
  }

  lemma FieldsAre(p: Parts)
    ensures Field('A', p) == p.address && Field('%', p) == "%" && Field('D', p) == p.domain
    ensures Field('S', p) == p.sourceRoute && Field('L', p) == p.localLeft && Field('R', p) == p.localRight
    ensures Field('T', p) == if p.sourceRoute == "" then "" else Field('S', p) + ":"
    ensures Field('P', p) == Field('L', p) + if p.localRight == "" then "" else "+" + Field('R', p)
  {
  }

  /**
   The format of the whole address rebuilds a qualified address, but for the case of
   its source route, left part and domain, unless there was nothing after a plus.
   */
  lemma RebuiltIff(spans: Spans, flags: Flags, dots: int, address: string)
    requires WithinStrings(spans)
    requires Split(spans, flags, dots, address).Ok? && Split(spans, flags, dots, address).value.at
    ensures Complete("%T%P@%D")
    ensures var pieces := Split(spans, flags, dots, address).value;
            && address == Joined(pieces)
            && (Formatted("%T%P@%D", PartsOf(address, pieces)) == Joined(LowerPieces(pieces))
                <==> !(pieces.plus && pieces.right == ""))
  {
    hide Split, Joined, Formatted;
    SplitIsExact(spans, flags, dots, address);
    RightNeedsPlus(spans, flags, dots, address);
    var pieces := Split(spans, flags, dots, address).value;
    FormattedWhole(PartsOf(address, pieces));
    PiecesRebuilt(address, pieces);
  }

  lemma RightNeedsPlus(spans: Spans, flags: Flags, dots: int, address: string)
    requires WithinStrings(spans)
    ensures var r := Split(spans, flags, dots, address); r.Ok? && !r.value.plus ==> r.value.right == ""
  {
  }

  lemma PiecesRebuilt(address: string, pieces: Pieces)
    requires pieces.at && (!pieces.plus ==> pieces.right == "")
    ensures var p := PartsOf(address, pieces);
            Field('T', p) + (Field('P', p) + (['@'] + Field('D', p))) == Joined(LowerPieces(pieces))
            <==> !(pieces.plus && pieces.right == "")
  {
    var p := PartsOf(address, pieces);
    var head, local := Field('T', p), Field('P', p);
    var q := LowerPieces(pieces);
    var local' := q.left + (if q.plus then "+" else "") + q.right;
    assert Joined(q) == head + local' + "@" + q.domain;
    assert head + (local + (['@'] + q.domain)) == head + local + "@" + q.domain;
    if pieces.plus && pieces.right == "" {
      assert |local'| == |local| + 1;
    } else {
      assert local == local';
    }
  }

  lemma EmptyDetailSplit(spans: Spans, flags: Flags)
    requires WithinStrings(spans) && spans.sourceRoute("a+@d") == 0 && spans.localPart("a+@d") == 2
    requires spans.domain("d", 0) == 1 && !flags.literalPlus
    ensures Split(spans, flags, 0, "a+@d") == Ok(Pieces("", "a", true, "", true, "d"))
  {
    assert "a+@d"[..2] == "a+" && "a+@d"[2 + 1..] == "d" && "a+@d"[2] == '@';
    IndexIs("a+", '+', 1);
    assert "a+"[..1] == "a" && "a+"[2..] == "";
  }

  /** A plus with nothing behind it is lost. */
  lemma EmptyDetailIsLost(spans: Spans, flags: Flags)
    requires WithinStrings(spans) && spans.sourceRoute("a+@d") == 0 && spans.localPart("a+@d") == 2
    requires spans.domain("d", 0) == 1 && !flags.literalPlus
    ensures var r := Split(spans, flags, 0, "a+@d");
            && r == Ok(Pieces("", "a", true, "", true, "d"))
            && Complete("%T%P@%D") && Formatted("%T%P@%D", PartsOf("a+@d", r.value)) == "a@d"
  {
    hide Split, Formatted;
    EmptyDetailSplit(spans, flags);
    assert Lower("a") == "a" && Lower("d") == "d" && Lower("") == "";
    FormattedWhole(PartsOf("a+@d", Pieces("", "a", true, "", true, "d")));
  }

  // ---------- Buffers that may be too short ----------

  /** Where formatPath's index is after a field, starting below the length of the buffer. */
  function FieldEnd(letter: char, p: Parts, i: nat, length: nat): nat {
    if letter == 'P' then
      var j := i + |p.localLeft|;
      if j + 1 < length && p.localRight != "" then j + 1 + |p.localRight| else j
    else if letter == 'T' then
      var j := i + |p.sourceRoute|;
      if j + 1 < length && p.sourceRoute != "" then j + 1 else j
    else i + |Field(letter, p)|
  }

  /** Where it is when the loop ends. */
  function FormatEnd(format: string, p: Parts, i: nat, length: nat): nat
    requires Complete(format)
  {
    if format == "" || length <= i then i
    else if format[0] == '%' then FormatEnd(format[2..], p, FieldEnd(format[1], p, i, length), length)
    else FormatEnd(format[1..], p, i + 1, length)
  }

  /** In a buffer with room for it the index ends at the length of the formatted path. */
  lemma {:induction false} EndWithRoom(format: string, p: Parts, i: nat, length: nat)
    requires Complete(format) && i + |Formatted(format, p)| < length
    ensures FormatEnd(format, p, i, length) == i + |Formatted(format, p)|
    decreases |format|
  {
    if format != "" {
      if format[0] == '%' {
        EndWithRoom(format[2..], p, i + |Field(format[1], p)|, length);
      } else {
        EndWithRoom(format[1..], p, i + 1, length);
      }
    }
  }

  /**
   What formatPath writes, one after another: a whole string, or a separator and what
   follows it, for which there must be room for one character more.
   */
  datatype Write = Whole(text: string) | Spare(separator: char, rest: string)

  function Span(w: Write): nat {
    match w
    case Whole(text) => |text|
    case Spare(_, rest) => 1 + |rest|
  }

  function FieldWrites(letter: char, p: Parts): seq<Write> {
    if letter == 'P' then [Whole(p.localLeft)] + if p.localRight == "" then [] else [Spare('+', p.localRight)]
    else if letter == 'T' then [Whole(p.sourceRoute)] + if p.sourceRoute == "" then [] else [Spare(':', "")]
    else [Whole(Field(letter, p))]
  }

  function Writes(format: string, p: Parts): seq<Write>
    requires Complete(format)
  {
    if format == "" then []
    else if format[0] == '%' then FieldWrites(format[1], p) + Writes(format[2..], p)
    else [Whole([format[0]])] + Writes(format[1..], p)
  }

  function InFull(w: Write): string {
    match w
    case Whole(text) => text
    case Spare(separator, rest) => [separator] + rest
  }

  function Spelled(ws: seq<Write>): string {
    if ws == [] then "" else InFull(ws[0]) + Spelled(ws[1..])
  }

  lemma {:induction false} SpelledAppend(a: seq<Write>, b: seq<Write>)
    ensures Spelled(a + b) == Spelled(a) + Spelled(b)
  {
    hide InFull;
    if a == [] {
      assert a + b == b;
    } else {
      SpelledAppend(a[1..], b);
      assert (a + b)[1..] == a[1..] + b;
      Octets.Assoc(InFull(a[0]), Spelled(a[1..]), Spelled(b));
    }
  }

  lemma FieldSpelled(letter: char, p: Parts)
    ensures Spelled(FieldWrites(letter, p)) == Field(letter, p)
  {
    var ws := FieldWrites(letter, p);
    if |ws| == 2 {
      assert ws == [ws[0]] + [ws[1]];
      SpelledAppend([ws[0]], [ws[1]]);
    }
  }

  /** Written in full, they are the formatted path. */
  lemma {:induction false} WritesSpell(format: string, p: Parts)
    requires Complete(format)
    ensures Spelled(Writes(format, p)) == Formatted(format, p)
    decreases |format|
  {
    if format != "" {
      if format[0] == '%' {
        WritesSpell(format[2..], p);
        SpelledAppend(FieldWrites(format[1], p), Writes(format[2..], p));
        FieldSpelled(format[1], p);
      } else {
        WritesSpell(format[1..], p);
        SpelledAppend([Whole([format[0]])], Writes(format[1..], p));
      }
    }
  }

  /** Where the index is after some writes into a buffer. */
  function WriteEnd(ws: seq<Write>, i: nat, length: nat): nat {
    if ws == [] || length <= i then i
    else match ws[0]
         case Whole(text) => WriteEnd(ws[1..], i + |text|, length)
         case Spare(_, rest) => WriteEnd(ws[1..], if i + 1 < length then i + 1 + |rest| else i, length)
  }

  lemma {:induction false} WriteEndAppend(a: seq<Write>, b: seq<Write>, i: nat, length: nat)
    ensures WriteEnd(a + b, i, length) == WriteEnd(b, WriteEnd(a, i, length), length)
    decreases |a|
  {
    if a == [] {
      assert a + b == b;
    } else if i < length {
      assert (a + b)[1..] == a[1..] + b;
      var w := a[0];
      WriteEndAppend(a[1..], b, if w.Whole? then i + |w.text| else if i + 1 < length then i + 1 + |w.rest| else i, length);
    }
  }

  lemma FieldEndIsWriteEnd(letter: char, p: Parts, i: nat, length: nat)
    requires i < length
    ensures FieldEnd(letter, p, i, length) == WriteEnd(FieldWrites(letter, p), i, length)
  {
    var ws := FieldWrites(letter, p);
    if |ws| == 2 {
      assert ws == [ws[0]] + [ws[1]];
      WriteEndAppend([ws[0]], [ws[1]], i, length);
    }
  }

  lemma {:induction false} FormatEndIsWriteEnd(format: string, p: Parts, i: nat, length: nat)
    requires Complete(format)
    ensures FormatEnd(format, p, i, length) == WriteEnd(Writes(format, p), i, length)
    decreases |format|
  {
    if format != "" && i < length {
      if format[0] == '%' {
        FormatEndIsWriteEnd(format[2..], p, FieldEnd(format[1], p, i, length), length);
        FieldEndIsWriteEnd(format[1], p, i, length);
        WriteEndAppend(FieldWrites(format[1], p), Writes(format[2..], p), i, length);
      } else {
        FormatEndIsWriteEnd(format[1..], p, i + 1, length);
        WriteEndAppend([Whole([format[0]])], Writes(format[1..], p), i, length);
      }
    }
  }

  /** Where a write begins in the formatted path that begins at i. */
  function Offset(ws: seq<Write>, k: nat, i: nat): nat
    requires k <= |ws|
  {
    if k == 0 then i else Offset(ws[1..], k - 1, i + Span(ws[0]))
  }

  /** A string that is copied begins inside the buffer and ends past it. */
  predicate CutShort(ws: seq<Write>, k: nat, i: nat, length: nat)
    requires k < |ws|
  {
    match ws[k]
    case Whole(text) => Offset(ws, k, i) < length < Offset(ws, k, i) + |text|
    case Spare(_, rest) => Offset(ws, k, i) + 1 < length < Offset(ws, k, i) + 1 + |rest|
  }

  /** A separator falls on the last octet of the buffer, and is left out with what follows it. */
  predicate LeftOut(ws: seq<Write>, k: nat, i: nat, length: nat)
    requires k < |ws|
  {
    ws[k].Spare? && Offset(ws, k, i) + 1 == length
  }

  /** The first string from the k-th write on that is not empty has two characters or more. */
  predicate LongNext(ws: seq<Write>, k: nat) {
    exists m :: k <= m < |ws| && FirstLong(ws, k, m)
  }

  predicate FirstLong(ws: seq<Write>, k: nat, m: nat)
    requires k <= m < |ws|
  {
    ws[m].Whole? && 2 <= |ws[m].text| && forall j :: k <= j < m ==> ws[j].Spare? || ws[j].text == ""
  }

  /** The path takes the index past the end of the buffer. */
  predicate Overruns(ws: seq<Write>, i: nat, length: nat) {
    exists k :: 0 <= k < |ws| && OverrunsAt(ws, k, i, length)
  }

  predicate OverrunsAt(ws: seq<Write>, k: nat, i: nat, length: nat)
    requires k < |ws|
  {
    CutShort(ws, k, i, length) || (LeftOut(ws, k, i, length) && LongNext(ws, k + 1))
  }

  lemma LongNextFrom(ws: seq<Write>, k: nat)
    requires ws != []
    ensures LongNext(ws, k + 1) <==> LongNext(ws[1..], k)
  {
    if LongNext(ws, k + 1) {
      var m :| k + 1 <= m < |ws| && FirstLong(ws, k + 1, m);
      assert FirstLong(ws[1..], k, m - 1) by {
        forall j | k <= j < m - 1 ensures ws[1..][j].Spare? || ws[1..][j].text == "" {
          assert ws[1..][j] == ws[j + 1];
        }
      }
    }
    if LongNext(ws[1..], k) {
      var m :| k <= m < |ws[1..]| && FirstLong(ws[1..], k, m);
      assert FirstLong(ws, k + 1, m + 1) by {
        forall j | k + 1 <= j < m + 1 ensures ws[j].Spare? || ws[j].text == "" {
          assert ws[j] == ws[1..][j - 1];
        }
      }
    }
  }

  /** The first write overruns the buffer, or one of the others does. */
  lemma OverrunsFrom(ws: seq<Write>, i: nat, length: nat)
    requires ws != []
    ensures Overruns(ws, i, length) <==> OverrunsAt(ws, 0, i, length) || Overruns(ws[1..], i + Span(ws[0]), length)
  {
    hide LongNext;
    if Overruns(ws, i, length) {
      var k :| 0 <= k < |ws| && OverrunsAt(ws, k, i, length);
      if k > 0 {
        LongNextFrom(ws, k);
        assert OverrunsAt(ws[1..], k - 1, i + Span(ws[0]), length);
      }
    }
    if Overruns(ws[1..], i + Span(ws[0]), length) {
      var k :| 0 <= k < |ws[1..]| && OverrunsAt(ws[1..], k, i + Span(ws[0]), length);
      LongNextFrom(ws, k + 1);
      assert OverrunsAt(ws, k + 1, i, length);
    }
  }

  lemma {:induction false} NotBehind(ws: seq<Write>, i: nat, length: nat)
    requires length <= i
    ensures !Overruns(ws, i, length)
    decreases |ws|
  {
    if ws != [] {
      hide LongNext;
      OverrunsFrom(ws, i, length);
      NotBehind(ws[1..], i + Span(ws[0]), length);
    }
  }

  /** Once a separator is left out, the next string that is not empty is written in its place. */
  lemma {:induction false} AfterLeftOut(ws: seq<Write>, length: nat)
    requires 0 < length
    ensures WriteEnd(ws, length - 1, length) > length <==> LongNext(ws, 0)
    decreases |ws|
  {
    if ws == [] {
    } else if ws[0].Spare? || ws[0].text == "" {
      AfterLeftOut(ws[1..], length);
      LongNextFrom(ws, 0);
      if LongNext(ws, 0) {
        var m :| 0 <= m < |ws| && FirstLong(ws, 0, m);
        assert FirstLong(ws, 1, m);
      }
      if LongNext(ws, 1) {
        var m :| 1 <= m < |ws| && FirstLong(ws, 1, m);
        assert FirstLong(ws, 0, m);
      }
    } else {
      assert |ws[0].text| >= 2 ==> FirstLong(ws, 0, 0);
      if LongNext(ws, 0) {
        var m :| 0 <= m < |ws| && FirstLong(ws, 0, m);
        assert m == 0;
      }
    }
  }

  lemma {:induction false} WriteEndOverruns(ws: seq<Write>, i: nat, length: nat)
    requires i <= length
    ensures WriteEnd(ws, i, length) > length <==> Overruns(ws, i, length)
    decreases |ws|
  {
    hide LongNext;
    if length == i {
      NotBehind(ws, i, length);
    } else if ws != [] {
      OverrunsFrom(ws, i, length);
      var next := i + Span(ws[0]);
      if ws[0].Spare? && i + 1 == length {
        NotBehind(ws[1..], next, length);
        AfterLeftOut(ws[1..], length);
        LongNextFrom(ws, 0);
      } else if next <= length {
        WriteEndOverruns(ws[1..], next, length);
      }
    }
  }

  /**
   formatPath's index ends past the end of the buffer, and its last NUL goes behind
   it, iff a string of the path is cut short, or a separator falls on the last octet
   of the buffer and the next string has two characters or more.
   */
  lemma OverrunIff(format: string, p: Parts, length: nat)
    requires Complete(format)
    ensures FormatEnd(format, p, 0, length) > length <==> Overruns(Writes(format, p), 0, length)
    ensures Spelled(Writes(format, p)) == Formatted(format, p)
  {
    hide Overruns, WriteEnd, Writes, FormatEnd;
    WritesSpell(format, p);
    FormatEndIsWriteEnd(format, p, 0, length);
    WriteEndOverruns(Writes(format, p), 0, length);
  }

  /** Six characters in a buffer of four are cut short, and take the index to 6. */
  lemma ShortBuffer(p: Parts)
    requires p.address == "abcdef"
    ensures Complete("%A") && Overruns(Writes("%A", p), 0, 4) && FormatEnd("%A", p, 0, 4) == 6
  {
    assert "%A"[2..] == "";
    var ws := Writes("%A", p);
    assert ws == FieldWrites('A', p) + Writes("", p) == [Whole("abcdef")];
    assert OverrunsAt(ws, 0, 0, 4);
  }

  /** abc+d@ef in a buffer of four: the plus falls on its last octet, and ef would be written in its place. */
  lemma LeftOutPlus(p: Parts)
    requires p.localLeft == "abc" && p.localRight == "d" && p.domain == "ef"
    ensures Complete("%P%D") && Overruns(Writes("%P%D", p), 0, 4) && FormatEnd("%P%D", p, 0, 4) == 5
  {
    assert "%P%D"[2..] == "%D" && "%D"[2..] == "";
    var ws := Writes("%P%D", p);
    assert Writes("%D", p) == [Whole("ef")] + [];
    assert ws == [Whole("abc"), Spare('+', "d"), Whole("ef")];
    assert FirstLong(ws, 2, 2);
    assert Offset(ws, 1, 0) == Offset(ws[1..], 0, 3) == 3;
    assert OverrunsAt(ws, 1, 0, 4);
    assert FieldEnd('P', p, 0, 4) == 3 && FormatEnd("%D", p, 3, 4) == 5;
  }

  // ---------- What a buffer shows ----------

  /**
   The buffer shows the text up to the index i, which falls behind the end of the text
   only where the buffer is full.
   */
  ghost predicate Shows(b: string, i: nat, text: string) {
    && 0 < |b| && i <= |text| && (i == |text| || |b| - 1 <= i)
    && b[..Room(|text|, |b|)] == text[..Room(|text|, |b|)]
  }

  lemma ShowsChar(b: string, i: nat, c: char, text: string)
    requires Shows(b, i, text) && i < |b|
    ensures Shows(b[i := c], i + 1, text + [c])
  {
    var n, n' := Room(|text|, |b|), Room(|text| + 1, |b|);
    assert b[i := c][..n] == b[..n] && (text + [c])[..n] == text[..n];
    if n < n' {
      assert b[i := c][..n'] == b[i := c][..n] + [c];
      assert (text + [c])[..n'] == text + [c];
    }
  }

  lemma ShowsCopy(b: string, b': string, i: nat, s: string, text: string)
    requires Shows(b, i, text) && i < |b| == |b'| && b[..i] == b'[..i]
    requires HasAt(b', i, s[..Room(|s|, |b| - i)])
    ensures Shows(b', i + |s|, text + s)
  {
    var n, n' := Room(|s|, |b| - i), Room(|text + s|, |b|);
    if i == |text| {
      assert n' == i + n;
      assert b'[..n'] == b'[..i] + b'[i..i + n];
      assert (text + s)[..n'] == text + s[..n];
      assert b[..i] == text;
    } else {
      assert n' == i;
      assert (text + s)[..i] == text[..i];
    }
  }

  /** Where the buffer is full, what is left out does not show. */
  lemma ShowsCut(b: string, i: nat, text: string, more: string)
    requires Shows(b, i, text) && |b| <= i + 1
    ensures Shows(b, i, text + more)
  {
    assert (text + more)[..|b| - 1] == text[..|b| - 1];
  }
}
