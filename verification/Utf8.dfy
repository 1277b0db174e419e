/**
 io/utf8.c: the UTF-8 codec of section 3 of RFC 3629, carried on to sequences of
 five and six octets. Wide characters are 32-bit words; a word with its top bit
 set is a negative wchar_t.
 */
module Utf8 {
  type word = bv32

  type byte = w: word | w < 256

  const MAX_WIDE: word := 0x7FFF_FFFF

  // ---------- The code ----------

  predicate Negative(wc: word) {
    wc & 0x8000_0000 != 0
  }

  /** How many continuation octets the encoder writes. */
  function Tails(wc: word): (n: nat)
    ensures n <= 5
  {
    if Negative(wc) || wc <= 0x7F then 0
    else if wc <= 0x7FF then 1
    else if wc <= 0xFFFF then 2
    else if wc <= 0x1F_FFFF then 3
    else if wc <= 0x3FF_FFFF then 4
    else 5
  }

  /** wc with n groups of six bits shifted out. */
  function Rest(wc: word, n: nat): word
    decreases n
  {
    if n == 0 then wc else Rest(wc >> 6, n - 1)
  }

  function Continuation(wc: word): byte {
    0x80 | (wc & 0x3F)
  }

  function Tail(wc: word, n: nat): (s: seq<byte>)
    ensures |s| == n
    decreases n
  {
    if n == 0 then [] else Tail(wc >> 6, n - 1) + [Continuation(wc)]
  }

  /** The signed char 0x80 after k arithmetic right shifts, sign-extended to a word. */
  function MaskAt(k: nat): word {
    if k == 0 then 0xFFFF_FF80 else ShiftRight(MaskAt(k - 1))
  }

  function ShiftRight(w: word): word {
    (w >> 1) | 0x8000_0000
  }

  /** n + 1 one bits from the top of the lead octet; what they leave free holds the rest. */
  function Lead(n: nat, rest: word): byte {
    var mark := MaskAt(n) & 0xFF;
    (mark | (!mark & rest)) & 0xFF
  }

  function Encode(wc: word): (s: seq<byte>)
    ensures 1 <= |s| == Tails(wc) + 1 <= 6
  {
    var n := Tails(wc);
    if n == 0 then [wc & 0xFF] else [Lead(n, Rest(wc, n))] + Tail(wc, n)
  }

  function EncodeAll(ws: seq<word>): seq<byte> {
    if ws == [] then [] else Encode(ws[0]) + EncodeAll(ws[1..])
  }

  lemma NothingEncoded()
    ensures EncodeAll([]) == []
  {
  }

  lemma EncodeAllFrom(data: seq<byte>, ws: seq<word>, i: nat)
    requires i < |ws|
    ensures data + EncodeAll(ws[i..]) == data + Encode(ws[i]) + EncodeAll(ws[i + 1..])
  {
    hide Encode;
    assert ws[i..][1..] == ws[i + 1..];
    assert data + (Encode(ws[i]) + EncodeAll(ws[i + 1..])) == data + Encode(ws[i]) + EncodeAll(ws[i + 1..]);
  }

  // ---------- The leading-ones loop ----------

  /** The loop goes on: x has all the bits of the low octet of the mask. */
  predicate Goes(mask: word, x: word) {
    mask & x == mask & 0xFF
  }

  lemma Masks()
    ensures MaskAt(0) == 0xFFFF_FF80 && MaskAt(1) == 0xFFFF_FFC0
    ensures MaskAt(2) == 0xFFFF_FFE0 && MaskAt(3) == 0xFFFF_FFF0
    ensures MaskAt(4) == 0xFFFF_FFF8 && MaskAt(5) == 0xFFFF_FFFC
    ensures MaskAt(6) == 0xFFFF_FFFE && MaskAt(7) == 0xFFFF_FFFF
  {
    assert MaskAt(2) == 0xFFFF_FFE0;
    assert MaskAt(4) == 0xFFFF_FFF8;
    assert MaskAt(6) == 0xFFFF_FFFE;
  }

  /** Leading one bits of an octet other than 0xFF. */
  function LeadingOnes(x: byte): (n: nat)
    ensures n <= 7
  {
    if x < 0x80 then 0 else if x < 0xC0 then 1 else if x < 0xE0 then 2 else if x < 0xF0 then 3
    else if x < 0xF8 then 4 else if x < 0xFC then 5 else if x < 0xFE then 6 else 7
  }

  lemma LoopCountsOnes(x: byte, k: nat)
    requires x != 0xFF && k <= LeadingOnes(x)
    ensures Goes(MaskAt(k), x) <==> k < LeadingOnes(x)
  {
    Masks();
  }

  lemma LoopNeverStops(k: nat)
    ensures Goes(MaskAt(k), 0xFF)
  {
  }

  /** The loop that counts the leading ones stops for every lead octet but 0xFF. */
  lemma LoopStopsIff(x: byte)
    ensures (exists k :: !Goes(MaskAt(k), x)) <==> x != 0xFF
  {
    if x == 0xFF {
      forall k ensures Goes(MaskAt(k), 0xFF) { LoopNeverStops(k); }
    } else {
      LoopCountsOnes(x, LeadingOnes(x));
    }
  }

  // ---------- Decoding ----------

  datatype WideResult = Weof | Werror(code: int) | Wide(wc: word)

  /** The continuation octets shifted in behind wc. */
  function Gather(wc: word, s: seq<byte>): word {
    if s == [] then wc else Shifted(Gather(wc, s[..|s| - 1]), s[|s| - 1])
  }

  predicate AreTails(s: seq<byte>) {
    forall i :: 0 <= i < |s| ==> s[i] & 0xC0 == 0x80
  }

  function Payload(x: byte, length: nat): word
    requires length <= 7
  {
    x & ((0xFF as word) >> length)
  }

  /** The result of one fgetwc_utf8 on the octets left in the file, and how many it takes. */
  function DecodeOne(s: seq<byte>): (r: (WideResult, nat))
    requires s == [] || s[0] != 0xFF
    ensures r.1 <= |s|
    ensures s != [] ==> r.1 > 0
  {
    if s == [] then (Weof, 0) else
    var length := LeadingOnes(s[0]);
    if length == 0 then (Wide(s[0]), 1)
    else if length == 1 || length == 7 then (Werror(-2), 1)
    else if |s| < length then (Werror(-4), |s|)
    else if !AreTails(s[1..length]) then (Werror(-5), length)
    else (Wide(Gather(Payload(s[0], length), s[1..length])), length)
  }

  /** How many octets a lead octet announces, by the table of section 3 of RFC 3629 and its extension. */
  predicate Announces(x: byte, length: nat) {
    || (length == 2 && 0xC0 <= x < 0xE0) || (length == 3 && 0xE0 <= x < 0xF0) || (length == 4 && 0xF0 <= x < 0xF8)
    || (length == 5 && 0xF8 <= x < 0xFC) || (length == 6 && 0xFC <= x < 0xFE)
  }

  predicate IsContinuation(x: byte) {
    0x80 <= x < 0xC0
  }

  lemma TailRange(x: byte)
    ensures x & 0xC0 == 0x80 <==> IsContinuation(x)
  {
  }

  /** What octets that are no encoding come to: the end, one that begins nothing, too few, or one that continues nothing. */
  lemma Malformed(s: seq<byte>, length: nat)
    ensures DecodeOne([]) == (Weof, 0)
    ensures s != [] && s[0] != 0xFF && (IsContinuation(s[0]) || s[0] == 0xFE) ==> DecodeOne(s) == (Werror(-2), 1)
    ensures s != [] && Announces(s[0], length) && |s| < length ==> DecodeOne(s) == (Werror(-4), |s|)
    ensures s != [] && Announces(s[0], length) && length <= |s| ==>
              && DecodeOne(s).1 == length
              && (DecodeOne(s).0 == Werror(-5) <==> exists i :: 1 <= i < length && !IsContinuation(s[i]))
              && (DecodeOne(s).0.Wide? <==> forall i :: 1 <= i < length ==> IsContinuation(s[i]))
  {
    hide Gather, Payload;
    if s != [] && Announces(s[0], length) && length <= |s| {
      var tail := s[1..length];
      assert forall i :: 1 <= i < length ==> s[i] == tail[i - 1];
      assert forall i :: 0 <= i < |tail| ==> tail[i] == s[i + 1];
      forall i | 0 <= i < |tail| ensures tail[i] & 0xC0 == 0x80 <==> IsContinuation(tail[i]) {
        TailRange(tail[i]);
      }
    }
  }

  // ---------- Decode after encode ----------

  /** One step of the decoder. */
  function Shifted(wc: word, x: byte): word {
    (wc << 6) | (x & 0x3F)
  }

  lemma ShiftedBack(wc: word)
    ensures Shifted(wc >> 6, Continuation(wc)) == wc
  {
  }

  lemma ContinuationIsTail(wc: word)
    ensures Continuation(wc) & 0xC0 == 0x80
  {
  }

  lemma GatherSnoc(wc: word, s: seq<byte>, x: byte)
    ensures Gather(wc, s + [x]) == Shifted(Gather(wc, s), x)
  {
    assert (s + [x])[..|s|] == s;
  }

  lemma {:induction false} TailsAreTails(wc: word, n: nat)
    ensures AreTails(Tail(wc, n))
    decreases n
  {
    if n > 0 {
      TailsAreTails(wc >> 6, n - 1);
      ContinuationIsTail(wc);
    }
  }

  lemma {:induction false} GatherTail(wc: word, n: nat)
    ensures Gather(Rest(wc, n), Tail(wc, n)) == wc
    decreases n
  {
    if n > 0 {
      GatherTail(wc >> 6, n - 1);
      GatherSnoc(Rest(wc, n), Tail(wc >> 6, n - 1), Continuation(wc));
      ShiftedBack(wc);
    }
  }

  /** What is left for the lead octet fits below its mark. */
  lemma RestFits(wc: word)
    requires 1 <= Tails(wc)
    ensures Rest(wc, Tails(wc)) <= (match Tails(wc) case 1 => 0x1F case 2 => 0xF case 3 => 7 case 4 => 3 case _ => 1)
  {
    var n := Tails(wc);
    RestIs(wc);
  }

  lemma RestIs(wc: word)
    ensures Rest(wc, 1) == wc >> 6 && Rest(wc, 2) == wc >> 12 && Rest(wc, 3) == wc >> 18
    ensures Rest(wc, 4) == wc >> 24 && Rest(wc, 5) == wc >> 30
  {
    assert Rest(wc >> 6, 1) == wc >> 12;
    assert Rest(wc >> 12, 1) == wc >> 18;
    assert Rest(wc >> 18, 1) == wc >> 24;
    assert Rest(wc >> 24, 1) == wc >> 30;
    assert Rest(wc >> 12, 2) == wc >> 24;
    assert Rest(wc >> 18, 2) == wc >> 30;
  }

  lemma LeadOctet(n: nat, rest: word)
    requires 1 <= n <= 5
    requires rest <= (match n case 1 => 0x1F case 2 => 0xF case 3 => 7 case 4 => 3 case _ => 1)
    ensures Lead(n, rest) != 0xFF && LeadingOnes(Lead(n, rest)) == n + 1
    ensures Payload(Lead(n, rest), n + 1) == rest
  {
    Masks();
  }

  lemma EncodeIs(wc: word)
    ensures var n := Tails(wc);
            Encode(wc) == if n == 0 then [wc & 0xFF] else [Lead(n, Rest(wc, n))] + Tail(wc, n)
  {
  }

  /** One octet is its own encoding. */
  lemma DecodeShort(wc: word, after: seq<byte>)
    requires wc <= MAX_WIDE && Tails(wc) == 0
    ensures Encode(wc) == [wc] && DecodeOne([wc] + after) == (Wide(wc), 1) && wc < 0xFF
  {
    NotNegative(wc);
    LowOctet(wc);
  }

  lemma NotNegative(wc: word)
    requires wc <= MAX_WIDE
    ensures !Negative(wc)
  {
  }

  lemma LowOctet(wc: word)
    requires wc <= 0x7F
    ensures wc & 0xFF == wc
  {
  }

  /** A lead octet takes as many continuation octets as it says. */
  lemma DecodeLong(lead: byte, tail: seq<byte>, after: seq<byte>)
    requires 1 <= |tail| <= 5 && lead != 0xFF && LeadingOnes(lead) == |tail| + 1 && AreTails(tail)
    ensures DecodeOne([lead] + tail + after) == (Wide(Gather(Payload(lead, |tail| + 1), tail)), |tail| + 1)
  {
    hide LeadingOnes, AreTails, Gather, Payload;
    assert ([lead] + tail + after)[1..|tail| + 1] == tail;
  }

  /** One decode gives back what one encode wrote, and takes just those octets. */
  lemma DecodeEncode(wc: word, after: seq<byte>)
    requires wc <= MAX_WIDE
    ensures var s := Encode(wc) + after;
            s[0] != 0xFF && DecodeOne(s) == (Wide(wc), |Encode(wc)|)
  {
    hide Lead, Rest, Tail, Payload, LeadingOnes, Gather, AreTails, Encode, DecodeOne, Tails;
    var n := Tails(wc);
    EncodeIs(wc);
    if n == 0 {
      DecodeShort(wc, after);
    } else {
      RestFits(wc);
      LeadOctet(n, Rest(wc, n));
      GatherTail(wc, n);
      TailsAreTails(wc, n);
      DecodeLong(Lead(n, Rest(wc, n)), Tail(wc, n), after);
    }
  }

  /** Repeated decoding until the end of the file. */
  function DecodeAll(s: seq<byte>): seq<WideResult>
    decreases |s|
  {
    if s == [] || s[0] == 0xFF then [] else
    var (r, n) := DecodeOne(s);
    [r] + DecodeAll(s[n..])
  }

  predicate AllWide(ws: seq<word>) {
    forall i :: 0 <= i < |ws| ==> 1 <= ws[i] <= MAX_WIDE
  }

  function Results(ws: seq<word>): seq<WideResult> {
    seq(|ws|, i requires 0 <= i < |ws| => Wide(ws[i]))
  }

  lemma DecodeAllStep(s: seq<byte>, r: WideResult, n: nat)
    requires s != [] && s[0] != 0xFF && DecodeOne(s) == (r, n)
    ensures DecodeAll(s) == [r] + DecodeAll(s[n..])
  {
  }

  lemma ResultsFront(ws: seq<word>)
    requires ws != []
    ensures Results(ws) == [Wide(ws[0])] + Results(ws[1..])
  {
  }

  lemma {:induction false} DecodeAllEncodeAll(ws: seq<word>)
    requires AllWide(ws)
    ensures DecodeAll(EncodeAll(ws)) == Results(ws)
  {
    NextWide(ws);
    if ws != [] {
      DecodeAllEncodeAll(ws[1..]);
      DecodeAllStep(EncodeAll(ws), Wide(ws[0]), |Encode(ws[0])|);
      ResultsFront(ws);
    }
  }

  /** So two different strings never have the same encoding. */
  lemma EncodeAllInjective(vs: seq<word>, ws: seq<word>)
    requires AllWide(vs) && AllWide(ws) && EncodeAll(vs) == EncodeAll(ws)
    ensures vs == ws
  {
    DecodeAllEncodeAll(vs);
    DecodeAllEncodeAll(ws);
    assert |vs| == |Results(vs)| == |Results(ws)| == |ws|;
    forall i | 0 <= i < |vs| ensures vs[i] == ws[i] {
      assert Results(vs)[i] == Results(ws)[i];
    }
  }

  /** The table of section 3 of RFC 3629, and the rows for five and six octets. */
  lemma RfcTable(wc: word)
    requires wc <= MAX_WIDE
    ensures wc <= 0x7F ==> Encode(wc) == [wc]
    ensures 0x80 <= wc <= 0x7FF ==> Encode(wc) == [0xC0 | (wc >> 6), 0x80 | (wc & 0x3F)]
    ensures 0x800 <= wc <= 0xFFFF ==>
      Encode(wc) == [0xE0 | (wc >> 12), 0x80 | ((wc >> 6) & 0x3F), 0x80 | (wc & 0x3F)]
    ensures 0x1_0000 <= wc <= 0x1F_FFFF ==>
      Encode(wc) == [0xF0 | (wc >> 18), 0x80 | ((wc >> 12) & 0x3F), 0x80 | ((wc >> 6) & 0x3F), 0x80 | (wc & 0x3F)]
    ensures 0x20_0000 <= wc <= 0x3FF_FFFF ==>
      Encode(wc) == [0xF8 | (wc >> 24), 0x80 | ((wc >> 18) & 0x3F), 0x80 | ((wc >> 12) & 0x3F),
                     0x80 | ((wc >> 6) & 0x3F), 0x80 | (wc & 0x3F)]
    ensures 0x400_0000 <= wc ==>
      Encode(wc) == [0xFC | (wc >> 30), 0x80 | ((wc >> 24) & 0x3F), 0x80 | ((wc >> 18) & 0x3F),
                     0x80 | ((wc >> 12) & 0x3F), 0x80 | ((wc >> 6) & 0x3F), 0x80 | (wc & 0x3F)]
  {
    hide Encode, Rest, Tail, Lead, Tails;
    TailsAre(wc);
    EncodeIs(wc);
    if wc <= 0x7F {
      LowOctet(wc);
    } else if wc <= 0xFFFF {
      ShortRows(wc);
    } else {
      LongRows(wc);
    }
  }

  lemma TailsAre(wc: word)
    requires wc <= MAX_WIDE
    ensures Tails(wc) == if wc <= 0x7F then 0 else if wc <= 0x7FF then 1 else if wc <= 0xFFFF then 2
                         else if wc <= 0x1F_FFFF then 3 else if wc <= 0x3FF_FFFF then 4 else 5
  {
    NotNegative(wc);
  }

  lemma ShortRows(wc: word)
    ensures 0x80 <= wc <= 0x7FF ==>
              [Lead(1, Rest(wc, 1))] + Tail(wc, 1) == [0xC0 | (wc >> 6), 0x80 | (wc & 0x3F)]
    ensures 0x800 <= wc <= 0xFFFF ==>
              [Lead(2, Rest(wc, 2))] + Tail(wc, 2)
              == [0xE0 | (wc >> 12), 0x80 | ((wc >> 6) & 0x3F), 0x80 | (wc & 0x3F)]
  {
    hide Rest, Tail, Lead;
    RestIs(wc);
    TailIs(wc);
    LeadIs(wc >> 6);
    LeadIs(wc >> 12);
  }

  lemma LongRows(wc: word)
    requires wc <= MAX_WIDE
    ensures 0x1_0000 <= wc <= 0x1F_FFFF ==>
              [Lead(3, Rest(wc, 3))] + Tail(wc, 3)
              == [0xF0 | (wc >> 18), 0x80 | ((wc >> 12) & 0x3F), 0x80 | ((wc >> 6) & 0x3F), 0x80 | (wc & 0x3F)]
    ensures 0x20_0000 <= wc <= 0x3FF_FFFF ==>
              [Lead(4, Rest(wc, 4))] + Tail(wc, 4)
              == [0xF8 | (wc >> 24), 0x80 | ((wc >> 18) & 0x3F), 0x80 | ((wc >> 12) & 0x3F),
                  0x80 | ((wc >> 6) & 0x3F), 0x80 | (wc & 0x3F)]
    ensures 0x400_0000 <= wc ==>
              [Lead(5, Rest(wc, 5))] + Tail(wc, 5)
              == [0xFC | (wc >> 30), 0x80 | ((wc >> 24) & 0x3F), 0x80 | ((wc >> 18) & 0x3F),
                  0x80 | ((wc >> 12) & 0x3F), 0x80 | ((wc >> 6) & 0x3F), 0x80 | (wc & 0x3F)]
  {
    hide Rest, Tail, Lead;
    RestIs(wc);
    TailIs(wc);
    LongTailIs(wc);
    LeadIs(wc >> 18);
    LeadIs(wc >> 24);
    LeadIs(wc >> 30);
  }

  lemma LeadIs(rest: word)
    ensures rest <= 0x1F ==> Lead(1, rest) == 0xC0 | rest
    ensures rest <= 0xF ==> Lead(2, rest) == 0xE0 | rest
    ensures rest <= 7 ==> Lead(3, rest) == 0xF0 | rest
    ensures rest <= 3 ==> Lead(4, rest) == 0xF8 | rest
    ensures rest <= 1 ==> Lead(5, rest) == 0xFC | rest
  {
    Masks();
  }

  lemma TailIs(wc: word)
    ensures Tail(wc, 1) == [Continuation(wc)]
    ensures Tail(wc, 2) == [Continuation(wc >> 6), Continuation(wc)]
    ensures Tail(wc, 3) == [Continuation(wc >> 12), Continuation(wc >> 6), Continuation(wc)]
  {
    assert Tail(wc >> 6, 1) == [Continuation(wc >> 6)];
    assert Tail(wc >> 6, 2) == [Continuation(wc >> 12), Continuation(wc >> 6)] by {
      assert (wc >> 6) >> 6 == wc >> 12;
      assert Tail(wc >> 12, 1) == [Continuation(wc >> 12)];
    }
  }

  /** The last n values of a step repeated, last first. */
  function Chain<T, V>(step: T -> T, value: T -> V, t: T, n: nat): seq<V> {
    if n == 0 then [] else Chain(step, value, step(t), n - 1) + [value(t)]
  }

  lemma ChainOfFive<T, V>(step: T -> T, value: T -> V, t0: T, t1: T, t2: T, t3: T, t4: T)
    requires t1 == step(t0) && t2 == step(t1) && t3 == step(t2) && t4 == step(t3)
    ensures Chain(step, value, t0, 4) == [value(t3), value(t2), value(t1), value(t0)]
    ensures Chain(step, value, t0, 5) == [value(t4), value(t3), value(t2), value(t1), value(t0)]
  {
    assert Chain(step, value, t4, 1) == [value(t4)];
    assert Chain(step, value, t3, 1) == [value(t3)];
    assert Chain(step, value, t3, 2) == [value(t4), value(t3)];
    assert Chain(step, value, t2, 2) == [value(t3), value(t2)];
    assert Chain(step, value, t2, 3) == [value(t4), value(t3), value(t2)];
    assert Chain(step, value, t1, 3) == [value(t3), value(t2), value(t1)];
    assert Chain(step, value, t1, 4) == [value(t4), value(t3), value(t2), value(t1)];
  }

  function Six(wc: word): word {
    wc >> 6
  }

  lemma {:induction false} TailIsChain(wc: word, n: nat)
    ensures Tail(wc, n) == Chain(Six, Continuation, wc, n)
    decreases n
  {
    hide Continuation;
    if n > 0 {
      TailIsChain(wc >> 6, n - 1);
    }
  }

  lemma SixMore(wc: word)
    ensures Six(wc) == wc >> 6 && Six(wc >> 6) == wc >> 12 && Six(wc >> 12) == wc >> 18 && Six(wc >> 18) == wc >> 24
  {
  }

  lemma LongTailIs(wc: word)
    ensures Tail(wc, 4)
            == [Continuation(wc >> 18), Continuation(wc >> 12), Continuation(wc >> 6), Continuation(wc)]
    ensures Tail(wc, 5)
            == [Continuation(wc >> 24), Continuation(wc >> 18), Continuation(wc >> 12), Continuation(wc >> 6),
                Continuation(wc)]
  {
    hide Continuation, Tail, Six, Chain;
    SixMore(wc);
    TailIsChain(wc, 4);
    TailIsChain(wc, 5);
    ChainOfFive(Six, Continuation, wc, wc >> 6, wc >> 12, wc >> 18, wc >> 24);
  }

  // ---------- The file ----------

  method CountLeadingOnes(x: byte) returns (length: nat)
    requires x != 0xFF
    ensures length == LeadingOnes(x)
  {
    length := 0;
    var mask: word := 0xFFFF_FF80;
    LoopCountsOnes(x, 0);
    while Goes(mask, x)
      invariant length <= LeadingOnes(x) && mask == MaskAt(length)
      invariant Goes(mask, x) <==> length < LeadingOnes(x)
      decreases 7 - length
    {
      mask := ShiftRight(mask);
      length := length + 1;
      LoopCountsOnes(x, length);
    }
  }

  /** The continuation octets of mb behind the payload of its lead octet. */
  method ConvertTails(payload: word, mb: seq<byte>) returns (r: WideResult)
    requires mb != []
    ensures r == if AreTails(mb[1..]) then Wide(Gather(payload, mb[1..])) else Werror(-5)
  {
    var wc := payload;
    var i := 1;
    while i < |mb|
      invariant 1 <= i <= |mb|
      invariant AreTails(mb[1..i]) && wc == Gather(payload, mb[1..i])
    {
      if mb[i] & 0xC0 != 0x80 {
        assert mb[1..][i - 1] == mb[i];
        return Werror(-5);
      }
      GatherSnoc(payload, mb[1..i], mb[i]);
      assert mb[1..i] + [mb[i]] == mb[1..i + 1];
      wc := (wc << 6) | (mb[i] & 0x3F);
      i := i + 1;
    }
    assert mb[1..i] == mb[1..];
    return Wide(wc);
  }

  lemma NothingLeft(wc: word)
    ensures Tail(wc, 0) == [] && Rest(wc, 0) == wc
  {
  }

  lemma TailStep(wc: word, n: nat, s: seq<byte>)
    requires 0 < n
    ensures Tail(wc, n) + s == Tail(wc >> 6, n - 1) + ([Continuation(wc)] + s)
    ensures Rest(wc, n) == Rest(wc >> 6, n - 1)
  {
  }

  lemma MultiByte(data: seq<byte>, at: nat, length: nat, mb: seq<byte>)
    requires 0 < length && at + length <= |data| && mb == [data[at]] + data[at + 1..at + length]
    ensures mb[1..] == data[at..][1..length]
  {
  }

  class File {
    var data: seq<byte>
    var pos: nat

    ghost predicate Valid()
      reads this
    {
      pos <= |data|
    }

    method FgetwcUtf8() returns (r: WideResult)
      requires Valid()
      requires pos < |data| ==> data[pos] != 0xFF
      modifies `pos
      ensures Valid() && old(pos) <= pos
      ensures (r, pos - old(pos)) == DecodeOne(data[old(pos)..])
    {
      ghost var s := data[pos..];
      if pos == |data| {
        return Weof;
      }
      var x := data[pos];
      pos := pos + 1;
      var length := CountLeadingOnes(x);
      match length {
        case 0 => return Wide(x);
        case 1 | 7 => return Werror(-2);
        case _ =>
      }
      if |data| - pos < length - 1 {
        pos := |data|;
        return Werror(-4);
      }
      var mb := [x] + data[pos..pos + length - 1];
      MultiByte(data, pos - 1, length, mb);
      pos := pos + length - 1;
      r := ConvertTails(Payload(x, length), mb);
    }

    method FputwcUtf8(wide: word)
      modifies `data
      ensures data == old(data) + Encode(wide)
    {
      hide Tail, Rest, Continuation, Lead, Encode, Tails;
      EncodeIs(wide);
      var n := Tails(wide);
      if n == 0 {
        data := data + [wide & 0xFF];
        return;
      }
      NothingLeft(wide);
      var mb: seq<byte> := [];
      var wc := wide;
      var i := n;
      while 0 < i
        invariant 0 <= i <= n && data == old(data)
        invariant Tail(wide, n) == Tail(wc, i) + mb && Rest(wide, n) == Rest(wc, i)
      {
        TailStep(wc, i, mb);
        mb := [Continuation(wc)] + mb;
        wc := wc >> 6;
        i := i - 1;
      }
      NothingLeft(wc);
      assert [] + mb == mb;
      data := data + ([Lead(n, wc)] + mb);
    }

    method FputwsUtf8(ws: seq<word>)
      modifies `data
      ensures data == old(data) + EncodeAll(ws)
    {
      hide Encode, EncodeAll;
      var i := 0;
      NothingEncoded();
      assert ws[0..] == ws;
      while i < |ws|
        invariant 0 <= i <= |ws|
        invariant data + EncodeAll(ws[i..]) == old(data) + EncodeAll(ws)
      {
        EncodeAllFrom(data, ws, i);
        FputwcUtf8(ws[i]);
        i := i + 1;
      }
      assert ws[i..] == [];
    }

    /**
     Reads at most size - 1 characters, and none after a newline. left is what
     was written to the file from here on.
     */
    method FgetwsUtf8(size: nat, ghost left: seq<word>) returns (ws: seq<word>)
      requires Valid() && 0 < size
      requires AllWide(left) && data[pos..] == EncodeAll(left)
      modifies `pos
      ensures Valid() && ws == left[..LineLength(left, size - 1)]
      ensures data[pos..] == EncodeAll(left[|ws|..])
    {
      hide EncodeAll, LineLength;
      ws := [];
      NothingRead(left, size - 1);
      while |ws| < size - 1
        invariant Valid() && ReadSoFar(left, size - 1, ws)
        invariant data[pos..] == EncodeAll(left[|ws|..])
      {
        var wc := FgetwcWritten(left[|ws|..]);
        ReadOneMore(left, size - 1, ws);
        if wc == Weof {
          return;
        }
        ws := ws + [wc.wc];
        if wc.wc == 0x0A {
          return;
        }
      }
      ReadFull(left, size - 1, ws);
    }

    method FgetwcWritten(ghost left: seq<word>) returns (r: WideResult)
      requires Valid() && AllWide(left) && data[pos..] == EncodeAll(left)
      modifies `pos
      ensures Valid()
      ensures left == [] ==> r == Weof && data[pos..] == EncodeAll(left)
      ensures left != [] ==> r == Wide(left[0]) && data[pos..] == EncodeAll(left[1..])
    {
      NextWide(left);
      r := FgetwcUtf8();
    }
  }

  ghost predicate ReadSoFar(left: seq<word>, limit: nat, ws: seq<word>) {
    |ws| <= |left| && |ws| <= limit && ws == left[..|ws|]
    && LineLength(left, limit) == |ws| + LineLength(left[|ws|..], limit - |ws|)
  }

  lemma NothingRead(left: seq<word>, limit: nat)
    ensures ReadSoFar(left, limit, []) && left[0..] == left
  {
  }

  lemma ReadFull(left: seq<word>, limit: nat, ws: seq<word>)
    requires ReadSoFar(left, limit, ws) && |ws| == limit
    ensures ws == left[..LineLength(left, limit)]
  {
  }

  lemma ReadOneMore(left: seq<word>, limit: nat, ws: seq<word>)
    requires ReadSoFar(left, limit, ws) && |ws| < limit
    ensures var k := |ws|;
            if k == |left| then LineLength(left, limit) == k
            else
              && left[k..][0] == left[k] && left[k..][1..] == left[k + 1..]
              && ws + [left[k]] == left[..k + 1]
              && if left[k] == 0x0A then LineLength(left, limit) == k + 1
                 else ReadSoFar(left, limit, ws + [left[k]])
  {
    var k := |ws|;
    if k < |left| {
      LineOneMore(left[k..], limit - k);
      TailOfTail(left, k);
    }
  }

  lemma LineOneMore(rest: seq<word>, limit: nat)
    requires rest != [] && limit > 0
    ensures LineLength(rest, limit) == 1 + if rest[0] == 0x0A then 0 else LineLength(rest[1..], limit - 1)
  {
  }

  lemma TailOfTail(s: seq<word>, k: nat)
    requires k < |s|
    ensures s[k..][1..] == s[k + 1..] && s[..k] + [s[k]] == s[..k + 1]
  {
  }

  lemma NextWide(ws: seq<word>)
    requires AllWide(ws)
    ensures var s := EncodeAll(ws);
            if ws == [] then s == [] else
              var n := |Encode(ws[0])|;
              s != [] && s[0] != 0xFF && DecodeOne(s) == (Wide(ws[0]), n) && s[n..] == EncodeAll(ws[1..])
  {
    if ws != [] {
      DecodeEncode(ws[0], EncodeAll(ws[1..]));
    }
  }

  /** The characters of the first line, its newline included, but at most limit. */
  function LineLength(ws: seq<word>, limit: nat): (n: nat)
    ensures n <= |ws| && n <= limit
    decreases limit
  {
    if ws == [] || limit == 0 then 0
    else if ws[0] == 0x0A then 1
    else 1 + LineLength(ws[1..], limit - 1)
  }

  /** There is no newline before its end, and it ends at one, at the limit, or with the characters. */
  lemma {:induction false} LineLengthIs(ws: seq<word>, limit: nat)
    ensures var n := LineLength(ws, limit);
            && (forall i :: 0 <= i < n - 1 ==> ws[i] != 0x0A)
            && (n == |ws| || n == limit || (0 < n && ws[n - 1] == 0x0A))
    decreases limit
  {
    if ws != [] && limit > 0 && ws[0] != 0x0A {
      LineLengthIs(ws[1..], limit - 1);
    }
  }
}
