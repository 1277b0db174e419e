/**
 The "simple" body form of mail/dkim-hash.c, stated without the automaton that
 computes it, and its relation to section 3.4.3 of RFC 6376.
 */
module DkimSimple {
  import opened Octets

  /** s without the run of CR it ends with. */
  function DropCrs(s: seq<octet>): (r: seq<octet>)
    ensures |r| <= |s| && r == s[..|r|] && !EndsWith(r, CR)
    ensures |r| == |s| <==> !EndsWith(s, CR)
    ensures forall i :: |r| <= i < |s| ==> s[i] == CR
  {
    if EndsWith(s, CR) then DropCrs(s[..|s| - 1]) else s
  }

  predicate EndsBlank(s: seq<octet>) {
    EndsWith(s, LF) && EndsWith(s[..|s| - 1], CR)
  }

  /** s without its trailing blank lines, where a line ends in one or more CR and an LF. */
  function DropBlanks(s: seq<octet>): (r: seq<octet>)
    ensures |r| <= |s| && r == s[..|r|] && !EndsBlank(r)
  {
    if EndsBlank(s) then DropBlanks(DropCrs(s[..|s| - 1])) else s
  }

  function SimpleForm(body: seq<octet>): seq<octet> {
    DropBlanks(body) + CRLF
  }

  // ---------- DropBlanks removes the longest suffix (CR+ LF)* ----------

  /** The language (CR+ LF)*, read from the front. */
  predicate BlankRun(s: seq<octet>) {
    s == [] ||
    (|s| >= 2 && s[0] == CR && if s[1] == LF then BlankRun(s[2..]) else s[1] == CR && BlankRun(s[1..]))
  }

  /** One more CR in front of a non-empty run, or a CR LF in front of any run. */
  lemma BlankRunOneLine(n: nat, t: seq<octet>)
    requires n >= 1 && BlankRun(t)
    ensures BlankRun(seq(n, i => CR) + [LF] + t)
    decreases n
  {
    var s := seq(n, i => CR) + [LF] + t;
    if n == 1 {
      assert s[2..] == t;
    } else {
      assert s[1..] == seq(n - 1, i => CR) + [LF] + t;
      BlankRunOneLine(n - 1, t);
    }
  }

  lemma BlankRunAppend(s: seq<octet>, t: seq<octet>)
    requires BlankRun(s) && BlankRun(t)
    ensures BlankRun(s + t)
  {
    if s == [] {
      assert s + t == t;
    } else if s[1] == LF {
      assert (s + t)[2..] == s[2..] + t;
    } else {
      assert (s + t)[1..] == s[1..] + t;
    }
  }

  lemma BlankRunEndsBlank(s: seq<octet>)
    requires BlankRun(s) && s != []
    ensures EndsBlank(s)
  {
    if s[1] == LF {
      if s[2..] != [] { BlankRunEndsBlank(s[2..]); }
    } else {
      BlankRunEndsBlank(s[1..]);
    }
  }

  lemma DropOneCr()
    ensures DropCrs([CR]) == []
  {
  }

  /** Cutting the last line off a run leaves a run. */
  lemma {:induction false} BlankRunButLast(s: seq<octet>, k: nat)
    requires BlankRun(s) && s != [] && k == |DropCrs(s[..|s| - 1])|
    ensures BlankRun(s[..k])
  {
    hide DropCrs, EndsBlank;
    var f := if s[1] == LF then 2 else 1;
    if s[f..] == [] {
      assert s[..1] == [CR];
      DropOneCr();
    } else {
      DropCrsOfSuffix(s[..|s| - 1], f);
      assert s[..|s| - 1][f..] == s[f..][..|s[f..]| - 1];
      BlankRunButLast(s[f..], |DropCrs(s[f..][..|s[f..]| - 1])|);
      if f == 2 {
        assert s[..k][2..] == s[f..][..k - 2];
      } else if k > 0 {
        assert s[..k][1..] == s[f..][..k - 1];
      }
    }
  }

  lemma DropCrsOfSuffix(s: seq<octet>, f: nat)
    requires f <= |s|
    ensures |DropCrs(s[f..])| == if |DropCrs(s)| >= f then |DropCrs(s)| - f else 0
  {
    if f < |s| && EndsWith(s, CR) {
      assert s[f..][..|s[f..]| - 1] == s[..|s| - 1][f..];
      DropCrsOfSuffix(s[..|s| - 1], f);
    }
  }

  /** The last blank line of s, as a run. */
  lemma LastLineIsRun(s: seq<octet>, u: seq<octet>)
    requires EndsBlank(s) && u == DropCrs(s[..|s| - 1])
    ensures |u| < |s| && BlankRun(s[|u|..])
  {
    var n := |s| - 1 - |u|;
    BlankRunOneLine(n, []);
    assert s[|u|..] == seq(n, i => CR) + [LF] + [];
  }

  /** A run that starts before the last blank line of s starts as a run in what is left. */
  lemma EarlierRun(s: seq<octet>, u: seq<octet>, j: nat)
    requires EndsBlank(s) && u == DropCrs(s[..|s| - 1]) && j < |u|
    requires BlankRun(s[j..])
    ensures BlankRun(u[j..])
  {
    var t := s[..|s| - 1];
    DropCrsOfSuffix(t, j);
    assert t[j..] == s[j..][..|s[j..]| - 1];
    BlankRunButLast(s[j..], |u| - j);
    assert s[j..][..|u| - j] == u[j..];
  }

  /** What DropBlanks cuts is a run of blank lines ... */
  lemma {:induction false} DropBlanksCutsRun(s: seq<octet>)
    ensures BlankRun(s[|DropBlanks(s)|..])
    decreases |s|
  {
    hide DropCrs;
    if EndsBlank(s) {
      var u := DropCrs(s[..|s| - 1]);
      DropBlanksCutsRun(u);
      LastLineIsRun(s, u);
      var k := |DropBlanks(u)|;
      BlankRunAppend(u[k..], s[|u|..]);
      assert s[k..] == u[k..] + s[|u|..];
    }
  }

  /** ... and no longer suffix is one. */
  lemma {:induction false} DropBlanksIsLongest(s: seq<octet>, j: nat)
    requires j <= |s| && BlankRun(s[j..])
    ensures |DropBlanks(s)| <= j
    decreases |s|
  {
    if EndsBlank(s) {
      var u := DropCrs(s[..|s| - 1]);
      if j < |u| {
        EarlierRun(s, u, j);
        DropBlanksIsLongest(u, j);
      }
    } else if j < |s| {
      BlankRunEndsBlank(s[j..]);
    }
  }

  // ---------- Section 3.4.3 of RFC 6376 ----------

  predicate EndsCrlf(s: seq<octet>) {
    |s| >= 2 && s[|s| - 2..] == CRLF
  }

  /** The body without the empty lines (CRLF after CRLF) at its end, and without its last CRLF. */
  function RfcDropLines(s: seq<octet>): (r: seq<octet>)
    ensures |r| <= |s| && r == s[..|r|] && !EndsCrlf(r)
  {
    if EndsCrlf(s) then RfcDropLines(s[..|s| - 2]) else s
  }

  /** "*CRLF" at the end of the body becomes a single CRLF. */
  function RfcSimple(body: seq<octet>): seq<octet> {
    RfcDropLines(body) + CRLF
  }

  /**
   The code's simple form is the RFC's exactly when the run of CRLF at the end
   of the body is not preceded by another CR.
   */
  lemma {:induction false} SimpleMeetsRfcIff(body: seq<octet>)
    ensures SimpleForm(body) == RfcSimple(body)
       <==> !(EndsCrlf(body) && EndsWith(RfcDropLines(body), CR))
    decreases |body|
  {
    if EndsCrlf(body) {
      var t := body[..|body| - 2];
      assert body[..|body| - 1][..|body| - 2] == t;
      assert DropCrs(body[..|body| - 1]) == DropCrs(t);
      assert SimpleForm(body) == RfcSimple(body) <==> |DropBlanks(body)| == |RfcDropLines(body)| by {
        SameLengthPrefix(body, DropBlanks(body), RfcDropLines(body));
      }
      if EndsWith(t, CR) {
        assert RfcDropLines(body) == t;
        assert |DropBlanks(body)| <= |DropCrs(t)| < |t|;
      } else {
        SimpleMeetsRfcIff(t);
        SameLengthPrefix(t, DropBlanks(t), RfcDropLines(t));
        assert DropBlanks(body) == DropBlanks(t);
      }
    }
  }

  lemma SameLengthPrefix(s: seq<octet>, a: seq<octet>, b: seq<octet>)
    requires |a| <= |s| && a == s[..|a|] && |b| <= |s| && b == s[..|b|]
    ensures a + CRLF == b + CRLF <==> |a| == |b|
  {
    if a + CRLF == b + CRLF {
      assert |a + CRLF| == |b + CRLF|;
    }
  }

  /** Bodies with no CR directly after a CR always meet the RFC. */
  lemma NoDoubleCrMeetsRfc(body: seq<octet>)
    requires forall i :: 0 < i < |body| ==> !(body[i - 1] == CR && body[i] == CR)
    ensures SimpleForm(body) == RfcSimple(body)
  {
    SimpleMeetsRfcIff(body);
    if EndsCrlf(body) {
      RfcStopsAtCrlf(body);
    }
  }

  lemma RfcStopsAtCrlf(s: seq<octet>)
    requires EndsCrlf(s)
    ensures |RfcDropLines(s)| < |s| && s[|RfcDropLines(s)|] == CR
    decreases |s|
  {
    var t := s[..|s| - 2];
    if EndsCrlf(t) {
      RfcStopsAtCrlf(t);
    } else {
      assert s[|s| - 2] == s[|s| - 2..][0];
    }
  }

  /** The smallest body on which the two differ: CR CR LF. */
  lemma DoubleCrDiffers()
    ensures SimpleForm([CR, CR, LF]) == CRLF
    ensures RfcSimple([CR, CR, LF]) == [CR, CR, LF]
  {
    var b := [CR, CR, LF];
    assert b[..2] == [CR, CR];
    assert b[1..] == CRLF;
    assert b[..1] == [CR];
    assert DropCrs([CR]) == [] by { assert [CR][..0] == []; }
    assert DropCrs([CR, CR]) == DropCrs([CR]) by { assert [CR, CR][..1] == [CR]; }
    assert RfcDropLines(b) == RfcDropLines([CR]);
  }

  /** Canonicalising twice changes nothing exactly when what is kept does not end in CR. */
  lemma SimpleIdempotentIff(body: seq<octet>)
    ensures SimpleForm(SimpleForm(body)) == SimpleForm(body) <==> !EndsWith(DropBlanks(body), CR)
  {
    var r := DropBlanks(body);
    var s := r + CRLF;
    assert s[..|s| - 1] == r + [CR];
    assert (r + [CR])[..|r|] == r;
    assert EndsBlank(s) && DropCrs(s[..|s| - 1]) == DropCrs(r);
    SameLengthPrefix(s, DropBlanks(s), r);
  }
}
