/**
 parsePath, formatPath and allocatePath of mail/parsePath.c: an address is split in
 place by NULs, and formatted from the strings that leaves.
 */
module ParsePath {
  import opened CString
  import Octets
  import opened PathFormat
  import opened Wrappers

  /** A string of the path: where it starts and how long it is. */
  datatype Str = Str(at: nat, length: nat)

  class ParsePath {
    const mem: array<char>
    var address: Str
    var sourceRoute: Str
    var localLeft: Str
    var localRight: Str
    var domain: Str

    /** calloc. */
    constructor (size: nat)
      ensures fresh(mem) && mem.Length == size && forall i :: 0 <= i < size ==> mem[i] == NUL
      ensures address == sourceRoute == localLeft == localRight == domain == Str(0, 0)
    {
      mem := new char[size](_ => NUL);
      address, sourceRoute, localLeft, localRight, domain := Str(0, 0), Str(0, 0), Str(0, 0), Str(0, 0), Str(0, 0);
    }

    ghost predicate Spells(s: Str, text: string)
      reads mem
    {
      StringAt(mem[..], s.at, text) && s.length == |text|
    }

    /** The five strings are the parts. */
    ghost predicate Holds(p: Parts)
      reads this, mem
    {
      && Spells(address, p.address) && Spells(sourceRoute, p.sourceRoute)
      && Spells(localLeft, p.localLeft) && Spells(localRight, p.localRight) && Spells(domain, p.domain)
    }

    // ---------- Splitting ----------

    /** The address and a second copy of it, each with its NUL. */
    method CopyTwice(text: string)
      requires NoNul(text) && mem.Length == 2 * (|text| + 1)
      requires forall i :: 0 <= i < mem.Length ==> mem[i] == NUL
      modifies mem
      ensures StringAt(mem[..], 0, text) && StringAt(mem[..], |text| + 1, text)
    {
      var n := |text|;
      Memcpy(mem, 0, text);
      ghost var b := mem[..];
      assert forall i :: n <= i < |b| ==> b[i] == b[n..][i - n] == NUL;
      Memcpy(mem, n + 1, text);
      assert mem[..][..n + 1] == b[..n + 1];
      FrameHead(b, mem[..], n + 1, 0, text);
      assert mem[..][..n + 1][n] == b[..n + 1][n];
      assert mem[..][n + 1 + n..] == b[n + 1 + n..];
      assert mem[..][n + 1 + n..][0] == b[n + 1 + n..][0];
    }

    /** A piece is turned to lower case, which leaves the strings beside it alone. */
    method LowerString(s: Str, ghost text: string)
      requires StringAt(mem[..], s.at, text)
      modifies mem
      ensures StringAt(mem[..], s.at, Lower(text)) && |mem[..]| == |old(mem[..])|
      ensures mem[..][..s.at] == old(mem[..])[..s.at] && mem[..][s.at + |text|..] == old(mem[..])[s.at + |text|..]
    {
      ghost var b := mem[..];
      TextLower(mem, s.at, -1, text);
      assert mem[..][..s.at] == b[..s.at] && mem[..][s.at + |text|..] == b[s.at + |text|..];
      assert b[s.at + |text|..][0] == NUL && mem[..][s.at + |text|..][0] == NUL;
    }

    /** Cuts the source route off the second copy, if there is one. left is where the rest starts. */
    method SplitRoute(spans: Spans, ghost text: string) returns (ok: bool, left: nat)
      requires WithinStrings(spans) && text != "" && address == Str(0, |text|) && mem.Length == 2 * (|text| + 1)
      requires StringAt(mem[..], 0, text) && StringAt(mem[..], |text| + 1, text)
      modifies this`sourceRoute, mem
      ensures var n := spans.sourceRoute(text);
              && n <= |text|
              && (ok <==> n == 0 || (n < |text| && text[n] == ':'))
              && (ok ==>
                    && Spells(address, text)
                    && Spells(sourceRoute, text[..n])
                    && StringAt(mem[..], left, if n == 0 then text else text[n + 1..])
                    && (sourceRoute.at + sourceRoute.length < left) && |text| < left
                    && (n == 0 || |text| < sourceRoute.at))
    {
      hide StringAt;
      var second := address.length + 1;
      StringAtBounds(mem[..], second, text);
      var s := ReadString(mem, second, text);
      var n := spans.sourceRoute(s);
      assert Scans(spans, text, 0);
      sourceRoute := Str(second, n);
      left := second + n;
      StringAtIndex(mem[..], second, text, n);
      StringAtBounds(mem[..], 0, text);
      if 0 < n {
        if mem[second + n] != ':' {
          return false, left;
        }
        CutString(mem[..], second, text, n);
        FramePutString(mem[..], second + n, NUL, 0, text);
        Put(mem, second + n, NUL);
        left := left + 1;
      } else {
        sourceRoute := sourceRoute.(at := second - 1);
        assert text[..0] == "";
      }
      ok := true;
    }

    /** Puts a NUL n characters into a string: it ends there, and another starts behind it. */
    method CutAt(at: nat, n: nat, ghost text: string)
      requires StringAt(mem[..], at, text) && n <= |text|
      modifies mem
      ensures StringAt(mem[..], at, text[..n])
      ensures n < |text| ==> StringAt(mem[..], at + n + 1, text[n + 1..])
      ensures mem[..] == old(mem[..])[at + n := NUL] && (n == |text| ==> mem[..] == old(mem[..]))
    {
      ghost var b := mem[..];
      if n < |text| {
        CutString(b, at, text, n);
      } else {
        assert text[..n] == text;
        StringAtIndex(b, at, text, n);
      }
      Put(mem, at + n, NUL);
      assert n == |text| ==> mem[..] == b;
    }

    /** Where the pieces of the local part and the domain are, and that lower case fits in place. */
    ghost predicate Apart(left: nat, q: Pieces)
      reads this, mem
    {
      && localLeft.at == left
      && Spells(localLeft, q.left) && Spells(localRight, q.right) && Spells(domain, q.domain)
      && left + |q.left| <= localRight.at
      && localRight.at + |q.right| <= domain.at
      && (q.domain == "" || localRight.at + |q.right| < domain.at)
    }

    /** The length of the left part of a local part. */
    method LeftSpan(flags: Flags, left: nat, n: nat, ghost local: string) returns (k: nat)
      requires StringAt(mem[..], left, local) && n == |local|
      ensures k == LeftLength(flags, local)
    {
      if flags.literalPlus {
        k := n;
      } else {
        k := StrCspn(mem, left, '+', local);
      }
    }

    /** Splits the rest of the address at its at-sign and its plus. */
    method SplitRest(spans: Spans, flags: Flags, dots: int, left: nat, ghost route: string, ghost rest: string)
      returns (error: Option<Failure>)
      requires WithinStrings(spans) && StringAt(mem[..], left, rest)
      modifies this`localLeft, this`localRight, this`domain, mem
      ensures var r := SplitLocal(spans, flags, dots, route, rest);
              if r.Ok? then error == None && Apart(left, r.value) else error == Some(r.failure)
      ensures mem[..][..left] == old(mem[..])[..left]
    {
      hide StringAt, LeftLength, Apart, SplitDomain;
      var s := ReadString(mem, left, rest);
      assert Scans(spans, rest, dots);
      StringAtBounds(mem[..], left, rest);
      var n := spans.localPart(s);
      StringAtIndex(mem[..], left, rest, n);
      var hasAtSign, isUnqualified := mem[left + n] == '@', mem[left + n] == NUL;
      CutAt(left, n, rest);
      var k := LeftSpan(flags, left, n, rest[..n]);
      localLeft := Str(left, k);
      if flags.localLength && SMTP_LOCAL_PART_LENGTH < n {
        return Some(LocalPartTooLong);
      }
      if !hasAtSign && !isUnqualified {
        return Some(InvalidLocalPart);
      }
      StringAtBounds(mem[..], left, rest[..n]);
      domain := Str(left + n + if hasAtSign then 1 else 0, 0);
      localRight := Str(left + k + if k < n then 1 else 0, n);
      ghost var local := rest[..n];
      ghost var q := Pieces(route, local[..k], k < n, if k < n then local[k + 1..] else "", hasAtSign, "");
      error := SplitAtPlus(spans, flags, dots, k, local, q, if hasAtSign then rest[n + 1..] else "");
    }

    /** Scans the domain, and splits the local part at its plus. */
    method SplitAtPlus(spans: Spans, flags: Flags, dots: int, k: nat, ghost local: string, ghost q: Pieces,
                       ghost text: string)
      returns (error: Option<Failure>)
      requires WithinStrings(spans) && k <= |local| == localRight.length && localLeft == Str(localLeft.at, k)
      requires q.left == local[..k] && q.right == if k < |local| then local[k + 1..] else ""
      requires localRight.at == localLeft.at + k + if k < |local| then 1 else 0
      requires StringAt(mem[..], localLeft.at, local) && StringAt(mem[..], domain.at, text)
      requires localLeft.at + |local| <= domain.at && (text == "" || localLeft.at + |local| < domain.at)
      modifies this`localRight, this`domain, mem
      ensures var r := SplitDomain(spans, flags, dots, q, text);
              if r.Ok? then error == None && Apart(localLeft.at, r.value) else error == Some(r.failure)
      ensures mem[..][..localLeft.at] == old(mem[..])[..localLeft.at]
    {
      hide StringAt;
      var s := ReadString(mem, domain.at, text);
      assert Scans(spans, text, dots);
      domain := domain.(length := spans.domain(s, dots));
      if flags.domainLength && SMTP_DOMAIN_LENGTH < domain.length {
        return Some(DomainTooLong);
      }
      if flags.minDots && 0 < dots && domain.length <= 0 {
        return Some(AddressIncomplete);
      }
      StringAtBounds(mem[..], domain.at, text);
      StringAtIndex(mem[..], domain.at, text, domain.length);
      if mem[domain.at + domain.length] != NUL {
        return Some(InvalidDomain);
      }
      var hasPlusSign := localLeft.length < localRight.length;
      localRight := localRight.(length := localRight.length - (localLeft.length + if hasPlusSign then 1 else 0));
      CutPlus(k, local, text);
      error := None;
    }

    /** Ends the right part, where it ends already, and the left part. */
    method CutPlus(k: nat, ghost local: string, ghost text: string)
      requires k <= |local| && localLeft == Str(localLeft.at, k)
      requires localRight == Str(localLeft.at + k + if k < |local| then 1 else 0, if k < |local| then |local| - k - 1 else 0)
      requires StringAt(mem[..], localLeft.at, local) && StringAt(mem[..], domain.at, text)
      requires localLeft.at + |local| <= domain.at && (text == "" || localLeft.at + |local| < domain.at)
      modifies mem
      ensures StringAt(mem[..], localLeft.at, local[..k]) && StringAt(mem[..], domain.at, text)
      ensures StringAt(mem[..], localRight.at, if k < |local| then local[k + 1..] else "")
      ensures mem[..][..localLeft.at] == old(mem[..])[..localLeft.at]
    {
      hide StringAt;
      StringAtBounds(mem[..], localLeft.at, local);
      StringAtTail(mem[..], localLeft.at, local, if k < |local| then k + 1 else k);
      CutAt(localRight.at, localRight.length, if k < |local| then local[k + 1..] else "");
      StringAtBounds(mem[..], localLeft.at, local);
      if k < |local| {
        FramePutString(mem[..], localLeft.at + k, NUL, domain.at, text);
      } else {
        assert local[..k] == local;
      }
      CutAt(localLeft.at, k, local);
    }

    /** Turns the source route to lower case. */
    method LowerRoute(left: nat, ghost text: string, ghost q: Pieces)
      requires Apart(left, q) && Spells(address, text) && Spells(sourceRoute, q.route)
      requires address.at == 0 && |text| < left && sourceRoute.at + |q.route| < left
      requires q.route == "" || |text| < sourceRoute.at
      modifies mem
      ensures Apart(left, q) && Spells(address, text) && Spells(sourceRoute, Lower(q.route))
    {
      hide StringAt, Lower;
      ghost var b, to := mem[..], sourceRoute.at + |q.route|;
      LowerString(sourceRoute, q.route);
      LowerLength(q.route);
      FrameString(b, mem[..], sourceRoute.at, to, 0, text);
      FrameString(b, mem[..], sourceRoute.at, to, localLeft.at, q.left);
      FrameString(b, mem[..], sourceRoute.at, to, localRight.at, q.right);
      FrameString(b, mem[..], sourceRoute.at, to, domain.at, q.domain);
    }

    /** Turns the left part and the domain to lower case. */
    method LowerRest(left: nat, ghost text: string, ghost route: string, ghost q: Pieces)
      requires Apart(left, q) && Spells(address, text) && Spells(sourceRoute, route)
      requires address.at == 0 && |text| < left && sourceRoute.at + |route| < left
      modifies mem
      ensures Spells(address, text) && Spells(sourceRoute, route)
      ensures Spells(localLeft, Lower(q.left)) && Spells(localRight, q.right) && Spells(domain, Lower(q.domain))
    {
      hide StringAt, Lower;
      LowerLength(q.left);
      LowerLength(q.domain);
      ghost var b, to := mem[..], left + |q.left|;
      LowerString(localLeft, q.left);
      FrameString(b, mem[..], left, to, 0, text);
      FrameString(b, mem[..], left, to, sourceRoute.at, route);
      FrameString(b, mem[..], left, to, localRight.at, q.right);
      FrameString(b, mem[..], left, to, domain.at, q.domain);
      b, to := mem[..], domain.at + |q.domain|;
      LowerString(domain, q.domain);
      FrameString(b, mem[..], domain.at, to, 0, text);
      FrameString(b, mem[..], domain.at, to, sourceRoute.at, route);
      FrameString(b, mem[..], domain.at, to, localLeft.at, Lower(q.left));
      FrameString(b, mem[..], domain.at, to, localRight.at, q.right);
    }
  }

  lemma LowerLength(s: string)
    ensures |Lower(s)| == |s|
  {
  }

  /** parsePath, once the address is found between its angle brackets. */
  method Parse(spans: Spans, flags: Flags, dots: int, text: string) returns (error: Option<Failure>, p: ParsePath?)
    requires WithinStrings(spans) && NoNul(text)
    ensures var r := Split(spans, flags, dots, text);
            if r.Ok? then error == None && p != null && fresh(p) && fresh(p.mem) && p.Holds(PartsOf(text, r.value))
            else error == Some(r.failure) && p == null
  {
    hide SplitLocal, StringAt, Lower;
    assert Scans(spans, text, dots);
    p := new ParsePath(2 * (|text| + 1));
    if text == "" {
      NullAddress(p.mem[..]);
      return None, p;
    }
    p.address := Str(0, |text|);
    p.CopyTwice(text);
    var ok, left := p.SplitRoute(spans, text);
    if !ok {
      return Some(InvalidSourceRoute), null;
    }
    ghost var n := spans.sourceRoute(text);
    ghost var route, rest := text[..n], if n == 0 then text else text[n + 1..];
    ghost var b := p.mem[..];
    StringAtBounds(b, left, rest);
    assert n == 0 ==> route == "";
    error := p.SplitRest(spans, flags, dots, left, route, rest);
    if error != None {
      return error, null;
    }
    ghost var q := SplitLocal(spans, flags, dots, route, rest).value;
    RouteKept(spans, flags, dots, route, rest);
    FrameString(b, p.mem[..], left, |b|, 0, text);
    FrameString(b, p.mem[..], left, |b|, p.sourceRoute.at, route);
    p.LowerRoute(left, text, q);
    LowerLength(route);
    p.LowerRest(left, text, Lower(route), q);
  }

  lemma NullAddress(b: string)
    requires |b| == 2 && b[0] == NUL
    ensures StringAt(b, 0, "") && Lower("") == ""
  {
  }

  lemma RouteKept(spans: Spans, flags: Flags, dots: int, route: string, rest: string)
    requires WithinStrings(spans)
    ensures var r := SplitLocal(spans, flags, dots, route, rest); r.Ok? ==> r.value.route == route
  {
  }

  // ---------- Formatting ----------

  /** formatPathLength: the number of characters that a format makes of the path. */
  method FormatPathLength(format: string, p: ParsePath, ghost parts: Parts) returns (length: nat)
    requires Complete(format) && p.Holds(parts)
    ensures length == |Formatted(format, parts)|
  {
    length := 0;
    var at: nat := 0;
    while at < |format|
      invariant at <= |format| && Complete(format[at..])
      invariant length + |Formatted(format[at..], parts)| == |Formatted(format, parts)|
    {
      FormattedFrom(format, at, parts);
      if format[at] != '%' {
        length := length + 1;
        at := at + 1;
      } else {
        at := at + 1;
        var n := FieldLength(format[at], p, parts);
        length := length + n;
        at := at + 1;
      }
    }
  }

  /** The switch of formatPathLength. */
  method FieldLength(letter: char, p: ParsePath, ghost parts: Parts) returns (n: nat)
    requires p.Holds(parts)
    ensures n == |Field(letter, parts)|
  {
    StringAtIndex(p.mem[..], p.localRight.at, parts.localRight, 0);
    StringAtIndex(p.mem[..], p.sourceRoute.at, parts.sourceRoute, 0);
    n := 0;
    match letter
    case '%' => n := 1;
    case 'A' => n := p.address.length;
    case 'D' => n := p.domain.length;
    case 'L' => n := p.localLeft.length;
    case 'P' =>
      n := p.localLeft.length;
      if p.mem[p.localRight.at] != NUL {
        n := n + 1 + p.localRight.length;
      }
    case 'R' => n := p.localRight.length;
    case 'S' =>
      if p.mem[p.sourceRoute.at] != NUL {
        n := p.sourceRoute.length;
      }
    case 'T' =>
      if p.mem[p.sourceRoute.at] != NUL {
        n := p.sourceRoute.length + 1;
      }
    case _ =>
  }

  lemma FormattedFrom(format: string, at: nat, parts: Parts)
    requires at < |format| && Complete(format[at..])
    ensures if format[at] == '%' then
              && at + 2 <= |format| && Complete(format[at + 2..])
              && Formatted(format[at..], parts) == Field(format[at + 1], parts) + Formatted(format[at + 2..], parts)
            else
              && Complete(format[at + 1..])
              && Formatted(format[at..], parts) == [format[at]] + Formatted(format[at + 1..], parts)
  {
    assert format[at..][1..] == format[at + 1..];
    if format[at] == '%' {
      assert format[at..][2..] == format[at + 2..];
    }
  }

  // ---------- formatPath ----------

  method PutChar(buffer: array<char>, i: nat, c: char, ghost done: string) returns (j: nat)
    requires Shows(buffer[..], i, done) && i < buffer.Length
    modifies buffer
    ensures Shows(buffer[..], j, done + [c]) && j == i + 1
  {
    ShowsChar(buffer[..], i, c, done);
    Put(buffer, i, c);
    j := i + 1;
  }

  /** TextCopy of a string of the path behind what is in the buffer. */
  method PutString(buffer: array<char>, i: nat, p: ParsePath, s: Str, ghost text: string, ghost done: string)
    returns (j: nat)
    requires Shows(buffer[..], i, done) && i < buffer.Length && buffer != p.mem && p.Spells(s, text)
    modifies buffer
    ensures Shows(buffer[..], j, done + text) && j == i + |text|
  {
    hide Shows;
    ghost var b := buffer[..];
    var source := ReadString(p.mem, s.at, text);
    var n := TextCopy(buffer, i, buffer.Length - i, source);
    assert b[..i] == buffer[..][..i];
    ShowsCopy(b, buffer[..], i, text, done);
    j := i + n;
  }

  /** The local part: the left part, and a plus and the right part if there is one. */
  method FormatLocal(buffer: array<char>, i: nat, p: ParsePath, ghost parts: Parts, ghost done: string)
    returns (j: nat)
    requires Shows(buffer[..], i, done) && i < buffer.Length && buffer != p.mem && p.Holds(parts)
    modifies buffer
    ensures Shows(buffer[..], j, done + Field('P', parts)) && j == FieldEnd('P', parts, i, buffer.Length)
  {
    hide StringAt, Shows;
    ghost var left, right := parts.localLeft, parts.localRight;
    StringAtIndex(p.mem[..], p.localRight.at, right, 0);
    j := PutString(buffer, i, p, p.localLeft, left, done);
    if j + 1 < buffer.Length && p.mem[p.localRight.at] != NUL {
      j := PutChar(buffer, j, '+', done + left);
      j := PutString(buffer, j, p, p.localRight, right, done + left + ['+']);
      assert done + left + ['+'] + right == done + (left + "+" + right);
    } else if right != "" {
      ShowsCut(buffer[..], j, done + left, "+" + right);
      assert done + left + ("+" + right) == done + (left + "+" + right);
    }
  }

  /** The source route, and its colon if there is one. */
  method FormatRoute(buffer: array<char>, i: nat, p: ParsePath, ghost parts: Parts, ghost done: string)
    returns (j: nat)
    requires Shows(buffer[..], i, done) && i < buffer.Length && buffer != p.mem && p.Holds(parts)
    modifies buffer
    ensures Shows(buffer[..], j, done + Field('T', parts)) && j == FieldEnd('T', parts, i, buffer.Length)
  {
    hide StringAt, Shows;
    ghost var route := parts.sourceRoute;
    StringAtIndex(p.mem[..], p.sourceRoute.at, route, 0);
    j := PutString(buffer, i, p, p.sourceRoute, route, done);
    assert done + route + [':'] == done + (route + ":");
    if j + 1 < buffer.Length && p.mem[p.sourceRoute.at] != NUL {
      j := PutChar(buffer, j, ':', done + route);
    } else if route != "" {
      ShowsCut(buffer[..], j, done + route, ":");
    }
  }

  /** The switch of formatPath. */
  method FormatField(buffer: array<char>, i: nat, letter: char, p: ParsePath, ghost parts: Parts, ghost done: string)
    returns (j: nat)
    requires Shows(buffer[..], i, done) && i < buffer.Length && buffer != p.mem && p.Holds(parts)
    modifies buffer
    ensures Shows(buffer[..], j, done + Field(letter, parts)) && j == FieldEnd(letter, parts, i, buffer.Length)
  {
    hide StringAt, Shows;
    assert done + "" == done;
    j := i;
    match letter
    case '%' => j := PutChar(buffer, i, '%', done);
    case 'A' => j := PutString(buffer, i, p, p.address, parts.address, done);
    case 'D' => j := PutString(buffer, i, p, p.domain, parts.domain, done);
    case 'L' => j := PutString(buffer, i, p, p.localLeft, parts.localLeft, done);
    case 'P' => j := FormatLocal(buffer, i, p, parts, done);
    case 'R' => j := PutString(buffer, i, p, p.localRight, parts.localRight, done);
    case 'S' => j := PutString(buffer, i, p, p.sourceRoute, parts.sourceRoute, done);
    case 'T' => j := FormatRoute(buffer, i, p, parts, done);
    case _ =>
  }

  /** One turn of the loop of formatPath: a character, or a percent sign and its letter. */
  method FormatNext(buffer: array<char>, format: string, from: nat, here: nat, p: ParsePath, ghost parts: Parts,
                    ghost sofar: string)
    returns (at: nat, i: nat, ghost done: string)
    requires from < |format| && Complete(format[from..]) && p.Holds(parts) && buffer != p.mem
    requires here < buffer.Length && Shows(buffer[..], here, sofar)
    modifies buffer
    ensures at <= |format| && Complete(format[at..]) && from < at
    ensures Shows(buffer[..], i, done)
    ensures done + Formatted(format[at..], parts) == sofar + Formatted(format[from..], parts)
    ensures FormatEnd(format[from..], parts, here, buffer.Length) == FormatEnd(format[at..], parts, i, buffer.Length)
  {
    hide Shows, Field, Complete, Formatted, FieldEnd, FormatEnd;
    at := from;
    FormattedFrom(format, at, parts);
    EndFrom(format, at, parts, here, buffer.Length);
    if format[at] != '%' {
      Octets.Assoc(sofar, [format[at]], Formatted(format[at + 1..], parts));
      i := PutChar(buffer, here, format[at], sofar);
      done := sofar + [format[at]];
      at := at + 1;
    } else {
      at := at + 1;
      Octets.Assoc(sofar, Field(format[at], parts), Formatted(format[at + 1..], parts));
      i := FormatField(buffer, here, format[at], p, parts, sofar);
      done := sofar + Field(format[at], parts);
      at := at + 1;
    }
  }

  /** The loop of formatPath: none of its writes leaves the buffer, whatever the room. */
  method FormatFields(buffer: array<char>, format: string, p: ParsePath, ghost parts: Parts)
    returns (i: nat, ghost done: string)
    requires Complete(format) && p.Holds(parts) && buffer != p.mem && 0 < buffer.Length
    modifies buffer
    ensures i == FormatEnd(format, parts, 0, buffer.Length)
    ensures Shows(buffer[..], i, done)
    ensures done <= Formatted(format, parts) && (done == Formatted(format, parts) || buffer.Length <= i)
  {
    hide Shows, Field, Complete, Formatted, FieldEnd, FormatEnd;
    var length := buffer.Length;
    ghost var all, end := Formatted(format, parts), FormatEnd(format, parts, 0, length);
    var at: nat := 0;
    i, done := 0, "";
    NothingShown(buffer[..]);
    assert format[0..] == format && "" + all == all;
    while at < |format| && i < length
      invariant at <= |format| && Complete(format[at..]) && p.Holds(parts)
      invariant Shows(buffer[..], i, done) && done + Formatted(format[at..], parts) == all
      invariant end == FormatEnd(format[at..], parts, i, length)
      decreases |format| - at
    {
      at, i, done := FormatNext(buffer, format, at, i, p, parts, done);
    }
    EndAt(format[at..], parts, i, length);
    if at == |format| {
      NothingFormatted(parts);
      assert format[at..] == "" && done + "" == done;
    }
  }

  lemma EndFrom(format: string, at: nat, parts: Parts, i: nat, length: nat)
    requires at < |format| && Complete(format[at..]) && i < length
    ensures if format[at] == '%' then
              && at + 2 <= |format| && Complete(format[at + 2..])
              && FormatEnd(format[at..], parts, i, length)
                 == FormatEnd(format[at + 2..], parts, FieldEnd(format[at + 1], parts, i, length), length)
            else
              && Complete(format[at + 1..])
              && FormatEnd(format[at..], parts, i, length) == FormatEnd(format[at + 1..], parts, i + 1, length)
  {
    assert format[at..][1..] == format[at + 1..];
    if format[at] == '%' {
      assert format[at..][2..] == format[at + 2..];
    }
  }

  lemma EndAt(format: string, parts: Parts, i: nat, length: nat)
    requires Complete(format) && (format == "" || length <= i)
    ensures FormatEnd(format, parts, i, length) == i
  {
  }

  lemma NothingFormatted(parts: Parts)
    ensures Complete("") && Formatted("", parts) == ""
  {
  }

  lemma NothingShown(b: string)
    requires 0 < |b|
    ensures Shows(b, 0, "")
  {
  }

  /**
   Fills the buffer with the formatted path, or as much of it as there is room for. The
   last NUL goes to nul, which is behind the end of the buffer just where the path
   overruns it; what is there is not part of the model.
   */
  method FormatPath(buffer: array<char>, format: string, p: ParsePath, ghost parts: Parts) returns (i: int, nul: int)
    requires Complete(format) && p.Holds(parts) && buffer != p.mem
    modifies buffer
    ensures buffer.Length == 0 ==> i == -1
    ensures 0 < buffer.Length ==>
              var all := Formatted(format, parts);
              var n := Room(|all|, buffer.Length);
              && i == FormatEnd(format, parts, 0, buffer.Length)
              && buffer[..n] == all[..n]
              && (nul >= buffer.Length <==> Overruns(Writes(format, parts), 0, buffer.Length))
              && (nul < buffer.Length ==> nul == n && buffer[n] == NUL)
    ensures |Formatted(format, parts)| < buffer.Length ==> i == nul == |Formatted(format, parts)|
  {
    hide Shows, Complete, Formatted, FormatEnd, Overruns, Writes;
    nul := 0;
    var length := buffer.Length;
    if length <= 0 {
      return -1, nul;
    }
    ghost var done;
    i, done := FormatFields(buffer, format, p, parts);
    OverrunIff(format, parts, length);
    if |Formatted(format, parts)| < length {
      EndWithRoom(format, parts, 0, length);
    }
    ShownOfAll(buffer[..], i, done, Formatted(format, parts));
    nul := i - (if length <= i then 1 else 0);
    if nul < length {
      Put(buffer, nul, NUL);
    }
    assert forall k :: 0 <= k < |buffer[..]| ==> buffer[..][k] == buffer[k];
  }

  /** The last NUL goes right behind what the buffer shows. */
  lemma ShownOfAll(b: string, i: nat, done: string, all: string)
    requires Shows(b, i, done) && done <= all && (done == all || |b| <= i)
    ensures var n := Room(|all|, |b|);
            && (i <= |b| ==> i - (if |b| <= i then 1 else 0) == n)
            && b[..n] == b[n := NUL][..n] == all[..n]
  {
    var n := Room(|all|, |b|);
    assert Room(|done|, |b|) == n;
    assert done[..n] == all[..n];
  }

  /** The length that formatPathLength computes is the length that formatPath fills. */
  method AllocatePath(format: string, p: ParsePath, ghost parts: Parts) returns (path: array?<char>)
    requires Complete(format) && p.Holds(parts)
    ensures path != null && fresh(path)
    ensures path.Length == |Formatted(format, parts)| + 1
    ensures path[..] == Formatted(format, parts) + [NUL]
  {
    hide Formatted, Complete, FormatEnd;
    var length := FormatPathLength(format, p, parts);
    path := new char[length + 1](_ => '?');
    EndWithRoom(format, parts, 0, length + 1);
    var nbytes, _ := FormatPath(path, format, p, parts);
    if nbytes != length {
      path := null;
    }
    assert path[..] == path[..length] + [path[length]];
    assert Formatted(format, parts)[..length] == Formatted(format, parts);
  }
}
