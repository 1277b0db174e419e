/**
 The lookup order of the access map (mail/smdb.c) as lists of strings: how a key is
 reduced step by step, and which keys that makes in all.
 */
module SmdbKeys {
  import opened CString
  import opened Wrappers

  // ---------- One reduction ----------

  /** Which reduction a lookup uses. */
  datatype Reduction = ByIp | ByDomain | ByMail

  /** A key in the making: what follows the tag, and the string hidden behind its NUL. */
  datatype State = State(key: string, hidden: Option<string>)

  predicate IsIpDelimiter(c: char) {
    c == '.' || c == ':'
  }

  /** The last delimiter of key between from and below, as reduceIp scans back for it. */
  function LastDelimiter(key: string, from: nat, below: nat): (n: Option<nat>)
    requires below <= |key|
    ensures n.Some? ==> from < n.value < below && IsIpDelimiter(key[n.value])
    ensures forall i :: (if n.Some? then n.value else from) < i < below ==> !IsIpDelimiter(key[i])
  {
    if below <= from + 1 then None
    else if IsIpDelimiter(key[below - 1]) then Some(below - 1)
    else LastDelimiter(key, from, below - 1)
  }

  /** Where reduceIp stops scanning back. */
  function IpFrom(key: string): nat {
    if key != "" && key[0] == 'i' then 5 else 0
  }

  /** Where it cuts the key when its last delimiter is at n. */
  function IpCut(key: string, n: nat): nat
    requires 0 < n < |key|
  {
    if key[n - 1] == ':' then n - 1 else n
  }

  function IpNext(key: string): (next: Option<string>)
    ensures next.Some? ==> |next.value| < |key| && next.value <= key
  {
    match LastDelimiter(key, IpFrom(key), |key|)
    case None => None
    case Some(n) => Some(key[..IpCut(key, n)])
  }

  predicate NoDelimiterAfter(key: string, n: int) {
    forall i :: 0 <= i < |key| && n < i ==> !IsIpDelimiter(key[i])
  }

  lemma {:induction false} LastIs(key: string, from: nat, below: nat, n: nat)
    requires from < n < below <= |key| && IsIpDelimiter(key[n]) && NoDelimiterAfter(key, n)
    ensures LastDelimiter(key, from, below) == Some(n)
  {
    if n + 1 < below {
      LastIs(key, from, below - 1, n);
    }
  }

  /** The key is cut at its last delimiter, and a colon in front of that goes too. */
  lemma IpFound(key: string, n: nat)
    requires IpFrom(key) < n < |key| && IsIpDelimiter(key[n]) && NoDelimiterAfter(key, n)
    ensures IpNext(key) == Some(key[..IpCut(key, n)])
  {
    LastIs(key, IpFrom(key), |key|, n);
  }

  /** Without a delimiter behind the place where the scan stops there is no next key. */
  lemma IpNotFound(key: string)
    requires NoDelimiterAfter(key, IpFrom(key))
    ensures IpNext(key) == None
  {
  }

  function DomainDelimiter(key: string): char {
    if key != "" && key[0] == '[' then ']' else '.'
  }

  /** The domain without its first label and dot, or without its address literal. */
  function DomainNext(key: string): (next: Option<string>)
    ensures next.Some? ==> next.value != "" && |next.value| < |key|
  {
    var n := IndexOf(key, DomainDelimiter(key));
    if n + 1 < |key| then Some(key[n + 1..]) else None
  }

  /**
   An address without its local part, then its domain label by label, and when no
   domain is left the hidden local part. A key that ends in an at-sign is the last.
   */
  function MailNext(s: State): (next: Option<State>)
    ensures next.Some? ==> Smaller(next.value, s) && next.value.key != ""
  {
    if s.key == "" || s.key[|s.key| - 1] == '@' then None
    else if '@' in s.key then
      assert s.key[IndexOf(s.key, '@')] == '@';
      Some(State(s.key[IndexOf(s.key, '@') + 1..], s.hidden))
    else match DomainNext(s.key)
         case Some(domain) => Some(State(domain, s.hidden))
         case None => if s.hidden.Some? && s.hidden.value != "" then Some(State(s.hidden.value, None)) else None
  }

  /** A step either shortens the key or uses up the hidden string. */
  predicate Smaller(s: State, t: State) {
    if s.hidden.Some? <==> t.hidden.Some? then |s.key| < |t.key| else t.hidden.Some?
  }

  function Next(how: Reduction, s: State): (next: Option<State>)
    ensures next.Some? ==> Smaller(next.value, s)
  {
    match how
    case ByMail => MailNext(s)
    case ByIp => Carried(s, IpNext(s.key))
    case ByDomain => Carried(s, DomainNext(s.key))
  }

  function Carried(s: State, key: Option<string>): Option<State> {
    if key.Some? then Some(State(key.value, s.hidden)) else None
  }

  /** Every key that the reductions make of a state, in order. */
  function Keys(how: Reduction, s: State): seq<string>
    decreases s.hidden.Some?, |s.key|
  {
    var next := Next(how, s);
    [s.key] + if next.Some? then Keys(how, next.value) else []
  }

  // ---------- What singleKey starts from ----------

  /** The local part without a detail: up to its last plus, unless that is its first character. */
  function Undetailed(local: string): (r: string)
    ensures r <= local
  {
    var plus := LastPlus(local);
    if 0 < plus then local[..plus] else local
  }

  /** The index of the last plus of s, or 0. */
  function LastPlus(s: string): (n: nat)
    ensures n <= |s| && (0 < n ==> n < |s| && s[n] == '+')
    ensures forall i :: n < i < |s| ==> s[i] != '+'
  {
    if s == [] then 0
    else if s[|s| - 1] == '+' then |s| - 1
    else LastPlus(s[..|s| - 1])
  }

  function LocalPart(address: string): string {
    address[..IndexOf(address, '@')]
  }

  /** The key and the hidden string that a lookup of key begins with. */
  function Start(how: Reduction, key: string): State {
    if how != ByMail then State(Lower(key), None)
    else
      var account := Lower(Undetailed(LocalPart(key))) + "@";
      if key != "" && '@' !in key then State(account, None) else State(Lower(key), Some(account))
  }

  /** Every key that a lookup of key may ask for, in order. */
  function Lookup(how: Reduction, key: string): seq<string> {
    Keys(how, Start(how, key))
  }

  // ---------- The order the documentation promises ----------

  /** What follows each dot of s, from left to right, unless nothing does. */
  function Suffixes(s: string): seq<string> {
    if s == "" then []
    else (if s[0] == '.' && s[1..] != "" then [s[1..]] else []) + Suffixes(s[1..])
  }

  /** What precedes each dot of s, from right to left, unless nothing does. */
  function Prefixes(s: string): seq<string> {
    if s == "" then []
    else
      var n := |s| - 1;
      (if s[n] == '.' && 0 < n then [s[..n]] else []) + Prefixes(s[..n])
  }

  predicate IsLiteral(domain: string) {
    && 2 <= |domain| && domain[0] == '['
    && IndexOf(domain, ']') == |domain| - 1
  }

  /**
   What follows each label of a domain, read one character at a time, where stop ends
   the label that s is in.
   */
  function After(s: string, stop: char): seq<string> {
    if s == "" then []
    else if s[0] != stop then After(s[1..], stop)
    else if s[1..] == "" then []
    else [s[1..]] + After(s[1..], DomainDelimiter(s[1..]))
  }

  /** The domains looked up after domain: a label ends at its dot, one in brackets at the bracket. */
  function Parents(domain: string): seq<string> {
    After(domain, DomainDelimiter(domain))
  }

  lemma {:induction false} AfterFrom(s: string, stop: char, n: nat)
    requires n == IndexOf(s, stop)
    ensures After(s, stop) == if n + 1 < |s| then [s[n + 1..]] + Parents(s[n + 1..]) else []
  {
    if s != "" && s[0] != stop {
      AfterFrom(s[1..], stop, n - 1);
      assert n + 1 < |s| ==> s[1..][n..] == s[n + 1..];
    }
  }

  lemma {:induction false} KeysByDomain(domain: string, hidden: Option<string>)
    ensures var n := IndexOf(domain, DomainDelimiter(domain));
            Keys(ByDomain, State(domain, hidden))
            == [domain] + if n + 1 < |domain| then Keys(ByDomain, State(domain[n + 1..], hidden)) else []
  {
    hide IndexOf, DomainDelimiter;
  }

  /** Label by label, the domain reductions are the domain and its parents. */
  lemma {:induction false} DomainOrder(domain: string, hidden: Option<string>)
    ensures Keys(ByDomain, State(domain, hidden)) == [domain] + Parents(domain)
    decreases |domain|
  {
    hide After, IndexOf, DomainDelimiter, Keys;
    var n := IndexOf(domain, DomainDelimiter(domain));
    KeysByDomain(domain, hidden);
    AfterFrom(domain, DomainDelimiter(domain), n);
    if n + 1 < |domain| {
      DomainOrder(domain[n + 1..], hidden);
    }
  }

  /** No dot is followed by a bracket. */
  predicate NoBracketAfterDot(s: string) {
    |s| < 2 || (!(s[0] == '.' && s[1] == '[') && NoBracketAfterDot(s[1..]))
  }

  lemma {:induction false} AfterDots(s: string)
    requires NoBracketAfterDot(s)
    ensures After(s, '.') == Suffixes(s)
  {
    if s != "" {
      AfterDots(s[1..]);
    }
  }

  /** The parents of a name, of which no label starts with a bracket, are what follows each of its dots. */
  lemma ParentsOfName(domain: string)
    requires NoBracketAfterDot(domain) && (domain == "" || domain[0] != '[')
    ensures Parents(domain) == Suffixes(domain)
  {
    AfterDots(domain);
  }

  /** An address literal is one step. */
  lemma ParentsOfLiteral(domain: string)
    requires IsLiteral(domain)
    ensures Parents(domain) == []
  {
    AfterFrom(domain, ']', |domain| - 1);
  }

  /** A domain without an at-sign is reduced as a domain, and then comes the hidden account. */
  lemma {:induction false} MailAfterDomain(domain: string, account: string)
    requires domain != "" && '@' !in domain && account != "" && account[|account| - 1] == '@'
    ensures Keys(ByMail, State(domain, Some(account))) == Keys(ByDomain, State(domain, None)) + [account]
    decreases |domain|
  {
    var next := DomainNext(domain);
    if next.Some? {
      MailAfterDomain(next.value, account);
    } else {
      assert Keys(ByMail, State(account, None)) == [account];
    }
  }

  lemma IndexOfPast(s: string, t: string, c: char)
    requires c !in s
    ensures IndexOf(s + [c] + t, c) == |s|
  {
    IndexIs(s + [c] + t, c, |s|);
  }

  lemma LowerHas(s: string, c: char)
    requires !('a' <= c <= 'z') && !('A' <= c <= 'Z')
    ensures c in Lower(s) <==> c in s
  {
    if c in s {
      var i :| 0 <= i < |s| && s[i] == c;
      assert Lower(s)[i] == c;
    }
    if c in Lower(s) {
      var i :| 0 <= i < |s| && Lower(s)[i] == c;
      assert s[i] == c;
    }
  }

  lemma MailAfterLocal(local: string, domain: string, account: string)
    requires '@' !in local && '@' !in domain && domain != ""
    requires account != "" && account[|account| - 1] == '@'
    ensures Keys(ByMail, State(local + "@" + domain, Some(account)))
            == [local + "@" + domain] + Keys(ByDomain, State(domain, None)) + [account]
  {
    var key := local + "@" + domain;
    IndexOfPast(local, domain, '@');
    assert key[|key| - 1] == domain[|domain| - 1];
    assert key[|local|] == '@';
    assert key[|local| + 1..] == domain;
    MailAfterDomain(domain, account);
  }

  lemma LowerAt()
    ensures Lower("@") == "@"
  {
  }

  lemma LookupMail(local: string, domain: string)
    requires domain != "" && '@' !in local && '@' !in domain
    ensures Lookup(ByMail, local + "@" + domain)
            == [Lower(local + "@" + domain)] + Keys(ByDomain, State(Lower(domain), None))
                 + [Lower(Undetailed(local)) + "@"]
  {
    hide Keys, Undetailed, Lower, IndexOf;
    var key := local + "@" + domain;
    IndexOfPast(local, domain, '@');
    assert key[..|local|] == local;
    assert key[|local|] == '@';
    LowerAt();
    LowerJoins(local + "@", domain);
    LowerJoins(local, "@");
    LowerHas(local, '@');
    LowerHas(domain, '@');
    MailAfterLocal(Lower(local), Lower(domain), Lower(Undetailed(local)) + "@");
    assert Lower(key) == Lower(local) + "@" + Lower(domain);
  }

  /**
   An address local@domain is looked up whole, then by its domain and the parents of
   that, and last by its account name without detail, all in lower case.
   */
  lemma AddressOrder(local: string, domain: string)
    requires domain != "" && '@' !in local && '@' !in domain
    ensures Lookup(ByMail, local + "@" + domain)
            == [Lower(local + "@" + domain), Lower(domain)] + Parents(Lower(domain))
                 + [Lower(Undetailed(local)) + "@"]
  {
    LookupMail(local, domain);
    DomainOrder(Lower(domain), None);
    Regroup(Lower(local + "@" + domain), Lower(domain), Parents(Lower(domain)), [Lower(Undetailed(local)) + "@"]);
  }

  lemma Regroup(a: string, b: string, s: seq<string>, t: seq<string>)
    ensures [a] + ([b] + s) + t == [a, b] + s + t
  {
  }

  /** A bare account name is looked up once, without detail. */
  lemma AccountOrder(account: string)
    requires account != "" && '@' !in account
    ensures Lookup(ByMail, account) == [Lower(Undetailed(account)) + "@"]
  {
    assert IndexOf(account, '@') == |account|;
    assert LocalPart(account) == account;
  }

  lemma {:induction false} PrefixesTo(s: string, below: nat, from: nat)
    requires below <= |s| && from == 0 && ':' !in s
    ensures var n := LastDelimiter(s, 0, below);
            Prefixes(s[..below]) == if n.Some? then [s[..n.value]] + Prefixes(s[..n.value]) else []
  {
    if 1 < below {
      assert s[..below][..below - 1] == s[..below - 1];
      PrefixesTo(s, below - 1, 0);
    }
  }

  /** An IPv4 address is looked up whole, and then less one octet at a time from the right. */
  lemma {:induction false} AddressV4Order(ip: string, hidden: Option<string>)
    requires ':' !in ip && (ip == "" || ip[0] != 'i')
    ensures Keys(ByIp, State(ip, hidden)) == [ip] + Prefixes(ip)
    decreases |ip|
  {
    PrefixesTo(ip, |ip|, 0);
    assert ip[..|ip|] == ip;
    var next := IpNext(ip);
    if next.Some? {
      AddressV4Order(next.value, hidden);
    }
  }

  // ---------- Addresses of segments ----------

  /** A group or an octet of an address with the delimiter in front of it. */
  datatype Segment = Segment(delimiter: string, text: string)

  predicate IsGroup(s: string) {
    s != "" && forall i :: 0 <= i < |s| ==> !IsIpDelimiter(s[i])
  }

  predicate AreSegments(segments: seq<Segment>) {
    forall i :: 0 <= i < |segments| ==> segments[i].delimiter in [".", ":", "::"] && IsGroup(segments[i].text)
  }

  /** The address as it is written: with or without the tag of IPv6, compact, or with an IPv4 address in it. */
  function AddressOf(tag: string, head: string, segments: seq<Segment>): string {
    if segments == [] then tag + head
    else
      var last := segments[|segments| - 1];
      AddressOf(tag, head, segments[..|segments| - 1]) + last.delimiter + last.text
  }

  /** The address, and then less one segment at a time from the right. */
  function Shortened(tag: string, head: string, segments: seq<Segment>): seq<string> {
    [AddressOf(tag, head, segments)]
      + if segments == [] then [] else Shortened(tag, head, segments[..|segments| - 1])
  }

  /** What stands in front of a "::" may be nothing. An address without the tag of IPv6 has no first letter i. */
  predicate IsAddress(tag: string, head: string, segments: seq<Segment>) {
    && (head == "" || IsGroup(head)) && AreSegments(segments)
    && (tag == "ipv6:" || (tag == "" && (head == "" || head[0] != 'i')))
    && (head == "" && segments != [] ==> segments[0].delimiter == "::")
  }

  lemma {:induction false} AddressEnds(tag: string, head: string, segments: seq<Segment>)
    requires IsAddress(tag, head, segments)
    ensures var a := AddressOf(tag, head, segments);
            && IpFrom(a) == |tag| <= |a|
            && (head != "" || segments != [] ==> |tag| < |a| && !IsIpDelimiter(a[|a| - 1]))
  {
    if segments != [] {
      AddressEnds(tag, head, segments[..|segments| - 1]);
    }
  }

  lemma NextAddress(tag: string, head: string, segments: seq<Segment>)
    requires IsAddress(tag, head, segments)
    ensures IpNext(AddressOf(tag, head, segments))
            == if segments == [] then None else Some(AddressOf(tag, head, segments[..|segments| - 1]))
  {
    hide IpNext, LastDelimiter;
    AddressEnds(tag, head, segments);
    var a := AddressOf(tag, head, segments);
    if segments == [] {
      IpNotFound(a);
    } else {
      var front, last := segments[..|segments| - 1], segments[|segments| - 1];
      AddressEnds(tag, head, front);
      LastSegment(AddressOf(tag, head, front), last, a);
    }
  }

  lemma LastSegment(front: string, last: Segment, a: string)
    requires a == front + last.delimiter + last.text && IpFrom(a) <= |front|
    requires last.delimiter == "::" || (last.delimiter in [".", ":"] && IpFrom(a) < |front| && !IsIpDelimiter(front[|front| - 1]))
    requires IsGroup(last.text)
    ensures IpNext(a) == Some(front)
  {
    hide IpNext, LastDelimiter;
    var n := |front| + |last.delimiter| - 1;
    assert a[n] == last.delimiter[|last.delimiter| - 1];
    assert a[n - 1] == if last.delimiter == "::" then ':' else front[|front| - 1];
    forall i | n < i < |a| ensures !IsIpDelimiter(a[i]) {
      assert a[i] == last.text[i - n - 1];
    }
    IpFound(a, n);
    assert a[..|front|] == front;
  }

  /**
   Whatever delimits its segments, an address is looked up whole and then less one
   segment at a time from the right, two colons going in one step.
   */
  lemma {:induction false} AddressV6Order(tag: string, head: string, segments: seq<Segment>, hidden: Option<string>)
    requires IsAddress(tag, head, segments)
    ensures Keys(ByIp, State(AddressOf(tag, head, segments), hidden)) == Shortened(tag, head, segments)
    decreases |segments|
  {
    hide IpNext, AddressOf;
    NextAddress(tag, head, segments);
    if segments != [] {
      AddressV6Order(tag, head, segments[..|segments| - 1], hidden);
    }
  }

  // ---------- Lookups by address and by domain ----------

  /** A lookup of a domain asks for it and its parents, in lower case. */
  lemma DomainLookup(domain: string)
    ensures Lookup(ByDomain, domain) == [Lower(domain)] + Parents(Lower(domain))
  {
    hide Keys, Parents;
    DomainOrder(Lower(domain), None);
  }

  /** A lookup of an IPv4 address asks for it and what its dots leave of it. */
  lemma AddressV4Lookup(ip: string)
    requires ':' !in ip && (ip == "" || ip[0] !in {'i', 'I'})
    ensures Lookup(ByIp, ip) == [Lower(ip)] + Prefixes(Lower(ip))
  {
    hide Keys, Prefixes;
    LowerHas(ip, ':');
    AddressV4Order(Lower(ip), None);
  }

  /** A lookup of any other address asks for it and what its delimiters leave of it, in lower case. */
  lemma AddressV6Lookup(ip: string, tag: string, head: string, segments: seq<Segment>)
    requires IsAddress(tag, head, segments) && Lower(ip) == AddressOf(tag, head, segments)
    ensures Lookup(ByIp, ip) == Shortened(tag, head, segments)
  {
    hide Keys, AddressOf, Shortened;
    AddressV6Order(tag, head, segments, None);
  }

  /** The detail is what follows the last plus; the local part in front of it is not empty. */
  lemma UndetailedIs(account: string, detail: string)
    requires account != "" && '+' !in detail
    ensures Undetailed(account + "+" + detail) == account
  {
    var s := account + "+" + detail;
    assert s[|account|] == '+';
    assert forall i :: |account| < i < |s| ==> s[i] == detail[i - |account| - 1];
    assert s[..|account|] == account;
  }

  /** Without a plus, or with one in front and no other, nothing is cut off. */
  lemma UndetailedWhole(local: string)
    requires forall i :: 0 < i < |local| ==> local[i] != '+'
    ensures Undetailed(local) == local
  {
  }
}
