/**
 spfCheck of mail/spf.c: policies reached through include: and redirect= share
 one list of visited domains and one count of DNS mechanisms. Terms are already
 parsed; macro expansion and host lookups are functions of their arguments.
 */
module Spf {
  import CString
  import opened Wrappers

  type Domain = string

  datatype SpfResult = Pass | Fail | NoResult | Neutral | SoftFail | TempError | PermError

  const MAX_DNS_MECHANISMS: nat := 10

  // ---------- Policies and the zone ----------

  datatype HostKind = A | Mx | Ptr | Exists

  datatype IpTerm = BadIp | BadCidr | Network(holdsClient: bool)

  datatype Term =
    | All
    | Host(kind: HostKind, spec: string, cidrOk: bool)
    | Ip(ip: IpTerm)
    | Include(spec: string)
    | Redirect(spec: string)
    | Exp
    | Other

  /** A term and the result its qualifier asks for: Pass, Fail, SoftFail or Neutral. */
  datatype Directive = Directive(qualifier: SpfResult, term: Term)

  type Policy = seq<Directive>

  datatype Rcode = ServerFailure | NxDomain | Errno | NotImplemented | OtherRcode

  /** The answer to the query for a domain's policy; policies are the texts that start with v=spf1. */
  datatype TxtAnswer =
    | NoTxt(errnoSet: bool)
    | TxtRcode(rcode: Rcode)
    | Texts(withHeader: bool, policies: seq<Policy>)

  datatype HostAnswer = NoList(errnoSet: bool) | Undefined | BadRcode | Records(holdsClient: bool)

  datatype World = World(
    zone: map<Domain, TxtAnswer>,
    expand: (Domain, string) -> Option<Domain>,
    host: (HostKind, Domain) -> HostAnswer,
    tempErrorDns: bool)
  {
    /** Domains are compared in lower case, and one that the zone does not know does not exist. */
    function Txt(domain: Domain): TxtAnswer {
      if CString.Lower(domain) in zone then zone[CString.Lower(domain)] else TxtRcode(NxDomain)
    }
  }

  // ---------- The shared state ----------

  /**
   What nested evaluations share, and a record of what they did: the domains whose
   policy was asked for, the host lookups made, and whether a domain was met again.
   */
  datatype State = State(
    visited: set<Domain>,
    count: nat,
    temp: bool,
    fetched: seq<Domain>,
    lookups: nat,
    revisited: bool)

  /** The shared state only ever grows. */
  predicate Grows(st: State, st': State) {
    && st.visited <= st'.visited && st.count <= st'.count
    && (st.temp ==> st'.temp) && (st.revisited ==> st'.revisited)
  }

  datatype Decision = Skip | Decide(result: SpfResult)

  /** A host lookup that was answered: does the term match, and does it leave a temporary error? */
  function OnAnswer(w: World, kind: HostKind, qualifier: SpfResult, answer: HostAnswer): (Decision, bool) {
    match answer
    case NoList(errnoSet) =>
      if kind == Exists || (kind == Mx && !errnoSet) then (Skip, false) else (Decide(TempError), false)
    case Undefined => (Skip, false)
    case BadRcode => if w.tempErrorDns then (Decide(TempError), false) else (Skip, true)
    case Records(holds) => (if holds || kind == Exists then Decide(qualifier) else Skip, false)
  }

  /** The a, mx, ptr and exists mechanisms. */
  function HostTerm(w: World, st: State, domain: Domain, qualifier: SpfResult, term: Term): (Decision, State)
    requires term.Host?
  {
    match w.expand(domain, term.spec)
    case None => (Decide(PermError), st)
    case Some(target) =>
      var st1 := st.(count := st.count + 1);
      if MAX_DNS_MECHANISMS <= st.count then (Decide(PermError), st1)
      else if term.kind in {A, Mx} && !term.cidrOk then (Decide(PermError), st1)
      else
        var (d, temp) := OnAnswer(w, term.kind, qualifier, w.host(term.kind, target));
        (d, st1.(lookups := st1.lookups + 1, temp := st1.temp || temp))
  }

  function IpDecision(qualifier: SpfResult, ip: IpTerm): Decision {
    match ip
    case BadIp | BadCidr => Decide(PermError)
    case Network(holds) => if holds then Decide(qualifier) else Skip
  }

  /** Section 5.2 of RFC 4408: what the result of an included policy means for the including one. */
  function IncludeDecision(qualifier: SpfResult, included: SpfResult): Decision {
    match included
    case Pass => Decide(qualifier)
    case Fail | SoftFail | Neutral => Skip
    case TempError => Decide(TempError)
    case PermError | NoResult => Decide(PermError)
  }

  // ---------- Leftmost-match evaluation ----------

  /** The policy of a domain, or the result when there is none to evaluate. */
  datatype Fetched = Settled(result: SpfResult) | Evaluate(policy: Policy, fallback: SpfResult)

  function Fetch(answer: TxtAnswer): Fetched {
    match answer
    case NoTxt(errnoSet) => Settled(if errnoSet then TempError else NoResult)
    case TxtRcode(rcode) =>
      (match rcode
       case ServerFailure | NxDomain => Settled(Neutral)
       case Errno | NotImplemented => Settled(NoResult)
       case OtherRcode => Settled(TempError))
    case Texts(withHeader, policies) =>
      var fallback := if withHeader then Neutral else NoResult;
      if |policies| == 0 then Settled(fallback)
      else if |policies| == 1 then Evaluate(policies[0], fallback)
      else Settled(PermError)
  }

  predicate NotADomain(domain: Domain) {
    domain == "" || domain[0] == '['
  }

  /** spfCheck as a function: the result and what the shared state becomes. */
  function Check(w: World, st: State, domain: Domain, alt: Option<Policy>): (r: (SpfResult, State))
    ensures Grows(st, r.1)
    decreases w.zone.Keys - st.visited, if alt.Some? then 1 else 0, 0
  {
    if NotADomain(domain) then (NoResult, st)
    else if CString.Lower(domain) in st.visited then (Neutral, st.(revisited := true))
    else
      var st1 := st.(visited := st.visited + {CString.Lower(domain)});
      match alt
      case Some(policy) => Terms(w, st1, domain, policy, None, false, Neutral)
      case None =>
        var st2 := st1.(fetched := st1.fetched + [CString.Lower(domain)]);
        match Fetch(w.Txt(domain))
        case Settled(result) => (result, st2)
        case Evaluate(policy, fallback) => Terms(w, st2, domain, policy, None, false, fallback)
  }

  /** What one term decides. A second redirect= or exp= is an error. */
  function Try(w: World, st: State, domain: Domain, d: Directive, redirect: Option<string>, explained: bool):
    (r: (Decision, State))
    ensures Grows(st, r.1)
    decreases w.zone.Keys - st.visited, 0, 1
  {
    match d.term
    case All => (Decide(if st.temp then TempError else d.qualifier), st)
    case Host(_, _, _) => HostTerm(w, st, domain, d.qualifier, d.term)
    case Ip(ip) => (IpDecision(d.qualifier, ip), st)
    case Include(spec) =>
      (match w.expand(domain, spec)
       case None => (Decide(PermError), st)
       case Some(target) =>
         var (included, st1) := Check(w, st, target, None);
         (IncludeDecision(d.qualifier, included), st1))
    case Redirect(_) => (if redirect.Some? then Decide(PermError) else Skip, st)
    case Exp => (if explained then Decide(PermError) else Skip, st)
    case Other => (Skip, st)
  }

  function NextRedirect(redirect: Option<string>, d: Directive): Option<string> {
    if d.term.Redirect? then Some(d.term.spec) else redirect
  }

  /** The first term that decides, else the redirect, else the fallback. */
  function Terms(w: World, st: State, domain: Domain, policy: Policy,
      redirect: Option<string>, explained: bool, fallback: SpfResult): (r: (SpfResult, State))
    ensures Grows(st, r.1)
    decreases w.zone.Keys - st.visited, 0, |policy| + 2
  {
    if policy == [] then
      match redirect
      case None => (fallback, st)
      case Some(spec) =>
        (match w.expand(domain, spec)
         case None => (PermError, st)
         case Some(target) => Check(w, st, target, None))
    else
      var d := policy[0];
      match Try(w, st, domain, d, redirect, explained)
      case (Decide(r), st1) => (r, st1)
      case (Skip, st1) =>
        Terms(w, st1, domain, policy[1..], NextRedirect(redirect, d), explained || d.term.Exp?, Neutral)
  }

  // ---------- What the terms of a policy mean ----------

  /**
   Up to its k-th term a policy decides nothing: there are networks without the client,
   terms that are not understood, and modifiers met for the first time.
   */
  predicate Undecided(policy: Policy, k: nat, redirected: bool, explained: bool)
    requires k <= |policy|
  {
    k == 0 ||
    (match policy[0].term
     case Ip(Network(holds)) => !holds && Undecided(policy[1..], k - 1, redirected, explained)
     case Other => Undecided(policy[1..], k - 1, redirected, explained)
     case Redirect(_) => !redirected && Undecided(policy[1..], k - 1, true, explained)
     case Exp => !explained && Undecided(policy[1..], k - 1, redirected, true)
     case _ => false)
  }

  /** Where the terms in front decide nothing, the first network with the client and the first all decide by their qualifier. */
  lemma {:induction false} LeftmostDecides(w: World, st: State, domain: Domain, policy: Policy, k: nat,
      redirect: Option<string>, explained: bool, fallback: SpfResult)
    requires k < |policy| && Undecided(policy, k, redirect.Some?, explained)
    ensures var d, r := policy[k], Terms(w, st, domain, policy, redirect, explained, fallback);
            && (d.term == Ip(Network(true)) ==> r == (d.qualifier, st))
            && (d.term == All ==> r == (if st.temp then TempError else d.qualifier, st))
            && (d.term == Ip(BadIp) || d.term == Ip(BadCidr) ==> r == (PermError, st))
    decreases k
  {
    hide Check, HostTerm;
    assert policy == [policy[0]] + policy[1..];
    if k > 0 {
      var d := policy[0];
      LeftmostDecides(w, st, domain, policy[1..], k - 1, NextRedirect(redirect, d), explained || d.term.Exp?, Neutral);
    }
  }

  /** A second redirect= or exp= is an error, wherever the first was. */
  lemma {:induction false} ModifierTwice(w: World, st: State, domain: Domain, policy: Policy, k: nat,
      redirect: Option<string>, explained: bool, fallback: SpfResult)
    requires k < |policy| && Undecided(policy, k, redirect.Some?, explained)
    requires var d := policy[k];
             || (d.term.Redirect? && (redirect.Some? || exists j :: 0 <= j < k && policy[j].term.Redirect?))
             || (d.term.Exp? && (explained || exists j :: 0 <= j < k && policy[j].term.Exp?))
    ensures Terms(w, st, domain, policy, redirect, explained, fallback) == (PermError, st)
    decreases k
  {
    hide Check, HostTerm;
    assert policy == [policy[0]] + policy[1..];
    if k > 0 {
      var d := policy[0];
      ModifierTwice(w, st, domain, policy[1..], k - 1, NextRedirect(redirect, d), explained || d.term.Exp?, Neutral);
    }
  }

  /** Where no term decides, the redirect is evaluated; without one the result is Neutral, or the fallback of no terms. */
  lemma {:induction false} NothingDecides(w: World, st: State, domain: Domain, policy: Policy,
      redirect: Option<string>, explained: bool, fallback: SpfResult)
    requires Undecided(policy, |policy|, redirect.Some?, explained)
    ensures var r := Terms(w, st, domain, policy, redirect, explained, fallback);
            && (redirect.None? && (forall j :: 0 <= j < |policy| ==> !policy[j].term.Redirect?) ==>
                  r == (if policy == [] then fallback else Neutral, st))
            && (redirect.Some? ==> r == Redirected(w, st, domain, redirect.value))
            && (forall j :: 0 <= j < |policy| && policy[j].term.Redirect? ==>
                  r == Redirected(w, st, domain, policy[j].term.spec))
    decreases |policy|
  {
    if policy != [] {
      var d := policy[0];
      NothingDecides(w, st, domain, policy[1..], NextRedirect(redirect, d), explained || d.term.Exp?, Neutral);
      forall j | 0 <= j < |policy| && policy[j].term.Redirect?
        ensures Terms(w, st, domain, policy, redirect, explained, fallback) == Redirected(w, st, domain, policy[j].term.spec)
      {
        assert j > 0 ==> policy[j] == policy[1..][j - 1];
      }
      assert forall j :: 0 <= j < |policy| - 1 ==> policy[1..][j] == policy[j + 1];
    }
  }

  ghost function Redirected(w: World, st: State, domain: Domain, spec: string): (SpfResult, State) {
    if w.expand(domain, spec).None? then (PermError, st) else Check(w, st, w.expand(domain, spec).value, None)
  }

  lemma TermsFrom(w: World, st: State, domain: Domain, d: Directive, rest: Policy,
      redirect: Option<string>, explained: bool, fallback: SpfResult)
    ensures Terms(w, st, domain, [d] + rest, redirect, explained, fallback)
         == match Try(w, st, domain, d, redirect, explained)
            case (Decide(r), st1) => (r, st1)
            case (Skip, st1) => Terms(w, st1, domain, rest, NextRedirect(redirect, d), explained || d.term.Exp?, Neutral)
  {
    hide Try;
    assert ([d] + rest)[1..] == rest;
  }

  lemma TryHostTerm(w: World, st: State, domain: Domain, d: Directive, redirect: Option<string>, explained: bool)
    requires d.term.Host?
    ensures Try(w, st, domain, d, redirect, explained) == HostTerm(w, st, domain, d.qualifier, d.term)
  {
    hide HostTerm;
  }

  /** What the answer for its host makes of an a, mx, ptr or exists. */
  lemma HostDecides(w: World, st: State, domain: Domain, d: Directive, rest: Policy,
      redirect: Option<string>, explained: bool, fallback: SpfResult)
    requires d.term.Host? && w.expand(domain, d.term.spec).Some?
    ensures var r := Terms(w, st, domain, [d] + rest, redirect, explained, fallback);
            var counted := st.(count := st.count + 1);
            var asked := counted.(lookups := st.lookups + 1);
            var answer, kind := w.host(d.term.kind, w.expand(domain, d.term.spec).value), d.term.kind;
            var goesOn := Terms(w, asked, domain, rest, redirect, explained, Neutral);
            if st.count >= 10 then r == (PermError, counted)
            else if !d.term.cidrOk && (kind == A || kind == Mx) then r == (PermError, counted)
            else match answer
              case Records(true) => r == (d.qualifier, asked)
              case Records(false) => r == if kind == Exists then (d.qualifier, asked) else goesOn
              case Undefined => r == goesOn
              case BadRcode =>
                r == if w.tempErrorDns then (TempError, asked)
                     else Terms(w, asked.(temp := true), domain, rest, redirect, explained, Neutral)
              case NoList(true) => r == if kind == Exists then goesOn else (TempError, asked)
              case NoList(false) => r == if kind == A || kind == Ptr then (TempError, asked) else goesOn
  {
    hide Terms, Try, Check;
    TermsFrom(w, st, domain, d, rest, redirect, explained, fallback);
    TryHostTerm(w, st, domain, d, redirect, explained);
  }

  /** A target that cannot be expanded is an error. */
  lemma NotExpanded(w: World, st: State, domain: Domain, d: Directive, rest: Policy,
      redirect: Option<string>, explained: bool, fallback: SpfResult)
    requires (d.term.Host? || d.term.Include?) && w.expand(domain, d.term.spec).None?
    ensures Terms(w, st, domain, [d] + rest, redirect, explained, fallback) == (PermError, st)
  {
    hide Terms, Check;
    TermsFrom(w, st, domain, d, rest, redirect, explained, fallback);
  }

  /** Section 5.2 of RFC 4408: what the result of an included policy makes of an include. */
  lemma IncludeDecides(w: World, st: State, domain: Domain, d: Directive, rest: Policy,
      redirect: Option<string>, explained: bool, fallback: SpfResult)
    requires d.term.Include? && w.expand(domain, d.term.spec).Some?
    ensures var r := Terms(w, st, domain, [d] + rest, redirect, explained, fallback);
            var (included, st1) := Check(w, st, w.expand(domain, d.term.spec).value, None);
            match included
            case Pass => r == (d.qualifier, st1)
            case Fail => r == Terms(w, st1, domain, rest, redirect, explained, Neutral)
            case SoftFail => r == Terms(w, st1, domain, rest, redirect, explained, Neutral)
            case Neutral => r == Terms(w, st1, domain, rest, redirect, explained, Neutral)
            case TempError => r == (TempError, st1)
            case PermError => r == (PermError, st1)
            case NoResult => r == (PermError, st1)
  {
    hide Terms, Check;
    TermsFrom(w, st, domain, d, rest, redirect, explained, fallback);
  }

  /** What the answer to the query for its policy makes of a domain that was not met before. */
  lemma PolicyFetched(w: World, st: State, domain: Domain)
    requires domain != "" && domain[0] != '[' && CString.Lower(domain) !in st.visited
    ensures var entered := st.(visited := st.visited + {CString.Lower(domain)}, fetched := st.fetched + [CString.Lower(domain)]);
            var r := Check(w, st, domain, None);
            && (CString.Lower(domain) !in w.zone ==> r == (Neutral, entered))
            && (CString.Lower(domain) in w.zone ==>
                  match w.zone[CString.Lower(domain)]
                  case NoTxt(true) => r == (TempError, entered)
                  case NoTxt(false) => r == (NoResult, entered)
                  case TxtRcode(ServerFailure) => r == (Neutral, entered)
                  case TxtRcode(NxDomain) => r == (Neutral, entered)
                  case TxtRcode(Errno) => r == (NoResult, entered)
                  case TxtRcode(NotImplemented) => r == (NoResult, entered)
                  case TxtRcode(OtherRcode) => r == (TempError, entered)
                  case Texts(header, policies) =>
                    var none := if header then Neutral else NoResult;
                    if policies == [] then r == (none, entered)
                    else if |policies| > 1 then r == (PermError, entered)
                    else r == Terms(w, entered, domain, policies[0], None, false, none))
  {
  }

  /** A given policy is evaluated without a query; what is no domain has no result. */
  lemma PolicyGiven(w: World, st: State, domain: Domain, policy: Policy)
    ensures (domain == "" || domain[0] == '[') ==>
              Check(w, st, domain, Some(policy)) == Check(w, st, domain, None) == (NoResult, st)
    ensures domain != "" && domain[0] != '[' && CString.Lower(domain) !in st.visited ==>
              Check(w, st, domain, Some(policy))
              == Terms(w, st.(visited := st.visited + {CString.Lower(domain)}), domain, policy, None, false, Neutral)
    ensures domain != "" && domain[0] != '[' && CString.Lower(domain) in st.visited ==>
              Check(w, st, domain, Some(policy)) == Check(w, st, domain, None) == (Neutral, st.(revisited := true))
  {
  }

  // ---------- Over every evaluation ----------

  predicate Distinct(s: seq<Domain>) {
    forall i, j :: 0 <= i < j < |s| ==> s[i] != s[j]
  }

  /** No policy was asked for twice, and no more than ten host lookups were made. */
  predicate Sound(st: State) {
    && Distinct(st.fetched) && (forall i :: 0 <= i < |st.fetched| ==> st.fetched[i] in st.visited)
    && st.lookups <= st.count && st.lookups <= MAX_DNS_MECHANISMS
  }

  lemma HostTermKeeps(w: World, st: State, domain: Domain, qualifier: SpfResult, term: Term)
    requires term.Host? && Sound(st)
    ensures Sound(HostTerm(w, st, domain, qualifier, term).1)
  {
  }

  lemma {:induction false} CheckKeeps(w: World, st: State, domain: Domain, alt: Option<Policy>)
    requires Sound(st)
    ensures Sound(Check(w, st, domain, alt).1)
    decreases w.zone.Keys - st.visited, if alt.Some? then 1 else 0, 0
  {
    if !NotADomain(domain) && CString.Lower(domain) !in st.visited {
      var st1 := st.(visited := st.visited + {CString.Lower(domain)});
      match alt {
        case Some(policy) =>
          TermsKeep(w, st1, domain, policy, None, false, Neutral);
        case None =>
          var st2 := st1.(fetched := st1.fetched + [CString.Lower(domain)]);
          match Fetch(w.Txt(domain)) {
            case Settled(_) =>
            case Evaluate(policy, fallback) => TermsKeep(w, st2, domain, policy, None, false, fallback);
          }
      }
    }
  }

  lemma {:induction false} TermsKeep(w: World, st: State, domain: Domain, policy: Policy,
      redirect: Option<string>, explained: bool, fallback: SpfResult)
    requires Sound(st)
    ensures Sound(Terms(w, st, domain, policy, redirect, explained, fallback).1)
    decreases w.zone.Keys - st.visited, 0, |policy| + 2
  {
    if policy == [] {
      if redirect.Some? && w.expand(domain, redirect.value).Some? {
        CheckKeeps(w, st, w.expand(domain, redirect.value).value, None);
      }
    } else {
      var d := policy[0];
      TryKeeps(w, st, domain, d, redirect, explained);
      TermsKeep(w, Try(w, st, domain, d, redirect, explained).1, domain, policy[1..],
        NextRedirect(redirect, d), explained || d.term.Exp?, Neutral);
    }
  }

  lemma TryKeeps(w: World, st: State, domain: Domain, d: Directive, redirect: Option<string>, explained: bool)
    requires Sound(st)
    ensures Sound(Try(w, st, domain, d, redirect, explained).1)
    decreases w.zone.Keys - st.visited, 0, 1
  {
    if d.term.Host? {
      HostTermKeeps(w, st, domain, d.qualifier, d.term);
    } else if d.term.Include? && w.expand(domain, d.term.spec).Some? {
      CheckKeeps(w, st, w.expand(domain, d.term.spec).value, None);
    }
  }

  /** Once the limit is passed the whole evaluation is a PermError, and nothing more is counted. */
  predicate Limited(st: State, r: (SpfResult, State)) {
    st.count <= MAX_DNS_MECHANISMS ==>
      r.1.count <= MAX_DNS_MECHANISMS + 1 && (r.1.count > MAX_DNS_MECHANISMS ==> r.0 == PermError)
  }

  lemma {:induction false} CheckIsLimited(w: World, st: State, domain: Domain, alt: Option<Policy>)
    ensures Limited(st, Check(w, st, domain, alt))
    decreases w.zone.Keys - st.visited, if alt.Some? then 1 else 0, 0
  {
    if !NotADomain(domain) && CString.Lower(domain) !in st.visited {
      var st1 := st.(visited := st.visited + {CString.Lower(domain)});
      match alt {
        case Some(policy) =>
          TermsAreLimited(w, st1, domain, policy, None, false, Neutral);
        case None =>
          var st2 := st1.(fetched := st1.fetched + [CString.Lower(domain)]);
          match Fetch(w.Txt(domain)) {
            case Settled(_) =>
            case Evaluate(policy, fallback) => TermsAreLimited(w, st2, domain, policy, None, false, fallback);
          }
      }
    }
  }

  lemma {:induction false} TermsAreLimited(w: World, st: State, domain: Domain, policy: Policy,
      redirect: Option<string>, explained: bool, fallback: SpfResult)
    ensures Limited(st, Terms(w, st, domain, policy, redirect, explained, fallback))
    decreases w.zone.Keys - st.visited, 0, |policy| + 2
  {
    if policy == [] {
      if redirect.Some? && w.expand(domain, redirect.value).Some? {
        CheckIsLimited(w, st, w.expand(domain, redirect.value).value, None);
      }
    } else {
      var d := policy[0];
      TryIsLimited(w, st, domain, d, redirect, explained);
      TermsAreLimited(w, Try(w, st, domain, d, redirect, explained).1, domain, policy[1..],
        NextRedirect(redirect, d), explained || d.term.Exp?, Neutral);
    }
  }

  lemma TryIsLimited(w: World, st: State, domain: Domain, d: Directive, redirect: Option<string>, explained: bool)
    ensures var (decision, st1) := Try(w, st, domain, d, redirect, explained);
            st.count <= MAX_DNS_MECHANISMS ==>
              && st1.count <= MAX_DNS_MECHANISMS + 1
              && (st1.count > MAX_DNS_MECHANISMS ==> decision == Decide(PermError))
    decreases w.zone.Keys - st.visited, 0, 1
  {
    if d.term.Include? && w.expand(domain, d.term.spec).Some? {
      CheckIsLimited(w, st, w.expand(domain, d.term.spec).value, None);
    }
  }

  // ---------- Without shared state ----------

  /**
   The leftmost matching term decides, with every include: and redirect= evaluated
   afresh: the only memory is the chain of domains being evaluated, which a domain
   cannot join twice. What an answer without a policy means is as in the code, and not
   as in section 6.1 of RFC 4408, where a redirect to such a domain is a PermError.
   */
  function Plain(w: World, path: set<Domain>, domain: Domain, alt: Option<Policy>): SpfResult
    decreases w.zone.Keys - path, if alt.Some? then 1 else 0, 0
  {
    if NotADomain(domain) then NoResult
    else if CString.Lower(domain) in path then PermError
    else
      var inner := path + {CString.Lower(domain)};
      match alt
      case Some(policy) => PlainTerms(w, inner, domain, policy, None, false, Neutral)
      case None =>
        match Fetch(w.Txt(domain))
        case Settled(result) => result
        case Evaluate(policy, fallback) => PlainTerms(w, inner, domain, policy, None, false, fallback)
  }

  function PlainTerms(w: World, path: set<Domain>, domain: Domain, policy: Policy,
      redirect: Option<string>, explained: bool, fallback: SpfResult): SpfResult
    decreases w.zone.Keys - path, 0, |policy| + 2
  {
    if policy == [] then
      if redirect.None? then fallback
      else if w.expand(domain, redirect.value).None? then PermError
      else Plain(w, path, w.expand(domain, redirect.value).value, None)
    else
      var d := policy[0];
      match PlainTry(w, path, domain, d, redirect, explained)
      case Decide(r) => r
      case Skip => PlainTerms(w, path, domain, policy[1..], NextRedirect(redirect, d), explained || d.term.Exp?, Neutral)
  }

  function PlainTry(w: World, path: set<Domain>, domain: Domain, d: Directive, redirect: Option<string>, explained: bool):
    Decision
    decreases w.zone.Keys - path, 0, 1
  {
    match d.term
    case All => Decide(d.qualifier)
    case Host(kind, spec, cidrOk) =>
      (match w.expand(domain, spec)
       case None => Decide(PermError)
       case Some(target) =>
         if kind in {A, Mx} && !cidrOk then Decide(PermError)
         else OnAnswer(w, kind, d.qualifier, w.host(kind, target)).0)
    case Ip(ip) => IpDecision(d.qualifier, ip)
    case Include(spec) =>
      (match w.expand(domain, spec)
       case None => Decide(PermError)
       case Some(target) => IncludeDecision(d.qualifier, Plain(w, path, target, None)))
    case Redirect(_) => if redirect.Some? then Decide(PermError) else Skip
    case Exp => if explained then Decide(PermError) else Skip
    case Other => Skip
  }

  /** Nothing that was shared has had an effect: no domain met again, the limit not passed, no error deferred. */
  predicate Unshared(st: State) {
    !st.revisited && st.count <= MAX_DNS_MECHANISMS && !st.temp
  }

  /** Then the evaluation is the one without shared state. */
  lemma {:induction false} CheckIsPlain(w: World, st: State, path: set<Domain>, domain: Domain, alt: Option<Policy>)
    requires path <= st.visited && Unshared(Check(w, st, domain, alt).1)
    ensures Check(w, st, domain, alt).0 == Plain(w, path, domain, alt)
    decreases w.zone.Keys - st.visited, if alt.Some? then 1 else 0, 0
  {
    if !NotADomain(domain) {
      var st1 := st.(visited := st.visited + {CString.Lower(domain)});
      var inner := path + {CString.Lower(domain)};
      match alt {
        case Some(policy) =>
          TermsArePlain(w, st1, inner, domain, policy, None, false, Neutral);
        case None =>
          var st2 := st1.(fetched := st1.fetched + [CString.Lower(domain)]);
          match Fetch(w.Txt(domain)) {
            case Settled(_) =>
            case Evaluate(policy, fallback) => TermsArePlain(w, st2, inner, domain, policy, None, false, fallback);
          }
      }
    }
  }

  lemma {:induction false} TermsArePlain(w: World, st: State, path: set<Domain>, domain: Domain, policy: Policy,
      redirect: Option<string>, explained: bool, fallback: SpfResult)
    requires path <= st.visited && Unshared(Terms(w, st, domain, policy, redirect, explained, fallback).1)
    ensures Terms(w, st, domain, policy, redirect, explained, fallback).0
      == PlainTerms(w, path, domain, policy, redirect, explained, fallback)
    decreases w.zone.Keys - st.visited, 0, |policy| + 2
  {
    if policy == [] {
      if redirect.Some? && w.expand(domain, redirect.value).Some? {
        CheckIsPlain(w, st, path, w.expand(domain, redirect.value).value, None);
      }
    } else {
      var d := policy[0];
      TryIsPlain(w, st, path, domain, d, redirect, explained);
      var (decision, st1) := Try(w, st, domain, d, redirect, explained);
      if decision.Skip? {
        TermsArePlain(w, st1, path, domain, policy[1..], NextRedirect(redirect, d), explained || d.term.Exp?, Neutral);
      }
    }
  }

  lemma TryIsPlain(w: World, st: State, path: set<Domain>, domain: Domain, d: Directive,
      redirect: Option<string>, explained: bool)
    requires path <= st.visited && Unshared(Try(w, st, domain, d, redirect, explained).1)
    ensures Try(w, st, domain, d, redirect, explained).0 == PlainTry(w, path, domain, d, redirect, explained)
    decreases w.zone.Keys - st.visited, 0, 1
  {
    if d.term.Include? && w.expand(domain, d.term.spec).Some? {
      CheckIsPlain(w, st, path, w.expand(domain, d.term.spec).value, None);
    }
  }

  // ---------- Zones whose evaluation shares nothing ----------

  /** The domains that an evaluation may reach, and the host lookups it may make, in order. */
  datatype Expansion = Expansion(domains: seq<Domain>, hosts: seq<(HostKind, Domain)>)

  const NOTHING := Expansion([], [])

  function Both(a: Expansion, b: Expansion): Expansion {
    Expansion(a.domains + b.domains, a.hosts + b.hosts)
  }

  /** Every include: and redirect= taken, except back to a domain that is being expanded. */
  function Expand(w: World, path: set<Domain>, domain: Domain, alt: Option<Policy>): Expansion
    decreases w.zone.Keys - path, if alt.Some? then 1 else 0, 0
  {
    if NotADomain(domain) then NOTHING
    else
      var own := Expansion([CString.Lower(domain)], []);
      var inner := path + {CString.Lower(domain)};
      if CString.Lower(domain) in path then own
      else match alt
           case Some(policy) => Both(own, ExpandTerms(w, inner, domain, policy, None))
           case None =>
             match Fetch(w.Txt(domain))
             case Settled(_) => own
             case Evaluate(policy, _) => Both(own, ExpandTerms(w, inner, domain, policy, None))
  }

  /** The terms up to all, which nothing is evaluated after, and else the redirect. */
  function ExpandTerms(w: World, path: set<Domain>, domain: Domain, policy: Policy, redirect: Option<string>): Expansion
    decreases w.zone.Keys - path, 0, |policy| + 2
  {
    if policy == [] then
      if redirect.None? || w.expand(domain, redirect.value).None? then NOTHING
      else Expand(w, path, w.expand(domain, redirect.value).value, None)
    else if policy[0].term.All? then NOTHING
    else
      Both(ExpandTerm(w, path, domain, policy[0]),
           ExpandTerms(w, path, domain, policy[1..], NextRedirect(redirect, policy[0])))
  }

  function ExpandTerm(w: World, path: set<Domain>, domain: Domain, d: Directive): Expansion
    decreases w.zone.Keys - path, 0, 1
  {
    match d.term
    case Host(kind, spec, _) =>
      (match w.expand(domain, spec)
       case None => NOTHING
       case Some(target) => Expansion([], [(kind, target)]))
    case Include(spec) =>
      (match w.expand(domain, spec)
       case None => NOTHING
       case Some(target) => Expand(w, path, target, None))
    case _ => NOTHING
  }

  predicate Answered(w: World, hosts: seq<(HostKind, Domain)>) {
    forall i :: 0 <= i < |hosts| ==> w.tempErrorDns || w.host(hosts[i].0, hosts[i].1) != BadRcode
  }

  predicate NoneOf(domains: seq<Domain>, visited: set<Domain>) {
    forall i :: 0 <= i < |domains| ==> domains[i] !in visited
  }

  /** A state after an evaluation that met only the domains of the expansion, and none twice. */
  predicate Stays(w: World, st: State, st': State, e: Expansion) {
    && st'.revisited == st.revisited
    && (forall d :: d in st'.visited ==> d in st.visited || d in e.domains)
    && st'.count <= st.count + |e.hosts|
    && (Answered(w, e.hosts) ==> st'.temp == st.temp)
  }

  lemma StaysOn(w: World, st: State, st1: State, st2: State, a: Expansion, b: Expansion)
    requires Stays(w, st, st1, a) && Stays(w, st1, st2, b)
    ensures Stays(w, st, st2, Both(a, b))
  {
    var hosts := a.hosts + b.hosts;
    if Answered(w, hosts) {
      forall i | 0 <= i < |a.hosts| ensures a.hosts[i] == hosts[i] {
      }
      forall i | 0 <= i < |b.hosts| ensures b.hosts[i] == hosts[|a.hosts| + i] {
      }
    }
  }

  /** An evaluation that decides early met no more than the expansion. */
  lemma StaysWithin(w: World, st: State, st': State, a: Expansion, b: Expansion)
    requires Stays(w, st, st', a)
    ensures Stays(w, st, st', Both(a, b))
  {
    var hosts := a.hosts + b.hosts;
    if Answered(w, hosts) {
      forall i | 0 <= i < |a.hosts| ensures a.hosts[i] == hosts[i] {
      }
    }
  }

  lemma DistinctParts(a: seq<Domain>, b: seq<Domain>)
    requires Distinct(a + b)
    ensures Distinct(a) && Distinct(b)
    ensures forall i :: 0 <= i < |b| ==> b[i] !in a
  {
    forall i | 0 <= i < |a| ensures a[i] == (a + b)[i] {
    }
    forall i | 0 <= i < |b| ensures b[i] == (a + b)[|a| + i] {
    }
  }

  lemma NoneOfParts(a: seq<Domain>, b: seq<Domain>, visited: set<Domain>)
    requires NoneOf(a + b, visited)
    ensures NoneOf(a, visited) && NoneOf(b, visited)
  {
    forall i | 0 <= i < |a| ensures a[i] == (a + b)[i] {
    }
    forall i | 0 <= i < |b| ensures b[i] == (a + b)[|a| + i] {
    }
  }

  /** What an evaluation needs of its expansion: no domain twice, and none that was visited. */
  predicate Fresh(e: Expansion, visited: set<Domain>) {
    Distinct(e.domains) && NoneOf(e.domains, visited)
  }

  lemma FreshParts(a: Expansion, b: Expansion, visited: set<Domain>)
    requires Fresh(Both(a, b), visited)
    ensures Fresh(a, visited) && Fresh(b, visited)
  {
    DistinctParts(a.domains, b.domains);
    NoneOfParts(a.domains, b.domains, visited);
  }

  lemma FreshAfter(w: World, st: State, st1: State, a: Expansion, b: Expansion)
    requires Fresh(Both(a, b), st.visited) && Stays(w, st, st1, a)
    ensures Fresh(b, st1.visited)
  {
    DistinctParts(a.domains, b.domains);
    NoneOfParts(a.domains, b.domains, st.visited);
  }

  lemma {:induction false} CheckStays(w: World, st: State, path: set<Domain>, domain: Domain, alt: Option<Policy>)
    requires path <= st.visited && Fresh(Expand(w, path, domain, alt), st.visited)
    ensures Stays(w, st, Check(w, st, domain, alt).1, Expand(w, path, domain, alt))
    decreases w.zone.Keys - path, if alt.Some? then 1 else 0, 0
  {
    hide Stays, Fresh;
    if NotADomain(domain) {
      StaysPut(w, st);
    } else {
      var own := Expansion([CString.Lower(domain)], []);
      var inner := path + {CString.Lower(domain)};
      OwnIsFresh(w, st, path, domain, alt);
      var st1 := st.(visited := st.visited + {CString.Lower(domain)});
      match alt {
        case Some(policy) =>
          Entered(w, st, st1, domain);
          FreshAfter(w, st, st1, own, ExpandTerms(w, inner, domain, policy, None));
          TermsStay(w, st1, inner, domain, policy, None, false, Neutral);
          StaysOn(w, st, st1, Check(w, st, domain, alt).1, own, ExpandTerms(w, inner, domain, policy, None));
        case None =>
          var st2 := st1.(fetched := st1.fetched + [CString.Lower(domain)]);
          Entered(w, st, st2, domain);
          match Fetch(w.Txt(domain)) {
            case Settled(_) =>
            case Evaluate(policy, fallback) =>
              FreshAfter(w, st, st2, own, ExpandTerms(w, inner, domain, policy, None));
              TermsStay(w, st2, inner, domain, policy, None, false, fallback);
              StaysOn(w, st, st2, Check(w, st, domain, alt).1, own, ExpandTerms(w, inner, domain, policy, None));
          }
      }
    }
  }

  lemma StaysPut(w: World, st: State)
    ensures Stays(w, st, st, NOTHING)
  {
  }

  lemma Entered(w: World, st: State, st1: State, domain: Domain)
    requires st1 == st.(visited := st.visited + {CString.Lower(domain)}, fetched := st1.fetched)
    ensures Stays(w, st, st1, Expansion([CString.Lower(domain)], []))
  {
  }

  lemma OwnIsFresh(w: World, st: State, path: set<Domain>, domain: Domain, alt: Option<Policy>)
    requires path <= st.visited && Fresh(Expand(w, path, domain, alt), st.visited) && !NotADomain(domain)
    ensures CString.Lower(domain) !in st.visited && CString.Lower(domain) !in path
  {
    assert Expand(w, path, domain, alt).domains[0] == CString.Lower(domain);
  }

  lemma {:induction false} TermsStay(w: World, st: State, path: set<Domain>, domain: Domain, policy: Policy,
      redirect: Option<string>, explained: bool, fallback: SpfResult)
    requires path <= st.visited && Fresh(ExpandTerms(w, path, domain, policy, redirect), st.visited)
    ensures Stays(w, st, Terms(w, st, domain, policy, redirect, explained, fallback).1,
                  ExpandTerms(w, path, domain, policy, redirect))
    decreases w.zone.Keys - path, 0, |policy| + 2
  {
    hide Stays, Fresh;
    StaysPut(w, st);
    if policy == [] {
      if redirect.Some? && w.expand(domain, redirect.value).Some? {
        CheckStays(w, st, path, w.expand(domain, redirect.value).value, None);
      }
    } else if !policy[0].term.All? {
      var d := policy[0];
      var a, b := ExpandTerm(w, path, domain, d), ExpandTerms(w, path, domain, policy[1..], NextRedirect(redirect, d));
      FreshParts(a, b, st.visited);
      TryStays(w, st, path, domain, d, redirect, explained);
      var (decision, st1) := Try(w, st, domain, d, redirect, explained);
      if decision.Decide? {
        StaysWithin(w, st, st1, a, b);
      } else {
        FreshAfter(w, st, st1, a, b);
        TermsStay(w, st1, path, domain, policy[1..], NextRedirect(redirect, d), explained || d.term.Exp?, Neutral);
        StaysOn(w, st, st1, Terms(w, st, domain, policy, redirect, explained, fallback).1, a, b);
      }
    }
  }

  lemma TryStays(w: World, st: State, path: set<Domain>, domain: Domain, d: Directive,
      redirect: Option<string>, explained: bool)
    requires path <= st.visited && Fresh(ExpandTerm(w, path, domain, d), st.visited)
    ensures Stays(w, st, Try(w, st, domain, d, redirect, explained).1, ExpandTerm(w, path, domain, d))
    decreases w.zone.Keys - path, 0, 1
  {
    if d.term.Host? {
      HostStays(w, st, domain, d.qualifier, d.term);
    } else if d.term.Include? && w.expand(domain, d.term.spec).Some? {
      CheckStays(w, st, path, w.expand(domain, d.term.spec).value, None);
    }
  }

  lemma HostStays(w: World, st: State, domain: Domain, qualifier: SpfResult, term: Term)
    requires term.Host?
    ensures var target := w.expand(domain, term.spec);
            Stays(w, st, HostTerm(w, st, domain, qualifier, term).1,
                  if target.None? then NOTHING else Expansion([], [(term.kind, target.value)]))
  {
    var target := w.expand(domain, term.spec);
    if target.Some? {
      var hosts := [(term.kind, target.value)];
      assert Answered(w, hosts) ==> w.tempErrorDns || w.host(hosts[0].0, hosts[0].1) != BadRcode;
    }
  }

  /**
   What can be seen in the zone before an evaluation: no domain is reached twice, no
   more than ten hosts are looked up, and no lookup leaves a temporary error behind.
   */
  predicate SharesNothing(w: World, domain: Domain, alt: Option<Policy>) {
    var e := Expand(w, {}, domain, alt);
    Distinct(e.domains) && |e.hosts| <= MAX_DNS_MECHANISMS && Answered(w, e.hosts)
  }

  /** On such a zone the evaluation is the one without shared state. */
  lemma ZoneIsPlain(w: World, domain: Domain, alt: Option<Policy>)
    requires SharesNothing(w, domain, alt)
    ensures Check(w, State({}, 0, false, [], 0, false), domain, alt).0 == Plain(w, {}, domain, alt)
    ensures Unshared(Check(w, State({}, 0, false, [], 0, false), domain, alt).1)
  {
    var st := State({}, 0, false, [], 0, false);
    CheckStays(w, st, {}, domain, alt);
    CheckIsPlain(w, st, {}, domain, alt);
  }

  /**
   Meeting a domain again can matter: an included policy that ends in Fail is no
   match, but redirected to afterwards it is taken for Neutral and not for Fail.
   */
  lemma RevisitMatters(w: World)
    requires w.zone == map[
      "t" := Texts(true, [[Directive(Pass, Include("d")), Directive(Pass, Redirect("d"))]]),
      "d" := Texts(true, [[Directive(Fail, All)]])]
    requires w.expand("t", "d") == Some("d")
    ensures Check(w, State({}, 0, false, [], 0, false), "t", None).0 == Neutral
    ensures Plain(w, {}, "t", None) == Fail
  {
    var st := State({}, 0, false, [], 0, false);
    var inc, red, all := Directive(Pass, Include("d")), Directive(Pass, Redirect("d")), Directive(Fail, All);
    assert CString.Lower("t") == "t" && CString.Lower("d") == "d";
    assert [inc, red][1..] == [red] && [red][1..] == [];
    var st1 := State({"t"}, 0, false, ["t"], 0, false);
    var st2 := State({"t", "d"}, 0, false, ["t", "d"], 0, false);
    assert Terms(w, st2, "d", [all], None, false, Neutral) == (Fail, st2);
    assert {"t"} + {"d"} == {"t", "d"} && ["t"] + ["d"] == ["t", "d"];
    assert Check(w, st1, "d", None) == (Fail, st2);
    assert Terms(w, st2, "t", [], Some("d"), false, Neutral).0 == Neutral;
    assert Terms(w, st2, "t", [red], None, false, Neutral).0 == Neutral;
    assert PlainTerms(w, {"t", "d"}, "d", [all], None, false, Neutral) == Fail;
    assert {} + {"t"} == {"t"} && [] + ["t"] == ["t"];
    assert Terms(w, st1, "t", [inc, red], None, false, Neutral).0 == Neutral;
    assert Plain(w, {"t"}, "d", None) == Fail;
    assert PlainTerms(w, {"t"}, "t", [], Some("d"), false, Neutral) == Fail;
    assert PlainTerms(w, {"t"}, "t", [red], None, false, Neutral) == Fail;
    assert PlainTerms(w, {"t"}, "t", [inc, red], None, false, Neutral) == Fail;
  }

  // ---------- The code ----------

  class SpfContext {
    const w: World
    var result: SpfResult
    var tempError: bool
    var mechanismCount: nat
    var circular: seq<Domain>
    ghost var fetched: seq<Domain>
    ghost var lookups: nat
    ghost var revisited: bool

    constructor (w: World)
      ensures this.w == w && result == PermError
      ensures Shared() == State({}, 0, false, [], 0, false)
    {
      this.w := w;
      result, tempError, mechanismCount, circular := PermError, false, 0, [];
      fetched, lookups, revisited := [], 0, false;
    }

    ghost function Shared(): State
      reads this
    {
      State(set i | 0 <= i < |circular| :: CString.Lower(circular[i]), mechanismCount, tempError, fetched, lookups, revisited)
    }

    /** spfIsCircularReference: true if the domain was visited, otherwise it now is. */
    method IsCircularReference(domain: Domain) returns (seen: bool)
      modifies `circular
      ensures seen <==> CString.Lower(domain) in old(Shared()).visited
      ensures seen ==> Shared() == old(Shared())
      ensures !seen ==> Shared() == old(Shared()).(visited := old(Shared()).visited + {CString.Lower(domain)})
    {
      var i := 0;
      while i < |circular|
        invariant 0 <= i <= |circular| && circular == old(circular)
        invariant forall k :: 0 <= k < i ==> CString.Lower(circular[k]) != CString.Lower(domain)
      {
        if CString.Lower(circular[i]) == CString.Lower(domain) {
          return true;
        }
        i := i + 1;
      }
      circular := circular + [domain];
      ghost var was := old(Shared()).visited;
      assert Shared().visited == was + {CString.Lower(domain)} by {
        forall d ensures d in Shared().visited <==> d in was + {CString.Lower(domain)} {
          if d in was {
            var k :| 0 <= k < |old(circular)| && CString.Lower(old(circular)[k]) == d;
            assert CString.Lower(circular[k]) == d;
          }
          if d == CString.Lower(domain) {
            assert CString.Lower(circular[|circular| - 1]) == d;
          }
        }
      }
      return false;
    }

    /** One of the a, mx, ptr and exists mechanisms. */
    method TryHost(domain: Domain, qualifier: SpfResult, term: Term) returns (d: Decision)
      requires term.Host?
      modifies `tempError, `mechanismCount, `lookups
      ensures (d, Shared()) == HostTerm(w, old(Shared()), domain, qualifier, term)
    {
      var target := w.expand(domain, term.spec);
      if target.None? {
        return Decide(PermError);
      }
      var limit := MAX_DNS_MECHANISMS <= mechanismCount;
      mechanismCount := mechanismCount + 1;
      if limit {
        return Decide(PermError);
      }
      if term.kind in {A, Mx} && !term.cidrOk {
        return Decide(PermError);
      }
      lookups := lookups + 1;
      var answer := w.host(term.kind, target.value);
      match answer {
        case NoList(errnoSet) =>
          if term.kind == Exists || (term.kind == Mx && !errnoSet) {
            return Skip;
          }
          return Decide(TempError);
        case Undefined => return Skip;
        case BadRcode =>
          if !w.tempErrorDns {
            tempError := true;
            return Skip;
          }
          return Decide(TempError);
        case Records(holds) =>
          return if holds || term.kind == Exists then Decide(qualifier) else Skip;
      }
    }

    method SpfCheck(domain: Domain, alt: Option<Policy>)
      modifies this
      ensures (result, Shared()) == Check(w, old(Shared()), domain, alt)
      decreases w.zone.Keys - Shared().visited, if alt.Some? then 1 else 0, -1
    {
      if NotADomain(domain) {
        result := NoResult;
        return;
      }
      var seen := IsCircularReference(domain);
      if seen {
        revisited := true;
        result := Neutral;
        return;
      }
      match alt {
        case Some(policy) =>
          CheckTerms(domain, policy, Neutral);
        case None =>
          fetched := fetched + [CString.Lower(domain)];
          match Fetch(w.Txt(domain)) {
            case Settled(r) => result := r;
            case Evaluate(policy, fallback) => CheckTerms(domain, policy, fallback);
          }
      }
    }

    /** One term; a redirect= or exp= that is not the first is an error. */
    method TryTerm(domain: Domain, d: Directive, redirect: Option<string>, explain: bool) returns (decision: Decision)
      modifies this
      ensures (decision, Shared()) == Try(w, old(Shared()), domain, d, redirect, explain)
      decreases w.zone.Keys - Shared().visited, 0, 1
    {
      match d.term {
        case All =>
          return Decide(if tempError then TempError else d.qualifier);
        case Host(_, _, _) =>
          decision := TryHost(domain, d.qualifier, d.term);
        case Ip(ip) =>
          return IpDecision(d.qualifier, ip);
        case Include(spec) =>
          var target := w.expand(domain, spec);
          if target.None? {
            return Decide(PermError);
          }
          SpfCheck(target.value, None);
          return IncludeDecision(d.qualifier, result);
        case Redirect(_) =>
          return if redirect.Some? then Decide(PermError) else Skip;
        case Exp =>
          return if explain then Decide(PermError) else Skip;
        case Other =>
          return Skip;
      }
    }

    /** The loop over the terms of a policy, and the redirect after it. */
    method CheckTerms(domain: Domain, policy: Policy, fallback: SpfResult)
      modifies this
      ensures (result, Shared()) == Terms(w, old(Shared()), domain, policy, None, false, fallback)
      decreases w.zone.Keys - Shared().visited, 0, |policy| + 2
    {
      var qualifier := fallback;
      var redirect: Option<string> := None;
      var explain := false;
      var i := 0;
      ghost var whole := Terms(w, Shared(), domain, policy, None, false, fallback);
      assert policy[0..] == policy;
      while i < |policy|
        invariant 0 <= i <= |policy| && Grows(old(Shared()), Shared())
        invariant whole == Terms(w, Shared(), domain, policy[i..], redirect, explain, qualifier)
        decreases |policy| - i
      {
        var d := policy[i];
        assert policy[i..][0] == d && policy[i..][1..] == policy[i + 1..];
        var decision := TryTerm(domain, d, redirect, explain);
        if decision.Decide? {
          result := decision.result;
          return;
        }
        if d.term.Redirect? {
          redirect := Some(d.term.spec);
        } else if d.term.Exp? {
          explain := true;
        }
        i, qualifier := i + 1, Neutral;
      }
      assert policy[i..] == [];
      FollowRedirect(domain, redirect, explain, qualifier);
    }

    /** What is left to do when no term has decided. */
    method FollowRedirect(domain: Domain, redirect: Option<string>, ghost explain: bool, qualifier: SpfResult)
      modifies this
      ensures (result, Shared()) == Terms(w, old(Shared()), domain, [], redirect, explain, qualifier)
      decreases w.zone.Keys - Shared().visited, 0, 0
    {
      if redirect.None? {
        result := qualifier;
        return;
      }
      var target := w.expand(domain, redirect.value);
      if target.None? {
        result := PermError;
      } else {
        SpfCheck(target.value, None);
      }
    }
  }

  /**
   A whole evaluation makes at most ten host lookups and asks for no policy twice; on
   a zone where nothing is shared, its result is that of leftmost-match evaluation.
   */
  lemma FreshCheck(w: World, domain: Domain, alt: Option<Policy>)
    ensures var (r, st) := Check(w, State({}, 0, false, [], 0, false), domain, alt);
            && Sound(st) && st.lookups <= 10 && st.count <= 11
            && (st.count > 10 ==> r == PermError)
            && (SharesNothing(w, domain, alt) ==> r == Plain(w, {}, domain, alt))
  {
    var st0 := State({}, 0, false, [], 0, false);
    CheckKeeps(w, st0, domain, alt);
    CheckIsLimited(w, st0, domain, alt);
    if SharesNothing(w, domain, alt) {
      ZoneIsPlain(w, domain, alt);
    }
  }

  /** spfCheckHeloMailTxt: an evaluation from a fresh context. */
  method SpfCheckMail(w: World, domain: Domain, alt: Option<Policy>) returns (r: SpfResult)
    ensures r == Check(w, State({}, 0, false, [], 0, false), domain, alt).0
    ensures SharesNothing(w, domain, alt) ==> r == Plain(w, {}, domain, alt)
  {
    FreshCheck(w, domain, alt);
    var ctx := new SpfContext(w);
    ctx.SpfCheck(domain, alt);
    r := ctx.result;
  }
}
