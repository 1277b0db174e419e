/**
 The lookups of mail/smdb.c over the key buffer, against the list of keys they are
 to ask for: the answer is that of the first key the map does not miss.
 */
module Smdb {
  import opened CString
  import opened SmdbKeys
  import opened SmdbBuffer
  import opened Wrappers

  /** What the map says of a key. */
  datatype Fetch = Found(value: string) | NotFound | Error

  /** One key to ask for, and the tag to report if the map fails on it. */
  datatype Query = Query(key: string, tag: string)

  /** The result of a lookup, with what it passes back as the key and the value. */
  datatype Answer = Ok(key: string, value: string) | Missing | Failed(key: string, value: string)

  const INVALID := "invalid"
  const TEMPFAIL := "TEMPFAIL"

  // ---------- The answer of a list of queries ----------

  function Reply(q: Query, f: Fetch): (a: Answer)
    ensures a == Missing <==> f == NotFound
  {
    match f
    case Found(value) => Ok(q.key, value)
    case NotFound => Missing
    case Error => Failed(q.tag + INVALID, TEMPFAIL)
  }

  /** The answer to the first query that the map does not miss. */
  function First(fetch: string -> Fetch, queries: seq<Query>): Answer {
    if queries == [] then Missing
    else
      var a := Reply(queries[0], fetch(queries[0].key));
      if a != Missing then a else First(fetch, queries[1..])
  }

  /** The keys that are asked for: up to the first that the map does not miss. */
  function Asked(fetch: string -> Fetch, queries: seq<Query>): seq<string> {
    if queries == [] then []
    else [queries[0].key] + if fetch(queries[0].key) != NotFound then [] else Asked(fetch, queries[1..])
  }

  lemma {:induction false} FirstOfTwo(fetch: string -> Fetch, q: seq<Query>, r: seq<Query>)
    ensures First(fetch, q + r) == if First(fetch, q) != Missing then First(fetch, q) else First(fetch, r)
    ensures Asked(fetch, q + r) == Asked(fetch, q) + if First(fetch, q) != Missing then [] else Asked(fetch, r)
  {
    hide First, Asked, Reply;
    NothingAsked(fetch);
    if q == [] {
      assert q + r == r;
    } else {
      FirstOfTwo(fetch, q[1..], r);
      ReplyIs(q[0], fetch(q[0].key));
      assert q == [q[0]] + q[1..] && q + r == [q[0]] + (q[1..] + r);
      FirstFrom(fetch, q[0], q[1..]);
      FirstFrom(fetch, q[0], q[1..] + r);
      Regroup(q[0].key, Asked(fetch, q[1..]), Asked(fetch, r));
    }
  }

  lemma NothingAsked(fetch: string -> Fetch)
    ensures First(fetch, []) == Missing && Asked(fetch, []) == []
  {
  }

  lemma ReplyIs(q: Query, f: Fetch)
    ensures Reply(q, f) == Missing <==> f == NotFound
  {
  }

  lemma Regroup(k: string, s: seq<string>, t: seq<string>)
    ensures [k] + (s + t) == ([k] + s) + t && s + [] == s && [k] + [] + [] == [k] + []
  {
  }

  /**
   The answer is what the map says of the first query it does not miss: its key and the
   value found, or, where the map fails, its tag and a value that asks to try again.
   */
  ghost predicate AnswersFirst(fetch: string -> Fetch, queries: seq<Query>, answer: Answer, asked: seq<string>) {
    && ((forall j :: 0 <= j < |queries| ==> fetch(queries[j].key) == NotFound) ==>
          answer == Missing && |asked| == |queries|)
    && (forall k :: 0 <= k < |queries| && FirstNotMissed(fetch, queries, k) ==>
          && |asked| == k + 1
          && (fetch(queries[k].key).Found? ==> answer == Ok(queries[k].key, fetch(queries[k].key).value))
          && (fetch(queries[k].key).Error? ==> answer == Failed(queries[k].tag + "invalid", "TEMPFAIL")))
    && |asked| <= |queries| && forall j :: 0 <= j < |asked| ==> asked[j] == queries[j].key
  }

  ghost predicate FirstNotMissed(fetch: string -> Fetch, queries: seq<Query>, k: nat)
    requires k < |queries|
  {
    fetch(queries[k].key) != NotFound && forall j :: 0 <= j < k ==> fetch(queries[j].key) == NotFound
  }

  lemma {:induction false} FirstAnswers(fetch: string -> Fetch, queries: seq<Query>)
    ensures AnswersFirst(fetch, queries, First(fetch, queries), Asked(fetch, queries))
  {
    if queries != [] {
      var q, more := queries[0], queries[1..];
      FirstAnswers(fetch, more);
      if fetch(q.key) == NotFound {
        forall k | 0 <= k < |queries| && FirstNotMissed(fetch, queries, k) ensures k > 0 && FirstNotMissed(fetch, more, k - 1) {
          assert forall j :: 0 <= j < k - 1 ==> more[j] == queries[j + 1];
        }
        assert forall j :: 0 <= j < |more| ==> more[j] == queries[j + 1];
      }
    }
  }

  // ---------- The queries of a lookup ----------

  function Tagged(tag: string, keys: seq<string>): seq<Query> {
    if keys == [] then [] else [Query(Lower(tag) + keys[0], tag)] + Tagged(tag, keys[1..])
  }

  /** For each of the first keys in turn, all of the second ones. */
  function Product(tag1: string, keys1: seq<string>, tag2: string, keys2: seq<string>): seq<Query> {
    if keys1 == [] then []
    else Tagged(tag1 + keys1[0] + tag2, keys2) + Product(tag1, keys1[1..], tag2, keys2)
  }

  lemma {:induction false} TaggedAt(tag: string, keys: seq<string>, k: nat)
    requires k < |keys|
    ensures |Tagged(tag, keys)| == |keys| && Tagged(tag, keys)[k] == Query(Lower(tag) + keys[k], tag)
  {
    if k > 0 {
      TaggedAt(tag, keys[1..], k - 1);
    } else if |keys| > 1 {
      TaggedAt(tag, keys[1..], 0);
    }
  }

  /** The j-th of the second keys under the i-th of the first ones, which the tags are part of. */
  lemma {:induction false} ProductAt(tag1: string, keys1: seq<string>, tag2: string, keys2: seq<string>, i: nat, j: nat)
    requires i < |keys1| && j < |keys2|
    ensures |Product(tag1, keys1, tag2, keys2)| == |keys1| * |keys2|
    ensures i * |keys2| + j < |keys1| * |keys2|
    ensures var tag := tag1 + keys1[i] + tag2;
            Product(tag1, keys1, tag2, keys2)[i * |keys2| + j] == Query(Lower(tag) + keys2[j], tag)
    decreases |keys1|
  {
    hide Tagged;
    TaggedAt(tag1 + keys1[0] + tag2, keys2, j);
    if |keys1| > 1 {
      ProductAt(tag1, keys1[1..], tag2, keys2, if i > 0 then i - 1 else 0, j);
    }
    OneRowMore(|keys1|, |keys2|, i);
  }

  lemma OneRowMore(rows: nat, width: nat, i: nat)
    requires i < rows
    ensures rows * width == width + (rows - 1) * width
    ensures i > 0 ==> i * width == width + (i - 1) * width
    ensures i * width + width <= rows * width
  {
  }

  lemma {:induction false} ProductAppend(tag1: string, a: seq<string>, b: seq<string>, tag2: string, keys2: seq<string>)
    ensures Product(tag1, a + b, tag2, keys2) == Product(tag1, a, tag2, keys2) + Product(tag1, b, tag2, keys2)
  {
    hide Tagged;
    if a == [] {
      assert a + b == b;
    } else {
      assert (a + b)[1..] == a[1..] + b;
      ProductAppend(tag1, a[1..], b, tag2, keys2);
      var here := Tagged(tag1 + a[0] + tag2, keys2);
      assert here + (Product(tag1, a[1..], tag2, keys2) + Product(tag1, b, tag2, keys2))
             == here + Product(tag1, a[1..], tag2, keys2) + Product(tag1, b, tag2, keys2);
    }
  }

  function SingleQueries(how: Reduction, tag: string, key: string): seq<Query> {
    Tagged(tag, Lookup(how, key))
  }

  function DoubleQueries(how1: Reduction, tag1: string, key1: string, how2: Reduction, tag2: string, key2: string)
    : seq<Query>
  {
    Product(tag1, Keys(how1, State(key1, None)), tag2, Lookup(how2, key2))
  }

  lemma KeysFrom(how: Reduction, s: State)
    ensures Keys(how, s) == [s.key] + if Next(how, s).Some? then Keys(how, Next(how, s).value) else []
  {
  }

  lemma TaggedFrom(tag: string, key: string, keys: seq<string>)
    ensures Tagged(tag, [key] + keys) == [Query(Lower(tag) + key, tag)] + Tagged(tag, keys)
  {
    assert ([key] + keys)[1..] == keys;
  }

  lemma FirstFrom(fetch: string -> Fetch, q: Query, queries: seq<Query>)
    ensures First(fetch, [q] + queries)
            == if fetch(q.key) != NotFound then Reply(q, fetch(q.key)) else First(fetch, queries)
    ensures Asked(fetch, [q] + queries)
            == [q.key] + if fetch(q.key) != NotFound then [] else Asked(fetch, queries)
  {
    assert ([q] + queries)[1..] == queries;
  }

  /** The queries left when a lookup has come to state s, or none. */
  function Left(how: Reduction, tag: string, s: Option<State>): seq<Query> {
    if s.None? then [] else Tagged(tag, Keys(how, s.value))
  }

  function QueryOf(tag: string, s: State): Query {
    Query(Lower(tag) + s.key, tag)
  }

  lemma LeftFrom(fetch: string -> Fetch, how: Reduction, tag: string, s: State)
    ensures var q, more := QueryOf(tag, s), Left(how, tag, Next(how, s));
            var a := Reply(q, fetch(q.key));
            && First(fetch, Left(how, tag, Some(s))) == (if a != Missing then a else First(fetch, more))
            && Asked(fetch, Left(how, tag, Some(s))) == [q.key] + if a != Missing then [] else Asked(fetch, more)
  {
    KeysFrom(how, s);
    var next := Next(how, s);
    TaggedFrom(tag, s.key, if next.Some? then Keys(how, next.value) else []);
    FirstFrom(fetch, QueryOf(tag, s), Left(how, tag, next));
  }

  // ---------- singleKey ----------

  lemma NoNulFront(s: string, n: nat)
    requires NoNul(s) && n <= |s|
    ensures NoNul(s[..n]) && NoNul(Lower(s[..n]))
  {
  }

  /** Where the local part of key1 is to be cut: at the at-sign or the end, or at its last plus. */
  method AccountSpan(key1: string) returns (span: nat, qualified: bool)
    ensures span <= |key1| && key1[..span] == Undetailed(LocalPart(key1))
    ensures qualified <==> '@' in key1
    ensures qualified ==> span < |key1|
  {
    span := 0;
    var plusSign: nat := 0;
    while span < |key1| && key1[span] != '@'
      invariant span <= |key1| && '@' !in key1[..span]
      invariant plusSign == LastPlus(key1[..span])
    {
      assert key1[..span + 1][..span] == key1[..span];
      if key1[span] == '+' {
        plusSign := span;
      }
      span := span + 1;
    }
    qualified := span != |key1|;
    IndexIs(key1, '@', span);
    if !qualified {
      assert key1[..span] == key1;
    }
    if 0 < plusSign {
      assert key1[..span][..plusSign] == key1[..plusSign];
      span := plusSign;
    }
  }

  /** The buffer of a lookup, ready for its first key. */
  method Prepare(how: Reduction, tag1: string, key1: string) returns (k: KvmData)
    requires NoNul(tag1) && NoNul(key1) && (how == ByMail ==> 0 < |tag1| + |key1|)
    ensures fresh(k) && fresh(k.str) && k.Holds(Lower(tag1), Start(how, key1))
    ensures Ready(how, Lower(tag1), Start(how, key1))
  {
    hide KvmData.Holds, HasAt, StringAt, Lower, NoNul, Undetailed, LocalPart;
    StartReady(how, tag1, key1);
    k := new KvmData(2 * (|tag1| + |key1|) + 2);
    k.Join(tag1, key1);
    if how == ByMail {
      var span, qualified := AccountSpan(key1);
      NoNulFront(key1, span);
      if key1 != "" && !qualified {
        LowerFront(key1, span);
        k.MakeAccount(|tag1|, span, Lower(tag1), Lower(key1));
      } else {
        k.HideAccount(key1[..span], Lower(tag1), Lower(key1));
      }
    }
  }

  lemma StartReady(how: Reduction, tag: string, key: string)
    requires how == ByMail ==> 0 < |tag| + |key|
    ensures Ready(how, Lower(tag), Start(how, key))
  {
  }

  lemma LowerFront(s: string, n: nat)
    requires n <= |s|
    ensures Lower(s)[..n] == Lower(s[..n])
  {
  }

  /** One round of a lookup: what the map says of the key in the buffer. */
  method Ask(fetch: string -> Fetch, tag1: string, k: KvmData, ghost s: State) returns (answer: Answer, ghost key: string)
    requires k.Holds(Lower(tag1), s)
    modifies k.str
    ensures k.Holds(Lower(tag1), s)
    ensures key == QueryOf(tag1, s).key && answer == Reply(QueryOf(tag1, s), fetch(key))
  {
    k.Terminate(Lower(tag1), s);
    var data := k.Text(Lower(tag1), s);
    key := data;
    match fetch(data)
    case Error => answer := Failed(tag1 + INVALID, TEMPFAIL);
    case Found(value) => answer := Ok(data, value);
    case NotFound => answer := Missing;
  }

  /**
   Looks up key1 and what it reduces to until the map answers. asked are the keys
   that the map was asked for.
   */
  method SingleKey(fetch: string -> Fetch, tag1: string, key1: string, how: Reduction)
    returns (answer: Answer, ghost asked: seq<string>)
    requires NoNul(tag1) && NoNul(key1) && (how == ByMail ==> 0 < |tag1| + |key1|)
    ensures answer == First(fetch, SingleQueries(how, tag1, key1))
    ensures asked == Asked(fetch, SingleQueries(how, tag1, key1))
    ensures AnswersFirst(fetch, SingleQueries(how, tag1, key1), answer, asked)
  {
    hide AnswersFirst;
    FirstAnswers(fetch, SingleQueries(how, tag1, key1));
    hide First, Asked, Tagged, Keys, Start, Next, Lower, Left, Reply, QueryOf, Ready;
    var k := Prepare(how, tag1, key1);
    ghost var queries, s := SingleQueries(how, tag1, key1), Start(how, key1);
    ghost var left := Left(how, tag1, Some(s));
    Begins(how, tag1, key1);
    asked := [];
    answer := Missing;
    var more := true;
    while answer == Missing && more
      invariant fresh(k) && fresh(k.str)
      invariant answer == Missing ==> First(fetch, queries) == First(fetch, left)
      invariant answer == Missing ==> Asked(fetch, queries) == asked + Asked(fetch, left)
      invariant answer == Missing ==> left == Left(how, tag1, if more then Some(s) else None)
      invariant answer == Missing && more ==> k.Holds(Lower(tag1), s) && Ready(how, Lower(tag1), s)
      invariant answer != Missing ==> answer == First(fetch, queries) && asked == Asked(fetch, queries)
      decreases answer == Missing && more, s.hidden.Some?, |s.key|
    {
      LeftFrom(fetch, how, tag1, s);
      ghost var key;
      answer, key := Ask(fetch, tag1, k, s);
      Append(asked, key, Asked(fetch, Left(how, tag1, Next(how, s))));
      asked := asked + [key];
      if answer == Missing {
        left := Left(how, tag1, Next(how, s));
        StaysReady(how, Lower(tag1), s);
        more := k.Reduce(how, |tag1|, Lower(tag1), s);
        if more {
          s := Next(how, s).value;
        }
      }
    }
    NothingLeft(fetch, how, tag1);
  }

  lemma Begins(how: Reduction, tag: string, key: string)
    ensures Left(how, tag, Some(Start(how, key))) == SingleQueries(how, tag, key)
  {
  }

  lemma Append(s: seq<string>, x: string, t: seq<string>)
    ensures s + ([x] + t) == (s + [x]) + t && s + ([x] + []) == s + [x]
  {
  }

  lemma NothingLeft(fetch: string -> Fetch, how: Reduction, tag: string)
    ensures First(fetch, Left(how, tag, None)) == Missing && Asked(fetch, Left(how, tag, None)) == []
  {
  }

  lemma StaysReady(how: Reduction, tag: string, s: State)
    requires Ready(how, tag, s)
    ensures Next(how, s).Some? ==> Ready(how, tag, Next(how, s).value)
  {
  }

  // ---------- doubleKey ----------

  /** The queries left when the first key has come to key1, or none. */
  function DoubleLeft(how1: Reduction, tag1: string, s: Option<State>, tag2: string, keys2: seq<string>): seq<Query> {
    if s.None? then [] else Product(tag1, Keys(how1, s.value), tag2, keys2)
  }

  lemma ProductFrom(tag1: string, key1: string, keys1: seq<string>, tag2: string, keys2: seq<string>)
    ensures Product(tag1, [key1] + keys1, tag2, keys2)
            == Tagged(tag1 + key1 + tag2, keys2) + Product(tag1, keys1, tag2, keys2)
  {
    assert ([key1] + keys1)[1..] == keys1;
  }

  lemma DoubleLeftFrom(fetch: string -> Fetch, how1: Reduction, tag1: string, s: State, how2: Reduction, tag2: string,
                       key2: string)
    ensures var all := DoubleLeft(how1, tag1, Some(s), tag2, Lookup(how2, key2));
            var here := SingleQueries(how2, tag1 + s.key + tag2, key2);
            var more := DoubleLeft(how1, tag1, Next(how1, s), tag2, Lookup(how2, key2));
            && First(fetch, all) == (if First(fetch, here) != Missing then First(fetch, here) else First(fetch, more))
            && Asked(fetch, all) == Asked(fetch, here) + if First(fetch, here) != Missing then [] else Asked(fetch, more)
  {
    KeysFrom(how1, s);
    var next, keys2 := Next(how1, s), Lookup(how2, key2);
    ProductFrom(tag1, s.key, if next.Some? then Keys(how1, next.value) else [], tag2, keys2);
    FirstOfTwo(fetch, SingleQueries(how2, tag1 + s.key + tag2, key2), DoubleLeft(how1, tag1, next, tag2, keys2));
  }

  lemma NothingDouble(fetch: string -> Fetch, how1: Reduction, tag1: string, tag2: string, keys2: seq<string>)
    ensures First(fetch, DoubleLeft(how1, tag1, None, tag2, keys2)) == Missing
    ensures Asked(fetch, DoubleLeft(how1, tag1, None, tag2, keys2)) == []
  {
  }

  lemma Concat(a: seq<string>, b: seq<string>, c: seq<string>)
    ensures a + (b + c) == (a + b) + c && a + [] == a && b + [] == b
  {
  }

  lemma StaysBare(how: Reduction, s: State)
    requires how != ByMail && s.hidden == None
    ensures Next(how, s).Some? ==> Next(how, s).value.hidden == None
  {
  }

  /**
   Looks up key2 under key1 and what that reduces to, until the map answers. The
   reduced key1 and both tags share one buffer.
   */
  method DoubleKey(fetch: string -> Fetch, tag1: string, key1: string, how1: Reduction,
                   tag2: string, key2: string, how2: Reduction)
    returns (answer: Answer, ghost asked: seq<string>)
    requires NoNul(tag1) && NoNul(key1) && NoNul(tag2) && NoNul(key2)
    requires how1 != ByMail && (how2 == ByMail ==> 0 < |tag1| + |tag2| + |key2|)
    ensures answer == First(fetch, DoubleQueries(how1, tag1, key1, how2, tag2, key2))
    ensures asked == Asked(fetch, DoubleQueries(how1, tag1, key1, how2, tag2, key2))
    ensures AnswersFirst(fetch, DoubleQueries(how1, tag1, key1, how2, tag2, key2), answer, asked)
  {
    hide AnswersFirst;
    FirstAnswers(fetch, DoubleQueries(how1, tag1, key1, how2, tag2, key2));
    hide First, Asked, Product, Keys, Next, Lookup, DoubleLeft, SingleQueries, NoNul, KvmData.Holds, KvmData.Spells;
    hide KvmData.Spelled;
    var k := new KvmData(|tag1| + |key1| + |tag2| + 1);
    k.Concatenate(tag1, key1);
    ghost var s, queries := State(key1, None), DoubleQueries(how1, tag1, key1, how2, tag2, key2);
    ghost var left := DoubleLeft(how1, tag1, Some(s), tag2, Lookup(how2, key2));
    DoubleBegins(how1, tag1, key1, how2, tag2, key2);
    k.SpelledSize(tag1, key1);
    asked := [];
    answer := Missing;
    var more := true;
    while answer == Missing && more
      invariant fresh(k) && fresh(k.str)
      invariant answer == Missing ==> First(fetch, queries) == First(fetch, left)
      invariant answer == Missing ==> Asked(fetch, queries) == asked + Asked(fetch, left)
      invariant answer == Missing ==> left == DoubleLeft(how1, tag1, if more then Some(s) else None, tag2, Lookup(how2, key2))
      invariant answer == Missing && more ==> k.Spells(tag1, s.key) && s.hidden == None && k.data + k.size + |tag2| < k.str.Length
      invariant answer != Missing ==> answer == First(fetch, queries) && asked == Asked(fetch, queries)
      decreases answer == Missing && more, |s.key|
    {
      DoubleLeftFrom(fetch, how1, tag1, s, how2, tag2, key2);
      k.SpelledSize(tag1, s.key);
      var tag := k.AppendTag(tag2, tag1, s.key);
      ghost var here;
      answer, here := SingleKey(fetch, tag, key2, how2);
      ghost var rest := DoubleLeft(how1, tag1, Next(how1, s), tag2, Lookup(how2, key2));
      Concat(asked, here, Asked(fetch, rest));
      asked := asked + here;
      if answer == Missing {
        left := rest;
        StaysBare(how1, s);
        k.RemoveTag(|tag2|, tag1, s.key);
        more := k.Reduce(how1, |tag1|, tag1, s);
        if more {
          s := Next(how1, s).value;
          k.HoldsSpells(tag1, s);
        }
      }
    }
    NothingDouble(fetch, how1, tag1, tag2, Lookup(how2, key2));
  }

  lemma DoubleBegins(how1: Reduction, tag1: string, key1: string, how2: Reduction, tag2: string, key2: string)
    ensures DoubleLeft(how1, tag1, Some(State(key1, None)), tag2, Lookup(how2, key2))
            == DoubleQueries(how1, tag1, key1, how2, tag2, key2)
  {
  }

  // ---------- smdbMailMail ----------

  /** The index of the first plus or at-sign of s, or the length of s. */
  function AccountEnd(s: string): (n: nat)
    ensures n <= |s| && (n < |s| ==> s[n] == '+' || s[n] == '@')
    ensures forall i :: 0 <= i < n ==> s[i] != '+' && s[i] != '@'
  {
    if s == "" || s[0] == '+' || s[0] == '@' then 0 else 1 + AccountEnd(s[1..])
  }

  /**
   The first address as it is, then its domain and what that reduces to, then its
   account name in front of the first plus or at-sign: and under each of them the
   second address and what that reduces to.
   */
  function MailMailQueries(tag1: string, key1: string, tag2: string, key2: string): seq<Query> {
    SingleQueries(ByMail, tag1 + key1 + tag2, key2)
      + if '@' in key1 then
          DoubleQueries(ByDomain, tag1, key1[IndexOf(key1, '@') + 1..], ByMail, tag2, key2)
            + AccountQueries(tag1, key1, tag2, key2)
        else []
  }

  function AccountQueries(tag1: string, key1: string, tag2: string, key2: string): seq<Query> {
    SingleQueries(ByMail, tag1 + (key1[..AccountEnd(key1)] + "@") + tag2, key2)
  }

  lemma {:induction false} AccountEndIs(s: string, n: nat)
    requires n <= |s| && (n < |s| ==> s[n] == '+' || s[n] == '@')
    requires forall i :: 0 <= i < n ==> s[i] != '+' && s[i] != '@'
    ensures AccountEnd(s) == n
  {
    if 0 < n {
      AccountEndIs(s[1..], n - 1);
    }
  }

  predicate PlainDetail(local: string) {
    forall i :: 0 <= i < |local| && local[i] == '+' ==> 0 < i && i == LastPlus(local)
  }

  /**
   The account name that smdbMailMail looks up is the one that singleKey does just
   when the local part has at most one plus, and not at its front.
   */
  lemma AccountsAgreeIff(key: string)
    ensures key[..AccountEnd(key)] == Undetailed(LocalPart(key)) <==> PlainDetail(LocalPart(key))
  {
    var local, n := LocalPart(key), AccountEnd(key);
    assert |key[..n]| == n && n <= |local|;
    assert forall i :: 0 <= i < n ==> local[i] == key[i];
    if n < |local| {
      assert local[n] == '+';
      assert LastPlus(local) >= n;
    } else {
      assert key[..n] == local;
    }
  }

  /** Two plusses make them differ: a and a+b. */
  lemma AccountsDiffer()
    ensures "a+b+c@d"[..AccountEnd("a+b+c@d")] == "a"
    ensures Undetailed(LocalPart("a+b+c@d")) == "a+b"
  {
    var key := "a+b+c@d";
    AccountEndIs(key, 1);
    IndexIs(key, '@', 5);
    assert LocalPart(key) == "a+b+c";
    assert "a+b+c"[..4] == "a+b+" && "a+b+"[3] == '+';
    assert LastPlus("a+b+c") == LastPlus("a+b+") == 3;
  }

  lemma OneFirstKey(tag1: string, key1: string, tag2: string, keys2: seq<string>)
    ensures Product(tag1, [key1], tag2, keys2) == Tagged(tag1 + key1 + tag2, keys2)
  {
    assert [key1][1..] == [];
    assert Product(tag1, [], tag2, keys2) == [];
  }

  /**
   The first address, its domain and the parents of that, and its account name up to its
   first plus are combined with all that the second address is reduced to.
   */
  lemma MailMailOrder(tag1: string, local: string, domain: string, tag2: string, key2: string)
    requires '@' !in local && '@' !in domain
    ensures MailMailQueries(tag1, local + "@" + domain, tag2, key2)
         == Product(tag1, [local + "@" + domain, domain] + Parents(domain) + [local[..IndexOf(local, '+')] + "@"],
                    tag2, Lookup(ByMail, key2))
  {
    hide Product, Lookup, Parents, Tagged, Keys, IndexOf, AccountEnd;
    var key1, keys2 := local + "@" + domain, Lookup(ByMail, key2);
    IndexOfPast(local, domain, '@');
    assert key1[|local|] == '@';
    assert key1[|local| + 1..] == domain;
    var end := IndexOf(local, '+');
    AccountEndIs(key1, end) by { AccountInFront(local, domain); }
    assert key1[..end] == local[..end];
    DomainOrder(domain, None);
    var domains := [domain] + Parents(domain);
    OneFirstKey(tag1, key1, tag2, keys2);
    OneFirstKey(tag1, local[..end] + "@", tag2, keys2);
    ProductAppend(tag1, domains, [local[..end] + "@"], tag2, keys2);
    ProductAppend(tag1, [key1], domains + [local[..end] + "@"], tag2, keys2);
    assert [key1] + (domains + [local[..end] + "@"]) == [key1, domain] + Parents(domain) + [local[..end] + "@"];
  }

  lemma AccountInFront(local: string, domain: string)
    requires '@' !in local
    ensures var n, key := IndexOf(local, '+'), local + "@" + domain;
            && n <= |local| && (key[n] == '+' || key[n] == '@')
            && forall i :: 0 <= i < n ==> key[i] != '+' && key[i] != '@'
  {
    assert forall i :: 0 <= i < |local| ==> (local + "@" + domain)[i] == local[i] != '@';
  }

  /** A first key without an at-sign is not reduced. */
  lemma MailMailBare(tag1: string, key1: string, tag2: string, key2: string)
    requires '@' !in key1
    ensures MailMailQueries(tag1, key1, tag2, key2) == Product(tag1, [key1], tag2, Lookup(ByMail, key2))
  {
    OneFirstKey(tag1, key1, tag2, Lookup(ByMail, key2));
  }

  /** strcspn of a plus or an at-sign. */
  method Account(key: string) returns (span: nat)
    ensures span == AccountEnd(key)
  {
    span := 0;
    while span < |key| && key[span] != '+' && key[span] != '@'
      invariant span <= |key| && forall i :: 0 <= i < span ==> key[i] != '+' && key[i] != '@'
    {
      span := span + 1;
    }
    AccountEndIs(key, span);
  }

  method AtSign(key: string) returns (span: nat)
    ensures span == IndexOf(key, '@')
  {
    span := 0;
    while span < |key| && key[span] != '@'
      invariant span <= |key| && forall i :: 0 <= i < span ==> key[i] != '@'
    {
      span := span + 1;
    }
    IndexIs(key, '@', span);
  }

  method SmdbMailMail(fetch: string -> Fetch, tag1: string, key1: string, tag2: string, key2: string)
    returns (answer: Answer, ghost asked: seq<string>)
    requires NoNul(tag1) && NoNul(key1) && NoNul(tag2) && NoNul(key2) && 0 < |tag1| + |tag2| + |key2|
    ensures answer == First(fetch, MailMailQueries(tag1, key1, tag2, key2))
    ensures asked == Asked(fetch, MailMailQueries(tag1, key1, tag2, key2))
    ensures AnswersFirst(fetch, MailMailQueries(tag1, key1, tag2, key2), answer, asked)
  {
    hide AnswersFirst;
    hide First, Asked, SingleQueries, DoubleQueries, AccountQueries, KvmData.Spelled, KvmData.Spells, KvmData.Holds, NoNul, IndexOf;
    var k := new KvmData(|tag1| + |key1| + |tag2| + 1);
    k.Concatenate(tag1, key1);
    k.SpelledSize(tag1, key1);
    var whole := k.AppendTag(tag2, tag1, key1);
    answer, asked := SingleKey(fetch, whole, key2, ByMail);
    ghost var q := SingleQueries(ByMail, whole, key2);
    assert q + [] == q;
    var span := AtSign(key1);
    if answer == Missing && span < |key1| {
      ghost var more, rest;
      answer, more, rest := AfterWhole(fetch, k, tag1, key1, tag2, key2, span);
      FirstOfTwo(fetch, q, rest);
      asked := asked + more;
    } else if span < |key1| {
      FirstOfTwo(fetch, q, DoubleQueries(ByDomain, tag1, key1[span + 1..], ByMail, tag2, key2)
                             + AccountQueries(tag1, key1, tag2, key2));
      Concat(asked, [], []);
    }
    FirstAnswers(fetch, MailMailQueries(tag1, key1, tag2, key2));
  }

  /** The domain of the first address, and then its account name. */
  method AfterWhole(fetch: string -> Fetch, k: KvmData, tag1: string, key1: string, tag2: string, key2: string, span: nat)
    returns (answer: Answer, ghost asked: seq<string>, ghost queries: seq<Query>)
    requires NoNul(tag1) && NoNul(key1) && NoNul(tag2) && NoNul(key2) && 0 < |tag1| + |tag2| + |key2|
    requires span == IndexOf(key1, '@') < |key1|
    requires k.Spelled(tag1, key1) && k.data == 0 && k.str.Length == |tag1| + |key1| + |tag2| + 1
    modifies k.str
    ensures queries == DoubleQueries(ByDomain, tag1, key1[span + 1..], ByMail, tag2, key2)
                         + AccountQueries(tag1, key1, tag2, key2)
    ensures answer == First(fetch, queries) && asked == Asked(fetch, queries)
  {
    hide First, Asked, SingleQueries, DoubleQueries, KvmData.Spelled;
    ghost var domains := DoubleQueries(ByDomain, tag1, key1[span + 1..], ByMail, tag2, key2);
    FirstOfTwo(fetch, domains, AccountQueries(tag1, key1, tag2, key2));
    queries := domains + AccountQueries(tag1, key1, tag2, key2);
    answer, asked := DoubleKey(fetch, tag1, key1[span + 1..], ByDomain, tag2, key2, ByMail);
    if answer == Missing {
      var end := Account(key1);
      var account := k.AccountTag(|tag1|, end, tag2, tag1, key1);
      ghost var more;
      answer, more := SingleKey(fetch, account, key2, ByMail);
      asked := asked + more;
    } else {
      Concat(asked, [], []);
    }
  }
}
