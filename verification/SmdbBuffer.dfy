/**
 The key buffer of mail/smdb.c and the reductions that work in it: the tag is moved
 up over the part of the key that is dropped, and the account name waits behind the
 NUL until the domain is used up.
 */
module SmdbBuffer {
  import opened CString
  import opened SmdbKeys
  import opened Wrappers

  lemma NotHere(key: string, n: nat)
    requires NoDelimiterAfter(key, n) && (n < |key| ==> !IsIpDelimiter(key[n]))
    ensures NoDelimiterAfter(key, n - 1)
  {
  }

  class KvmData {
    const str: array<char>
    var data: nat
    var size: nat

    constructor (length: nat)
      ensures fresh(str) && str.Length == length && data == 0 && size == 0
    {
      str := new char[length](_ => '?');
      data, size := 0, 0;
    }

    /** The tag and the key, up to the size. */
    ghost predicate Spells(tag: string, key: string)
      reads this, str
    {
      && NoNul(tag) && NoNul(key) && size == |tag| + |key|
      && HasAt(str[..], data, tag) && HasAt(str[..], data + |tag|, key)
    }

    /** The tag and the key, the NUL after them, and the string hidden behind that. */
    ghost predicate Holds(tag: string, s: State)
      reads this, str
    {
      && NoNul(tag) && size == |tag| + |s.key|
      && HasAt(str[..], data, tag)
      && Behind(str[..], data + |tag|, s)
    }

    // ---------- The reductions ----------

    /** The tag and the key are there, whatever the size says. */
    ghost predicate Carries(tag: string, key: string)
      reads this`data, str
    {
      NoNul(tag) && HasAt(str[..], data, tag) && StringAt(str[..], data + |tag|, key)
    }

    lemma Parts(tag: string, s: State)
      requires Holds(tag, s)
      ensures Carries(tag, s.key) && size == |tag| + |s.key|
      ensures StringAt(str[..], data + |tag|, s.key)
    {
    }

    lemma HoldsSpells(tag: string, s: State)
      requires Holds(tag, s)
      ensures Spells(tag, s.key)
    {
    }

    lemma SpelledSize(tag: string, key: string)
      requires Spells(tag, key)
      ensures size == |tag| + |key|
    {
    }

    /** Cuts the key short at its n-th character. */
    method Cut(n: nat, ghost tag: string, ghost key: string)
      requires Carries(tag, key) && n <= |key| && size == |tag| + n
      modifies str
      ensures Holds(tag, State(key[..n], None))
    {
      CutAt(str[..], data + |tag|, key, n);
      FramePut(str[..], data + size, NUL, data, tag);
      Put(str, data + size, NUL);
    }

    method CharAt(n: nat, ghost tag: string, ghost key: string) returns (c: char)
      requires Carries(tag, key) && n <= |tag| + |key|
      ensures |tag| <= n ==> c == if n < |tag| + |key| then key[n - |tag|] else NUL
      ensures c == NUL ==> n == |tag| + |key|
    {
      if |tag| <= n {
        StringAtIndex(str[..], data + |tag|, key, n - |tag|);
      } else {
        HasAtIndex(str[..], data, tag, n);
      }
      c := str[data + n];
    }

    /** Cuts at the delimiter that the size has come back to, or before the colon in front of it. */
    method CutIp(prefix: nat, ghost tag: string, ghost key: string)
      requires Carries(tag, key) && prefix == |tag| && prefix + IpFrom(key) < size < prefix + |key|
      requires IpNext(key) == Some(key[..IpCut(key, size - prefix)])
      modifies this`size, str
      ensures Holds(tag, State(IpNext(key).value, None)) && size <= old(size)
    {
      hide Carries, Holds;
      var before := CharAt(size - 1, tag, key);
      if before == ':' {
        size := size - 1;
      }
      Cut(size - prefix, tag, key);
    }

    /** Brings the size back to the last delimiter past from, if there is one. */
    method ScanBack(prefix: nat, from: nat, ghost tag: string, ghost key: string) returns (found: bool)
      requires Carries(tag, key) && prefix == |tag| && prefix <= from && size == prefix + |key|
      modifies this`size
      ensures found ==> from < size < prefix + |key| && IsIpDelimiter(key[size - prefix])
      ensures NoDelimiterAfter(key, if found then size - prefix else from - prefix)
    {
      while from < size
        invariant size <= prefix + |key| && (from <= size || size == prefix + |key|)
        invariant NoDelimiterAfter(key, size - prefix)
        decreases size
      {
        var last := CharAt(size, tag, key);
        if last == '.' || last == ':' {
          return true;
        }
        NotHere(key, size - prefix);
        size := size - 1;
      }
      return false;
    }

    /** reduceIp. */
    method ReduceIp(prefix: nat, ghost tag: string, ghost key: string) returns (reduced: bool)
      requires Holds(tag, State(key, None)) && prefix == |tag|
      modifies this`size, str
      ensures reduced <==> IpNext(key).Some?
      ensures reduced ==> Holds(tag, State(IpNext(key).value, None)) && size <= old(size)
    {
      hide Holds, Carries, IpNext;
      Parts(tag, State(key, None));
      var from := prefix;
      var first := CharAt(prefix, tag, key);
      if first == 'i' {
        from := from + 5;
      }
      reduced := ScanBack(prefix, from, tag, key);
      if reduced {
        IpFound(key, size - prefix);
        CutIp(prefix, tag, key);
      } else {
        IpNotFound(key);
      }
    }

    /** Moves the tag up by n, over what is dropped. */
    method Slide(prefix: nat, n: nat, ghost tag: string)
      requires HasAt(str[..], data, tag) && prefix == |tag| && data + n + prefix <= str.Length
      modifies this`data, str
      ensures data == old(data) + n && HasAt(str[..], data, tag)
      ensures str[..][data + prefix..] == old(str[..])[data + prefix..]
    {
      Memmove(str, data + n, data, prefix);
      data := data + n;
      assert str[..][data..data + prefix] == str[data..data + prefix];
    }

    /** Drops the first n characters of the key. */
    method Drop(prefix: nat, n: nat, ghost tag: string, ghost s: State)
      requires Holds(tag, s) && prefix == |tag| && n <= |s.key|
      modifies this, str
      ensures Holds(tag, State(s.key[n..], s.hidden)) && data + size == old(data + size)
    {
      ghost var b := str[..];
      Slide(prefix, n, tag);
      size := size - n;
      KeyDropped(b, str[..], data - n + prefix, s, n);
    }

    /** What reduceDomain leaves when there is no label left: the tag, right before what was hidden. */
    ghost predicate Exposed(tag: string, hidden: Option<string>)
      reads this, str
    {
      && NoNul(tag) && size == |tag| && HasAt(str[..], data, tag)
      && (hidden.Some? ==> StringAt(str[..], data + size, hidden.value))
    }

    /** Drops the whole key, NUL and all. */
    method DropAll(prefix: nat, ghost tag: string, ghost s: State)
      requires Holds(tag, s) && prefix == |tag|
      modifies this, str
      ensures Exposed(tag, s.hidden)
    {
      ghost var b := str[..];
      Slide(prefix, size - prefix + 1, tag);
      size := prefix;
      if s.hidden.Some? {
        FrameTail(b, str[..], data + prefix, data + size, s.hidden.value);
      }
    }

    /** reduceDomain. */
    method ReduceDomain(prefix: nat, ghost tag: string, ghost s: State) returns (reduced: bool)
      requires Holds(tag, s) && prefix == |tag|
      modifies this, str
      ensures reduced <==> DomainNext(s.key).Some?
      ensures reduced ==> Holds(tag, State(DomainNext(s.key).value, s.hidden)) && data + size == old(data + size)
      ensures !reduced ==> if s.key == "" then Holds(tag, s) else Exposed(tag, s.hidden)
    {
      hide Holds, Carries, StringAt, Exposed;
      Parts(tag, s);
      if prefix < size {
        var base := data + prefix;
        var first := CharAt(prefix, tag, s.key);
        var span := StrCspn(str, base, if first == '[' then ']' else '.', s.key);
        var delimiter := CharAt(prefix + span, tag, s.key);
        if delimiter != NUL {
          span := span + 1;
        }
        var next := CharAt(prefix + span, tag, s.key);
        if next == NUL {
          DropAll(prefix, tag, s);
        } else {
          Drop(prefix, span, tag, s);
        }
      }
      return prefix < size;
    }

    /** reduceMail. */
    method ReduceMail(prefix: nat, ghost tag: string, ghost s: State) returns (reduced: bool)
      requires Holds(tag, s) && prefix == |tag| && 0 < size
      requires s.key == "" || s.key[|s.key| - 1] == '@' || s.hidden.Some?
      modifies this, str
      ensures reduced <==> MailNext(s).Some?
      ensures reduced ==> Holds(tag, MailNext(s).value)
    {
      hide Holds, Carries, StringAt, HasAt, DomainNext;
      Parts(tag, s);
      var last := CharAt(size - 1, tag, s.key);
      if last == '@' {
        return false;
      }
      var span := StrCspn(str, data + prefix, '@', s.key);
      var at := CharAt(prefix + span, tag, s.key);
      if at == '@' {
        Drop(prefix, span + 1, tag, s);
        return true;
      }
      reduced := ReduceDomain(prefix, tag, s);
      if !reduced {
        if s.key == "" {
          Bare(tag, s);
        }
        reduced := Uncover(prefix, tag, if s.key == "" then "" else s.hidden.value);
      }
    }

    /** Without a key, the tag is followed by the empty string. */
    lemma Bare(tag: string, s: State)
      requires Holds(tag, s) && s.key == ""
      ensures Exposed(tag, Some(""))
    {
    }

    /** Takes in the string that now follows the tag. */
    method Uncover(prefix: nat, ghost tag: string, ghost rest: string) returns (some: bool)
      requires prefix == |tag| && Exposed(tag, Some(rest))
      modifies this`size
      ensures Holds(tag, State(rest, None)) && (some <==> rest != "")
    {
      JoinStrings(str[..], data, tag, rest);
      size := StrLen(str, data, tag + rest);
      return prefix < size;
    }

    /** The key as the map sees it. */
    method Text(ghost tag: string, ghost s: State) returns (text: string)
      requires Holds(tag, s)
      ensures text == tag + s.key
    {
      text := str[data..data + size];
      assert text == str[..][data..data + |tag|] + str[..][data + |tag|..data + |tag| + |s.key|];
    }

    /** The NUL that every round of a lookup puts behind the key again. */
    method Terminate(ghost tag: string, ghost s: State)
      requires Holds(tag, s)
      modifies str
      ensures Holds(tag, s)
    {
      ghost var b := str[..];
      Put(str, data + size, NUL);
      assert str[..] == b;
    }

    /** The reduction that a lookup was called with. */
    method Reduce(how: Reduction, prefix: nat, ghost tag: string, ghost s: State) returns (reduced: bool)
      requires Holds(tag, s) && prefix == |tag| && Ready(how, tag, s)
      modifies this, str
      ensures reduced <==> Next(how, s).Some?
      ensures reduced ==> Holds(tag, Next(how, s).value)
      ensures reduced && how != ByMail ==> data + size <= old(data + size)
    {
      hide Holds, IpNext, DomainNext, MailNext;
      match how
      case ByIp => reduced := ReduceIp(prefix, tag, s.key);
      case ByDomain => reduced := ReduceDomain(prefix, tag, s);
      case ByMail =>
        Parts(tag, s);
        reduced := ReduceMail(prefix, tag, s);
    }

    // ---------- The first key of a lookup ----------

    /** Joins the tag and the key as they are. */
    method Concatenate(tag: string, key: string)
      requires NoNul(tag) && NoNul(key) && |tag| + |key| <= str.Length && data == 0
      modifies this`size, str
      ensures Spells(tag, key)
    {
      Memcpy(str, 0, tag);
      ghost var b := str[..];
      Memcpy(str, |tag|, key);
      FrameHead(b, str[..], |tag|, 0, tag);
      size := |tag| + |key|;
    }

    /** Appends the second tag and gives out all of it as the tag of another lookup. */
    method AppendTag(tag2: string, ghost tag: string, ghost key: string) returns (joined: string)
      requires Spells(tag, key) && NoNul(tag2) && data + size + |tag2| < str.Length
      modifies this`size, str
      ensures joined == tag + key + tag2 && NoNul(joined)
      ensures size == old(size) + |tag2| && Spelled(tag, key)
    {
      ghost var b := str[..];
      assert tag2[..|tag2|] == tag2;
      var _ := TextCopy(str, data + size, |tag2| + 1, tag2);
      FrameHead(b, str[..], data + size, data, tag);
      FrameHead(b, str[..], data + size, data + |tag|, key);
      size := size + |tag2|;
      joined := str[data..data + size];
      ThreeParts(str[..], data, tag, key, tag2);
    }

    /** The tag and the key are there, and more behind them. */
    ghost predicate Spelled(tag: string, key: string)
      reads this, str
    {
      && NoNul(tag) && NoNul(key) && |tag| + |key| <= size
      && HasAt(str[..], data, tag) && HasAt(str[..], data + |tag|, key)
    }

    /** Cuts the key to n characters and an at-sign, and appends the second tag to that. */
    method AccountTag(prefix: nat, n: nat, tag2: string, ghost tag: string, ghost key: string) returns (joined: string)
      requires Spelled(tag, key) && prefix == |tag| && NoNul(tag2) && n < |key|
      requires data + |tag| + n + 1 + |tag2| < str.Length
      modifies str
      ensures joined == tag + (key[..n] + "@") + tag2 && NoNul(joined)
    {
      hide HasAt, StringAt;
      ghost var b := str[..];
      var at := data + prefix + n;
      Put(str, at, '@');
      assert tag2[..|tag2|] == tag2;
      var _ := TextCopy(str, at + 1, |tag2| + 1, tag2);
      assert b[..at] == str[..][..at] && str[..][..at + 1][at] == '@';
      Retagged(b, str[..], data, tag, key, n, tag2);
      joined := str[data..at + 1 + |tag2|];
    }

    /** Takes the second tag off again. */
    method RemoveTag(n: nat, ghost tag: string, ghost key: string)
      requires Spelled(tag, key) && size == |tag| + |key| + n && data + |tag| + |key| < str.Length
      modifies this`size, str
      ensures Holds(tag, State(key, None)) && size == old(size) - n
    {
      size := size - n;
      FramePut(str[..], data + size, NUL, data, tag);
      FramePut(str[..], data + size, NUL, data + |tag|, key);
      Put(str, data + size, NUL);
    }

    /** Joins the tag and the key, in lower case. */
    method Join(tag: string, key: string)
      requires NoNul(tag) && NoNul(key) && |tag| + |key| < str.Length && data == 0
      modifies this`size, str
      ensures size == |tag| + |key| && NoNul(Lower(tag)) && NoNul(Lower(key))
      ensures HasAt(str[..], 0, Lower(tag)) && HasAt(str[..], |tag|, Lower(key))
      ensures Holds(Lower(tag), State(Lower(key), None))
    {
      assert tag[..|tag|] == tag && key[..|key|] == key;
      var _ := TextCopy(str, 0, |tag| + 1, tag);
      ghost var b := str[..];
      var _ := TextCopy(str, |tag|, |key| + 1, key);
      FrameHead(b, str[..], |tag|, 0, tag);
      JoinStrings(str[..], 0, tag, key);
      size := |tag| + |key|;
      b := str[..];
      TextLower(str, 0, size, tag + key);
      assert b[size..] == str[..][size..];
      assert b[size..][0] == b[size] && str[..][size..][0] == str[..][size];
      SplitLower(str[..], tag, key);
    }

    /** Makes the bare account name in front of span the key. */
    method MakeAccount(prefix: nat, span: nat, ghost tag: string, ghost key: string)
      requires data == 0 && prefix == |tag| && span <= |key| && prefix + span + 1 < str.Length
      requires NoNul(tag) && NoNul(key) && HasAt(str[..], 0, tag) && HasAt(str[..], prefix, key)
      modifies this`size, str
      ensures Holds(tag, State(key[..span] + "@", None))
    {
      ghost var b := str[..];
      Put(str, prefix + span, '@');
      Put(str, prefix + span + 1, NUL);
      size := prefix + span + 1;
      AccountMade(b, prefix, key, span);
      FramePut(b, prefix + span, '@', 0, tag);
      FramePut(b[prefix + span := '@'], prefix + span + 1, NUL, 0, tag);
    }

    /** Hides the account name in front of span behind the NUL of the key. */
    method HideAccount(account: string, ghost tag: string, ghost key: string)
      requires Holds(tag, State(key, None)) && data == 0 && NoNul(account)
      requires size + |account| + 2 < str.Length
      modifies str
      ensures Holds(tag, State(key, Some(Lower(account) + "@")))
    {
      hide HasAt, StringAt, Lower;
      ghost var b := str[..];
      Put(str, size + |account| + 1, '@');
      Put(str, size + |account| + 2, NUL);
      Memcpy(str, size + 1, account);
      TextLower(str, size + 1, |account|, account);
      assert str[..][..size + 1] == b[..size + 1];
      HiddenKept(b, str[..], tag, key, Lower(account));
    }
  }

  /** What reduceMail needs: something before the size, and an account name unless the key ends in an at-sign. */
  predicate Ready(how: Reduction, tag: string, s: State) {
    && (how == ByIp ==> s.hidden == None)
    && (how == ByMail ==>
          && 0 < |tag| + |s.key|
          && (s.key == "" || s.key[|s.key| - 1] == '@' || s.hidden.Some?)
          && (s.hidden.Some? ==> s.hidden.value != "" && s.hidden.value[|s.hidden.value| - 1] == '@'))
  }

  lemma SplitLower(b: string, tag: string, key: string)
    requires NoNul(tag) && NoNul(key)
    requires HasAt(b, 0, Lower(tag + key)) && |tag + key| < |b| && b[|tag + key|] == NUL
    ensures NoNul(Lower(tag)) && NoNul(Lower(key))
    ensures HasAt(b, 0, Lower(tag)) && StringAt(b, |tag|, Lower(key))
  {
    LowerJoins(tag, key);
    assert b[0..|tag|] == b[0..|tag + key|][..|tag|];
    assert b[|tag|..|tag + key|] == b[0..|tag + key|][|tag|..];
  }

  lemma CutAccount(b: string, b': string, at: nat, key: string, n: nat)
    requires HasAt(b, at, key) && n < |key| && |b| == |b'| && b[..at + n] == b'[..at + n] && b'[at + n] == '@'
    ensures HasAt(b', at, key[..n] + "@") && (NoNul(key) ==> NoNul(key[..n] + "@"))
  {
    assert b'[at..at + n] == b'[..at + n][at..] == b[..at + n][at..] == b[at..at + |key|][..n];
    assert b'[at..at + n + 1] == b'[at..at + n] + [b'[at + n]];
  }

  lemma AccountMade(b: string, at: nat, key: string, span: nat)
    requires HasAt(b, at, key) && NoNul(key) && span <= |key| && at + span + 1 < |b|
    ensures StringAt(b[at + span := '@'][at + span + 1 := NUL], at, key[..span] + "@")
  {
    var b' := b[at + span := '@'][at + span + 1 := NUL];
    assert b'[at..at + span] == b[at..at + |key|][..span];
    assert b'[at..at + span + 1] == b'[at..at + span] + [b'[at + span]];
  }

  lemma AccountHidden(b: string, at: nat, account: string)
    requires HasAt(b, at, account) && NoNul(account) && at + |account| + 1 < |b|
    requires b[at + |account|] == '@' && b[at + |account| + 1] == NUL
    ensures StringAt(b, at, account + "@")
  {
    assert b[at..at + |account| + 1] == b[at..at + |account|] + [b[at + |account|]];
  }

  lemma HiddenKept(b: string, b': string, tag: string, key: string, account: string)
    requires HasAt(b, 0, tag) && StringAt(b, |tag|, key) && |b| == |b'|
    requires var n := |tag| + |key| + 1;
             && b[..n] == b'[..n] && HasAt(b', n, account) && NoNul(account)
             && n + |account| + 1 < |b| && b'[n + |account|] == '@' && b'[n + |account| + 1] == NUL
    ensures HasAt(b', 0, tag) && Behind(b', |tag|, State(key, Some(account + "@")))
  {
    var n := |tag| + |key| + 1;
    FrameHead(b, b', n, 0, tag);
    FrameHead(b, b', n, |tag|, key);
    assert b[..n][n - 1] == b'[..n][n - 1];
    AccountHidden(b', n, account);
  }

  lemma Retagged(b: string, b': string, at: nat, tag: string, key: string, n: nat, tag2: string)
    requires NoNul(tag) && NoNul(key) && HasAt(b, at, tag) && HasAt(b, at + |tag|, key) && n < |key| && |b| == |b'|
    requires var end := at + |tag| + n;
             b[..end] == b'[..end] && b'[end] == '@' && StringAt(b', end + 1, tag2)
    ensures at + |tag| + n + 1 + |tag2| <= |b'|
    ensures b'[at..at + |tag| + n + 1 + |tag2|] == tag + (key[..n] + "@") + tag2
    ensures NoNul(tag + (key[..n] + "@") + tag2)
  {
    FrameHead(b, b', at + |tag| + n, at, tag);
    CutAccount(b, b', at + |tag|, key, n);
    ThreeParts(b', at, tag, key[..n] + "@", tag2);
  }

  /** The string behind the tag, and the one hidden behind it. */
  predicate Behind(b: string, at: nat, s: State) {
    && StringAt(b, at, s.key)
    && (s.hidden.Some? ==> StringAt(b, at + |s.key| + 1, s.hidden.value))
  }

  lemma KeyDropped(b: string, b': string, at: nat, s: State, n: nat)
    requires Behind(b, at, s) && n <= |s.key|
    requires |b| == |b'| && b[at + n..] == b'[at + n..]
    ensures Behind(b', at + n, State(s.key[n..], s.hidden))
  {
    StringAtTail(b, at, s.key, n);
    FrameTail(b, b', at + n, at + n, s.key[n..]);
    if s.hidden.Some? {
      FrameTail(b, b', at + n, at + |s.key| + 1, s.hidden.value);
    }
  }
}
