/**
 C strings in a buffer, and the string functions that the address code uses.
 */
module CString {
  const NUL: char := '\0'

  predicate NoNul(s: string) {
    forall i :: 0 <= i < |s| ==> s[i] != NUL
  }

  /** The index of the first c in s, or the length of s: strcspn with one character. */
  function IndexOf(s: string, c: char): (n: nat)
    ensures n <= |s| && (n < |s| ==> s[n] == c)
    ensures forall i :: 0 <= i < n ==> s[i] != c
  {
    if s == [] || s[0] == c then 0 else 1 + IndexOf(s[1..], c)
  }

  function LowerChar(c: char): char {
    if 'A' <= c <= 'Z' then c - 'A' + 'a' else c
  }

  function Lower(s: string): (r: string)
    ensures |r| == |s| && forall i :: 0 <= i < |s| ==> r[i] == LowerChar(s[i])
  {
    seq(|s|, i requires 0 <= i < |s| => LowerChar(s[i]))
  }

  const UPPER_CASE := "ABCDEFGHIJKLMNOPQRSTUVWXYZ"
  const LOWER_CASE := "abcdefghijklmnopqrstuvwxyz"

  /** The k-th letter in upper case becomes the k-th in lower case, and nothing else changes. */
  lemma LowerIs(s: string, i: nat, k: nat)
    requires i < |s| && k < 26
    ensures s[i] == UPPER_CASE[k] ==> Lower(s)[i] == LOWER_CASE[k]
    ensures s[i] !in UPPER_CASE ==> Lower(s)[i] == s[i]
  {
    LetterIs(k);
    if 'A' <= s[i] <= 'Z' {
      var n := (s[i] - 'A') as int;
      LetterIs(n);
      assert UPPER_CASE[n] == s[i];
    }
  }

  lemma LetterIs(k: nat)
    requires k < 26
    ensures UPPER_CASE[k] == 'A' + k as char && LOWER_CASE[k] == 'a' + k as char
  {
  }

  lemma LowerJoins(s: string, t: string)
    ensures Lower(s + t) == Lower(s) + Lower(t)
  {
  }

  lemma {:induction false} IndexIs(s: string, c: char, n: nat)
    requires n <= |s| && (n < |s| ==> s[n] == c) && forall i :: 0 <= i < n ==> s[i] != c
    ensures IndexOf(s, c) == n
  {
    if 0 < n {
      IndexIs(s[1..], c, n - 1);
    }
  }

  // ---------- What a buffer holds at an offset ----------

  predicate HasAt(b: string, at: nat, text: string) {
    at + |text| <= |b| && b[at..at + |text|] == text
  }

  /** The C string text starts at offset at. */
  predicate StringAt(b: string, at: nat, text: string) {
    NoNul(text) && HasAt(b, at, text) && at + |text| < |b| && b[at + |text|] == NUL
  }

  lemma HasAtIndex(b: string, at: nat, text: string, i: nat)
    requires HasAt(b, at, text) && i < |text|
    ensures b[at + i] == text[i]
  {
    assert b[at..at + |text|][i] == b[at + i];
  }

  lemma StringAtIndex(b: string, at: nat, text: string, i: nat)
    requires StringAt(b, at, text) && i <= |text|
    ensures at + i < |b|
    ensures if i < |text| then b[at + i] == text[i] != NUL else b[at + i] == NUL
  {
    if i < |text| {
      HasAtIndex(b, at, text, i);
    }
  }

  lemma StringAtTail(b: string, at: nat, text: string, n: nat)
    requires StringAt(b, at, text) && n <= |text|
    ensures StringAt(b, at + n, text[n..])
  {
    assert b[at + n..at + |text|] == b[at..at + |text|][n..];
  }

  lemma FrameTail(b: string, b': string, from: nat, at: nat, text: string)
    requires from <= at && from <= |b| == |b'| && b[from..] == b'[from..]
    requires HasAt(b, at, text)
    ensures HasAt(b', at, text)
    ensures StringAt(b, at, text) ==> StringAt(b', at, text)
  {
    assert b'[from..][at - from..at - from + |text|] == b'[at..at + |text|];
    assert b[from..][at - from..at - from + |text|] == b[at..at + |text|];
    if at + |text| < |b| {
      assert b'[from..][at - from + |text|] == b'[at + |text|];
      assert b[from..][at - from + |text|] == b[at + |text|];
    }
  }

  lemma FrameHead(b: string, b': string, to: nat, at: nat, text: string)
    requires at + |text| <= to <= |b| == |b'| && b[..to] == b'[..to]
    requires HasAt(b, at, text)
    ensures HasAt(b', at, text)
  {
    assert b'[..to][at..at + |text|] == b'[at..at + |text|];
    assert b[..to][at..at + |text|] == b[at..at + |text|];
  }

  lemma CutAt(b: string, at: nat, text: string, n: nat)
    requires HasAt(b, at, text) && NoNul(text) && n <= |text| && at + n < |b|
    ensures StringAt(b[at + n := NUL], at, text[..n])
  {
    assert b[at + n := NUL][at..at + n] == b[at..at + n] == b[at..at + |text|][..n];
  }

  lemma FramePut(b: string, i: nat, c: char, at: nat, text: string)
    requires i < |b| && HasAt(b, at, text) && (i < at || at + |text| <= i)
    ensures HasAt(b[i := c], at, text)
  {
    assert b[i := c][at..at + |text|] == b[at..at + |text|];
  }

  lemma JoinStrings(b: string, at: nat, s: string, t: string)
    requires HasAt(b, at, s) && NoNul(s) && StringAt(b, at + |s|, t)
    ensures StringAt(b, at, s + t)
  {
    assert b[at..at + |s + t|] == b[at..at + |s|] + b[at + |s|..at + |s| + |t|];
  }

  lemma ThreeParts(b: string, at: nat, s: string, t: string, u: string)
    requires HasAt(b, at, s) && HasAt(b, at + |s|, t) && HasAt(b, at + |s| + |t|, u)
    ensures b[at..at + |s| + |t| + |u|] == s + t + u
  {
    assert b[at..at + |s| + |t| + |u|]
           == b[at..at + |s|] + b[at + |s|..at + |s| + |t|] + b[at + |s| + |t|..at + |s| + |t| + |u|];
  }

  // ---------- The string functions of C ----------

  /** memmove within the buffer. */
  method Memmove(str: array<char>, dst: nat, src: nat, n: nat)
    requires dst + n <= str.Length && src + n <= str.Length
    modifies str
    ensures str[dst..dst + n] == old(str[src..src + n])
    ensures str[..dst] == old(str[..dst]) && str[dst + n..] == old(str[dst + n..])
  {
    forall i | 0 <= i < n {
      str[dst + i] := str[src + i];
    }
  }

  /** memcpy of text into the buffer. */
  method Memcpy(str: array<char>, dst: nat, text: string)
    requires dst + |text| <= str.Length
    modifies str
    ensures HasAt(str[..], dst, text)
    ensures str[..dst] == old(str[..dst]) && str[dst + |text|..] == old(str[dst + |text|..])
  {
    forall i | 0 <= i < |text| {
      str[dst + i] := text[i];
    }
    assert str[..][dst..dst + |text|] == str[dst..dst + |text|];
  }

  method Put(str: array<char>, at: nat, c: char)
    requires at < str.Length
    modifies str
    ensures str[..] == old(str[..])[at := c]
  {
    str[at] := c;
  }

  /** strcspn with one character. */
  method StrCspn(str: array<char>, at: nat, c: char, ghost text: string) returns (n: nat)
    requires StringAt(str[..], at, text)
    ensures n == IndexOf(text, c)
  {
    n := 0;
    StringAtIndex(str[..], at, text, 0);
    while str[at + n] != NUL && str[at + n] != c
      invariant n <= |text| && forall i :: 0 <= i < n ==> text[i] != c
      invariant if n < |text| then str[at + n] == text[n] != NUL else str[at + n] == NUL
      decreases |text| - n
    {
      n := n + 1;
      StringAtIndex(str[..], at, text, n);
    }
    IndexIs(text, c, n);
  }

  method StrLen(str: array<char>, at: nat, ghost text: string) returns (n: nat)
    requires StringAt(str[..], at, text)
    ensures n == |text|
  {
    n := 0;
    StringAtIndex(str[..], at, text, 0);
    while str[at + n] != NUL
      invariant n <= |text|
      invariant if n < |text| then str[at + n] == text[n] != NUL else str[at + n] == NUL
      decreases |text| - n
    {
      n := n + 1;
      StringAtIndex(str[..], at, text, n);
    }
  }

  /** How much of a text of that length TextCopy has room for in size characters. */
  function Room(length: nat, size: nat): nat
    requires 0 < size
  {
    if length < size then length else size - 1
  }

  /** TextCopy: as much of the text as fits with a NUL into size characters; the length is that of all of it. */
  method TextCopy(str: array<char>, at: nat, size: nat, text: string) returns (length: nat)
    requires NoNul(text) && at + size <= str.Length
    modifies str
    ensures length == if 0 < size then |text| else 0
    ensures 0 < size ==> StringAt(str[..], at, text[..Room(|text|, size)])
    ensures str[..at] == old(str[..at])
  {
    ghost var b := str[..at];
    length := 0;
    if size == 0 {
      return;
    }
    ghost var fits := Room(|text|, size);
    while length < size && length < |text|
      invariant length <= |text| && length <= size
      invariant str[..at] == b && str[at..at + length] == text[..length]
    {
      ghost var was := str[at..at + length];
      str[at + length] := text[length];
      length := length + 1;
      assert str[at..at + length] == was + [text[length - 1]];
    }
    var end := if length < size then length else size - 1;
    assert str[at..at + fits] == str[at..at + length][..fits];
    HasSlice(str, at, text[..fits]);
    FramePut(str[..], at + end, NUL, at, text[..fits]);
    Put(str, at + end, NUL);
    assert str[..at] == b;
    length := |text|;
  }

  lemma HasSlice(str: array<char>, at: nat, text: string)
    requires at + |text| <= str.Length && str[at..at + |text|] == text
    ensures HasAt(str[..], at, text)
  {
    assert str[..][at..at + |text|] == str[at..at + |text|];
  }

  /** TextLower of the text at offset at: length characters, or all of the string. */
  method TextLower(str: array<char>, at: nat, length: int, ghost text: string)
    requires NoNul(text) && if length < 0 then StringAt(str[..], at, text) else |text| == length && HasAt(str[..], at, text)
    modifies str
    ensures HasAt(str[..], at, Lower(text))
    ensures str[..at] == old(str[..at]) && str[at + |text|..] == old(str[at + |text|..])
  {
    var i := 0;
    ghost var n := |text|;
    forall j: nat | j < n ensures str[at + j] == text[j] {
      HasAtIndex(str[..], at, text, j);
    }
    while (length < 0 || i < length) && str[at + i] != NUL
      invariant i <= n && (length < 0 ==> at + n < str.Length && str[at + n] == NUL)
      invariant i < n ==> str[at + i] == text[i] != NUL
      invariant str[..at] == old(str[..at]) && str[at + n..] == old(str[at + n..])
      invariant forall j :: 0 <= j < n ==> str[at + j] == if j < i then LowerChar(text[j]) else text[j]
      decreases n - i
    {
      assert str[at + n..] == old(str[at + n..]);
      str[at + i] := LowerChar(str[at + i]);
      i := i + 1;
    }
    assert i == n;
    assert forall j :: 0 <= j < n ==> str[at + j] == Lower(text)[j];
    assert str[..][at..at + n] == Lower(text);
  }

  /** The string at offset at, as a callee reads it. */
  method ReadString(str: array<char>, at: nat, ghost text: string) returns (s: string)
    requires StringAt(str[..], at, text)
    ensures s == text
  {
    var n := StrLen(str, at, text);
    s := str[at..at + n];
    assert s == str[..][at..at + n];
  }

  lemma FramePutString(b: string, i: nat, c: char, at: nat, text: string)
    requires i < |b| && StringAt(b, at, text) && (i < at || at + |text| < i)
    ensures StringAt(b[i := c], at, text)
  {
    FramePut(b, i, c, at, text);
  }

  /** A string is kept while another one that does not overlap it is written over. */
  lemma FrameString(b: string, b': string, from: nat, to: nat, at: nat, text: string)
    requires StringAt(b, at, text) && |b| == |b'| && from <= to <= |b|
    requires b[..from] == b'[..from] && b[to..] == b'[to..]
    requires at + |text| < from || to <= at || from == to
    ensures StringAt(b', at, text)
  {
    if from == to {
      assert b == b[..from] + b[to..] && b' == b'[..from] + b'[to..];
    } else if to <= at {
      FrameTail(b, b', to, at, text);
    } else {
      FrameHead(b, b', from, at, text);
      assert b[..from][at + |text|] == b'[..from][at + |text|];
    }
  }

  /** A NUL in the middle of a string makes two of it. */
  lemma CutString(b: string, at: nat, text: string, n: nat)
    requires StringAt(b, at, text) && n < |text|
    ensures StringAt(b[at + n := NUL], at, text[..n]) && StringAt(b[at + n := NUL], at + n + 1, text[n + 1..])
  {
    CutAt(b, at, text, n);
    StringAtTail(b, at, text, n + 1);
    FramePutString(b, at + n, NUL, at + n + 1, text[n + 1..]);
  }

  lemma StringAtBounds(b: string, at: nat, text: string)
    requires StringAt(b, at, text)
    ensures at + |text| < |b| && NoNul(text) && StringAt(b, at + |text|, "")
  {
    StringAtTail(b, at, text, |text|);
    assert text[|text|..] == "";
  }
}
