/** Octets and the few ASCII codes the mail formats give a meaning to. */
module Octets {
  type octet = x: int | 0 <= x < 256

  const TAB: octet := 0x09
  const LF: octet := 0x0A
  const CR: octet := 0x0D
  const SPACE: octet := 0x20
  const EOF: int := -1

  const CRLF: seq<octet> := [CR, LF]

  predicate IsWsp(c: int) {
    c == SPACE || c == TAB
  }

  predicate EndsWith(s: seq<octet>, c: octet) {
    s != [] && s[|s| - 1] == c
  }

  lemma Assoc<T>(a: seq<T>, b: seq<T>, c: seq<T>)
    ensures (a + b) + c == a + (b + c)
  {
  }

  lemma Assoc4<T>(a: seq<T>, b: seq<T>, c: seq<T>, d: seq<T>)
    ensures a + (b + (c + d)) == ((a + b) + c) + d
  {
  }
}
