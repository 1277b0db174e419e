/** Facts about iterating a function that is additive for some operation. */
module Additive {
  function Iterate<T>(f: T -> T, r: T, n: nat): T
    decreases n
  {
    if n == 0 then r else Iterate(f, f(r), n - 1)
  }

  ghost predicate IsAdditive<T(!new)>(g: (T, T) -> T, f: T -> T) {
    forall a, b :: f(g(a, b)) == g(f(a), f(b))
  }

  ghost predicate Commutative<T(!new)>(g: (T, T) -> T) {
    forall a, b :: g(a, b) == g(b, a)
  }

  ghost predicate Associative<T(!new)>(g: (T, T) -> T) {
    forall a, b, c :: g(g(a, b), c) == g(a, g(b, c))
  }

  ghost predicate Swaps<T(!new)>(g: (T, T) -> T) {
    forall a, b, c, d :: g(g(a, b), g(c, d)) == g(g(a, c), g(b, d))
  }

  ghost predicate Injective<T(!new)>(f: T -> T) {
    forall a, b :: f(a) == f(b) ==> a == b
  }

  /** p of the first n iterates of f. */
  function Observe<T, V>(f: T -> T, p: T -> V, r: T, n: nat): seq<V>
    decreases n
  {
    if n == 0 then [] else [p(r)] + Observe(f, p, f(r), n - 1)
  }

  lemma Observe8<T, V>(f: T -> T, p: T -> V, t0: T, t1: T, t2: T, t3: T, t4: T, t5: T, t6: T, t7: T)
    requires f(t0) == t1 && f(t1) == t2 && f(t2) == t3 && f(t3) == t4
    requires f(t4) == t5 && f(t5) == t6 && f(t6) == t7
    ensures Observe(f, p, t0, 8) == [p(t0), p(t1), p(t2), p(t3), p(t4), p(t5), p(t6), p(t7)]
  {
    assert Observe(f, p, t6, 2) == [p(t6)] + ([p(t7)] + []);
    assert Observe(f, p, t4, 4) == [p(t4), p(t5), p(t6), p(t7)];
    assert Observe(f, p, t2, 6) == [p(t2), p(t3), p(t4), p(t5), p(t6), p(t7)];
  }

  /** f over s, first element first. */
  function Fold<T, V>(f: (T, V) -> T, r: T, s: seq<V>): T {
    if s == [] then r else f(Fold(f, r, s[..|s| - 1]), s[|s| - 1])
  }

  lemma FoldSnoc<T, V>(f: (T, V) -> T, r: T, s: seq<V>, v: V)
    ensures Fold(f, r, s + [v]) == f(Fold(f, r, s), v)
  {
    assert (s + [v])[..|s|] == s;
  }

  lemma FoldAppend<T, V>(f: (T, V) -> T, r: T, a: seq<V>, b: seq<V>)
    ensures Fold(f, r, a + b) == Fold(f, Fold(f, r, a), b)
    decreases |b|
  {
    if b == [] {
      assert a + b == a;
    } else {
      assert (a + b)[..|a + b| - 1] == a + b[..|b| - 1];
      FoldAppend(f, r, a, b[..|b| - 1]);
    }
  }

  lemma FoldFront<T, V>(f: (T, V) -> T, r: T, v: V, s: seq<V>)
    ensures Fold(f, r, [v] + s) == Fold(f, f(r, v), s)
  {
    FoldAppend(f, r, [v], s);
    FoldSnoc(f, r, [], v);
    assert [] + [v] == [v];
  }

  lemma Fold4<T, V>(f: (T, V) -> T, r: T, s: seq<V>)
    requires |s| == 4
    ensures Fold(f, r, s) == f(f(f(f(r, s[0]), s[1]), s[2]), s[3])
  {
    FoldFront(f, r, s[0], s[1..]);
    assert s == [s[0]] + s[1..];
    FoldFront(f, f(r, s[0]), s[1], s[2..]);
    assert s[1..] == [s[1]] + s[2..];
    FoldSnoc(f, f(f(r, s[0]), s[1]), [s[2]], s[3]);
    FoldSnoc(f, f(f(r, s[0]), s[1]), [], s[2]);
    assert s[2..] == [s[2]] + [s[3]] && [] + [s[2]] == [s[2]];
  }

  /** What enters after n steps could have entered at once, n steps lower. */
  lemma IterateLower<T(!new)>(g: (T, T) -> T, f: T -> T, r: T, t: T, w: T, n: nat)
    requires IsAdditive(g, f) && Iterate(f, w, n) == t
    ensures Iterate(f, g(Iterate(f, r, n), t), 8) == Iterate(f, g(r, w), n + 8)
  {
    IterateAdditive(g, f, r, w, n);
    IterateSum(f, g(r, w), n, 8);
  }

  lemma IterateFour<T(!new)>(g: (T, T) -> T, f: T -> T, r: T, t0: T, t1: T, t2: T, t3: T, w1: T, w2: T, w3: T)
    requires IsAdditive(g, f)
    requires Iterate(f, w1, 8) == t1 && Iterate(f, w2, 16) == t2 && Iterate(f, w3, 24) == t3
    ensures Iterate(f, g(Iterate(f, g(Iterate(f, g(Iterate(f, g(r, t0), 8), t1), 8), t2), 8), t3), 8)
      == Iterate(f, g(g(g(g(r, t0), w1), w2), w3), 32)
  {
    IterateLower(g, f, g(r, t0), t1, w1, 8);
    IterateLower(g, f, g(g(r, t0), w1), t2, w2, 16);
    IterateLower(g, f, g(g(g(r, t0), w1), w2), t3, w3, 24);
  }

  lemma AssociateFour<T(!new)>(g: (T, T) -> T, r: T, a: T, b: T, c: T, d: T)
    requires Associative(g)
    ensures g(r, g(g(g(a, b), c), d)) == g(g(g(g(r, a), b), c), d)
  {
    assert g(r, g(g(g(a, b), c), d)) == g(g(r, g(g(a, b), c)), d);
    assert g(r, g(g(a, b), c)) == g(g(r, g(a, b)), c);
  }

  lemma AbelianSwaps<T(!new)>(g: (T, T) -> T)
    requires Commutative(g) && Associative(g)
    ensures Swaps(g)
  {
    forall a, b, c, d ensures g(g(a, b), g(c, d)) == g(g(a, c), g(b, d)) {
      assert g(g(a, b), g(c, d)) == g(a, g(b, g(c, d)));
      assert g(b, g(c, d)) == g(g(b, c), d) == g(g(c, b), d) == g(c, g(b, d));
      assert g(g(a, c), g(b, d)) == g(a, g(c, g(b, d)));
    }
  }

  lemma SumIsAdditive<T(!new)>(g: (T, T) -> T, p: T -> T, q: T -> T, f: T -> T)
    requires IsAdditive(g, p) && IsAdditive(g, q) && Swaps(g)
    requires forall r :: f(r) == g(p(r), q(r))
    ensures IsAdditive(g, f)
  {
    forall a, b ensures f(g(a, b)) == g(f(a), f(b)) {
      assert p(g(a, b)) == g(p(a), p(b)) && q(g(a, b)) == g(q(a), q(b));
      assert g(g(p(a), p(b)), g(q(a), q(b))) == g(g(p(a), q(a)), g(p(b), q(b)));
    }
  }

  lemma {:induction false} IterateAdditive<T(!new)>(g: (T, T) -> T, f: T -> T, a: T, b: T, n: nat)
    requires IsAdditive(g, f)
    ensures Iterate(f, g(a, b), n) == g(Iterate(f, a, n), Iterate(f, b, n))
    decreases n
  {
    if n > 0 {
      assert f(g(a, b)) == g(f(a), f(b));
      IterateAdditive(g, f, f(a), f(b), n - 1);
    }
  }

  lemma {:induction false} IterateSum<T>(f: T -> T, a: T, m: nat, n: nat)
    ensures Iterate(f, a, m + n) == Iterate(f, Iterate(f, a, m), n)
    decreases m
  {
    if m > 0 {
      IterateSum(f, f(a), m - 1, n);
    }
  }

  lemma {:induction false} IterateInjective<T(!new)>(f: T -> T, a: T, b: T, n: nat)
    requires Injective(f) && Iterate(f, a, n) == Iterate(f, b, n)
    ensures a == b
    decreases n
  {
    if n > 0 {
      IterateInjective(f, f(a), f(b), n - 1);
    }
  }
}

/**
 crc/crctable.c and crc/crcfn.c with a 32-bit machine word: the table
 generator and the table-driven hash, against division of polynomials over
 GF(2) done one coefficient at a time.
 */
module Crc {
  import opened Additive

  type word = bv32

  /** An octet, held in a word as the C code holds it. */
  type byte = w: word | w < 256

  /** The exponents of the CRC-32 polynomial, as the generator lists them. */
  const COEFFICIENTS: seq<nat> := [32, 26, 23, 22, 16, 12, 11, 10, 8, 7, 5, 4, 2, 1, 0]

  const MSB: word := 0x8000_0000

  /** The polynomial without its x^32. */
  const POLY: word := 0x04C1_1DB7

  // ---------- Polynomials modulo the CRC-32 polynomial ----------

  /** What the x^32 of r * x, if it has one, is congruent to. */
  function Carry(r: word): word {
    if r & 0x8000_0000 != 0 then 0x04C1_1DB7 else 0
  }

  function Shift(r: word): word {
    r << 1
  }

  function Xor(a: word, b: word): word {
    a ^ b
  }

  /** r * x modulo the polynomial: bit k of a word is the coefficient of x^k. */
  function MulX(r: word): word {
    Xor(Shift(r), Carry(r))
  }

  /** r * x^n modulo the polynomial. */
  function MulXTimes(r: word, n: nat): word {
    Iterate(MulX, r, n)
  }

  function BitWord(b: bool): word {
    if b then 1 else 0
  }

  function TopBit(b: bool): word {
    if b then 0x8000_0000 else 0
  }

  /**
   The remainder of the polynomial with these coefficients, highest first, by
   Horner's rule: the remainder of p * x + b from the remainder of p.
   */
  function Remainder(bits: seq<bool>): word {
    if bits == [] then 0
    else Xor(MulX(Remainder(bits[..|bits| - 1])), BitWord(bits[|bits| - 1]))
  }

  function Zeros(n: nat): seq<bool> {
    seq(n, i => false)
  }

  /** The coefficients of a byte, highest first. */
  function ByteBits(b: byte): seq<bool> {
    [b & 0x80 != 0, b & 0x40 != 0, b & 0x20 != 0, b & 0x10 != 0,
     b & 0x08 != 0, b & 0x04 != 0, b & 0x02 != 0, b & 0x01 != 0]
  }

  function Bits(s: seq<byte>): seq<bool> {
    if s == [] then [] else Bits(s[..|s| - 1]) + ByteBits(s[|s| - 1])
  }

  /** The CRC of a message M: the remainder of M * x^32. */
  function MessageCrc(s: seq<byte>): word {
    Remainder(Bits(s) + Zeros(32))
  }

  // ---------- MulX is additive and injective ----------

  lemma XorCommutes()
    ensures Commutative(Xor)
  {
  }

  lemma XorAssociates()
    ensures Associative(Xor)
  {
  }

  lemma XorSwaps()
    ensures Swaps(Xor)
  {
    XorCommutes();
    XorAssociates();
    AbelianSwaps(Xor);
  }

  lemma CarryIsAdditive()
    ensures IsAdditive(Xor, Carry)
  {
  }

  lemma ShiftIsAdditive()
    ensures IsAdditive(Xor, Shift)
  {
  }

  lemma MulXIsAdditive()
    ensures IsAdditive(Xor, MulX)
  {
    XorSwaps();
    CarryIsAdditive();
    ShiftIsAdditive();
    SumIsAdditive(Xor, Shift, Carry, MulX);
  }

  lemma MulXIsInjective()
    ensures Injective(MulX)
  {
  }

  lemma MulXTimesAdditive(a: word, b: word, n: nat)
    ensures MulXTimes(Xor(a, b), n) == Xor(MulXTimes(a, n), MulXTimes(b, n))
  {
    MulXIsAdditive();
    IterateAdditive(Xor, MulX, a, b, n);
  }

  lemma MulXTimesSum(a: word, m: nat, n: nat)
    ensures MulXTimes(a, m + n) == MulXTimes(MulXTimes(a, m), n)
  {
    IterateSum(MulX, a, m, n);
  }

  lemma MulXTimesInjective(a: word, b: word, n: nat)
    requires MulXTimes(a, n) == MulXTimes(b, n)
    ensures a == b
  {
    MulXIsInjective();
    IterateInjective(MulX, a, b, n);
  }

  // ---------- Feeding bits in at the top ----------

  /** One coefficient, entering 32 places early. */
  function DirectStep(r: word, b: bool): word {
    MulX(Xor(r, TopBit(b)))
  }

  function Direct(r: word, bits: seq<bool>): word {
    Fold(DirectStep, r, bits)
  }

  lemma MulXZeros(n: nat)
    ensures MulXTimes(0, n) == 0
  {
    if n > 0 {
      assert MulX(0) == 0;
      MulXZeros(n - 1);
    }
  }

  lemma ShiftOnes()
    ensures MulXTimes(1, 31) == 0x8000_0000
  {
    ShiftOnesTo(1, 8, 0x100);
    ShiftOnesTo(0x100, 8, 0x1_0000);
    ShiftOnesTo(0x1_0000, 8, 0x100_0000);
    assert MulXTimes(1, 16) == 0x1_0000 by { MulXTimesSum(1, 8, 8); }
    assert MulXTimes(1, 24) == 0x100_0000 by { MulXTimesSum(1, 16, 8); }
    ShiftTopOnes();
    MulXTimesSum(1, 24, 7);
  }

  lemma ShiftOnesTo(a: word, n: nat, b: word)
    requires n == 8 && a in {1, 0x100, 0x1_0000} && b == a << 8
    ensures MulXTimes(a, n) == b
  {
    LowByteShift(a);
  }

  lemma ShiftTopOnes()
    ensures MulXTimes(0x100_0000, 7) == 0x8000_0000
  {
    assert MulX(0x100_0000) == 0x200_0000 && MulX(0x200_0000) == 0x400_0000;
    assert MulX(0x400_0000) == 0x800_0000 && MulX(0x800_0000) == 0x1000_0000;
    assert MulX(0x1000_0000) == 0x2000_0000 && MulX(0x2000_0000) == 0x4000_0000;
    assert MulX(0x4000_0000) == 0x8000_0000;
    assert Iterate(MulX, 0x2000_0000, 2) == 0x8000_0000;
    assert Iterate(MulX, 0x800_0000, 4) == 0x8000_0000;
    assert Iterate(MulX, 0x200_0000, 6) == 0x8000_0000;
  }

  lemma NoCarry(a: word)
    requires a & 0x8000_0000 == 0
    ensures MulX(a) == a << 1
  {
  }

  lemma Doubled(r: word)
    requires r < 0x8000_0000
    ensures MulXTimes(r, 1) == r << 1
  {
    Below(r);
    NoCarry(r);
  }

  lemma Below(r: word)
    requires r < 0x8000_0000
    ensures r & 0x8000_0000 == 0
  {
  }

  lemma TwoPlaces(a: word)
    requires a < 0x4000_0000
    ensures a << 1 < 0x8000_0000 && (a << 1) << 1 == a << 2
  {
  }

  lemma FourPlaces(a: word)
    requires a < 0x1000_0000
    ensures a << 2 < 0x4000_0000 && (a << 2) << 2 == a << 4
  {
  }

  lemma EightPlaces(a: word)
    requires a < 0x100_0000
    ensures a << 4 < 0x1000_0000 && (a << 4) << 4 == a << 8
  {
  }

  lemma TwoShifts(a: word)
    requires a < 0x4000_0000
    ensures MulXTimes(a, 2) == a << 2
  {
    hide MulXTimes;
    TwoPlaces(a);
    Doubled(a);
    Doubled(a << 1);
    MulXTimesSum(a, 1, 1);
  }

  lemma FourShifts(a: word)
    requires a < 0x1000_0000
    ensures MulXTimes(a, 4) == a << 4
  {
    hide MulXTimes;
    FourPlaces(a);
    TwoShifts(a);
    TwoShifts(a << 2);
    MulXTimesSum(a, 2, 2);
  }

  /** Words with a clear top byte are shifted without a carry. */
  lemma LowByteShift(a: word)
    requires a < 0x100_0000
    ensures MulXTimes(a, 8) == a << 8
  {
    hide MulXTimes;
    EightPlaces(a);
    FourShifts(a);
    FourShifts(a << 4);
    MulXTimesSum(a, 4, 4);
  }

  lemma Iterate8<T>(f: T -> T, a: T, a1: T, a2: T, a3: T, a4: T, a5: T, a6: T, a7: T, a8: T)
    requires f(a) == a1 && f(a1) == a2 && f(a2) == a3 && f(a3) == a4
    requires f(a4) == a5 && f(a5) == a6 && f(a6) == a7 && f(a7) == a8
    ensures Iterate(f, a, 8) == a8
  {
    assert Iterate(f, a6, 2) == a8;
    assert Iterate(f, a4, 4) == a8;
    assert Iterate(f, a2, 6) == a8;
  }

  // ---------- Direct feeding computes the remainder of M * x^32 ----------

  lemma TopIsShiftedBit(b: bool)
    ensures MulXTimes(BitWord(b), 32) == MulX(TopBit(b))
  {
    if b {
      ShiftOnes();
      MulXTimesSum(1, 31, 1);
      assert MulXTimes(0x8000_0000, 1) == MulX(0x8000_0000);
    } else {
      MulXZeros(32);
      assert MulX(0) == 0;
    }
  }

  lemma MulXOutside(r: word, n: nat)
    ensures MulX(MulXTimes(r, n)) == MulXTimes(MulX(r), n)
  {
    MulXTimesSum(r, n, 1);
    MulXTimesSum(r, 1, n);
    assert MulXTimes(r, 1) == MulX(r);
    assert MulXTimes(MulXTimes(r, n), 1) == MulX(MulXTimes(r, n));
  }

  lemma {:induction false} DirectIsRemainder(bits: seq<bool>)
    ensures Direct(0, bits) == MulXTimes(Remainder(bits), 32)
  {
    if bits == [] {
      MulXZeros(32);
    } else {
      var p, b := bits[..|bits| - 1], bits[|bits| - 1];
      DirectIsRemainder(p);
      DirectOneMore(Remainder(p), b);
    }
  }

  lemma DirectOneMore(r: word, b: bool)
    ensures DirectStep(MulXTimes(r, 32), b) == MulXTimes(Xor(MulX(r), BitWord(b)), 32)
  {
    MulXIsAdditive();
    assert MulX(Xor(MulXTimes(r, 32), TopBit(b))) == Xor(MulX(MulXTimes(r, 32)), MulX(TopBit(b)));
    MulXOutside(r, 32);
    TopIsShiftedBit(b);
    MulXTimesAdditive(MulX(r), BitWord(b), 32);
  }

  lemma XorZero(r: word)
    ensures Xor(r, 0) == r
  {
  }

  lemma {:induction false} RemainderZeros(bits: seq<bool>, n: nat)
    ensures Remainder(bits + Zeros(n)) == MulXTimes(Remainder(bits), n)
  {
    if n == 0 {
      assert bits + Zeros(0) == bits;
    } else {
      RemainderZeros(bits, n - 1);
      assert (bits + Zeros(n))[..|bits| + n - 1] == bits + Zeros(n - 1);
      XorZero(MulX(Remainder(bits + Zeros(n - 1))));
      MulXOutside(Remainder(bits), n - 1);
    }
  }

  // ---------- A byte at a time ----------

  /** A byte enters at the top and is carried through. */
  function ByteStep(r: word, b: byte): word {
    MulXTimes(Xor(r, b << 24), 8)
  }

  function DirectBytes(r: word, s: seq<byte>): word {
    Fold(ByteStep, r, s)
  }

  /** The generator's inner loop: bits leave the top of bits while crc divides. */
  function Divide(crc: word, bits: word, n: nat): word
    decreases n
  {
    if n == 0 then crc else Divide(Xor(Shift(crc), Carry(Xor(bits, crc))), Shift(bits), n - 1)
  }

  lemma DivideStep(crc: word, bits: word)
    ensures Xor(Xor(Shift(crc), Carry(Xor(bits, crc))), Shift(bits)) == MulX(Xor(crc, bits))
  {
    XorCommutes();
    XorAssociates();
    ShiftIsAdditive();
    var c := Carry(Xor(bits, crc));
    assert Xor(bits, crc) == Xor(crc, bits);
    assert Xor(Xor(Shift(crc), c), Shift(bits)) == Xor(Shift(crc), Xor(c, Shift(bits)));
    assert Xor(c, Shift(bits)) == Xor(Shift(bits), c);
    assert Xor(Shift(crc), Xor(Shift(bits), c)) == Xor(Xor(Shift(crc), Shift(bits)), c);
    assert Shift(Xor(crc, bits)) == Xor(Shift(crc), Shift(bits));
  }

  lemma {:induction false} DivideIsMulX(crc: word, bits: word, n: nat)
    ensures Xor(Divide(crc, bits, n), Iterate(Shift, bits, n)) == MulXTimes(Xor(crc, bits), n)
    decreases n
  {
    if n > 0 {
      DivideIsMulX(Xor(Shift(crc), Carry(Xor(bits, crc))), Shift(bits), n - 1);
      DivideStep(crc, bits);
    }
  }

  lemma XorOntoZero(w: word)
    ensures Xor(0, w) == w
  {
  }

  lemma DivideByte(crc: word, w: byte)
    ensures Divide(crc, w << 24, 8) == ByteStep(crc, w)
  {
    var t := w << 24;
    DivideIsMulX(crc, t, 8);
    ShiftEight(t);
    XorZero(Divide(crc, t, 8));
    assert Iterate(Shift, t, 8) == 0;
  }

  lemma ShiftEight(t: word)
    ensures Iterate(Shift, t, 8) == t << 8
  {
    Iterate8(Shift, t, t << 1, t << 2, t << 3, t << 4, t << 5, t << 6, t << 7, t << 8);
  }

  // ---------- The bits of a byte ----------

  predicate Top(w: word) {
    w & 0x8000_0000 != 0
  }

  /** The n highest bits of w, highest first. */
  function TopBits(w: word, n: nat): seq<bool> {
    Observe(Shift, Top, w, n)
  }

  lemma ByteBitsAreTopBits(b: byte)
    ensures TopBits((b << 24), 8) == ByteBits(b)
  {
    var t := (b << 24);
    Observe8(Shift, Top, t, t << 1, t << 2, t << 3, t << 4, t << 5, t << 6, t << 7);
    TopsOfByte(b, t);
  }

  lemma TopsOfByte(b: byte, t: word)
    requires t == b << 24
    ensures Top(t) == (b & 0x80 != 0) && Top(t << 1) == (b & 0x40 != 0)
    ensures Top(t << 2) == (b & 0x20 != 0) && Top(t << 3) == (b & 0x10 != 0)
    ensures Top(t << 4) == (b & 0x08 != 0) && Top(t << 5) == (b & 0x04 != 0)
    ensures Top(t << 6) == (b & 0x02 != 0) && Top(t << 7) == (b & 0x01 != 0)
  {
  }

  lemma ShiftDropsTop(crc: word, b: bool)
    ensures Shift(Xor(crc, TopBit(b))) == Shift(crc)
  {
  }

  lemma CarryNeedsTop(crc: word, w: word)
    ensures Carry(Xor(crc, TopBit(Top(w)))) == Carry(Xor(w, crc))
  {
    TopOfXor(crc, TopBit(Top(w)));
    TopOfXor(w, crc);
    CarryByTop(Xor(crc, TopBit(Top(w))), Xor(w, crc));
  }

  lemma TopOfXor(a: word, b: word)
    ensures Top(Xor(a, b)) <==> Top(a) != Top(b)
  {
  }

  lemma CarryByTop(a: word, b: word)
    requires Top(a) == Top(b)
    ensures Carry(a) == Carry(b)
  {
  }

  lemma DivideIsDirect(crc: word, w: word)
    ensures DirectStep(crc, Top(w)) == Xor(Shift(crc), Carry(Xor(w, crc)))
  {
    ShiftDropsTop(crc, Top(w));
    CarryNeedsTop(crc, w);
  }

  lemma {:induction false} DirectTopBits(crc: word, w: word, n: nat)
    ensures Direct(crc, TopBits(w, n)) == Divide(crc, w, n)
    decreases n
  {
    if n > 0 {
      FoldFront(DirectStep, crc, Top(w), TopBits(Shift(w), n - 1));
      DivideIsDirect(crc, w);
      DirectTopBits(DirectStep(crc, Top(w)), Shift(w), n - 1);
    }
  }

  lemma {:induction false} DirectBytesAreBits(r: word, s: seq<byte>)
    ensures DirectBytes(r, s) == Direct(r, Bits(s))
  {
    if s != [] {
      var p, b := s[..|s| - 1], s[|s| - 1];
      DirectBytesAreBits(r, p);
      FoldAppend(DirectStep, r, Bits(p), ByteBits(b));
      ByteBitsAreTopBits(b);
      DirectTopBits(Direct(r, Bits(p)), (b as word) << 24, 8);
      DivideByte(Direct(r, Bits(p)), b);
    }
  }

  /** Feeding the bytes of M from zero leaves the remainder of M * x^32. */
  lemma BytesAreMessageCrc(s: seq<byte>)
    ensures DirectBytes(0, s) == MessageCrc(s)
  {
    DirectBytesAreBits(0, s);
    DirectIsRemainder(Bits(s));
    RemainderZeros(Bits(s), 32);
  }

  // ---------- crctable.c ----------

  /**
   1 shifted by an exponent. The x^32 term has no place in the word, and C leaves the
   shift of a 32-bit long by 32 undefined. Where it takes the count modulo 32 it gives
   1, not 0; exponent 0 is in the list too, so the polynomial is the same.
   */
  function Power(k: nat): word {
    if k < 32 then (1 as word) << k else 0
  }

  /** The remainder left by a byte that leaves the register. */
  function Entry(w: word): word {
    MulXTimes(w << 24, 8)
  }

  ghost predicate IsTable(table: seq<word>) {
    TableTo(table, 256)
  }

  /** coeff is the length of the array, the degree, and the exponents. */
  predicate IsCoeff(coeff: seq<nat>) {
    |coeff| >= 2 && coeff[0] == |coeff|
  }

  method GeneratePoly(coeff: seq<nat>) returns (poly: word)
    requires IsCoeff(coeff)
    ensures poly == PolyOf(coeff[2..])
  {
    poly := 0;
    var count := 2;
    while count < coeff[0]
      invariant 2 <= count <= |coeff|
      invariant poly == PolyOf(coeff[2..count])
    {
      poly := poly | Power(coeff[count]);
      PolyOfNext(coeff, count);
      count := count + 1;
    }
    assert coeff[2..count] == coeff[2..];
  }

  method GenerateMask(coeff: seq<nat>) returns (mask: word)
    requires IsCoeff(coeff)
    ensures mask == LowOnes(coeff[1])
  {
    mask := 0;
    var count := 0;
    while count < coeff[1]
      invariant count <= coeff[1]
      invariant mask == LowOnes(count)
    {
      mask := mask | Power(count);
      count := count + 1;
    }
  }

  function LowOnes(n: nat): word {
    if n == 0 then 0 else LowOnes(n - 1) | Power(n - 1)
  }

  lemma LowOnesFour(n: nat)
    ensures LowOnes(n + 4) == LowOnes(n) | Power(n) | Power(n + 1) | Power(n + 2) | Power(n + 3)
  {
    assert LowOnes(n + 2) == LowOnes(n) | Power(n) | Power(n + 1);
  }

  lemma LowOnesAll()
    ensures LowOnes(32) == 0xFFFF_FFFF
  {
    assert LowOnes(4) == 0xF by { LowOnesFour(0); }
    assert LowOnes(8) == 0xFF by { LowOnesFour(4); }
    assert LowOnes(12) == 0xFFF by { LowOnesFour(8); }
    assert LowOnes(16) == 0xFFFF by { LowOnesFour(12); }
    assert LowOnes(20) == 0xF_FFFF by { LowOnesFour(16); }
    assert LowOnes(24) == 0xFF_FFFF by { LowOnesFour(20); }
    assert LowOnes(28) == 0xFFF_FFFF by { LowOnesFour(24); }
    LowOnesFour(28);
  }

  ghost predicate TableTo(table: seq<word>, n: nat)
    requires n <= 256
  {
    |table| == n && forall k :: 0 <= k < n ==> table[k] == Entry(k as word)
  }

  /** The table the generator prints is the table the hash needs. */
  method GenerateTable(coeff: seq<nat>) returns (table: seq<word>)
    requires IsCoeff(coeff) && coeff[1] == 32 && coeff[2..] == COEFFICIENTS
    ensures IsTable(table)
  {
    var poly := GeneratePoly(coeff);
    var mask := GenerateMask(coeff);
    PolyOfCoefficients();
    LowOnesAll();
    table := GenerateEntries(poly, mask);
  }

  method GenerateEntries(poly: word, mask: word) returns (table: seq<word>)
    requires poly == POLY && mask == 0xFFFF_FFFF
    ensures IsTable(table)
  {
    hide TableTo, Entry;
    table := [];
    var count := 0;
    NoEntries();
    while count <= 255
      invariant count <= 256 && TableTo(table, count)
    {
      var entry := GenerateEntry(count, poly, mask);
      OneMoreEntry(table, entry, count);
      table := table + [entry];
      count := count + 1;
    }
  }

  lemma NoEntries()
    ensures TableTo([], 0)
  {
  }

  lemma OneMoreEntry(table: seq<word>, entry: word, n: nat)
    requires n <= 255 && TableTo(table, n) && entry == Entry(n as word)
    ensures TableTo(table + [entry], n + 1)
  {
    hide Entry;
  }

  lemma CountIsByte(count: nat)
    requires count <= 255
    ensures count as word < 256
  {
  }

  method GenerateEntry(count: nat, poly: word, mask: word) returns (entry: word)
    requires poly == POLY && mask == 0xFFFF_FFFF && count <= 255
    ensures entry == Entry(count as word)
  {
    CountIsByte(count);
    var crc: word := 0;
    var bits := (count as word) << 24;
    var bit := 8;
    while 0 < bit
      invariant 0 <= bit <= 8
      invariant Divide(crc, bits, bit) == Divide(0, (count as word) << 24, 8)
    {
      crc := GenerateBit(bits, crc, poly);
      bits := Shift(bits);
      bit := bit - 1;
    }
    DivideByte(0, count as word);
    XorOntoZero((count as word) << 24);
    FullMask(crc);
    entry := crc & mask;
  }

  method GenerateBit(byte: word, crc: word, poly: word) returns (r: word)
    requires poly == POLY
    ensures r == Xor(Shift(crc), Carry(Xor(byte, crc)))
  {
    if (byte ^ crc) & MSB != 0 {
      r := (crc << 1) ^ poly;
    } else {
      r := crc << 1;
      XorZero(r);
    }
  }

  lemma FullMask(w: word)
    ensures w & 0xFFFF_FFFF == w
  {
  }

  // ---------- crcfn.c ----------

  function Crcfn(table: seq<word>, mask: word, curr: word, b: byte): word
    requires |table| == 256
  {
    LeavingIsByte(curr, b);
    Mix(curr << 8, table[Index((curr >> 24) ^ b)], mask)
  }

  function Mix(shifted: word, entry: word, mask: word): word {
    (shifted ^ entry) & mask
  }

  lemma LeavingIsByte(curr: word, b: byte)
    ensures (curr >> 24) ^ b < 256
  {
  }

  function Index(w: byte): (i: nat)
    ensures i < 256
  {
    w as int
  }

  lemma LowHalf(curr: word)
    ensures curr & 0x00FF_FFFF < 0x100_0000 && (curr & 0x00FF_FFFF) << 8 == curr << 8
  {
  }

  lemma LowStep(curr: word)
    ensures MulXTimes(curr & 0x00FF_FFFF, 8) == curr << 8
  {
    LowHalf(curr);
    LowByteShift(curr & 0x00FF_FFFF);
  }

  lemma RegisterSplits(curr: word, w: word)
    ensures Xor(curr, w << 24) == Xor(curr & 0x00FF_FFFF, ((curr >> 24) ^ w) << 24)
  {
  }

  lemma SplitStep(x: word, low: word, top: word, high: word)
    requires x == Xor(low, top) && MulXTimes(low, 8) == high
    ensures MulXTimes(x, 8) == Xor(high, MulXTimes(top, 8))
  {
    MulXTimesAdditive(low, top, 8);
  }

  lemma ByteStepSplits(curr: word, w: byte, out: word)
    requires out == (curr >> 24) ^ w
    ensures ByteStep(curr, w) == Xor(curr << 8, Entry(out))
  {
    RegisterSplits(curr, w);
    LowStep(curr);
    SplitStep(Xor(curr, w << 24), curr & 0x00FF_FFFF, out << 24, curr << 8);
  }

  lemma MixUnmasked(x: word, e: word)
    ensures Mix(x, e, 0xFFFF_FFFF) == Xor(x, e)
  {
  }

  lemma CrcfnIsMix(table: seq<word>, curr: word, w: byte, out: byte)
    requires IsTable(table) && out == (curr >> 24) ^ w
    ensures Crcfn(table, 0xFFFF_FFFF, curr, w) == Xor(curr << 8, Entry(out))
  {
    LeavingIsByte(curr, w);
    TableAt(table, out);
    MixUnmasked(curr << 8, Entry(out));
  }

  /** One table step is eight coefficient steps. */
  lemma CrcfnIsByteStep(table: seq<word>, curr: word, w: byte)
    requires IsTable(table)
    ensures Crcfn(table, 0xFFFF_FFFF, curr, w) == ByteStep(curr, w)
  {
    LeavingIsByte(curr, w);
    CrcfnIsMix(table, curr, w, (curr >> 24) ^ w);
    ByteStepSplits(curr, w, (curr >> 24) ^ w);
  }

  lemma TableAt(table: seq<word>, w: byte)
    requires IsTable(table)
    ensures table[Index(w)] == Entry(w)
  {
    var i := Index(w);
    assert i as word == w;
  }

  predicate HasNul(buf: seq<byte>) {
    0 in buf
  }

  function UpToNul(buf: seq<byte>): (s: seq<byte>)
    requires HasNul(buf)
    ensures |s| < |buf| && s == buf[..|s|] && 0 !in s && buf[|s|] == 0
  {
    if buf[0] == 0 then [] else [buf[0]] + UpToNul(buf[1..])
  }

  /** The octets hashed: len of them, or those before the first NUL when len is negative. */
  function Hashed(buf: seq<byte>, len: int): seq<byte>
    requires if len < 0 then HasNul(buf) else len <= |buf|
  {
    if len < 0 then UpToNul(buf) else buf[..len]
  }

  lemma HashOneMore(table: seq<word>, s: seq<byte>, i: nat)
    requires IsTable(table) && i < |s|
    ensures Crcfn(table, 0xFFFF_FFFF, DirectBytes(0, s[..i]), s[i]) == DirectBytes(0, s[..i + 1])
  {
    CrcfnIsByteStep(table, DirectBytes(0, s[..i]), s[i]);
    FoldSnoc(ByteStep, 0, s[..i], s[i]);
    assert s[..i] + [s[i]] == s[..i + 1];
  }

  lemma TableSize(table: seq<word>)
    requires IsTable(table)
    ensures |table| == 256
  {
  }

  lemma NothingHashed()
    ensures DirectBytes(0, []) == 0
  {
  }

  method Hashfn(table: seq<word>, mask: word, buf: seq<byte>, len: int) returns (hash: word)
    requires IsTable(table) && mask == 0xFFFF_FFFF
    requires if len < 0 then HasNul(buf) else len <= |buf|
    ensures hash == MessageCrc(Hashed(buf, len))
  {
    hide DirectBytes, Crcfn, MessageCrc, IsTable;
    TableSize(table);
    hash := 0;
    ghost var s := Hashed(buf, len);
    var i := 0;
    NothingHashed();
    assert s[..0] == [];
    if len < 0 {
      while buf[i] != 0
        invariant i <= |s|
        invariant hash == DirectBytes(0, s[..i])
        decreases |s| - i
      {
        HashOneMore(table, s, i);
        hash := Crcfn(table, mask, hash, buf[i]);
        i := i + 1;
      }
    } else {
      while i < len
        invariant 0 <= i <= len
        invariant hash == DirectBytes(0, s[..i])
      {
        HashOneMore(table, s, i);
        hash := Crcfn(table, mask, hash, buf[i]);
        i := i + 1;
      }
    }
    assert s[..i] == s;
    BytesAreMessageCrc(s);
  }

  function PolyOf(coeff: seq<nat>): word {
    if coeff == [] then 0 else PolyOf(coeff[..|coeff| - 1]) | Power(coeff[|coeff| - 1])
  }

  lemma PolyOfSnoc(s: seq<nat>, k: nat)
    ensures PolyOf(s + [k]) == PolyOf(s) | Power(k)
  {
    assert (s + [k])[..|s|] == s;
  }

  lemma PolyOfNext(coeff: seq<nat>, count: nat)
    requires 2 <= count < |coeff|
    ensures PolyOf(coeff[2..count + 1]) == PolyOf(coeff[2..count]) | Power(coeff[count])
  {
    PolyOfSnoc(coeff[2..count], coeff[count]);
    assert coeff[2..count] + [coeff[count]] == coeff[2..count + 1];
  }

  lemma PolyOfFive(s: seq<nat>, w: word, a: nat, b: nat, c: nat, d: nat, e: nat)
    requires PolyOf(s) == w
    ensures PolyOf(s + [a, b, c, d, e]) == w | Power(a) | Power(b) | Power(c) | Power(d) | Power(e)
  {
    PolyOfSnoc(s, a);
    PolyOfSnoc(s + [a], b);
    PolyOfSnoc(s + [a] + [b], c);
    PolyOfSnoc(s + [a] + [b] + [c], d);
    PolyOfSnoc(s + [a] + [b] + [c] + [d], e);
    assert s + [a] + [b] + [c] + [d] + [e] == s + [a, b, c, d, e];
  }

  lemma PolyOfCoefficients()
    ensures PolyOf(COEFFICIENTS) == POLY
  {
    PolyOfFive([], 0, 32, 26, 23, 22, 16);
    Powers();
    PolyOfFive([] + [32, 26, 23, 22, 16], 0x04C1_0000, 12, 11, 10, 8, 7);
    PolyOfFive([] + [32, 26, 23, 22, 16] + [12, 11, 10, 8, 7], 0x04C1_1D80, 5, 4, 2, 1, 0);
    assert COEFFICIENTS == [] + [32, 26, 23, 22, 16] + [12, 11, 10, 8, 7] + [5, 4, 2, 1, 0];
  }

  lemma Powers()
    ensures 0 | Power(32) | Power(26) | Power(23) | Power(22) | Power(16) == 0x04C1_0000
    ensures 0x04C1_0000 | Power(12) | Power(11) | Power(10) | Power(8) | Power(7) == 0x04C1_1D80
    ensures 0x04C1_1D80 | Power(5) | Power(4) | Power(2) | Power(1) | Power(0) == 0x04C1_1DB7
  {
  }

  // ---------- What the hash promises ----------

  function XorByte(a: byte, b: byte): byte {
    a ^ b
  }

  function XorBytes(a: seq<byte>, b: seq<byte>): (s: seq<byte>)
    requires |a| == |b|
    ensures |s| == |a|
  {
    seq(|a|, i requires 0 <= i < |a| => XorByte(a[i], b[i]))
  }

  lemma ByteAdditive(a: byte, b: byte)
    ensures XorByte(a, b) << 24 == Xor(a << 24, b << 24)
  {
  }

  lemma StepAdditive(r: word, q: word, u: word, v: word)
    ensures MulXTimes(Xor(Xor(r, q), Xor(u, v)), 8) == Xor(MulXTimes(Xor(r, u), 8), MulXTimes(Xor(q, v), 8))
  {
    XorSwaps();
    assert Xor(Xor(r, q), Xor(u, v)) == Xor(Xor(r, u), Xor(q, v));
    MulXTimesAdditive(Xor(r, u), Xor(q, v), 8);
  }

  lemma ByteStepAdditive(r: word, q: word, a: byte, b: byte)
    ensures ByteStep(Xor(r, q), XorByte(a, b)) == Xor(ByteStep(r, a), ByteStep(q, b))
  {
    ByteAdditive(a, b);
    StepAdditive(r, q, a << 24, b << 24);
  }

  lemma {:induction false} BytesAdditive(r: word, q: word, a: seq<byte>, b: seq<byte>)
    requires |a| == |b|
    ensures DirectBytes(Xor(r, q), XorBytes(a, b)) == Xor(DirectBytes(r, a), DirectBytes(q, b))
    decreases |a|
  {
    if a != [] {
      var n := |a| - 1;
      BytesAdditive(r, q, a[..n], b[..n]);
      assert XorBytes(a, b)[..n] == XorBytes(a[..n], b[..n]);
      ByteStepAdditive(DirectBytes(r, a[..n]), DirectBytes(q, b[..n]), a[n], b[n]);
    }
  }

  /** The hash of the xor of two equally long strings is the xor of their hashes. */
  lemma HashIsLinear(a: seq<byte>, b: seq<byte>)
    requires |a| == |b|
    ensures MessageCrc(XorBytes(a, b)) == MessageCrc(a) ^ MessageCrc(b)
  {
    BytesAdditive(0, 0, a, b);
    XorZero(0);
    BytesAreMessageCrc(XorBytes(a, b));
    BytesAreMessageCrc(a);
    BytesAreMessageCrc(b);
  }

  lemma XorCancels(a: word, b: word, c: word)
    requires Xor(a, c) == Xor(b, c)
    ensures a == b
  {
  }

  lemma ByteStepInjective(r: word, q: word, b: byte)
    requires ByteStep(r, b) == ByteStep(q, b)
    ensures r == q
  {
    MulXTimesInjective(Xor(r, (b << 24)), Xor(q, (b << 24)), 8);
    XorCancels(r, q, (b << 24));
  }

  lemma {:induction false} SuffixInjective(r: word, q: word, s: seq<byte>)
    requires DirectBytes(r, s) == DirectBytes(q, s)
    ensures r == q
    decreases |s|
  {
    if s != [] {
      var n := |s| - 1;
      ByteStepInjective(DirectBytes(r, s[..n]), DirectBytes(q, s[..n]), s[n]);
      SuffixInjective(r, q, s[..n]);
    }
  }

  function FourBytes(s: seq<byte>): word
    requires |s| == 4
  {
    Xor(Xor(Xor(First(s[0]), Second(s[1])), Third(s[2])), s[3])
  }

  function First(b: byte): word {
    b << 24
  }

  function Second(b: byte): word {
    b << 16
  }

  function Third(b: byte): word {
    b << 8
  }

  lemma FourBytesInjective(a: seq<byte>, b: seq<byte>)
    requires |a| == |b| == 4 && FourBytes(a) == FourBytes(b)
    ensures a == b
  {
  }

  lemma FourByteSteps(r: word, s: seq<byte>)
    requires |s| == 4
    ensures DirectBytes(r, s) == MulXTimes(Xor(r, FourBytes(s)), 32)
  {
    FourStepsLower(r, s[0], s[1], s[2], s[3]);
    Fold4(ByteStep, r, s);
    FourBytesEnter(r, s);
  }

  lemma FourBytesEnter(r: word, s: seq<byte>)
    requires |s| == 4
    ensures Xor(r, FourBytes(s)) == Xor(Xor(Xor(Xor(r, First(s[0])), Second(s[1])), Third(s[2])), s[3])
  {
    XorAssociates();
    AssociateFour(Xor, r, First(s[0]), Second(s[1]), Third(s[2]), s[3]);
  }

  lemma FourStepsLower(r: word, b0: byte, b1: byte, b2: byte, b3: byte)
    ensures ByteStep(ByteStep(ByteStep(ByteStep(r, b0), b1), b2), b3)
      == MulXTimes(Xor(Xor(Xor(Xor(r, First(b0)), Second(b1)), Third(b2)), b3), 32)
  {
    Rise1(b1);
    Rise2(b2);
    Rise3(b3);
    MulXIsAdditive();
    IterateFour(Xor, MulX, r, First(b0), First(b1), First(b2), First(b3), Second(b1), Third(b2), b3);
  }

  lemma Rise1(b: byte)
    ensures MulXTimes(Second(b), 8) == First(b)
  {
    LowByteShift(Second(b));
  }

  lemma Rise2(b: byte)
    ensures MulXTimes(Third(b), 16) == First(b)
  {
    LowByteShift(Third(b));
    Rise1(b);
    MulXTimesSum(Third(b), 8, 8);
  }

  lemma Rise3(b: byte)
    ensures MulXTimes(b, 24) == First(b)
  {
    LowByteShift(b);
    Rise2(b);
    MulXTimesSum(b, 8, 16);
  }

  /** Any change confined to four consecutive bytes changes the hash. */
  lemma BurstDetected(pre: seq<byte>, a: seq<byte>, b: seq<byte>, post: seq<byte>)
    requires |a| == |b| == 4 && a != b
    ensures MessageCrc(pre + a + post) != MessageCrc(pre + b + post)
  {
    BytesAreMessageCrc(pre + a + post);
    BytesAreMessageCrc(pre + b + post);
    var r := DirectBytes(0, pre);
    FoldAppend(ByteStep, 0, pre + a, post);
    FoldAppend(ByteStep, 0, pre + b, post);
    FoldAppend(ByteStep, 0, pre, a);
    FoldAppend(ByteStep, 0, pre, b);
    if MessageCrc(pre + a + post) == MessageCrc(pre + b + post) {
      SuffixInjective(DirectBytes(r, a), DirectBytes(r, b), post);
      FourByteSteps(r, a);
      FourByteSteps(r, b);
      MulXTimesInjective(Xor(r, FourBytes(a)), Xor(r, FourBytes(b)), 32);
      XorCommutes();
      XorCancels(FourBytes(a), FourBytes(b), r);
      FourBytesInjective(a, b);
    }
  }
}
