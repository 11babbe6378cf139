/** Fresh keys: two splitmix64 draws each, from one 64-bit state per thread. */
module KeyGenerator {

  /** One more than the largest 64-bit word. Word arithmetic wraps here. */
  const MODULUS: nat := 0x1_0000_0000_0000_0000

  type word = n: nat | n < 0x1_0000_0000_0000_0000

  // ----- bits -------------------------------------------------------------------

  function Xor(a: nat, b: nat): nat
    decreases a + b
  {
    if a == 0 && b == 0 then 0 else 2 * Xor(a / 2, b / 2) + (a + b) % 2
  }

  function Shift(a: nat, s: nat): nat {
    if s == 0 then a else Shift(a / 2, s - 1)
  }

  lemma {:induction false} XorSame(a: nat)
    ensures Xor(a, a) == 0
  {
    if a > 0 { XorSame(a / 2); }
  }

  lemma {:induction false} XorZero(a: nat)
    ensures Xor(a, 0) == a && Xor(0, a) == a
  {
    if a > 0 { XorZero(a / 2); }
  }

  lemma {:induction false} XorSwap(a: nat, b: nat)
    ensures Xor(a, b) == Xor(b, a)
    decreases a + b
  {
    if a > 0 || b > 0 { XorSwap(a / 2, b / 2); }
  }

  lemma {:induction false} XorRegroup(a: nat, b: nat, c: nat)
    ensures Xor(Xor(a, b), c) == Xor(a, Xor(b, c))
    decreases a + b + c
  {
    if a > 0 || b > 0 || c > 0 {
      hide Xor;
      XorRegroup(a / 2, b / 2, c / 2);
      SumParity(a, b, c, Xor(a, b), Xor(b, c));
      XorDigit(a, b);
      XorDigit(b, c);
      XorDigit(Xor(a, b), c);
      XorDigit(a, Xor(b, c));
    }
  }

  lemma SumParity(a: nat, b: nat, c: nat, x: nat, y: nat)
    ensures x % 2 == (a + b) % 2 && y % 2 == (b + c) % 2 ==> (x + c) % 2 == (a + y) % 2
  {}

  lemma XorDigit(a: nat, b: nat)
    ensures Xor(a, b) / 2 == Xor(a / 2, b / 2) && Xor(a, b) % 2 == (a + b) % 2
    ensures Xor(a, b) == 2 * Xor(a / 2, b / 2) + (a + b) % 2
  {
    if a == 0 && b == 0 { assert Xor(0, 0) == 0; }
  }

  lemma {:induction false} XorShift(a: nat, b: nat, s: nat)
    ensures Shift(Xor(a, b), s) == Xor(Shift(a, s), Shift(b, s))
    decreases s
  {
    if s > 0 {
      XorDigit(a, b);
      XorShift(a / 2, b / 2, s - 1);
    }
  }

  lemma {:induction false} ShiftTwice(a: nat, s: nat, r: nat)
    ensures Shift(Shift(a, s), r) == Shift(a, s + r)
    decreases s
  {
    if s > 0 { ShiftTwice(a / 2, s - 1, r); }
  }

  function Pow2(n: nat): nat { if n == 0 then 1 else 2 * Pow2(n - 1) }

  lemma {:induction false} ShiftsOut(a: nat, s: nat)
    requires a < Pow2(s)
    ensures Shift(a, s) == 0
    decreases s
  {
    if s > 0 { ShiftsOut(a / 2, s - 1); }
  }

  lemma {:induction false} XorFits(a: nat, b: nat, n: nat)
    requires a < Pow2(n) && b < Pow2(n)
    ensures Xor(a, b) < Pow2(n)
    decreases n
  {
    if n > 0 && (a > 0 || b > 0) { XorFits(a / 2, b / 2, n - 1); }
  }

  lemma {:induction false} ShiftShrinks(a: nat, s: nat)
    ensures Shift(a, s) <= a
    decreases s
  {
    if s > 0 { ShiftShrinks(a / 2, s - 1); }
  }

  lemma {:induction false} Pow2Grows(m: nat, n: nat)
    requires m <= n
    ensures Pow2(m) <= Pow2(n)
  {
    if m < n { Pow2Grows(m, n - 1); }
  }

  lemma WordSize()
    ensures Pow2(64) == MODULUS
  {
    assert Pow2(8) == 0x100 && Pow2(16) == 0x1_0000 by { assert Pow2(4) == 16 && Pow2(12) == 4096; }
    Doubled(8, 8);
    Doubled(16, 16);
    Doubled(32, 32);
  }

  lemma {:induction false} Doubled(m: nat, n: nat)
    ensures Pow2(m + n) == Pow2(m) * Pow2(n)
  {
    if m > 0 {
      Doubled(m - 1, n);
      Regroup(Pow2(m - 1), Pow2(n));
    }
  }

  lemma Regroup(a: nat, b: nat)
    ensures 2 * (a * b) == (2 * a) * b
  {}

  // ----- the finaliser ----------------------------------------------------------

  /** `z ^ (z >> s)` */
  function Fold(z: word, s: nat): word {
    WordSize();
    ShiftShrinks(z, s);
    XorFits(z, Shift(z, s), 64);
    Xor(z, Shift(z, s))
  }

  /** A fold is undone by folding on: what is shifted three times has left the word. */
  lemma FoldUndone(z: word, s: nat)
    requires 3 * s >= 64
    ensures Xor(Xor(Fold(z, s), Shift(Fold(z, s), s)), Shift(Fold(z, s), s + s)) == z
  {
    hide Xor, Shift, Pow2;
    var a, b, c, d := z, Shift(z, s), Shift(z, s + s), Shift(z, s + s + s);
    ShiftTwice(z, s, s);
    ShiftTwice(z, s, s + s);
    XorShift(a, b, s);
    XorShift(a, b, s + s);
    WordSize();
    Pow2Grows(64, s + s + s);
    ShiftsOut(z, s + s + s);
    // (a ^ b) ^ (b ^ c) ^ (c ^ d), with nothing left in d
    XorRegroup(a, b, Xor(b, c));
    XorRegroup(b, b, c);
    XorSame(b);
    XorZero(c);
    XorRegroup(a, c, Xor(c, d));
    XorRegroup(c, c, d);
    XorSame(c);
    XorZero(d);
    XorZero(a);
  }

  function TimesFirst(z: word): word { (z * 0xBF58_476D_1CE4_E5B9) % MODULUS }

  function TimesSecond(z: word): word { (z * 0x94D0_49BB_1331_11EB) % MODULUS }

  lemma Residue(x: int, r: word, turns: int)
    requires x == r + turns * MODULUS
    ensures x % MODULUS == r
  {}

  /** The multipliers are odd, so each has an inverse: the two multiply to one more
      than a multiple of the modulus. */
  lemma FirstUndone(z: word)
    ensures (TimesFirst(z) * 0x96DE_1B17_3F11_9089) % MODULUS == z
  {
    var turns := z * 0xBF58_476D_1CE4_E5B9 / MODULUS;
    assert TimesFirst(z) == z * 0xBF58_476D_1CE4_E5B9 - turns * MODULUS;
    Residue(TimesFirst(z) * 0x96DE_1B17_3F11_9089, z, z * 0x70C3_BCA7_8F27_F46C - turns * 0x96DE_1B17_3F11_9089);
  }

  lemma SecondUndone(z: word)
    ensures (TimesSecond(z) * 0x3196_42B2_D24D_8EC3) % MODULUS == z
  {
    var turns := z * 0x94D0_49BB_1331_11EB / MODULUS;
    assert TimesSecond(z) == z * 0x94D0_49BB_1331_11EB - turns * MODULUS;
    Residue(TimesSecond(z) * 0x3196_42B2_D24D_8EC3, z, z * 0x1CD3_36ED_A85F_1453 - turns * 0x3196_42B2_D24D_8EC3);
  }

  function Mix(z: word): word { Fold(TimesSecond(Fold(TimesFirst(Fold(z, 30)), 27)), 31) }

  /** The finaliser is one to one on words. */
  lemma MixInjective(y: word, z: word)
    requires Mix(y) == Mix(z)
    ensures y == z
  {
    hide Fold, TimesFirst, TimesSecond, Xor, Shift;
    FoldUndone(TimesSecond(Fold(TimesFirst(Fold(y, 30)), 27)), 31);
    FoldUndone(TimesSecond(Fold(TimesFirst(Fold(z, 30)), 27)), 31);
    SecondUndone(Fold(TimesFirst(Fold(y, 30)), 27));
    SecondUndone(Fold(TimesFirst(Fold(z, 30)), 27));
    FoldUndone(TimesFirst(Fold(y, 30)), 27);
    FoldUndone(TimesFirst(Fold(z, 30)), 27);
    FirstUndone(Fold(y, 30));
    FirstUndone(Fold(z, 30));
    FoldUndone(y, 30);
    FoldUndone(z, 30);
  }

  // ----- draws ------------------------------------------------------------------

  function Advance(state: word): word { (state + 0x9E37_79B9_7F4A_7C15) % MODULUS }

  /** The state after `n` draws. */
  function StateAfter(seed: word, n: nat): word {
    if n == 0 then seed else Advance(StateAfter(seed, n - 1))
  }

  /** How often the state has wrapped after `n` draws. */
  lemma {:induction false} StateCounts(seed: word, n: nat) returns (turns: int)
    ensures seed + n * 0x9E37_79B9_7F4A_7C15 == StateAfter(seed, n) + turns * MODULUS
  {
    if n == 0 {
      turns := 0;
    } else {
      var before := StateCounts(seed, n - 1);
      var sum := StateAfter(seed, n - 1) + 0x9E37_79B9_7F4A_7C15;
      turns := before + sum / MODULUS;
    }
  }

  /** The increment is odd, so the state runs through every word before it repeats. */
  lemma StatesDiffer(seed: word, m: nat, n: nat)
    requires m < n < m + MODULUS
    ensures StateAfter(seed, m) != StateAfter(seed, n)
  {
    var s := StateCounts(seed, m);
    var t := StateCounts(seed, n);
    if StateAfter(seed, m) == StateAfter(seed, n) {
      NoShortCycle(n - m, t - s);
    }
  }

  lemma NoShortCycle(d: nat, turns: int)
    requires d * 0x9E37_79B9_7F4A_7C15 == turns * MODULUS && d < MODULUS
    ensures d == 0
  {
    var w := turns * 0xF1DE_83E1_9937_733D - d * 0x957B_BF35_006E_D677;
    assert d == w * MODULUS;
  }

  /** A key's 128 bits, as its high and low halves. */
  datatype KeyBits = KeyBits(hi: word, lo: word)

  /** The nil key a table's root keeps. */
  const ROOT_BITS: KeyBits := KeyBits(0, 0)

  /** The key made after `k` others. */
  function KeyAt(seed: word, k: nat): KeyBits {
    KeyBits(Mix(StateAfter(seed, 2 * k + 1)), Mix(StateAfter(seed, 2 * k + 2)))
  }

  /** From any seed the first two to the 63 keys are pairwise distinct. */
  lemma KeysDistinct(seed: word, j: nat, k: nat)
    requires j < k < 0x8000_0000_0000_0000
    ensures KeyAt(seed, j) != KeyAt(seed, k)
  {
    hide Mix, StateAfter;
    StatesDiffer(seed, 2 * j + 1, 2 * k + 1);
    if KeyAt(seed, j) == KeyAt(seed, k) {
      MixInjective(StateAfter(seed, 2 * j + 1), StateAfter(seed, 2 * k + 1));
    }
  }

  /** The halves of a key always differ, so none is the root key. */
  lemma HalvesDiffer(seed: word, k: nat)
    ensures KeyAt(seed, k).hi != KeyAt(seed, k).lo && KeyAt(seed, k) != ROOT_BITS
  {
    hide Mix, StateAfter;
    StatesDiffer(seed, 2 * k + 1, 2 * k + 2);
    if KeyAt(seed, k).hi == KeyAt(seed, k).lo {
      MixInjective(StateAfter(seed, 2 * k + 1), StateAfter(seed, 2 * k + 2));
    }
  }

  // ----- the generator ----------------------------------------------------------

  class KeyRng {
    var state: word
    ghost const seed: word
    ghost var made: nat

    /** Two draws have been made for each key. */
    ghost predicate Valid()
      reads this
    {
      state == StateAfter(seed, 2 * made)
    }

    constructor (start: word)
      ensures Valid() && made == 0 && seed == start
    {
      state, seed, made := start, start, 0;
    }

    /** One draw: the state moves on by the increment, and its new value is mixed. */
    method SplitMix64() returns (z: word)
      modifies this`state
      ensures state == Advance(old(state)) && z == Mix(state)
    {
      hide Fold, TimesFirst, TimesSecond, Advance;
      var next := Advance(state);
      state := next;
      z := TimesFirst(Fold(next, 30));
      z := TimesSecond(Fold(z, 27));
      z := Fold(z, 31);
    }

    method Generate() returns (key: KeyBits)
      requires Valid()
      modifies this`state, this`made
      ensures Valid() && made == old(made) + 1 && key == KeyAt(seed, old(made))
    {
      hide Mix, Advance;
      assert StateAfter(seed, 2 * made + 1) == Advance(state);
      assert StateAfter(seed, 2 * made + 2) == Advance(Advance(state));
      var hi := SplitMix64();
      var lo := SplitMix64();
      made := made + 1;
      key := KeyBits(hi, lo);
    }

    /** Any run of up to two to the 63 keys from a fresh generator repeats none and
        never yields the root key. */
    method GenerateMany(n: nat) returns (keys: seq<KeyBits>)
      requires Valid() && made == 0 && n <= 0x8000_0000_0000_0000
      modifies this`state, this`made
      ensures |keys| == n && ROOT_BITS !in keys
      ensures forall i, j | 0 <= i < j < n :: keys[i] != keys[j]
    {
      hide KeyAt, StateAfter;
      keys := [];
      for i := 0 to n
        invariant Valid() && made == i == |keys| && ROOT_BITS !in keys
        invariant forall j | 0 <= j < i :: keys[j] == KeyAt(seed, j)
      {
        HalvesDiffer(seed, made);
        var key := Generate();
        keys := keys + [key];
      }
      forall i, j | 0 <= i < j < n ensures keys[i] != keys[j] {
        KeysDistinct(seed, i, j);
      }
    }
  }

  // ----- a known key --------------------------------------------------------------

  /** A word by its bytes, the highest first. */
  datatype Octets = Octets(a: bv8, b: bv8, c: bv8, d: bv8, e: bv8, f: bv8, g: bv8, h: bv8)

  function Octet(x: bv8): (n: nat)
    ensures n < 256
  {
    x as nat
  }

  function Horner(front: nat, x: nat): nat { 256 * front + x }

  function Front(w: Octets): nat {
    Horner(Horner(Horner(Horner(Horner(Octet(w.a), Octet(w.b)), Octet(w.c)), Octet(w.d)), Octet(w.e)), Octet(w.f))
  }

  function Value(w: Octets): nat {
    Horner(Horner(Front(w), Octet(w.g)), Octet(w.h))
  }

  function XorOctets(v: Octets, w: Octets): Octets {
    Octets(v.a ^ w.a, v.b ^ w.b, v.c ^ w.c, v.d ^ w.d, v.e ^ w.e, v.f ^ w.f, v.g ^ w.g, v.h ^ w.h)
  }

  lemma HalfOctet(x: bv8)
    ensures Octet(x) == 2 * Octet(x >> 1) + (if x & 1 == 0 then 0 else 1)
    ensures x != 0 ==> Octet(x >> 1) < Octet(x)
  {
    assert x as nat == 2 * ((x >> 1) as nat) + (x & 1) as nat;
    assert x & 1 == 0 || x & 1 == 1;
  }

  lemma ZeroOctet()
    ensures Octet(0) == 0 && 0 as bv8 ^ 0 == 0 && 0 as bv8 >> 1 == 0
  {}

  lemma ByteBits(x: bv8, y: bv8)
    ensures (x ^ y) >> 1 == (x >> 1) ^ (y >> 1) && ((x ^ y) & 1 == 0 <==> (x & 1 == 0 <==> y & 1 == 0))
  {}

  lemma XorStep(a: nat, b: nat, x: nat, y: nat)
    requires x < 2 && y < 2
    ensures Xor(2 * a + x, 2 * b + y) == 2 * Xor(a, b) + (if x == y then 0 else 1)
  {
    hide Xor;
    XorDigit(2 * a + x, 2 * b + y);
  }

  lemma {:induction false} XorByte(x: bv8, y: bv8)
    ensures Xor(Octet(x), Octet(y)) == Octet(x ^ y)
    decreases Octet(x) + Octet(y)
  {
    hide Xor, Octet;
    ZeroOctet();
    if x == 0 && y == 0 {
      XorZero(0);
    } else {
      HalfOctet(x);
      HalfOctet(y);
      HalfOctet(x ^ y);
      ByteBits(x, y);
      XorByte(x >> 1, y >> 1);
      XorStep(Octet(x >> 1), Octet(y >> 1), if x & 1 == 0 then 0 else 1, if y & 1 == 0 then 0 else 1);
    }
  }

  lemma {:induction false} XorJoins(a: nat, b: nat, x: nat, y: nat, n: nat)
    requires x < Pow2(n) && y < Pow2(n)
    ensures Xor(Pow2(n) * a + x, Pow2(n) * b + y) == Pow2(n) * Xor(a, b) + Xor(x, y)
    decreases n
  {
    hide Xor;
    if n == 0 {
      XorZero(0);
    } else {
      var m := Pow2(n - 1);
      XorJoins(a, b, x / 2, y / 2, n - 1);
      XorHalves(m * a, x, m * b, y);
      Regroup(m, a);
      Regroup(m, b);
      Regroup(m, Xor(a, b));
    }
  }

  lemma XorHalves(a: nat, x: nat, b: nat, y: nat)
    ensures Xor(2 * a + x, 2 * b + y) - 2 * Xor(a + x / 2, b + y / 2) == Xor(x, y) - 2 * Xor(x / 2, y / 2)
  {
    hide Xor;
    XorDigit(2 * a + x, 2 * b + y);
    XorDigit(x, y);
  }

  lemma XorHorner(a: nat, b: nat, x: nat, y: nat)
    requires x < 256 && y < 256
    ensures Xor(Horner(a, x), Horner(b, y)) == Horner(Xor(a, b), Xor(x, y))
  {
    hide Xor;
    assert Pow2(8) == 256 by { assert Pow2(4) == 16; }
    XorJoins(a, b, x, y, 8);
  }

  lemma XorFront(v: Octets, w: Octets)
    ensures Xor(Front(v), Front(w)) == Front(XorOctets(v, w))
  {
    hide Xor, Horner, Octet;
    XorByte(v.a, w.a);
    XorByte(v.b, w.b);
    XorByte(v.c, w.c);
    XorByte(v.d, w.d);
    XorByte(v.e, w.e);
    XorByte(v.f, w.f);
    XorHorner(Octet(v.a), Octet(w.a), Octet(v.b), Octet(w.b));
    var p, q := Horner(Octet(v.a), Octet(v.b)), Horner(Octet(w.a), Octet(w.b));
    XorHorner(p, q, Octet(v.c), Octet(w.c));
    XorHorner(Horner(p, Octet(v.c)), Horner(q, Octet(w.c)), Octet(v.d), Octet(w.d));
    p, q := Horner(Horner(p, Octet(v.c)), Octet(v.d)), Horner(Horner(q, Octet(w.c)), Octet(w.d));
    XorHorner(p, q, Octet(v.e), Octet(w.e));
    XorHorner(Horner(p, Octet(v.e)), Horner(q, Octet(w.e)), Octet(v.f), Octet(w.f));
  }

  /** The exclusive or of two words is that of their bytes. */
  lemma XorValue(v: Octets, w: Octets)
    ensures Xor(Value(v), Value(w)) == Value(XorOctets(v, w))
  {
    hide Xor, Horner, Octet, Front;
    XorByte(v.g, w.g);
    XorByte(v.h, w.h);
    XorFront(v, w);
    XorHorner(Front(v), Front(w), Octet(v.g), Octet(w.g));
    XorHorner(Horner(Front(v), Octet(v.g)), Horner(Front(w), Octet(w.g)), Octet(v.h), Octet(w.h));
  }

  /** A shift to the right is a division. */
  lemma {:induction false} ShiftIs(z: nat, s: nat, m: nat, q: nat)
    requires m == Pow2(s) && m * q <= z < m * q + m
    ensures Shift(z, s) == q
    decreases s
  {
    if s > 0 {
      Regroup(Pow2(s - 1), q);
      ShiftIs(z / 2, s - 1, Pow2(s - 1), q);
    }
  }

  lemma FoldIs(z: word, v: Octets, s: nat, m: nat, w: Octets)
    requires z == Value(v) && m == Pow2(s) && m * Value(w) <= z < m * Value(w) + m
    ensures Fold(z, s) == Value(XorOctets(v, w))
  {
    hide Xor, Pow2, Value;
    ShiftIs(z, s, m, Value(w));
    XorValue(v, w);
  }

  lemma Powers()
    ensures Pow2(30) == 0x4000_0000 && Pow2(27) == 0x800_0000 && Pow2(31) == 0x8000_0000
  {
    assert Pow2(15) == 0x8000 && Pow2(12) == 0x1000 && Pow2(16) == 0x1_0000 by { assert Pow2(8) == 0x100; }
    Doubled(15, 15);
    Doubled(12, 15);
    Doubled(15, 16);
  }

  lemma FirstFold30()
    ensures Fold(0x9E37_79B9_7F5D_529C, 30) == 0x9E37_79BB_0780_B479
  {
    hide Fold, Pow2;
    Powers();
    FoldIs(0x9E37_79B9_7F5D_529C, Octets(0x9E, 0x37, 0x79, 0xB9, 0x7F, 0x5D, 0x52, 0x9C), 30, 0x4000_0000, Octets(0x00, 0x00, 0x00, 0x02, 0x78, 0xDD, 0xE6, 0xE5));
  }

  lemma FirstFold27()
    ensures Fold(0x09D2_6EC1_8536_A871, 27) == 0x09D2_6EC0_BF7B_7041
  {
    hide Fold, Pow2;
    Powers();
    FoldIs(0x09D2_6EC1_8536_A871, Octets(0x09, 0xD2, 0x6E, 0xC1, 0x85, 0x36, 0xA8, 0x71), 27, 0x800_0000, Octets(0x00, 0x00, 0x00, 0x01, 0x3A, 0x4D, 0xD8, 0x30));
  }

  lemma FirstFold31()
    ensures Fold(0x599E_D017_4835_5CAB, 31) == 6457827717110365317
  {
    hide Fold, Pow2;
    Powers();
    FoldIs(0x599E_D017_4835_5CAB, Octets(0x59, 0x9E, 0xD0, 0x17, 0x48, 0x35, 0x5C, 0xAB), 31, 0x8000_0000, Octets(0x00, 0x00, 0x00, 0x00, 0xB3, 0x3D, 0xA0, 0x2E));
  }

  lemma FirstDraw()
    ensures Mix(0x9E37_79B9_7F5D_529C) == 6457827717110365317
  {
    hide Fold;
    FirstFold30();
    FirstFold27();
    FirstFold31();
  }

  lemma SecondFold30()
    ensures Fold(0x3C6E_F372_FEA7_CEB1, 30) == 0x3C6E_F372_0F1C_037A
  {
    hide Fold, Pow2;
    Powers();
    FoldIs(0x3C6E_F372_FEA7_CEB1, Octets(0x3C, 0x6E, 0xF3, 0x72, 0xFE, 0xA7, 0xCE, 0xB1), 30, 0x4000_0000, Octets(0x00, 0x00, 0x00, 0x00, 0xF1, 0xBB, 0xCD, 0xCB));
  }

  lemma SecondFold27()
    ensures Fold(0xA303_CB37_6B02_A52A, 27) == 0xA303_CB23_0B7B_C3C7
  {
    hide Fold, Pow2;
    Powers();
    FoldIs(0xA303_CB37_6B02_A52A, Octets(0xA3, 0x03, 0xCB, 0x37, 0x6B, 0x02, 0xA5, 0x2A), 27, 0x800_0000, Octets(0x00, 0x00, 0x00, 0x14, 0x60, 0x79, 0x66, 0xED));
  }

  lemma SecondFold31()
    ensures Fold(0x2C73_F084_00B3_EEAD, 31) == 3203168211198807973
  {
    hide Fold, Pow2;
    Powers();
    FoldIs(0x2C73_F084_00B3_EEAD, Octets(0x2C, 0x73, 0xF0, 0x84, 0x00, 0xB3, 0xEE, 0xAD), 31, 0x8000_0000, Octets(0x00, 0x00, 0x00, 0x00, 0x58, 0xE7, 0xE1, 0x08));
  }

  lemma SecondDraw()
    ensures Mix(0x3C6E_F372_FEA7_CEB1) == 3203168211198807973
  {
    hide Fold;
    SecondFold30();
    SecondFold27();
    SecondFold31();
  }

  /** From the seed 1234567 the first key is the two outputs splitmix64 is known for. */
  lemma KnownKey()
    ensures KeyAt(1234567, 0) == KeyBits(6457827717110365317, 3203168211198807973)
  {
    hide Mix;
    FirstDraw();
    SecondDraw();
    assert StateAfter(1234567, 1) == Advance(StateAfter(1234567, 0)) == 0x9E37_79B9_7F5D_529C;
    assert StateAfter(1234567, 2) == Advance(StateAfter(1234567, 1));
  }
}
