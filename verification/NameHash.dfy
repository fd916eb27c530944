/** The 64-bit hash of component names, as the benchmark and the cache policy both compute it. */
module NameHash {
  import opened Wrappers

  type Byte = b: int | 0 <= b < 256

  const MODULUS: nat := 0x1_0000_0000_0000_0000
  const OFFSET: nat := 1469598103934665603
  const PRIME: nat := 1099511628211

  /** The inverse of PRIME modulo 2^64. */
  const INVERSE: nat := 14886173955864302971

  const NAME_MAX: nat := 64

  /** The bytes of a text. */
  function Bytes(text: string): (b: seq<Byte>)
    requires forall i :: 0 <= i < |text| ==> text[i] < 256 as char
    ensures |b| == |text| && forall i :: 0 <= i < |b| ==> b[i] == text[i] as int
  {
    seq(|text|, i requires 0 <= i < |text| => text[i] as int)
  }

  function Pow2(k: nat): nat {
    if k == 0 then 1 else 2 * Pow2(k - 1)
  }

  /** Exclusive or of the low k bits. */
  function Xor(a: nat, b: nat, k: nat): nat {
    if k == 0 then 0 else 2 * Xor(a / 2, b / 2, k - 1) + (a + b) % 2
  }

  /** h with its low byte xored by b: the exclusive or with b extended to 64 bits. */
  function XorByte(h: nat, b: Byte): nat {
    h / 256 * 256 + Xor(h % 256, b, 8)
  }

  function Round(h: nat, b: Byte): nat {
    XorByte(h, b) * PRIME % MODULUS
  }

  function HashFrom(h: nat, name: seq<Byte>): nat {
    if name == [] then h
    else Round(HashFrom(h, name[..|name| - 1]), name[|name| - 1])
  }

  function Hash(name: seq<Byte>): nat {
    HashFrom(OFFSET, name)
  }

  /** The state before a round, from the state after it. */
  function Unround(h: nat, b: Byte): nat {
    XorByte(h * INVERSE % MODULUS, b)
  }

  lemma XorStep(a: nat, b: nat, k: nat)
    requires k > 0
    ensures Xor(a, b, k) == 2 * Xor(a / 2, b / 2, k - 1) + (a + b) % 2
    ensures Xor(a, b, k) / 2 == Xor(a / 2, b / 2, k - 1) && Xor(a, b, k) % 2 == (a + b) % 2
  {
  }

  lemma {:induction false} XorIsInvolution(a: nat, b: nat, k: nat)
    requires a < Pow2(k)
    ensures Xor(a, b, k) < Pow2(k)
    ensures Xor(Xor(a, b, k), b, k) == a
  {
    if k > 0 {
      hide Xor;
      XorIsInvolution(a / 2, b / 2, k - 1);
      XorStep(a, b, k);
      XorStep(Xor(a, b, k), b, k);
      ParityCancels(Xor(a, b, k), a, b);
    }
  }

  lemma ParityCancels(x: nat, a: nat, b: nat)
    requires x % 2 == (a + b) % 2
    ensures (x + b) % 2 == a % 2
  {
  }

  lemma SameHalves(a: nat, b: nat, c: nat)
    requires b / 2 == c / 2 && (a + b) % 2 == (a + c) % 2
    ensures b == c
  {
  }

  /** Xoring two bytes with the same value keeps them apart, and one value with two bytes tells these apart. */
  lemma {:induction false} XorIsInjective(a: nat, b: nat, c: nat, k: nat)
    requires b < Pow2(k) && c < Pow2(k) && Xor(a, b, k) == Xor(a, c, k)
    ensures b == c
  {
    if k > 0 {
      hide Xor;
      XorStep(a, b, k);
      XorStep(a, c, k);
      XorIsInjective(a / 2, b / 2, c / 2, k - 1);
      SameHalves(a, b, c);
    }
  }

  lemma EightBits()
    ensures Pow2(8) == 256
  {
    assert Pow2(4) == 16;
  }

  lemma SplitByte(h: nat, low: nat)
    requires low < 256
    ensures (h / 256 * 256 + low) % 256 == low && (h / 256 * 256 + low) / 256 == h / 256
  {
  }

  /** Xoring the same byte twice restores the state, and keeps it within 64 bits. */
  lemma XorByteUndoes(h: nat, b: Byte)
    ensures XorByte(XorByte(h, b), b) == h
    ensures h < MODULUS ==> XorByte(h, b) < MODULUS
  {
    hide Xor, Pow2;
    EightBits();
    XorIsInvolution(h % 256, b, 8);
    SplitByte(h, Xor(h % 256, b, 8));
  }

  lemma XorByteTellsApart(h: nat, b: Byte, c: Byte)
    requires XorByte(h, b) == XorByte(h, c)
    ensures b == c
  {
    hide Xor, Pow2;
    EightBits();
    XorIsInjective(h % 256, b, c, 8);
  }

  lemma ModShift(h: nat, k: int)
    requires h < 0x1_0000_0000_0000_0000
    ensures (h + k * 0x1_0000_0000_0000_0000) % 0x1_0000_0000_0000_0000 == h
  {
  }

  lemma PrimeIsInvertible(h: nat)
    requires h < MODULUS
    ensures (h * PRIME % MODULUS) * INVERSE % MODULUS == h
    ensures (h * INVERSE % MODULUS) * PRIME % MODULUS == h
  {
    var q, r := h * 1099511628211 / 0x1_0000_0000_0000_0000, h * 1099511628211 % 0x1_0000_0000_0000_0000;
    var s, t := h * 14886173955864302971 / 0x1_0000_0000_0000_0000, h * 14886173955864302971 % 0x1_0000_0000_0000_0000;
    ModShift(h, 887285111055 * h - 14886173955864302971 * q);
    ModShift(h, 887285111055 * h - 1099511628211 * s);
    assert r * 14886173955864302971 == h + (887285111055 * h - 14886173955864302971 * q) * 0x1_0000_0000_0000_0000;
    assert t * 1099511628211 == h + (887285111055 * h - 1099511628211 * s) * 0x1_0000_0000_0000_0000;
  }

  /** Each round is a bijection on 64-bit states. */
  lemma RoundIsBijection(h: nat, b: Byte)
    requires h < MODULUS
    ensures Round(h, b) < MODULUS && Unround(h, b) < MODULUS
    ensures Unround(Round(h, b), b) == h
    ensures Round(Unround(h, b), b) == h
  {
    hide XorByte;
    XorByteUndoes(h, b);
    PrimeIsInvertible(XorByte(h, b));
    PrimeIsInvertible(h);
    XorByteUndoes(h * INVERSE % MODULUS, b);
  }

  lemma {:induction false} HashStays(h: nat, name: seq<Byte>)
    requires h < MODULUS
    ensures HashFrom(h, name) < MODULUS
  {
    hide Round;
    if name != [] {
      var m := |name| - 1;
      HashStays(h, name[..m]);
      RoundIsBijection(HashFrom(h, name[..m]), name[m]);
    }
  }

  /** Hashing the same tail keeps different states different. */
  lemma {:induction false} TailIsInjective(h: nat, g: nat, tail: seq<Byte>)
    requires h < MODULUS && g < MODULUS && HashFrom(h, tail) == HashFrom(g, tail)
    ensures h == g
  {
    hide Round;
    if tail != [] {
      var m := |tail| - 1;
      HashStays(h, tail[..m]);
      HashStays(g, tail[..m]);
      RoundIsBijection(HashFrom(h, tail[..m]), tail[m]);
      RoundIsBijection(HashFrom(g, tail[..m]), tail[m]);
      TailIsInjective(h, g, tail[..m]);
    }
  }

  lemma {:induction false} HashAppend(h: nat, a: seq<Byte>, b: seq<Byte>)
    ensures HashFrom(h, a + b) == HashFrom(HashFrom(h, a), b)
    decreases |b|
  {
    if b == [] {
      assert a + b == a;
    } else {
      var m := |b| - 1;
      assert (a + b)[..|a| + m] == a + b[..m];
      HashAppend(h, a, b[..m]);
    }
  }

  /** Two names of equal length that differ in exactly one byte never hash equal. */
  lemma OneByteChangesHash(name: seq<Byte>, other: seq<Byte>, k: nat)
    requires |name| == |other| && k < |name| && name[k] != other[k]
    requires forall i :: 0 <= i < |name| && i != k ==> name[i] == other[i]
    ensures Hash(name) != Hash(other)
  {
    hide Round;
    var head, tail := name[..k], name[k + 1..];
    assert name == head + [name[k]] + tail && other == head + [other[k]] + tail;
    var h := HashFrom(OFFSET, head);
    HashStays(OFFSET, head);
    SingleByte(h, name[k]);
    SingleByte(h, other[k]);
    HashAppend(OFFSET, head, [name[k]]);
    HashAppend(OFFSET, head, [other[k]]);
    HashAppend(OFFSET, head + [name[k]], tail);
    HashAppend(OFFSET, head + [other[k]], tail);
    if Hash(name) == Hash(other) {
      TailIsInjective(HashFrom(h, [name[k]]), HashFrom(h, [other[k]]), tail);
      RoundTellsApart(h, name[k], other[k]);
    }
  }

  lemma SingleByte(h: nat, b: Byte)
    requires h < MODULUS
    ensures HashFrom(h, [b]) == Round(h, b) < MODULUS
  {
    hide Round;
    assert [b][..0] == [];
    RoundIsBijection(h, b);
  }

  lemma RoundTellsApart(h: nat, b: Byte, c: Byte)
    requires h < MODULUS && Round(h, b) == Round(h, c)
    ensures b == c
  {
    hide XorByte;
    XorByteUndoes(h, b);
    XorByteUndoes(h, c);
    PrimeIsInvertible(XorByte(h, b));
    PrimeIsInvertible(XorByte(h, c));
    XorByteTellsApart(h, b, c);
  }

  // ---------- The hash in binary digits ----------

  /** The i-th binary digit. */
  function Bit(x: nat, i: nat): nat {
    if i == 0 then x % 2 else Bit(x / 2, i - 1)
  }

  lemma {:induction false} XorBits(a: nat, b: nat, k: nat, i: nat)
    ensures Bit(Xor(a, b, k), i) == if i < k then (Bit(a, i) + Bit(b, i)) % 2 else 0
  {
    if k == 0 {
      ZeroBits(i);
    } else {
      hide Xor;
      XorStep(a, b, k);
      if i == 0 {
        SumParity(a, b);
      } else {
        XorBits(a / 2, b / 2, k - 1, i - 1);
      }
    }
  }

  lemma SumParity(a: nat, b: nat)
    ensures (a + b) % 2 == (a % 2 + b % 2) % 2
  {
  }

  lemma {:induction false} ZeroBits(i: nat)
    ensures Bit(0, i) == 0
  {
    if i > 0 {
      ZeroBits(i - 1);
    }
  }

  lemma QuotientIs(x: nat, d: nat, q: nat, r: nat)
    requires d > 0 && x == q * d + r && r < d
    ensures x / d == q && x % d == r
  {
    var e := x / d - q;
    assert x == (q + e) * d + x % d == q * d + e * d + x % d;
    if e != 0 {
      MultipleIsLarge(e, d);
    }
  }

  lemma MultipleIsLarge(e: int, d: nat)
    requires e != 0
    ensures e * d >= d || e * d <= -(d as int)
  {
    assert e > 0 ==> e * d >= d;
    assert e < 0 ==> e * d <= -(d as int);
  }

  lemma {:induction false} Pow2Positive(k: nat)
    ensures Pow2(k) > 0
  {
    if k > 0 {
      Pow2Positive(k - 1);
    }
  }

  /** x halved k times. */
  function Halved(x: nat, k: nat): nat {
    if k == 0 then x else Halved(x / 2, k - 1)
  }

  lemma {:induction false} HalvedBits(x: nat, k: nat, i: nat)
    ensures Bit(Halved(x, k), i) == Bit(x, i + k)
  {
    if k > 0 {
      HalvedBits(x / 2, k - 1, i);
    }
  }

  lemma HalvedTwice(x: nat)
    ensures Halved(x, 2) == x / 4
  {
    assert Halved(x / 2, 1) == x / 2 / 2;
  }

  lemma HalvedThrice(x: nat)
    ensures Halved(x, 3) == x / 8
  {
    assert Halved(x / 2 / 2, 1) == x / 2 / 2 / 2;
  }

  lemma {:induction false} HalvedAgain(x: nat, j: nat, k: nat)
    ensures Halved(Halved(x, j), k) == Halved(x, j + k)
  {
    if j > 0 {
      HalvedAgain(x / 2, j - 1, k);
    }
  }

  lemma HalvedByByte(x: nat)
    ensures Halved(x, 8) == x / 256
  {
    hide Halved;
    HalvedThrice(x);
    HalvedThrice(x / 8);
    HalvedTwice(x / 64);
    HalvedAgain(x, 3, 3);
    HalvedAgain(x, 6, 2);
  }

  /** Xoring a byte flips the digits of the state where the byte has ones. */
  lemma XorByteBits(h: nat, b: Byte, i: nat)
    ensures Bit(XorByte(h, b), i) == (Bit(h, i) + Bit(b, i)) % 2
  {
    hide Xor, Bit;
    EightBits();
    var x := XorByte(h, b);
    XorIsInvolution(h % 256, b, 8);
    SplitByte(h, Xor(h % 256, b, 8));
    if i < 8 {
      LowBits(x, i);
      LowBits(h, i);
      XorBits(h % 256, b, 8, i);
    } else {
      HighBits(x, i);
      HighBits(h, i);
      HighBits(b, i);
      ZeroBits(i - 8);
      BitIsDigit(h, i);
    }
  }

  lemma {:induction false} BitIsDigit(x: nat, i: nat)
    ensures Bit(x, i) == 0 || Bit(x, i) == 1
  {
    if i > 0 {
      BitIsDigit(x / 2, i - 1);
    }
  }

  lemma {:induction false} TruncatedBits(x: nat, k: nat, i: nat)
    ensures Pow2(k) > 0 && Bit(x % Pow2(k), i) == if i < k then Bit(x, i) else 0
  {
    Pow2Positive(k);
    if k == 0 {
      ZeroBits(i);
    } else {
      Pow2Positive(k - 1);
      HalfOfRemainder(x, Pow2(k - 1));
      if i > 0 {
        TruncatedBits(x / 2, k - 1, i - 1);
      }
    }
  }

  lemma HalfOfRemainder(x: nat, p: nat)
    requires p > 0
    ensures x % (2 * p) / 2 == x / 2 % p && x % (2 * p) % 2 == x % 2
  {
    var q, r := x / 2 / p, x / 2 % p;
    assert x / 2 == q * p + r;
    assert x == q * (2 * p) + (2 * r + x % 2) && 2 * r + x % 2 < 2 * p;
    QuotientIs(x, 2 * p, q, 2 * r + x % 2);
  }

  lemma LowBits(x: nat, i: nat)
    requires i < 8
    ensures Bit(x % 256, i) == Bit(x, i)
  {
    EightBits();
    TruncatedBits(x, 8, i);
  }

  lemma HighBits(x: nat, i: nat)
    requires i >= 8
    ensures Bit(x, i) == Bit(x / 256, i - 8)
  {
    HalvedByByte(x);
    HalvedBits(x, 8, i - 8);
  }

  /** x has the digits of h, flipped where b has ones. */
  ghost predicate Exclusive(x: nat, h: nat, b: nat) {
    forall i: nat :: Bit(x, i) == (Bit(h, i) + Bit(b, i)) % 2
  }

  /** The hash starts from the offset, and for each byte xors it in and multiplies by the prime, in 64 bits. */
  lemma HashByBytes(name: seq<Byte>, b: Byte)
    ensures Hash([]) == 1469598103934665603
    ensures exists x: nat ::
              Exclusive(x, Hash(name), b) && Hash(name + [b]) == x * 1099511628211 % 0x1_0000_0000_0000_0000
  {
    hide XorByte, Bit;
    assert (name + [b])[..|name|] == name;
    var x := XorByte(Hash(name), b);
    forall i: nat ensures Bit(x, i) == (Bit(Hash(name), i) + Bit(b, i)) % 2 {
      XorByteBits(Hash(name), b, i);
    }
    assert Exclusive(x, Hash(name), b);
  }

  // ---------- The two implementations ----------

  /** The benchmark's hash of a NUL-terminated string, or of no string. */
  method Fnv1a64(s: Option<seq<Byte>>) returns (h: nat)
    requires s.Some? ==> 0 !in s.value
    ensures h == Hash(s.GetOr([]))
  {
    hide Round;
    h := OFFSET;
    var name := s.GetOr([]);
    for i := 0 to |name|
      invariant h == HashFrom(OFFSET, name[..i])
    {
      assert name[..i + 1][..i] == name[..i];
      h := Round(h, name[i]);
    }
    assert name[..|name|] == name;
  }

  function Least(a: nat, b: nat): nat {
    if a < b then a else b
  }

  /** The policy's hash of the first nameLen bytes of a fixed buffer, in a loop of NAME_MAX steps. */
  method ComponentNameHash(name: array<Byte>, nameLen: nat) returns (hash: nat)
    requires name.Length == NAME_MAX
    ensures hash == Hash(name[..Least(nameLen, NAME_MAX)])
  {
    hide Round;
    hash := OFFSET;
    for i := 0 to NAME_MAX
      invariant hash == HashFrom(OFFSET, name[..Least(i, nameLen)])
    {
      if i < nameLen {
        assert name[..i + 1][..i] == name[..i];
        hash := Round(hash, name[i]);
      }
    }
  }
}
