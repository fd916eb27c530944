/** The benchmark's order shuffling: an xorshift generator driving an in-place Fisher-Yates shuffle. */
module Shuffle {
  import opened Wrappers
  import opened Sequences
  import opened NameHash

  const FALLBACK_SEED: nat := 0x9e37_79b9_7f4a_7c15
  const MULTIPLIER: nat := 2685821657736338717

  const DEFAULT_SEED: seq<Byte> := Bytes("namei-ext-bench-default-seed")

  // ---------- The generator ----------

  function XorShift(x: nat): nat {
    var a := Xor(x, x / 0x1000, 64);
    var b := Xor(a, a * 0x200_0000 % MODULUS, 64);
    Xor(b, b / 0x800_0000, 64)
  }

  /** The number drawn below bound from generator state x. */
  function Draw(x: nat, bound: nat): (d: nat)
    requires bound > 0
    ensures d < bound
  {
    x * MULTIPLIER % MODULUS % bound
  }

  lemma {:induction false} PowAdd(a: nat, b: nat)
    ensures Pow2(a + b) == Pow2(a) * Pow2(b)
  {
    if a > 0 {
      PowAdd(a - 1, b);
      assert Pow2(a) * Pow2(b) == 2 * (Pow2(a - 1) * Pow2(b));
    }
  }

  lemma SixtyFourBits()
    ensures Pow2(64) == MODULUS
  {
    hide Pow2;
    EightBits();
    PowAdd(8, 8);
    PowAdd(16, 16);
    PowAdd(32, 32);
  }

  lemma {:induction false} XorSelf(a: nat, k: nat)
    ensures Xor(a, a, k) == 0
  {
    if k > 0 {
      XorSelf(a / 2, k - 1);
    }
  }

  lemma XorFits(a: nat, b: nat)
    requires a < MODULUS
    ensures Xor(a, b, 64) < MODULUS
  {
    hide Xor, Pow2;
    SixtyFourBits();
    XorIsInvolution(a, b, 64);
  }

  lemma XorZeroMeansEqual(a: nat, b: nat)
    requires a < MODULUS && b < MODULUS
    ensures Xor(a, b, 64) < MODULUS
    ensures Xor(a, b, 64) == 0 ==> a == b
  {
    hide Xor, Pow2;
    SixtyFourBits();
    XorIsInvolution(a, b, 64);
    XorSelf(a, 64);
    if Xor(a, b, 64) == 0 {
      XorIsInjective(a, a, b, 64);
    }
  }

  lemma LeftShiftMoves(x: nat)
    requires 0 < x < 0x1_0000_0000_0000_0000
    ensures x * 0x200_0000 % 0x1_0000_0000_0000_0000 != x
  {
    var q := x * 0x200_0000 / 0x1_0000_0000_0000_0000;
    ghost var k := q * 18445618173769154559 - 33552383 * x;
    assert x * 0x200_0000 % 0x1_0000_0000_0000_0000 == x ==> x == 0x1_0000_0000_0000_0000 * k;
  }

  /** A nonzero state of 64 bits steps to another one. */
  lemma XorShiftStaysNonzero(x: nat)
    requires 0 < x < MODULUS
    ensures 0 < XorShift(x) < MODULUS
  {
    hide Xor;
    XorZeroMeansEqual(x, x / 0x1000);
    var a := Xor(x, x / 0x1000, 64);
    LeftShiftMoves(a);
    XorZeroMeansEqual(a, a * 0x200_0000 % MODULUS);
    var b := Xor(a, a * 0x200_0000 % MODULUS, 64);
    XorZeroMeansEqual(b, b / 0x800_0000);
  }

  // ---------- The generator in binary digits ----------

  /** The binary digits of a 64-bit word, with zeros around them. */
  function Digits(x: nat): int -> nat {
    (i: int) => if 0 <= i < 64 then Bit(x, i) else 0
  }

  /** The digits of a word xored with itself shifted by so many places: right if positive, left if negative. */
  function ShiftXor(digits: int -> nat, places: int): int -> nat {
    (i: int) => if 0 <= i < 64 then (digits(i) + digits(i + places)) % 2 else 0
  }

  /** x doubled k times. */
  function Doubled(x: nat, k: nat): nat
    decreases k
  {
    if k == 0 then x else Doubled(2 * x, k - 1)
  }

  lemma {:induction false} DoubledBits(x: nat, k: nat, i: nat)
    ensures Bit(Doubled(x, k), i) == if i < k then 0 else Bit(x, i - k)
    decreases k
  {
    if k > 0 {
      DoubledBits(2 * x, k - 1, i);
      assert 2 * x / 2 == x && 2 * x % 2 == 0;
    }
  }

  lemma {:induction false} DoubledAgain(x: nat, j: nat, k: nat)
    ensures Doubled(Doubled(x, j), k) == Doubled(x, j + k)
    decreases j
  {
    if j > 0 {
      DoubledAgain(2 * x, j - 1, k);
    }
  }

  lemma DoubledFive(x: nat)
    ensures Doubled(x, 5) == 32 * x
  {
    assert Doubled(2 * (2 * x), 3) == Doubled(2 * (2 * (2 * x)), 2) == Doubled(16 * x, 1);
  }

  lemma ShiftedLeft(x: nat)
    ensures Doubled(x, 25) == x * 0x200_0000
  {
    hide Doubled;
    DoubledFive(x);
    DoubledFive(32 * x);
    DoubledFive(1024 * x);
    DoubledFive(32768 * x);
    DoubledFive(1048576 * x);
    DoubledAgain(x, 5, 5);
    DoubledAgain(x, 10, 5);
    DoubledAgain(x, 15, 5);
    DoubledAgain(x, 20, 5);
  }

  lemma ShiftedNine(x: nat)
    ensures Halved(x, 9) == x / 0x200
  {
    hide Halved;
    HalvedThrice(x);
    HalvedThrice(x / 0x8);
    HalvedThrice(x / 0x40);
    HalvedAgain(x, 3, 3);
    HalvedAgain(x, 6, 3);
  }

  lemma ShiftedRight(x: nat)
    ensures Halved(x, 12) == x / 0x1000
    ensures Halved(x, 27) == x / 0x800_0000
  {
    hide Halved;
    ShiftedNine(x);
    HalvedThrice(x / 0x200);
    HalvedAgain(x, 9, 3);
    ShiftedNine(x / 0x200);
    ShiftedNine(x / 0x4_0000);
    HalvedAgain(x, 9, 9);
    HalvedAgain(x, 18, 9);
  }

  lemma NothingAbove(x: nat, i: nat)
    requires x < MODULUS && i >= 64
    ensures Bit(x, i) == 0
  {
    hide Bit, Pow2;
    SixtyFourBits();
    TruncatedBits(x, 64, i);
  }

  lemma RightDigits(x: nat, k: nat, i: int)
    requires x < MODULUS
    ensures Digits(Xor(x, Halved(x, k), 64))(i) == ShiftXor(Digits(x), k)(i)
  {
    hide Bit, Xor, Halved;
    if 0 <= i < 64 {
      XorBits(x, Halved(x, k), 64, i);
      HalvedBits(x, k, i);
      if i + k >= 64 {
        NothingAbove(x, i + k);
      }
    }
  }

  lemma LeftDigits(x: nat, k: nat, i: int)
    requires x < MODULUS
    ensures Digits(Xor(x, Doubled(x, k) % MODULUS, 64))(i) == ShiftXor(Digits(x), 0 - k)(i)
  {
    hide Bit, Xor, Doubled, Pow2;
    if 0 <= i < 64 {
      XorBits(x, Doubled(x, k) % MODULUS, 64, i);
      SixtyFourBits();
      TruncatedBits(Doubled(x, k), 64, i);
      DoubledBits(x, k, i);
    }
  }

  /** One step of the generator xors the word with itself shifted right by 12, left by 25 and right by 27. */
  lemma XorShiftDigits(x: nat, i: int)
    requires x < MODULUS
    ensures Digits(XorShift(x))(i) == ShiftXor(ShiftXor(ShiftXor(Digits(x), 12), -25), 27)(i)
  {
    hide Xor, Bit, Halved, Doubled;
    var a := Xor(x, x / 0x1000, 64);
    var b := Xor(a, a * 0x200_0000 % MODULUS, 64);
    XorFits(x, x / 0x1000);
    XorFits(a, a * 0x200_0000 % MODULUS);
    ShiftedRight(x);
    ShiftedLeft(a);
    ShiftedRight(b);
    forall j: int ensures Digits(a)(j) == ShiftXor(Digits(x), 12)(j) {
      RightDigits(x, 12, j);
    }
    forall j: int ensures Digits(b)(j) == ShiftXor(ShiftXor(Digits(x), 12), -25)(j) {
      LeftDigits(a, 25, j);
    }
    RightDigits(b, 27, i);
  }

  // ---------- The shuffle as a function of its draws ----------

  /** draws[k] is the partner of cell k + 1, one of the cells 0 to k + 1. */
  ghost predicate ValidDraws(draws: seq<nat>) {
    forall k :: 0 <= k < |draws| ==> draws[k] <= k + 1
  }

  function Swap(s: seq<int>, i: nat, j: nat): seq<int>
    requires i < |s| && j < |s|
  {
    s[i := s[j]][j := s[i]]
  }

  /** The cells |draws|, ..., 1 swapped with their partners, in that order. */
  function Shuffled(s: seq<int>, draws: seq<nat>): (r: seq<int>)
    requires |draws| < |s| || draws == []
    requires ValidDraws(draws)
    ensures |r| == |s|
    decreases |draws|
  {
    if draws == [] then s
    else
      var m := |draws| - 1;
      Shuffled(Swap(s, m + 1, draws[m]), draws[..m])
  }

  function Identity(n: nat): seq<int> {
    seq(n, i => i)
  }

  /** A shuffle only rearranges. */
  lemma {:induction false} ShuffledPermutes(s: seq<int>, draws: seq<nat>)
    requires |draws| < |s| || draws == []
    requires ValidDraws(draws)
    ensures multiset(Shuffled(s, draws)) == multiset(s)
    decreases |draws|
  {
    if draws != [] {
      var m := |draws| - 1;
      ShuffledPermutes(Swap(s, m + 1, draws[m]), draws[..m]);
    }
  }

  /** Once drawn, a cell keeps its content. */
  lemma {:induction false} ShuffledKeepsTail(s: seq<int>, draws: seq<nat>, k: nat)
    requires |draws| < k < |s| && ValidDraws(draws)
    ensures Shuffled(s, draws)[k] == s[k]
    decreases |draws|
  {
    if draws != [] {
      var m := |draws| - 1;
      ShuffledKeepsTail(Swap(s, m + 1, draws[m]), draws[..m], k);
    }
  }

  lemma LastCell(s: seq<int>, draws: seq<nat>)
    requires 0 < |draws| < |s| && ValidDraws(draws)
    ensures Shuffled(s, draws)[|draws|] == s[draws[|draws| - 1]]
  {
    var m := |draws| - 1;
    ShuffledKeepsTail(Swap(s, m + 1, draws[m]), draws[..m], m + 1);
  }

  /** Different draws give different orders. */
  lemma {:induction false} DrawsAreUnique(s: seq<int>, d1: seq<nat>, d2: seq<nat>)
    requires |d1| == |d2| && (|d1| < |s| || d1 == []) && ValidDraws(d1) && ValidDraws(d2)
    requires NoDuplicates(s) && Shuffled(s, d1) == Shuffled(s, d2)
    ensures d1 == d2
    decreases |d1|
  {
    if d1 != [] {
      var m := |d1| - 1;
      LastCell(s, d1);
      LastCell(s, d2);
      assert s[d1[m]] == s[d2[m]];
      assert d1[m] == d2[m];
      DrawsAreUnique(Swap(s, m + 1, d1[m]), d1[..m], d2[..m]);
      assert d1 == d1[..m] + [d1[m]] && d2 == d2[..m] + [d2[m]];
    }
  }

  /** Some draws of n cells produce any rearrangement t of s that keeps the cells from n + 1 on. */
  lemma {:induction false} DrawsExist(s: seq<int>, t: seq<int>, n: nat) returns (draws: seq<nat>)
    requires NoDuplicates(s) && multiset(s) == multiset(t) && n < |s|
    requires |s| == |t| && forall k :: n < k < |s| ==> t[k] == s[k]
    ensures |draws| == n && ValidDraws(draws) && Shuffled(s, draws) == t
    decreases n
  {
    if n == 0 {
      draws := [];
      OneCellLeft(s, t);
    } else {
      var j := PartnerOf(s, t, n);
      var rest := DrawsExist(Swap(s, n, j), t, n - 1);
      draws := rest + [j];
      assert draws[..n - 1] == rest;
    }
  }

  lemma OneCellLeft(s: seq<int>, t: seq<int>)
    requires multiset(s) == multiset(t) && |s| == |t| && 0 < |s|
    requires forall k :: 0 < k < |s| ==> t[k] == s[k]
    ensures s == t
  {
    assert s == [s[0]] + s[1..] && t == [t[0]] + t[1..] && s[1..] == t[1..];
    assert multiset{s[0]} == multiset(s) - multiset(s[1..]);
    assert multiset{t[0]} == multiset(t) - multiset(t[1..]);
    assert s[0] in multiset{t[0]};
  }

  lemma PartnerOf(s: seq<int>, t: seq<int>, n: nat) returns (j: nat)
    requires NoDuplicates(s) && multiset(s) == multiset(t) && n < |s|
    requires |s| == |t| && forall k :: n < k < |s| ==> t[k] == s[k]
    ensures j <= n && s[j] == t[n]
  {
    assert t[n] in multiset(s);
    assert t[n] in s;
    j :| 0 <= j < |s| && s[j] == t[n];
    if j > n {
      assert t[j] == t[n];
      SameElements(s, t);
      assert false;
    }
  }

  /** Every permutation of 0 to n - 1 is produced by exactly one draw vector. */
  lemma EveryPermutationOnce(n: nat, t: seq<int>) returns (draws: seq<nat>)
    requires 0 < n && multiset(t) == multiset(Identity(n))
    ensures |draws| == n - 1 && ValidDraws(draws) && Shuffled(Identity(n), draws) == t
    ensures forall d :: |d| == n - 1 && ValidDraws(d) && Shuffled(Identity(n), d) == t ==> d == draws
  {
    assert |t| == |multiset(t)| == |multiset(Identity(n))| == n;
    draws := DrawsExist(Identity(n), t, n - 1);
    forall d | |d| == n - 1 && ValidDraws(d) && Shuffled(Identity(n), d) == t ensures d == draws {
      DrawsAreUnique(Identity(n), d, draws);
    }
  }

  // ---------- The benchmark's state ----------

  /** The generator state after n draws. */
  function StateAfter(x: nat, n: nat): nat
    decreases n
  {
    if n == 0 then x else StateAfter(XorShift(x), n - 1)
  }

  /** The draws for cells n down to 1 from state x, as a draw vector. */
  function DrawsFrom(x: nat, n: nat): (d: seq<nat>)
    ensures |d| == n && ValidDraws(d)
    decreases n
  {
    if n == 0 then [] else DrawsFrom(XorShift(x), n - 1) + [Draw(XorShift(x), n + 1)]
  }

  /** What the shuffle leaves in an array of n cells. */
  function FinalOrder(x: nat, n: nat, randomize: bool): seq<int> {
    if randomize && n > 0 then Shuffled(Identity(n), DrawsFrom(x, n - 1)) else Identity(n)
  }

  class Bench {
    var orderState: nat
    var orderSeedHash: nat
    var randomizeOrder: bool

    ghost predicate Valid()
      reads this
    {
      0 < orderState < MODULUS
    }

    constructor ()
      ensures randomizeOrder && orderState == 0
    {
      orderState, orderSeedHash, randomizeOrder := 0, 0, true;
    }

    /** seed and disable are environment variables; a missing or empty seed has a default. */
    method InitOrderSeed(seed: Option<seq<Byte>>, disable: Option<seq<Byte>>)
      requires seed.Some? ==> 0 !in seed.value
      modifies this
      ensures Valid()
      ensures orderSeedHash == Hash(if seed.GetOr([]) == [] then Bytes("namei-ext-bench-default-seed") else seed.value)
      ensures orderState == if orderSeedHash != 0 then orderSeedHash else 0x9e37_79b9_7f4a_7c15
      ensures randomizeOrder == (old(randomizeOrder) && disable != Some(Bytes("0")))
    {
      hide Hash;
      assert Bytes("0") == [48];
      if disable == Some([48]) {
        randomizeOrder := false;
      }
      var used := if seed.GetOr([]) == [] then DEFAULT_SEED else seed.value;
      orderSeedHash := Fnv1a64(Some(used));
      HashFits(used);
      orderState := if orderSeedHash != 0 then orderSeedHash else FALLBACK_SEED;
    }

    method PrngNext() returns (x: nat)
      requires Valid()
      modifies this`orderState
      ensures Valid() && orderState == XorShift(old(orderState))
      ensures x == orderState * 2685821657736338717 % 0x1_0000_0000_0000_0000
    {
      hide XorShift;
      XorShiftStaysNonzero(orderState);
      orderState := XorShift(orderState);
      x := orderState * MULTIPLIER % MODULUS;
    }

    /** One step of the shuffle. */
    method SwapDrawn(order: array<int>, i: nat)
      requires Valid() && 0 < i < order.Length
      modifies this`orderState, order
      ensures Valid() && orderState == XorShift(old(orderState))
      ensures order[..] == Swap(old(order[..]), i, Draw(orderState, i + 1))
    {
      hide XorShift;
      var drawn := PrngNext();
      var j := drawn % (i + 1);
      order[i], order[j] := order[j], order[i];
      assert j == Draw(orderState, i + 1);
      assert order[..] == Swap(old(order[..]), i, j);
    }

    method ShuffleOrder(order: array<int>)
      requires Valid()
      modifies this`orderState, order
      ensures Valid()
      ensures order[..] == FinalOrder(old(orderState), order.Length, randomizeOrder)
      ensures orderState ==
                if randomizeOrder && order.Length > 0 then StateAfter(old(orderState), order.Length - 1)
                else old(orderState)
    {
      hide XorShift, Swap, Shuffled, DrawsFrom, StateAfter;
      for i := 0 to order.Length
        invariant orderState == old(orderState)
        invariant forall k :: 0 <= k < i ==> order[k] == k
      {
        order[i] := i;
      }
      assert order[..] == Identity(order.Length);
      if !randomizeOrder || order.Length == 0 {
        return;
      }
      var i := order.Length - 1;
      while i > 0
        invariant 0 <= i < order.Length && Valid()
        invariant Shuffled(order[..], DrawsFrom(orderState, i))
               == Shuffled(Identity(order.Length), DrawsFrom(old(orderState), order.Length - 1))
        invariant StateAfter(orderState, i) == StateAfter(old(orderState), order.Length - 1)
      {
        DrawStep(order[..], orderState, i);
        SwapDrawn(order, i);
        i := i - 1;
      }
      NothingDrawn(order[..], orderState);
    }
  }

  lemma HashFits(name: seq<Byte>)
    ensures Hash(name) < MODULUS
  {
    HashStays(OFFSET, name);
  }

  lemma DrawStep(s: seq<int>, x: nat, i: nat)
    requires 0 < i < |s|
    ensures Shuffled(s, DrawsFrom(x, i))
         == Shuffled(Swap(s, i, Draw(XorShift(x), i + 1)), DrawsFrom(XorShift(x), i - 1))
    ensures StateAfter(x, i) == StateAfter(XorShift(x), i - 1)
  {
    hide XorShift;
    var d := DrawsFrom(x, i);
    assert d[..i - 1] == DrawsFrom(XorShift(x), i - 1);
  }

  lemma NothingDrawn(s: seq<int>, x: nat)
    ensures Shuffled(s, DrawsFrom(x, 0)) == s && StateAfter(x, 0) == x
  {
  }

  /** Whatever the state, the order left is a permutation of 0 to n - 1. */
  lemma FinalOrderIsPermutation(x: nat, n: nat, randomize: bool)
    ensures multiset(FinalOrder(x, n, randomize)) == multiset(Identity(n))
  {
    if randomize && n > 0 {
      ShuffledPermutes(Identity(n), DrawsFrom(x, n - 1));
    }
  }

  /** The generator never reaches the absorbing state 0 on any run. */
  lemma {:induction false} StateNeverZero(x: nat, n: nat)
    requires 0 < x < MODULUS
    ensures 0 < StateAfter(x, n) < MODULUS
    decreases n
  {
    hide XorShift;
    if n > 0 {
      XorShiftStaysNonzero(x);
      StateNeverZero(XorShift(x), n - 1);
    }
  }
}
