/**
 The Bech32m checksum register: its step, that the step is linear over GF(2), that a zero
 input cannot send a non-zero register to zero, and what that gives for checksums.
 */
module Polymod {
  import opened Bytes

  // A register in use holds 30 bits.
  const LIMIT: bv32 := 0x4000_0000

  // The checksum constant of BIP-350.
  const BECH32M_CONST: bv32 := 0x2bc8_30a3

  // What bit i of the five bits shifted out adds back.
  const GENERATORS: seq<bv32> := [0x3b6a57b2, 0x26508e6d, 0x1ea119fa, 0x3d4233dd, 0x2a1462b3]
  const MASKS: seq<bv32> := [1, 2, 4, 8, 16]

  type word = x: byte | x < 32

  // Named so that proofs can set the bit-level meaning aside.
  function Xor(a: bv32, b: bv32): bv32 {
    a ^ b
  }

  function Bits(u: byte): bv32 {
    u as bv32
  }

  function Gen(c: bv32, mask: bv32, g: bv32): bv32 {
    if (c >> 25) & mask != 0 then g else 0
  }

  /** The first k of the five conditional xors. */
  function Feedback(c: bv32, k: nat): bv32
    requires k <= 5
  {
    if k == 0 then 0 else Xor(Feedback(c, k - 1), Gen(c, MASKS[k - 1], GENERATORS[k - 1]))
  }

  function Low25(c: bv32): bv32 {
    c & 0x1ffffff
  }

  function Left5(c: bv32): bv32 {
    c << 5
  }

  function Right5(c: bv32): bv32 {
    c >> 5
  }

  function Shifted(c: bv32, v: bv32): bv32 {
    Xor(Left5(Low25(c)), v)
  }

  function Step(c: bv32, v: bv32): bv32 {
    Xor(Shifted(c, v), Feedback(c, 5))
  }

  /** The register after reading s from c. */
  function Fold(c: bv32, s: seq<byte>): bv32 {
    if s == [] then c else Step(Fold(c, s[..|s| - 1]), Bits(s[|s| - 1]))
  }

  /** The loop of polymod. */
  method Run(v: seq<byte>) returns (c: bv32)
    ensures c == Fold(1, v)
  {
    hide Step;
    c := 1;
    var i := 0;
    while i < |v|
      invariant i <= |v|
      invariant c == Fold(1, v[..i])
    {
      assert v[..i + 1][..i] == v[..i];
      c := StepInPlace(c, v[i]);
      i := i + 1;
    }
    assert v[..i] == v;
  }

  /** One turn of the loop, its five conditional xors taken in order. */
  method StepInPlace(c: bv32, v: byte) returns (next: bv32)
    ensures next == Step(c, Bits(v))
  {
    hide Xor, Bits;
    next := Shifted(c, Bits(v));
    var feedback := 0;
    var k := 0;
    while k < 5
      invariant k <= 5 && feedback == Feedback(c, k)
    {
      XorUnits(feedback);
      if (c >> 25) & MASKS[k] != 0 {
        feedback := Xor(feedback, GENERATORS[k]);
      }
      k := k + 1;
    }
    next := Xor(next, feedback);
  }

  // ---------------------------------------------------------------------------
  // Linearity
  // ---------------------------------------------------------------------------

  lemma XorAssoc(a: bv32, b: bv32, c: bv32)
    ensures Xor(Xor(a, b), c) == Xor(a, Xor(b, c))
  {
  }

  lemma XorComm(a: bv32, b: bv32)
    ensures Xor(a, b) == Xor(b, a)
  {
  }

  lemma XorSwap(a: bv32, b: bv32, c: bv32, d: bv32)
    ensures Xor(Xor(a, b), Xor(c, d)) == Xor(Xor(a, c), Xor(b, d))
  {
    hide Xor;
    XorAssoc(a, b, Xor(c, d));
    XorAssoc(b, c, d);
    XorComm(b, c);
    XorAssoc(c, b, d);
    XorAssoc(a, c, Xor(b, d));
  }

  lemma MaskXor(x: bv32, y: bv32, m: bv32)
    ensures Xor(x, y) & m == Xor(x & m, y & m)
  {
  }

  lemma ShiftXor(x: bv32, y: bv32)
    ensures Xor(x, y) >> 25 == Xor(x >> 25, y >> 25)
  {
  }

  predicate OneBit(m: bv32) {
    m == 1 || m == 2 || m == 4 || m == 8 || m == 16
  }

  lemma OneBitMask(x: bv32, m: bv32)
    requires OneBit(m)
    ensures x & m == 0 || x & m == m
  {
    if m == 1 {
      assert x & 1 == 0 || x & 1 == 1;
    } else if m == 2 {
      assert x & 2 == 0 || x & 2 == 2;
    } else if m == 4 {
      assert x & 4 == 0 || x & 4 == 4;
    } else if m == 8 {
      assert x & 8 == 0 || x & 8 == 8;
    } else {
      assert x & 16 == 0 || x & 16 == 16;
    }
  }

  lemma XorUnits(g: bv32)
    ensures Xor(g, g) == 0 && Xor(g, 0) == g && Xor(0, g) == g
  {
  }

  lemma GenLinear(a: bv32, b: bv32, mask: bv32, g: bv32)
    requires OneBit(mask)
    ensures Gen(Xor(a, b), mask, g) == Xor(Gen(a, mask, g), Gen(b, mask, g))
  {
    hide Xor;
    ShiftXor(a, b);
    MaskXor(a >> 25, b >> 25, mask);
    OneBitMask(a >> 25, mask);
    OneBitMask(b >> 25, mask);
    XorUnits(mask);
    XorUnits(g);
    XorUnits(0);
  }

  lemma {:induction false} FeedbackLinear(a: bv32, b: bv32, k: nat)
    requires k <= 5
    ensures Feedback(Xor(a, b), k) == Xor(Feedback(a, k), Feedback(b, k))
  {
    hide Xor, Gen;
    if k == 0 {
      XorUnits(0);
    } else {
      var m, g := MASKS[k - 1], GENERATORS[k - 1];
      FeedbackLinear(a, b, k - 1);
      GenLinear(a, b, m, g);
      XorSwap(Feedback(a, k - 1), Feedback(b, k - 1), Gen(a, m, g), Gen(b, m, g));
    }
  }

  lemma ShiftedLinear(a: bv32, b: bv32, u: bv32, v: bv32)
    ensures Shifted(Xor(a, b), Xor(u, v)) == Xor(Shifted(a, u), Shifted(b, v))
  {
    hide Xor, Left5, Low25;
    Low25Xor(a, b);
    Left5Xor(Low25(a), Low25(b));
    XorSwap(Left5(Low25(a)), Left5(Low25(b)), u, v);
  }

  lemma Low25Xor(x: bv32, y: bv32)
    ensures Low25(Xor(x, y)) == Xor(Low25(x), Low25(y))
  {
  }

  lemma Left5Xor(x: bv32, y: bv32)
    ensures Left5(Xor(x, y)) == Xor(Left5(x), Left5(y))
  {
  }

  /** One step is linear in the register and the symbol together. */
  lemma StepLinear(a: bv32, b: bv32, u: bv32, v: bv32)
    ensures Step(Xor(a, b), Xor(u, v)) == Xor(Step(a, u), Step(b, v))
  {
    hide Xor, Shifted, Feedback;
    ShiftedLinear(a, b, u, v);
    FeedbackLinear(a, b, 5);
    XorSwap(Shifted(a, u), Shifted(b, v), Feedback(a, 5), Feedback(b, 5));
  }

  // ---------------------------------------------------------------------------
  // Zero inputs and short bursts
  // ---------------------------------------------------------------------------

  /** The step with its bit operations written out. */
  function StepBits(c: bv32, v: bv32): bv32 {
    Xor(
      Shifted(c, v),
      Xor(Xor(Xor(Xor(Gen(c, 1, 0x3b6a57b2), Gen(c, 2, 0x26508e6d)), Gen(c, 4, 0x1ea119fa)),
              Gen(c, 8, 0x3d4233dd)), Gen(c, 16, 0x2a1462b3)))
  }

  lemma FeedbackWritten(c: bv32)
    ensures Feedback(c, 5) ==
      Xor(Xor(Xor(Xor(Gen(c, 1, 0x3b6a57b2), Gen(c, 2, 0x26508e6d)), Gen(c, 4, 0x1ea119fa)),
              Gen(c, 8, 0x3d4233dd)), Gen(c, 16, 0x2a1462b3))
  {
    hide Xor, Gen;
    XorUnits(Gen(c, 1, 0x3b6a57b2));
    assert Feedback(c, 1) == Xor(Feedback(c, 0), Gen(c, 1, 0x3b6a57b2));
    assert Feedback(c, 2) == Xor(Feedback(c, 1), Gen(c, 2, 0x26508e6d));
    assert Feedback(c, 3) == Xor(Feedback(c, 2), Gen(c, 4, 0x1ea119fa));
    assert Feedback(c, 4) == Xor(Feedback(c, 3), Gen(c, 8, 0x3d4233dd));
    assert Feedback(c, 5) == Xor(Feedback(c, 4), Gen(c, 16, 0x2a1462b3));
  }

  lemma StepWritten(c: bv32, v: bv32)
    ensures Step(c, v) == StepBits(c, v)
  {
    hide Xor, Gen, Feedback, Shifted;
    FeedbackWritten(c);
  }

  lemma StepBounded(c: bv32, v: bv32)
    requires v < 256
    ensures Step(c, v) < LIMIT
  {
    StepWritten(c, v);
    hide Step;
  }

  /** The zero-input step is injective: being linear, it is enough that only zero maps to zero. */
  lemma ZeroStepInjective(c: bv32)
    requires c < LIMIT && c != 0
    ensures Step(c, 0) != 0
  {
    StepWritten(c, 0);
    hide Step;
  }

  lemma GenIdle(d: bv32, mask: bv32, g: bv32)
    requires d < 0x200_0000
    ensures Gen(d, mask, g) == 0
  {
    assert d >> 25 == 0;
  }

  lemma {:induction false} FeedbackIdle(d: bv32, k: nat)
    requires k <= 5 && d < 0x200_0000
    ensures Feedback(d, k) == 0
  {
    hide Gen, Xor;
    XorUnits(0);
    if k > 0 {
      FeedbackIdle(d, k - 1);
      GenIdle(d, MASKS[k - 1], GENERATORS[k - 1]);
    }
  }

  /** d with one more five-bit group behind it. */
  function Extend(d: bv32, e: bv32): bv32 {
    Xor(Left5(d), e)
  }

  lemma ShiftedSmall(d: bv32, e: bv32)
    requires d < 0x200_0000
    ensures Shifted(d, e) == Extend(d, e)
  {
    hide Xor, Left5, Low25;
    LowAll(d);
  }

  lemma LowAll(d: bv32)
    requires d < 0x200_0000
    ensures Low25(d) == d
  {
  }

  lemma ExtendZero(d: bv32, e: bv32)
    requires d < 0x200_0000 && e < 32
    ensures Extend(d, e) == 0 <==> d == 0 && e == 0
  {
  }

  /** While the top five bits are clear a step only shifts the symbol in. */
  lemma ShiftOnly(d: bv32, e: bv32)
    requires d < 0x200_0000 && e < 32
    ensures Step(d, e) == Extend(d, e)
    ensures Step(d, e) == 0 <==> d == 0 && e == 0
  {
    hide Shifted, Feedback, Xor, Extend;
    FeedbackIdle(d, 5);
    ShiftedSmall(d, e);
    ExtendZero(d, e);
    XorUnits(Shifted(d, e));
  }

  /** The registers that j symbols can reach from zero, j at most six. */
  function Reach(j: nat): bv32
    requires j <= 6
  {
    if j == 0 then 1 else if j == 1 then 0x20 else if j == 2 then 0x400 else if j == 3 then 0x8000
    else if j == 4 then 0x10_0000 else if j == 5 then 0x200_0000 else LIMIT
  }

  lemma ReachZero()
    ensures 0 < Reach(0)
  {
  }

  /** One symbol takes what j symbols can reach to what j + 1 can, and keeps it non-zero. */
  lemma ReachStep(j: nat, d: bv32, e: bv32)
    requires j < 6 && d < Reach(j) && e < 32
    ensures Step(d, e) < Reach(j + 1)
    ensures Step(d, e) == 0 <==> d == 0 && e == 0
  {
    hide Step, Extend;
    assert d < 0x200_0000;
    ShiftOnly(d, e);
    ShiftReach(j, d, e);
  }

  lemma ShiftReach(j: nat, d: bv32, e: bv32)
    requires j < 6 && d < Reach(j) && e < 32
    ensures Extend(d, e) < Reach(j + 1)
  {
  }

  lemma XorDiff(x: bv32, y: bv32)
    ensures Xor(x, y) == 0 <==> x == y
  {
  }

  lemma XorBounded(x: bv32, y: bv32)
    requires x < 32 && y < 32
    ensures Xor(x, y) < 32
  {
  }

  lemma WordBits(u: word)
    ensures Bits(u) < 32
  {
  }

  lemma ByteBits(u: byte)
    ensures Bits(u) < 256
  {
  }

  function Value(b: bv32): int {
    b as int
  }

  lemma ValueOfBits(u: word)
    ensures Value(Bits(u)) == u
  {
  }

  lemma WordsDistinct(u: word, v: word)
    ensures Bits(u) == Bits(v) <==> u == v
  {
    hide Bits, Value;
    ValueOfBits(u);
    ValueOfBits(v);
  }

  /** The symbol difference that enters the register's difference. */
  lemma WordDifference(u: word, v: word)
    ensures Xor(Bits(u), Bits(v)) < 32
    ensures Xor(Bits(u), Bits(v)) == 0 <==> u == v
  {
    hide Xor, Bits;
    WordBits(u);
    WordBits(v);
    XorBounded(Bits(u), Bits(v));
    XorDiff(Bits(u), Bits(v));
    WordsDistinct(u, v);
  }

  /** x and y agree outside the six positions from k on. */
  predicate DifferOnlyIn(x: seq<word>, y: seq<word>, k: nat) {
    |x| == |y| && forall i :: 0 <= i < |x| && x[i] != y[i] ==> k <= i < k + 6
  }

  /** What is known of the difference d of two registers after n symbols. */
  predicate Confined(d: bv32, n: nat, k: nat) {
    && d < LIMIT
    && (n <= k ==> d == 0)
    && (k <= n <= k + 6 ==> d < Reach(n - k))
  }

  lemma BurstStep(d: bv32, e: bv32, m: nat, k: nat)
    requires Confined(d, m, k) && e < 32 && (e != 0 ==> k <= m < k + 6)
    ensures Confined(Step(d, e), m + 1, k)
    ensures d != 0 || e != 0 ==> Step(d, e) != 0
  {
    if m < k {
      BurstBefore(m, k);
    } else if m < k + 6 {
      BurstWithin(d, e, m - k, m, k);
    } else {
      BurstAfter(d, m, k);
    }
  }

  lemma BurstBefore(m: nat, k: nat)
    requires m < k
    ensures Step(0, 0) == 0 && Confined(0, m + 1, k)
  {
    hide Step, Reach;
    ReachZero();
    ShiftOnly(0, 0);
  }

  lemma BurstWithin(d: bv32, e: bv32, j: nat, m: nat, k: nat)
    requires j == m - k && j < 6 && d < Reach(j) && e < 32
    ensures Confined(Step(d, e), m + 1, k)
    ensures d != 0 || e != 0 ==> Step(d, e) != 0
  {
    hide Step, Reach;
    ReachStep(j, d, e);
    WordBelow256(e);
    StepBounded(d, e);
  }

  lemma WordBelow256(e: bv32)
    requires e < 32
    ensures e < 256
  {
  }

  lemma BurstAfter(d: bv32, m: nat, k: nat)
    requires d < LIMIT && m >= k + 6
    ensures Confined(Step(d, 0), m + 1, k)
    ensures d != 0 ==> Step(d, 0) != 0
  {
    hide Step, Reach;
    StepBounded(d, 0);
    if d != 0 {
      ZeroStepInjective(d);
    }
  }

  /**
   The difference of two runs that part only inside a window of six: zero before the window,
   confined to 5j bits after j symbols of it, and never zero again once the inputs differed.
   */
  lemma {:induction false} BurstDifference(c: bv32, x: seq<word>, y: seq<word>, k: nat)
    requires DifferOnlyIn(x, y, k)
    ensures Confined(Xor(Fold(c, x), Fold(c, y)), |x|, k)
    ensures x != y ==> Xor(Fold(c, x), Fold(c, y)) != 0
  {
    hide Xor, Step, Bits, Reach;
    if |x| == 0 {
      XorUnits(c);
      ReachZero();
    } else {
      var m := |x| - 1;
      var x', y' := x[..m], y[..m];
      var d, e := Xor(Fold(c, x'), Fold(c, y')), Xor(Bits(x[m]), Bits(y[m]));
      BurstDifference(c, x', y', k);
      StepLinear(Fold(c, x'), Fold(c, y'), Bits(x[m]), Bits(y[m]));
      assert Xor(Fold(c, x), Fold(c, y)) == Step(d, e);
      WordDifference(x[m], y[m]);
      assert x == x' + [x[m]] && y == y' + [y[m]];
      BurstStep(d, e, m, k);
    }
  }

  /**
   Burst detection at any length: from the same register, two different symbol strings that
   differ only within six consecutive symbols leave different registers.
   */
  lemma BurstDetected(c: bv32, x: seq<word>, y: seq<word>, k: nat)
    requires DifferOnlyIn(x, y, k) && x != y
    ensures Fold(c, x) != Fold(c, y)
  {
    BurstDifference(c, x, y, k);
    XorDiff(Fold(c, x), Fold(c, y));
  }

  // ---------------------------------------------------------------------------
  // The six checksum symbols
  // ---------------------------------------------------------------------------

  function ToWord(b: bv32): (u: word)
    requires b < 32
    ensures Bits(u) == b
  {
    b as int
  }

  /** What is left of a 30-bit register when only its first i five-bit groups are kept. */
  function Top(m: bv32, i: nat): bv32
    requires i <= 6
  {
    if i == 0 then m >> 30 else if i == 1 then m >> 25 else if i == 2 then m >> 20
    else if i == 3 then m >> 15 else if i == 4 then m >> 10 else if i == 5 then m >> 5 else m
  }

  function LowFive(b: bv32): (low: bv32)
    ensures low < 32
  {
    b & 31
  }

  /** The i-th checksum symbol: (mod >> 5(5 - i)) & 31. */
  function Symbol(m: bv32, i: nat): word
    requires i < 6
  {
    ToWord(LowFive(Top(m, i + 1)))
  }

  /** The first n checksum symbols for the register value m. */
  function Symbols(m: bv32, n: nat): (s: seq<word>)
    requires n <= 6
    ensures |s| == n
  {
    if n == 0 then [] else Symbols(m, n - 1) + [Symbol(m, n - 1)]
  }

  function Zeros(n: nat): (s: seq<word>)
    ensures |s| == n
  {
    if n == 0 then [] else Zeros(n - 1) + [0]
  }

  lemma Regroup(t: bv32)
    requires t < LIMIT
    ensures Right5(t) < 0x200_0000
    ensures Extend(Right5(t), LowFive(t)) == t
  {
  }

  lemma TopShift(m: bv32, i: nat)
    requires i < 6
    ensures Top(m, i) == Right5(Top(m, i + 1))
  {
    hide Top, Right5;
    Shift0(m);
    Shift1(m);
    Shift2(m);
    Shift3(m);
    Shift4(m);
    Shift5(m);
    if i == 0 {
    } else if i == 1 {
    } else if i == 2 {
    } else if i == 3 {
    } else if i == 4 {
    }
  }

  lemma Shift0(m: bv32)
    ensures Top(m, 0) == Right5(Top(m, 1))
  {
  }

  lemma Shift1(m: bv32)
    ensures Top(m, 1) == Right5(Top(m, 2))
  {
  }

  lemma Shift2(m: bv32)
    ensures Top(m, 2) == Right5(Top(m, 3))
  {
  }

  lemma Shift3(m: bv32)
    ensures Top(m, 3) == Right5(Top(m, 4))
  {
  }

  lemma Shift4(m: bv32)
    ensures Top(m, 4) == Right5(Top(m, 5))
  {
  }

  lemma Shift5(m: bv32)
    ensures Top(m, 5) == Right5(Top(m, 6))
  {
  }

  lemma ShiftBelow(t: bv32)
    requires t < LIMIT
    ensures Right5(t) < LIMIT
  {
  }

  lemma {:induction false} TopBelow(m: bv32, i: nat)
    requires i <= 6 && m < LIMIT
    ensures Top(m, i) < LIMIT
    decreases 6 - i
  {
    hide Top, Right5;
    if i == 6 {
      TopEnd(m);
    } else {
      TopBelow(m, i + 1);
      TopShift(m, i);
      ShiftBelow(Top(m, i + 1));
    }
  }

  lemma TopEnd(m: bv32)
    ensures Top(m, 6) == m
  {
  }

  lemma TopStep(m: bv32, i: nat)
    requires i < 6 && m < LIMIT
    ensures Top(m, i) < 0x200_0000
    ensures Extend(Top(m, i), LowFive(Top(m, i + 1))) == Top(m, i + 1)
  {
    hide Top, Extend, LowFive, Right5;
    TopBelow(m, i + 1);
    TopShift(m, i);
    Regroup(Top(m, i + 1));
  }

  lemma TopStart(m: bv32)
    requires m < LIMIT
    ensures Top(m, 0) == 0
  {
  }

  lemma ZeroBits()
    ensures Bits(0) == 0
  {
  }

  /** From any register, the symbols of m and as many zeros end Top(m, n) apart. */
  lemma {:induction false} SymbolsApart(c: bv32, m: bv32, n: nat)
    requires n <= 6 && m < LIMIT
    ensures Xor(Fold(c, Zeros(n)), Fold(c, Symbols(m, n))) == Top(m, n)
  {
    hide Xor, Step, Bits, Top, Extend, LowFive;
    if n == 0 {
      XorUnits(c);
      TopStart(m);
    } else {
      var z, s := Zeros(n - 1), Symbols(m, n - 1);
      var g := LowFive(Top(m, n));
      SymbolsApart(c, m, n - 1);
      LastSymbols(c, m, n);
      hide Fold, Zeros, Symbols;
      XorUnits(g);
      StepLinear(Fold(c, z), Fold(c, s), 0, g);
      TopStep(m, n - 1);
      ShiftOnly(Top(m, n - 1), g);
    }
  }

  lemma LastSymbols(c: bv32, m: bv32, n: nat)
    requires 0 < n <= 6
    ensures Fold(c, Zeros(n)) == Step(Fold(c, Zeros(n - 1)), 0)
    ensures Fold(c, Symbols(m, n)) == Step(Fold(c, Symbols(m, n - 1)), LowFive(Top(m, n)))
  {
    hide Step, Bits, Top, LowFive;
    ZeroBits();
    assert Zeros(n)[..n - 1] == Zeros(n - 1) && Symbols(m, n)[..n - 1] == Symbols(m, n - 1);
  }

  lemma {:induction false} FoldAppend(c: bv32, s: seq<byte>, t: seq<byte>)
    ensures Fold(c, s + t) == Fold(Fold(c, s), t)
  {
    hide Step, Bits;
    if t == [] {
      assert s + t == s;
    } else {
      var n := |s + t| - 1;
      assert (s + t)[..n] == s + t[..|t| - 1];
      FoldAppend(c, s, t[..|t| - 1]);
    }
  }

  lemma {:induction false} FoldBounded(c: bv32, s: seq<byte>)
    requires c < LIMIT
    ensures Fold(c, s) < LIMIT
  {
    hide Step;
    if s != [] {
      ByteBits(s[|s| - 1]);
      StepBounded(Fold(c, s[..|s| - 1]), Bits(s[|s| - 1]));
    }
  }

  lemma XorLimit(a: bv32, b: bv32)
    requires a < LIMIT && b < LIMIT
    ensures Xor(a, b) < LIMIT
  {
  }

  /** The register value whose symbols complete a string read as far as register c. */
  function Completion(c: bv32): bv32 {
    Xor(Fold(c, Zeros(6)), BECH32M_CONST)
  }

  /** A created checksum brings the register to the constant. */
  lemma ChecksumCompletes(c: bv32)
    requires c < LIMIT
    ensures Fold(c, Symbols(Completion(c), 6)) == BECH32M_CONST
  {
    hide Xor, Fold, Symbols;
    var z := Fold(c, Zeros(6));
    var m := Completion(c);
    FoldBounded(c, Zeros(6));
    XorLimit(z, BECH32M_CONST);
    SymbolsApart(c, m, 6);
    XorMove(z, Fold(c, Symbols(m, 6)), m);
    XorDouble(z, BECH32M_CONST);
  }

  lemma XorMove(x: bv32, y: bv32, z: bv32)
    requires Xor(x, y) == z
    ensures y == Xor(x, z)
  {
  }

  lemma XorDouble(x: bv32, y: bv32)
    ensures Xor(x, Xor(x, y)) == y
  {
  }

  /** It is the only one: two checksums differ, if at all, within six symbols. */
  lemma ChecksumUnique(c: bv32, s: seq<word>)
    requires c < LIMIT && |s| == 6 && Fold(c, s) == BECH32M_CONST
    ensures s == Symbols(Completion(c), 6)
  {
    hide Fold, Completion, Symbols;
    var t := Symbols(Completion(c), 6);
    ChecksumCompletes(c);
    if s != t {
      BurstDetected(c, s, t, 0);
    }
  }

  lemma FoldOne(c: bv32, s: seq<byte>, v: byte)
    ensures Fold(c, s + [v]) == Step(Fold(c, s), Bits(v))
  {
    hide Step, Bits;
    assert (s + [v])[..|s|] == s;
  }

  lemma SampleSteps()
    ensures Step(0x1, 3) == 0x23 && Step(0x23, 0) == 0x460
    ensures Step(0x460, 1) == 0x8c01 && Step(0x8c01, 1) == 0x118021
    ensures Step(0x118021, 25) == 0x2300439 && Step(0x2300439, 2) == 0x3d6ad090
    ensures Step(0x3d6ad090, 30) == 0x2fdd4e7 && Step(0x2fdd4e7, 2) == 0x24d0cb50
    ensures Step(0x24d0cb50, 11) == 0x165d86d5 && Step(0x165d86d5, 1) == 0x2bc830a3
  {
    StepWritten(0x1, 3);
    StepWritten(0x23, 0);
    StepWritten(0x460, 1);
    StepWritten(0x8c01, 1);
    StepWritten(0x118021, 25);
    StepWritten(0x2300439, 2);
    StepWritten(0x3d6ad090, 30);
    StepWritten(0x2fdd4e7, 2);
    StepWritten(0x24d0cb50, 11);
    StepWritten(0x165d86d5, 1);
    hide Step;
  }

  lemma SampleBits()
    ensures Bits(0) == 0 && Bits(1) == 1 && Bits(2) == 2 && Bits(3) == 3
    ensures Bits(11) == 11 && Bits(25) == 25 && Bits(30) == 30
  {
  }

  lemma FoldEmpty(c: bv32)
    ensures Fold(c, []) == c
  {
  }

  /** A register worked out: the HRP "a", the symbol 1 and six checksum symbols. */
  lemma SampleRegister()
    ensures Fold(1, [3, 0, 1, 1, 25, 2, 30, 2, 11, 1]) == 0x2bc830a3
  {
    SampleSteps();
    SampleBits();
    FoldEmpty(1);
    hide *;
    var s: seq<byte> := [];
    FoldOne(1, s, 3);
    s := s + [3];
    FoldOne(1, s, 0);
    s := s + [0];
    FoldOne(1, s, 1);
    s := s + [1];
    FoldOne(1, s, 1);
    s := s + [1];
    FoldOne(1, s, 25);
    s := s + [25];
    FoldOne(1, s, 2);
    s := s + [2];
    FoldOne(1, s, 30);
    s := s + [30];
    FoldOne(1, s, 2);
    s := s + [2];
    FoldOne(1, s, 11);
    s := s + [11];
    FoldOne(1, s, 1);
    s := s + [1];
    assert s == [3, 0, 1, 1, 25, 2, 30, 2, 11, 1];
  }
}
