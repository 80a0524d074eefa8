/**
 Bytes, machine integers and radix-256 numerals, shared by the codec and the signers.
 */
module Bytes {

  type byte = x: int | 0 <= x < 256
  type u16 = x: int | 0 <= x < 0x1_0000
  type u32 = x: int | 0 <= x < 0x1_0000_0000
  type u64 = x: int | 0 <= x < 0x1_0000_0000_0000_0000

  const TWO_64: nat := 0x1_0000_0000_0000_0000

  // No std::vector or std::string reaches this many elements.
  const MAX_SIZE: nat := 0x8000_0000_0000_0000

  function Max(a: int, b: int): int {
    if a < b then b else a
  }

  function Min(a: int, b: int): int {
    if a < b then a else b
  }

  function Pow256(k: nat): (p: nat)
    ensures p > 0
  {
    if k == 0 then 1 else 256 * Pow256(k - 1)
  }

  function Pow2(k: nat): (p: nat)
    ensures p > 0
  {
    if k == 0 then 1 else 2 * Pow2(k - 1)
  }

  /** The k low-order bytes of v, least significant first. */
  function ToLE(v: nat, k: nat): (b: seq<byte>)
    ensures |b| == k
  {
    if k == 0 then [] else [v % 256] + ToLE(v / 256, k - 1)
  }

  /** The number whose bytes are b, least significant first. */
  function FromLE(b: seq<byte>): nat {
    if b == [] then 0 else b[0] + 256 * FromLE(b[1..])
  }

  /** The number whose bytes are b, most significant first. */
  function FromBE(b: seq<byte>): nat {
    if b == [] then 0 else 256 * FromBE(b[..|b| - 1]) + b[|b| - 1]
  }

  /** The k low-order bytes of v, most significant first. */
  function ToBE(v: nat, k: nat): (b: seq<byte>)
    ensures |b| == k
  {
    if k == 0 then [] else ToBE(v / 256, k - 1) + [v % 256]
  }

  lemma {:induction false} FromToLE(v: nat, k: nat)
    requires v < Pow256(k)
    ensures FromLE(ToLE(v, k)) == v
  {
    if k > 0 {
      FromToLE(v / 256, k - 1);
      assert ToLE(v, k)[1..] == ToLE(v / 256, k - 1);
    }
  }

  lemma {:induction false} ToFromLE(b: seq<byte>)
    ensures FromLE(b) < Pow256(|b|)
    ensures ToLE(FromLE(b), |b|) == b
  {
    hide FromLE, ToLE, Pow256;
    if b == [] {
      NoDigits();
    } else {
      var d, rest := b[0], b[1..];
      ToFromLE(rest);
      FirstDigit(d, FromLE(rest), |rest|);
      assert b == [d] + rest;
      FromLEFirst(b);
    }
  }

  lemma NoDigits()
    ensures FromLE([]) == 0 && Pow256(0) == 1 && ToLE(0, 0) == []
  {
  }

  lemma FromLEFirst(b: seq<byte>)
    requires b != []
    ensures FromLE(b) == b[0] + 256 * FromLE(b[1..])
  {
  }

  lemma FirstDigit(d: byte, v: nat, k: nat)
    ensures ToLE(d + 256 * v, k + 1) == [d] + ToLE(v, k)
    ensures v < Pow256(k) ==> d + 256 * v < Pow256(k + 1)
  {
    assert (d + 256 * v) % 256 == d && (d + 256 * v) / 256 == v;
  }

  /** Appending one more byte of v: what one turn of a little-endian write loop does. */
  lemma {:induction false} ToLEStep(v: nat, k: nat)
    ensures ToLE(v, k + 1) == ToLE(v, k) + [(v / Pow256(k)) % 256]
  {
    if k == 0 {
      assert ToLE(v, 1) == [v % 256] + ToLE(v / 256, 0);
    } else {
      ToLEStep(v / 256, k - 1);
      DivDiv(v, Pow256(k - 1));
    }
  }

  lemma DivDiv(v: nat, p: nat)
    requires p > 0
    ensures (v / 256) / p == v / (256 * p)
  {
    var q, r := v / (256 * p), v % (256 * p);
    assert v == (256 * p) * q + r;
    var a, c := r / 256, r % 256;
    assert v == 256 * (p * q + a) + c;
    assert v / 256 == p * q + a;
    assert 0 <= a < p;
    DivUnique(v / 256, p, q, a);
  }

  /** Quotient and remainder by d are unique. */
  lemma DivUnique(x: int, d: int, q: int, r: int)
    requires d > 0 && x == d * q + r && 0 <= r < d
    ensures x / d == q && x % d == r
  {
    SameQuotient(d, x / d, x % d, q, r);
  }

  lemma SameQuotient(d: int, q: int, r: int, q': int, r': int)
    requires d > 0 && 0 <= r < d && 0 <= r' < d
    requires d * q + r == d * q' + r'
    ensures q == q' && r == r'
  {
    if q < q' {
      assert d * q' - d * q == d * (q' - q);
      MulAtLeast(d, q' - q);
    } else if q' < q {
      assert d * q - d * q' == d * (q - q');
      MulAtLeast(d, q - q');
    }
  }

  lemma {:induction false} MulAtLeast(d: int, k: int)
    requires d > 0 && k >= 1
    ensures d * k >= d
  {
    if k > 1 {
      MulAtLeast(d, k - 1);
      assert d * k == d * (k - 1) + d;
    }
  }

  lemma MulMono(d: nat, a: nat, b: nat)
    ensures a <= b ==> d * a <= d * b
  {
    if a <= b {
      assert d * b - d * a == d * (b - a);
    }
  }

  /** Accumulating one more byte: what one turn of a little-endian read loop does. */
  lemma {:induction false} FromLEStep(b: seq<byte>, x: byte)
    ensures FromLE(b + [x]) == FromLE(b) + x * Pow256(|b|)
  {
    if b == [] {
      assert [] + [x] == [x];
    } else {
      FromLEStep(b[1..], x);
      assert (b + [x])[1..] == b[1..] + [x];
      assert 256 * (x * Pow256(|b| - 1)) == x * Pow256(|b|);
    }
  }

  lemma {:induction false} FromToBE(v: nat, k: nat)
    requires v < Pow256(k)
    ensures FromBE(ToBE(v, k)) == v
  {
    if k > 0 {
      FromToBE(v / 256, k - 1);
      assert ToBE(v, k)[..k - 1] == ToBE(v / 256, k - 1);
    }
  }

  lemma {:induction false} ToFromBE(b: seq<byte>)
    ensures FromBE(b) < Pow256(|b|)
    ensures ToBE(FromBE(b), |b|) == b
  {
    hide FromBE, ToBE, Pow256;
    if b == [] {
      NoDigitsBE();
    } else {
      var init, d := b[..|b| - 1], b[|b| - 1];
      ToFromBE(init);
      LastDigit(d, FromBE(init), |init|);
      assert b == init + [d];
      FromBELast(b);
    }
  }

  lemma NoDigitsBE()
    ensures FromBE([]) == 0 && Pow256(0) == 1 && ToBE(0, 0) == []
  {
  }

  lemma FromBELast(b: seq<byte>)
    requires b != []
    ensures FromBE(b) == 256 * FromBE(b[..|b| - 1]) + b[|b| - 1]
  {
  }

  lemma LastDigit(d: byte, v: nat, k: nat)
    ensures ToBE(256 * v + d, k + 1) == ToBE(v, k) + [d]
    ensures v < Pow256(k) ==> 256 * v + d < Pow256(k + 1)
  {
    assert (256 * v + d) % 256 == d && (256 * v + d) / 256 == v;
  }

  lemma {:induction false} PowMonotone(i: nat, j: nat)
    requires i <= j
    ensures Pow256(i) <= Pow256(j)
  {
    if i < j {
      PowMonotone(i, j - 1);
    }
  }

  lemma Pow256Values()
    ensures Pow256(1) == 0x100 && Pow256(2) == 0x1_0000 && Pow256(3) == 0x100_0000
    ensures Pow256(4) == 0x1_0000_0000 && Pow256(5) == 0x100_0000_0000
    ensures Pow256(6) == 0x1_0000_0000_0000 && Pow256(7) == 0x100_0000_0000_0000
    ensures Pow256(8) == TWO_64
  {
    assert Pow256(1) == 256 * Pow256(0);
    assert Pow256(2) == 256 * Pow256(1);
    assert Pow256(3) == 256 * Pow256(2);
    assert Pow256(4) == 256 * Pow256(3);
    assert Pow256(5) == 256 * Pow256(4);
    assert Pow256(6) == 256 * Pow256(5);
    assert Pow256(7) == 256 * Pow256(6);
    assert Pow256(8) == 256 * Pow256(7);
  }
}
