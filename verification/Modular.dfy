/** Congruence arithmetic, and inverses modulo a prime. */
module Modular {
  import opened Bytes
  import opened Options

  predicate Cong(a: int, b: int, n: int)
    requires n > 0
  {
    (a - b) % n == 0
  }

  // ---------------------------------------------------------------------------
  // Congruence
  // ---------------------------------------------------------------------------

  lemma CongMul(a: int, b: int, c: int, n: int)
    requires n > 0 && Cong(a, b, n)
    ensures Cong(a * c, b * c, n) && Cong(c * a, c * b, n)
  {
    var q := (a - b) / n;
    assert a * c - b * c == n * (q * c) by { Distribute(a, b, c, n, q); }
    DivUnique(a * c - b * c, n, q * c, 0);
  }

  lemma Distribute(a: int, b: int, c: int, n: int, q: int)
    requires a - b == n * q
    ensures a * c - b * c == n * (q * c)
  {
    assert a * c - b * c == (a - b) * c == (n * q) * c;
  }

  lemma CongAdd(a: int, b: int, c: int, d: int, n: int)
    requires n > 0 && Cong(a, b, n) && Cong(c, d, n)
    ensures Cong(a + c, b + d, n) && Cong(a - c, b - d, n)
  {
    var p, q := (a - b) / n, (c - d) / n;
    assert (a + c) - (b + d) == n * (p + q);
    assert (a - c) - (b - d) == n * (p - q);
    DivUnique((a + c) - (b + d), n, p + q, 0);
    DivUnique((a - c) - (b - d), n, p - q, 0);
  }

  lemma CongRefl(a: int, n: int)
    requires n > 0
    ensures Cong(a, a, n)
  {
  }

  lemma CongSym(a: int, b: int, n: int)
    requires n > 0 && Cong(a, b, n)
    ensures Cong(b, a, n)
  {
    var q := (a - b) / n;
    assert b - a == n * (0 - q);
    DivUnique(b - a, n, 0 - q, 0);
  }

  lemma CongTrans(a: int, b: int, c: int, n: int)
    requires n > 0 && Cong(a, b, n) && Cong(b, c, n)
    ensures Cong(a, c, n)
  {
    CongAdd(a, b, b, c, n);
    assert (a + b) - (b + c) == a - c;
  }

  lemma CongMod(a: int, n: int)
    requires n > 0
    ensures Cong(a % n, a, n) && Cong(a, a % n, n)
  {
    assert a - a % n == n * (a / n);
    DivUnique(a - a % n, n, a / n, 0);
    CongSym(a, a % n, n);
  }

  /** Congruent numbers have the same remainder, and the other way round. */
  lemma CongIff(a: int, b: int, n: int)
    requires n > 0
    ensures Cong(a, b, n) <==> a % n == b % n
  {
    hide Cong;
    CongMod(a, n);
    CongMod(b, n);
    if Cong(a, b, n) {
      CongTrans(a % n, a, b, n);
      CongTrans(a % n, b, b % n, n);
      CongSmall(a % n, b % n, n);
    }
    if a % n == b % n {
      CongTrans(a, a % n, b, n);
    }
  }

  lemma CongSmall(a: int, b: int, n: int)
    requires 0 <= a < n && 0 <= b < n && Cong(a, b, n)
    ensures a == b
  {
    var q := (a - b) / n;
    assert a - b == n * q;
    SameQuotient(n, 0, a, q, b);
  }

  lemma CongNegate(a: int, n: int)
    requires n > 0
    ensures Cong(n - a, -a, n)
  {
    DivUnique(n, n, 1, 0);
  }

  // ---------------------------------------------------------------------------
  // Inverses
  // ---------------------------------------------------------------------------

  predicate Prime(n: nat) {
    n > 1 && forall d :: 1 < d < n ==> n % d != 0
  }

  /** BN_mod_inverse: the inverse of a modulo n, or none. */
  function ModInverse(a: nat, n: nat): (r: Option<nat>)
    requires n > 1
    ensures r.Some? ==> 0 < r.value < n && (a * r.value) % n == 1
  {
    InverseFrom(a, n, 1)
  }

  function InverseFrom(a: nat, n: nat, j: nat): (r: Option<nat>)
    requires n > 1 && j > 0
    ensures r.Some? ==> 0 < r.value < n && (a * r.value) % n == 1
    decreases n - j
  {
    if j >= n then None
    else if (a * j) % n == 1 then Some(j)
    else InverseFrom(a, n, j + 1)
  }

  lemma {:induction false} InverseFound(a: nat, n: nat, j: nat, w: nat)
    requires 0 < j <= w < n && (a * w) % n == 1
    ensures InverseFrom(a, n, j).Some?
    decreases n - j
  {
    if (a * j) % n != 1 {
      InverseFound(a, n, j + 1, w);
    }
  }

  /** Modulo a prime every non-zero number has an inverse. */
  lemma InverseExists(a: nat, n: nat)
    requires Prime(n) && 0 < a < n
    ensures ModInverse(a, n).Some?
  {
    var w := InverseWitness(a, n);
    assert w != 0;
    InverseFound(a, n, 1, w);
  }

  /** Euclid's descent: from the inverse of n mod a to that of a. */
  lemma {:induction false} InverseWitness(a: nat, n: nat) returns (w: nat)
    requires Prime(n) && 0 < a < n
    ensures w < n && (a * w) % n == 1
    decreases a
  {
    hide Cong;
    if a == 1 {
      w := 1;
    } else {
      var q, r := n / a, n % a;
      assert r != 0;
      var v := InverseWitness(r, n);
      w := (-q * v) % n;
      EuclidStep(a, n, q, r, v, w);
    }
  }

  lemma EuclidStep(a: nat, n: nat, q: int, r: nat, v: int, w: int)
    requires n > 1 && n == a * q + r && (r * v) % n == 1 && w == (-q * v) % n
    ensures (a * w) % n == 1
  {
    hide Cong;
    CongMod(-q * v, n);
    CongMul(w, -q * v, a, n);
    assert a * (-q * v) == r * v - n * v by { EuclidAlgebra(a, n, q, r, v); }
    MultipleZero(r * v, n, v);
    CongTrans(a * w, a * (-q * v), r * v, n);
    CongIff(a * w, r * v, n);
  }

  lemma EuclidAlgebra(a: int, n: int, q: int, r: int, v: int)
    requires n == a * q + r
    ensures a * (-q * v) == r * v - n * v
  {
    assert n * v == (a * q) * v + r * v;
    assert a * (-q * v) == -((a * q) * v);
  }

  lemma MultipleZero(x: int, n: int, v: int)
    requires n > 0
    ensures Cong(x - n * v, x, n)
  {
    assert x - n * v - x == n * (-v);
    DivUnique(x - n * v - x, n, -v, 0);
  }

  /** A factor that has an inverse can be cancelled. */
  lemma CongCancel(s: int, w: int, a: int, b: int, n: int)
    requires n > 1 && Cong(s * w, 1, n) && Cong(s * a, s * b, n)
    ensures Cong(a, b, n)
  {
    hide Cong;
    InverseTimes(s, w, a, n);
    InverseTimes(s, w, b, n);
    CongMul(s * a, s * b, w, n);
    CongSym(w * (s * a), a, n);
    CongTrans(a, w * (s * a), w * (s * b), n);
    CongTrans(a, w * (s * b), b, n);
  }

  lemma CongCancelRight(s: int, w: int, a: int, b: int, n: int)
    requires n > 1 && Cong(s * w, 1, n) && Cong(a * s, b * s, n)
    ensures Cong(a, b, n)
  {
    hide Cong;
    assert a * s == s * a && b * s == s * b;
    CongCancel(s, w, a, b, n);
  }

  /** w (s a) = a for inverse s, w. */
  lemma InverseTimes(s: int, w: int, a: int, n: int)
    requires n > 1 && Cong(s * w, 1, n)
    ensures Cong(w * (s * a), a, n) && Cong(s * (w * a), a, n)
  {
    hide Cong;
    CongMul(s * w, 1, a, n);
    assert w * (s * a) == (s * w) * a == s * (w * a);
  }

  lemma OneModulo(x: int, n: int)
    requires n > 1 && x % n == 1
    ensures Cong(x, 1, n)
  {
    CongIff(x, 1, n);
  }
}
