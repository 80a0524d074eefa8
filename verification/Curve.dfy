/**
 A group of prime order with a generator, as the signers see secp256k1 through OpenSSL: a
 point is its discrete logarithm, 0 the point at infinity, and only x-coordinates, parities
 of y and the decompression of a point are visible.
 */
module Curve {
  import opened Bytes
  import opened Modular
  import opened Options

  datatype Curve = Curve(n: nat, xOf: nat -> nat, parityOf: nat -> nat, lift: (nat, nat) -> Option<nat>)
  {
    /** k and n-k share x and differ in parity, and (x, parity) determines the point. */
    ghost predicate Valid() {
      && Prime(n) && 2 < n <= Pow256(32)
      && (forall k :: 0 < k < n ==> PointLaws(k))
      && (forall x, b :: lift(x, b).Some? ==> 0 < lift(x, b).value < n)
    }

    ghost predicate PointLaws(k: nat)
      requires 0 < k < n
    {
      && xOf(k) < Pow256(32)
      && (parityOf(k) == 0 || parityOf(k) == 1)
      && xOf(n - k) == xOf(k)
      && parityOf(n - k) == 1 - parityOf(k)
      && lift(xOf(k), parityOf(k)) == Some(k)
    }
  }

  predicate ValidScalar(v: nat, n: nat) {
    0 < v < n
  }

  /** Points with one x-coordinate are equal or opposite. */
  lemma SameX(c: Curve, j: nat, k: nat)
    requires c.Valid() && 0 < j < c.n && 0 < k < c.n && c.xOf(j) == c.xOf(k)
    ensures j == k || j == c.n - k
  {
    assert c.PointLaws(j) && c.PointLaws(k) && c.PointLaws(c.n - k);
  }

  lemma OrderIsOdd(c: Curve)
    requires c.Valid()
    ensures c.n % 2 == 1
  {
  }

  // ---------------------------------------------------------------------------
  // The laws have a model of every odd prime order
  // ---------------------------------------------------------------------------

  function Folded(n: nat, k: nat): nat {
    if 2 * k < n then k else if k <= n then n - k else 0
  }

  function FoldedLift(n: nat, x: nat, b: nat): Option<nat> {
    if !(0 < x && 2 * x < n) then None
    else if b == 0 then Some(x)
    else if b == 1 then Some(n - x)
    else None
  }

  function FoldedLine(n: nat): Curve {
    Curve(n,
      k => Folded(n, k),
      k => if 2 * k < n then 0 else 1,
      (x, b) => FoldedLift(n, x, b))
  }

  lemma FoldedLaws(n: nat, k: nat)
    requires n % 2 == 1 && n <= Pow256(32) && 0 < k < n
    ensures FoldedLine(n).PointLaws(k)
  {
    hide Pow256;
    var m := n - k;
    assert 2 * k < n <==> 2 * m > n;
  }

  lemma FoldedLineValid(n: nat)
    requires Prime(n) && 2 < n <= Pow256(32)
    ensures FoldedLine(n).Valid()
  {
    var c := FoldedLine(n);
    assert n % 2 != 0;
    hide Pow256, Prime, c.PointLaws;
    forall k | 0 < k < n
      ensures c.PointLaws(k)
    {
      FoldedLaws(n, k);
    }
  }
}
