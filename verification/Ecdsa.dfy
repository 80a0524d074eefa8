/**
 ECDSA with low-S normalisation. The signing and verifying methods do the modular arithmetic
 step by step; they are held to equations that mention no inverse, and those equations show
 that verification accepts exactly what signing can produce.
 */
module Ecdsa {
  import opened Bytes
  import opened Curve
  import opened Hashing
  import opened Modular
  import opened Options

  datatype SignError = NoKey | BadKey | BadNonce | BadR | BadS

  datatype Outcome<+T> = Ok(value: T) | Err(error: SignError)

  // ---------------------------------------------------------------------------
  // The equations of SEC 1
  // ---------------------------------------------------------------------------

  /** s kG = eG + rQ, with r the reduced x-coordinate of kG. */
  predicate Equation(c: Curve, e: nat, q: nat, r: nat, s: nat, k: nat) {
    0 < k < c.n && Cong(s * k, e + r * q, c.n) && c.xOf(k) % c.n == r
  }

  ghost predicate Solvable(c: Curve, e: nat, q: nat, r: nat, s: nat) {
    exists k :: Equation(c, e, q, r, s, k)
  }

  /** (r, s) is a signature on e under the key point q. */
  ghost predicate Verifies(c: Curve, e: nat, q: nat, r: nat, s: nat) {
    ValidScalar(r, c.n) && ValidScalar(s, c.n) && Solvable(c, e, q, r, s)
  }

  /** (r, s) is what the key d and the nonce k give: s or n-s solves the equation, s is the lower. */
  predicate LowSigned(c: Curve, e: nat, d: nat, k: nat, r: nat, s: nat) {
    && ValidScalar(r, c.n) && 0 < s <= c.n / 2
    && (Equation(c, e, d, r, s, k) || Equation(c, e, d, r, c.n - s, k))
  }

  /** Some nonce gives (r, s) for the key d. */
  ghost predicate Signable(c: Curve, e: nat, d: nat, r: nat, s: nat) {
    exists k :: LowSigned(c, e, d, k, r, s)
  }

  // ---------------------------------------------------------------------------
  // Verification accepts exactly what signing can produce
  // ---------------------------------------------------------------------------

  /** Negating s negates the nonce point, whose x stays the same. */
  lemma NegateS(c: Curve, e: nat, q: nat, r: nat, s: nat, k: nat)
    requires c.Valid() && s < c.n && Equation(c, e, q, r, c.n - s, k)
    ensures k < c.n && Equation(c, e, q, r, s, c.n - k)
  {
    assert c.PointLaws(k);
    hide Cong, c.PointLaws;
    var n := c.n;
    CrossNegate(n, s, k);
    CongTrans(s * (n - k), (n - s) * k, e + r * q, n);
  }

  lemma CrossNegate(n: int, s: int, k: int)
    requires n > 0
    ensures Cong(s * (n - k), (n - s) * k, n)
  {
    var x := s * (n - k) - (n - s) * k;
    assert x == n * (s - k) by { CrossAlgebra(n, s, k); }
    DivUnique(x, n, s - k, 0);
  }

  lemma CrossAlgebra(n: int, s: int, k: int)
    ensures s * (n - k) - (n - s) * k == n * (s - k)
  {
    assert s * (n - k) == s * n - s * k;
    assert (n - s) * k == n * k - s * k;
  }

  /** Every low-S signature verifies, whether or not s was replaced by n-s. */
  lemma LowSignedVerifies(c: Curve, e: nat, d: nat, k: nat, r: nat, s: nat)
    requires c.Valid() && LowSigned(c, e, d, k, r, s)
    ensures Verifies(c, e, d, r, s)
  {
    if !Equation(c, e, d, r, s, k) {
      NegateS(c, e, d, r, s, k);
    }
  }

  /** And what verifies is, up to the sign of s, a signature by some nonce. */
  lemma VerifiesExactly(c: Curve, e: nat, d: nat, r: nat, s: nat)
    requires c.Valid() && ValidScalar(r, c.n) && ValidScalar(s, c.n)
    ensures Verifies(c, e, d, r, s) <==> Signable(c, e, d, r, Min(s, c.n - s))
  {
    hide Cong, c.Valid, Equation;
    var low := Min(s, c.n - s);
    if Verifies(c, e, d, r, s) {
      var k :| Equation(c, e, d, r, s, k);
      assert LowSigned(c, e, d, k, r, low);
    }
    if k :| LowSigned(c, e, d, k, r, low) {
      LowSignedVerifies(c, e, d, k, r, low);
      if !Equation(c, e, d, r, s, k) {
        NegateS(c, e, d, r, s, k);
      }
    }
  }

  /** Key, hash and nonce leave no choice. */
  lemma SignatureUnique(c: Curve, e: nat, d: nat, k: nat, r: nat, s: nat, r': nat, s': nat)
    requires c.Valid() && LowSigned(c, e, d, k, r, s) && LowSigned(c, e, d, k, r', s')
    ensures r == r' && s == s'
  {
    OrderIsOdd(c);
    var a := if Equation(c, e, d, r, s, k) then s else c.n - s;
    var b := if Equation(c, e, d, r', s', k) then s' else c.n - s';
    SameNonceSameS(c, e + r * d, a, b, k);
  }

  lemma SameNonceSameS(c: Curve, t: int, a: nat, b: nat, k: nat)
    requires c.Valid() && a < c.n && b < c.n && 0 < k < c.n
    requires Cong(a * k, t, c.n) && Cong(b * k, t, c.n)
    ensures a == b
  {
    var n := c.n;
    InverseExists(k, n);
    var w := ModInverse(k, n).value;
    OneModulo(k * w, n);
    hide *;
    CongSym(b * k, t, n);
    CongTrans(a * k, t, b * k, n);
    CongCancelRight(k, w, a, b, n);
    CongSmall(a, b, n);
  }

  // ---------------------------------------------------------------------------
  // Wire forms
  // ---------------------------------------------------------------------------

  /** The compressed key: 02 or 03 by the parity of y, then x. */
  function PublicKeyOf(c: Curve, d: nat): (key: seq<byte>)
    ensures |key| == 33
  {
    [if c.parityOf(d) == 1 then 0x03 else 0x02] + ToBE(c.xOf(d), 32)
  }

  function Decompress(c: Curve, key: seq<byte>): Option<nat>
    requires |key| == 33
  {
    if key[0] == 0x02 || key[0] == 0x03 then c.lift(FromBE(key[1..]), if key[0] == 0x03 then 1 else 0)
    else None
  }

  lemma KeyDecompresses(c: Curve, d: nat)
    requires c.Valid() && ValidScalar(d, c.n)
    ensures Decompress(c, PublicKeyOf(c, d)) == Some(d)
  {
    assert c.PointLaws(d);
    FromToBE(c.xOf(d), 32);
    hide c.Valid, ToBE, FromBE, Pow256;
    assert PublicKeyOf(c, d)[1..] == ToBE(c.xOf(d), 32);
  }

  function ROf(signature: seq<byte>): nat
    requires |signature| == 64
  {
    FromBE(signature[..32])
  }

  function SOf(signature: seq<byte>): nat
    requires |signature| == 64
  {
    FromBE(signature[32..])
  }

  lemma SignatureParts(c: Curve, r: nat, s: nat)
    requires c.Valid() && r < c.n && s < c.n
    ensures var sig := ToBE(r, 32) + ToBE(s, 32); |sig| == 64 && ROf(sig) == r && SOf(sig) == s
  {
    var sig := ToBE(r, 32) + ToBE(s, 32);
    assert sig[..32] == ToBE(r, 32) && sig[32..] == ToBE(s, 32);
    FromToBE(r, 32);
    FromToBE(s, 32);
  }

  /** What verify_raw accepts for a message hash. */
  ghost predicate Accepts(c: Curve, hash: Digest, signature: seq<byte>, key: seq<byte>) {
    && |signature| == 64 && |key| == 33
    && Decompress(c, key).Some?
    && Verifies(c, FromBE(hash), Decompress(c, key).value, ROf(signature), SOf(signature))
  }

  // ---------------------------------------------------------------------------
  // Signing
  // ---------------------------------------------------------------------------

  method DerivePublicKey(c: Curve, privateKey: Digest) returns (r: Outcome<seq<byte>>)
    requires c.Valid()
    ensures ValidScalar(FromBE(privateKey), c.n) ==>
      r.Ok? && |r.value| == 33 && Decompress(c, r.value) == Some(FromBE(privateKey))
    ensures r.Ok? ==> r.value == PublicKeyOf(c, FromBE(privateKey))
    ensures !ValidScalar(FromBE(privateKey), c.n) ==> r == Err(BadKey)
  {
    var d := FromBE(privateKey);
    if !ValidScalar(d, c.n) {
      return Err(BadKey);
    }
    KeyDecompresses(c, d);
    var prefix: byte := if c.parityOf(d) == 1 then 0x03 else 0x02;
    r := Ok([prefix] + ToBE(c.xOf(d), 32));
  }

  /** The nonce as signing uses it. */
  function NonceOf(c: Curve, nonce: Digest): nat
    requires c.n > 0
  {
    FromBE(nonce) % c.n
  }

  /** The x-coordinate of the nonce point, reduced. */
  function RFor(c: Curve, nonce: Digest): nat
    requires c.n > 0
  {
    c.xOf(NonceOf(c, nonce)) % c.n
  }

  /** e + rd, which s is a multiple of. */
  function Total(c: Curve, hash: Digest, d: nat, nonce: Digest): nat
    requires c.n > 0
  {
    FromBE(hash) + RFor(c, nonce) * d
  }

  method SignHash(c: Curve, hash: Digest, privateKey: Digest, nonce: Digest) returns (sig: Outcome<seq<byte>>)
    requires c.Valid()
    ensures var d := FromBE(privateKey);
            sig.Ok? <==> ValidScalar(d, c.n) && NonceOf(c, nonce) != 0 && RFor(c, nonce) != 0
                         && Total(c, hash, d, nonce) % c.n != 0
    ensures sig.Ok? ==> |sig.value| == 64
                        && LowSigned(c, FromBE(hash), FromBE(privateKey), NonceOf(c, nonce),
                                     ROf(sig.value), SOf(sig.value))
    ensures sig == Err(BadKey) <==> !ValidScalar(FromBE(privateKey), c.n)
    ensures ValidScalar(FromBE(privateKey), c.n) ==>
      (sig == Err(BadNonce) <==> NonceOf(c, nonce) == 0)
      && (sig == Err(BadR) <==> NonceOf(c, nonce) != 0 && RFor(c, nonce) == 0)
    ensures sig != Err(NoKey)
  {
    hide Cong, ModInverse, c.PointLaws;
    var n := c.n;
    var d, e, k := FromBE(privateKey), FromBE(hash), FromBE(nonce);
    if !ValidScalar(d, n) {
      return Err(BadKey);
    }
    k := k % n;
    if !ValidScalar(k, n) {
      return Err(BadNonce);
    }
    e := e % n;
    var r := c.xOf(k) % n;
    if !ValidScalar(r, n) {
      return Err(BadR);
    }
    InverseExists(k, n);
    var kinv := ModInverse(k, n).value;
    var rd := (r * d) % n;
    var sum := (e + rd) % n;
    var s := (kinv * sum) % n;
    SIsQuotient(c, FromBE(hash), d, r, k, kinv, s);
    if !ValidScalar(s, n) {
      return Err(BadS);
    }
    ghost var first := s;
    if s > n / 2 {
      s := n - s;
    }
    Lowered(c, FromBE(hash), d, k, r, first, s);
    SignatureParts(c, r, s);
    sig := Ok(ToBE(r, 32) + ToBE(s, 32));
  }

  lemma Lowered(c: Curve, e: nat, d: nat, k: nat, r: nat, first: nat, s: nat)
    requires c.Valid() && 0 < k < c.n && ValidScalar(r, c.n) && ValidScalar(first, c.n)
    requires Cong(first * k, e + r * d, c.n) && r == c.xOf(k) % c.n
    requires s == if first > c.n / 2 then c.n - first else first
    ensures LowSigned(c, e, d, k, r, s) && s < c.n
  {
    OrderIsOdd(c);
    hide Cong, c.Valid;
    assert Equation(c, e, d, r, first, k);
  }

  /** s = (e + rd) / k, and it is zero only when e + rd is. */
  lemma SIsQuotient(c: Curve, e: nat, d: nat, r: nat, k: nat, kinv: nat, s: nat)
    requires c.Valid() && 0 < k < c.n && (k * kinv) % c.n == 1
    requires s == (kinv * ((e % c.n + (r * d) % c.n) % c.n)) % c.n
    ensures Cong(s * k, e + r * d, c.n)
    ensures s == 0 <==> (e + r * d) % c.n == 0
  {
    hide Cong, c.Valid;
    var n := c.n;
    var x, y, t := e % n, (r * d) % n, e + r * d;
    CongMod(e, n);
    CongMod(r * d, n);
    SumReduced(x, y, e, r * d, n);
    OneModulo(k * kinv, n);
    Quotient(k, kinv, t, (x + y) % n, s, n);
  }

  lemma Quotient(k: int, kinv: int, t: int, sum: int, s: int, n: int)
    requires n > 1 && Cong(k * kinv, 1, n) && Cong(sum, t, n) && s == (kinv * sum) % n
    ensures Cong(s * k, t, n)
    ensures s == 0 <==> t % n == 0
  {
    hide Cong;
    CongMod(kinv * sum, n);
    CongMul(sum, t, kinv, n);
    CongTrans(s, kinv * sum, kinv * t, n);
    TimesInverse(k, kinv, t, s, n);
    ZeroQuotient(k, kinv, t, s, n);
  }

  lemma ZeroQuotient(k: int, kinv: int, t: int, s: int, n: int)
    requires n > 1 && 0 <= s < n && Cong(s, kinv * t, n) && Cong(s * k, t, n)
    ensures s == 0 <==> t % n == 0
  {
    hide Cong;
    CongIff(t, 0, n);
    if s == 0 {
      CongSym(0, t, n);
    }
    if t % n == 0 {
      CongMul(t, 0, kinv, n);
      CongTrans(s, kinv * t, 0, n);
      CongSmall(s, 0, n);
    }
  }

  lemma TimesInverse(k: int, kinv: int, t: int, s: int, n: int)
    requires n > 1 && Cong(k * kinv, 1, n) && Cong(s, kinv * t, n)
    ensures Cong(s * k, t, n)
  {
    hide Cong;
    CongMul(s, kinv * t, k, n);
    InverseTimes(k, kinv, t, n);
    assert k * (kinv * t) == (kinv * t) * k;
    CongTrans(s * k, (kinv * t) * k, t, n);
  }

  lemma SumReduced(x: int, y: int, a: int, b: int, n: int)
    requires n > 0 && Cong(x, a, n) && Cong(y, b, n)
    ensures Cong((x + y) % n, a + b, n)
  {
    hide Cong;
    CongAdd(x, a, y, b, n);
    CongMod(x + y, n);
    CongTrans((x + y) % n, x + y, a + b, n);
  }

  // ---------------------------------------------------------------------------
  // Verifying
  // ---------------------------------------------------------------------------

  method VerifyHash(c: Curve, hash: Digest, signature: seq<byte>, key: seq<byte>) returns (ok: bool)
    requires c.Valid() && |signature| == 64 && |key| == 33
    ensures ok <==> Accepts(c, hash, signature, key)
  {
    AcceptsNeeds(c, hash, signature, key);
    hide *;
    var n := c.n;
    var r, s, e := ROf(signature), SOf(signature), FromBE(hash);
    if !ValidScalar(r, n) || !ValidScalar(s, n) {
      return false;
    }
    ScalarRange(s, n);
    var x := FromBE(key[1..]);
    var yParity := if key[0] == 0x03 then 1 else 0;
    if key[0] != 0x02 && key[0] != 0x03 {
      return false;
    }
    var q := c.lift(x, yParity);
    if q == None {
      return false;
    }
    var computed := VerificationPoint(c, e, q.value, r, s);
    if computed == 0 {
      return false;
    }
    var v := c.xOf(computed) % n;
    ok := v == r;
  }

  /** u1 G + u2 Q, with e reduced first. */
  method VerificationPoint(c: Curve, hash: nat, q: nat, r: nat, s: nat) returns (computed: nat)
    requires c.Valid() && ValidScalar(s, c.n)
    ensures c.n > 0
    ensures Solvable(c, hash, q, r, s) <==> computed != 0 && c.xOf(computed) % c.n == r
  {
    var w := ScalarInverse(c, s);
    hide *;
    var n := c.n;
    var e := hash % n;
    var u1 := (e * w) % n;
    var u2 := (r * w) % n;
    computed := (u1 + (u2 * q) % n) % n;
    ComputedPoint(c, hash, q, r, s, w, computed);
  }

  /** BN_mod_inverse of a valid scalar never fails. */
  method ScalarInverse(c: Curve, s: nat) returns (w: nat)
    requires c.Valid() && ValidScalar(s, c.n)
    ensures c.n > 0 && (s * w) % c.n == 1
  {
    InverseExists(s, c.n);
    w := ModInverse(s, c.n).value;
  }

  lemma ScalarRange(s: nat, n: nat)
    requires ValidScalar(s, n)
    ensures 0 < s < n
  {
  }

  lemma AcceptsNeeds(c: Curve, hash: Digest, signature: seq<byte>, key: seq<byte>)
    requires |signature| == 64 && |key| == 33
    ensures var q := if key[0] == 0x02 || key[0] == 0x03
                     then c.lift(FromBE(key[1..]), if key[0] == 0x03 then 1 else 0) else None;
            Accepts(c, hash, signature, key) <==>
            && q.Some? && ValidScalar(ROf(signature), c.n) && ValidScalar(SOf(signature), c.n)
            && Solvable(c, FromBE(hash), q.value, ROf(signature), SOf(signature))
  {
    hide Solvable, ValidScalar, ROf, SOf, FromBE;
  }

  /** u1 G + u2 Q is the only point that can solve the equation. */
  lemma ComputedPoint(c: Curve, e: nat, q: nat, r: nat, s: nat, w: nat, computed: nat)
    requires c.Valid() && ValidScalar(s, c.n) && (s * w) % c.n == 1
    requires computed == (((e % c.n) * w) % c.n + (((r * w) % c.n) * q) % c.n) % c.n
    ensures Solvable(c, e, q, r, s) <==> computed != 0 && c.xOf(computed) % c.n == r
  {
    hide Cong, c.Valid;
    var n := c.n;
    var t := e + r * q;
    OneModulo(s * w, n);
    WeightedSum(e, r, q, w, n);
    CongMul(computed, w * t, s, n);
    InverseTimes(s, w, t, n);
    CongTrans(s * computed, s * (w * t), t, n);
    forall k: nat | Equation(c, e, q, r, s, k)
      ensures k == computed
    {
      OnlySolution(s, w, t, computed, k, n);
    }
    if computed != 0 && c.xOf(computed) % n == r {
      assert Equation(c, e, q, r, s, computed);
    }
  }

  lemma OnlySolution(s: int, w: int, t: int, a: int, b: int, n: int)
    requires n > 1 && Cong(s * w, 1, n) && Cong(s * a, t, n) && Cong(s * b, t, n)
    requires 0 <= a < n && 0 <= b < n
    ensures a == b
  {
    hide Cong;
    CongSym(s * b, t, n);
    CongTrans(s * a, t, s * b, n);
    CongCancel(s, w, a, b, n);
    CongSmall(a, b, n);
  }

  lemma WeightedSum(e: nat, r: nat, q: nat, w: nat, n: nat)
    requires n > 0
    ensures Cong((((e % n) * w) % n + (((r * w) % n) * q) % n) % n, w * (e + r * q), n)
  {
    hide Cong;
    var a, b := (e % n) * w, ((r * w) % n) * q;
    CongMod(e, n);
    CongMul(e % n, e, w, n);
    ReducedTwice(a, e * w, n);
    CongMod(r * w, n);
    CongMul((r * w) % n, r * w, q, n);
    ReducedTwice(b, (r * w) * q, n);
    SumReduced(a % n, b % n, e * w, (r * w) * q, n);
    WeightAlgebra(e, r, q, w);
  }

  lemma ReducedTwice(x: int, a: int, n: int)
    requires n > 0 && Cong(x, a, n)
    ensures Cong(x % n, a, n)
  {
    hide Cong;
    CongMod(x, n);
    CongTrans(x % n, x, a, n);
  }

  lemma WeightAlgebra(e: int, r: int, q: int, w: int)
    ensures e * w + (r * w) * q == w * (e + r * q)
  {
    assert (r * w) * q == w * (r * q);
  }

  // ---------------------------------------------------------------------------
  // The nonce
  // ---------------------------------------------------------------------------

  /** The ctr-th candidate; the counter is one byte, so it comes round after 256. */
  function Candidate(h: Hasher, message: seq<byte>, key: Digest, hash: Digest, ctr: nat): Digest {
    h(key + hash + message + [ctr % 256])
  }

  predicate Usable(c: Curve, nonce: Digest) {
    1 < FromBE(nonce) < c.n
  }

  /** The first usable candidate, or random bytes when there is none. */
  ghost predicate IsNonce(
    c: Curve, h: Hasher, message: seq<byte>, key: Digest, hash: Digest, random: Digest, nonce: Digest)
  {
    || FirstUsable(c, h, message, key, hash, nonce)
    || (nonce == random && NoneUsable(c, h, message, key, hash, 256))
  }

  ghost predicate FirstUsable(
    c: Curve, h: Hasher, message: seq<byte>, key: Digest, hash: Digest, nonce: Digest)
  {
    exists i: nat :: i < 256 && nonce == Candidate(h, message, key, hash, i) && Usable(c, nonce)
                     && NoneUsable(c, h, message, key, hash, i)
  }

  predicate NoneUsable(c: Curve, h: Hasher, message: seq<byte>, key: Digest, hash: Digest, count: nat) {
    forall j: nat :: j < count ==> !Usable(c, Candidate(h, message, key, hash, j))
  }

  method DeterministicNonce(
    c: Curve, h: Hasher, message: seq<byte>, key: Digest, hash: Digest, random: Digest) returns (nonce: Digest)
    ensures IsNonce(c, h, message, key, hash, random, nonce)
  {
    var ctr: nat := 0;
    while ctr < 1000
      invariant ctr <= 1000
      invariant NoneUsable(c, h, message, key, hash, Min(ctr, 256))
    {
      hide Usable;
      nonce := h(key + hash + message + [ctr % 256]);
      assert nonce == Candidate(h, message, key, hash, ctr % 256);
      if 1 < FromBE(nonce) && FromBE(nonce) < c.n {
        UsableNonce(c, nonce);
        assert ctr < 256;
        return;
      }
      NotUsable(c, nonce);
      ctr := ctr + 1;
    }
    nonce := random;
  }

  lemma UsableNonce(c: Curve, nonce: Digest)
    requires 1 < FromBE(nonce) < c.n
    ensures Usable(c, nonce)
  {
  }

  lemma NotUsable(c: Curve, nonce: Digest)
    requires !(1 < FromBE(nonce) < c.n)
    ensures !Usable(c, nonce)
  {
  }

  /**
   Candidates depend on everything: equal ones come from one private key, one digest, one message
   and one counter, or the texts written out here collide.
   */
  lemma CandidateDetermines(
    h: Hasher, message: seq<byte>, key: Digest, hash: Digest, i: nat,
    message': seq<byte>, key': Digest, hash': Digest, j: nat)
    requires i < 256 && j < 256
    requires Candidate(h, message, key, hash, i) == Candidate(h, message', key', hash', j)
    ensures (key == key' && hash == hash' && message == message' && i == j)
         || Collides(h, key + hash + message + [i], key' + hash' + message' + [j])
  {
    var x, y := key + hash + message + [i], key' + hash' + message' + [j];
    if x == y {
      assert |x| == |y|;
      assert key == x[..32] && hash == x[32..64] && message == x[64..|x| - 1] && [i] == x[|x| - 1..];
      assert key' == y[..32] && hash' == y[32..64] && message' == y[64..|y| - 1] && [j] == y[|y| - 1..];
      assert [i][0] == [j][0];
    }
  }

  /** What is chosen among the candidates is used as it is: a scalar from 2 on, not reduced. */
  lemma NonceIsScalar(
    c: Curve, h: Hasher, message: seq<byte>, key: Digest, hash: Digest, random: Digest, nonce: Digest)
    requires IsNonce(c, h, message, key, hash, random, nonce)
    ensures nonce != random ==> 2 <= FromBE(nonce) < c.n && NonceOf(c, nonce) == FromBE(nonce)
    ensures nonce == random || exists ctr: byte :: nonce == h(key + hash + message + [ctr])
  {
    hide NoneUsable, Usable, Candidate, NonceOf, FromBE;
    if nonce != random {
      var i: nat :| i < 256 && nonce == Candidate(h, message, key, hash, i) && Usable(c, nonce);
      UsableUnreduced(c, nonce);
      CandidateText(h, message, key, hash, i);
    }
  }

  lemma UsableUnreduced(c: Curve, nonce: Digest)
    requires Usable(c, nonce)
    ensures 2 <= FromBE(nonce) < c.n && NonceOf(c, nonce) == FromBE(nonce)
  {
    hide FromBE;
  }

  lemma CandidateText(h: Hasher, message: seq<byte>, key: Digest, hash: Digest, i: byte)
    ensures Candidate(h, message, key, hash, i) == h(key + hash + message + [i])
  {
  }

  /** A text hashed for the one nonce collides with a text hashed for the other. */
  ghost predicate CandidatesCollide(
    h: Hasher, message: seq<byte>, key: Digest, hash: Digest, message': seq<byte>, key': Digest, hash': Digest)
  {
    exists i: byte, j: byte :: Collides(h, key + hash + message + [i], key' + hash' + message' + [j])
  }

  /**
   Nonces are not shared: two signing calls that come to one nonce had the same private key and
   the same message, unless texts collide or one of them had no usable candidate and took
   random bytes.
   */
  lemma NonceDetermines(
    c: Curve, h: Hasher, nonce: Digest,
    message: seq<byte>, key: Digest, hash: Digest, random: Digest,
    message': seq<byte>, key': Digest, hash': Digest, random': Digest)
    requires IsNonce(c, h, message, key, hash, random, nonce)
    requires IsNonce(c, h, message', key', hash', random', nonce)
    ensures || (key == key' && hash == hash' && message == message')
            || CandidatesCollide(h, message, key, hash, message', key', hash')
            || (nonce == random && NoneUsable(c, h, message, key, hash, 256))
            || (nonce == random' && NoneUsable(c, h, message', key', hash', 256))
  {
    hide Candidate, Usable, NoneUsable, Collides;
    if FirstUsable(c, h, message, key, hash, nonce) && FirstUsable(c, h, message', key', hash', nonce) {
      var i: nat :| i < 256 && nonce == Candidate(h, message, key, hash, i);
      var j: nat :| j < 256 && nonce == Candidate(h, message', key', hash', j);
      CandidateDetermines(h, message, key, hash, i, message', key', hash', j);
    }
  }

  // ---------------------------------------------------------------------------
  // The signer object
  // ---------------------------------------------------------------------------

  class EcdsaSigner {
    const curve: Curve
    const hash: Hasher
    var privateKey: Digest
    var publicKey: seq<byte>
    var hasKey: bool

    /** The public key belongs to the private key, if that is a key at all. */
    ghost predicate Valid()
      reads this
    {
      && curve.Valid()
      && (hasKey && ValidScalar(FromBE(privateKey), curve.n) ==>
            publicKey == PublicKeyOf(curve, FromBE(privateKey)))
    }

    constructor (c: Curve, h: Hasher)
      requires c.Valid()
      ensures Valid() && curve == c && hash == h && !hasKey
    {
      curve, hash, hasKey := c, h, false;
      privateKey, publicKey := Zeros(HASH_SIZE), Zeros(33);
    }

    /** The private key is stored before it is checked: a bad one stays behind with the old public key. */
    method SetPrivateKey(key: Digest) returns (r: Option<SignError>)
      requires Valid()
      modifies this
      ensures Valid() && privateKey == key
      ensures r == None <==> ValidScalar(FromBE(key), curve.n)
      ensures r == None ==> hasKey && publicKey == PublicKeyOf(curve, FromBE(key))
      ensures r != None ==> r == Some(BadKey) && hasKey == old(hasKey) && publicKey == old(publicKey)
    {
      privateKey := key;
      var derived := DerivePublicKey(curve, key);
      match derived
      case Err(e) =>
        r := Some(e);
      case Ok(pk) =>
        publicKey := pk;
        hasKey := true;
        r := None;
    }

    /** Whatever is signed verifies under the stored public key, also after a failed key change. */
    method SignRaw(message: seq<byte>, random: Digest) returns (sig: Outcome<seq<byte>>)
      requires Valid()
      ensures !hasKey ==> sig == Err(NoKey)
      ensures hasKey && !ValidScalar(FromBE(privateKey), curve.n) ==> sig == Err(BadKey)
      ensures sig.Ok? ==> Accepts(curve, hash(message), sig.value, publicKey) && SOf(sig.value) <= curve.n / 2
      ensures sig.Ok? ==> exists nonce ::
        && IsNonce(curve, hash, message, privateKey, hash(message), random, nonce)
        && LowSigned(curve, FromBE(hash(message)), FromBE(privateKey), NonceOf(curve, nonce),
                     ROf(sig.value), SOf(sig.value))
    {
      if !hasKey {
        return Err(NoKey);
      }
      var digest := hash(message);
      var nonce := DeterministicNonce(curve, hash, message, privateKey, digest, random);
      sig := SignHash(curve, digest, privateKey, nonce);
      if sig.Ok? {
        ghost var d := FromBE(privateKey);
        KeyDecompresses(curve, d);
        LowSignedVerifies(curve, FromBE(digest), d, NonceOf(curve, nonce), ROf(sig.value), SOf(sig.value));
      }
    }

    method VerifyRaw(message: seq<byte>, signature: seq<byte>, key: seq<byte>) returns (ok: bool)
      requires Valid() && |signature| == 64 && |key| == 33
      ensures ok <==> Accepts(curve, hash(message), signature, key)
    {
      ok := VerifyHash(curve, hash(message), signature, key);
    }
  }
}
