/**
 The Schnorr signer in the shape of BIP-340: x-only keys, a nonce negated to even y, and a
 verifier that tries both lifts of the key. Every signature the signer returns is accepted,
 and what is accepted is stated exactly.
 */
module Schnorr {
  import opened Bytes
  import opened Curve
  import opened Hashing
  import opened Modular
  import opened Options
  import opened Text

  const SECP256K1_N: nat := 0xFFFF_FFFF_FFFF_FFFF_FFFF_FFFF_FFFF_FFFE_BAAE_DCE6_AF48_A03B_BFD2_5E8C_D036_4141

  // ---------------------------------------------------------------------------
  // Keys
  // ---------------------------------------------------------------------------

  /** The top bit of the first byte and the two low bits of the last byte are cleared. */
  function Clamp(key: Digest): Digest {
    [key[0] % 128] + key[1..31] + [key[31] - key[31] % 4]
  }

  lemma {:induction false} FromBEFront(x: byte, t: seq<byte>)
    ensures FromBE([x] + t) == x * Pow256(|t|) + FromBE(t)
  {
    var b := [x] + t;
    if t == [] {
      assert b[..0] == [];
    } else {
      var init, last := t[..|t| - 1], t[|t| - 1];
      assert b[..|b| - 1] == [x] + init;
      FromBEFront(x, init);
      assert 256 * (x * Pow256(|init|)) == x * Pow256(|t|);
    }
  }

  lemma {:induction false} PowAdd(i: nat, j: nat)
    ensures Pow256(i + j) == Pow256(i) * Pow256(j)
  {
    if i > 0 {
      PowAdd(i - 1, j);
      assert 256 * (Pow256(i - 1) * Pow256(j)) == Pow256(i) * Pow256(j);
    }
  }

  lemma Pow256Of31()
    ensures 128 * Pow256(31) == 0x8000_0000_0000_0000_0000_0000_0000_0000_0000_0000_0000_0000_0000_0000_0000_0000
  {
    Pow256Values();
    PowAdd(8, 8);
    PowAdd(16, 8);
    PowAdd(24, 7);
  }

  /** The order of secp256k1 as the bytes it is given in. */
  lemma OrderWritten()
    ensures FromBE([0xFF, 0xFF, 0xFF, 0xFF, 0xFF, 0xFF, 0xFF, 0xFF,
                    0xFF, 0xFF, 0xFF, 0xFF, 0xFF, 0xFF, 0xFF, 0xFE,
                    0xBA, 0xAE, 0xDC, 0xE6, 0xAF, 0x48, 0xA0, 0x3B,
                    0xBF, 0xD2, 0x5E, 0x8C, 0xD0, 0x36, 0x41, 0x41]) == SECP256K1_N
  {
    hide *;
    var a: seq<byte> := [0xFF, 0xFF, 0xFF, 0xFF, 0xFF, 0xFF, 0xFF, 0xFF];
    var b: seq<byte> := [0xFF, 0xFF, 0xFF, 0xFF, 0xFF, 0xFF, 0xFF, 0xFE];
    var c: seq<byte> := [0xBA, 0xAE, 0xDC, 0xE6, 0xAF, 0x48, 0xA0, 0x3B];
    var d: seq<byte> := [0xBF, 0xD2, 0x5E, 0x8C, 0xD0, 0x36, 0x41, 0x41];
    EightBytes(a);
    EightBytes(b);
    EightBytes(c);
    EightBytes(d);
    FourChunks(a, b, c, d);
    OrderValue();
    assert a + b + c + d == [0xFF, 0xFF, 0xFF, 0xFF, 0xFF, 0xFF, 0xFF, 0xFF,
                             0xFF, 0xFF, 0xFF, 0xFF, 0xFF, 0xFF, 0xFF, 0xFE,
                             0xBA, 0xAE, 0xDC, 0xE6, 0xAF, 0x48, 0xA0, 0x3B,
                             0xBF, 0xD2, 0x5E, 0x8C, 0xD0, 0x36, 0x41, 0x41];
  }

  lemma FourChunks(a: seq<byte>, b: seq<byte>, c: seq<byte>, d: seq<byte>)
    requires |a| == |b| == |c| == |d| == 8
    ensures FromBE(a + b + c + d)
         == ((FromBE(a) * TWO_64 + FromBE(b)) * TWO_64 + FromBE(c)) * TWO_64 + FromBE(d)
  {
    Pow256Values();
    FromBEConcat(a, b);
    FromBEConcat(a + b, c);
    FromBEConcat(a + b + c, d);
    hide FromBE;
  }

  lemma OrderValue()
    ensures ((0xFFFF_FFFF_FFFF_FFFF * TWO_64 + 0xFFFF_FFFF_FFFF_FFFE) * TWO_64 + 0xBAAE_DCE6_AF48_A03B) * TWO_64
            + 0xBFD2_5E8C_D036_4141 == SECP256K1_N
  {
  }

  lemma {:induction false} FromBEConcat(a: seq<byte>, b: seq<byte>)
    ensures FromBE(a + b) == FromBE(a) * Pow256(|b|) + FromBE(b)
    decreases |b|
  {
    if b == [] {
      assert a + b == a;
    } else {
      var init, last := b[..|b| - 1], b[|b| - 1];
      assert (a + b)[..|a + b| - 1] == a + init;
      FromBEConcat(a, init);
      assert 256 * (FromBE(a) * Pow256(|init|)) == FromBE(a) * Pow256(|b|);
    }
  }

  lemma EightBytes(s: seq<byte>)
    requires |s| == 8
    ensures FromBE(s) == ((((((s[0] as int * 256 + s[1]) * 256 + s[2]) * 256 + s[3]) * 256 + s[4]) * 256 + s[5]) * 256
                          + s[6]) * 256 + s[7]
  {
    FromBELast(s[..1]);
    FromBELast(s[..2]);
    FromBELast(s[..3]);
    FromBELast(s[..4]);
    FromBELast(s[..5]);
    FromBELast(s[..6]);
    FromBELast(s[..7]);
    FromBELast(s[..8]);
    assert s[..8] == s && s[..1][..0] == [] && FromBE([]) == 0;
    assert s[..2][..1] == s[..1] && s[..3][..2] == s[..2] && s[..4][..3] == s[..3] && s[..5][..4] == s[..4];
    assert s[..6][..5] == s[..5] && s[..7][..6] == s[..6] && s[..8][..7] == s[..7];
    hide FromBE;
  }

  /** A clamped key is below 2^255. */
  lemma ClampedBelow(key: Digest)
    ensures FromBE(Clamp(key)) < 128 * Pow256(31)
  {
    var t := key[1..31] + [key[31] - key[31] % 4];
    assert Clamp(key) == [key[0] % 128] + t;
    FromBEFront(key[0] % 128, t);
    ToFromBE(t);
    TopByte(key[0] % 128, Pow256(31), FromBE(t));
  }

  lemma TopByte(x: nat, p: nat, r: nat)
    requires x < 128 && r < p
    ensures x * p + r < 128 * p
  {
    assert x * p + p == (x + 1) * p <= 128 * p;
  }

  /** Clamping changes the first byte's top bit and the last byte's two low bits, and makes them zero. */
  lemma ClampExactly(key: Digest, i: nat)
    ensures 0 < i < 31 ==> Clamp(key)[i] == key[i]
    ensures Clamp(key)[0] < 128 && (Clamp(key)[0] == key[0] || Clamp(key)[0] as int == key[0] - 128)
    ensures Clamp(key)[31] % 4 == 0 && key[31] as int - 3 <= Clamp(key)[31] as int <= key[31] as int
  {
    var c := Clamp(key);
    assert c[0] == key[0] % 128 && c[31] == key[31] - key[31] % 4;
    if 0 < i < 31 {
      assert c[i] == key[1..31][i - 1];
    }
  }

  /** So a clamped key that is not zero is a scalar of secp256k1. */
  lemma ClampedIsScalar(key: Digest)
    ensures FromBE(Clamp(key)) != 0 <==> ValidScalar(FromBE(Clamp(key)), SECP256K1_N)
  {
    ClampedBelow(key);
    Pow256Of31();
  }

  predicate AllZero(b: seq<byte>) {
    forall i :: 0 <= i < |b| ==> b[i] == 0
  }

  lemma {:induction false} ZeroBytes(b: seq<byte>)
    ensures FromBE(b) == 0 <==> AllZero(b)
  {
    hide AllZero;
    if b == [] {
      NoneZero();
    } else {
      var init, last := b[..|b| - 1], b[|b| - 1];
      ZeroBytes(init);
      LastZero(init, last);
      assert b == init + [last];
    }
  }

  lemma NoneZero()
    ensures AllZero([])
  {
  }

  lemma LastZero(init: seq<byte>, last: byte)
    ensures AllZero(init + [last]) <==> AllZero(init) && last == 0
  {
    var b := init + [last];
    assert b[|init|] == last;
    assert forall i :: 0 <= i < |init| ==> b[i] == init[i];
  }

  method IsZero(b: seq<byte>) returns (zero: bool)
    ensures zero <==> FromBE(b) == 0
  {
    ZeroBytes(b);
    zero := true;
    var i := 0;
    while i < |b|
      invariant i <= |b|
      invariant zero && forall j :: 0 <= j < i ==> b[j] == 0
    {
      if b[i] != 0 {
        zero := false;
        break;
      }
      i := i + 1;
    }
  }

  /** The x-only key of a scalar, or zeros at infinity. */
  function XOnly(c: Curve, d: nat): Digest
    requires c.n > 0
  {
    if d % c.n == 0 then Zeros(HASH_SIZE) else ToBE(c.xOf(d % c.n), 32)
  }

  /** Negating the point to odd y changes nothing that is returned. */
  method DerivePubkey(c: Curve, privateKey: Digest) returns (pk: Digest)
    requires c.Valid()
    ensures pk == XOnly(c, FromBE(privateKey))
  {
    pk := Zeros(HASH_SIZE);
    var point := FromBE(privateKey) % c.n;
    if point != 0 {
      assert c.PointLaws(point);
      pk := ToBE(c.xOf(point), 32);
      if c.parityOf(point) == 0 {
        point := c.n - point;
        pk := ToBE(c.xOf(point), 32);
      }
    }
  }

  // ---------------------------------------------------------------------------
  // The equation
  // ---------------------------------------------------------------------------

  function Tag(): seq<byte> {
    // "Midnight/transaction"
    [77, 105, 100, 110, 105, 103, 104, 116, 47, 116, 114, 97, 110, 115, 97, 99, 116, 105, 111, 110]
  }

  function TaggedHash(h: Hasher, message: seq<byte>): Digest {
    h(h(Tag()) + h(Tag()) + message)
  }

  function Challenge(c: Curve, h: Hasher, rx: seq<byte>, px: seq<byte>, message: seq<byte>): nat
    requires c.n > 0
  {
    FromBE(h(rx + px + TaggedHash(h, message))) % c.n
  }

  const TAG: string := "Midnight/transaction"

  /** t is the text of a challenge: R's x, the key's x and the message's digest under the tag. */
  predicate ChallengeText(h: Hasher, t: seq<byte>, rx: seq<byte>, px: seq<byte>, message: seq<byte>) {
    && |t| == 96 && t[..32] == rx && t[32..64] == px
    && |Tag()| == |TAG| && (forall i :: 0 <= i < |TAG| ==> Tag()[i] == TAG[i] as int)
    && t[64..] == h(h(Tag()) + h(Tag()) + message)
  }

  /** The challenge is the reduced hash of such a text. */
  lemma ChallengeReads(c: Curve, h: Hasher, rx: seq<byte>, px: seq<byte>, message: seq<byte>) returns (t: seq<byte>)
    requires c.n > 0 && |rx| == 32 && |px| == 32
    ensures ChallengeText(h, t, rx, px, message) && Challenge(c, h, rx, px, message) == FromBE(h(t)) % c.n
  {
    t := rx + px + TaggedHash(h, message);
    hide FromBE;
  }

  /** One text is the challenge of one nonce point, one key and one message, or messages collide. */
  lemma ChallengeTextDetermines(
    h: Hasher, t: seq<byte>, rx: seq<byte>, px: seq<byte>, message: seq<byte>,
    rx': seq<byte>, px': seq<byte>, message': seq<byte>)
    requires ChallengeText(h, t, rx, px, message) && ChallengeText(h, t, rx', px', message')
    ensures rx == rx' && px == px'
    ensures message == message' || Collides(h, h(Tag()) + h(Tag()) + message, h(Tag()) + h(Tag()) + message')
  {
    hide Tag;
    var x, y := h(Tag()) + h(Tag()) + message, h(Tag()) + h(Tag()) + message';
    assert message == x[64..] && message' == y[64..];
  }

  /** The point of k's pair that has even y. */
  function EvenNonce(c: Curve, k: nat): nat
    requires k <= c.n
  {
    if c.parityOf(k) == 1 then c.n - k else k
  }

  /** The x-coordinate a failed read at infinity leaves behind is 0. */
  function XAt(c: Curve, k: nat): nat {
    if k == 0 then 0 else c.xOf(k)
  }

  /** R = sG - eP has x-coordinate rx. */
  predicate Balances(c: Curve, e: nat, p: nat, rx: nat, s: nat)
    requires c.n > 0
  {
    XAt(c, (s - e * p) % c.n) == rx
  }

  /** The check with one of the two lifts of the key. */
  predicate LiftBalances(c: Curve, e: nat, px: nat, rx: nat, s: nat, parity: nat)
    requires c.n > 0
  {
    c.lift(px, parity).Some? && Balances(c, e, c.lift(px, parity).value, rx, s)
  }

  predicate Balanced(c: Curve, e: nat, px: nat, rx: nat, s: nat)
    requires c.n > 0
  {
    LiftBalances(c, e, px, rx, s, 0) || LiftBalances(c, e, px, rx, s, 1)
  }

  /** s is the response of key d and nonce k to the challenge e. */
  predicate Response(c: Curve, e: nat, d: nat, k: nat, s: nat)
    requires c.n > 0
  {
    k < c.n && Cong(s, k + e * d, c.n)
  }

  lemma BalancesIsResponse(c: Curve, e: nat, p: nat, rx: nat, s: nat)
    requires c.n > 0
    ensures Balances(c, e, p, rx, s) <==> exists k :: Response(c, e, p, k, s) && XAt(c, k) == rx
  {
    var n := c.n;
    var point := (s - e * p) % n;
    CongMod(s - e * p, n);
    AddBack(s, e * p, point, n);
    hide Cong;
    forall k: nat | Response(c, e, p, k, s)
      ensures k == point
    {
      TakeAway(s, e * p, k, point, n);
    }
    assert Response(c, e, p, point, s);
  }

  lemma AddBack(s: int, t: int, point: int, n: int)
    requires n > 0 && Cong(point, s - t, n)
    ensures Cong(s, point + t, n)
  {
    hide Cong;
    CongRefl(t, n);
    CongAdd(point, s - t, t, t, n);
    CongSym(point + t, s, n);
  }

  lemma TakeAway(s: int, t: int, k: int, point: int, n: int)
    requires 0 <= k < n && 0 <= point < n && Cong(s, k + t, n) && Cong(s - t, point, n)
    ensures k == point
  {
    hide Cong;
    CongRefl(t, n);
    CongAdd(s, k + t, t, t, n);
    CongSym(s - t, k, n);
    CongTrans(k, s - t, point, n);
    CongSmall(k, point, n);
  }

  /** The two lifts of the x of d are d and n-d. */
  lemma LiftsOf(c: Curve, d: nat)
    requires c.Valid() && 0 < d < c.n
    ensures c.parityOf(d) <= 1
    ensures c.lift(c.xOf(d), c.parityOf(d)) == Some(d)
    ensures c.lift(c.xOf(d), 1 - c.parityOf(d)) == Some(c.n - d)
  {
    assert c.PointLaws(d) && c.PointLaws(c.n - d);
  }

  /** A key is accepted exactly for the responses of d or n-d with a nonce of that x, of either parity. */
  lemma BalancedExactly(c: Curve, e: nat, d: nat, rx: nat, s: nat)
    requires c.Valid() && 0 < d < c.n
    ensures Balanced(c, e, c.xOf(d), rx, s) <==>
            exists k :: XAt(c, k) == rx && (Response(c, e, d, k, s) || Response(c, e, c.n - d, k, s))
  {
    LiftsOf(c, d);
    BalancesIsResponse(c, e, d, rx, s);
    BalancesIsResponse(c, e, c.n - d, rx, s);
    hide c.Valid, Balances, Response;
  }

  /** Completeness: the response with the even nonce is accepted under the x-only key. */
  lemma EvenResponseBalances(c: Curve, e: nat, d: nat, k: nat, s: nat)
    requires c.Valid() && 0 < d < c.n && 0 < k < c.n
    requires Response(c, e, d, EvenNonce(c, k), s)
    ensures Balanced(c, e, c.xOf(d), c.xOf(k), s)
  {
    assert c.PointLaws(k);
    hide Cong, c.PointLaws;
    BalancedExactly(c, e, d, c.xOf(k), s);
    assert XAt(c, EvenNonce(c, k)) == c.xOf(k);
  }

  // ---------------------------------------------------------------------------
  // Hex input
  // ---------------------------------------------------------------------------

  function Strip(s: string): string {
    if |s| >= 2 && s[0] == '0' && s[1] == 'x' then s[2..] else s
  }

  /** What a hex stream reads from two characters: 0 when it fails. */
  function StreamByte(pair: string): byte {
    match ParseUnsigned(pair, 16)
    case Some(v) => v % 256
    case None => 0
  }

  function StreamBytes(s: string): (b: seq<byte>)
    requires |s| % 2 == 0
    ensures |b| == |s| / 2
  {
    if s == [] then [] else StreamBytes(s[..|s| - 2]) + [StreamByte(s[|s| - 2..])]
  }

  function ParsedHex(hex: string, count: nat): (r: Option<seq<byte>>)
    ensures r.Some? ==> |r.value| == count
  {
    var clean := Strip(hex);
    if |clean| != count * 2 then None else Some(StreamBytes(clean))
  }

  method HexToBytes(hex: string, count: nat) returns (r: Option<seq<byte>>)
    ensures r == ParsedHex(hex, count)
  {
    hide StreamByte, StreamBytes;
    var clean := Strip(hex);
    if |clean| != count * 2 {
      return None;
    }
    var out: seq<byte> := [];
    var k := 0;
    StreamStart(clean);
    while 2 * k < |clean|
      invariant 2 * k <= |clean| && out == StreamBytes(clean[..2 * k])
    {
      StreamStep(clean, 2 * k);
      out := out + [StreamByte(clean[2 * k..2 * k + 2])];
      k := k + 1;
    }
    assert clean[..2 * k] == clean;
    r := Some(out);
  }

  lemma StreamStart(s: string)
    ensures StreamBytes(s[..0]) == []
  {
  }

  lemma StreamStep(s: string, i: nat)
    requires i % 2 == 0 && i + 2 <= |s|
    ensures StreamBytes(s[..i + 2]) == StreamBytes(s[..i]) + [StreamByte(s[i..i + 2])]
  {
    hide StreamByte;
    var t := s[..i + 2];
    assert t[..|t| - 2] == s[..i] && t[|t| - 2..] == s[i..i + 2];
  }

  lemma {:induction false} StreamOfHex(data: seq<byte>)
    ensures StreamBytes(ToHex(data)) == data
  {
    hide ParseUnsigned, HexPair;
    if data != [] {
      var init, b := data[..|data| - 1], data[|data| - 1];
      var s := ToHex(data);
      StreamOfHex(init);
      PairRead(b);
      PairLength(b);
      assert s[..|s| - 2] == ToHex(init) && s[|s| - 2..] == HexPair(b);
      assert data == init + [b];
    }
  }

  lemma HexIsPlain(data: seq<byte>)
    ensures Strip(ToHex(data)) == ToHex(data)
  {
    HexChars(data);
    hide ToHex;
    if |ToHex(data)| >= 2 {
      assert IsHexChar(ToHex(data)[1]);
    }
  }

  lemma ParsedHexOfHex(data: seq<byte>)
    ensures ParsedHex(ToHex(data), |data|) == Some(data)
  {
    HexIsPlain(data);
    StreamOfHex(data);
    hide ToHex, StreamBytes, Strip;
  }

  // ---------------------------------------------------------------------------
  // Acceptance
  // ---------------------------------------------------------------------------

  datatype Parsed = Parsed(rx: seq<byte>, s: seq<byte>, px: seq<byte>)

  /** The three byte strings a verifier reads from the two texts. */
  function ParseInput(signatureHex: string, publicKeyHex: string): (r: Option<Parsed>)
    ensures r.Some? ==> |r.value.rx| == 32 && |r.value.s| == 32 && |r.value.px| == 32
  {
    var sig := Strip(signatureHex);
    var pk := Strip(publicKeyHex);
    if |sig| != 128 || |pk| != 64 then None
    else
      match (ParsedHex(sig[..64], 32), ParsedHex(sig[64..128], 32), ParsedHex(pk, 32))
      case (Some(rx), Some(s), Some(px)) => Some(Parsed(rx, s, px))
      case _ => None
  }

  /** n hex characters behind an optional prefix. */
  predicate HexSized(s: string, n: nat) {
    (|s| == n && !("0x" <= s)) || (|s| == n + 2 && "0x" <= s)
  }

  /** Which texts parse: those of the right lengths, unless a second prefix stands where a part begins. */
  lemma InputExactly(sig: string, pk: string)
    ensures ParseInput(sig, pk).Some? <==>
      && HexSized(sig, 128) && HexSized(pk, 64)
      && !("0x" <= Strip(sig)[..64]) && !("0x" <= Strip(sig)[64..]) && !("0x" <= Strip(pk))
  {
    StripExactly(sig);
    StripExactly(pk);
    hide Strip;
    if |Strip(sig)| == 128 && |Strip(pk)| == 64 {
      var a, b := Strip(sig)[..64], Strip(sig)[64..128];
      assert b == Strip(sig)[64..];
      StripExactly(a);
      StripExactly(b);
      StripExactly(Strip(pk));
    }
  }

  lemma StripExactly(s: string)
    ensures "0x" <= s ==> Strip(s) == s[2..]
    ensures !("0x" <= s) ==> Strip(s) == s
  {
  }

  /** A pair that begins with no digit is read as zero. */
  lemma UnreadablePair(pair: string)
    requires |pair| == 2 && !IsSpace(pair[0]) && pair[0] != '-' && pair[0] != '+' && DigitValue(pair[0]) == 16
    ensures StreamByte(pair) == 0
  {
    assert SkipSpaces(pair) == pair;
    assert StripBase(pair, 16) == pair;
    assert DigitRun(pair, 16) == 0;
  }

  predicate AcceptsParsed(c: Curve, h: Hasher, message: seq<byte>, p: Parsed)
    requires c.n > 0
  {
    Balanced(c, Challenge(c, h, p.rx, p.px, message), FromBE(p.px), FromBE(p.rx), FromBE(p.s))
  }

  predicate Accepts(c: Curve, h: Hasher, message: seq<byte>, signatureHex: string, publicKeyHex: string)
    requires c.n > 0
  {
    var p := ParseInput(signatureHex, publicKeyHex);
    p.Some? && AcceptsParsed(c, h, message, p.value)
  }

  lemma PrintedInputParses(rx: seq<byte>, s: seq<byte>, px: seq<byte>)
    requires |rx| == 32 && |s| == 32 && |px| == 32
    ensures ParseInput(ToHex(rx + s), ToHex(px)) == Some(Parsed(rx, s, px))
  {
    HexIsPlain(rx + s);
    HexIsPlain(px);
    HexConcat(rx, s);
    var sig := ToHex(rx + s);
    assert sig[..64] == ToHex(rx) && sig[64..128] == ToHex(s);
    ParsedHexOfHex(rx);
    ParsedHexOfHex(s);
    ParsedHexOfHex(px);
    hide ToHex, ParsedHex, Strip;
  }

  method VerifySignature(c: Curve, h: Hasher, message: seq<byte>, signatureHex: string, publicKeyHex: string)
    returns (result: bool)
    requires c.Valid()
    ensures result <==> Accepts(c, h, message, signatureHex, publicKeyHex)
  {
    hide c.Valid, LiftBalances, ParsedHex, Strip, Tag, Challenge;
    assert c.n > 0 by { OrderPositive(c); }
    var sigHex := Strip(signatureHex);
    if |sigHex| != 128 {
      return false;
    }
    var rxBytes := HexToBytes(sigHex[..64], 32);
    if rxBytes == None {
      return false;
    }
    var sBytes := HexToBytes(sigHex[64..128], 32);
    if sBytes == None {
      return false;
    }
    var pkHex := Strip(publicKeyHex);
    if |pkHex| != 64 {
      return false;
    }
    var pxBytes := HexToBytes(pkHex, 32);
    if pxBytes == None {
      return false;
    }
    var e := Challenge(c, h, rxBytes.value, pxBytes.value, message);
    result := TryBothParities(c, e, FromBE(pxBytes.value), FromBE(rxBytes.value), FromBE(sBytes.value));
  }

  lemma OrderPositive(c: Curve)
    requires c.Valid()
    ensures c.n > 2
  {
  }

  method TryBothParities(c: Curve, e: nat, px: nat, rx: nat, s: nat) returns (result: bool)
    requires c.Valid()
    ensures result <==> Balanced(c, e, px, rx, s)
  {
    OrderPositive(c);
    result := false;
    var parity := 0;
    while parity <= 1 && !result
      invariant 0 <= parity <= 2
      invariant !result ==> forall b :: 0 <= b < parity ==> !LiftBalances(c, e, px, rx, s, b)
      invariant result ==> parity > 0 && LiftBalances(c, e, px, rx, s, parity - 1)
      decreases 2 - parity
    {
      hide *;
      var p := c.lift(px, parity);
      if p.Some? {
        var sG := s % c.n;
        var eP := (e * p.value) % c.n;
        eP := (c.n - eP) % c.n;
        var r := (sG + eP) % c.n;
        PointDifference(c.n, e * p.value, s, eP, r);
        LiftCase(c, e, px, rx, s, parity, r);
        if XAt(c, r) == rx {
          result := true;
        }
      } else {
        NoLift(c, e, px, rx, s, parity);
      }
      parity := parity + 1;
    }
  }

  lemma LiftCase(c: Curve, e: nat, px: nat, rx: nat, s: nat, parity: nat, r: nat)
    requires c.n > 0 && c.lift(px, parity).Some? && r == (s - e * c.lift(px, parity).value) % c.n
    ensures LiftBalances(c, e, px, rx, s, parity) <==> XAt(c, r) == rx
  {
  }

  lemma NoLift(c: Curve, e: nat, px: nat, rx: nat, s: nat, parity: nat)
    requires c.n > 0 && c.lift(px, parity) == None
    ensures !LiftBalances(c, e, px, rx, s, parity)
  {
  }

  lemma PointDifference(n: nat, t: nat, s: nat, negated: nat, r: nat)
    requires n > 0 && negated == (n - t % n) % n && r == (s % n + negated) % n
    ensures r == (s - t) % n
  {
    hide Cong;
    CongMod(s, n);
    CongMod(t, n);
    CongMod(n - t % n, n);
    CongNegate(t % n, n);
    CongRefl(0, n);
    CongAdd(0, 0, t % n, t, n);
    CongTrans(n - t % n, 0 - t % n, 0 - t, n);
    CongTrans(negated, n - t % n, 0 - t, n);
    CongAdd(s % n, s, negated, 0 - t, n);
    CongIff(s % n + negated, s - t, n);
  }

  // ---------------------------------------------------------------------------
  // One signature, two messages
  // ---------------------------------------------------------------------------

  /** x is t up to sign. */
  predicate UpToSign(x: int, t: int, n: int)
    requires n > 0
  {
    Cong(x, t, n) || Cong(x, -t, n)
  }

  /** 2s is t + u for some choice of the two signs. */
  predicate TwiceIsSum(s: int, t: int, u: int, n: int)
    requires n > 0
  {
    Cong(2 * s, t + u, n) || Cong(2 * s, t - u, n) || Cong(2 * s, u - t, n) || Cong(2 * s, -t - u, n)
  }

  /**
   A signature that is accepted under the challenges of two messages fixes the second challenge
   from the first, up to the choice of a few signs.
   */
  lemma AcceptedTwice(c: Curve, e: nat, e': nat, d: nat, rx: nat, s: nat)
    requires c.Valid() && 0 < d < c.n && rx != 0
    requires Balanced(c, e, c.xOf(d), rx, s) && Balanced(c, e', c.xOf(d), rx, s)
    ensures UpToSign(e', e, c.n) || TwiceIsSum(s, e * d, e' * d, c.n)
  {
    hide *;
    var k := BalancedOffset(c, e, d, rx, s);
    var k' := BalancedOffset(c, e', d, rx, s);
    SameX(c, k, k');
    if k == k' {
      OrderIsPrime(c);
      SameOffset(c.n, e, e', d, s - k);
    } else {
      OppositeOffsets(c.n, s, k, e * d, e' * d);
    }
  }

  /**
   So it is for texts: a signature is not accepted for a second message, unless that message's
   challenge happens to be one of the few numbers the first acceptance fixes.
   */
  lemma AcceptedForTwo(c: Curve, h: Hasher, d: nat, message: seq<byte>, message': seq<byte>, sig: string)
    requires c.Valid() && 0 < d < c.n
    requires Accepts(c, h, message, sig, ToHex(XOnly(c, d))) && Accepts(c, h, message', sig, ToHex(XOnly(c, d)))
    ensures var p := ParseInput(sig, ToHex(XOnly(c, d))).value;
            var e, e' := Challenge(c, h, p.rx, XOnly(c, d), message), Challenge(c, h, p.rx, XOnly(c, d), message');
            FromBE(p.rx) == 0 || UpToSign(e', e, c.n) || TwiceIsSum(FromBE(p.s), e * d, e' * d, c.n)
  {
    hide *;
    AcceptsIsBalanced(c, h, message, d, sig);
    AcceptsIsBalanced(c, h, message', d, sig);
    var px := XOnly(c, d);
    var p := ParseInput(sig, ToHex(px)).value;
    var e, e' := Challenge(c, h, p.rx, px, message), Challenge(c, h, p.rx, px, message');
    if FromBE(p.rx) != 0 {
      AcceptedTwice(c, e, e', d, FromBE(p.rx), FromBE(p.s));
    }
  }

  lemma AcceptsIsBalanced(c: Curve, h: Hasher, message: seq<byte>, d: nat, sig: string)
    requires c.Valid() && 0 < d < c.n
    ensures var px := XOnly(c, d); var p := ParseInput(sig, ToHex(px));
            Accepts(c, h, message, sig, ToHex(px)) <==>
            p.Some? && Balanced(c, Challenge(c, h, p.value.rx, px, message), c.xOf(d),
                                FromBE(p.value.rx), FromBE(p.value.s))
  {
    hide *;
    OrderPositive(c);
    OwnX(c, d);
    ParsedKey(sig, XOnly(c, d));
    AcceptsUnfolded(c, h, message, sig, ToHex(XOnly(c, d)));
  }

  lemma AcceptsUnfolded(c: Curve, h: Hasher, message: seq<byte>, sig: string, key: string)
    requires c.n > 0
    ensures var p := ParseInput(sig, key);
            Accepts(c, h, message, sig, key) <==>
            p.Some? && Balanced(c, Challenge(c, h, p.value.rx, p.value.px, message), FromBE(p.value.px),
                                FromBE(p.value.rx), FromBE(p.value.s))
  {
    hide ParseInput, Challenge, Balanced, FromBE;
  }

  lemma OwnX(c: Curve, d: nat)
    requires c.Valid() && 0 < d < c.n
    ensures FromBE(XOnly(c, d)) == c.xOf(d)
  {
    hide *;
    KeyX(c, d);
    SmallMod(d, c.n);
    XAtPoint(c, d);
  }

  lemma SmallMod(d: nat, n: nat)
    requires d < n
    ensures d % n == d
  {
  }

  lemma XAtPoint(c: Curve, k: nat)
    requires k > 0
    ensures XAt(c, k) == c.xOf(k)
  {
  }

  lemma ParsedKey(sig: string, px: Digest)
    ensures var p := ParseInput(sig, ToHex(px)); p.Some? ==> p.value.px == px
  {
    HexIsPlain(px);
    ParsedHexOfHex(px);
    hide ToHex, ParsedHex, Strip;
  }

  lemma KeyX(c: Curve, d: nat)
    requires c.Valid()
    ensures FromBE(XOnly(c, d)) == XAt(c, d % c.n)
  {
    if d % c.n == 0 {
      ZeroBytes(Zeros(HASH_SIZE));
    } else {
      assert c.PointLaws(d % c.n);
      FromToBE(c.xOf(d % c.n), 32);
    }
  }

  /**
   What is accepted under the key of d, as texts: exactly those that parse to some rx and s such
   that s answers the challenge of rx, key and message for a nonce point of that x, by d or by n-d.
   */
  lemma AcceptsExactly(c: Curve, h: Hasher, message: seq<byte>, d: nat, sig: string)
    requires c.Valid() && 0 < d < c.n
    ensures var px := XOnly(c, d); var p := ParseInput(sig, ToHex(px));
            Accepts(c, h, message, sig, ToHex(px)) <==>
            p.Some? && AnswersChallenge(c, Challenge(c, h, p.value.rx, px, message), d,
                                        FromBE(p.value.rx), FromBE(p.value.s))
  {
    hide *;
    AcceptsIsBalanced(c, h, message, d, sig);
    var px := XOnly(c, d);
    var p := ParseInput(sig, ToHex(px));
    if p.Some? {
      Answered(c, Challenge(c, h, p.value.rx, px, message), d, FromBE(p.value.rx), FromBE(p.value.s));
    }
  }

  ghost predicate AnswersChallenge(c: Curve, e: nat, d: nat, rx: nat, s: nat)
    requires 0 < d < c.n
  {
    exists k :: XAt(c, k) == rx && (Response(c, e, d, k, s) || Response(c, e, c.n - d, k, s))
  }

  lemma Answered(c: Curve, e: nat, d: nat, rx: nat, s: nat)
    requires c.Valid() && 0 < d < c.n
    ensures Balanced(c, e, c.xOf(d), rx, s) <==> AnswersChallenge(c, e, d, rx, s)
  {
    BalancedExactly(c, e, d, rx, s);
    hide c.Valid, Response, Balanced;
  }

  /** The point at infinity passes for a nonce point of x 0: no nonce is needed to sign with it. */
  lemma InfinityPasses(c: Curve, e: nat, d: nat, s: nat)
    requires c.Valid() && 0 < d < c.n && Cong(s, e * d, c.n)
    ensures Balanced(c, e, c.xOf(d), 0, s)
  {
    hide Cong, c.PointLaws;
    assert 0 + e * d == e * d;
    assert Response(c, e, d, 0, s) && XAt(c, 0) == 0;
    BalancedExactly(c, e, d, 0, s);
  }

  lemma BalancedOffset(c: Curve, e: nat, d: nat, rx: nat, s: nat) returns (k: nat)
    requires c.Valid() && 0 < d < c.n && rx != 0 && Balanced(c, e, c.xOf(d), rx, s)
    ensures 0 < k < c.n && c.xOf(k) == rx && UpToSign(s - k, e * d, c.n)
  {
    hide *;
    Answered(c, e, d, rx, s);
    k := AnswerOffset(c, e, d, rx, s);
  }

  lemma AnswerOffset(c: Curve, e: nat, d: nat, rx: nat, s: nat) returns (k: nat)
    requires 0 < d < c.n && rx != 0 && AnswersChallenge(c, e, d, rx, s)
    ensures 0 < k < c.n && c.xOf(k) == rx && UpToSign(s - k, e * d, c.n)
  {
    hide Response, XAt, Cong, UpToSign;
    k :| XAt(c, k) == rx && (Response(c, e, d, k, s) || Response(c, e, c.n - d, k, s));
    hide AnswersChallenge;
    XAtSome(c, k);
    ResponseCong(c, e, d, k, s);
    ResponseCong(c, e, c.n - d, k, s);
    ResponseOffset(c.n, e, d, k, s);
  }

  lemma XAtSome(c: Curve, k: nat)
    ensures XAt(c, k) != 0 ==> k > 0 && XAt(c, k) == c.xOf(k)
  {
  }

  lemma ResponseCong(c: Curve, e: nat, d: nat, k: nat, s: nat)
    requires c.n > 0
    ensures Response(c, e, d, k, s) <==> k < c.n && Cong(s, k + e * d, c.n)
  {
    hide Cong;
  }

  lemma ResponseOffset(n: int, e: int, d: int, k: int, s: int)
    requires n > 0
    ensures Cong(s, k + e * d, n) ==> UpToSign(s - k, e * d, n)
    ensures Cong(s, k + e * (n - d), n) ==> UpToSign(s - k, e * d, n)
  {
    hide Cong;
    CongRefl(k, n);
    if Cong(s, k + e * d, n) {
      CongAdd(s, k + e * d, k, k, n);
    }
    if Cong(s, k + e * (n - d), n) {
      CongAdd(s, k + e * (n - d), k, k, n);
      assert e * (n - d) == -(e * d) - n * (-e);
      MultipleZero(-(e * d), n, -e);
      CongTrans(s - k, e * (n - d), -(e * d), n);
    }
  }

  lemma SameOffset(n: nat, e: int, e': int, d: nat, x: int)
    requires Prime(n) && 0 < d < n && UpToSign(x, e * d, n) && UpToSign(x, e' * d, n)
    ensures UpToSign(e', e, n)
  {
    hide *;
    var w := InverseOf(d, n);
    SignsMeet(x, e * d, e' * d, n);
    CancelSign(n, e, e', d, w);
  }

  lemma InverseOf(d: nat, n: nat) returns (w: nat)
    requires Prime(n) && 0 < d < n
    ensures n > 1 && Cong(d * w, 1, n)
  {
    InverseExists(d, n);
    w := ModInverse(d, n).value;
    OneModulo(d * w, n);
  }

  lemma OrderIsPrime(c: Curve)
    requires c.Valid()
    ensures Prime(c.n)
  {
    hide c.PointLaws, Prime;
  }

  lemma CancelSign(n: nat, e: int, e': int, d: int, w: int)
    requires n > 1 && Cong(d * w, 1, n) && UpToSign(e' * d, e * d, n)
    ensures UpToSign(e', e, n)
  {
    hide Cong;
    assert -(e * d) == (-e) * d;
    if Cong(e' * d, e * d, n) {
      CongCancelRight(d, w, e', e, n);
    } else {
      CongCancelRight(d, w, e', -e, n);
    }
  }

  lemma SignsMeet(x: int, t: int, u: int, n: int)
    requires n > 0 && UpToSign(x, t, n) && UpToSign(x, u, n)
    ensures UpToSign(u, t, n)
  {
    hide Cong;
    if Cong(x, u, n) {
      CongSym(x, u, n);
      CongTransUp(u, x, t, n);
    } else {
      CongSym(x, -u, n);
      CongTransUp(-u, x, t, n);
      Negated(-u, t, n);
      Negated(-u, -t, n);
    }
  }

  lemma Negated(x: int, y: int, n: int)
    requires n > 0
    ensures Cong(x, y, n) ==> Cong(-x, -y, n)
  {
    hide Cong;
    if Cong(x, y, n) {
      CongMul(x, y, -1, n);
    }
  }

  lemma CongTransUp(a: int, b: int, t: int, n: int)
    requires n > 0 && Cong(a, b, n) && UpToSign(b, t, n)
    ensures UpToSign(a, t, n)
  {
    hide Cong;
    if Cong(b, t, n) {
      CongTrans(a, b, t, n);
    } else {
      CongTrans(a, b, -t, n);
    }
  }

  lemma OppositeOffsets(n: nat, s: int, k: nat, t: int, u: int)
    requires n > 0 && UpToSign(s - k, t, n) && UpToSign(s - (n - k), u, n)
    ensures TwiceIsSum(s, t, u, n)
  {
    hide Cong;
    SumOfOffsets(n, s, k, t, u);
    SumOfOffsets(n, s, k, t, -u);
    SumOfOffsets(n, s, k, -t, u);
    SumOfOffsets(n, s, k, -t, -u);
  }

  lemma SumOfOffsets(n: nat, s: int, k: int, a: int, b: int)
    requires n > 0
    ensures Cong(s - k, a, n) && Cong(s - (n - k), b, n) ==> Cong(2 * s, a + b, n)
  {
    hide Cong;
    MultipleZero(2 * s, n, 1);
    CongSym(2 * s - n, 2 * s, n);
    if Cong(s - k, a, n) && Cong(s - (n - k), b, n) {
      CongAdd(s - k, a, s - (n - k), b, n);
      CongTrans(2 * s, 2 * s - n, a + b, n);
    }
  }

  // ---------------------------------------------------------------------------
  // The signer object
  // ---------------------------------------------------------------------------

  /** The text of a signature by key d with nonce k: x of the nonce point, then the response. */
  ghost predicate IsSignatureText(c: Curve, e: nat, d: nat, k: nat, text: string) {
    && 0 < k < c.n
    && exists s: nat :: s < c.n && Response(c, e, d, EvenNonce(c, k), s)
                        && text == ToHex(ToBE(c.xOf(k), 32) + ToBE(s, 32))
  }

  /** Whatever the parities of the nonce point and of the key point, the signature is accepted. */
  lemma SignatureAccepted(c: Curve, h: Hasher, message: seq<byte>, d: nat, k: nat, text: string)
    requires c.Valid() && d % c.n != 0 && 0 < k < c.n
    requires var rx := ToBE(c.xOf(k), 32);
             IsSignatureText(c, Challenge(c, h, rx, XOnly(c, d), message), d, k, text)
    ensures Accepts(c, h, message, text, ToHex(XOnly(c, d)))
  {
    hide Response, Challenge, ToHex, ParseInput, Tag;
    var rx, px, d0 := ToBE(c.xOf(k), 32), XOnly(c, d), d % c.n;
    var e := Challenge(c, h, rx, px, message);
    var s: nat :| s < c.n && Response(c, e, d, EvenNonce(c, k), s) && text == ToHex(rx + ToBE(s, 32));
    ResponseModulo(c, e, d, EvenNonce(c, k), s);
    EvenResponseBalances(c, e, d0, k, s);
    PrintedInputParses(rx, ToBE(s, 32), px);
    assert c.PointLaws(k) && c.PointLaws(d0);
    FromToBE(c.xOf(k), 32);
    FromToBE(c.xOf(d0), 32);
    FromToBE(s, 32);
  }

  lemma ResponseModulo(c: Curve, e: nat, d: nat, k: nat, s: nat)
    requires c.n > 0 && Response(c, e, d, k, s)
    ensures Response(c, e, d % c.n, k, s)
  {
    hide Cong;
    var n := c.n;
    CongMod(d, n);
    CongMul(d, d % n, e, n);
    CongRefl(k, n);
    CongAdd(k, k, e * d, e * (d % n), n);
    CongTrans(s, k + e * d, k + e * (d % n), n);
  }

  lemma TextIsSignature(c: Curve, e: nat, d: nat, k: nat, s: nat, text: string)
    requires 0 < k < c.n && s < c.n && Response(c, e, d, EvenNonce(c, k), s)
    requires text == ToHex(ToBE(c.xOf(k), 32) + ToBE(s, 32))
    ensures IsSignatureText(c, e, d, k, text)
  {
    hide Response, ToHex;
  }

  /** The nonce may be left unreduced, or be negated modulo n; the response is the same. */
  lemma ResponseComputed(c: Curve, e: nat, d: nat, kOrig: nat, k: nat, s: nat)
    requires c.n > 0 && kOrig % c.n != 0
    requires k == if c.parityOf(kOrig % c.n) == 1 then (c.n - kOrig) % c.n else kOrig
    requires s == (k + (e * d) % c.n) % c.n
    ensures Response(c, e, d, EvenNonce(c, kOrig % c.n), s)
  {
    var n := c.n;
    var even := EvenNonce(c, kOrig % n);
    NonceCong(n, kOrig, k, even, c.parityOf(kOrig % n) == 1);
    hide Cong;
    CongMod(e * d, n);
    CongAdd(k, even, (e * d) % n, e * d, n);
    CongMod(k + (e * d) % n, n);
    CongTrans(s, k + (e * d) % n, even + e * d, n);
  }

  lemma NonceCong(n: nat, kOrig: nat, k: nat, even: nat, negate: bool)
    requires n > 0 && k == if negate then (n - kOrig) % n else kOrig
    requires even == if negate then n - kOrig % n else kOrig % n
    ensures Cong(k, even, n)
  {
    hide Cong;
    CongMod(kOrig, n);
    if negate {
      CongMod(n - kOrig, n);
      CongRefl(n, n);
      CongAdd(n, n, kOrig, kOrig % n, n);
      CongTrans(k, n - kOrig, n - kOrig % n, n);
    }
  }

  method Sign(c: Curve, h: Hasher, secretKey: Digest, publicKey: Digest, message: seq<byte>, nonce: Digest)
    returns (r: Option<string>)
    requires c.Valid() && publicKey == XOnly(c, FromBE(secretKey))
    ensures r.Some? <==> FromBE(nonce) % c.n != 0
    ensures r.Some? ==>
      var k := FromBE(nonce) % c.n;
      var e := Challenge(c, h, ToBE(c.xOf(k), 32), publicKey, message);
      IsSignatureText(c, e, FromBE(secretKey), k, r.value)
    ensures r.Some? && FromBE(secretKey) % c.n != 0 ==> Accepts(c, h, message, r.value, ToHex(publicKey))
  {
    hide *;
    OrderPositive(c);
    var kOrig := FromBE(nonce);
    var point := kOrig % c.n;
    if point == 0 {
      return None;
    }
    var rx := ToBE(c.xOf(point), 32);
    var k := kOrig;
    if c.parityOf(point) == 1 {
      k := (c.n - kOrig) % c.n;
    }
    var e := Challenge(c, h, rx, publicKey, message);
    var d := FromBE(secretKey);
    var ed := (e * d) % c.n;
    var s := (k + ed) % c.n;
    ResponseComputed(c, e, d, kOrig, k, s);
    var text := RunToHex(rx + ToBE(s, 32));
    TextIsSignature(c, e, d, point, s, text);
    if d % c.n != 0 {
      SignatureAccepted(c, h, message, d, point, text);
    }
    r := Some(text);
  }

  lemma SmallIsNotZero(x: nat, n: nat)
    requires n > 0
    ensures 0 < x < n ==> x % n != 0
  {
  }

  class Bip340Signer {
    const curve: Curve
    const hash: Hasher
    var secretKey: Digest
    var publicKey: Digest
    var hasKey: bool

    ghost predicate Valid()
      reads this
    {
      && curve.Valid()
      && (hasKey ==> 0 < FromBE(secretKey) < 128 * Pow256(31)
                     && publicKey == XOnly(curve, FromBE(secretKey)))
    }

    constructor (c: Curve, h: Hasher)
      requires c.Valid()
      ensures Valid() && curve == c && hash == h && !hasKey
    {
      curve, hash, hasKey := c, h, false;
      secretKey, publicKey := Zeros(HASH_SIZE), Zeros(HASH_SIZE);
    }

    /** A key that clamps to zero is refused and changes nothing. */
    method SetKey(key: Digest) returns (ok: bool)
      requires Valid()
      modifies this
      ensures Valid()
      ensures ok <==> FromBE(Clamp(key)) != 0
      ensures ok ==> hasKey && secretKey == Clamp(key) && publicKey == XOnly(curve, FromBE(Clamp(key)))
      ensures ok && curve.n == SECP256K1_N ==> ValidScalar(FromBE(secretKey), curve.n)
      ensures !ok ==> hasKey == old(hasKey) && secretKey == old(secretKey) && publicKey == old(publicKey)
    {
      hide curve.Valid, Clamp, XOnly;
      var clamped := Clamp(key);
      ClampedBelow(key);
      ClampedIsScalar(key);
      var zero := IsZero(clamped);
      if zero {
        return false;
      }
      secretKey := clamped;
      publicKey := DerivePubkey(curve, clamped);
      hasKey := true;
      ok := true;
    }

    /** nonce stands for the bytes the keyed hash derives; it is refused when its point is at infinity. */
    method SignMessage(message: seq<byte>, nonce: Digest) returns (r: Option<string>)
      requires Valid()
      ensures r.Some? <==> hasKey && FromBE(nonce) % curve.n != 0
      ensures r.Some? ==>
        var k := FromBE(nonce) % curve.n;
        var e := Challenge(curve, hash, ToBE(curve.xOf(k), 32), publicKey, message);
        IsSignatureText(curve, e, FromBE(secretKey), k, r.value)
      ensures r.Some? && (curve.n == SECP256K1_N || FromBE(secretKey) % curve.n != 0) ==>
        Accepts(curve, hash, message, r.value, ToHex(publicKey))
    {
      Pow256Of31();
      hide IsSignatureText, Accepts, Challenge, XOnly, Pow256, FromBE;
      OrderPositive(curve);
      SmallIsNotZero(FromBE(secretKey), curve.n);
      if !hasKey {
        return None;
      }
      r := Sign(curve, hash, secretKey, publicKey, message, nonce);
    }
  }
}
