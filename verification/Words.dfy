/**
 Regrouping bytes into five-bit words and back. The loops keep a pending accumulator in a
 32-bit int that wraps; what they compute is exact radix conversion of one number.
 */
module Words {
  import opened Bytes
  import opened Options
  import opened Polymod

  /** 2^k for the shift distances the loops use. */
  function Two(k: nat): (p: nat)
    requires k <= 12
    ensures p > 0
  {
    if k == 0 then 1 else if k == 1 then 2 else if k == 2 then 4 else if k == 3 then 8
    else if k == 4 then 16 else if k == 5 then 32 else if k == 6 then 64 else if k == 7 then 128
    else if k == 8 then 256 else if k == 9 then 512 else if k == 10 then 1024
    else if k == 11 then 2048 else 4096
  }

  /** The number whose base-32 digits are ws, most significant first. */
  function FromBase32(ws: seq<word>): nat {
    if ws == [] then 0 else 32 * FromBase32(ws[..|ws| - 1]) + ws[|ws| - 1]
  }

  function ToBase32(v: nat, k: nat): (ws: seq<word>)
    ensures |ws| == k
  {
    if k == 0 then [] else ToBase32(v / 32, k - 1) + [v % 32]
  }

  lemma {:induction false} ToFromBase32(ws: seq<word>)
    ensures ToBase32(FromBase32(ws), |ws|) == ws
  {
    if ws != [] {
      ToFromBase32(ws[..|ws| - 1]);
      assert ws == ws[..|ws| - 1] + [ws[|ws| - 1]];
    }
  }

  // The number of five-bit words that hold n bytes, and of zero bits they pad with.
  function WordCount(n: nat): nat {
    (8 * n + 4) / 5
  }

  function Padding(n: nat): (p: nat)
    ensures p < 5
  {
    5 * WordCount(n) - 8 * n
  }

  function ByteCount(m: nat): nat {
    5 * m / 8
  }

  function Leftover(m: nat): (q: nat)
    ensures q < 8
  {
    5 * m - 8 * ByteCount(m)
  }

  /** The words of data: the digits of data's number, padded with zero bits below. */
  function ToWords(data: seq<byte>): seq<word> {
    ToBase32(FromBE(data) * Two(Padding(|data|)), WordCount(|data|))
  }

  /** The whole bytes of ws; the bits left over are dropped, whatever they are. */
  function FromWords(ws: seq<word>): seq<byte> {
    ToBE(FromBase32(ws) / Two(Leftover(|ws|)), ByteCount(|ws|))
  }

  // ---------------------------------------------------------------------------
  // The accumulator
  // ---------------------------------------------------------------------------

  /** The value of a 32-bit int after overflow. */
  function Wrap32(x: int): (w: int)
    ensures -0x8000_0000 <= w < 0x8000_0000
  {
    (x + 0x8000_0000) % 0x1_0000_0000 - 0x8000_0000
  }

  // The bits not yet emitted: all that matters of the accumulator.
  function Low(acc: int, bits: nat): (r: nat)
    requires bits <= 12
    ensures r < Two(bits)
  {
    acc % Two(bits)
  }

  /** acc << width, then or-ed with a value of that width; width is 8 or 5. */
  function PushBits(acc: int, width: nat, v: nat): int
    requires (width == 8 && v < 256) || (width == 5 && v < 32)
  {
    Wrap32(acc * Two(width)) + v
  }

  /** (acc >> bits) masked to width bits; >> on int rounds towards minus infinity. */
  function TakeBits(acc: int, bits: nat, width: nat): (v: nat)
    requires bits <= 7 && (width == 8 || width == 5)
    ensures v < Two(width)
  {
    acc / Two(bits) % Two(width)
  }

  /** Adding a multiple of the modulus. */
  lemma ModShift(x: int, m: int, k: int)
    requires m > 0
    ensures (x + m * k) % m == x % m
  {
    assert x + m * k == m * (x / m + k) + x % m;
    DivUnique(x + m * k, m, x / m + k, x % m);
  }

  /** Splitting a remainder: the digit above p, and what is below. */
  lemma ModSplit(x: int, p: nat, q: nat)
    requires p > 0 && q > 0
    ensures p * q > 0
    ensures x % (p * q) == (x / p) % q * p + x % p
  {
    var a, r := x / p, x % p;
    var b, s := a / q, a % q;
    assert p * q > 0 by { MulAtLeast(p, q); }
    assert x == p * (q * b + s) + r;
    assert p * (q * b + s) == (p * q) * b + s * p;
    assert s * p + r < p * q by { DigitBound(p, q, s, r); }
    assert 0 <= s * p;
    DivUnique(x, p * q, b, s * p + r);
  }

  lemma DigitBound(p: nat, q: nat, s: nat, r: nat)
    requires s < q && r < p
    ensures s * p + r < p * q
  {
    assert p * q == s * p + (q - s) * p;
    MulAtLeast(p, q - s);
    assert p * (q - s) == (q - s) * p;
  }

  /** Shifting left by a factor w and filling with v: the remainder shifts with it. */
  lemma ModScale(x: int, p: nat, w: nat, v: nat)
    requires p > 0 && v < w
    ensures p * w > 0
    ensures (x * w + v) % (p * w) == x % p * w + v
  {
    var q, r := x / p, x % p;
    assert p * w > 0 by { MulAtLeast(p, w); }
    assert x * w + v == (p * w) * q + (r * w + v) by {
      assert (p * q + r) * w == (p * w) * q + r * w;
    }
    assert 0 <= r * w;
    DigitBound(w, p, r, v);
    assert w * p == p * w;
    DivUnique(x * w + v, p * w, q, r * w + v);
  }

  lemma WrapMod(x: int, m: nat, t: nat)
    requires m > 0 && m * t == 0x1_0000_0000
    ensures Wrap32(x) % m == x % m
  {
    var k := (x + 0x8000_0000) / 0x1_0000_0000;
    assert Wrap32(x) == x - 0x1_0000_0000 * k;
    assert Wrap32(x) == x + m * (t * -k) by {
      assert m * (t * -k) == (m * t) * -k;
    }
    ModShift(x, m, t * -k);
  }

  lemma TwoSum(a: nat, b: nat)
    requires a <= 7 && (b == 5 || (b == 8 && a <= 4))
    ensures Two(a + b) == Two(a) * Two(b)
  {
  }

  // 2^32 divided by the modulus: the accumulator's wrap is a multiple of it.
  function WrapFactor(bits: nat): (t: nat)
    requires 5 <= bits <= 12
    ensures Two(bits) * t == 0x1_0000_0000
  {
    if bits == 5 then 0x800_0000 else if bits == 6 then 0x400_0000 else if bits == 7 then 0x200_0000
    else if bits == 8 then 0x100_0000 else if bits == 9 then 0x80_0000
    else if bits == 10 then 0x40_0000 else if bits == 11 then 0x20_0000 else 0x10_0000
  }

  /** Pushing is exact on the pending bits, whatever the wrap does above them. */
  lemma PushExact(acc: int, bits: nat, width: nat, v: nat)
    requires (width == 8 && v < 256 && bits <= 4) || (width == 5 && v < 32 && bits <= 7)
    ensures Low(PushBits(acc, width, v), bits + width) == Low(acc, bits) * Two(width) + v
  {
    hide Wrap32;
    var w, m := Two(width), Two(bits + width);
    TwoSum(bits, width);
    WrapMod(acc * w, m, WrapFactor(bits + width));
    var k := (acc * w) / m - Wrap32(acc * w) / m;
    assert acc * w == Wrap32(acc * w) + m * k by {
      assert acc * w == m * ((acc * w) / m) + (acc * w) % m;
      assert Wrap32(acc * w) == m * (Wrap32(acc * w) / m) + Wrap32(acc * w) % m;
      assert m * k == m * ((acc * w) / m) - m * (Wrap32(acc * w) / m);
    }
    ModShift(Wrap32(acc * w) + v, m, k);
    ModScale(acc, Two(bits), w, v);
  }

  /** Taking is exact: the taken digit and the bits left make up the pending bits. */
  lemma TakeExact(acc: int, bits: nat, width: nat)
    requires (width == 8 && bits <= 4) || (width == 5 && bits <= 7)
    ensures Low(acc, bits + width) == TakeBits(acc, bits, width) * Two(bits) + Low(acc, bits)
  {
    TwoSum(bits, width);
    ModSplit(acc, Two(bits), Two(width));
  }

  // ---------------------------------------------------------------------------
  // The loops
  // ---------------------------------------------------------------------------

  lemma Regrouped(hi: nat, digit: nat, low: nat, p: nat, q: nat)
    ensures (hi * q + digit) * p + low == hi * (p * q) + (digit * p + low)
  {
    assert hi * q * p == hi * (p * q);
  }

  /** The words emitted so far and the pending bits make up the number read so far. */
  ghost predicate EncoderState(ret: seq<word>, acc: int, bits: nat, read: seq<byte>) {
    && bits <= 12 && 5 * |ret| + bits == 8 * |read|
    && FromBase32(ret) * Two(bits) + Low(acc, bits) == FromBE(read)
  }

  lemma EncoderPush(ret: seq<word>, acc: int, bits: nat, read: seq<byte>, v: byte)
    requires EncoderState(ret, acc, bits, read) && bits <= 4
    ensures EncoderState(ret, PushBits(acc, 8, v), bits + 8, read + [v])
  {
    PushExact(acc, bits, 8, v);
    TwoSum(bits, 8);
    assert (read + [v])[..|read|] == read;
    hide Low, PushBits, Two;
    Distribute(FromBase32(ret), Two(bits), 256, Low(acc, bits), v);
  }

  lemma Distribute(f: nat, p: nat, w: nat, low: nat, v: nat)
    ensures f * (p * w) + (low * w + v) == w * (f * p + low) + v
  {
    assert f * (p * w) == w * (f * p);
  }

  lemma EncoderTake(ret: seq<word>, acc: int, bits: nat, read: seq<byte>)
    requires bits <= 7 && EncoderState(ret, acc, bits + 5, read)
    ensures EncoderState(ret + [TakeBits(acc, bits, 5)], acc, bits, read)
  {
    TakeExact(acc, bits, 5);
    TwoSum(bits, 5);
    var u: word := TakeBits(acc, bits, 5);
    assert (ret + [u])[..|ret|] == ret;
    hide Low, TakeBits, Two;
    Regrouped(FromBase32(ret), u, Low(acc, bits), Two(bits), 32);
  }

  lemma EncoderPad(ret: seq<word>, acc: int, bits: nat, data: seq<byte>)
    requires EncoderState(ret, acc, bits, data) && 1 <= bits <= 4
    ensures var u: word := Wrap32(acc * Two(5 - bits)) % 32;
            ret + [u] == ToWords(data)
  {
    var p, w := Two(bits), Two(5 - bits);
    var u: word := Wrap32(acc * w) % 32;
    assert p * w == 32;
    WrapMod(acc * w, 32, 0x800_0000);
    ModScale(acc, p, w, 0);
    assert (ret + [u])[..|ret|] == ret;
    Distribute(FromBase32(ret), p, w, Low(acc, bits), 0);
    hide Low, Wrap32;
    assert FromBase32(ret + [u]) == FromBE(data) * w;
    assert |ret + [u]| == WordCount(|data|) && Padding(|data|) == 5 - bits;
    ToFromBase32(ret + [u]);
  }

  lemma EncoderDone(ret: seq<word>, acc: int, data: seq<byte>)
    requires EncoderState(ret, acc, 0, data)
    ensures ret == ToWords(data)
  {
    assert |ret| == WordCount(|data|) && Padding(|data|) == 0;
    ToFromBase32(ret);
  }

  method RunToWords(data: seq<byte>) returns (ret: seq<word>)
    ensures ret == ToWords(data)
  {
    hide EncoderState;
    ret := [];
    var acc := 0;
    var bits: nat := 0;
    var i := 0;
    assert EncoderState(ret, acc, bits, data[..0]) by { EncoderStart(); }
    while i < |data|
      invariant i <= |data| && bits <= 4
      invariant EncoderState(ret, acc, bits, data[..i])
    {
      EncoderPush(ret, acc, bits, data[..i], data[i]);
      assert data[..i + 1] == data[..i] + [data[i]];
      acc := PushBits(acc, 8, data[i]);
      bits := bits + 8;
      while bits >= 5
        invariant bits <= 12
        invariant EncoderState(ret, acc, bits, data[..i + 1])
      {
        bits := bits - 5;
        EncoderTake(ret, acc, bits, data[..i + 1]);
        ret := ret + [TakeBits(acc, bits, 5)];
      }
      i := i + 1;
    }
    assert data[..i] == data;
    if bits > 0 {
      EncoderPad(ret, acc, bits, data);
      ret := ret + [Wrap32(acc * Two(5 - bits)) % 32];
    } else {
      EncoderDone(ret, acc, data);
    }
  }

  lemma EncoderStart()
    ensures EncoderState([], 0, 0, [])
  {
  }

  ghost predicate DecoderState(ret: seq<byte>, acc: int, bits: nat, read: seq<word>) {
    && bits <= 12 && 8 * |ret| + bits == 5 * |read|
    && FromBE(ret) * Two(bits) + Low(acc, bits) == FromBase32(read)
  }

  lemma DecoderStart()
    ensures DecoderState([], 0, 0, [])
  {
  }

  lemma DecoderPush(ret: seq<byte>, acc: int, bits: nat, read: seq<word>, v: word)
    requires DecoderState(ret, acc, bits, read) && bits <= 7
    ensures DecoderState(ret, PushBits(acc, 5, v), bits + 5, read + [v])
  {
    PushExact(acc, bits, 5, v);
    TwoSum(bits, 5);
    assert (read + [v])[..|read|] == read;
    hide Low, PushBits, Two;
    Distribute(FromBE(ret), Two(bits), 32, Low(acc, bits), v);
  }

  lemma DecoderTake(ret: seq<byte>, acc: int, bits: nat, read: seq<word>)
    requires bits <= 4 && DecoderState(ret, acc, bits + 8, read)
    ensures DecoderState(ret + [TakeBits(acc, bits, 8)], acc, bits, read)
  {
    TakeExact(acc, bits, 8);
    TwoSum(bits, 8);
    var u: byte := TakeBits(acc, bits, 8);
    FromBEAppend(ret, u);
    hide Low, TakeBits, Two, FromBE, FromBase32;
    DecoderAlgebra(FromBE(ret), u, Low(acc, bits), Two(bits), Two(bits + 8), Low(acc, bits + 8));
  }

  lemma FromBEAppend(ret: seq<byte>, u: byte)
    ensures FromBE(ret + [u]) == 256 * FromBE(ret) + u
  {
    assert (ret + [u])[..|ret|] == ret;
  }

  lemma DecoderAlgebra(hi: nat, u: nat, low: nat, p: nat, q: nat, rest: nat)
    requires q == p * 256 && rest == u * p + low
    ensures hi * q + rest == (256 * hi + u) * p + low
  {
    Regrouped(hi, u, low, p, 256);
  }

  lemma DecoderDone(ret: seq<byte>, acc: int, bits: nat, words: seq<word>)
    requires DecoderState(ret, acc, bits, words) && bits <= 7
    ensures ret == FromWords(words)
  {
    assert |ret| == ByteCount(|words|) && Leftover(|words|) == bits;
    DivUnique(FromBase32(words), Two(bits), FromBE(ret), Low(acc, bits));
    ToFromBE(ret);
  }

  /** A value with more than five bits is refused. */
  method RunFromWords(words: seq<byte>) returns (r: Option<seq<byte>>)
    ensures r.None? <==> exists i :: 0 <= i < |words| && words[i] >= 32
    ensures r.Some? ==> var ws: seq<word> := words; r.value == FromWords(ws)
  {
    hide DecoderState;
    var ret: seq<byte> := [];
    var acc := 0;
    var bits: nat := 0;
    var i := 0;
    ghost var read: seq<word> := [];
    DecoderStart();
    while i < |words|
      invariant i <= |words| && bits <= 7
      invariant forall j :: 0 <= j < i ==> words[j] < 32
      invariant read == words[..i]
      invariant DecoderState(ret, acc, bits, read)
    {
      if words[i] >= 32 {
        return None;
      }
      DecoderPush(ret, acc, bits, read, words[i]);
      read := read + [words[i]];
      acc := PushBits(acc, 5, words[i]);
      bits := bits + 5;
      while bits >= 8
        invariant bits <= 12
        invariant DecoderState(ret, acc, bits, read)
      {
        bits := bits - 8;
        DecoderTake(ret, acc, bits, read);
        ret := ret + [TakeBits(acc, bits, 8)];
      }
      i := i + 1;
    }
    assert read == words;
    DecoderDone(ret, acc, bits, read);
    r := Some(ret);
  }

  // ---------------------------------------------------------------------------
  // Round trips
  // ---------------------------------------------------------------------------

  lemma {:induction false} FromToBase32(v: nat, k: nat)
    requires v < Pow32(k)
    ensures FromBase32(ToBase32(v, k)) == v
  {
    if k > 0 {
      FromToBase32(v / 32, k - 1);
      assert ToBase32(v, k)[..k - 1] == ToBase32(v / 32, k - 1);
    }
  }

  function Pow32(k: nat): (p: nat)
    ensures p > 0
  {
    if k == 0 then 1 else 32 * Pow32(k - 1)
  }

  lemma {:induction false} Base32Bound(ws: seq<word>)
    ensures FromBase32(ws) < Pow32(|ws|)
  {
    if ws != [] {
      Base32Bound(ws[..|ws| - 1]);
    }
  }

  /** A block of five bytes is eight words, so the padding recurs. */
  lemma {:induction false} FillBlocks(k: nat, r: nat, w: nat, t: nat)
    requires Pow256(r) * t == Pow32(w)
    ensures Pow256(5 * k + r) * t == Pow32(8 * k + w)
  {
    if k > 0 {
      FillBlocks(k - 1, r, w, t);
      FivePowers(5 * (k - 1) + r);
      EightPowers(8 * (k - 1) + w);
      ScaleProduct(Pow256(5 * (k - 1) + r), t);
    }
  }

  lemma ScaleProduct(x: nat, t: nat)
    ensures (0x100_0000_0000 * x) * t == 0x100_0000_0000 * (x * t)
  {
  }

  lemma FillFirst()
    ensures Pow256(0) * Two(0) == Pow32(0) && Pow256(1) * Two(2) == Pow32(2)
    ensures Pow256(2) * Two(4) == Pow32(4) && Pow256(3) * Two(1) == Pow32(5)
    ensures Pow256(4) * Two(3) == Pow32(7)
  {
    FirstPowers();
    hide Pow256, Pow32;
  }

  lemma CountsAre(n: nat, w: nat, p: nat)
    requires 5 * w == 8 * n + p && p < 5
    ensures WordCount(n) == w && Padding(n) == p
  {
  }

  /** n bytes and their padding fill the words exactly. */
  lemma WordsFill(n: nat)
    ensures Pow256(n) * Two(Padding(n)) == Pow32(WordCount(n))
  {
    hide *;
    var k, r := n / 5, n % 5;
    FillFirst();
    if r == 0 {
      CountsAre(n, 8 * k, 0);
      FillBlocks(k, 0, 0, Two(0));
    } else if r == 1 {
      CountsAre(n, 8 * k + 2, 2);
      FillBlocks(k, 1, 2, Two(2));
    } else if r == 2 {
      CountsAre(n, 8 * k + 4, 4);
      FillBlocks(k, 2, 4, Two(4));
    } else if r == 3 {
      CountsAre(n, 8 * k + 5, 1);
      FillBlocks(k, 3, 5, Two(1));
    } else {
      CountsAre(n, 8 * k + 7, 3);
      FillBlocks(k, 4, 7, Two(3));
    }
  }

  lemma FirstPowers()
    ensures Pow256(0) == 1 && Pow256(1) == 0x100 && Pow256(2) == 0x1_0000
    ensures Pow256(3) == 0x100_0000 && Pow256(4) == 0x1_0000_0000
    ensures Pow32(0) == 1 && Pow32(2) == 0x400 && Pow32(4) == 0x10_0000
    ensures Pow32(5) == 0x200_0000 && Pow32(7) == 0x8_0000_0000
  {
    Pow256Values();
    assert Pow32(1) == 32 * Pow32(0);
    assert Pow32(2) == 32 * Pow32(1);
    assert Pow32(3) == 32 * Pow32(2);
    assert Pow32(4) == 32 * Pow32(3);
    assert Pow32(5) == 32 * Pow32(4);
    assert Pow32(6) == 32 * Pow32(5);
  }

  lemma FivePowers(n: nat)
    ensures Pow256(n + 5) == 0x100_0000_0000 * Pow256(n)
  {
    assert Pow256(n + 2) == 256 * Pow256(n + 1);
    assert Pow256(n + 4) == 256 * Pow256(n + 3);
  }

  lemma EightPowers(n: nat)
    ensures Pow32(n + 8) == 0x100_0000_0000 * Pow32(n)
  {
    assert Pow32(n + 2) == 32 * Pow32(n + 1);
    assert Pow32(n + 4) == 32 * Pow32(n + 3);
    assert Pow32(n + 6) == 32 * Pow32(n + 5);
  }

  /** Regrouping loses nothing. */
  lemma WordsRoundTrip(data: seq<byte>)
    ensures FromWords(ToWords(data)) == data
  {
    var n := |data|;
    var t := Two(Padding(n));
    ToFromBE(data);
    WordsFill(n);
    MulBelow(FromBE(data), Pow256(n), t);
    FromToBase32(FromBE(data) * t, WordCount(n));
    assert ByteCount(WordCount(n)) == n && Leftover(WordCount(n)) == Padding(n);
    DivUnique(FromBE(data) * t, t, FromBE(data), 0);
  }

  lemma MulBelow(a: nat, b: nat, t: nat)
    requires a < b && t > 0
    ensures a * t < b * t
  {
    assert b * t == a * t + (b - a) * t;
    MulAtLeast(t, b - a);
    assert t * (b - a) == (b - a) * t;
  }

  /** Fewer than five bits are left over, and they are zero. */
  predicate CanonicalPadding(ws: seq<word>) {
    Leftover(|ws|) < 5 && FromBase32(ws) % Two(Leftover(|ws|)) == 0
  }

  /** Words survive the way back exactly when their padding is what the encoder emits. */
  lemma WordsCanonical(ws: seq<word>)
    ensures ToWords(FromWords(ws)) == ws <==> CanonicalPadding(ws)
  {
    var m := |ws|;
    var q := Leftover(m);
    var v := FromBase32(ws) / Two(q);
    assert |FromWords(ws)| == ByteCount(m);
    if q < 5 {
      assert WordCount(ByteCount(m)) == m && Padding(ByteCount(m)) == q;
      FromWordsValue(ws);
      assert FromBase32(ws) == Two(q) * v + FromBase32(ws) % Two(q);
      if FromBase32(ws) % Two(q) == 0 {
        assert v * Two(q) == FromBase32(ws);
        ToFromBase32(ws);
      } else if ToWords(FromWords(ws)) == ws {
        assert v * Two(q) < FromBase32(ws) < Pow32(m) by { Base32Bound(ws); }
        FromToBase32(v * Two(q), m);
      }
    } else {
      assert |ToWords(FromWords(ws))| < m;
    }
  }

  lemma FromWordsValue(ws: seq<word>)
    requires Leftover(|ws|) < 5
    ensures FromBE(FromWords(ws)) == FromBase32(ws) / Two(Leftover(|ws|))
  {
    var m := |ws|;
    var n, t := ByteCount(m), Two(Leftover(m));
    var v := FromBase32(ws) / t;
    assert WordCount(n) == m && Padding(n) == Leftover(m);
    WordsFill(n);
    Base32Bound(ws);
    QuotientBelow(FromBase32(ws), Pow256(n), t);
    FromToBE(v, n);
  }

  lemma QuotientBelow(x: nat, b: nat, t: nat)
    requires t > 0 && x < b * t
    ensures 0 <= x / t < b
  {
    assert x == t * (x / t) + x % t;
    MulMono(t, b, x / t);
  }
}
