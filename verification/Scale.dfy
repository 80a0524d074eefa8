/**
 The SCALE codec: an encoder that appends to a buffer, a decoder that moves a cursor,
 the functions that specify both, and what a stream written by one is to the other.
 */
module Scale {
  import opened Bytes

  // ---------------------------------------------------------------------------
  // Encodings as functions
  // ---------------------------------------------------------------------------

  /** The number of bytes of v without leading zeros. */
  function ByteLen(v: nat): nat {
    if v == 0 then 0 else 1 + ByteLen(v / 256)
  }

  lemma {:induction false} ByteLenBounds(v: nat, k: nat)
    ensures v < Pow256(k) <==> ByteLen(v) <= k
  {
    if v == 0 {
    } else if k == 0 {
    } else {
      ByteLenBounds(v / 256, k - 1);
    }
  }

  function CompactEnc(v: u64): (b: seq<byte>)
    ensures 1 <= |b| <= 9
  {
    if v <= 0x3F then [v * 4]
    else if v <= 0x3FFF then ToLE(v * 4 + 1, 2)
    else if v <= 0x3FFF_FFFF then ToLE(v * 4 + 2, 4)
    else
      ByteLenBounds(v, 8);
      Pow256Values();
      var n := Max(4, ByteLen(v));
      [(n - 4) * 4 + 3] + ToLE(v, n)
  }

  lemma BigCompactForm(v: u64)
    requires v > 0x3FFF_FFFF
    ensures 4 <= ByteLen(v) <= 8
    ensures CompactEnc(v) == [(ByteLen(v) - 4) * 4 + 3] + ToLE(v, ByteLen(v))
  {
    Pow256Values();
    ByteLenBounds(v, 3);
    ByteLenBounds(v, 8);
  }

  // ---------------------------------------------------------------------------
  // Reads as functions of the data and the cursor
  // ---------------------------------------------------------------------------

  /**
   What a decode call comes to. Insufficient is the exception the guard throws. OutOfRange is
   a read past the last byte that the guard let through; C++ leaves its value undefined.
   Every case says where the cursor ends up.
   */
  datatype Read<+T> =
    | Read(value: T, next: nat)
    | Insufficient(next: nat)
    | OutOfRange(next: nat)

  /** check_remaining passes: the sum is a size_t, so it wraps. */
  predicate Fits(off: nat, needed: nat, size: nat) {
    (off + needed) % TWO_64 <= size
  }

  // A cursor can end one past the end: see CompactGuardExact.
  predicate Cursor(data: seq<byte>, off: nat) {
    off <= |data| + 1 && |data| < MAX_SIZE
  }

  function LE64(b: seq<byte>): (v: u64)
    requires |b| <= 8
  {
    ToFromLE(b);
    PowMonotone(|b|, 8);
    Pow256Values();
    FromLE(b)
  }

  function ReadCompact(data: seq<byte>, off: nat): Read<u64>
    requires Cursor(data, off)
  {
    if !Fits(off, 1, |data|) then Insufficient(off)
    else
      var first := data[off];
      if first % 4 == 0 then Read(first / 4, off + 1)
      else if first % 4 == 1 then
        if !Fits(off, 2, |data|) then Insufficient(off)
        else Read(LE64(data[off..off + 2]) / 4, off + 2)
      else if first % 4 == 2 then
        if !Fits(off, 4, |data|) then Insufficient(off)
        else Read(LE64(data[off..off + 4]) / 4, off + 4)
      else
        var n := first / 4 + 4;
        if !Fits(off, n, |data|) then Insufficient(off)
        else if off + 1 + Min(n, 16) > |data| then OutOfRange(off + 1)
        else Read(LE64(data[off + 1..off + 1 + Min(n, 8)]), off + 1 + n)
  }

  function ReadRaw(data: seq<byte>, off: nat, len: nat): Read<seq<byte>>
    requires Cursor(data, off)
  {
    if !Fits(off, len, |data|) then Insufficient(off)
    else if off + len > |data| then OutOfRange(off)
    else Read(data[off..off + len], off + len)
  }

  function ReadBytes(data: seq<byte>, off: nat): Read<seq<byte>>
    requires Cursor(data, off)
  {
    match ReadCompact(data, off)
    case Read(len, next) => ReadRaw(data, next, len)
    case Insufficient(next) => Insufficient(next)
    case OutOfRange(next) => OutOfRange(next)
  }

  // ---------------------------------------------------------------------------
  // Compact integers
  // ---------------------------------------------------------------------------

  /** e stands in data at off. */
  predicate At(data: seq<byte>, off: nat, e: seq<byte>) {
    off + |e| <= |data| && data[off..off + |e|] == e
  }

  lemma AtSplit(data: seq<byte>, off: nat, a: seq<byte>, b: seq<byte>)
    requires At(data, off, a + b)
    ensures At(data, off, a) && At(data, off + |a|, b)
    ensures off + |a| + |b| <= |data|
  {
    var s := data[off..off + |a + b|];
    assert data[off..off + |a|] == s[..|a|];
    assert data[off + |a|..off + |a| + |b|] == s[|a|..];
  }

  /** In the two- and four-byte modes the low two bits of the first byte are the mode. */
  lemma TaggedLE(v: nat, k: nat, tag: nat)
    requires k > 0 && tag < 4 && v * 4 + tag < Pow256(k)
    ensures ToLE(v * 4 + tag, k)[0] % 4 == tag
    ensures FromLE(ToLE(v * 4 + tag, k)) / 4 == v
  {
    FromToLE(v * 4 + tag, k);
  }

  lemma CompactRead(v: u64, data: seq<byte>, off: nat)
    requires |data| < MAX_SIZE && At(data, off, CompactEnc(v))
    ensures ReadCompact(data, off) == Read(v, off + |CompactEnc(v)|)
  {
    if v <= 0x3F {
      assert data[off] == data[off..off + 1][0];
    } else if v <= 0x3FFF {
      SmallCompactRead(v, 2, 1, data, off);
    } else if v <= 0x3FFF_FFFF {
      SmallCompactRead(v, 4, 2, data, off);
    } else {
      BigCompactRead(v, data, off);
    }
  }

  lemma SmallCompactRead(v: u64, k: nat, tag: nat, data: seq<byte>, off: nat)
    requires (k == 2 && tag == 1 && v <= 0x3FFF) || (k == 4 && tag == 2 && v <= 0x3FFF_FFFF)
    requires |data| < MAX_SIZE && At(data, off, ToLE(v * 4 + tag, k))
    ensures ReadCompact(data, off) == Read(v, off + k)
  {
    hide CompactEnc;
    Pow256Values();
    TaggedLE(v, k, tag);
    assert data[off] == data[off..off + k][0];
  }

  lemma BigCompactRead(v: u64, data: seq<byte>, off: nat)
    requires v > 0x3FFF_FFFF
    requires |data| < MAX_SIZE && At(data, off, CompactEnc(v))
    ensures ReadCompact(data, off) == Read(v, off + |CompactEnc(v)|)
  {
    hide CompactEnc;
    BigCompactForm(v);
    var n := ByteLen(v);
    ByteLenBounds(v, n);
    AtSplit(data, off, [(n - 4) * 4 + 3], ToLE(v, n));
    assert data[off] == data[off..off + 1][0];
    FromToLE(v, n);
    hide ToLE, ByteLen;
  }

  /**
   Whatever bytes the decoder reads as v, the encoder's are no longer, and are the only ones
   of that length.
   */
  lemma CompactShortest(data: seq<byte>, v: u64, next: nat)
    requires |data| < MAX_SIZE && ReadCompact(data, 0) == Read(v, next) && next <= |data|
    ensures |CompactEnc(v)| <= next
    ensures |CompactEnc(v)| == next <==> CompactEnc(v) == data[..next]
  {
    var first := data[0];
    if first % 4 == 3 {
      BigCompactShortest(data, v, next);
    } else if first % 4 != 0 {
      var k := if first % 4 == 1 then 2 else 4;
      var b := data[0..k];
      SmallTag(b);
      ToFromLE(b);
      Pow256Values();
    }
  }

  lemma SmallTag(b: seq<byte>)
    requires |b| > 0
    ensures FromLE(b) % 4 == b[0] % 4
    ensures FromLE(b) == FromLE(b) / 4 * 4 + b[0] % 4
  {
  }

  lemma BigCompactShortest(data: seq<byte>, v: u64, next: nat)
    requires |data| < MAX_SIZE && ReadCompact(data, 0) == Read(v, next) && next <= |data|
    requires data[0] % 4 == 3
    ensures |CompactEnc(v)| <= next
    ensures |CompactEnc(v)| == next <==> CompactEnc(v) == data[..next]
  {
    Pow256Values();
    var n := data[0] / 4 + 4;
    if n <= 8 {
      var b := data[1..1 + n];
      ToFromLE(b);
      ByteLenBounds(v, n);
      ByteLenBounds(v, 3);
      assert data[..next] == [data[0]] + b;
    }
  }

  /** No compact encoding is a proper prefix of another. */
  lemma CompactPrefixFree(v: u64, w: u64, rest: seq<byte>)
    requires CompactEnc(w) == CompactEnc(v) + rest
    ensures v == w && rest == []
  {
    var data := CompactEnc(w);
    assert At(data, 0, CompactEnc(v));
    CompactRead(w, data, 0);
    CompactRead(v, data, 0);
  }

  /**
   The guard of the big-integer mode counts the payload but not the prefix byte. So the
   cursor leaves the data exactly when the data stop one byte short of the payload's end.
   */
  lemma CompactGuardExact(data: seq<byte>, off: nat)
    requires off <= |data| < MAX_SIZE
    ensures var r := ReadCompact(data, off);
            r.OutOfRange? || r.next > |data| <==>
            off < |data| && data[off] % 4 == 3 && off + data[off] / 4 + 4 == |data|
  {
  }

  /** Four payload bytes announced and three present: the guard passes, and the read runs over the end. */
  lemma CompactGuardMisses()
    ensures ReadCompact([0x03, 1, 2, 3], 0) == OutOfRange(1)
    ensures ReadCompact([0x03, 1, 2], 0) == Insufficient(0)
    ensures ReadCompact([0x03, 1, 2, 3, 4], 0).Read?
  {
    assert Fits(0, 1, 4) && Fits(0, 4, 4) && Fits(0, 1, 3) && !Fits(0, 4, 3) && Fits(0, 4, 5);
  }

  /** A length prefix near 2^64 wraps the sum in the guard, and only that defeats it. */
  lemma BytesGuardExact(data: seq<byte>, off: nat, len: u64, next: nat)
    requires Cursor(data, off) && ReadCompact(data, off) == Read(len, next)
    ensures ReadBytes(data, off).OutOfRange? <==> next + len >= TWO_64
    ensures ReadBytes(data, off).Read? <==> next + len <= |data|
  {
  }

  // ---------------------------------------------------------------------------
  // Streams
  // ---------------------------------------------------------------------------

  datatype Kind = KCompact | KU8 | KU16 | KU32 | KU64 | KU128 | KBool | KBytes | KString

  datatype Item =
    | Compact(v: u64)
    | U8(b: byte)
    | U16(h: u16)
    | U32(w: u32)
    | U64(d: u64)
    | U128(lo: u64, hi: u64)
    | Bool(flag: bool)
    | Blob(bytes: seq<byte>)
    | Text(chars: seq<byte>)
  {
    function Kind(): Kind {
      match this
      case Compact(_) => KCompact
      case U8(_) => KU8
      case U16(_) => KU16
      case U32(_) => KU32
      case U64(_) => KU64
      case U128(_, _) => KU128
      case Bool(_) => KBool
      case Blob(_) => KBytes
      case Text(_) => KString
    }

    predicate Sized() {
      && (Blob? ==> |bytes| < MAX_SIZE)
      && (Text? ==> |chars| < MAX_SIZE)
    }

    /** What the encoder's method for this kind of value appends. */
    function Encoding(): seq<byte>
      requires Sized()
    {
      match this
      case Compact(v) => CompactEnc(v)
      case U8(b) => [b]
      case U16(h) => ToLE(h, 2)
      case U32(w) => ToLE(w, 4)
      case U64(d) => ToLE(d, 8)
      case U128(lo, hi) => ToLE(lo, 8) + ToLE(hi, 8)
      case Bool(flag) => [if flag then 1 else 0]
      case Blob(bytes) => CompactEnc(|bytes|) + bytes
      case Text(chars) => CompactEnc(|chars|) + chars
    }
  }

  /** What the decoder's method for this kind returns. */
  function ReadItem(kind: Kind, data: seq<byte>, off: nat): Read<Item>
    requires Cursor(data, off)
  {
    match kind
    case KCompact => (
      match ReadCompact(data, off)
      case Read(v, next) => Read(Compact(v), next)
      case Insufficient(next) => Insufficient(next)
      case OutOfRange(next) => OutOfRange(next))
    case KU8 =>
      if !Fits(off, 1, |data|) then Insufficient(off) else Read(U8(data[off]), off + 1)
    case KU16 =>
      if !Fits(off, 2, |data|) then Insufficient(off)
      else
        LEBound(data[off..off + 2]);
        Read(U16(LE64(data[off..off + 2])), off + 2)
    case KU32 =>
      if !Fits(off, 4, |data|) then Insufficient(off)
      else
        LEBound(data[off..off + 4]);
        Read(U32(LE64(data[off..off + 4])), off + 4)
    case KU64 =>
      if !Fits(off, 8, |data|) then Insufficient(off)
      else Read(U64(LE64(data[off..off + 8])), off + 8)
    case KU128 =>
      if !Fits(off, 16, |data|) then Insufficient(off)
      else Read(U128(LE64(data[off..off + 8]), LE64(data[off + 8..off + 16])), off + 16)
    case KBool =>
      if !Fits(off, 1, |data|) then Insufficient(off) else Read(Bool(data[off] != 0), off + 1)
    case KBytes => (
      match ReadBytes(data, off)
      case Read(b, next) => Read(Blob(b), next)
      case Insufficient(next) => Insufficient(next)
      case OutOfRange(next) => OutOfRange(next))
    case KString => (
      match ReadBytes(data, off)
      case Read(b, next) => Read(Text(b), next)
      case Insufficient(next) => Insufficient(next)
      case OutOfRange(next) => OutOfRange(next))
  }

  lemma LEBound(b: seq<byte>)
    requires |b| <= 8
    ensures LE64(b) < Pow256(|b|)
    ensures |b| == 2 ==> LE64(b) < 0x1_0000
    ensures |b| == 4 ==> LE64(b) < 0x1_0000_0000
  {
    ToFromLE(b);
    Pow256Values();
  }

  /** Little-endian numbers of two and four bytes, written out. */
  lemma LEOf(a: byte, b: byte, c: byte, d: byte)
    ensures ToLE(a + 0x100 * b, 2) == [a, b]
    ensures ToLE(a + 0x100 * b + 0x1_0000 * c + 0x100_0000 * d, 4) == [a, b, c, d]
  {
    LEValue([a, b, c, d]);
    LEValue([a, b]);
    ToFromLE([a, b]);
    ToFromLE([a, b, c, d]);
    hide ToLE, FromLE;
  }

  lemma LEValue(s: seq<byte>)
    requires |s| == 2 || |s| == 4
    ensures |s| == 2 ==> FromLE(s) == s[0] as int + 0x100 * (s[1] as int)
    ensures |s| == 4 ==>
      FromLE(s) == s[0] as int + 0x100 * (s[1] as int) + 0x1_0000 * (s[2] as int) + 0x100_0000 * (s[3] as int)
  {
    hide FromLE;
    LETail(s);
    LETail(s[1..]);
    assert s[1..][1..] == s[2..];
    LETail(s[2..]);
    if |s| == 4 {
      assert s[2..][1..] == s[3..] && s[3..][1..] == s[4..];
      LETail(s[3..]);
      LETail(s[4..]);
    }
  }

  lemma LETail(s: seq<byte>)
    ensures FromLE(s) == if s == [] then 0 else s[0] + 256 * FromLE(s[1..])
  {
  }

  /** The compact forms byte by byte, up to four bytes: the mode in the two low bits of the first. */
  lemma CompactBytes(a: nat, b: byte, c: byte, d: byte)
    requires a < 64
    ensures CompactEnc(a) == [a * 4]
    ensures 0 < b ==> CompactEnc(a + 0x40 * b) == [a * 4 + 1, b]
    ensures 0 < c || 0 < d ==>
      CompactEnc(a + 0x40 * b + 0x4000 * c + 0x40_0000 * d) == [a * 4 + 2, b, c, d]
  {
    LEOf(a * 4 + 1, b, c, d);
    LEOf(a * 4 + 2, b, c, d);
    hide ToLE, ByteLen;
  }

  /** The compact encodings that serve as examples. */
  lemma SampleCompacts()
    ensures CompactEnc(0) == [0x00] && CompactEnc(42) == [0xA8] && CompactEnc(63) == [0xFC]
    ensures CompactEnc(64) == [0x01, 0x01] && CompactEnc(69) == [0x15, 0x01] && CompactEnc(16383) == [0xFD, 0xFF]
    ensures CompactEnc(16384) == [0x02, 0x00, 0x01, 0x00] && CompactEnc(1073741823) == [0xFE, 0xFF, 0xFF, 0xFF]
  {
    hide CompactEnc;
    CompactBytes(0, 1, 0, 0);
    CompactBytes(42, 0, 0, 0);
    CompactBytes(5, 1, 0, 0);
    CompactBytes(63, 255, 0, 0);
    CompactBytes(0, 0, 1, 0);
    CompactBytes(63, 255, 255, 255);
  }

  /** The bytes of other small values. */
  lemma SampleFixed()
    ensures Bool(true).Encoding() == [0x01] && Bool(false).Encoding() == [0x00] && U8(0xAB).Encoding() == [0xAB]
    ensures U16(0xABCD).Encoding() == [0xCD, 0xAB]
    ensures U32(0xDEADBEEF).Encoding() == [0xEF, 0xBE, 0xAD, 0xDE]
    ensures Blob([1, 2, 3, 4]).Encoding() == [0x10, 1, 2, 3, 4]
  {
    LEOf(0xCD, 0xAB, 0, 0);
    LEOf(0xEF, 0xBE, 0xAD, 0xDE);
    hide ToLE;
  }

  function EncodeAll(items: seq<Item>): seq<byte>
    requires forall i :: 0 <= i < |items| ==> items[i].Sized()
  {
    if items == [] then [] else items[0].Encoding() + EncodeAll(items[1..])
  }

  function Kinds(items: seq<Item>): seq<Kind> {
    if items == [] then [] else [items[0].Kind()] + Kinds(items[1..])
  }

  /** The decode calls named by kinds, made one after the other. */
  function ReadAll(kinds: seq<Kind>, data: seq<byte>, off: nat): Read<seq<Item>>
    requires Cursor(data, off)
  {
    if kinds == [] then Read([], off)
    else
      match ReadItem(kinds[0], data, off)
      case Insufficient(next) => Insufficient(next)
      case OutOfRange(next) => OutOfRange(next)
      case Read(item, next) =>
        if !Cursor(data, next) then OutOfRange(next)
        else
          match ReadAll(kinds[1..], data, next)
          case Read(items, last) => Read([item] + items, last)
          case Insufficient(last) => Insufficient(last)
          case OutOfRange(last) => OutOfRange(last)
  }

  lemma BlobRead(b: seq<byte>, data: seq<byte>, off: nat)
    requires |b| < MAX_SIZE && |data| < MAX_SIZE
    requires At(data, off, CompactEnc(|b|) + b)
    ensures ReadBytes(data, off) == Read(b, off + |CompactEnc(|b|)| + |b|)
  {
    hide CompactEnc, ReadCompact;
    AtSplit(data, off, CompactEnc(|b|), b);
    CompactRead(|b|, data, off);
  }

  lemma FixedRead(v: nat, k: nat, data: seq<byte>, off: nat)
    requires k <= 8 && v < Pow256(k) && At(data, off, ToLE(v, k))
    ensures LE64(data[off..off + k]) == v
  {
    FromToLE(v, k);
  }

  lemma ItemRead(item: Item, data: seq<byte>, off: nat)
    requires item.Sized() && |data| < MAX_SIZE && At(data, off, item.Encoding())
    ensures ReadItem(item.Kind(), data, off) == Read(item, off + |item.Encoding()|)
  {
    Pow256Values();
    hide CompactEnc, ReadCompact, ReadBytes, LE64, ToLE, Pow256;
    match item
    case Compact(v) => CompactRead(v, data, off);
    case U8(b) => assert data[off] == data[off..off + 1][0];
    case U16(h) => FixedRead(h, 2, data, off);
    case U32(w) => FixedRead(w, 4, data, off);
    case U64(d) => FixedRead(d, 8, data, off);
    case U128(lo, hi) =>
      AtSplit(data, off, ToLE(lo, 8), ToLE(hi, 8));
      FixedRead(lo, 8, data, off);
      FixedRead(hi, 8, data, off + 8);
    case Bool(flag) => assert data[off] == data[off..off + 1][0];
    case Blob(b) => BlobRead(b, data, off);
    case Text(b) => BlobRead(b, data, off);
  }

  lemma {:induction false} StreamRead(items: seq<Item>, data: seq<byte>, off: nat)
    requires forall i :: 0 <= i < |items| ==> items[i].Sized()
    requires |data| < MAX_SIZE && off <= |data| && At(data, off, EncodeAll(items))
    ensures ReadAll(Kinds(items), data, off) == Read(items, off + |EncodeAll(items)|)
  {
    hide At, ReadItem, Item.Encoding, Item.Kind, Item.Sized;
    if items == [] {
      assert ReadAll([], data, off) == Read([], off);
    } else {
      var item, rest := items[0], items[1..];
      var mid, last := off + |item.Encoding()|, off + |EncodeAll(items)|;
      AtSplit(data, off, item.Encoding(), EncodeAll(rest));
      ItemRead(item, data, off);
      StreamRead(rest, data, mid);
      ReadAllStep(Kinds(items), data, off, item, rest, mid, last);
      assert items == [item] + rest;
    }
  }

  lemma ReadAllStep(
    kinds: seq<Kind>, data: seq<byte>, off: nat, item: Item, items: seq<Item>, mid: nat, last: nat)
    requires kinds != [] && Cursor(data, off) && Cursor(data, mid)
    requires ReadItem(kinds[0], data, off) == Read(item, mid)
    requires ReadAll(kinds[1..], data, mid) == Read(items, last)
    ensures ReadAll(kinds, data, off) == Read([item] + items, last)
  {
  }

  /** Reading back what was written returns the same values and stops exactly at its end. */
  lemma StreamRoundTrip(items: seq<Item>, pre: seq<byte>, post: seq<byte>)
    requires forall i :: 0 <= i < |items| ==> items[i].Sized()
    requires |pre + EncodeAll(items) + post| < MAX_SIZE
    ensures ReadAll(Kinds(items), pre + EncodeAll(items) + post, |pre|)
         == Read(items, |pre| + |EncodeAll(items)|)
  {
    StreamRead(items, pre + EncodeAll(items) + post, |pre|);
  }

  /**
   Unique decodability: two value sequences of the same kinds whose encodings begin the same
   bytes are the same values, and what follows them is the same.
   */
  lemma UniquelyDecodable(xs: seq<Item>, ys: seq<Item>, p: seq<byte>, q: seq<byte>)
    requires forall i :: 0 <= i < |xs| ==> xs[i].Sized()
    requires forall i :: 0 <= i < |ys| ==> ys[i].Sized()
    requires Kinds(xs) == Kinds(ys)
    requires EncodeAll(xs) + p == EncodeAll(ys) + q && |EncodeAll(xs) + p| < MAX_SIZE
    ensures xs == ys && p == q
  {
    var data := EncodeAll(xs) + p;
    StreamRead(xs, data, 0);
    assert At(data, 0, EncodeAll(ys)) by {
      assert data[..|EncodeAll(ys)|] == EncodeAll(ys);
    }
    StreamRead(ys, data, 0);
    assert p == data[|EncodeAll(xs)|..];
    assert q == data[|EncodeAll(ys)|..];
  }

  // ---------------------------------------------------------------------------
  // Mortal eras
  // ---------------------------------------------------------------------------

  lemma {:induction false} Pow2Monotone(i: nat, j: nat)
    requires i <= j
    ensures Pow2(i) <= Pow2(j)
  {
    if i < j {
      Pow2Monotone(i, j - 1);
    }
  }

  lemma Pow2At12()
    ensures Pow2(12) == 4096
  {
    assert Pow2(4) == 2 * Pow2(3);
    assert Pow2(8) == 2 * Pow2(7);
  }

  lemma Pow2Values()
    ensures Pow2(2) == 4 && Pow2(12) == 4096 && Pow2(16) == 65536
  {
    Pow2At12();
    assert Pow2(14) == 4 * Pow2(12);
    assert Pow2(16) == 4 * Pow2(14);
  }

  lemma {:induction false} Pow2Above12(k: nat)
    ensures Pow2(12 + k) == 4096 * Pow2(k)
  {
    if k == 0 {
      Pow2At12();
    } else {
      Pow2Above12(k - 1);
    }
  }

  function ClampedPeriod(period: u64): (c: nat)
    ensures 4 <= c <= 65536
  {
    Max(4, Min(65536, period))
  }

  /** The exponent of the first power of two from Pow2(k) on that reaches bound. */
  function RoundUpLog(k: nat, bound: nat): (e: nat)
    requires k <= 16 && bound <= 65536
    ensures k <= e <= 16
    decreases 16 - k
  {
    Pow2Values();
    if Pow2(k) >= bound then k else RoundUpLog(k + 1, bound)
  }

  lemma {:induction false} RoundUpLeast(k: nat, bound: nat, j: nat)
    requires k <= 16 && bound <= 65536
    ensures Pow2(RoundUpLog(k, bound)) >= bound
    ensures j >= k && Pow2(j) >= bound ==> RoundUpLog(k, bound) <= j
    decreases 16 - k
  {
    Pow2Values();
    if Pow2(k) < bound {
      RoundUpLeast(k + 1, bound, j);
    }
  }

  function EraLog(period: u64): (e: nat)
    ensures 2 <= e <= 16
  {
    RoundUpLog(2, ClampedPeriod(period))
  }

  function QuantizeFactor(p: nat): (q: nat)
    ensures q >= 1
  {
    Max(1, p / 4096)
  }

  /** The phase of a block within a period of p blocks, in quantization steps. */
  function PhaseSteps(block: nat, p: nat): (steps: nat)
    requires p > 0
  {
    var r: nat := block % p;
    r / QuantizeFactor(p)
  }

  /** The 16 bits of the era, as encode_era_mortal computes them, clamps included. */
  function EraValue(block: u64, period: u64): (value: u16)
  {
    var e := EraLog(period);
    Min(15, e - 1) + 16 * Min(PhaseSteps(block, Pow2(e)), 0xFFF)
  }

  /** The period of an era and the block phase it stands for. */
  function EraPeriodOf(value: u16): nat {
    Pow2(value % 16 + 1)
  }

  function EraPhaseOf(value: u16): nat {
    value / 16 * QuantizeFactor(EraPeriodOf(value))
  }

  /** Quantization loses less than one step. */
  lemma EraPhaseBounds(block: u64, period: u64)
    ensures var p := Pow2(EraLog(period)); var q := QuantizeFactor(p); var steps := PhaseSteps(block, p);
            steps <= 0xFFF && steps * q <= block % p < steps * q + q
  {
    var e := EraLog(period);
    var p := Pow2(e);
    Pow2At12();
    if e <= 12 {
      Pow2Monotone(e, 12);
    } else {
      Pow2Monotone(12, e);
      Pow2Above12(e - 12);
    }
    QuotientBound(block % p, QuantizeFactor(p), 4096);
  }

  /** Neither clamp changes the exponent or the phase it is applied to. */
  lemma EraClampsIdle(block: u64, period: u64)
    ensures EraValue(block, period)
         == EraLog(period) - 1 + 16 * PhaseSteps(block, Pow2(EraLog(period)))
  {
    EraPhaseBounds(block, period);
    hide PhaseSteps, QuantizeFactor, EraLog;
  }

  lemma QuotientBound(r: nat, q: nat, m: nat)
    requires q > 0 && r < m * q
    ensures 0 <= r / q < m && r / q * q <= r < r / q * q + q
  {
    var a := r / q;
    assert r == q * a + r % q;
    MulMono(q, m, a);
  }

  /**
   An emitted mortal era is faithful: its period is the least power of two that reaches the
   clamped period, its phase is the block's phase rounded down by less than one quantization
   step, and its first byte is never the immortal 0x00.
   */
  lemma EraFaithful(block: u64, period: u64, j: nat)
    ensures var value := EraValue(block, period);
            var p := EraPeriodOf(value);
            && 4 <= p <= 65536 && p >= ClampedPeriod(period)
            && (j >= 2 && Pow2(j) >= ClampedPeriod(period) ==> p <= Pow2(j))
            && EraPhaseOf(value) <= block % p < EraPhaseOf(value) + QuantizeFactor(p)
            && ToLE(value, 2)[0] != 0
  {
    hide *;
    EraPhaseBounds(block, period);
    EraFields(block, period);
    EraPeriodLeast(period, j);
  }

  /**
   The same in numbers: the period is the asked one rounded up to a power of two, between 4 and
   65536; the phase is exact up to a period of 4096, and from there on short by less than 1/4096 of it.
   */
  lemma EraExactly(block: u64, period: u64)
    ensures var value := EraValue(block, period); var p := EraPeriodOf(value);
            && (period <= 4 ==> p == 4)
            && (4 < period <= 65536 ==> p / 2 < period <= p)
            && (period > 65536 ==> p == 65536)
            && (p <= 4096 ==> EraPhaseOf(value) == block % p)
            && (p > 4096 ==> EraPhaseOf(value) <= block % p < EraPhaseOf(value) + p / 4096)
  {
    EraFaithful(block, period, 2);
    EraFields(block, period);
    EraRoundsUp(period);
    hide EraValue, EraPeriodOf, EraPhaseOf, EraLog, PhaseSteps, ToLE, Pow2;
  }

  lemma EraRoundsUp(period: u64)
    ensures var p := Pow2(EraLog(period));
            && (period <= 4 ==> p == 4)
            && (4 < period <= 65536 ==> p / 2 < period <= p)
            && (period > 65536 ==> p == 65536)
  {
    var e := EraLog(period);
    EraPeriodLeast(period, 2);
    EraPeriodLeast(period, e - 1);
    Pow2Values();
  }

  lemma EraFields(block: u64, period: u64)
    ensures var value := EraValue(block, period); var p := Pow2(EraLog(period));
            && EraPeriodOf(value) == p
            && EraPhaseOf(value) == PhaseSteps(block, p) * QuantizeFactor(p)
            && ToLE(value, 2)[0] != 0
  {
    hide PhaseSteps, QuantizeFactor, EraLog, EraValue, Pow2, ToLE;
    EraClampsIdle(block, period);
    var p := Pow2(EraLog(period));
    EraBits(EraValue(block, period), EraLog(period), PhaseSteps(block, p));
  }

  lemma EraBits(value: nat, e: nat, steps: nat)
    requires 2 <= e <= 16 && value == e - 1 + 16 * steps
    ensures value % 16 + 1 == e && value / 16 == steps && ToLE(value, 2)[0] != 0
  {
    assert ToLE(value, 2)[0] == value % 256;
  }

  lemma EraPeriodLeast(period: u64, j: nat)
    ensures var p := Pow2(EraLog(period));
            && 4 <= p <= 65536 && p >= ClampedPeriod(period)
            && (j >= 2 && Pow2(j) >= ClampedPeriod(period) ==> p <= Pow2(j))
  {
    var e := EraLog(period);
    RoundUpLeast(2, ClampedPeriod(period), j);
    Pow2Values();
    Pow2Monotone(2, e);
    Pow2Monotone(e, 16);
    if j >= e {
      Pow2Monotone(e, j);
    }
  }
}
