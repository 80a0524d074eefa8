/**
 The stateful codec: an encoder object whose methods append to its buffer and a decoder
 object whose methods move its cursor, each held to the functions of module Scale.
 */
module ScaleCodec {
  import opened Bytes
  import opened Scale

  class ScaleEncoder {
    var buffer: seq<byte>

    constructor ()
      ensures buffer == []
    {
      buffer := [];
    }

    method EncodeU8(value: byte)
      modifies this
      ensures buffer == old(buffer) + U8(value).Encoding()
    {
      buffer := buffer + [value];
    }

    method EncodeU16(value: u16)
      modifies this
      ensures buffer == old(buffer) + U16(value).Encoding()
    {
      EncodeLE(value, 2);
    }

    method EncodeU32(value: u32)
      modifies this
      ensures buffer == old(buffer) + U32(value).Encoding()
    {
      EncodeLE(value, 4);
    }

    method EncodeU64(value: u64)
      modifies this
      ensures buffer == old(buffer) + U64(value).Encoding()
    {
      EncodeLE(value, 8);
    }

    /** The little-endian write loop: byte i is (value >> 8i) & 0xFF. */
    method EncodeLE(value: nat, width: nat)
      modifies this
      ensures buffer == old(buffer) + ToLE(value, width)
    {
      var i := 0;
      while i < width
        invariant i <= width
        invariant buffer == old(buffer) + ToLE(value, i)
      {
        ToLEStep(value, i);
        buffer := buffer + [(value / Pow256(i)) % 256];
        i := i + 1;
      }
    }

    method EncodeCompact(value: u64)
      modifies this
      ensures buffer == old(buffer) + CompactEnc(value)
    {
      if value <= 0x3F {
        buffer := buffer + [value * 4];
      } else if value <= 0x3FFF {
        EncodeLE(value * 4 + 1, 2);
      } else if value <= 0x3FFF_FFFF {
        EncodeLE(value * 4 + 2, 4);
      } else {
        EncodeBigCompact(value);
      }
    }

    /** Big-integer mode: a prefix holding the byte count, then the bytes. */
    method EncodeBigCompact(value: u64)
      requires value > 0x3FFF_FFFF
      modifies this
      ensures buffer == old(buffer) + CompactEnc(value)
    {
      hide *;
      var bytesNeeded := BytesNeeded(value);
      if bytesNeeded < 4 {
        bytesNeeded := 4;
      }
      BigCompactForm(value);
      buffer := buffer + [(bytesNeeded - 4) * 4 + 3];
      EncodeLE(value, bytesNeeded);
    }

    /** Counts how often value can be shifted right by eight bits before it is zero. */
    static method BytesNeeded(value: u64) returns (n: nat)
      ensures n == ByteLen(value) && n <= 8
    {
      n := 0;
      var temp: nat := value;
      while temp > 0
        invariant n + ByteLen(temp) == ByteLen(value)
      {
        n := n + 1;
        temp := temp / 256;
      }
      Pow256Values();
      ByteLenBounds(value, 8);
    }

    /** Sixteen raw bytes, low half first. */
    method EncodeU128(bytes: seq<byte>)
      requires |bytes| == 16
      modifies this
      ensures buffer == old(buffer) + bytes
      ensures buffer == old(buffer) + U128(LE64(bytes[..8]), LE64(bytes[8..])).Encoding()
    {
      ToFromLE(bytes[..8]);
      ToFromLE(bytes[8..]);
      assert bytes == bytes[..8] + bytes[8..];
      buffer := buffer + bytes;
    }

    method EncodeBool(value: bool)
      modifies this
      ensures buffer == old(buffer) + Bool(value).Encoding()
    {
      buffer := buffer + [if value then 1 else 0];
    }

    method EncodeBytes(data: seq<byte>)
      requires |data| < MAX_SIZE
      modifies this
      ensures buffer == old(buffer) + Blob(data).Encoding()
    {
      EncodeCompact(|data|);
      buffer := buffer + data;
    }

    method EncodeString(chars: seq<byte>)
      requires |chars| < MAX_SIZE
      modifies this
      ensures buffer == old(buffer) + Text(chars).Encoding()
    {
      EncodeCompact(|chars|);
      buffer := buffer + chars;
    }

    method EncodeRaw(data: seq<byte>)
      modifies this
      ensures buffer == old(buffer) + data
    {
      buffer := buffer + data;
    }

    method EncodeEraImmortal()
      modifies this
      ensures buffer == old(buffer) + [0x00]
    {
      buffer := buffer + [0x00];
    }

    method EncodeEraMortal(currentBlock: u64, period: u64)
      modifies this
      ensures buffer == old(buffer) + ToLE(EraValue(currentBlock, period), 2)
    {
      var clamped := Max(4, Min(65536, period));
      var p, k := RoundUpPeriod(clamped);
      var quantizeFactor := Max(1, p / 4096);
      var phase := QuantizedPhase(currentBlock, p, quantizeFactor);
      hide PhaseSteps, QuantizeFactor, EraLog, Pow2;
      var periodLog2 := Log2(p, k);
      var nibble := Min(15, periodLog2 - 1);
      var phaseClamped := Min(phase, 0x0FFF);
      EncodeU16(nibble + 16 * phaseClamped);
    }

    static method QuantizedPhase(block: u64, p: nat, quantizeFactor: nat) returns (phase: nat)
      requires p > 0 && quantizeFactor == QuantizeFactor(p)
      ensures phase == PhaseSteps(block, p)
    {
      var r: nat := block % p;
      phase := r / quantizeFactor;
    }

    /** Doubles from 4 until the clamped period is reached. */
    static method RoundUpPeriod(clamped: nat) returns (p: nat, ghost k: nat)
      requires 4 <= clamped <= 65536
      ensures p == Pow2(k) && k == RoundUpLog(2, clamped)
    {
      p := 4;
      k := 2;
      Pow2Values();
      while p < clamped
        invariant 2 <= k <= 16 && p == Pow2(k)
        invariant RoundUpLog(k, clamped) == RoundUpLog(2, clamped)
        decreases 16 - k
      {
        assert k < 16;
        p := p * 2;
        k := k + 1;
      }
    }

    /** Counts how often p can be halved before it is one. */
    static method Log2(p: nat, ghost k: nat) returns (n: nat)
      requires p == Pow2(k)
      ensures n == k
    {
      n := 0;
      var tmp := p;
      while tmp > 1
        invariant n <= k && tmp == Pow2(k - n)
        decreases tmp
      {
        n := n + 1;
        tmp := tmp / 2;
      }
    }

    /** The buffer behind its own compact length. */
    method FinalizeWithLength() returns (result: seq<byte>)
      requires |buffer| < MAX_SIZE
      ensures result == Blob(buffer).Encoding()
    {
      var lengthEncoder := new ScaleEncoder();
      lengthEncoder.EncodeCompact(|buffer|);
      result := lengthEncoder.buffer + buffer;
    }
  }

  class ScaleDecoder {
    const data: seq<byte>
    var offset: nat

    ghost predicate Valid()
      reads this
    {
      Cursor(data, offset)
    }

    constructor (data: seq<byte>)
      requires |data| < MAX_SIZE
      ensures Valid() && this.data == data && offset == 0
    {
      this.data := data;
      offset := 0;
    }

    method DecodeCompact() returns (r: Read<u64>)
      requires Valid()
      modifies this
      ensures r == ReadCompact(data, old(offset)) && offset == r.next && Valid()
    {
      if !Fits(offset, 1, |data|) {
        return Insufficient(offset);
      }
      var first := data[offset];
      if first % 4 == 0 {
        offset := offset + 1;
        r := Read(first / 4, offset);
      } else if first % 4 == 1 {
        if !Fits(offset, 2, |data|) {
          return Insufficient(offset);
        }
        var val := Accumulate(data[offset..offset + 2]);
        offset := offset + 2;
        r := Read(val / 4, offset);
      } else if first % 4 == 2 {
        if !Fits(offset, 4, |data|) {
          return Insufficient(offset);
        }
        var val := Accumulate(data[offset..offset + 4]);
        offset := offset + 4;
        r := Read(val / 4, offset);
      } else {
        var bytesNeeded := first / 4 + 4;
        if !Fits(offset, bytesNeeded, |data|) {
          return Insufficient(offset);
        }
        offset := offset + 1;
        if offset + Min(bytesNeeded, 16) > |data| {
          return OutOfRange(offset);
        }
        var lo := Accumulate(data[offset..offset + Min(bytesNeeded, 8)]);
        offset := offset + bytesNeeded;
        r := Read(lo, offset);
      }
    }

    /** The little-endian read loop: byte i is or-ed in at bit 8i. */
    static method Accumulate(bytes: seq<byte>) returns (val: u64)
      requires |bytes| <= 8
      ensures val == LE64(bytes)
    {
      var acc: nat := 0;
      var i := 0;
      while i < |bytes|
        invariant i <= |bytes|
        invariant acc == FromLE(bytes[..i])
      {
        FromLEStep(bytes[..i], bytes[i]);
        assert bytes[..i + 1] == bytes[..i] + [bytes[i]];
        acc := acc + bytes[i] * Pow256(i);
        i := i + 1;
      }
      assert bytes[..i] == bytes;
      assert acc == LE64(bytes);
      val := acc;
    }

    method DecodeU8() returns (r: Read<Item>)
      requires Valid()
      modifies this
      ensures r == ReadItem(KU8, data, old(offset)) && offset == r.next && Valid()
    {
      if !Fits(offset, 1, |data|) {
        return Insufficient(offset);
      }
      offset := offset + 1;
      r := Read(U8(data[offset - 1]), offset);
    }

    method DecodeU16() returns (r: Read<Item>)
      requires Valid()
      modifies this
      ensures r == ReadItem(KU16, data, old(offset)) && offset == r.next && Valid()
    {
      if !Fits(offset, 2, |data|) {
        return Insufficient(offset);
      }
      var val := Accumulate(data[offset..offset + 2]);
      LEBound(data[offset..offset + 2]);
      offset := offset + 2;
      r := Read(U16(val), offset);
    }

    method DecodeU32() returns (r: Read<Item>)
      requires Valid()
      modifies this
      ensures r == ReadItem(KU32, data, old(offset)) && offset == r.next && Valid()
    {
      if !Fits(offset, 4, |data|) {
        return Insufficient(offset);
      }
      var val := Accumulate(data[offset..offset + 4]);
      LEBound(data[offset..offset + 4]);
      offset := offset + 4;
      r := Read(U32(val), offset);
    }

    method DecodeU64() returns (r: Read<Item>)
      requires Valid()
      modifies this
      ensures r == ReadItem(KU64, data, old(offset)) && offset == r.next && Valid()
    {
      if !Fits(offset, 8, |data|) {
        return Insufficient(offset);
      }
      var val := Accumulate(data[offset..offset + 8]);
      offset := offset + 8;
      r := Read(U64(val), offset);
    }

    method DecodeU128() returns (r: Read<Item>)
      requires Valid()
      modifies this
      ensures r == ReadItem(KU128, data, old(offset)) && offset == r.next && Valid()
    {
      if !Fits(offset, 16, |data|) {
        return Insufficient(offset);
      }
      var lo := Accumulate(data[offset..offset + 8]);
      var hi := Accumulate(data[offset + 8..offset + 16]);
      offset := offset + 16;
      r := Read(U128(lo, hi), offset);
    }

    method DecodeBool() returns (r: Read<Item>)
      requires Valid()
      modifies this
      ensures r == ReadItem(KBool, data, old(offset)) && offset == r.next && Valid()
    {
      var b := DecodeU8();
      match b
      case Read(item, next) => r := Read(Bool(item.b != 0), next);
      case Insufficient(next) => r := Insufficient(next);
    }

    method DecodeRaw(len: nat) returns (r: Read<seq<byte>>)
      requires Valid()
      modifies this
      ensures r == ReadRaw(data, old(offset), len) && offset == r.next && Valid()
    {
      if !Fits(offset, len, |data|) {
        return Insufficient(offset);
      }
      if offset + len > |data| {
        return OutOfRange(offset);
      }
      offset := offset + len;
      r := Read(data[offset - len..offset], offset);
    }

    method DecodeBytes() returns (r: Read<seq<byte>>)
      requires Valid()
      modifies this
      ensures r == ReadBytes(data, old(offset)) && offset == r.next && Valid()
    {
      var len := DecodeCompact();
      match len
      case Read(n, next) => r := DecodeRaw(n);
      case Insufficient(next) => r := Insufficient(next);
      case OutOfRange(next) => r := OutOfRange(next);
    }
  }
}
