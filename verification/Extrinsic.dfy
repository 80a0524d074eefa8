/**
 The extrinsic envelope: pallet calls, the signed-extension fields, the payload that is signed
 and the length-prefixed unsigned and signed extrinsics, with readers that recover every field.
 */
module Extrinsic {
  import opened Bytes
  import opened Hashing
  import opened Options
  import opened Scale
  import opened ScaleCodec

  datatype PalletCall = PalletCall(pallet: byte, call: byte, args: seq<byte>)

  // The builder's constructor refuses hashes that are not 32 bytes.
  datatype ExtrinsicParams = ExtrinsicParams(
    specVersion: u32,
    txVersion: u32,
    genesisHash: Digest,
    blockHash: Digest,
    nonce: u64,
    tip: u64,
    mortalEra: bool,
    eraBlock: u64,
    eraPeriod: u64)

  type Signature = s: seq<byte> | |s| == 64 witness Zeros(64)

  // crypto_sign_detached: the Ed25519 signature of a message under a secret key.
  type Signer = (seq<byte>, seq<byte>) -> Signature

  datatype Built = Built(extrinsic: seq<byte>) | BadSecretKey | BadPublicKey

  // ---------------------------------------------------------------------------
  // The layout
  // ---------------------------------------------------------------------------

  /** midnight.send_mn_transaction is call 0 of its pallet, with the bytes as its argument. */
  function SendCall(tx: seq<byte>, pallet: byte): PalletCall
    requires |tx| < MAX_SIZE
  {
    PalletCall(pallet, 0x00, Blob(tx).Encoding())
  }

  function CallBytes(call: PalletCall): seq<byte> {
    [call.pallet, call.call] + call.args
  }

  function EraBytes(params: ExtrinsicParams): (b: seq<byte>)
    ensures |b| == 1 || |b| == 2
  {
    if params.mortalEra then ToLE(EraValue(params.eraBlock, params.eraPeriod), 2) else [0x00]
  }

  function ExtraBytes(params: ExtrinsicParams): seq<byte> {
    EraBytes(params) + (CompactEnc(params.nonce) + CompactEnc(params.tip))
  }

  /** What is signed without being sent: versions, genesis and the checkpoint the era counts from. */
  function AdditionalBytes(params: ExtrinsicParams): (b: seq<byte>)
    ensures |b| == 72
  {
    ToLE(params.specVersion, 4) + (ToLE(params.txVersion, 4) + (params.genesisHash + Checkpoint(params)))
  }

  function Checkpoint(params: ExtrinsicParams): Digest {
    if params.mortalEra then params.blockHash else params.genesisHash
  }

  function Payload(params: ExtrinsicParams, call: PalletCall): seq<byte> {
    CallBytes(call) + ExtraBytes(params) + AdditionalBytes(params)
  }

  /** Long payloads are hashed before they are signed. */
  function ToSign(h: Hasher, payload: seq<byte>): seq<byte> {
    if |payload| > 256 then h(payload) else payload
  }

  function UnsignedBody(call: PalletCall): seq<byte> {
    [0x04] + CallBytes(call)
  }

  function SignedBody(
    params: ExtrinsicParams, call: PalletCall, signer: seq<byte>, signature: seq<byte>): seq<byte>
  {
    [0x84] + [0x00] + signer + [0x00] + signature + ExtraBytes(params) + CallBytes(call)
  }

  // ---------------------------------------------------------------------------
  // Building
  // ---------------------------------------------------------------------------

  /** An empty transaction is refused. */
  method MidnightSendMnTransaction(midnightTx: seq<byte>, pallet: byte)
    returns (r: Option<PalletCall>)
    requires |midnightTx| < MAX_SIZE
    ensures r == if midnightTx == [] then None else Some(SendCall(midnightTx, pallet))
  {
    if |midnightTx| == 0 {
      return None;
    }
    var enc := new ScaleEncoder();
    enc.EncodeBytes(midnightTx);
    assert enc.buffer == Blob(midnightTx).Encoding();
    r := Some(PalletCall(pallet, 0x00, enc.buffer));
  }

  method EncodeExtra(params: ExtrinsicParams) returns (extra: seq<byte>)
    ensures extra == ExtraBytes(params)
  {
    var enc := new ScaleEncoder();
    if params.mortalEra {
      enc.EncodeEraMortal(params.eraBlock, params.eraPeriod);
    } else {
      enc.EncodeEraImmortal();
    }
    hide ToLE, EraValue, CompactEnc;
    assert enc.buffer == EraBytes(params);
    enc.EncodeCompact(params.nonce);
    enc.EncodeCompact(params.tip);
    extra := enc.buffer;
  }

  method BuildUnsigned(call: PalletCall) returns (extrinsic: seq<byte>)
    requires |call.args| < MAX_SIZE - 3
    ensures extrinsic == Blob(UnsignedBody(call)).Encoding()
  {
    var body := new ScaleEncoder();
    body.EncodeU8(0x04);
    body.EncodeRaw(CallBytes(call));
    assert body.buffer == UnsignedBody(call);
    extrinsic := body.FinalizeWithLength();
  }

  method EncodeAdditional(params: ExtrinsicParams) returns (additional: seq<byte>)
    ensures additional == AdditionalBytes(params)
  {
    hide ToLE;
    var enc := new ScaleEncoder();
    enc.EncodeU32(params.specVersion);
    enc.EncodeU32(params.txVersion);
    enc.EncodeRaw(params.genesisHash);
    if !params.mortalEra {
      enc.EncodeRaw(params.genesisHash);
    } else {
      enc.EncodeRaw(params.blockHash);
    }
    additional := enc.buffer;
  }

  method BuildSigningPayload(h: Hasher, params: ExtrinsicParams, call: PalletCall)
    returns (payload: seq<byte>)
    ensures payload == ToSign(h, Payload(params, call))
    ensures var raw := CallBytes(call) + ExtraBytes(params) + AdditionalBytes(params);
            (|raw| <= 256 ==> payload == raw) && (|raw| > 256 ==> payload == h(raw))
  {
    hide ExtraBytes, AdditionalBytes;
    var extra := EncodeExtra(params);
    var additional := EncodeAdditional(params);
    payload := CallBytes(call) + extra + additional;
    if |payload| > 256 {
      payload := h(payload);
    }
  }

  method BuildSigned(
    h: Hasher, sign: Signer, params: ExtrinsicParams, call: PalletCall,
    secretKey: seq<byte>, publicKey: seq<byte>) returns (r: Built)
    requires |call.args| < MAX_SIZE - 256
    ensures |secretKey| != 64 ==> r == BadSecretKey
    ensures |secretKey| == 64 && |publicKey| != 32 ==> r == BadPublicKey
    ensures |secretKey| == 64 && |publicKey| == 32 ==>
      var signature := sign(ToSign(h, Payload(params, call)), secretKey);
      r == Built(Blob(SignedBody(params, call, publicKey, signature)).Encoding())
  {
    if |secretKey| != 64 {
      return BadSecretKey;
    }
    if |publicKey| != 32 {
      return BadPublicKey;
    }
    hide ExtraBytes, CompactEnc, CallBytes, Payload;
    var payload := BuildSigningPayload(h, params, call);
    var signature := sign(payload, secretKey);
    var body := new ScaleEncoder();
    body.EncodeU8(0x84);
    assert body.buffer == [0x84];
    body.EncodeU8(0x00);
    body.EncodeRaw(publicKey);
    body.EncodeU8(0x00);
    body.EncodeRaw(signature);
    var extra := EncodeExtra(params);
    body.EncodeRaw(extra);
    body.EncodeRaw(CallBytes(call));
    BodySize(params, call, publicKey, signature);
    var result := body.FinalizeWithLength();
    r := Built(result);
  }

  lemma BodySize(params: ExtrinsicParams, call: PalletCall, signer: seq<byte>, signature: seq<byte>)
    requires |signer| == 32 && |signature| == 64
    ensures |SignedBody(params, call, signer, signature)| <= |call.args| + 121
  {
    hide CompactEnc, EraBytes;
  }

  // ---------------------------------------------------------------------------
  // Reading back
  // ---------------------------------------------------------------------------

  /** A length-prefixed body that fills the data to their last byte. */
  function ReadWhole(data: seq<byte>, off: nat): Option<seq<byte>>
    requires Cursor(data, off)
  {
    match ReadBytes(data, off)
    case Read(body, next) => if next == |data| then Some(body) else None
    case Insufficient(_) => None
    case OutOfRange(_) => None
  }

  function ReadUnsignedSend(data: seq<byte>): Option<(byte, seq<byte>)>
    requires |data| < MAX_SIZE
  {
    match ReadWhole(data, 0)
    case None => None
    case Some(body) =>
      if |body| < 3 || |body| >= MAX_SIZE || body[0] != 0x04 || body[2] != 0x00 then None
      else
        match ReadWhole(body, 3)
        case None => None
        case Some(tx) => Some((body[1], tx))
  }

  lemma WholeRoundTrip(pre: seq<byte>, body: seq<byte>)
    requires |body| < MAX_SIZE && |pre + (CompactEnc(|body|) + body)| < MAX_SIZE
    ensures ReadWhole(pre + (CompactEnc(|body|) + body), |pre|) == Some(body)
  {
    hide CompactEnc, ReadBytes;
    var data := pre + (CompactEnc(|body|) + body);
    assert At(data, |pre|, CompactEnc(|body|) + body);
    BlobRead(body, data, |pre|);
  }

  /**
   Envelope recovery: reading a built extrinsic consumes every byte and gives back the pallet
   and the transaction.
   */
  lemma UnsignedRecovery(tx: seq<byte>, pallet: byte)
    requires |tx| < MAX_SIZE
    requires var body := UnsignedBody(SendCall(tx, pallet));
             |body| < MAX_SIZE && |Blob(body).Encoding()| < MAX_SIZE
    ensures ReadUnsignedSend(Blob(UnsignedBody(SendCall(tx, pallet))).Encoding()) == Some((pallet, tx))
  {
    hide CompactEnc, ReadWhole;
    var body := UnsignedBody(SendCall(tx, pallet));
    var inner := CompactEnc(|tx|) + tx;
    assert [] + (CompactEnc(|body|) + body) == Blob(body).Encoding();
    WholeRoundTrip([], body);
    assert body == [0x04, pallet, 0x00] + inner;
    WholeRoundTrip([0x04, pallet, 0x00], tx);
  }

  /** Distinct transactions, or distinct pallets, give distinct extrinsics. */
  lemma UnsignedInjective(tx: seq<byte>, pallet: byte, tx': seq<byte>, pallet': byte)
    requires |tx| < MAX_SIZE && |tx'| < MAX_SIZE
    requires var body := UnsignedBody(SendCall(tx, pallet));
             |body| < MAX_SIZE && |Blob(body).Encoding()| < MAX_SIZE
    requires var body' := UnsignedBody(SendCall(tx', pallet'));
             |body'| < MAX_SIZE && |Blob(body').Encoding()| < MAX_SIZE
    requires Blob(UnsignedBody(SendCall(tx, pallet))).Encoding()
          == Blob(UnsignedBody(SendCall(tx', pallet'))).Encoding()
    ensures tx == tx' && pallet == pallet'
  {
    hide *;
    UnsignedRecovery(tx, pallet);
    UnsignedRecovery(tx', pallet');
  }

  datatype SignedParts = SignedParts(
    signer: seq<byte>, signature: seq<byte>, era: seq<byte>, nonce: u64, tip: u64, call: seq<byte>)

  /** The era is one byte exactly when that byte is zero. */
  function ReadEra(data: seq<byte>, off: nat): Option<seq<byte>> {
    if off >= |data| then None
    else if data[off] == 0x00 then Some(data[off..off + 1])
    else if off + 2 > |data| then None
    else Some(data[off..off + 2])
  }

  /** Era, nonce, tip and the call bytes that follow them. */
  function ReadTail(data: seq<byte>, off: nat): Option<(seq<byte>, u64, u64, seq<byte>)>
    requires off <= |data| < MAX_SIZE
  {
    match ReadEra(data, off)
    case None => None
    case Some(era) =>
      match ReadCompact(data, off + |era|)
      case Insufficient(_) => None
      case OutOfRange(_) => None
      case Read(nonce, afterNonce) =>
        if afterNonce > |data| then None
        else
          match ReadCompact(data, afterNonce)
          case Insufficient(_) => None
          case OutOfRange(_) => None
          case Read(tip, afterTip) =>
            if afterTip > |data| then None else Some((era, nonce, tip, data[afterTip..]))
  }

  function ReadSigned(data: seq<byte>): Option<SignedParts>
    requires |data| < MAX_SIZE
  {
    match ReadWhole(data, 0)
    case None => None
    case Some(body) =>
      if !(99 <= |body| < MAX_SIZE) || body[0] != 0x84 || body[1] != 0x00 || body[34] != 0x00 then None
      else
        match ReadTail(body, 99)
        case None => None
        case Some(tail) =>
          Some(SignedParts(body[2..34], body[35..99], tail.0, tail.1, tail.2, tail.3))
  }

  lemma EraRead(params: ExtrinsicParams, data: seq<byte>, off: nat)
    requires At(data, off, EraBytes(params))
    ensures ReadEra(data, off) == Some(EraBytes(params))
  {
    EraFaithful(params.eraBlock, params.eraPeriod, 2);
    hide EraValue, ToLE;
    var e := EraBytes(params);
    assert data[off] == data[off..off + |e|][0];
  }

  /** An immortal era is one zero byte; a mortal one says its period and its block's phase. */
  lemma EraOfParams(params: ExtrinsicParams)
    ensures !params.mortalEra ==> EraBytes(params) == [0x00]
    ensures params.mortalEra ==>
      && |EraBytes(params)| == 2 && EraBytes(params)[0] != 0x00
      && FromLE(EraBytes(params)) == EraValue(params.eraBlock, params.eraPeriod)
      && var value := EraValue(params.eraBlock, params.eraPeriod); var p := EraPeriodOf(value);
         4 <= p <= 65536 && p >= ClampedPeriod(params.eraPeriod)
         && EraPhaseOf(value) <= params.eraBlock % p < EraPhaseOf(value) + QuantizeFactor(p)
  {
    if params.mortalEra {
      EraFaithful(params.eraBlock, params.eraPeriod, 2);
      Pow256Values();
      FromToLE(EraValue(params.eraBlock, params.eraPeriod), 2);
      hide EraValue, ToLE, FromLE, EraPeriodOf, EraPhaseOf, QuantizeFactor, ClampedPeriod;
    }
  }

  lemma TailRead(params: ExtrinsicParams, call: seq<byte>, data: seq<byte>, off: nat)
    requires off <= |data| < MAX_SIZE
    requires At(data, off, ExtraBytes(params) + call) && off + |ExtraBytes(params) + call| == |data|
    ensures ReadTail(data, off) == Some((EraBytes(params), params.nonce, params.tip, call))
  {
    hide ReadCompact, CompactEnc, EraBytes, ReadEra;
    var era, n, t := EraBytes(params), CompactEnc(params.nonce), CompactEnc(params.tip);
    AtSplit(data, off, ExtraBytes(params), call);
    AtSplit(data, off, era, n + t);
    AtSplit(data, off + |era|, n, t);
    EraRead(params, data, off);
    CompactRead(params.nonce, data, off + |era|);
    CompactRead(params.tip, data, off + |era| + |n|);
    assert data[off + |ExtraBytes(params)|..] == call;
  }

  /**
   A signed extrinsic gives back its signer, signature, era, nonce, tip and call. That the
   era can be told from its first byte is what EraFaithful contributes.
   */
  lemma SignedRecovery(params: ExtrinsicParams, call: PalletCall, signer: seq<byte>, signature: seq<byte>)
    requires |signer| == 32 && |signature| == 64
    requires var body := SignedBody(params, call, signer, signature);
             |body| < MAX_SIZE && |Blob(body).Encoding()| < MAX_SIZE
    ensures ReadSigned(Blob(SignedBody(params, call, signer, signature)).Encoding())
         == Some(SignedParts(
              signer, signature, EraBytes(params), params.nonce, params.tip, CallBytes(call)))
  {
    hide CompactEnc, ReadWhole, ReadTail, ExtraBytes, EraBytes;
    var body := SignedBody(params, call, signer, signature);
    assert [] + (CompactEnc(|body|) + body) == Blob(body).Encoding();
    WholeRoundTrip([], body);
    SignedSlices(signer, signature, ExtraBytes(params), CallBytes(call));
    TailRead(params, CallBytes(call), body, 99);
  }

  lemma SignedSlices(signer: seq<byte>, signature: seq<byte>, extra: seq<byte>, call: seq<byte>)
    requires |signer| == 32 && |signature| == 64
    ensures var body := [0x84] + [0x00] + signer + [0x00] + signature + extra + call;
            && body[0] == 0x84 && body[1] == 0x00 && body[34] == 0x00
            && body[2..34] == signer && body[35..99] == signature
            && At(body, 99, extra + call)
  {
  }

  // ---------------------------------------------------------------------------
  // What a signature covers
  // ---------------------------------------------------------------------------

  /** Equal texts to sign come from equal payloads, or the hash collides on them. */
  lemma ToSignDetermines(h: Hasher, p: seq<byte>, q: seq<byte>)
    requires |p| > HASH_SIZE && |q| > HASH_SIZE && ToSign(h, p) == ToSign(h, q)
    ensures p == q || Collides(h, p, q)
  {
  }

  lemma SameEnds(a: seq<byte>, x: seq<byte>, b: seq<byte>, y: seq<byte>)
    requires a + x == b + y && |x| == |y|
    ensures a == b && x == y
  {
    assert (a + x)[..|a|] == (b + y)[..|b|];
    assert (a + x)[|a|..] == (b + y)[|b|..];
  }

  lemma SameStarts(a: seq<byte>, x: seq<byte>, b: seq<byte>, y: seq<byte>)
    requires a + x == b + y && |a| == |b|
    ensures a == b && x == y
  {
    assert (a + x)[..|a|] == (b + y)[..|b|];
    assert (a + x)[|a|..] == (b + y)[|b|..];
  }

  /** Under one set of parameters a signature covers the whole call. */
  lemma SignedCallDetermined(h: Hasher, params: ExtrinsicParams, call: PalletCall, call': PalletCall)
    requires ToSign(h, Payload(params, call)) == ToSign(h, Payload(params, call'))
    ensures call == call' || Collides(h, Payload(params, call), Payload(params, call'))
  {
    hide ExtraBytes, AdditionalBytes, ToSign, Collides;
    var p, q := Payload(params, call), Payload(params, call');
    ToSignDetermines(h, p, q);
    if p == q {
      var extra, additional := ExtraBytes(params), AdditionalBytes(params);
      SameEnds(CallBytes(call) + extra, additional, CallBytes(call') + extra, additional);
      SameEnds(CallBytes(call), extra, CallBytes(call'), extra);
      SameStarts([call.pallet, call.call], call.args, [call'.pallet, call'.call], call'.args);
      assert [call.pallet, call.call][0] == call.pallet && [call.pallet, call.call][1] == call.call;
    }
  }

  /** Where each of the fields stands. */
  lemma AdditionalRead(params: ExtrinsicParams)
    ensures var b := AdditionalBytes(params);
            && FromLE(b[..4]) == params.specVersion && FromLE(b[4..8]) == params.txVersion
            && b[8..40] == params.genesisHash
            && b[40..] == if params.mortalEra then params.blockHash else params.genesisHash
  {
    Pow256Values();
    FromToLE(params.specVersion, 4);
    FromToLE(params.txVersion, 4);
    hide ToLE, FromLE;
    var b, s, t := AdditionalBytes(params), ToLE(params.specVersion, 4), ToLE(params.txVersion, 4);
    FourParts(s, t, params.genesisHash, Checkpoint(params));
  }

  lemma FourParts(s: seq<byte>, t: seq<byte>, g: seq<byte>, k: seq<byte>)
    requires |s| == |t| == 4 && |g| == 32
    ensures var b := s + (t + (g + k)); b[..4] == s && b[4..8] == t && b[8..40] == g && b[40..] == k
  {
    var b := s + (t + (g + k));
    assert b[4..] == t + (g + k);
    assert b[8..] == g + k;
    assert b[40..] == k;
  }

  lemma AdditionalDetermines(params: ExtrinsicParams, params': ExtrinsicParams)
    requires AdditionalBytes(params) == AdditionalBytes(params')
    ensures params.specVersion == params'.specVersion && params.txVersion == params'.txVersion
    ensures params.genesisHash == params'.genesisHash && Checkpoint(params) == Checkpoint(params')
  {
    Pow256Values();
    FromToLE(params.specVersion, 4);
    FromToLE(params'.specVersion, 4);
    FromToLE(params.txVersion, 4);
    FromToLE(params'.txVersion, 4);
    hide ToLE, FromLE, Checkpoint;
    var s, t := ToLE(params.specVersion, 4), ToLE(params.txVersion, 4);
    var s', t' := ToLE(params'.specVersion, 4), ToLE(params'.txVersion, 4);
    var g, g' := params.genesisHash + Checkpoint(params), params'.genesisHash + Checkpoint(params');
    SameStarts(s, t + g, s', t' + g');
    SameStarts(t, g, t', g');
    SameStarts(params.genesisHash, Checkpoint(params), params'.genesisHash, Checkpoint(params'));
  }

  /** The call of a sent transaction and the extension fields behind it. */
  function ReadSend(data: seq<byte>): Option<(byte, seq<byte>, seq<byte>, u64, u64, seq<byte>)>
    requires 2 <= |data| < MAX_SIZE
  {
    match ReadBytes(data, 2)
    case Insufficient(_) => None
    case OutOfRange(_) => None
    case Read(tx, next) =>
      if next > |data| then None
      else
        match ReadTail(data, next)
        case None => None
        case Some(tail) => Some((data[0], tx, tail.0, tail.1, tail.2, tail.3))
  }

  lemma SendRead(params: ExtrinsicParams, tx: seq<byte>, pallet: byte)
    requires |tx| < MAX_SIZE && |CallBytes(SendCall(tx, pallet)) + ExtraBytes(params)| < MAX_SIZE
    ensures ReadSend(CallBytes(SendCall(tx, pallet)) + ExtraBytes(params))
         == Some((pallet, tx, EraBytes(params), params.nonce, params.tip, []))
  {
    hide CompactEnc, ReadBytes, ReadTail, ExtraBytes, EraBytes;
    var extra := ExtraBytes(params);
    var blob := CompactEnc(|tx|) + tx;
    var data := CallBytes(SendCall(tx, pallet)) + extra;
    assert data == [pallet, 0x00] + (blob + extra);
    assert At(data, 2, blob) && At(data, 2 + |blob|, extra);
    BlobRead(tx, data, 2);
    assert extra + [] == extra;
    TailRead(params, [], data, 2 + |blob|);
  }

  /**
   A signature under a sent transaction covers the pallet, the transaction, era, nonce, tip, both
   versions, the genesis hash and the checkpoint: with any of them changed the signer would
   have signed something else, unless the hash collides.
   */
  lemma SignatureCoversAll(
    h: Hasher, params: ExtrinsicParams, tx: seq<byte>, pallet: byte,
    params': ExtrinsicParams, tx': seq<byte>, pallet': byte)
    requires |tx| < MAX_SIZE && |Payload(params, SendCall(tx, pallet))| < MAX_SIZE
    requires |tx'| < MAX_SIZE && |Payload(params', SendCall(tx', pallet'))| < MAX_SIZE
    requires ToSign(h, Payload(params, SendCall(tx, pallet)))
          == ToSign(h, Payload(params', SendCall(tx', pallet')))
    ensures
      || Collides(h, Payload(params, SendCall(tx, pallet)), Payload(params', SendCall(tx', pallet')))
      || (&& pallet == pallet' && tx == tx'
          && EraBytes(params) == EraBytes(params')
          && params.nonce == params'.nonce && params.tip == params'.tip
          && params.specVersion == params'.specVersion && params.txVersion == params'.txVersion
          && params.genesisHash == params'.genesisHash && Checkpoint(params) == Checkpoint(params'))
  {
    hide SendCall, CallBytes, ExtraBytes, EraBytes, AdditionalBytes, ToSign, Collides, ReadSend, Checkpoint;
    var p, q := Payload(params, SendCall(tx, pallet)), Payload(params', SendCall(tx', pallet'));
    ToSignDetermines(h, p, q);
    if p == q {
      SameEnds(CallBytes(SendCall(tx, pallet)) + ExtraBytes(params), AdditionalBytes(params),
               CallBytes(SendCall(tx', pallet')) + ExtraBytes(params'), AdditionalBytes(params'));
      AdditionalDetermines(params, params');
      SendRead(params, tx, pallet);
      SendRead(params', tx', pallet');
    }
  }

  /**
   What is checked is what was signed: the parts read from a signed extrinsic, with the chain's
   own versions and hashes, give the signed text back.
   */
  lemma PayloadRebuilt(
    h: Hasher, sign: Signer, params: ExtrinsicParams, call: PalletCall,
    secretKey: seq<byte>, publicKey: seq<byte>)
    requires |publicKey| == 32 && |call.args| < MAX_SIZE - 256
    ensures var signature := sign(ToSign(h, Payload(params, call)), secretKey);
            var parts := ReadSigned(Blob(SignedBody(params, call, publicKey, signature)).Encoding());
            && parts.Some? && parts.value.signer == publicKey
            && parts.value.signature == sign(ToSign(h, PartsPayload(parts.value, params)), secretKey)
  {
    hide CompactEnc, ReadSigned, EraBytes, CallBytes, AdditionalBytes, ToSign;
    var signature := sign(ToSign(h, Payload(params, call)), secretKey);
    BodySize(params, call, publicKey, signature);
    SignedRecovery(params, call, publicKey, signature);
  }

  /** The payload a verifier puts together from the parts and the chain's versions and hashes. */
  function PartsPayload(parts: SignedParts, chain: ExtrinsicParams): seq<byte> {
    parts.call + (parts.era + (CompactEnc(parts.nonce) + CompactEnc(parts.tip))) + AdditionalBytes(chain)
  }
}
