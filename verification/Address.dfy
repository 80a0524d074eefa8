/**
 Midnight addresses: unshielded, shielded and dust payloads under human-readable parts that
 name the kind and the network.
 */
module Address {
  import opened Ascii
  import opened Bytes
  import opened Options
  import opened Bech32m

  datatype Network = Mainnet | Preview | PreProd | Testnet | DevNet | QaNet | Undeployed
  datatype Kind = Unshielded | Shielded | Dust

  function NetworkName(network: Network): string {
    match network
    case Mainnet => "mainnet"
    case Preview => "preview"
    case PreProd => "preprod"
    case Testnet => "testnet"
    case DevNet => "devnet"
    case QaNet => "qanet"
    case Undeployed => "undeployed"
  }

  function KindName(kind: Kind): string {
    match kind
    case Unshielded => "addr"
    case Shielded => "shield-addr"
    case Dust => "dust"
  }

  function GetHrp(kind: Kind, network: Network): string {
    var hrp := "mn_" + KindName(kind);
    if network == Mainnet then hrp else hrp + "_" + NetworkName(network)
  }

  // ---------------------------------------------------------------------------
  // Encoders: None is the exception thrown for a payload of the wrong size
  // ---------------------------------------------------------------------------

  function EncodeUnshielded(pubkey: seq<byte>, network: Network): Option<string> {
    if |pubkey| != 32 then None else Some(Encode(GetHrp(Unshielded, network), pubkey))
  }

  function EncodeShielded(coin: seq<byte>, enc: seq<byte>, network: Network): Option<string> {
    if |coin| != 32 || |enc| != 32 then None
    else Some(Encode(GetHrp(Shielded, network), coin + enc))
  }

  /** The prefix byte: a size_t difference, shifted, or-ed with 3 and cut to a byte. */
  function DustPrefix(size: nat): byte {
    ((size - 4) % TWO_64 * 4 + 3) % 256
  }

  function EncodeDust(scalar: seq<byte>, network: Network): Option<string> {
    if scalar == [] then None
    else Some(Encode(GetHrp(Dust, network), [DustPrefix(|scalar|)] + scalar))
  }

  // ---------------------------------------------------------------------------
  // Decoders
  // ---------------------------------------------------------------------------

  function DecodeUnshielded(address: string): Option<seq<byte>> {
    match Decode(address)
    case Rejected(_) => None
    case Decoded(hrp, data) =>
      if !("mn_addr" <= hrp) || |data| != 32 then None else Some(data)
  }

  function DecodeShielded(address: string): Option<(seq<byte>, seq<byte>)> {
    match Decode(address)
    case Rejected(_) => None
    case Decoded(hrp, data) =>
      if !("mn_shield-addr" <= hrp) || |data| != 64 then None else Some((data[..32], data[32..]))
  }

  function DecodeDust(address: string): Option<seq<byte>> {
    match Decode(address)
    case Rejected(_) => None
    case Decoded(hrp, data) =>
      if !("mn_dust" <= hrp) || |data| < 33 then None else Some(data[1..])
  }

  // ---------------------------------------------------------------------------
  // Human-readable parts
  // ---------------------------------------------------------------------------

  predicate Plain(s: string) {
    forall i :: 0 <= i < |s| ==> !IsUpper(s[i])
  }

  lemma PlainConcat(a: string, b: string)
    requires Plain(a) && Plain(b)
    ensures Plain(a + b)
  {
  }

  lemma NamesPlain(kind: Kind, network: Network)
    ensures Plain("mn_") && Plain("_") && Plain(KindName(kind)) && Plain(NetworkName(network))
  {
  }

  lemma HrpPlain(kind: Kind, network: Network)
    ensures GetHrp(kind, network) != "" && !HasUpper(GetHrp(kind, network))
  {
    NamesPlain(kind, network);
    hide KindName, NetworkName, IsUpper;
    var hrp := "mn_" + KindName(kind);
    PlainConcat("mn_", KindName(kind));
    PlainConcat(hrp, "_");
    PlainConcat(hrp + "_", NetworkName(network));
  }

  /** Which decoder's prefix test an HRP passes: only that of its own kind. */
  lemma HrpKind(kind: Kind, network: Network)
    ensures var hrp := GetHrp(kind, network);
            && ("mn_addr" <= hrp <==> kind == Unshielded)
            && ("mn_shield-addr" <= hrp <==> kind == Shielded)
            && ("mn_dust" <= hrp <==> kind == Dust)
  {
    var hrp := GetHrp(kind, network);
    assert hrp[3] == KindName(kind)[0];
    assert "mn_addr"[3] == 'a' && "mn_shield-addr"[3] == 's' && "mn_dust"[3] == 'd';
    assert "mn_" + "addr" == "mn_addr" && "mn_" + "shield-addr" == "mn_shield-addr";
    assert "mn_" + "dust" == "mn_dust";
    assert "mn_" + KindName(kind) <= hrp;
  }

  /** The parts in use, written out. */
  lemma HrpTable()
    ensures GetHrp(Unshielded, Mainnet) == "mn_addr" && GetHrp(Unshielded, Preview) == "mn_addr_preview"
    ensures GetHrp(Unshielded, PreProd) == "mn_addr_preprod" && GetHrp(Unshielded, Testnet) == "mn_addr_testnet"
    ensures GetHrp(Unshielded, DevNet) == "mn_addr_devnet" && GetHrp(Unshielded, QaNet) == "mn_addr_qanet"
    ensures GetHrp(Unshielded, Undeployed) == "mn_addr_undeployed"
    ensures GetHrp(Shielded, Mainnet) == "mn_shield-addr" && GetHrp(Shielded, Preview) == "mn_shield-addr_preview"
    ensures GetHrp(Dust, Mainnet) == "mn_dust" && GetHrp(Dust, Undeployed) == "mn_dust_undeployed"
  {
  }

  /** Payloads of any other size get no address. */
  lemma EncodersRefuse(pubkey: seq<byte>, coin: seq<byte>, enc: seq<byte>, scalar: seq<byte>, network: Network)
    ensures EncodeUnshielded(pubkey, network).Some? <==> |pubkey| == 32
    ensures EncodeShielded(coin, enc, network).Some? <==> |coin| == |enc| == 32
    ensures EncodeDust(scalar, network).Some? <==> |scalar| > 0
  {
    hide Encode, GetHrp;
  }

  lemma NetworkNamesDiffer(a: Network, b: Network)
    requires NetworkName(a) == NetworkName(b)
    ensures a == b
  {
    assert |NetworkName(a)| == |NetworkName(b)|;
    assert NetworkName(a)[0] == NetworkName(b)[0] && NetworkName(a)[3] == NetworkName(b)[3];
  }

  lemma HrpNetwork(kind: Kind, a: Network, b: Network)
    requires GetHrp(kind, a) == GetHrp(kind, b)
    ensures a == b
  {
    hide KindName, NetworkName;
    var base := "mn_" + KindName(kind);
    if a != Mainnet && b != Mainnet {
      assert GetHrp(kind, a)[|base| + 1..] == NetworkName(a);
      assert GetHrp(kind, b)[|base| + 1..] == NetworkName(b);
      NetworkNamesDiffer(a, b);
    }
  }

  lemma DecodesTo(kind: Kind, network: Network, data: seq<byte>)
    ensures Decode(Encode(GetHrp(kind, network), data)) == Decoded(GetHrp(kind, network), data)
  {
    HrpPlain(kind, network);
    EncodeDecode(GetHrp(kind, network), data);
  }

  // ---------------------------------------------------------------------------
  // Round trips and rejection
  // ---------------------------------------------------------------------------

  /** An unshielded address gives back its key; the other two decoders refuse it. */
  lemma UnshieldedRoundTrip(pubkey: seq<byte>, network: Network)
    requires |pubkey| == 32
    ensures var a := EncodeUnshielded(pubkey, network);
            && a.Some? && DecodeUnshielded(a.value) == Some(pubkey)
            && DecodeShielded(a.value) == None && DecodeDust(a.value) == None
  {
    hide GetHrp, Encode, Decode;
    DecodesTo(Unshielded, network, pubkey);
    HrpKind(Unshielded, network);
  }

  lemma ShieldedRoundTrip(coin: seq<byte>, enc: seq<byte>, network: Network)
    requires |coin| == 32 && |enc| == 32
    ensures var a := EncodeShielded(coin, enc, network);
            && a.Some? && DecodeShielded(a.value) == Some((coin, enc))
            && DecodeUnshielded(a.value) == None && DecodeDust(a.value) == None
  {
    hide GetHrp, Encode, Decode;
    DecodesTo(Shielded, network, coin + enc);
    HrpKind(Shielded, network);
    assert (coin + enc)[..32] == coin && (coin + enc)[32..] == enc;
  }

  /**
   A dust scalar of any positive length is encoded, but decoding gives it back exactly when it
   has at least 32 bytes: the decoder refuses shorter ones.
   */
  lemma DustRoundTrip(scalar: seq<byte>, network: Network)
    requires scalar != []
    ensures var a := EncodeDust(scalar, network);
            && a.Some?
            && (DecodeDust(a.value) == Some(scalar) <==> |scalar| >= 32)
            && DecodeUnshielded(a.value) == None && DecodeShielded(a.value) == None
  {
    hide GetHrp, Encode, Decode;
    var data := [DustPrefix(|scalar|)] + scalar;
    DecodesTo(Dust, network, data);
    HrpKind(Dust, network);
    assert data[1..] == scalar;
  }

  /** For the 32-byte scalars in use the prefix is the SCALE big-integer prefix of 32 bytes. */
  lemma DustPrefixOf32()
    ensures DustPrefix(32) == 0x73
  {
  }

  /** What the three encoders write: a kind, a network and the bytes behind the HRP. */
  datatype Payload =
    | UnshieldedKey(pubkey: seq<byte>)
    | ShieldedKeys(coin: seq<byte>, enc: seq<byte>)
    | DustScalar(scalar: seq<byte>)

  function EncodePayload(p: Payload, network: Network): Option<string> {
    match p
    case UnshieldedKey(k) => EncodeUnshielded(k, network)
    case ShieldedKeys(c, e) => EncodeShielded(c, e, network)
    case DustScalar(s) => EncodeDust(s, network)
  }

  function KindOf(p: Payload): Kind {
    match p
    case UnshieldedKey(_) => Unshielded
    case ShieldedKeys(_, _) => Shielded
    case DustScalar(_) => Dust
  }

  function DataOf(p: Payload): seq<byte> {
    match p
    case UnshieldedKey(k) => k
    case ShieldedKeys(c, e) => c + e
    case DustScalar(s) => [DustPrefix(|s|)] + s
  }

  lemma EncodedAs(p: Payload, network: Network)
    requires EncodePayload(p, network).Some?
    ensures Decode(EncodePayload(p, network).value) == Decoded(GetHrp(KindOf(p), network), DataOf(p))
  {
    hide Encode, Decode, GetHrp;
    DecodesTo(KindOf(p), network, DataOf(p));
  }

  /** No two payloads, and no two networks, ever share an address. */
  lemma AddressesInjective(p: Payload, a: Network, q: Payload, b: Network)
    requires EncodePayload(p, a).Some? && EncodePayload(p, a) == EncodePayload(q, b)
    ensures p == q && a == b
  {
    hide Encode, Decode, GetHrp;
    EncodedAs(p, a);
    EncodedAs(q, b);
    HrpKind(KindOf(p), a);
    HrpKind(KindOf(q), b);
    HrpNetwork(KindOf(p), a, b);
    DataInjective(p, a, q);
  }

  lemma DataInjective(p: Payload, a: Network, q: Payload)
    requires EncodePayload(p, a).Some? && EncodePayload(q, a).Some?
    requires KindOf(p) == KindOf(q) && DataOf(p) == DataOf(q)
    ensures p == q
  {
    hide Encode, GetHrp;
    match p
    case UnshieldedKey(k) =>
    case ShieldedKeys(c, e) =>
      assert DataOf(p)[..32] == c && DataOf(p)[32..] == e;
      assert DataOf(q)[..32] == q.coin && DataOf(q)[32..] == q.enc;
    case DustScalar(s) =>
      assert DataOf(p)[1..] == s && DataOf(q)[1..] == q.scalar;
  }
}
