# Midnight C++ client: a verified model of its algorithms

This project models the parts of a C++ client library for the Midnight blockchain that compute
rather than communicate, and proves what they are for. There is one module per source component.

| module | component |
|---|---|
| `Modular`, `Curve`, `Ecdsa`, `Schnorr` | the two secp256k1 signers, over a group of prime order whose points are their discrete logarithms |
| `Polymod`, `Words`, `Bech32m`, `Address` | Bech32m (BIP-350, checksum of BIP-173) and the three kinds of wallet address |
| `Merkle`, `Text`, `MerkleJson`, `MerkleLoop` | the Merkle tree, its proofs, their textual form, and the parser's sibling loop turn by turn |
| `WalletAccounting`, `WalletStream`, `WalletScan` | wallet totals folded from events and recomputed by a scan |
| `Finality` | the waits for inclusion and finality against a forking node |
| `Scale`, `ScaleCodec`, `Extrinsic` | the SCALE codec (Polkadot Protocol Specification, section A.2.2.1) and the extrinsic envelope |
| `Reservations`, `Inputs`, `Selection` | reservations, duplicate inputs and selection of unspent outputs |
| `Chain` | the hash-linked chain, its index and the block preimage |
| `Bytes`, `Hashing`, `Ascii`, `Options` | machine integers, radix-256 numerals, digests, letter case |

Objects whose methods update fields are classes, each held by its `ensures` to functions of the old
state; loops are loops with invariants. Machine integers wrap where C++ wraps: sums and products are
written modulo 2^64 or 2^32, and the 32-bit accumulator of the word regrouping is a bounded integer
that wraps.

What the model takes as given:

- A hash function is a parameter. That it has no collisions is never assumed, since no function to
  32 bytes is injective. Where a result rests on it, the lemma names the two inputs that would
  collide. Where the code needs no such thing, there is no such alternative.
- A curve is any cyclic group of odd prime order up to 2^256 in which a point and its negation share
  x and differ in the parity of y, and in which x and parity determine the point.
  `Curve.FoldedLineValid` shows that these laws have a model for every odd prime. The order in the
  `Schnorr` constant and the order of the group object are the same number.
- Clocks, random bytes, remote answers and the Ed25519 signing function are parameters. The finality wait takes
  the states of the node behind the answers as ghost arguments, and any import, fork, reorganisation
  or finalization may happen between two calls.
- No vector or string reaches 2^63 elements.

## Where the code and its documentation differ

The model follows the code.

- src/codec/scale_codec.cpp:313-315: the comment announces a check before the advance, but the check
  leaves out the prefix byte. A read past the end of the data is an outcome of its own (`OutOfRange`),
  and `Scale.CompactGuardExact` states exactly when it arises. The meant bound is prefix plus payload.
- src/wallet/bech32m.cpp:129-132: padding bits are looked at and then ignored. `Bech32m.DecodeEncode`
  therefore holds exactly for canonical padding; `Bech32m.PaddingSample` is a string it fails for.
- src/wallet/bech32m.cpp:353-367: a dust scalar shorter than 32 bytes is encoded but refused when decoded.
- src/crypto/merkle_tree.cpp:157-176: a path also has a sibling for the root's own level when that
  level is stored. `Merkle.PathVerifies` uses the siblings below it, and `Merkle.WholePathVerifies`
  says what the whole path verifies.
- src/crypto/merkle_tree.cpp:296-307: the position behind a missing closing quote is npos + 1, which
  is 0, so the sibling loop starts over. The model gives that the outcome `Stuck`.
  `MerkleLoop.StuckExactly` says for which texts it arises (an odd number of quotes among the siblings),
  `MerkleLoop.LoopEndsExactly` that the loop is then never left, `MerkleLoop.OutgrowsExactly` that it
  collects without bound exactly when a pass over the text meets a 32-byte sibling. In that case the
  vector at last fails to grow and the parser returns nothing; in the other it spins. The memory at
  which growing fails is not part of the model.
- src/blockchain/block.cpp:68-77: a block's hash is meant to commit to its transactions, but their texts
  run together. `Chain.FieldsSeeText` says what the preimage tells apart, `Chain.TransactionsDetermined`
  and `Chain.UniformExactly` that lists of hashes of one length are told apart.
- src/utxo-transactions/utxo_transactions.cpp:1195-1206: the size sum can wrap before it is cut to 32
  bits (`Selection.SizeCanWrap`). `Selection.FeeExact` says what the fee is when it does not.
- src/utxo-transactions/utxo_transactions.cpp:880-892: the validator compares printed keys, the builder
  outpoints without prefix. `Inputs.DuplicateChecksDiffer` says for which lists the two disagree.
- src/network/indexer_client.cpp:505-614: an amount that does not parse ends the scan, and what was
  found before it is returned as if it were everything.
- src/network/graphql_subscription.cpp:798-806 and src/network/indexer_client.cpp:33-36: a token type
  "0x" is NIGHT to the stream and nothing to the scan. `WalletScan.FoldIsScan` carries the difference.
- src/network/graphql_subscription.cpp:687-694: no balance callback fires for a spend, so the realtime
  client's balances lag. `WalletStream.ShownLags` says by how much.
- src/blockchain/chain_manager.cpp:36-38 and 72: a block is validated while its mutex is already held.
  Validation is modelled without the lock.
- include/midnight/crypto/bip340_signer.hpp:28-37 and src/crypto/bip340_signer.cpp:239-245: the comments
  promise BIP-340 and keep bit 0 of the last byte. The code clears both low bits, hashes the challenge
  with a plain SHA-256, and tries both parities of the key.
- src/crypto/ecdsa_signer.cpp:398: a private key is stored before it is checked, so a refused key stays
  behind. `Ecdsa.EcdsaSigner.SignRaw` says that nothing wrong is ever signed with it.

## Model

| member | source | states |
|---|---|---|
| Modular.InverseExists | src/crypto/ecdsa_signer.cpp:231-232 | modulo a prime every non-zero number has the inverse the signer asks for, by Euclid's descent |
| Curve.SameX | src/crypto/ecdsa_signer.cpp:218-229 | two points with one x-coordinate are equal or opposite |
| Curve.FoldedLineValid | src/crypto/ecdsa_signer.cpp:31-34 | the laws assumed of the group have a model of every odd prime order |
| Ecdsa.DerivePublicKey | src/crypto/ecdsa_signer.cpp:134-175 | a scalar in [1, n-1], and no other, gets a compressed key, and that key decompresses to the scalar's point |
| Ecdsa.KeyDecompresses | src/crypto/ecdsa_signer.cpp:319-328 | decompressing the compressed key of d gives d's point, for both parities |
| Ecdsa.SignHash | src/crypto/ecdsa_signer.cpp:177-256 | succeeds exactly when key, nonce, r and e + rd are all non-zero and the key is in range; then r is the nonce point's x, s is at most n/2, and s or n-s solves sk = e + rd; which error is given when |
| Ecdsa.SIsQuotient | src/crypto/ecdsa_signer.cpp:231-241 | the computed s satisfies sk = e + rd and is zero only when e + rd is |
| Ecdsa.VerifyHash | src/crypto/ecdsa_signer.cpp:287-358 | accepts exactly when r and s are in range, the key decompresses and some point K with x-coordinate r satisfies sK = eG + rQ; no inverse is mentioned |
| Ecdsa.VerificationPoint | src/crypto/ecdsa_signer.cpp:332-357 | the point the verifier computes decides whether that equation has a solution at all |
| Ecdsa.ComputedPoint | src/crypto/ecdsa_signer.cpp:332-357 | u1 G + u2 Q is the only point that can solve the equation |
| Ecdsa.NegateS | src/crypto/ecdsa_signer.cpp:243-250 | replacing s by n-s negates the nonce point and keeps its x |
| Ecdsa.LowSignedVerifies | src/crypto/ecdsa_signer.cpp:177-256 | completeness: every low-S signature verifies under its key, whether or not s was replaced |
| Ecdsa.VerifiesExactly | src/crypto/ecdsa_signer.cpp:287-358 | (r, s) verifies under d if and only if some nonce makes d sign (r, min(s, n-s)) |
| Ecdsa.SignatureUnique | src/crypto/ecdsa_signer.cpp:211-256 | key, hash and nonce determine the signature |
| Ecdsa.DeterministicNonce | src/crypto/ecdsa_signer.cpp:90-132 | the nonce is the first usable of the 256 candidates a one-byte counter can give, or the random bytes when none is usable |
| Ecdsa.CandidateDetermines | src/crypto/ecdsa_signer.cpp:98-131 | equal nonce candidates come from one private key, one digest, one message and one counter, or the texts hashed for them collide |
| Ecdsa.NonceDetermines | src/crypto/ecdsa_signer.cpp:90-132 | two signing calls that come to one nonce had one key and one message, unless texts collide or one of the two had no usable candidate |
| Ecdsa.NonceIsScalar | src/crypto/ecdsa_signer.cpp:113-131 | a nonce that is not the random bytes is the hash of key, digest, message and a counter, lies in [2, n-1] and is used unreduced |
| Ecdsa.EcdsaSigner.constructor | src/crypto/ecdsa_signer.cpp:361-361 | a new signer has no key |
| Ecdsa.EcdsaSigner.SetPrivateKey | src/crypto/ecdsa_signer.cpp:397-401 | a good key replaces both keys; a bad one stays behind with the old public key, and the invariant survives |
| Ecdsa.EcdsaSigner.SignRaw | src/crypto/ecdsa_signer.cpp:411-432 | whatever is signed is low-S, comes from the deterministic nonce and verifies under the stored public key, also after a refused key change |
| Ecdsa.EcdsaSigner.VerifyRaw | src/crypto/ecdsa_signer.cpp:440-458 | verification of the message's hash |
| Schnorr.ClampedIsScalar | src/crypto/bip340_signer.cpp:243-252 | a clamped key is a valid scalar of secp256k1 exactly when it is not zero |
| Schnorr.ClampExactly | src/crypto/bip340_signer.cpp:243-245 | clamping clears the first byte's top bit and the last byte's two low bits, and changes nothing else |
| Schnorr.OrderWritten | src/crypto/bip340_signer.cpp:26-31 | the order is the big-endian number of the bytes it is given in |
| Schnorr.IsZero | src/crypto/bip340_signer.cpp:247-252 | the byte loop finds exactly the numeral 0 |
| Schnorr.DerivePubkey | src/crypto/bip340_signer.cpp:129-163 | the x-only key, unchanged by the negation to odd y; zeros at infinity |
| Schnorr.Bip340Signer.constructor | src/crypto/bip340_signer.cpp:219-219 | a new signer has no key |
| Schnorr.Bip340Signer.SetKey | src/crypto/bip340_signer.cpp:238-257 | refuses exactly the keys that clamp to zero and then changes nothing; otherwise stores the clamped key, a scalar of secp256k1, and its x-only key |
| Schnorr.Sign | src/crypto/bip340_signer.cpp:279-375 | fails exactly for a nonce at infinity; otherwise prints R's x and the response of the even-y nonce to the challenge, and the verifier accepts that text |
| Schnorr.Bip340Signer.SignMessage | src/crypto/bip340_signer.cpp:279-375 | the same for the stored key, whatever it is, on secp256k1; without a key there is no signature |
| Schnorr.SignatureAccepted | src/crypto/bip340_signer.cpp:400-504 | completeness: for both parities of the key point and of the nonce point, through hex printing and parsing, the signature is accepted |
| Schnorr.EvenResponseBalances | src/crypto/bip340_signer.cpp:461-499 | one of the two lifts of the key gives back a point with R's x |
| Schnorr.BalancedExactly | src/crypto/bip340_signer.cpp:461-499 | what is accepted under the x of d is exactly the responses of d or n-d for a nonce point of that x, of either parity, infinity standing for x = 0 |
| Schnorr.ChallengeReads | src/crypto/bip340_signer.cpp:318-322 | the challenge is the reduced hash of 96 bytes: R's x, the key's x, and the message's hash under the tag |
| Schnorr.ChallengeTextDetermines | src/crypto/bip340_signer.cpp:425-429 | such a text determines R's x, the key and the message, or two messages collide under the tag |
| Schnorr.AcceptsExactly | src/crypto/bip340_signer.cpp:400-504 | as texts: accepted under the key of d is exactly what parses to an rx and an answer, by d or n-d, to the challenge of rx, key and message |
| Schnorr.AcceptedTwice | src/crypto/bip340_signer.cpp:461-499 | a signature accepted for two challenges fixes the second from the first up to signs |
| Schnorr.AcceptedForTwo | src/crypto/bip340_signer.cpp:400-504 | so a signature is accepted for a second message only if that message's challenge is one of the few numbers the first fixes |
| Schnorr.InfinityPasses | src/crypto/bip340_signer.cpp:486-493 | the point at infinity passes for an rx of zero |
| Schnorr.InputExactly | src/crypto/bip340_signer.cpp:400-422 | which signature and key texts parse: exact lengths behind one optional prefix, and no second prefix where a part begins |
| Schnorr.UnreadablePair | src/crypto/bip340_signer.cpp:78-82 | a pair that begins with no digit is read as zero |
| Schnorr.VerifySignature | src/crypto/bip340_signer.cpp:400-504 | true exactly when the texts have the right lengths, parse, and balance for one of the lifts |
| Schnorr.TryBothParities | src/crypto/bip340_signer.cpp:463-499 | the loop over parities with its flag computes the disjunction over both lifts |
| Schnorr.HexToBytes | src/crypto/bip340_signer.cpp:72-84 | reads as many bytes as asked or fails on the length; a pair the stream cannot read is 0 |
| Schnorr.ParsedHexOfHex | src/crypto/bip340_signer.cpp:369-374 | printed bytes are read back |
| Polymod.Run | src/wallet/bech32m.cpp:44-56 | the loop folds the register's step over the symbols from 1 |
| Polymod.StepInPlace | src/wallet/bech32m.cpp:46-54 | five conditional xors in order compute the step |
| Polymod.StepLinear | src/wallet/bech32m.cpp:46-54 | a step is linear over GF(2) in register and symbol together |
| Polymod.ZeroStepInjective | src/wallet/bech32m.cpp:46-54 | a step on a zero symbol sends a 30-bit register to zero only from zero |
| Polymod.BurstDetected | src/wallet/bech32m.cpp:44-56 | strings of equal length that differ only within six consecutive symbols end in different registers, from any register |
| Polymod.ChecksumCompletes | src/wallet/bech32m.cpp:71-81 | the six symbols cut from the register complete it to the constant |
| Polymod.ChecksumUnique | src/wallet/bech32m.cpp:83-87 | no other six symbols do |
| Words.RunToWords | src/wallet/bech32m.cpp:91-110 | the wrapping accumulator computes the exact base-32 regrouping, zero-padded |
| Words.RunFromWords | src/wallet/bech32m.cpp:112-134 | refuses exactly the values of more than five bits, and otherwise computes the exact base-256 regrouping |
| Words.WordsRoundTrip | src/wallet/bech32m.cpp:91-134 | regrouping to words and back loses nothing |
| Words.WordsCanonical | src/wallet/bech32m.cpp:112-134 | the other way round it gives the words back exactly when fewer than five bits are left over and they are zero |
| Bech32m.RunExpandHrp | src/wallet/bech32m.cpp:58-69 | high bits, a zero, low bits of every character |
| Bech32m.ExpandExactly | src/wallet/bech32m.cpp:58-69 | the high three and the low five bits of a character's code stand at fixed places and give the code back |
| Bech32m.RunCreateChecksum | src/wallet/bech32m.cpp:71-81 | computes the six checksum symbols |
| Bech32m.RunVerifyChecksum | src/wallet/bech32m.cpp:83-87 | computes the checksum test |
| Bech32m.ChecksumVerifies | src/wallet/bech32m.cpp:71-87 | a created checksum always verifies |
| Bech32m.ChecksumDetermined | src/wallet/bech32m.cpp:71-87 | it is the only one that does |
| Bech32m.BurstsDetected | src/wallet/bech32m.cpp:83-87 | under one HRP two different strings of equal length that differ only within six consecutive symbols cannot both verify, at any length |
| Bech32m.SingleErrorsDetected | src/wallet/bech32m.cpp:83-87 | one substituted symbol or two exchanged neighbours are always noticed |
| Bech32m.RunEncode | src/wallet/bech32m.cpp:136-152 | builds HRP, separator and characters |
| Bech32m.RunDecode | src/wallet/bech32m.cpp:154-206 | every branch of the parser, with its error |
| Bech32m.AcceptedExactly | src/wallet/bech32m.cpp:154-206 | accepted are exactly the strings that do not mix letter cases and are, in lower case, a non-empty HRP, the separator, symbols and the checksum of both |
| Bech32m.FramedDecodes | src/wallet/bech32m.cpp:154-206 | such a string decodes to that HRP and the bytes of its symbols, upper-case spelling included |
| Bech32m.RefusedExactly | src/wallet/bech32m.cpp:156-196 | which error a refused string gets: no usable separator, then mixed case, then a character outside the set |
| Bech32m.CharsetTable | src/wallet/bech32m.cpp:26-38 | the symbol characters in the order of BIP-173, and that no others have a value |
| Bech32m.EncodeDecode | src/wallet/bech32m.cpp:136-206 | decoding what was encoded gives back HRP and data exactly when the HRP is not empty and has no upper-case letter |
| Bech32m.DecodeEncode | src/wallet/bech32m.cpp:136-206 | encoding what was decoded gives back the lower-cased string exactly when its padding is canonical |
| Bech32m.FrameDecodes | src/wallet/bech32m.cpp:154-206 | HRP, separator, any words and their checksum decode to the HRP and the words' bytes |
| Bech32m.BadPaddingAccepted | src/wallet/bech32m.cpp:112-134 | such a string with padding that is not canonical is accepted, and no encoding gives it back |
| Bech32m.PaddingSample | src/wallet/bech32m.cpp:112-134 | one such string, spelt out |
| Address.UnshieldedRoundTrip | src/wallet/bech32m.cpp:254-275 | an unshielded address gives back its key, and the other two decoders refuse it |
| Address.ShieldedRoundTrip | src/wallet/bech32m.cpp:279-311 | the same for the two keys of a shielded address |
| Address.DustRoundTrip | src/wallet/bech32m.cpp:315-368 | a dust address gives back its scalar exactly when that has at least 32 bytes; the other two decoders refuse it |
| Address.DustPrefixOf32 | src/wallet/bech32m.cpp:332-335 | 32-byte scalars get the big-integer prefix 0x73 |
| Address.HrpKind | src/wallet/bech32m.cpp:242-250 | an HRP passes the prefix test of its own kind only |
| Address.HrpTable | src/wallet/bech32m.cpp:216-250 | the human-readable parts in use, written out |
| Address.EncodersRefuse | src/wallet/bech32m.cpp:254-340 | payloads of any other size get no address |
| Address.AddressesInjective | src/wallet/bech32m.cpp:242-351 | no two payloads, kinds or networks share an address |
| Merkle.FromLeaves | src/crypto/merkle_tree.cpp:73-120 | stores every level below the depth bound, empty ones above the root, and the top of the last level as root |
| Merkle.NormalizeAt | src/crypto/merkle_tree.cpp:77-82 | a stored leaf is the given one byte by byte, cut or zero-padded to 32 |
| Merkle.SmallRoots | src/crypto/merkle_tree.cpp:73-120 | the roots of trees with no, one, two and three leaves, written out |
| Merkle.PairUp | src/crypto/merkle_tree.cpp:96-109 | one level up, an odd node paired with 32 zero bytes |
| Merkle.GetPath | src/crypto/merkle_tree.cpp:149-179 | the sibling at every stored level, or nothing past the leaves |
| Merkle.ComputeRoot | src/crypto/merkle_tree.cpp:207-223 | folds the siblings, each on the side its position says |
| Merkle.ClimbWritten | src/crypto/merkle_tree.cpp:207-223 | one step of the fold written out: left, right, or zeros where there is no position |
| Merkle.UnplacedIgnored | src/crypto/merkle_tree.cpp:216-218 | without positions the siblings' contents do not matter |
| Merkle.Verify | src/crypto/merkle_tree.cpp:225-237 | non-empty leaf and root, and the recomputed value equals the root |
| Merkle.ClimbFollowsTree | src/crypto/merkle_tree.cpp:84-110 | after n siblings of the path the recomputed value is the leaf's ancestor on level n |
| Merkle.PathVerifies | src/crypto/merkle_tree.cpp:149-237 | completeness: leaf i with the path's siblings below the root level, sides by the parities of i, verifies against the built root |
| Merkle.RawPathVerifies | src/crypto/merkle_tree.cpp:73-237 | the same for the leaves as they were given to the builder |
| Merkle.WholePathVerifies | src/crypto/merkle_tree.cpp:157-176 | when the path with its extra root-level sibling verifies as well |
| Merkle.HeightWithin | src/crypto/merkle_tree.cpp:89-110 | a tree is at most n high exactly when it has at most 2^n leaves |
| Merkle.DepthBound | src/crypto/merkle_tree.cpp:89-96 | the depth bound is 2^32 leaves |
| Merkle.ClimbsAgree | src/crypto/merkle_tree.cpp:207-223 | two proofs of one shape with one value are equal, or hash colliding inputs at some step |
| Merkle.OnlyThePathVerifies | src/crypto/merkle_tree.cpp:207-237 | soundness: a proof of the right shape for index i verifies only with leaf i and the path's siblings, or names a collision |
| Merkle.RootBindsLeaves | src/crypto/merkle_tree.cpp:73-120 | binding: for one leaf count equal roots mean equal leaves, or two nodes of the same place collide |
| Merkle.RootBindsRaw | src/crypto/merkle_tree.cpp:73-120 | for the lists as given: equal roots mean leaves with the same first 32 bytes, zero-padded, so equal lists when all leaves have 32 bytes; or two nodes collide. Leaves that agree so always share the root |
| Text.RunToHex | src/crypto/merkle_tree.cpp:37-43 | two lower-case digits a byte |
| Text.RunFromHex | src/crypto/merkle_tree.cpp:45-67 | prefix, length test and the unsigned parser pair by pair |
| Text.HexRoundTrip | src/crypto/merkle_tree.cpp:37-67 | hex is read back for every byte string |
| Text.DecimalRoundTrip | src/crypto/merkle_tree.cpp:252-327 | a printed number is read back by the unsigned parser |
| Text.ParseForm | src/crypto/merkle_tree.cpp:286-286 | which texts the C library's unsigned parsers read and as what: white space, a sign, in base 16 a prefix, digits, then anything; an exception without digits and from 2^64 on |
| Text.FindPastQuote | src/crypto/merkle_tree.cpp:276-309 | a key is found behind earlier quoted text that shares its opening quote |
| MerkleJson.PrintJson | src/crypto/merkle_tree.cpp:252-271 | prints the proof's text |
| MerkleJson.JsonSample | src/crypto/merkle_tree.cpp:252-271 | one printed proof, written out |
| MerkleJson.ParseJson | src/crypto/merkle_tree.cpp:273-327 | searches, cuts and converts as the parser does, failures included; Stuck where its sibling loop is not left |
| MerkleJson.ParsedAreDigests | src/crypto/merkle_tree.cpp:273-327 | whatever is parsed has a 32-byte leaf and 32-byte siblings |
| MerkleJson.SeparatorsSkipped | src/crypto/merkle_tree.cpp:313-316 | commas and spaces before a position are skipped, however many |
| MerkleJson.JsonRoundTrip | src/crypto/merkle_tree.cpp:252-327 | parsing the printed text gives back the proof exactly when leaf and siblings are 32 bytes, for any number of siblings and any positions |
| MerkleLoop.StuckByParity | src/crypto/merkle_tree.cpp:295-307 | from any position on, the loop meets a missing closing quote exactly when the number of quotes ahead is odd |
| MerkleLoop.TurnWraps | src/crypto/merkle_tree.cpp:298-306 | one turn on wrapping positions: at a missing closing quote npos + 1 takes the loop to the start of the text, or behind a comma there, with the rest of the text as one more candidate sibling |
| MerkleLoop.EndsWhenEven | src/crypto/merkle_tree.cpp:295-307 | the turns from an even number of quotes end after finitely many, with exactly the siblings the parser is specified by |
| MerkleLoop.LoopEndsExactly | src/crypto/merkle_tree.cpp:295-307 | some number of turns ends the loop if and only if the text has an even number of quotes; otherwise the position is inside the text after every number of turns |
| MerkleLoop.OutgrowsExactly | src/crypto/merkle_tree.cpp:302-304 | a loop that never ends collects more siblings than any bound exactly when one pass over the text, torn end included, meets a 32-byte sibling; otherwise it never collects any |
| MerkleLoop.StuckExactly | src/crypto/merkle_tree.cpp:273-327 | from_json is stuck exactly on texts whose leaf and index are read, whose siblings section is found and holds an odd number of quotes |
| MerkleLoop.StuckText | src/crypto/merkle_tree.cpp:291-307 | a printed proof with any bracket-free text put in place of its siblings is stuck exactly when its leaf has 32 bytes and that text an odd number of quotes |
| MerkleLoop.StuckSamples | src/crypto/merkle_tree.cpp:291-307 | two concrete stuck texts: a lone quote, which spins, and an unclosed 32-byte sibling, which grows the list |
| WalletAccounting.TokensAgree | src/network/graphql_subscription.cpp:798-806 | the stream's and the scan's classifications differ on a bare hex prefix only |
| WalletAccounting.TokensExactly | src/network/indexer_client.cpp:14-36 | which token types are NIGHT and DUST to the scan and to the stream, spelt out |
| WalletAccounting.AmountsAgree | src/network/graphql_subscription.cpp:783-796 | the stream reads every amount the scan accepts as the same number |
| WalletAccounting.SpendingOne | src/network/graphql_subscription.cpp:687-695 | spending an output takes exactly its weight from the total |
| WalletAccounting.Bumping | src/network/graphql_subscription.cpp:654-666 | the wrapping additions of an event give the exact new total |
| WalletAccounting.Dropping | src/network/graphql_subscription.cpp:687-695 | the saturating subtractions of an event give the exact new total |
| WalletAccounting.CounterIsUnspent | src/network/graphql_subscription.cpp:637-696 | after every well-formed run each counter is the total of the unspent outputs |
| WalletAccounting.NeverSaturates | src/network/graphql_subscription.cpp:687-695 | no subtraction of a well-formed run is cut off at zero |
| WalletAccounting.NeverWraps | src/network/graphql_subscription.cpp:654-666 | no addition of a well-formed run wraps |
| WalletAccounting.CreatedThenSpent | src/network/graphql_subscription.cpp:637-696 | well-formed runs exist: any output can be created and then spent |
| WalletStream.RealtimeIndexerClient.constructor | src/network/graphql_subscription.cpp:812-815 | a new client reports zeros |
| WalletStream.RealtimeIndexerClient.OnProgress | src/network/graphql_subscription.cpp:609-621 | progress only marks the state as synced |
| WalletStream.RealtimeIndexerClient.CurrentBalance | src/network/graphql_subscription.cpp:419-423 | the DUST counter for two spellings, the NIGHT counter for anything else |
| WalletStream.RealtimeIndexerClient.CreateAll | src/network/graphql_subscription.cpp:637-667 | the creation loop: counters, and the balance callback's effect on the realtime state |
| WalletStream.RealtimeIndexerClient.SpendAll | src/network/graphql_subscription.cpp:669-696 | the spend loop: counters only |
| WalletStream.RealtimeIndexerClient.OnWsUtxo | src/network/graphql_subscription.cpp:1013-1042 | the 32-bit count and the registered outputs of the realtime state |
| WalletStream.RealtimeIndexerClient.OnTransaction | src/network/graphql_subscription.cpp:600-751 | one event keeps both wallet states tied to the history |
| WalletStream.RealtimeIndexerClient.Run | src/network/graphql_subscription.cpp:436-470 | so does every sequence of events |
| WalletStream.ShownLags | src/network/graphql_subscription.cpp:996-1011 | the realtime balance is the true one plus exactly what was spent in and since the last creating event |
| WalletStream.ShowsExactly | src/network/graphql_subscription.cpp:637-667 | which token types fire the balance callbacks, spelt out |
| WalletStream.UnshownEvent | src/network/graphql_subscription.cpp:637-696 | an event that creates nothing of a token leaves the balance shown for it, whatever it spends |
| WalletScan.AppendUtxos | src/network/indexer_client.cpp:74-112 | appends exactly the address's outputs without a spending transaction, up to the first whose amount does not parse; fails exactly when there is one; whatever is appended has the address's owner, letter case aside |
| WalletScan.WalletStateFromUtxos | src/network/indexer_client.cpp:114-140 | sums, count and registered outputs, wrapped as their integers are |
| WalletScan.Scan | src/network/indexer_client.cpp:505-614 | the scan finds the unspent outputs kept for the address in order, all of them or those before the first amount that does not parse; each has the address's owner, letter case aside |
| WalletScan.ScanExactly | src/network/indexer_client.cpp:505-614 | every created output whose owner is the address, letter case aside, and that is not spent is kept as often as it was created, and none else; the result mirrors these in order, up to the first whose amount is no decimal number below 2^64 |
| WalletScan.ScanAmountExactly | src/network/indexer_client.cpp:47-72 | an amount is read as n exactly when it is n's decimal digits alone, or empty for 0 |
| WalletScan.CreatedExactly | src/network/indexer_client.cpp:565-587 | the outputs looked at are those of the transactions |
| WalletScan.FoldIsScan | src/network/indexer_client.cpp:114-140 | over every well-formed history every counter equals the scan's total; NIGHT is higher by exactly the outputs typed with a bare prefix |
| WalletScan.StatesAgree | src/network/indexer_client.cpp:114-140 | for every field of both states of the stream whether it equals the scan's, or exactly when |
| Finality.WaitForInclusion | src/production/midnight_client.cpp:1601-1647 | the first poll that finds the transaction decides, and its answer's fields are the result's, with stated defaults for those it lacks; otherwise which error is left |
| Finality.IsTxHashExactly | include/midnight/production/validation.hpp:31-34 | what passes for a transaction hash: 64 hex digits of either case behind an optional prefix |
| Finality.HashesAgree | src/production/midnight_client.cpp:294-301 | which block hashes count as equal: those equal behind their prefixes, letter case aside |
| Finality.WaitForFinality | src/production/midnight_client.cpp:1649-1705 | a success means the block is the finalized one of its height in every later state of the node, the negative answer that it never will be; a block of height 0 always ends in the timeout, and for any other the timeout means that no complete poll found the height finalized |
| Finality.TimeoutMeansUnfinal | src/production/midnight_client.cpp:1665-1697 | a complete poll that does not conclude was made before the node finalized the height |
| Finality.ErrorAfterExactly | src/production/midnight_client.cpp:1689-1695 | an error stays behind, also in a success, exactly when an earlier poll went unanswered |
| Finality.ConclusionIsFinal | src/production/midnight_client.cpp:1665-1680 | the answer for the height, read after the finalized height has reached it, names the finalized block for good, whatever happened between the three calls |
| Finality.FinalStays | src/production/midnight_client.cpp:1665-1680 | a finalized height keeps its block under imports, reorganisations and finalizations |
| Finality.FinalIsCanonical | src/production/midnight_client.cpp:1672-1676 | up to the finalized height the best chain is the finalized one |
| Finality.UnfinalizedCanMove | src/production/midnight_client.cpp:1670-1670 | above it the best chain can change, so the height guard is needed |
| Finality.RunEvolves | src/production/midnight_client.cpp:1661-1697 | the node has evolved from every call to every later one |
| Finality.ConclusionsAgree | src/production/midnight_client.cpp:1661-1697 | two conclusions of one run never contradict each other |
| Scale.CompactRead | src/codec/scale_codec.cpp:281-339 | a compact value is read back anywhere in the data |
| Scale.CompactShortest | src/codec/scale_codec.cpp:107-146 | compact encodings are shortest-form: nothing that decodes to the value is shorter |
| Scale.CompactPrefixFree | src/codec/scale_codec.cpp:107-146 | no compact encoding is a proper prefix of another |
| Scale.CompactBytes | src/codec/scale_codec.cpp:107-126 | the compact forms up to four bytes, byte by byte |
| Scale.SampleCompacts | tests/scale_codec_test.cpp:10-63 | the compact encodings of the repository's own examples |
| Scale.SampleFixed | tests/scale_codec_test.cpp:98-156 | the same for fixed widths, truth values and byte strings |
| Scale.CompactGuardExact | src/codec/scale_codec.cpp:311-325 | exactly when the guard lets a read past the end through |
| Scale.CompactGuardMisses | src/codec/scale_codec.cpp:311-325 | four bytes that make it do so |
| Scale.BytesGuardExact | src/codec/scale_codec.cpp:384-392 | the same for byte strings, whose length check wraps, from every place the length prefix can leave the cursor |
| Scale.StreamRead | src/codec/scale_codec.cpp:107-200 | the matching calls read back every sequence of items and stop at its end |
| Scale.StreamRoundTrip | src/codec/scale_codec.cpp:275-425 | wherever the sequence stands in the data |
| Scale.UniquelyDecodable | src/codec/scale_codec.cpp:107-200 | streams of the same kinds with a common continuation are the same stream |
| Scale.EraPhaseBounds | src/codec/scale_codec.cpp:227-231 | decoding gives phase <= block mod period < phase + factor |
| Scale.EraClampsIdle | src/codec/scale_codec.cpp:241-245 | the clamps on nibble and phase never bite |
| Scale.EraFaithful | src/codec/scale_codec.cpp:217-251 | the period is the least power of two at or above the clamped one, the phase is faithful, and the first byte is never 0x00 |
| Scale.EraExactly | src/codec/scale_codec.cpp:217-251 | in numbers: the period rounded up to a power of two between 4 and 65536; an exact phase up to a period of 4096, and a bounded loss beyond |
| ScaleCodec.ScaleEncoder.constructor | src/codec/scale_codec.cpp:264-264 | a new encoder is empty |
| ScaleCodec.ScaleEncoder.EncodeU8 | src/codec/scale_codec.cpp:148-151 | appends the item's encoding to the buffer |
| ScaleCodec.ScaleEncoder.EncodeU16 | src/codec/scale_codec.cpp:153-157 | the same for two bytes |
| ScaleCodec.ScaleEncoder.EncodeU32 | src/codec/scale_codec.cpp:159-165 | the same for four bytes |
| ScaleCodec.ScaleEncoder.EncodeU64 | src/codec/scale_codec.cpp:167-173 | the same for eight bytes |
| ScaleCodec.ScaleEncoder.EncodeCompact | src/codec/scale_codec.cpp:107-128 | appends the compact encoding |
| ScaleCodec.ScaleEncoder.EncodeBigCompact | src/codec/scale_codec.cpp:127-145 | big-integer mode; the lower bound of four bytes never bites |
| ScaleCodec.ScaleEncoder.EncodeU128 | src/codec/scale_codec.cpp:175-178 | sixteen bytes, low half first |
| ScaleCodec.ScaleEncoder.EncodeBool | src/codec/scale_codec.cpp:180-183 | one byte |
| ScaleCodec.ScaleEncoder.EncodeBytes | src/codec/scale_codec.cpp:185-189 | length and bytes |
| ScaleCodec.ScaleEncoder.EncodeString | src/codec/scale_codec.cpp:196-200 | length and characters |
| ScaleCodec.ScaleEncoder.EncodeRaw | src/codec/scale_codec.cpp:191-194 | bytes without a length |
| ScaleCodec.ScaleEncoder.EncodeEraImmortal | src/codec/scale_codec.cpp:212-215 | one zero byte |
| ScaleCodec.ScaleEncoder.EncodeEraMortal | src/codec/scale_codec.cpp:217-251 | two bytes of the era value, by the rounding, halving and clamping loops |
| ScaleCodec.ScaleEncoder.FinalizeWithLength | src/codec/scale_codec.cpp:262-269 | the buffer as a byte string; the buffer itself is unchanged |
| ScaleCodec.ScaleDecoder.constructor | src/codec/scale_codec.cpp:273-273 | the cursor starts at 0 |
| ScaleCodec.ScaleDecoder.DecodeCompact | src/codec/scale_codec.cpp:281-339 | moves the cursor and returns as the read function says, in all four modes |
| ScaleCodec.ScaleDecoder.DecodeU8 | src/codec/scale_codec.cpp:341-345 | one byte, or insufficient data and an unmoved cursor |
| ScaleCodec.ScaleDecoder.DecodeU16 | src/codec/scale_codec.cpp:347-354 | the same for two bytes |
| ScaleCodec.ScaleDecoder.DecodeU32 | src/codec/scale_codec.cpp:356-365 | the same for four bytes |
| ScaleCodec.ScaleDecoder.DecodeU64 | src/codec/scale_codec.cpp:367-377 | the same for eight bytes |
| ScaleCodec.ScaleDecoder.DecodeU128 | src/codec/scale_codec.cpp:409-425 | the same for two halves |
| ScaleCodec.ScaleDecoder.DecodeBool | src/codec/scale_codec.cpp:379-382 | any byte but zero is true |
| ScaleCodec.ScaleDecoder.DecodeRaw | src/codec/scale_codec.cpp:394-401 | bytes without a length |
| ScaleCodec.ScaleDecoder.DecodeBytes | src/codec/scale_codec.cpp:384-392 | length, then bytes |
| Extrinsic.MidnightSendMnTransaction | src/tx/extrinsic_builder.cpp:21-33 | refuses the empty transaction, and otherwise gives call 0 of the pallet with the bytes as argument |
| Extrinsic.EncodeExtra | src/tx/extrinsic_builder.cpp:61-82 | era, compact nonce, compact tip |
| Extrinsic.EraOfParams | src/tx/extrinsic_builder.cpp:61-74 | an immortal era is one zero byte, a mortal one two that give its period and the block's phase back |
| Extrinsic.BuildUnsigned | src/tx/extrinsic_builder.cpp:186-198 | version byte 0x04 and the call behind a length |
| Extrinsic.BuildSigned | src/tx/extrinsic_builder.cpp:135-184 | refuses a secret key that is not 64 bytes, then a public key that is not 32; otherwise signs the payload and lays out the signed envelope around that signature |
| Extrinsic.EncodeAdditional | src/tx/extrinsic_builder.cpp:84-109 | versions, genesis hash and the checkpoint of the era: the genesis hash again when immortal |
| Extrinsic.AdditionalRead | src/tx/extrinsic_builder.cpp:84-109 | where specification version, transaction version, genesis hash and checkpoint stand |
| Extrinsic.BuildSigningPayload | src/tx/extrinsic_builder.cpp:111-133 | call, extra and additional bytes as they are up to 256 in all, and their hash from 257 on |
| Extrinsic.SignedCallDetermined | src/tx/extrinsic_builder.cpp:111-133 | under one set of parameters two calls with the same text to sign are the same call, or the hash collides |
| Extrinsic.SignatureCoversAll | src/tx/extrinsic_builder.cpp:61-133 | the text signed for a sent transaction determines pallet, transaction, era, nonce, tip, versions, genesis hash and checkpoint, or the hash collides |
| Extrinsic.PayloadRebuilt | src/tx/extrinsic_builder.cpp:135-184 | the parts read from a signed extrinsic, with the chain's versions and hashes, give back the text its signature was made for |
| Extrinsic.UnsignedRecovery | src/tx/extrinsic_builder.cpp:186-198 | reading a built extrinsic consumes every byte and gives back transaction and pallet |
| Extrinsic.UnsignedInjective | src/tx/extrinsic_builder.cpp:186-198 | distinct transactions or pallets give distinct extrinsics |
| Extrinsic.SignedRecovery | src/tx/extrinsic_builder.cpp:135-184 | a signed extrinsic gives back signer, signature, era, nonce, tip and call |
| Reservations.KeyInjective | src/utxo-transactions/utxo_transactions.cpp:438-438 | the printed key determines outpoint and index, colons in the outpoint notwithstanding |
| Reservations.UtxoSetManager.constructor | src/utxo-transactions/utxo_transactions.cpp:429-531 | nothing is reserved at first |
| Reservations.UtxoSetManager.IsReserved | src/utxo-transactions/utxo_transactions.cpp:488-512 | the answer for the live entry, and the erasure of an expired one |
| Reservations.UtxoSetManager.ReserveUtxos | src/utxo-transactions/utxo_transactions.cpp:429-454 | reserves input after input, each looked up at its own time; what came before a failure stays |
| Reservations.UtxoSetManager.ReleaseReserved | src/utxo-transactions/utxo_transactions.cpp:456-478 | removes exactly the entries of the transaction |
| Reservations.UtxoSetManager.CleanupExpired | src/utxo-transactions/utxo_transactions.cpp:514-531 | removes exactly the expired entries |
| Reservations.PoliciesAgree | src/utxo-transactions/utxo_transactions.cpp:488-531 | erasing expired entries lazily, eagerly or never gives the same answers over every run |
| Reservations.GrantedHolds | src/utxo-transactions/utxo_transactions.cpp:429-454 | a granted reservation holds every outpoint asked for |
| Reservations.ReservedUntil | src/utxo-transactions/utxo_transactions.cpp:429-454 | a granted reservation keeps others out until start plus time to live, that moment included and no longer; a sum past 64 bits wraps |
| Reservations.ReleaseFrees | src/utxo-transactions/utxo_transactions.cpp:456-478 | a release frees what the transaction held and nothing else |
| Reservations.ReservationExcludes | src/utxo-transactions/utxo_transactions.cpp:429-531 | until it expires a reservation survives every run in which its owner neither releases nor reserves that outpoint; nobody is granted the outpoint meanwhile, and it is reported as reserved |
| Reservations.OwnerReserves | src/utxo-transactions/utxo_transactions.cpp:429-454 | an owner who reserves again keeps the outpoint, with the new expiry once the call has succeeded |
| Reservations.OwnerKeeps | src/utxo-transactions/utxo_transactions.cpp:429-531 | an outpoint stays its owner's over every run in which it does not expire and the owner releases nothing, the owner's own reservations of it included; nobody else is granted it |
| Inputs.TransactionBuilder.constructor | src/utxo-transactions/utxo_transactions.cpp:588-596 | no inputs at first |
| Inputs.TransactionBuilder.HasDuplicate | src/utxo-transactions/utxo_transactions.cpp:646-663 | whether an input has the same index and outpoint without prefix |
| Inputs.TransactionBuilder.AddInput | src/utxo-transactions/utxo_transactions.cpp:619-644 | accepts exactly verified inputs that are no duplicates, with the error of the first check that fails, and keeps all inputs apart |
| Inputs.ValidateInputs | src/utxo-transactions/utxo_transactions.cpp:872-942 | accepts exactly 1 to 256 inputs with distinct keys and good fields; otherwise the first key that repeats, or the first bad input and its first defect |
| Inputs.BuilderPassesDuplicateCheck | src/utxo-transactions/utxo_transactions.cpp:880-892 | what the builder accepted has no duplicates for the validator |
| Inputs.DuplicateChecksDiffer | src/utxo-transactions/utxo_transactions.cpp:880-892 | a list of inputs has two with one outpoint exactly when the validator sees duplicate keys or two of them spell one outpoint with different prefixes |
| Inputs.RespeltSample | src/utxo-transactions/utxo_transactions.cpp:880-892 | two inputs that only the builder takes for duplicates |
| Selection.LessTrans | src/utxo-transactions/utxo_transactions.cpp:1077-1106 | the comparator is transitive |
| Selection.LessTotal | src/utxo-transactions/utxo_transactions.cpp:1077-1106 | it orders entries of different outpoints one way and one way only |
| Selection.StringLessExactly | src/utxo-transactions/utxo_transactions.cpp:1092-1105 | texts are ordered by their first difference, a shorter one before its extensions |
| Selection.Sort | src/utxo-transactions/utxo_transactions.cpp:1076-1106 | a sorted permutation |
| Selection.SortUnique | src/utxo-transactions/utxo_transactions.cpp:1076-1106 | with distinct outpoints there is only one |
| Selection.SelectUtxos | src/utxo-transactions/utxo_transactions.cpp:1060-1137 | none without inputs or outputs; otherwise the shortest sufficient prefix of a sorted permutation, or everything when only the count is missing |
| Selection.SelectionExact | src/utxo-transactions/utxo_transactions.cpp:1116-1136 | the same for the sorted list, from which the theorem follows |
| Selection.SelectionMinimal | src/utxo-transactions/utxo_transactions.cpp:1120-1129 | whatever is taken from the list, none of it included, with fewer entries than the result lacks inputs or dust, wrapping or not |
| Selection.SelectionTheorem | src/utxo-transactions/utxo_transactions.cpp:1060-1137 | the result for a list in any order, while its dust fits 64 bits: none exactly when inputs or outputs are absent or all of it is worth less than the fee; otherwise the first min(n, max(min_inputs, ceil(required / per output))) of the sorted list, and no smaller part meets both demands |
| Selection.SelectionPrefers | src/utxo-transactions/utxo_transactions.cpp:1076-1106 | nothing left over is deeper than anything selected, nor older at the same depth, nor earlier by hash or index after that |
| Selection.MinInputsLeast | src/utxo-transactions/utxo_transactions.cpp:1108-1110 | the least number of inputs: one, two with witnesses, and not below the outputs |
| Selection.RequiredExactly | src/utxo-transactions/utxo_transactions.cpp:1112-1114 | the fee a selection must reach is the exact fee of that many inputs, with a proof when there are witnesses, modulo 2^64 |
| Selection.DustPerUtxoExactly | src/utxo-transactions/utxo_transactions.cpp:73-83 | what an output is taken to be worth |
| Selection.SelectionIgnoresOrder | src/utxo-transactions/utxo_transactions.cpp:1060-1137 | with distinct outpoints two orders of one list give the same result |
| Selection.FeeExact | src/utxo-transactions/utxo_transactions.cpp:1168-1206 | while size sum and chunk sum fit 64 bits, the fee is that of the clamped unbounded size modulo 2^64, and so the exact fee if and only if that fits |
| Selection.SizeCanWrap | src/utxo-transactions/utxo_transactions.cpp:1195-1206 | a size of 2^64 bytes is priced as none |
| Chain.CalculateHash | src/blockchain/block.cpp:23-92 | hashes the hex text of the fields, blanks left out, and prints the digest |
| Chain.HashDetermines | src/blockchain/block.cpp:23-92 | blocks of one hash have the same fields, or their preimages collide |
| Chain.FieldsRead | src/blockchain/block.cpp:29-77 | where each field stands in the preimage, in its width and byte order |
| Chain.VisibleExactly | src/blockchain/block.cpp:39-51 | which characters of a text reach the preimage: all but blanks, tabs and line ends |
| Chain.FieldsGiveHeight | src/blockchain/block.cpp:29-44 | the preimage determines the height |
| Chain.FieldsGivePrevHash | src/blockchain/block.cpp:29-44 | and the previous hash, when that is a hash |
| Chain.FieldsAmbiguous | src/blockchain/block.cpp:68-77 | two lists of transactions that run together have one preimage |
| Chain.FieldsSeeText | src/blockchain/block.cpp:68-77 | two lists have one preimage exactly when their visible texts, put together, are equal |
| Chain.TransactionsDetermined | src/blockchain/block.cpp:68-77 | lists of blank-free entries of one length, as hex hashes are, are determined by that text |
| Chain.UniformExactly | src/blockchain/block.cpp:68-77 | and this is so for exactly the lengths above zero |
| Chain.BlockDetermined | src/blockchain/block.cpp:23-92 | two blocks of one regular shape with one preimage are the same block, transactions included |
| Chain.TimesIncrease | src/blockchain/chain_manager.cpp:107-112 | timestamps increase along the whole chain |
| Chain.IndexInverts | src/blockchain/chain_manager.cpp:20-46 | the index is the exact inverse of the chain, or two of its preimages collide |
| Chain.TipCommits | src/blockchain/chain_manager.cpp:90-95 | chains of one tip hash have the same length and the same preimage at every height, or two preimages collide |
| Chain.TipCommitsBlocks | src/blockchain/chain_manager.cpp:90-95 | for chains of one regular shape the tip hash determines every block, or two preimages collide |
| Chain.ChainManager.constructor | src/blockchain/chain_manager.cpp:12-25 | no blocks at first |
| Chain.ChainManager.Initialize | src/blockchain/chain_manager.cpp:12-25 | puts the genesis block, field by field, into an empty chain and leaves any other alone |
| Chain.ChainManager.AddBlock | src/blockchain/chain_manager.cpp:27-53 | appends exactly the accepted blocks, which have the next height, the tip's hash, a later time and at most a minute of drift; keeps chain and index linked |
| Chain.ChainManager.ValidateBlock | src/blockchain/chain_manager.cpp:70-115 | height, previous hash, clock drift and order in time; only the height on an empty chain |
| Chain.ChainManager.GetBlock | src/blockchain/chain_manager.cpp:55-60 | the block of that height |
| Chain.ChainManager.GetBlockByHash | src/blockchain/chain_manager.cpp:62-68 | a block of that hash, and none exactly when there is none |

## Left out

- Transport, JSON trees, threads, locks, callbacks of the user and logging: their answers are parameters.
- OpenSSL and libsodium internals, random numbers, the HMAC loop that derives the Schnorr nonce, DER
  signatures, key files and encryption.
- `ScaleEncoder`: option prefixes and account identifiers, which are single appends; `u128` in decimal,
  which has no true property to prove.
- Heights and amounts that arrive as JSON numbers or strings in other forms: heights are numbers, amounts
  decimal texts.
- Block by block retrieval of a wallet scan, and the caches.
- MerkleJson.ParseJson: answers Stuck also where the list that grows for ever at last cannot be allocated and
  the parser returns nothing, because the size of the memory is not modelled.
- WalletAccounting.WellFormed: compares whole output records, so a spend is taken to repeat its creation's data.
- Finality.WaitForFinality: takes the result of the inclusion wait as an argument, because what the node is
  asked depends on the height found there.
- Selection.Sort: an insertion sort stands for std::sort; its callers see only a sorted permutation.
- Selection.DustPerUtxo: entries carry the fields the comparator reads and one text for all others.
- WalletStream.RealtimeIndexerClient: one object stands for the subscription client and for the realtime client
  whose callbacks it calls.
- Chain.Block: a value. That a block could be changed through a shared pointer after it was added is not modelled.
- Ecdsa.SignHash: allocation failures of the big-number library.
- Queries of unspent outputs, dust accounting, output and proof checks of the validator, sessions,
  configuration, mnemonics and contract calls.
