# LoveNode: a verified model of the wallet, the staker and the relay

LoveNode stakes and spends a proof-of-stake coin from a phone, helped by a relay that is given
addresses but never keys. This project models the parts of its Rust crates that have to be exactly
right and proves what they promise, for all inputs and all runs:

* the 256-bit target arithmetic and the stake win check (`U256`, `Kernel`);
* the number codecs: base58, base58check and WIF, BIP-39 ("Generating the mnemonic"), hexadecimal,
  CompactSize and the transaction format (`Base58`, `Wallet`, `Bip39`, `Text`, `Wire`, `Tx`);
* the merkle root, the block header and the signature hash (`Merkle`, `Block`, `SigHash`);
* the payment builder: coin selection, fee, change, the signing loop (`CoinSelection`, `Send`);
* the staker's decision to sign (`Coinstake`, `Phone`);
* the relay: registration and cleanup as atomic steps of many connections, the device registry, the
  rate limiter, the search and delivery of wins, the activity list (`Server`, `DeviceRegistry`,
  `RateLimiter`, `Engine`, `Tick`, `Activity`);
* relay and phone together, from the search to the signature (`Staking`).

`Script` is the fragment of the network's script rules in which the wallet's scripts are written; it
says what the bytes of a signature script are worth. Formats are pinned by layout lemmas, which say what
a reader finds at each place of the bytes, besides the round trips, which would hold of any order used
both ways.

`Machine` holds the integer widths, saturation, wrap-around and bitwise OR; `Radix` holds positional
numerals, which limbs, little-endian integers and base-58 digits all share. Code that works step by
step is a method with its loop, proved equal to a function; what the code is for is proved of that
function. `Reader`, `Registry`, `Limiter` and `RelayState` are classes, because the originals are
objects updated in place.

Hash functions, signatures, public keys, key lookup, verified coin values and node templates are
function-valued parameters. Nothing is assumed of them beyond the lengths of what they return; in
particular no hash is assumed to be injective, so binding is stated as "equal results exhibit a
collision".

## What the proofs found

* A coin whose start time lies in the future does not get weight zero, as the comment at
  `crates/lovenode-core/src/kernel.rs:80-81` says: the code wraps modulo 2^32 and gives it weight,
  nearly always the full weight. The model follows the code (`Kernel.CoinAge`).
* Registration is said to keep the two maps of the relay from ever drifting
  (`crates/lovenode-relay/src/server.rs:353-355`). They can, in exactly two ways: a new token refused at
  capacity is routed all the same, and a reconnect between the two removals of the old connection's
  cleanup loses its registration while it is being served (`Server.NeverOrphanedIff`,
  `Server.ReconnectLosesRegistration`).
* A read error ends a connection without cleanup (`crates/lovenode-relay/src/server.rs:329`), so a dead
  device goes on being searched for and routed to, against `crates/lovenode-relay/src/server.rs:401`. Every
  route leads to a serving connection, in every state of a run, exactly when no read error hits a
  connection that owns its route (`Server.RoutesServeIff`, `Server.ReadErrorLeavesRoute`).
* A connection is told of coins on addresses it registered itself, unless its token is registered
  again between the reading of the registry and that of the routes (`Tick.DeliveriesAreOwn`).
* The signer's comment promises that the template builds on the notice's tip
  (`crates/lovenode-phone/src/lib.rs:222`). Only the height is compared; the template's previous hash,
  target and time are never looked at (`Phone.TemplateTipIgnored`).
* The number of eligible coins reported when a registration is accepted
  (`crates/lovenode-relay/src/wire.rs:33-34`) is always zero, because registering clears the list it
  counts (`Server.RelayState.RegisterSection`).
* The fee estimate is the relay fee of a payment with change, compressed keys and 72-byte signatures,
  and a constant more. A finished payment with compressed keys and signatures of at most 71 bytes pays
  the relay fee for every byte, as long as amount and estimate together fit 64 bits
  (`Send.FeeIsForSize`, `Send.PaysRelayFee`).
* `amount + fee` saturates. A payment pays at least its estimated fee exactly when the two together
  fit 64 bits; past that it can pay no fee at all (`Send.FeeBounds`, `Send.SaturatedNeedPaysNoFee`).
  For the same reason a wallet truly worth `i64::MAX` or more is never told "not enough"
  (`Send.NotEnoughIff`).
* The running sum of the selection wraps. The fewest inputs are used exactly when that many of the
  largest coins add up in 64 bits, or are all there are and no smaller sum is `i64::MAX` itself
  (`CoinSelection.FewestInputsIff`); of three coins worth 2^62 all are taken where two would do
  (`CoinSelection.WrappedSumTakesMore`).
* The total of the verified values saturates, so a payment can give away more than the cap that
  `crates/lovenode-phone/src/send.rs:27` calls absolute: it does exactly when those values exceed
  `i64::MAX` by more than the reported fee leaves of the cap (`Send.BurnWithinCapIff`,
  `Send.SaturatedTotalBurns`).
* The saturating payback total can be wrong when the outputs to the key run into a bound. It is the
  exact total, capped, in every order of the outputs exactly when nothing negative is paid, or the
  positive and the negative outputs each fit 64 bits (`Coinstake.FoldExactIff`). A pass of the guard
  means that the exact total covers the minimum, in every order, exactly when the negative outputs
  fit 64 bits, or the positive ones total at most 2^63, or the total reaches `i64::MAX`
  (`Coinstake.GuardSoundIff`). On every transaction the positive outputs reach the minimum
  (`Coinstake.GuardBoundsPositive`).
* Repeating the last `2^k` of `2^k * m` transactions (`m` odd) keeps the merkle root for `m >= 3`. For
  `m = 1` the new root is the old one hashed with itself, so it is kept exactly when that gives the
  old one back (`Merkle.DuplicatedTailIff`).
* The transaction parser accepts length prefixes that are longer than necessary. That is its only
  slack, and the accepted strings are still prefix-free.

## Model

| member | source | states |
|---|---|---|
| U256.FromLeBytes | crates/lovenode-core/src/u256.rs:22-30 | the limbs denote the little-endian number of the 32 bytes |
| U256.CheckedShl | crates/lovenode-core/src/u256.rs:37-62 | the shift answers a value iff the true product is below 2^256, and it is that product; the OR-ed parts never collide |
| U256.CheckedMulU64 | crates/lovenode-core/src/u256.rs:67-82 | the product answers a value iff it is below 2^256, and it is exact |
| U256.SetCompact | crates/lovenode-core/src/u256.rs:87-96 | floor(mantissa * 256^(size-3)), or nothing exactly when 256 bits cannot hold it |
| U256.CompactReads | crates/lovenode-core/src/u256.rs:84-90 | of a compact value the top byte is the size, the next bit is ignored, and the rest the mantissa of floor(mantissa * 256^(size-3)) |
| U256.Compare | crates/lovenode-core/src/u256.rs:99-110 | limb order is the order of natural numbers |
| U256.ToNatInjective | crates/lovenode-core/src/u256.rs:10-11 | different limbs are different numbers, so the derived equality is numeric equality |
| Kernel.StakePreimageInjective | crates/lovenode-core/src/kernel.rs:58-71 | no two different stakes share a preimage |
| Kernel.StakePreimageLayout | crates/lovenode-core/src/kernel.rs:65-71 | where a reader of the 52 bytes finds modifier, start time, index, hash and timestamp |
| Kernel.CoinAge | crates/lovenode-core/src/kernel.rs:80-90 | elapsed time up to the cap; before the start time the wrapped weight is positive, and exactly when it is the full weight |
| Kernel.TargetHitOnLimbs | crates/lovenode-core/src/kernel.rs:96-123 | the decision on limbs is the decision on the numbers they denote |
| Kernel.TargetHitExact | crates/lovenode-core/src/kernel.rs:96-123 | on any input, a hit iff hash < T*w with T below 2^256, or the weight leaves 64 bits |
| Kernel.WeightFits | crates/lovenode-core/src/kernel.rs:100-108 | with a capped age the weight fits 64 bits, so the "absurdly large" branch is unreachable |
| Kernel.CheckWinExact | crates/lovenode-core/src/kernel.rs:127-145 | a coin wins iff one inequality over unbounded integers holds of its stake hash |
| Kernel.CheckWinInFigures | crates/lovenode-core/src/kernel.rs:80-145 | the whole check in figures: age capped at a week less an hour, weight value*age/40000000000, hash of the laid-out bytes below target times weight |
| Kernel.CheckWinOnLimbs | crates/lovenode-core/src/kernel.rs:127-145 | the check as run, buffer, hash and limbs, is the specified one |
| Kernel.WinningIsMonotone | crates/lovenode-core/src/kernel.rs:96-145 | a richer coin wins whenever the poorer one does, with the same proof |
| Kernel.SearchWindowLeast | crates/lovenode-core/src/kernel.rs:149-156 | the least winning second of the window, or none wins |
| Base58.RebaseInverse | crates/lovenode-sign/src/wallet.rs:71-115 | changing base and back is the identity on every digit string, leading zeros included |
| Base58.MultiplyThrough | crates/lovenode-sign/src/wallet.rs:76-84 | the in-place pass keeps the value, the digit bounds and the 32-bit carry |
| Base58.CarryingFits | crates/lovenode-sign/src/wallet.rs:78-80 | the 32-bit accumulator of the pass never overflows |
| Base58.ShiftIn | crates/lovenode-sign/src/wallet.rs:101-109 | both inner loops give value * base + digit without a superfluous top digit |
| Base58.EncodeLoop | crates/lovenode-sign/src/wallet.rs:71-94 | the encoding loops compute the change of base |
| Base58.DecodeLoop | crates/lovenode-sign/src/wallet.rs:96-115 | the decoding loops compute the inverse change, and refuse exactly the strings outside the alphabet |
| Base58.DecodeIffEncode | crates/lovenode-sign/src/wallet.rs:71-115 | a string decodes to x iff it is the encoding of x |
| Base58.EncodeOntoAlphabet | crates/lovenode-sign/src/wallet.rs:71-115 | the encodings are exactly the strings over the alphabet |
| Base58.EncodeMeans | crates/lovenode-sign/src/wallet.rs:71-94 | an encoding is the same number in base 58, most significant digit first, with one leading `1` for each leading zero byte |
| Base58.PositionOf | crates/lovenode-sign/src/wallet.rs:44 | the 58 symbols are distinct: looking up symbol d finds d |
| Wallet.Base58CheckIff | crates/lovenode-sign/src/wallet.rs:48-69 | for any checksum hash, a string decodes to version and payload iff it is their encoding |
| Wallet.Base58CheckLayout | crates/lovenode-sign/src/wallet.rs:48-56 | what is spelled is version, payload and the first four bytes of their hash |
| Wallet.Base58CheckReads | crates/lovenode-sign/src/wallet.rs:58-69 | a string decodes to version and payload iff base 58 spells them with those four bytes |
| Wallet.FromWifIff | crates/lovenode-sign/src/wallet.rs:129-159 | secret, compression flag and network come back, and only from their own WIF |
| Wallet.WifReads | crates/lovenode-sign/src/wallet.rs:129-159 | a WIF is read iff it spells 212 or 239 by network, the secret, 1 if compressed, and the checksum |
| Wallet.WifRoundTrip | crates/lovenode-sign/src/wallet.rs:129-159 | printing a valid key and reading it back loses nothing |
| Wallet.AddressScriptInjective | crates/lovenode-phone/src/send.rs:79-97 | on one network only one address leads to a script |
| Wallet.AddressReads | crates/lovenode-phone/src/send.rs:79-97 | an address leads to the script of a key hash, opcode by opcode, iff it spells 30 or 139 by network, that hash and the checksum |
| Text.FromHexIff | crates/lovenode-core/src/serialize.rs:129-142 | hex decodes to b iff it is b's printed form up to case and surrounding white space |
| Text.ToHexRoundTrip | crates/lovenode-core/src/serialize.rs:129-142 | decoding inverts printing |
| Text.HexDigitsAre | crates/lovenode-core/src/serialize.rs:140-142 | two lower-case symbols a byte, the high half first |
| Text.HashFromDisplayHexIff | crates/lovenode-core/src/serialize.rs:110-126 | a display string names a hash iff it is the hash's reversed hex up to case and white space |
| Text.DisplayHexRoundTrip | crates/lovenode-core/src/serialize.rs:110-126 | parsing inverts display |
| Text.DisplayHexIsReversed | crates/lovenode-core/src/serialize.rs:124-126 | a hash is displayed from its last byte to its first |
| Text.TrimTakes | crates/lovenode-core/src/serialize.rs:111 | trimming takes white space off both ends and nothing else |
| Text.LessIff | crates/lovenode-relay/src/wallet_view.rs:69 | the order of ids: a proper prefix first, otherwise the first difference decides |
| Text.HashFromDisplayHexLoop | crates/lovenode-core/src/serialize.rs:110-121 | the loop that fills the array from its far end computes the reversed bytes |
| Text.HashIgnoresCase | crates/lovenode-phone/src/lib.rs:186-188 | ids that compare equal but for case name the same hash |
| Wire.Reader.Take | crates/lovenode-core/src/serialize.rs:60-67 | the cursor yields the next n bytes and moves past them, or fails and stays |
| Wire.Reader.ReadUint | crates/lovenode-core/src/serialize.rs:69-79 | little-endian integers of the remaining bytes |
| Wire.Reader.ReadCompactSize | crates/lovenode-core/src/serialize.rs:85-93 | the tagged length of the remaining bytes |
| Wire.Reader.ReadVarBytes | crates/lovenode-core/src/serialize.rs:95-104 | length-prefixed bytes, refused when the length exceeds what remains |
| Wire.CompactSizeRoundTrip | crates/lovenode-core/src/serialize.rs:19-32 | every 64-bit length reads back, whatever follows it |
| Wire.VarBytesRoundTrip | crates/lovenode-core/src/serialize.rs:35-38 | every byte string reads back, whatever follows it |
| Wire.CompactSizeShortest | crates/lovenode-core/src/serialize.rs:85-93 | on any input the printed length is no longer than the one read, and equal to it if as long |
| Wire.CompactSizeLayout | crates/lovenode-core/src/serialize.rs:19-32 | one byte below 0xfd, otherwise the tag of the width and the length little-endian in it |
| Tx.SerializeLoop | crates/lovenode-core/src/tx.rs:74-94 | the appending loops print the wire form |
| Tx.TxInLayout | crates/lovenode-core/src/tx.rs:79-84 | where a reader of an input finds hash, index, script and sequence |
| Tx.TxOutLayout | crates/lovenode-core/src/tx.rs:87-90 | where a reader of an output finds value and script |
| Tx.TxLayout | crates/lovenode-core/src/tx.rs:74-94 | version first, lock time last, between them the counted inputs and the counted outputs in listed order |
| Tx.DeserializeLoop | crates/lovenode-core/src/tx.rs:98-125 | the cursor loops compute the parser, for any claimed counts |
| Tx.DeserializeSerialize | crates/lovenode-core/src/tx.rs:74-125 | parsing inverts printing |
| Tx.SerializeInjective | crates/lovenode-core/src/tx.rs:74-94 | different transactions print differently |
| Tx.AcceptedPrefixFree | crates/lovenode-core/src/tx.rs:98-125 | no accepted byte string is a strict prefix of another |
| Tx.PrefixesAndExtensionsRejected | crates/lovenode-core/src/tx.rs:98-125 | every strict prefix and every strict extension of a printed transaction is rejected |
| Tx.AcceptedNormalForm | crates/lovenode-core/src/tx.rs:98-125 | re-printing an accepted string is no longer, parses alike, and is the same iff as long; 41*inputs + 9*outputs + 10 is within its length |
| Tx.NonShortestPrefixAccepted | crates/lovenode-core/src/serialize.rs:85-93 | a longer length prefix than needed is accepted |
| Coinstake.FoldIsCappedTotal | crates/lovenode-core/src/tx.rs:186-191 | on non-negative outputs the saturating fold is min(sum, i64::MAX) |
| Coinstake.FoldExactIff | crates/lovenode-core/src/tx.rs:186-191 | the fold is min(sum, i64::MAX) in every order of the outputs iff nothing negative is paid or both signs fit 64 bits |
| Coinstake.ReturnsAtLeastIff | crates/lovenode-core/src/tx.rs:180-224 | under that condition the guard passes iff the exact total is positive and covers the minimum |
| Coinstake.GuardSoundIff | crates/lovenode-core/src/tx.rs:180-224 | a pass means the exact total covers the minimum, in every order of the payouts, iff the negative outputs fit 64 bits, or the positive ones total at most 2^63, or the total reaches i64::MAX |
| Coinstake.GuardCoversTotal | crates/lovenode-core/src/tx.rs:180-224 | under that condition a pass on the transaction at hand means that its exact total covers the minimum |
| Coinstake.GuardBoundsPositive | crates/lovenode-core/src/tx.rs:180-224 | on every transaction the guard's passing bounds the positive outputs to the script from below |
| Coinstake.NegativeOutputsOverstate | crates/lovenode-core/src/tx.rs:186-191 | for every script and minimum below i64::MAX an order of outputs that passes though the total is zero |
| Coinstake.BuiltCoinstakePasses | crates/lovenode-core/src/tx.rs:157-174 | a built coinstake spends the staked outpoint alone and passes the guard for each of its payouts |
| Coinstake.BuildsIff | crates/lovenode-core/src/tx.rs:157-166 | a coinstake is built iff the outpoint is real and there is a payout and none is negative |
| Coinstake.GuardNeedsCoinstake | crates/lovenode-core/src/tx.rs:138-143 | the guard passes only transactions with a real first input, an empty first output and another one |
| Merkle.PairUpLoop | crates/lovenode-core/src/block.rs:86-94 | one level of pair hashes |
| Merkle.MerkleRootLoop | crates/lovenode-core/src/block.rs:76-97 | the halving loop computes the root, zero for no transactions |
| Merkle.RootIsTree | crates/lovenode-core/src/block.rs:76-97 | the loop's root is the hash tree, from the top down, over the list filled up by duplication |
| Merkle.SmallRoots | crates/lovenode-core/src/block.rs:76-97 | the roots of no id, one, two and three, written out: the first before the second, the third with itself |
| Merkle.TreeBinds | crates/lovenode-core/src/block.rs:86-94 | two leaf lists with one root exhibit a collision among the strings hashed for them |
| Merkle.EqualLengthBinding | crates/lovenode-core/src/block.rs:76-97 | two different equally long id lists with one root exhibit a collision |
| Merkle.EqualHeightBinding | crates/lovenode-core/src/block.rs:76-97 | lists of one tree height have one root if their duplicated-out leaves agree; if the leaves differ and the roots agree, a collision among the strings hashed for them is exhibited |
| Merkle.DuplicatedTailKeepsRoot | crates/lovenode-core/src/block.rs:74-85 | for length 2^k*m, m odd and at least 3, repeating the last 2^k ids keeps the root (CVE-2012-2459 in general) |
| Merkle.RepeatedWholeDoublesRoot | crates/lovenode-core/src/block.rs:74-85 | for length 2^k repeating the whole list hashes the old root with itself |
| Merkle.DuplicatedTailIff | crates/lovenode-core/src/block.rs:74-85 | for every length 2^k*m with m odd, repeating the last 2^k ids keeps the root iff m is at least 3 or the root hashed with itself gives itself |
| Block.HeaderRoundTrip | crates/lovenode-core/src/block.rs:38-64 | every field can be read back from the hashed bytes |
| Block.HeaderLayout | crates/lovenode-core/src/block.rs:39-51 | where a reader of a header finds each field, the checkpoint from version 4 on only |
| Block.FullHeadersOnly | crates/lovenode-core/src/block.rs:56-64 | exactly the headers of 112 bytes are hashed |
| SigHash.SignatureHashLoop | crates/lovenode-sign/src/sighash.rs:27-51 | overwriting each scriptSig of a copy computes the digest, and refuses other hash types and indices |
| SigHash.DigestIgnoresSignatures | crates/lovenode-sign/src/sighash.rs:42-46 | what is hashed does not depend on signatures already in the transaction |
| SigHash.PreimageIff | crates/lovenode-sign/src/sighash.rs:27-51 | equal preimages at an index iff version, outpoints, sequences, outputs, lock time and script code are equal |
| SigHash.PreimageDetermines | crates/lovenode-sign/src/sighash.rs:27-51 | with a non-empty script code the preimage determines the input index too |
| SigHash.PreimageLayout | crates/lovenode-sign/src/sighash.rs:42-49 | what is hashed parses to this transaction with the code as only script, at the signed input, and ends in the hash type 1 |
| SigHash.ScriptSigLayout | crates/lovenode-sign/src/lib.rs:128-145 | signature, hash type 1, public key, each push behind its length |
| SigHash.SignedInputUnlocksIff | crates/lovenode-sign/src/lib.rs:128-145 | by the script rules, an input unlocks a pay-to-public-key-hash output iff the output names its key's hash and the curve accepts the signature over this input's digest |
| SigHash.CompactReads | crates/lovenode-sign/src/lib.rs:166-173 | how a verifier reads the recovery id and the compression flag off a block signature's first byte |
| SigHash.SignCoinstakeSteps | crates/lovenode-sign/src/lib.rs:89-119 | the guards, the pushes and the one assignment compute the signed coinstake or refusal of which SignedCoinstake and ScriptSigLayout speak |
| SigHash.SignedCoinstake | crates/lovenode-sign/src/lib.rs:89-119 | a signed coinstake is the template but for one scriptSig, which signs the signed transaction itself, and it passes the payback guard |
| CoinSelection.SelectLoop | crates/lovenode-phone/src/send.rs:141-160 | the search and the accumulating loop compute the selection |
| CoinSelection.SortStable | crates/lovenode-phone/src/send.rs:144 | coins of equal value keep the wallet's order, so the first of the smallest sufficient ones is taken |
| CoinSelection.SelectedDescend | crates/lovenode-phone/src/send.rs:151-158 | the coins are taken largest first |
| CoinSelection.SelectIsBest | crates/lovenode-phone/src/send.rs:145-160 | if any selection pays the amount and its own fee, the chosen one does, with no more inputs, as long as that many of the largest coins add up in 64 bits |
| CoinSelection.FewestInputsIff | crates/lovenode-phone/src/send.rs:145-160 | for wallets of any worth and any amount: the fewest possible inputs are used iff that many of the largest coins add up in 64 bits, or are all there are and no smaller sum is i64::MAX |
| CoinSelection.WrappedSumTakesMore | crates/lovenode-phone/src/send.rs:153-154 | an input at which the wrapped sum makes the loop take one coin more than the fewest |
| CoinSelection.LargestIsBest | crates/lovenode-phone/src/send.rs:150-158 | no selection of as many coins is worth more than the largest ones |
| CoinSelection.SelectIsSelection | crates/lovenode-phone/src/send.rs:141-160 | every coin is chosen at most as often as the wallet holds it |
| CoinSelection.SmallestSufficientCoin | crates/lovenode-phone/src/send.rs:147-149 | when one coin is enough, one is taken and no smaller one would do |
| Send.TotalInLoop | crates/lovenode-phone/src/send.rs:163-166 | the saturating total of the verified values |
| Send.SignLoop | crates/lovenode-phone/src/send.rs:203-208 | signing input after input in the mutating transaction gives signatures over the unsigned one |
| Send.DraftLoop | crates/lovenode-phone/src/send.rs:133-200 | the build up to the unsigned transaction, every exit in order |
| Send.BuildLoop | crates/lovenode-phone/src/send.rs:124-220 | the whole build computes the specified payment or the specified refusal |
| Send.NotEnoughIff | crates/lovenode-phone/src/send.rs:145-170 | with honest hints, "not enough" iff the positive coins total less than i64::MAX and no selection of the wallet's coins covers the amount and its own fee |
| Send.PaymentConserves | crates/lovenode-phone/src/send.rs:163-214 | verified inputs = outputs + reported fee, exactly when the verified values total at most i64::MAX |
| Send.BurnWithinCapIff | crates/lovenode-phone/src/send.rs:163-220 | what is really given away is the reported fee plus what the saturated total left uncounted, and is within the cap iff the verified values exceed i64::MAX by no more than the fee leaves of it |
| Send.SaturatedTotalBurns | crates/lovenode-phone/src/send.rs:27-28 | an input at which a payment reports a fee of 3940 and gives away i64::MAX more |
| Send.FeeBounds | crates/lovenode-phone/src/send.rs:167-220 | the fee is under the cap and less than dust above the estimate, and at least the estimate iff amount and estimate fit 64 bits |
| Send.FeeIsForSize | crates/lovenode-phone/src/send.rs:98-104 | the estimate is 10 (fast 50) per byte of the transaction it is made for, and a constant |
| Send.PaysRelayFee | crates/lovenode-phone/src/send.rs:98-104 | a finished payment with compressed keys and signatures of at most 71 bytes pays 10 (fast 50) per byte, when amount and estimate fit 64 bits |
| Send.SaturatedNeedPaysNoFee | crates/lovenode-phone/src/send.rs:147-180 | the whole of a coin worth i64::MAX can be sent for no fee |
| Send.OutputsNeverExceedInputs | crates/lovenode-phone/src/send.rs:213-217 | the "outputs exceed inputs" exit is unreachable |
| Send.FinalCapIff | crates/lovenode-phone/src/send.rs:218-220 | exactly when the final fee cap refuses a payment that the first one let through |
| Send.OutputsAre | crates/lovenode-phone/src/send.rs:175-183 | output 0 is the amount to the destination; the rest is the fast marker and change of at least dust to the change script |
| Send.InputsAreSigned | crates/lovenode-phone/src/send.rs:187-208 | the inputs are the selected coins, and each scriptSig signs the digest of the finished transaction with that coin's key |
| Send.FinishedInputUnlocksIff | crates/lovenode-phone/src/send.rs:203-208 | every input of a finished payment unlocks the output its coin's key is paid by, and no other key's, iff the curve accepts the signature over its digest |
| Send.MarkerSpells | crates/lovenode-phone/src/send.rs:68-75 | the marker output is OP_META and a push of the text DFS1, worth nothing |
| Send.BuildSendLoop | crates/lovenode-phone/src/send.rs:124-229 | the whole of build_signed_send computes the answer of which SendReadsBack speaks |
| Send.SendReadsBack | crates/lovenode-phone/src/send.rs:222-228 | the hex parses to a transaction whose hash is the reported id, and whose outputs with the reported fee are the verified total of the selected coins |
| Send.FinishedSendReadsBack | crates/lovenode-phone/src/send.rs:222-228 | the hex parses to the signed transaction and the reported id is its hash |
| Bip39.ReadGroup | crates/lovenode-hdwallet/src/bip39.rs:66-77 | the inner loop reads eleven bits across entropy and checksum |
| Bip39.FromEntropyLoop | crates/lovenode-hdwallet/src/bip39.rs:53-81 | the loops compute the mnemonic of the entropy |
| Bip39.PhraseBitsLoop | crates/lovenode-hdwallet/src/bip39.rs:92-101 | the words' indices, eleven bits each, or an unknown word |
| Bip39.RebuildLoop | crates/lovenode-hdwallet/src/bip39.rs:105-112 | the buffer filled byte by byte spreads back to the leading bits |
| Bip39.ParseWordsLoop | crates/lovenode-hdwallet/src/bip39.rs:84-124 | count, words and checksum are checked as specified |
| Bip39.ParseIffFromEntropy | crates/lovenode-hdwallet/src/bip39.rs:53-124 | words parse to entropy e iff they are the mnemonic of e |
| Bip39.MnemonicIsNumeral | crates/lovenode-hdwallet/src/bip39.rs:53-81 | the words are the base-2048 digits, first word first, of the entropy as a number followed by the leading bits of its hash |
| Bip39.ParseAcceptsIff | crates/lovenode-hdwallet/src/bip39.rs:84-124 | a phrase is accepted iff its white-space separated words are the mnemonic of some entropy |
| Bip39.SplitAtWhitespace | crates/lovenode-hdwallet/src/bip39.rs:85 | white space separates the words of a phrase wherever it stands |
| Bip39.GeneratedPhraseParses | crates/lovenode-hdwallet/src/bip39.rs:53-124 | a generated phrase is accepted unchanged |
| RateLimiter.Limiter.Allow | crates/lovenode-relay/src/server.rs:64-78 | the fields move as specified and the answer is the specified one |
| RateLimiter.AtMostTwiceLimit | crates/lovenode-relay/src/server.rs:64-78 | over any run with a non-decreasing clock at most 2*limit calls pass in any half-open 60 seconds |
| RateLimiter.AtMostLimitPerWindow | crates/lovenode-relay/src/server.rs:64-78 | from the opening of a window at most the limit passes within it |
| RateLimiter.TwiceLimitReached | crates/lovenode-relay/src/server.rs:64-78 | the bound of twice the limit is reached |
| RateLimiter.RefusedIff | crates/lovenode-relay/src/server.rs:64-78 | a call is refused iff the limit has passed since a window that opened less than 60 seconds ago |
| DeviceRegistry.ValidateSpelledOut | crates/lovenode-relay/src/registry.rs:46-74 | accepted iff there is a token and 1 to 64 entries, each a valid address and none key-like |
| DeviceRegistry.AcceptedReads | crates/lovenode-relay/src/registry.rs:32-74 | each accepted entry is shorter than 50 characters, has no mark of a key, and spells the 25 bytes of an address |
| DeviceRegistry.KeyMaterialRefused | crates/lovenode-relay/src/registry.rs:77-86 | each mark of a key in any entry is enough for a refusal |
| DeviceRegistry.RegisterIff | crates/lovenode-relay/src/registry.rs:100-114 | a valid registration is refused iff its token is new and 20000 devices are there; otherwise only its token changes |
| DeviceRegistry.WatchableIsNoKey | crates/lovenode-relay/src/registry.rs:46-74 | no accepted entry is a private key in WIF |
| DeviceRegistry.RegisterSound | crates/lovenode-relay/src/registry.rs:100-114 | registering keeps the bound on devices and the validity of every entry |
| DeviceRegistry.RemoveSound | crates/lovenode-relay/src/registry.rs:116-118 | so does removing |
| DeviceRegistry.Registry.RegisterDevice | crates/lovenode-relay/src/registry.rs:100-114 | the new map, or the refusal and the old map |
| DeviceRegistry.Registry.Remove | crates/lovenode-relay/src/registry.rs:116-118 | that token is gone and nothing else changed |
| DeviceRegistry.Registry.SetCoins | crates/lovenode-relay/src/registry.rs:125-129 | only that device's coins change |
| DeviceRegistry.Registry.AllAddresses | crates/lovenode-relay/src/registry.rs:140-148 | exactly the addresses that some device watches, in strictly ascending order |
| Server.InvStep | crates/lovenode-relay/src/server.rs:312-411 | every lock section of every connection keeps the invariant |
| Server.Safety | crates/lovenode-relay/src/server.rs:312-411 | in every run: distinct tokens have distinct connections below the counter, the registry is bounded and validated, every registered token is routed or being removed |
| Server.RouteLostIff | crates/lovenode-relay/src/server.rs:402-411 | a step takes a route away iff it is the disconnect of the very connection it leads to, and moves it only to one that has just registered the token |
| Server.RouteSurvives | crates/lovenode-relay/src/server.rs:402-411 | over any run a route lasts until its own connection disconnects or its token registers again, however old connections of the token end |
| Server.OrphanedIff | crates/lovenode-relay/src/server.rs:352-362 | a step leaves a routed token unregistered iff a new token is refused at capacity or a cleanup finishes after its token came back |
| Server.NeverOrphanedIff | crates/lovenode-relay/src/server.rs:352-362 | no state of a run has a routed but unregistered token iff neither of those two events occurs in it |
| Server.MapsAgree | crates/lovenode-relay/src/server.rs:353-362 | without those two events, and with no cleanup half done, both maps hold the same tokens |
| Server.ReconnectLosesRegistration | crates/lovenode-relay/src/server.rs:403-409 | a run after which a connection is served and routed but its device is unregistered |
| Server.DeadRouteIff | crates/lovenode-relay/src/server.rs:329 | a step leaves a route to a dead connection iff it is a read error on the connection that owns the route |
| Server.RoutesServeIff | crates/lovenode-relay/src/server.rs:312-411 | in every state of a run every route serves iff no such read error occurs in it |
| Server.ReadErrorLeavesRoute | crates/lovenode-relay/src/server.rs:329 | a run after which a device is registered and routed with nobody there |
| Server.RegisteredByRouted | crates/lovenode-relay/src/server.rs:352-362 | in every run a token routed and registered carries exactly the addresses that the connection it is routed to registered |
| Server.RegistersOnce | crates/lovenode-relay/src/server.rs:337-346 | a connection has at most one registration accepted |
| Server.RouteUnlessRegistered | crates/lovenode-relay/src/server.rs:356-362 | over any run a token has its route from the start or from an accepted registration |
| Server.RelayState.FetchConnId | crates/lovenode-relay/src/server.rs:312 | the counter section is the connect step |
| Server.RelayState.RegisterSection | crates/lovenode-relay/src/server.rs:356-362 | the section under both locks is the registration step, and the count it reports is zero |
| Server.RelayState.RouteSection | crates/lovenode-relay/src/server.rs:403-408 | the first cleanup section is the disconnect step |
| Server.RelayState.DeviceSection | crates/lovenode-relay/src/server.rs:409 | the second cleanup section is the removal step |
| Engine.Search | crates/lovenode-relay/src/engine.rs:49-89 | the loop over stakers computes the list of wins |
| Engine.BestWinLeast | crates/lovenode-relay/src/engine.rs:59-65 | the least second at which any of the coins wins, and the earliest listed coin then; none only if no coin wins |
| Engine.WindowIsAhead | crates/lovenode-relay/src/engine.rs:50-51 | the window starts at now or right after the tip, whichever is later and representable, and spans the seconds asked for |
| Engine.OneWinPerWinner | crates/lovenode-relay/src/engine.rs:54-88 | one win for each staker with a coin winning in the window, in order, and no other |
| Engine.NoticeVerifies | crates/lovenode-relay/src/protocol.rs:58-86 | the phone's check of a notice is the win check of the coin it was made for |
| Engine.VerifyWinIff | crates/lovenode-relay/src/protocol.rs:55-86 | a notice is believed with a proof iff it is within 4000 transactions and 2097152 characters of hex, its id names a hash, and the coin it describes wins with that proof |
| Engine.FoundWinsVerify | crates/lovenode-relay/src/engine.rs:49-89 | every win found passes the phone's check with the same proof, names a coin of its staker, and is after the tip |
| Tick.OwnCoinsIff | crates/lovenode-relay/src/server.rs:140-156 | a device is searched with exactly the coins on its own addresses |
| Tick.OwnCoinsConcat | crates/lovenode-relay/src/server.rs:144-148 | order and repetitions of a device's coins are kept |
| Tick.RoutedWinDelivered | crates/lovenode-relay/src/server.rs:159-166 | every win whose token has a route is delivered, in the order found |
| Tick.DeliveriesArePrivate | crates/lovenode-relay/src/server.rs:140-166 | a connection is told only of genuine wins of coins on addresses that its token registered |
| Tick.DeliveriesAreOwn | crates/lovenode-relay/src/server.rs:140-166 | over any run: of coins on addresses the connection registered itself, unless its token was registered again between snapshot and routing |
| Phone.HeightPushLoop | crates/lovenode-phone/src/lib.rs:284-297 | the shifting loop computes the height push |
| Phone.HeightPushDecodes | crates/lovenode-phone/src/lib.rs:284-297 | for every 64-bit height: at most nine bytes, minimal, and it decodes to the height |
| Phone.HeightPushUnique | crates/lovenode-phone/src/lib.rs:284-297 | it is the only minimal script number of the height |
| Phone.CoinbasesDiffer | crates/lovenode-phone/src/lib.rs:284-311 | different heights give different serialized coinbases |
| Phone.CoinbaseLayout | crates/lovenode-phone/src/lib.rs:284-311 | the serialized coinbase of every height, byte for byte around its script |
| Phone.CoinbaseScriptReads | crates/lovenode-phone/src/lib.rs:284-301 | the script pushes the height as a minimal number and then the number 1 |
| Phone.Block700Coinbase | crates/lovenode-core/src/tx.rs:231-251 | for height 700 the script and the length are those of the node's own coinbase |
| Phone.OwnedCoinIsOurs | crates/lovenode-phone/src/lib.rs:186-188 | the first coin of ours with that id and index, or there is none |
| Phone.TxidsLoop | crates/lovenode-phone/src/lib.rs:242-246 | the ids are pushed in order, or the first bad transaction is refused |
| Phone.TxidsInOrder | crates/lovenode-phone/src/lib.rs:242-246 | the listed ids are found iff every listed transaction parses, and are then theirs one for one |
| Phone.BuildSignedStakeLoop | crates/lovenode-phone/src/lib.rs:191-269 | the flow with its loops computes the specified stake or refusal |
| Phone.CheckedCoin | crates/lovenode-phone/src/lib.rs:193-228 | what has been checked before anything is signed: the notice, the coin, the key, the template's only input and height |
| Phone.SignsIff | crates/lovenode-phone/src/lib.rs:191-269 | a stake is signed iff the win verifies, the coin is ours and has a key, its template agrees and returns its value, and the other transactions and the previous hash can be read |
| Phone.TemplateTipIgnored | crates/lovenode-phone/src/lib.rs:222-228 | the signed stake does not depend on the template's previous hash, target and time |
| Phone.SignedStakeIsSafe | crates/lovenode-phone/src/lib.rs:191-269 | a signed stake verifies as a win, spends one coin of ours, differs from the template in one scriptSig only, and returns the recorded value: in positive outputs always, in exact total under the guard's condition |
| Phone.SignedStakeUnlocksIff | crates/lovenode-phone/src/lib.rs:230-236 | its one input unlocks the output the coin's key is paid by, and no other key's, iff the curve accepts the signature |
| Phone.SignedHeader | crates/lovenode-phone/src/lib.rs:241-268 | the reported root covers coinbase, coinstake and listed transactions in order, and the block signature is over the header of that root and the notice |
| Activity.AggregateLoop | crates/lovenode-relay/src/wallet_view.rs:48-58 | the loop over the deltas computes the aggregation |
| Activity.AggregateSums | crates/lovenode-relay/src/wallet_view.rs:48-58 | per transaction the wrapped sum of its deltas and their greatest height, and no other entries |
| Activity.ParseActivity | crates/lovenode-relay/src/wallet_view.rs:45-73 | whatever order the map is walked in, the answer is the one that every order gives |
| Activity.RecentLines | crates/lovenode-relay/src/wallet_view.rs:59-72 | one line per transaction, strictly sorted, and the answer is the first of them |
| Activity.NewestFirst | crates/lovenode-relay/src/wallet_view.rs:63-70 | entries not yet in a block come first, the rest by descending height, and those of one age by id |
| Activity.RecentIsDeterministic | crates/lovenode-relay/src/wallet_view.rs:64-70 | any two walks of the map give the same answer |
| Activity.BeforeIsStrictTotalOrder | crates/lovenode-relay/src/wallet_view.rs:64-70 | the sort order is strict and total on lines of different transactions |
| Activity.NetsAreExactIff | crates/lovenode-relay/src/wallet_view.rs:48-58 | every line's net is the exact sum of its deltas iff no such sum leaves 64 bits |
| Activity.LinesAddUp | crates/lovenode-relay/src/wallet_view.rs:48-58 | the lines before truncation add up to all deltas, modulo 2^64 always and exactly if no net leaves 64 bits |
| Staking.FoundWinSignedIff | crates/lovenode-phone/src/lib.rs:191-269 | a win the relay found is signed iff the coin is ours, has a key and its template agrees: nothing in the notice itself is ever the reason to refuse |
| Staking.DeliveredWinSignedIff | crates/lovenode-relay/src/server.rs:140-166 | the same of a delivered win, and what is signed spends a coin on an address that the token it was routed by had registered |
| Staking.DeliveredWinIsOwn | crates/lovenode-relay/src/server.rs:140-166 | over any run of the relay, what is signed spends a coin on an address that the connection told of it registered itself, with the same exception |

## Left out

- SHA-256, RIPEMD-160, HMAC, PBKDF2, secp256k1 and the system's entropy: foreign code, parameters here; a DER signature is taken to be at most 72 bytes and a public key at most 65.
- BIP-32 derivation and the HD wallet: nearly all foreign cryptography around a plain fold.
- The node's RPC, JSON, WebSocket framing, timeouts and scheduling: of the relay only the lock sections remain, each as one atomic step.
- `lovenode-rewards`: its decay curve is floating point with rounding, and the rest are single branches.
- `lovenode-c2pa`, `payments.rs`, `session.rs`, `lovenode-keystore`, base64, the app's commands and user interface: only easy members beside the above. The address check that the registry calls in `payments.rs` is modelled by `Wallet.AddressScript`.
- Texts of error messages: an error is one of a few kinds. Erasure of secrets from memory is not modelled.
- Server.Safety: connection ids are unbounded, so the wrap of the 64-bit counter after 2^64 connections is not modelled; outbound channels, their queue limit and lost sends are not modelled either.
- RateLimiter.AtMostTwiceLimit: the clock is a parameter, in nanoseconds and non-decreasing.
- CoinSelection.SelectLoop: the library sort is the stable insertion sort as a function, not an in-place algorithm; the fee estimate is an exact integer, whose machine product would wrap only from about 10^15 inputs on.
- CoinSelection.FewestInputsIff: a fee beyond 64 bits is excluded, because the product that estimates it would have wrapped in the code.
- Activity.ParseActivity: the sort is a function of the lines; sums wrap as in a release build (a debug build would stop), as do the selection sum and the height of a notice.
- DeviceRegistry.ValidateSpelledOut: the length that marks a key counts characters where the code counts UTF-8 bytes; only strings outside ASCII differ, and no address has such characters.
- Engine.NoticeVerifies: likewise the size of the listed transactions counts characters.
- Tx.SerializeLoop: vectors are taken to be shorter than 2^64, as any vector in memory is.
- Bip39.ParseWordsLoop: answers the rebuilt entropy, which the code erases once the checksum is verified, so that the round trip can be stated.
- Tick.DeliveriesArePrivate: the devices are those of one snapshot of the registry and the routes those of the later lock section; the order in which the map is walked is arbitrary.
