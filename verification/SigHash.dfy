/** The legacy `SIGHASH_ALL` digest, and the signatures made over it. */
module SigHash {
  import opened Machine
  import opened Radix
  import opened Tx
  import opened Wallet
  import Coinstake
  import Script

  datatype SignError = BadHashType | InputOutOfRange | Refused(reason: Coinstake.CoinstakeError)

  const SIGHASH_ALL: u32 := 1

  // ----- the digest -----

  function BlankedIns(ins: seq<TxIn>, n: nat, scriptCode: bytes): (r: seq<TxIn>)
    ensures |r| == |ins|
  {
    seq(|ins|, i requires 0 <= i < |ins| => ins[i].(scriptSig := if i == n then scriptCode else []))
  }

  /** Every scriptSig emptied, except input `n`, which carries `scriptCode`. */
  function Blanked(tx: Transaction, n: nat, scriptCode: bytes): Transaction {
    tx.(vin := BlankedIns(tx.vin, n, scriptCode))
  }

  /** A transaction without its signatures. */
  function Skeleton(tx: Transaction): Transaction { Blanked(tx, |tx.vin|, []) }

  lemma BlankedSized(tx: Transaction, n: nat, scriptCode: bytes)
    requires Sized(tx) && |scriptCode| < TWO_64
    ensures Sized(Blanked(tx, n, scriptCode))
  {
  }

  function Preimage(tx: Transaction, n: nat, scriptCode: bytes): bytes
    requires Sized(tx) && |scriptCode| < TWO_64
  {
    BlankedSized(tx, n, scriptCode);
    TxBytes(Blanked(tx, n, scriptCode)) + LeBytes(SIGHASH_ALL, 4)
  }

  function SignatureHash(dsha: Hasher, tx: Transaction, n: nat, scriptCode: bytes, hashType: u32)
      : Result<Digest, SignError>
    requires Sized(tx) && |scriptCode| < TWO_64
  {
    if hashType != SIGHASH_ALL then Err(BadHashType)
    else if n >= |tx.vin| then Err(InputOutOfRange)
    else Ok(dsha(Preimage(tx, n, scriptCode)))
  }

  /** `signature_hash`: clone, overwrite each scriptSig in turn, append the hash type. */
  method SignatureHashLoop(dsha: Hasher, tx: Transaction, n: nat, scriptCode: bytes, hashType: u32)
      returns (r: Result<Digest, SignError>)
    requires Sized(tx) && |scriptCode| < TWO_64
    ensures r == SignatureHash(dsha, tx, n, scriptCode, hashType)
  {
    if hashType != SIGHASH_ALL {
      return Err(BadHashType);
    }
    if n >= |tx.vin| {
      return Err(InputOutOfRange);
    }
    var vin := tx.vin;
    for i := 0 to |tx.vin|
      invariant |vin| == |tx.vin|
      invariant forall k :: 0 <= k < i ==> vin[k] == BlankedIns(tx.vin, n, scriptCode)[k]
      invariant forall k :: i <= k < |vin| ==> vin[k] == tx.vin[k]
    {
      vin := vin[i := vin[i].(scriptSig := if i == n then scriptCode else [])];
    }
    assert vin == BlankedIns(tx.vin, n, scriptCode);
    BlankedSized(tx, n, scriptCode);
    var buf := SerializeLoop(tx.(vin := vin));
    return Ok(dsha(buf + LeBytes(hashType, 4)));
  }

  /** Signatures already in the transaction do not enter the digest. */
  lemma DigestIgnoresSignatures(tx: Transaction, tx': Transaction, n: nat, scriptCode: bytes)
    requires Skeleton(tx) == Skeleton(tx')
    ensures Blanked(tx, n, scriptCode) == Blanked(tx', n, scriptCode)
  {
    var a, b := Skeleton(tx).vin, Skeleton(tx').vin;
    forall i | 0 <= i < |tx.vin|
      ensures BlankedIns(tx.vin, n, scriptCode)[i] == BlankedIns(tx'.vin, n, scriptCode)[i]
    {
      assert a[i] == b[i];
    }
  }

  lemma BlankedDetermines(tx: Transaction, tx': Transaction, n: nat, n': nat, code: bytes, code': bytes)
    requires n < |tx.vin| && n' < |tx'.vin| && Blanked(tx, n, code) == Blanked(tx', n', code')
    ensures Skeleton(tx) == Skeleton(tx') && code == code'
    ensures code != [] ==> n == n'
  {
    var a, b := BlankedIns(tx.vin, n, code), BlankedIns(tx'.vin, n', code');
    assert a[n] == b[n] && a[n'] == b[n'];
    forall i | 0 <= i < |tx.vin| ensures Skeleton(tx).vin[i] == Skeleton(tx').vin[i] {
      assert a[i] == b[i];
    }
    assert Skeleton(tx).vin == Skeleton(tx').vin;
  }

  /** Two inputs are signed over the same bytes exactly when the transactions agree in version,
      outpoints, sequences, outputs and lock time, and the script codes are the same; and then,
      unless the code is empty, it is the same input. */
  lemma PreimageIff(tx: Transaction, tx': Transaction, n: nat, code: bytes, code': bytes)
    requires Sized(tx) && Sized(tx') && |code| < TWO_64 && |code'| < TWO_64
    requires n < |tx.vin| && n < |tx'.vin|
    ensures Preimage(tx, n, code) == Preimage(tx', n, code') <==> Skeleton(tx) == Skeleton(tx') && code == code'
  {
    if Preimage(tx, n, code) == Preimage(tx', n, code') {
      PreimageDetermines(tx, tx', n, n, code, code');
    }
    if Skeleton(tx) == Skeleton(tx') {
      DigestIgnoresSignatures(tx, tx', n, code);
    }
  }

  lemma PreimageDetermines(tx: Transaction, tx': Transaction, n: nat, n': nat, code: bytes, code': bytes)
    requires Sized(tx) && Sized(tx') && |code| < TWO_64 && |code'| < TWO_64
    requires n < |tx.vin| && n' < |tx'.vin|
    requires Preimage(tx, n, code) == Preimage(tx', n', code')
    ensures Skeleton(tx) == Skeleton(tx') && code == code' && (code != [] ==> n == n')
  {
    BlankedSized(tx, n, code);
    BlankedSized(tx', n', code');
    var b, b' := TxBytes(Blanked(tx, n, code)), TxBytes(Blanked(tx', n', code'));
    var t := LeBytes(SIGHASH_ALL, 4);
    assert b == (b + t)[..|b + t| - 4] && b' == (b' + t)[..|b' + t| - 4];
    SerializeInjective(Blanked(tx, n, code), Blanked(tx', n', code'));
    BlankedDetermines(tx, tx', n, n', code, code');
  }

  /** What is hashed: a transaction like this one, whose only script is the code at input `n`, and
      behind it the hash type 1 in four bytes. */
  lemma PreimageLayout(tx: Transaction, n: nat, scriptCode: bytes)
    requires Sized(tx) && |scriptCode| < TWO_64
    ensures var b := Preimage(tx, n, scriptCode);
            && |b| >= 4 && b[|b| - 4..] == [1, 0, 0, 0]
            && var read := Deserialize(b[..|b| - 4]);
               && read.Ok? && read.value.version == tx.version && read.value.vout == tx.vout
               && read.value.lockTime == tx.lockTime && |read.value.vin| == |tx.vin|
               && forall i :: 0 <= i < |tx.vin| ==>
                    && read.value.vin[i].prevout == tx.vin[i].prevout
                    && read.value.vin[i].sequence == tx.vin[i].sequence
                    && read.value.vin[i].scriptSig == if i == n then scriptCode else []
  {
    hide TxBytes, Deserialize, LeBytes;
    BlankedSized(tx, n, scriptCode);
    var body := TxBytes(Blanked(tx, n, scriptCode));
    DeserializeSerialize(Blanked(tx, n, scriptCode));
    HashTypeBytes();
    assert (body + [1, 0, 0, 0])[..|body|] == body && (body + [1, 0, 0, 0])[|body|..] == [1, 0, 0, 0];
  }

  lemma HashTypeBytes()
    ensures LeBytes(SIGHASH_ALL, 4) == [1, 0, 0, 0]
  {
    assert LeBytes(0, 1) == [0] + LeBytes(0, 0) && LeBytes(0, 2) == [0] + LeBytes(0, 1);
    assert LeBytes(0, 3) == [0] + LeBytes(0, 2);
  }

  // ----- signing, with the elliptic curve left open -----

  type Der = b: bytes | |b| <= 72 witness []
  type PubKey = b: bytes | |b| <= 65 witness []

  type Compact64 = b: bytes | |b| == 64 witness seq(64, _ => 0)

  /** A signature from which the public key can be recovered, given one of four ids. */
  datatype Recoverable = Recoverable(id: RecoveryId, compact: Compact64)
  type RecoveryId = i: int | 0 <= i < 4

  /** The foreign functions: hashes, public keys, and the two kinds of signature. */
  datatype Crypto = Crypto(dsha: Hasher, hash160: Script.Hash160, pubkey: StakingKey -> PubKey,
                           sign: (StakingKey, Digest) -> Der, signRecoverable: (StakingKey, Digest) -> Recoverable)

  function KeyScript(c: Crypto, key: StakingKey): (s: bytes)
    ensures |s| == 25
  {
    P2pkhScript(c.hash160(c.pubkey(key)))
  }

  function PushData(data: bytes): bytes
    requires |data| < 0x4c
  {
    [|data|] + data
  }

  /** `<signature + hash type> <public key>` */
  function ScriptSig(c: Crypto, key: StakingKey, digest: Digest): (s: bytes)
    ensures |s| <= 140
  {
    PushData(c.sign(key, digest) + [SIGHASH_ALL]) + PushData(c.pubkey(key))
  }

  function SignP2pkhInput(c: Crypto, key: StakingKey, tx: Transaction, n: nat, scriptCode: bytes)
      : Result<bytes, SignError>
    requires Sized(tx) && |scriptCode| < TWO_64
  {
    match SignatureHash(c.dsha, tx, n, scriptCode, SIGHASH_ALL)
    case Err(e) => Err(e)
    case Ok(digest) => Ok(ScriptSig(c, key, digest))
  }

  /** Sign the coinstake's input, unless less than `stakedValue` comes back to the key. */
  function SignCoinstake(c: Crypto, key: StakingKey, unsigned: Transaction, scriptCode: bytes, stakedValue: i64)
      : Result<Transaction, SignError>
    requires Sized(unsigned) && |scriptCode| < TWO_64
  {
    if !Coinstake.IsCoinstake(unsigned) then Err(Refused(Coinstake.NotACoinstake)) else
    match Coinstake.CoinstakeReturnsAtLeast(unsigned, KeyScript(c, key), stakedValue)
    case Err(e) => Err(Refused(e))
    case Ok(_) =>
      match SignatureHash(c.dsha, unsigned, 0, scriptCode, SIGHASH_ALL)
      case Err(e) => Err(e)
      case Ok(digest) =>
        var scriptSig := ScriptSig(c, key, digest);
        Ok(unsigned.(vin := unsigned.vin[0 := unsigned.vin[0].(scriptSig := scriptSig)]))
  }

  /** `sign_coinstake`: the guards, then one scriptSig assigned in a copy. */
  method SignCoinstakeSteps(c: Crypto, key: StakingKey, unsigned: Transaction, scriptCode: bytes, stakedValue: i64)
      returns (r: Result<Transaction, SignError>)
    requires Sized(unsigned) && |scriptCode| < TWO_64
    ensures r == SignCoinstake(c, key, unsigned, scriptCode, stakedValue)
  {
    hide Coinstake.CoinstakeReturnsAtLeast, Preimage;
    if !Coinstake.IsCoinstake(unsigned) {
      return Err(Refused(Coinstake.NotACoinstake));
    }
    var paid := Coinstake.CoinstakeReturnsAtLeast(unsigned, KeyScript(c, key), stakedValue);
    if paid.Err? {
      return Err(Refused(paid.error));
    }
    var digest := SignatureHashLoop(c.dsha, unsigned, 0, scriptCode, SIGHASH_ALL);
    assert digest.Ok?;  // a coinstake has an input 0
    var der := c.sign(key, digest.value) + [SIGHASH_ALL];
    var scriptSig := PushData(der);
    scriptSig := scriptSig + PushData(c.pubkey(key));
    var signed := unsigned;
    signed := signed.(vin := signed.vin[0 := signed.vin[0].(scriptSig := scriptSig)]);
    return Ok(signed);
  }

  // ----- what the scripts are worth -----

  /** Signature and hash type, then the public key, each behind its length. */
  lemma ScriptSigLayout(c: Crypto, key: StakingKey, tx: Transaction, n: nat, scriptCode: bytes)
    requires Sized(tx) && |scriptCode| < TWO_64 && n < |tx.vin|
    ensures var der, pub := c.sign(key, c.dsha(Preimage(tx, n, scriptCode))), c.pubkey(key);
            SignP2pkhInput(c, key, tx, n, scriptCode) == Ok([|der| + 1] + der + [1] + [|pub|] + pub)
  {
    hide Preimage;
    PushesInOrder(c.sign(key, c.dsha(Preimage(tx, n, scriptCode))), c.pubkey(key));
  }

  lemma PushesInOrder(der: bytes, pub: bytes)
    requires |der| <= 72 && |pub| <= 65
    ensures PushData(der + [1]) + PushData(pub) == [|der| + 1] + der + [1] + [|pub|] + pub
  {
  }

  lemma AsPushes(der: bytes, pub: bytes)
    requires |der| <= 72 && |pub| <= 65
    ensures var sig := der + [1];
            && [|der| + 1] + der + [1] + [|pub|] + pub == [|sig|] + sig + ([|pub|] + pub + [])
            && sig[|sig| - 1] == 1 && sig[..|sig| - 1] == der
  {
  }

  /** A pushed signature is good for a pushed key when its last byte is the hash type 1 and the rest
      is a signature of that key over the digest; `valid` is the curve's own test. */
  function Checks(valid: (bytes, Digest, bytes) -> bool, digest: Digest): Script.Checker {
    (sig: bytes, pub: bytes) => sig != [] && sig[|sig| - 1] == 1 && valid(pub, digest, sig[..|sig| - 1])
  }

  /** The scriptSig of an input unlocks a pay-to-public-key-hash output exactly when the output names
      the hash of the key it was made with, and the signature is good for that key and this input. */
  lemma SignedInputUnlocksIff(c: Crypto, valid: (bytes, Digest, bytes) -> bool, key: StakingKey, tx: Transaction,
                              n: nat, scriptCode: bytes, h: bytes)
    requires Sized(tx) && |scriptCode| < TWO_64 && n < |tx.vin| && |h| == 20
    ensures var digest := c.dsha(Preimage(tx, n, scriptCode));
            Script.Unlocks(c.hash160, Checks(valid, digest), SignP2pkhInput(c, key, tx, n, scriptCode).value,
                           P2pkhScript(h)) <==>
            c.hash160(c.pubkey(key)) == h && valid(c.pubkey(key), digest, c.sign(key, digest))
  {
    hide Preimage, Script.Unlocks, SignP2pkhInput, P2pkhScript;
    var digest := c.dsha(Preimage(tx, n, scriptCode));
    var der, pub := c.sign(key, digest), c.pubkey(key);
    var sig := der + [1];
    Script.TwoPushesUnlockIff(c.hash160, Checks(valid, digest), sig, pub, h);
    ScriptSigLayout(c, key, tx, n, scriptCode);
    AsPushes(der, pub);
    LockingParts(h);
  }

  lemma LockingParts(h: bytes)
    requires |h| == 20
    ensures P2pkhScript(h) == [0x76] + ([0xa9] + ([20] + h + ([0x88] + ([0xac] + []))))
  {
  }

  // ----- the recoverable signature of a block -----

  /** `encode_compact` */
  function EncodeCompact(sig: Recoverable, compressed: bool): (b: bytes)
    ensures |b| == 65
  {
    [27 + sig.id + (if compressed then 4 else 0)] + sig.compact
  }

  function SignCompact(c: Crypto, key: StakingKey, digest: Digest): bytes {
    EncodeCompact(c.signRecoverable(key, digest), key.compressed)
  }

  /** How a verifier reads it: the first byte, less 27, is the id and, above 3, says compressed. */
  lemma CompactReads(sig: Recoverable, compressed: bool)
    ensures var b := EncodeCompact(sig, compressed);
            27 <= b[0] < 35 && (b[0] - 27) % 4 == sig.id && (b[0] - 27 > 3 <==> compressed) && b[1..] == sig.compact
  {
  }

  lemma SkeletonUpdate(tx: Transaction, n: nat, s: bytes)
    requires n < |tx.vin|
    ensures Skeleton(tx.(vin := tx.vin[n := tx.vin[n].(scriptSig := s)])) == Skeleton(tx)
  {
    var tx' := tx.(vin := tx.vin[n := tx.vin[n].(scriptSig := s)]);
    assert Skeleton(tx').vin == Skeleton(tx).vin;
  }

  /** A signed coinstake is the template but for one scriptSig, which is a signature over the
      digest of the signed transaction itself; and it passes the payback guard. */
  lemma SignedCoinstake(c: Crypto, key: StakingKey, unsigned: Transaction, scriptCode: bytes, stakedValue: i64)
    requires Sized(unsigned) && |scriptCode| < TWO_64
    requires SignCoinstake(c, key, unsigned, scriptCode, stakedValue).Ok?
    ensures var signed := SignCoinstake(c, key, unsigned, scriptCode, stakedValue).value;
            && Sized(signed) && Skeleton(signed) == Skeleton(unsigned)
            && signed.vin[1..] == unsigned.vin[1..]
            && SignP2pkhInput(c, key, signed, 0, scriptCode) == Ok(signed.vin[0].scriptSig)
            && Coinstake.CoinstakeReturnsAtLeast(signed, KeyScript(c, key), stakedValue).Ok?
  {
    var digest := SignatureHash(c.dsha, unsigned, 0, scriptCode, SIGHASH_ALL).value;
    SkeletonUpdate(unsigned, 0, ScriptSig(c, key, digest));
    var signed := SignCoinstake(c, key, unsigned, scriptCode, stakedValue).value;
    DigestIgnoresSignatures(signed, unsigned, 0, scriptCode);
  }
}
