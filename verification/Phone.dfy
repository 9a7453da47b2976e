/** The on-device staker: what must be true before anything is signed, and what a signed stake
    therefore says. */
module Phone {
  import opened Machine
  import opened Radix
  import opened Wire
  import opened Tx
  import opened Coinstake
  import opened SigHash
  import opened Engine
  import opened Text
  import opened CoinSelection
  import opened Block
  import Merkle
  import Script
  import Wallet

  // ----- the deterministic coinbase -----

  /** The height as a minimal script number: little-endian, with a zero byte added when the top
      bit would read as a sign. */
  function HeightPush(height: u64): seq<nat> {
    var h := Digits(256, height);
    if h != [] && h[|h| - 1] >= 0x80 then h + [0] else h
  }

  /** `CScriptNum`: the top bit of the last byte is the sign. */
  function ScriptNum(b: bytes): int {
    if b == [] then 0
    else if b[|b| - 1] < 0x80 then LeValue(b)
    else 0 - LeValue(b[..|b| - 1] + [b[|b| - 1] - 0x80])
  }

  /** No byte could be dropped: the last one carries value, or only makes room for the sign. */
  predicate MinimalScriptNum(b: bytes) {
    b != [] ==> b[|b| - 1] % 0x80 != 0 || (|b| > 1 && b[|b| - 2] >= 0x80)
  }

  lemma DigitsAreBytes(n: nat)
    ensures forall i :: 0 <= i < |Digits(256, n)| ==> Digits(256, n)[i] < 256
  {
    ValueOfDigits(256, n);
  }

  lemma HeightPushIsBytes(height: u64)
    ensures forall i :: 0 <= i < |HeightPush(height)| ==> HeightPush(height)[i] < 256
    ensures |HeightPush(height)| <= 9
  {
    DigitsAreBytes(height);
    HeightDigits(height);
  }

  lemma HeightDigits(height: u64)
    ensures |Digits(256, height)| <= 8
  {
    var h := Digits(256, height);
    ValueOfDigits(256, height);
    if |h| > 8 {
      TopDigitBound(h);
      BytePowers();
      PowMonotone(256, 8, |h| - 1);
    }
  }

  lemma TopDigitBound(ds: seq<nat>)
    requires ds != [] && ds[|ds| - 1] > 0
    ensures Value(256, ds) >= Pow(256, |ds| - 1)
  {
    var k := |ds| - 1;
    assert ds == ds[..k] + ds[k..];
    ValueConcat(256, ds[..k], ds[k..]);
    MulMonotone(1, ds[k], Pow(256, k));
  }

  /** For every height the push is minimal, at most nine bytes, and decodes to the height. */
  lemma HeightPushDecodes(height: u64)
    ensures |HeightPush(height)| <= 9
    ensures var b: bytes := (HeightPushIsBytes(height); HeightPush(height));
            MinimalScriptNum(b) && ScriptNum(b) == height
  {
    HeightPushIsBytes(height);
    var h := Digits(256, height);
    ValueOfDigits(256, height);
    PaddingHasNoValue(h);
  }

  /** It is the only minimal encoding of the height. */
  lemma HeightPushUnique(height: u64, b: bytes)
    requires MinimalScriptNum(b) && ScriptNum(b) == height
    ensures b == HeightPush(height)
  {
    if b == [] {
    } else if b[|b| - 1] >= 0x80 {
      var k := |b| - 1;
      NegativeNotZero(b, b[..k] + [b[k] - 0x80], k);
    } else if b[|b| - 1] == 0 {
      PaddedDigits(height, b);
    } else {
      DigitsOfValue(256, b);
    }
  }

  lemma PaddedDigits(height: u64, b: bytes)
    requires |b| > 1 && b[|b| - 1] == 0 && b[|b| - 2] >= 0x80 && LeValue(b) == height
    ensures b == HeightPush(height)
  {
    hide Value, Digits;
    var low: seq<nat> := b[..|b| - 1];
    assert b == low + [0];
    PaddingHasNoValue(low);
    DigitsOfValue(256, low);
  }

  lemma PaddingHasNoValue(ds: seq<nat>)
    ensures Value(256, ds + [0]) == Value(256, ds)
  {
    ValueConcat(256, ds, [0]);
    assert Value(256, [0]) == 0;
  }

  lemma NegativeNotZero(b: bytes, c: seq<nat>, k: nat)
    requires |b| == k + 1 && b[k] >= 0x80 && c == b[..k] + [b[k] - 0x80] && MinimalScriptNum(b)
    ensures Value(256, c) > 0
  {
    ValueConcat(256, b[..k], [b[k] - 0x80]);
    assert Value(256, [b[k] - 0x80]) == b[k] - 0x80;
    if b[k] > 0x80 {
      MulMonotone(1, b[k] - 0x80, Pow(256, k));
    } else {
      assert b[..k][k - 1] == b[k - 1] >= 0x80;
      TopDigitBound(b[..k]);
    }
  }

  function CoinbaseScript(height: u64): (s: bytes)
    ensures |s| <= 12
  {
    HeightPushIsBytes(height);
    [|HeightPush(height)|] + HeightPush(height) + [1, 1]
  }

  function Coinbase(height: u64): (tx: Transaction)
    ensures Sized(tx)
  {
    Transaction(1, [TxIn(OutPoint(ZeroDigest(), U32_MAX), CoinbaseScript(height), U32_MAX)], [TxOut(0, [])], 0)
  }

  lemma DigitsStep(h: seq<nat>, v: nat)
    requires v > 0
    ensures h + Digits(256, v) == (h + [v % 256]) + Digits(256, v / 256)
  {
  }

  lemma NoDigits()
    ensures Digits(256, 0) == []
  {
  }

  /** `deterministic_coinbase`: shift the height out byte by byte. */
  method HeightPushLoop(height: u64) returns (h: bytes)
    ensures h == HeightPush(height)
  {
    hide Digits;
    h := [];
    var v: nat := height;
    ghost var all := Digits(256, height);
    assert [] + all == all;
    while v > 0
      invariant h + Digits(256, v) == all
      decreases v
    {
      DigitsStep(h, v);
      h := h + [v % 256];
      v := v / 256;
    }
    NoDigits();
    assert h + [] == h;
    if h != [] && h[|h| - 1] >= 0x80 {
      h := h + [0];
    }
  }

  lemma LeOf(a: byte, b: byte, c: byte, d: byte)
    ensures LeBytes(a + 256 * (b + 256 * (c + 256 * d)), 4) == [a, b, c, d]
  {
    assert LeBytes(d, 1) == [d] + LeBytes(0, 0);
    assert LeBytes(c + 256 * d, 2) == [c] + LeBytes(d, 1);
    assert LeBytes(b + 256 * (c + 256 * d), 3) == [b] + LeBytes(c + 256 * d, 2);
  }

  lemma SignedOf(v: i32)
    requires v >= 0
    ensures SignedBytes(v, 4) == LeBytes(v, 4)
  {
    hide LeBytes, Pow;
    BytePowers();
    assert v % TWO_32 == v;
  }

  lemma ZeroValueBytes()
    ensures SignedBytes(0, 8) == [0, 0, 0, 0, 0, 0, 0, 0]
  {
    BytePowers();
    LeOf(0, 0, 0, 0);
    assert LeBytes(0, 5) == [0] + LeBytes(0, 4);
    assert LeBytes(0, 6) == [0] + LeBytes(0, 5);
    assert LeBytes(0, 7) == [0] + LeBytes(0, 6);
    assert LeBytes(0, 8) == [0] + LeBytes(0, 7);
  }

  lemma OneIn(i: TxIn)
    requires |i.scriptSig| < TWO_64
    ensures TxInsBytes([i]) == TxInBytes(i)
  {
    hide TxInBytes;
    assert TxInsBytes([i]) == TxInBytes(i) + TxInsBytes([i][1..]);
  }

  lemma OneOut(o: TxOut)
    requires |o.scriptPubkey| < TWO_64
    ensures TxOutsBytes([o]) == TxOutBytes(o)
  {
    hide TxOutBytes;
    assert TxOutsBytes([o]) == TxOutBytes(o) + TxOutsBytes([o][1..]);
  }

  lemma CoinbaseInBytes(height: u64)
    ensures var script := CoinbaseScript(height);
            TxInBytes(Coinbase(height).vin[0]) ==
            ZeroDigest() + ([0xff, 0xff, 0xff, 0xff] + (([|script|] + script) + [0xff, 0xff, 0xff, 0xff]))
  {
    hide LeBytes, CoinbaseScript, ZeroDigest;
    LeOf(0xff, 0xff, 0xff, 0xff);
  }

  lemma CoinbaseOutBytes(height: u64)
    ensures TxOutBytes(Coinbase(height).vout[0]) == [0, 0, 0, 0, 0, 0, 0, 0] + [0]
  {
    hide SignedBytes, CoinbaseScript, ZeroDigest;
    ZeroValueBytes();
    assert VarBytes([]) == [0];
  }

  /** The bytes of the coinbase of any height: the script is all that varies. */
  lemma CoinbaseLayout(height: u64)
    ensures var script := CoinbaseScript(height);
            TxBytes(Coinbase(height)) ==
            [1, 0, 0, 0] +
            ([1] + ((ZeroDigest() + ([0xff, 0xff, 0xff, 0xff] + (([|script|] + script) + [0xff, 0xff, 0xff, 0xff]))) +
            ([1] + (([0, 0, 0, 0, 0, 0, 0, 0] + [0]) + [0, 0, 0, 0]))))
  {
    hide LeBytes, SignedBytes, CoinbaseScript, ZeroDigest, TxInBytes, TxOutBytes, TxInsBytes, TxOutsBytes;
    LeOf(1, 0, 0, 0);
    LeOf(0, 0, 0, 0);
    SignedOf(1);
    CoinbaseInBytes(height);
    CoinbaseOutBytes(height);
    OneIn(Coinbase(height).vin[0]);
    OneOut(Coinbase(height).vout[0]);
  }

  /** At height 700 these are the 65 bytes a node produced: the script is `02 bc02 01 01`. */
  lemma Block700Coinbase()
    ensures CoinbaseScript(700) == [2, 0xbc, 2, 1, 1] && |TxBytes(Coinbase(700))| == 65
  {
    hide TxBytes, LeBytes;
    assert Digits(256, 700) == [0xbc] + Digits(256, 2);
    assert Digits(256, 2) == [2] + Digits(256, 0);
    CoinbaseLayout(700);
  }

  /** What a reader of the script finds: a push of the height as a minimal number, and of the number 1. */
  lemma CoinbaseScriptReads(height: u64)
    ensures var s := CoinbaseScript(height);
            && |s| >= 3 && s[0] == |s| - 3 && s[|s| - 2..] == [1, 1]
            && MinimalScriptNum(s[1..|s| - 2]) && ScriptNum(s[1..|s| - 2]) == height
  {
    hide HeightPush, MinimalScriptNum, ScriptNum;
    HeightPushIsBytes(height);
    HeightPushDecodes(height);
    var s := CoinbaseScript(height);
    assert s[1..|s| - 2] == HeightPush(height);
  }

  /** Different heights give different serialized coinbases. */
  lemma CoinbasesDiffer(height: u64, height': u64)
    requires TxBytes(Coinbase(height)) == TxBytes(Coinbase(height'))
    ensures height == height'
  {
    SerializeInjective(Coinbase(height), Coinbase(height'));
    assert Coinbase(height).vin[0].scriptSig == Coinbase(height').vin[0].scriptSig;
    var s, s' := CoinbaseScript(height), CoinbaseScript(height');
    HeightPushIsBytes(height);
    HeightPushIsBytes(height');
    var n := |HeightPush(height)|;
    assert s[0] == n && s'[0] == |HeightPush(height')|;
    assert s[1..1 + n] == HeightPush(height) && s'[1..1 + n] == HeightPush(height');
    HeightPushDecodes(height);
    HeightPushDecodes(height');
  }

  // ----- the signing flow -----

  datatype StakeTemplate = StakeTemplate(coinstakeHex: string, height: u64, prevBlockHash: string, bits: u32,
      tipTime: u32)

  /** Keys and templates are answered by others; the functions of the curve are foreign. */
  datatype Env = Env(crypto: Crypto, keyFor: OwnedCoin -> Option<Wallet.StakingKey>,
                     template: (string, u32) -> Option<StakeTemplate>)

  datatype SignedStake = SignedStake(height: u64, coinstakeHex: string, blockSignature: string, headerVersion: u32,
                                     headerTime: u32, headerNonce: u32, merkleRoot: string)

  datatype StakeError =
    | NotVerified(reason: VerifyError) | NotOurCoin | NoKey | NoTemplate | BadHex | BadTransaction | BadHash
    | DifferentCoin | DifferentHeight | NotSigned(refusal: SignError) | BadBlock

  /** `owned_coin`: the first of our coins with this index and, but for case, this id. */
  function OwnedCoinFor(coins: seq<OwnedCoin>, txid: string, vout: u32): Option<OwnedCoin> {
    if coins == [] then None
    else if coins[0].vout == vout && EqIgnoreCase(coins[0].txid, txid) then Some(coins[0])
    else OwnedCoinFor(coins[1..], txid, vout)
  }

  lemma {:induction false} OwnedCoinIsOurs(coins: seq<OwnedCoin>, txid: string, vout: u32)
    ensures match OwnedCoinFor(coins, txid, vout)
            case Some(c) =>
              && c in coins && c.vout == vout && EqIgnoreCase(c.txid, txid)
              && exists k :: 0 <= k < |coins| && coins[k] == c &&
                   forall j :: 0 <= j < k ==> !(coins[j].vout == vout && EqIgnoreCase(coins[j].txid, txid))
            case None => forall c :: c in coins ==> !(c.vout == vout && EqIgnoreCase(c.txid, txid))
  {
    if coins != [] {
      OwnedCoinIsOurs(coins[1..], txid, vout);
    }
  }

  function ParseHexTx(hex: string): Result<Transaction, StakeError> {
    match FromHex(hex)
    case Err(_) => Err(BadHex)
    case Ok(raw) => match Deserialize(raw) case Err(_) => Err(BadTransaction) case Ok(tx) => Ok(tx)
  }

  lemma ParsedIsSized(hex: string)
    ensures ParseHexTx(hex).Ok? ==> Sized(ParseHexTx(hex).value)
  {
    hide Deserialize, FromHex;
    if ParseHexTx(hex).Ok? {
      AcceptedNormalForm(FromHex(hex).value);
    }
  }

  function Txid(dsha: Hasher, tx: Transaction): Digest
    requires Sized(tx)
  {
    dsha(TxBytes(tx))
  }

  /** The ids of the listed transactions, in order. */
  function TxidsOf(dsha: Hasher, hexes: seq<string>): Result<seq<Digest>, StakeError> {
    if hexes == [] then Ok([]) else
    match ParseHexTx(hexes[0])
    case Err(e) => Err(e)
    case Ok(tx) =>
      ParsedIsSized(hexes[0]);
      match TxidsOf(dsha, hexes[1..])
      case Err(e) => Err(e)
      case Ok(others) => Ok([Txid(dsha, tx)] + others)
  }

  /** Every listed transaction must parse; then the ids are theirs, one for one. */
  lemma {:induction false} TxidsInOrder(dsha: Hasher, hexes: seq<string>)
    ensures TxidsOf(dsha, hexes).Ok? <==> forall i :: 0 <= i < |hexes| ==> ParseHexTx(hexes[i]).Ok?
    ensures TxidsOf(dsha, hexes).Ok? ==>
              && |TxidsOf(dsha, hexes).value| == |hexes|
              && forall i :: 0 <= i < |hexes| ==>
                   Sized(ParseHexTx(hexes[i]).value) &&
                   TxidsOf(dsha, hexes).value[i] == Txid(dsha, ParseHexTx(hexes[i]).value)
  {
    hide ParseHexTx, TxBytes, Sized;
    if hexes != [] {
      ParsedIsSized(hexes[0]);
      TxidsInOrder(dsha, hexes[1..]);
      assert forall i :: 0 < i < |hexes| ==> hexes[i] == hexes[1..][i - 1];
      assert forall i :: 0 <= i < |hexes| - 1 ==> hexes[1..][i] == hexes[i + 1];
    }
  }

  method TxidsLoop(dsha: Hasher, start: seq<Digest>, hexes: seq<string>) returns (r: Result<seq<Digest>, StakeError>)
    ensures r == match TxidsOf(dsha, hexes) case Err(e) => Err(e) case Ok(others) => Ok(start + others)
  {
    hide ParseHexTx, TxBytes;
    var txids := start;
    for i := 0 to |hexes|
      invariant TxidsOf(dsha, hexes[i..]).Ok? ==>
                TxidsOf(dsha, hexes).Ok? &&
                start + TxidsOf(dsha, hexes).value == txids + TxidsOf(dsha, hexes[i..]).value
      invariant TxidsOf(dsha, hexes[i..]).Err? ==> TxidsOf(dsha, hexes) == TxidsOf(dsha, hexes[i..])
    {
      assert hexes[i..][1..] == hexes[i + 1..];
      ParsedIsSized(hexes[i]);
      var tx := ParseHexTx(hexes[i]);
      if tx.Err? {
        return Err(tx.error);
      }
      txids := txids + [Txid(dsha, tx.value)];
    }
    assert hexes[|hexes|..] == [] && txids + [] == txids;
    return Ok(txids);
  }

  /** The unsigned coinstake, once notice, coin, key and template have all been checked. */
  datatype Checked = Checked(coin: OwnedCoin, key: Wallet.StakingKey, unsigned: Transaction)

  function Check(env: Env, coins: seq<OwnedCoin>, n: WinNotice): Result<Checked, StakeError> {
    match VerifyWin(env.crypto.dsha, n)
    case Err(e) => Err(NotVerified(e))
    case Ok(_) =>
      var coin := OwnedCoinFor(coins, n.prevoutTxid, n.prevoutN);
      if coin.None? then Err(NotOurCoin) else
      var key := env.keyFor(coin.value);
      if key.None? then Err(NoKey) else
      var tmpl := env.template(n.prevoutTxid, n.prevoutN);
      if tmpl.None? then Err(NoTemplate) else
      match ParseHexTx(tmpl.value.coinstakeHex)
      case Err(e) => Err(e)
      case Ok(unsigned) =>
        match HashFromDisplayHex(n.prevoutTxid)
        case Err(_) => Err(BadHash)
        case Ok(expected) =>
          if || |unsigned.vin| != 1 || unsigned.vin[0].prevout.hash != expected
             || unsigned.vin[0].prevout.n != n.prevoutN then
            Err(DifferentCoin)
          else if tmpl.value.height != n.height then Err(DifferentHeight)
          else Ok(Checked(coin.value, key.value, unsigned))
  }

  function Header(n: WinNotice, prev: Digest, root: Digest): BlockHeader {
    BlockHeader(4, prev, root, n.hashproofTimestamp, n.bits, 0, ZeroDigest())
  }

  lemma CheckedIsSized(env: Env, coins: seq<OwnedCoin>, n: WinNotice)
    ensures Check(env, coins, n).Ok? ==> Sized(Check(env, coins, n).value.unsigned)
  {
    hide VerifyWin, ParseHexTx, HashFromDisplayHex;
    if Check(env, coins, n).Ok? {
      ParsedIsSized(env.template(n.prevoutTxid, n.prevoutN).value.coinstakeHex);
    }
  }

  function SignChecked(env: Env, c: Checked): Result<Transaction, SignError>
    requires Sized(c.unsigned)
  {
    SignCoinstake(env.crypto, c.key, c.unsigned, KeyScript(env.crypto, c.key), c.coin.valueSats)
  }

  lemma SignedIsSized(env: Env, c: Checked)
    requires Sized(c.unsigned)
    ensures SignChecked(env, c).Ok? ==> Sized(SignChecked(env, c).value)
  {
    if SignChecked(env, c).Ok? {
      SignedCoinstake(env.crypto, c.key, c.unsigned, KeyScript(env.crypto, c.key), c.coin.valueSats);
    }
  }

  /** `build_signed_stake` */
  function BuildSignedStake(env: Env, coins: seq<OwnedCoin>, n: WinNotice): Result<SignedStake, StakeError> {
    var checked := Check(env, coins, n);
    if checked.Err? then Err(checked.error) else
    CheckedIsSized(env, coins, n);
    var c := checked.value;
    match SignChecked(env, c)
    case Err(e) => Err(NotSigned(e))
    case Ok(signed) =>
      SignedIsSized(env, c);
      match TxidsOf(env.crypto.dsha, n.mempoolTxsHex)
      case Err(e) => Err(e)
      case Ok(others) =>
        var dsha := env.crypto.dsha;
        var root := Merkle.MerkleRoot(dsha, [Txid(dsha, Coinbase(n.height)), Txid(dsha, signed)] + others);
        match HashFromDisplayHex(n.prevBlockHash)
        case Err(_) => Err(BadHash)
        case Ok(prev) =>
          match HeaderHash(env.crypto.dsha, Header(n, prev, root))
          case Err(_) => Err(BadBlock)
          case Ok(hash) =>
            Ok(SignedStake(n.height, ToHex(TxBytes(signed)), ToHex(SignCompact(env.crypto, c.key, hash)), 4,
                           n.hashproofTimestamp, 0, DisplayHex(root)))
  }

  /** The same flow with its loops. */
  method BuildSignedStakeLoop(env: Env, coins: seq<OwnedCoin>, n: WinNotice)
      returns (r: Result<SignedStake, StakeError>)
    ensures r == BuildSignedStake(env, coins, n)
  {
    hide Check, SignChecked, TxidsOf, Merkle.MerkleRoot, HashFromDisplayHex, TxBytes, DisplayHex, ToHex;
    var checked := Check(env, coins, n);
    if checked.Err? {
      return Err(checked.error);
    }
    CheckedIsSized(env, coins, n);
    var c := checked.value;
    var signed := SignChecked(env, c);
    if signed.Err? {
      return Err(NotSigned(signed.error));
    }
    SignedIsSized(env, c);
    var dsha := env.crypto.dsha;
    var coinbase := SerializeLoop(Coinbase(n.height));
    var coinstake := SerializeLoop(signed.value);
    var txids := TxidsLoop(dsha, [dsha(coinbase), dsha(coinstake)], n.mempoolTxsHex);
    if txids.Err? {
      return Err(txids.error);
    }
    var root := Merkle.MerkleRootLoop(dsha, txids.value);
    var prev := HashFromDisplayHex(n.prevBlockHash);
    if prev.Err? {
      return Err(BadHash);
    }
    var hash := HashHeader(dsha, Header(n, prev.value, root));
    if hash.Err? {
      return Err(BadBlock);
    }
    return Ok(SignedStake(n.height, ToHex(coinstake), ToHex(SignCompact(env.crypto, c.key, hash.value)), 4,
                          n.hashproofTimestamp, 0, DisplayHex(root)));
  }

  // ----- what a signed stake says -----

  /** The coin named by a checked notice is ours, and is what the template's one input spends. */
  lemma CheckedCoin(env: Env, coins: seq<OwnedCoin>, n: WinNotice)
    requires Check(env, coins, n).Ok?
    ensures var c := Check(env, coins, n).value;
            && VerifyWin(env.crypto.dsha, n).Ok? && Sized(c.unsigned)
            && c.coin in coins && env.keyFor(c.coin) == Some(c.key)
            && |c.unsigned.vin| == 1 && c.unsigned.vin[0].prevout.n == c.coin.vout == n.prevoutN
            && HashFromDisplayHex(c.coin.txid) == Ok(c.unsigned.vin[0].prevout.hash) ==
               HashFromDisplayHex(n.prevoutTxid)
            && exists t :: env.template(n.prevoutTxid, n.prevoutN) == Some(t) && t.height == n.height &&
                 ParseHexTx(t.coinstakeHex) == Ok(c.unsigned)
  {
    hide VerifyWin, ParseHexTx, HashFromDisplayHex;
    CheckedIsSized(env, coins, n);
    OwnedCoinIsOurs(coins, n.prevoutTxid, n.prevoutN);
    HashIgnoresCase(Check(env, coins, n).value.coin.txid, n.prevoutTxid);
  }

  /** The node's template for the coin a notice names is for the notice's height and spends that coin
      alone, and it returns the value we have on record for it. */
  predicate Agreed(env: Env, coin: OwnedCoin, key: Wallet.StakingKey, t: StakeTemplate, unsigned: Transaction,
      n: WinNotice) {
    && t.height == n.height && ParseHexTx(t.coinstakeHex) == Ok(unsigned)
    && |unsigned.vin| == 1 && unsigned.vin[0].prevout.n == n.prevoutN
    && HashFromDisplayHex(n.prevoutTxid) == Ok(unsigned.vin[0].prevout.hash)
    && IsCoinstake(unsigned) && CoinstakeReturnsAtLeast(unsigned, KeyScript(env.crypto, key), coin.valueSats).Ok?
  }

  /** The phone's own conditions on a notice: the coin is ours, has a key, and its template agrees. */
  ghost predicate Willing(env: Env, coins: seq<OwnedCoin>, n: WinNotice) {
    var coin, t := OwnedCoinFor(coins, n.prevoutTxid, n.prevoutN), env.template(n.prevoutTxid, n.prevoutN);
    && coin.Some? && env.keyFor(coin.value).Some? && t.Some?
    && exists unsigned :: Agreed(env, coin.value, env.keyFor(coin.value).value, t.value, unsigned, n)
  }

  /** A stake is signed exactly when the win verifies, the phone is willing, and the rest of the
      block can be read. */
  lemma SignsIff(env: Env, coins: seq<OwnedCoin>, n: WinNotice)
    ensures BuildSignedStake(env, coins, n).Ok? <==>
            && VerifyWin(env.crypto.dsha, n).Ok? && Willing(env, coins, n)
            && (forall i :: 0 <= i < |n.mempoolTxsHex| ==> ParseHexTx(n.mempoolTxsHex[i]).Ok?)
            && HashFromDisplayHex(n.prevBlockHash).Ok?
  {
    hide VerifyWin, ParseHexTx, HashFromDisplayHex, OwnedCoinFor, TxidsOf, Merkle.MerkleRoot, IsCoinstake,
         CoinstakeReturnsAtLeast, KeyScript, DisplayHex, TxBytes, ToHex, SignatureHash, ScriptSig, HeaderBytes;
    TxidsInOrder(env.crypto.dsha, n.mempoolTxsHex);
    CheckedIsSized(env, coins, n);
    if Check(env, coins, n).Ok? {
      var c := Check(env, coins, n).value;
      var t := env.template(n.prevoutTxid, n.prevoutN).value;
      SignsCheckedIff(env, c);
      assert BuildSignedStake(env, coins, n).Ok? ==> Agreed(env, c.coin, c.key, t, c.unsigned, n);
    }
  }

  lemma SignsCheckedIff(env: Env, c: Checked)
    requires Sized(c.unsigned) && |c.unsigned.vin| == 1
    ensures SignChecked(env, c).Ok? <==>
            && IsCoinstake(c.unsigned)
            && CoinstakeReturnsAtLeast(c.unsigned, KeyScript(env.crypto, c.key), c.coin.valueSats).Ok?
  {
    hide CoinstakeReturnsAtLeast, IsCoinstake, KeyScript, ScriptSig, Preimage, Sized;
  }

  /** Two answers with the same coinstake and the same height. */
  predicate SameWork(a: Option<StakeTemplate>, b: Option<StakeTemplate>) {
    match (a, b)
    case (None, None) => true
    case (Some(x), Some(y)) => x.coinstakeHex == y.coinstakeHex && x.height == y.height
    case _ => false
  }

  /** The template's tip is never looked at: its previous hash, its target and its time may be any. */
  lemma TemplateTipIgnored(env: Env, template: (string, u32) -> Option<StakeTemplate>, coins: seq<OwnedCoin>,
                           n: WinNotice)
    requires SameWork(env.template(n.prevoutTxid, n.prevoutN), template(n.prevoutTxid, n.prevoutN))
    ensures BuildSignedStake(env, coins, n) == BuildSignedStake(env.(template := template), coins, n)
  {
    hide VerifyWin, ParseHexTx, HashFromDisplayHex, OwnedCoinFor, TxidsOf, Merkle.MerkleRoot, SignCoinstake, DisplayHex,
         TxBytes, ToHex, HeaderBytes;
    var env' := env.(template := template);
    assert Check(env, coins, n) == Check(env', coins, n);
    CheckedIsSized(env, coins, n);
    if Check(env, coins, n).Ok? {
      assert SignChecked(env, Check(env, coins, n).value) == SignChecked(env', Check(env, coins, n).value);
    }
  }

  /** Whenever a stake is signed: the win verifies; the coinstake spends one coin, ours, named by
      the notice; it is the node's template but for the scriptSig, which signs this very
      transaction with that coin's key; the positive outputs to that key reach the value we have
      on record for the coin; and, unless that key's negative outputs could be overstated in some
      order, so does the exact total. */
  lemma SignedStakeIsSafe(env: Env, coins: seq<OwnedCoin>, n: WinNotice) returns (coin: OwnedCoin, signed: Transaction)
    requires BuildSignedStake(env, coins, n).Ok?
    ensures VerifyWin(env.crypto.dsha, n).Ok? && coin in coins && env.keyFor(coin).Some?
    ensures ParseHexTx(BuildSignedStake(env, coins, n).value.coinstakeHex) == Ok(signed) && Sized(signed)
    ensures |signed.vin| == 1 && HashFromDisplayHex(coin.txid) == Ok(signed.vin[0].prevout.hash) &&
            signed.vin[0].prevout.n == coin.vout
    ensures signed.vin[0].prevout.n == n.prevoutN && Ok(signed.vin[0].prevout.hash) == HashFromDisplayHex(n.prevoutTxid)
    ensures exists t, unsigned :: env.template(n.prevoutTxid, n.prevoutN) == Some(t) && t.height == n.height &&
                                  ParseHexTx(t.coinstakeHex) == Ok(unsigned) && Skeleton(unsigned) == Skeleton(signed)
    ensures var key := env.keyFor(coin).value;
            SignP2pkhInput(env.crypto, key, signed, 0, KeyScript(env.crypto, key)) == Ok(signed.vin[0].scriptSig)
    ensures |signed.vout| >= 2 && signed.vout[0] == TxOut(0, [])
    ensures PositivePaid(signed.vout, KeyScript(env.crypto, env.keyFor(coin).value)) >= coin.valueSats
    ensures var script := KeyScript(env.crypto, env.keyFor(coin).value);
            GuardSound(signed.vout, script) ==> TotalPaid(signed.vout, script) >= coin.valueSats
  {
    hide VerifyWin, ParseHexTx, HashFromDisplayHex, Check, TxidsOf, Merkle.MerkleRoot, Skeleton, SignCoinstake,
         DisplayHex, KeyScript, TxBytes, SignP2pkhInput, CoinstakeReturnsAtLeast, TotalPaid, PositivePaid, GuardSound;
    var c := Check(env, coins, n).value;
    coin := c.coin;
    CheckedCoin(env, coins, n);
    var script := KeyScript(env.crypto, c.key);
    SignedCoinstake(env.crypto, c.key, c.unsigned, script, coin.valueSats);
    signed := SignChecked(env, c).value;
    SameOutpoints(signed, c.unsigned);
    PrintedParses(signed);
    GuardBoundsPositive(signed, script, coin.valueSats);
    GuardNeedsCoinstake(signed, script, coin.valueSats);
    if GuardSound(signed.vout, script) {
      GuardCoversTotal(signed, script, coin.valueSats);
    }
  }

  /** And that input unlocks the output the coin's key is paid by, and no other key's, given that the
      curve accepts the key's signature over the digest of the signed transaction. */
  lemma SignedStakeUnlocksIff(env: Env, coins: seq<OwnedCoin>, n: WinNotice, valid: (bytes, Digest, bytes) -> bool,
                              h: bytes)
      returns (coin: OwnedCoin, signed: Transaction)
    requires BuildSignedStake(env, coins, n).Ok? && |h| == 20
    ensures ParseHexTx(BuildSignedStake(env, coins, n).value.coinstakeHex) == Ok(signed)
    ensures Sized(signed) && |signed.vin| == 1 && coin in coins && env.keyFor(coin).Some?
    ensures var key := env.keyFor(coin).value;
            var digest := env.crypto.dsha(Preimage(signed, 0, KeyScript(env.crypto, key)));
            Script.Unlocks(env.crypto.hash160, Checks(valid, digest), signed.vin[0].scriptSig,
                           Wallet.P2pkhScript(h)) <==>
            env.crypto.hash160(env.crypto.pubkey(key)) == h &&
            valid(env.crypto.pubkey(key), digest, env.crypto.sign(key, digest))
  {
    hide BuildSignedStake, ParseHexTx, Script.Unlocks, Checks, KeyScript, SignP2pkhInput, Preimage, Wallet.P2pkhScript,
         VerifyWin, HashFromDisplayHex;
    coin, signed := SignedStakeIsSafe(env, coins, n);
    var key := env.keyFor(coin).value;
    SignedInputUnlocksIff(env.crypto, valid, key, signed, 0, KeyScript(env.crypto, key), h);
  }

  lemma PrintedParses(tx: Transaction)
    requires Sized(tx)
    ensures ParseHexTx(ToHex(TxBytes(tx))) == Ok(tx)
  {
    ToHexRoundTrip(TxBytes(tx));
    DeserializeSerialize(tx);
  }

  lemma SameOutpoints(a: Transaction, b: Transaction)
    requires Skeleton(a) == Skeleton(b)
    ensures |a.vin| == |b.vin| && a.vout == b.vout
    ensures forall i :: 0 <= i < |a.vin| ==>
            a.vin[i].prevout == b.vin[i].prevout && a.vin[i].sequence == b.vin[i].sequence
  {
    assert |Skeleton(a).vin| == |a.vin| && |Skeleton(b).vin| == |b.vin|;
    forall i | 0 <= i < |a.vin| ensures a.vin[i].prevout == b.vin[i].prevout && a.vin[i].sequence == b.vin[i].sequence {
      assert Skeleton(a).vin[i] == Skeleton(b).vin[i];
    }
  }

  /** The reported root is that of the local coinbase, the signed coinstake and the listed
      transactions in order, and the block signature is over the header made of that root and
      the notice, every field of which can be read back from the signed bytes. */
  lemma SignedHeader(env: Env, coins: seq<OwnedCoin>, n: WinNotice)
      returns (header: BlockHeader, key: Wallet.StakingKey)
    requires BuildSignedStake(env, coins, n).Ok?
    ensures var s := BuildSignedStake(env, coins, n).value;
            var dsha := env.crypto.dsha;
            && TxidsOf(dsha, n.mempoolTxsHex).Ok? && ParseHexTx(s.coinstakeHex).Ok?
            && Sized(ParseHexTx(s.coinstakeHex).value)
            && header.merkleRoot ==
               Merkle.MerkleRoot(dsha, [Txid(dsha, Coinbase(n.height)), Txid(dsha, ParseHexTx(s.coinstakeHex).value)]
                                                            + TxidsOf(dsha, n.mempoolTxsHex).value)
            && HashFromDisplayHex(s.merkleRoot) == Ok(header.merkleRoot)
            && HashFromDisplayHex(n.prevBlockHash) == Ok(header.prevBlock)
            && header.version == s.headerVersion == 4 && header.time == s.headerTime == n.hashproofTimestamp
            && header.bits == n.bits && header.nonce == s.headerNonce == 0
            && header.accumulatorCheckpoint == ZeroDigest() && s.height == n.height
            && ParseHeader(HeaderBytes(header)) == Some(header)
            && s.blockSignature == ToHex(SignCompact(env.crypto, key, dsha(HeaderBytes(header))))
    ensures exists coin :: coin in coins && env.keyFor(coin) == Some(key)
  {
    hide VerifyWin, ParseHexTx, HashFromDisplayHex, Check, TxidsOf, Merkle.MerkleRoot, SignChecked, DisplayHex,
         TxBytes, ToHex, HeaderBytes, ParseHeader;
    var c := Check(env, coins, n).value;
    key := c.key;
    CheckedCoin(env, coins, n);
    SignedIsSized(env, c);
    var signed := SignChecked(env, c).value;
    PrintedParses(signed);
    var dsha := env.crypto.dsha;
    var others := TxidsOf(dsha, n.mempoolTxsHex).value;
    var root := Merkle.MerkleRoot(dsha, [Txid(dsha, Coinbase(n.height)), Txid(dsha, signed)] + others);
    DisplayHexRoundTrip(root);
    header := Header(n, HashFromDisplayHex(n.prevBlockHash).value, root);
    HeaderRoundTrip(header);
  }
}
