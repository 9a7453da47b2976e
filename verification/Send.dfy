/** Building and signing a payment: conservation of value, the fee bounds, and signatures that
    are over the finished transaction. */
module Send {
  import opened Machine
  import opened Wire
  import opened Tx
  import opened SigHash
  import opened CoinSelection
  import Script
  import Text
  import Wallet

  const FEE_CAP_SATS: int := 100_000_000
  const DUST_SATS: int := 10_000

  type LockScript = s: bytes | |s| < TWO_64 witness []

  /** What a build draws on: the keys, the verified coin values, and the foreign functions. */
  datatype Env = Env(crypto: Crypto, keyFor: OwnedCoin -> Option<Wallet.StakingKey>, changeScript: Option<LockScript>,
                     trueValue: (string, u32) -> Option<i64>, network: Wallet.Network)

  datatype SendError =
    | AmountNotPositive | BadDestination | NoChangeScript | UnverifiedCoin | NotEnough | FeeOverCap
    | BadTxid | NoKey | SigningFailed | OutputsExceedInputs | FinalFeeOverCap

  /** The unsigned transaction and the verified total it spends. */
  datatype Draft = Draft(tx: Transaction, totalIn: i64)

  datatype Payment = Payment(tx: Transaction, feeSats: int)

  datatype BuiltSend = BuiltSend(rawHex: string, txid: string, feeSats: int, kind: SendKind)

  // ----- the pieces -----

  /** `OP_META` and a push of the four bytes `DFS1`. */
  const MARKER := TxOut(0, [0x6a, 4, 0x44, 0x46, 0x53, 0x31])

  /** The saturating total of the verified values, from `acc` on. */
  function TotalIn(env: Env, acc: i64, s: seq<OwnedCoin>): Option<i64>
    decreases |s|
  {
    if s == [] then Some(acc) else
    match env.trueValue(s[0].txid, s[0].vout)
    case None => None
    case Some(v) => TotalIn(env, SatAdd(acc, v), s[1..])
  }

  function Outputs(kind: SendKind, amount: i64, toScript: LockScript, change: i64, changeScript: LockScript)
      : seq<TxOut>
  {
    [TxOut(amount, toScript)] + (if kind == Fast then [MARKER] else []) +
    (if change >= DUST_SATS then [TxOut(change, changeScript)] else [])
  }

  function Input(coin: OwnedCoin): Option<TxIn> {
    match Text.HashFromDisplayHex(coin.txid)
    case Err(_) => None
    case Ok(hash) => Some(TxIn(OutPoint(hash, coin.vout), [], U32_MAX))
  }

  predicate AllNamed(s: seq<OwnedCoin>) { forall i :: 0 <= i < |s| ==> Input(s[i]).Some? }

  predicate AllKeyed(env: Env, s: seq<OwnedCoin>) { forall i :: 0 <= i < |s| ==> env.keyFor(s[i]).Some? }

  function Inputs(s: seq<OwnedCoin>): (vin: seq<TxIn>)
    requires AllNamed(s)
    ensures |vin| == |s|
  {
    seq(|s|, i requires 0 <= i < |s| => Input(s[i]).value)
  }

  lemma UnsignedSized(env: Env, s: seq<OwnedCoin>, vout: seq<TxOut>)
    requires AllNamed(s) && |s| < TWO_64 && SizedOuts(vout) && |vout| < TWO_64
    ensures Sized(Transaction(1, Inputs(s), vout, 0))
  {
  }

  function SignatureOf(env: Env, tx: Transaction, s: seq<OwnedCoin>, i: nat): bytes
    requires Sized(tx) && |s| == |tx.vin| && i < |s| && env.keyFor(s[i]).Some?
  {
    var key := env.keyFor(s[i]).value;
    ScriptSig(env.crypto, key, env.crypto.dsha(Preimage(tx, i, KeyScript(env.crypto, key))))
  }

  /** Input `i` carries a signature over the digest of the unsigned transaction. */
  function Signed(env: Env, tx: Transaction, s: seq<OwnedCoin>): (r: Transaction)
    requires Sized(tx) && |s| == |tx.vin| && AllKeyed(env, s)
    ensures Sized(r)
  {
    tx.(vin := seq(|s|, i requires 0 <= i < |s| => tx.vin[i].(scriptSig := SignatureOf(env, tx, s, i))))
  }

  function TotalOut(outs: seq<TxOut>): int {
    if outs == [] then 0 else outs[0].value + TotalOut(outs[1..])
  }

  /** The build up to the unsigned transaction, exit by exit. */
  function DraftPayment(env: Env, coins: seq<OwnedCoin>, dest: string, amount: i64, kind: SendKind)
      : Result<Draft, SendError>
  {
    if amount <= 0 then Err(AmountNotPositive) else
    var toScript := Wallet.AddressScript(env.crypto.dsha, dest, env.network);
    if toScript.None? then Err(BadDestination)
    else if env.changeScript.None? then Err(NoChangeScript) else
    var selected := Select(coins, kind, amount);
    var totalIn := TotalIn(env, 0, selected);
    if totalIn.None? then Err(UnverifiedCoin) else
    var fee := Fee(kind, |selected|);
    if totalIn.value < Need(kind, amount, |selected|) then Err(NotEnough)
    else if fee > FEE_CAP_SATS then Err(FeeOverCap)
    else if !AllNamed(selected) then Err(BadTxid) else
    ChangeFits(totalIn.value, amount, kind, |selected|);
    var vout := Outputs(kind, amount, toScript.value, totalIn.value - amount - fee, env.changeScript.value);
    Ok(Draft(Transaction(1, Inputs(selected), vout, 0), totalIn.value))
  }

  /** What a draft is made of. */
  lemma DraftFacts(env: Env, coins: seq<OwnedCoin>, dest: string, amount: i64, kind: SendKind)
    requires DraftPayment(env, coins, dest, amount, kind).Ok?
    ensures var d := DraftPayment(env, coins, dest, amount, kind).value;
            var s := Select(coins, kind, amount);
            var toScript := Wallet.AddressScript(env.crypto.dsha, dest, env.network);
            var change := d.totalIn - amount - Fee(kind, |s|);
            && amount > 0 && toScript.Some? && env.changeScript.Some? && AllNamed(s)
            && TotalIn(env, 0, s) == Some(d.totalIn) && d.totalIn >= Need(kind, amount, |s|)
            && 0 < Fee(kind, |s|) <= FEE_CAP_SATS && I64_MIN <= change <= I64_MAX
            && Sized(d.tx) && d.tx.version == 1 && d.tx.lockTime == 0 && d.tx.vin == Inputs(s)
            && d.tx.vout == Outputs(kind, amount, toScript.value, change, env.changeScript.value)
            && TotalOut(d.tx.vout) == amount + (if change >= DUST_SATS then change else 0)
  {
    hide Wallet.AddressScript, Need, Select, TotalOut, TotalIn, Outputs;
    var s := Select(coins, kind, amount);
    var d := DraftPayment(env, coins, dest, amount, kind).value;
    FeeGrows(kind, 0, |s|);
    ChangeFits(d.totalIn, amount, kind, |s|);
    CapBoundsInputs(kind, |s|);
    OutputsSized(kind, amount, Wallet.AddressScript(env.crypto.dsha, dest, env.network).value,
                 d.totalIn - amount - Fee(kind, |s|), env.changeScript.value);
    OutputsTotal(kind, amount, Wallet.AddressScript(env.crypto.dsha, dest, env.network).value,
                 d.totalIn - amount - Fee(kind, |s|), env.changeScript.value);
    UnsignedSized(env, s, d.tx.vout);
  }

  /** The outcome of a build: draft, keys, then the check of the real fee. */
  function Build(env: Env, coins: seq<OwnedCoin>, dest: string, amount: i64, kind: SendKind)
      : Result<Payment, SendError>
  {
    match DraftPayment(env, coins, dest, amount, kind)
    case Err(e) => Err(e)
    case Ok(d) =>
      var selected := Select(coins, kind, amount);
      if !AllKeyed(env, selected) then Err(NoKey) else
      DraftFacts(env, coins, dest, amount, kind);
      var tx := Signed(env, d.tx, selected);
      var realFee := d.totalIn - TotalOut(tx.vout);
      if realFee < 0 then Err(OutputsExceedInputs)
      else if realFee > FEE_CAP_SATS then Err(FinalFeeOverCap)
      else Ok(Payment(tx, realFee))
  }

  lemma ChangeFits(totalIn: i64, amount: i64, kind: SendKind, n: nat)
    requires amount > 0 && Fee(kind, n) <= FEE_CAP_SATS && totalIn >= Need(kind, amount, n)
    ensures I64_MIN <= totalIn - amount - Fee(kind, n) <= I64_MAX
  {
    FeeGrows(kind, 0, n);
  }

  lemma CapBoundsInputs(kind: SendKind, n: nat)
    requires Fee(kind, n) <= FEE_CAP_SATS
    ensures n < TWO_64
  {
  }

  // ----- the mutating loop -----

  /** Signing one input after another, each over the transaction as signed so far, gives
      signatures over the unsigned transaction. */
  method SignLoop(env: Env, unsigned: Transaction, s: seq<OwnedCoin>) returns (r: Result<Transaction, SendError>)
    requires Sized(unsigned) && |s| == |unsigned.vin|
    ensures r == if AllKeyed(env, s) then Ok(Signed(env, unsigned, s)) else Err(NoKey)
  {
    hide ScriptSig, KeyScript, Skeleton, Blanked, Sized;
    var tx := unsigned;
    for i := 0 to |s|
      invariant Sized(tx) && Skeleton(tx) == Skeleton(unsigned) && |tx.vin| == |s| && tx == unsigned.(vin := tx.vin)
      invariant forall k :: 0 <= k < i ==> env.keyFor(s[k]).Some?
      invariant forall k :: 0 <= k < i ==>
                  tx.vin[k] == unsigned.vin[k].(scriptSig := SignatureOf(env, unsigned, s, k))
      invariant forall k :: i <= k < |s| ==> tx.vin[k] == unsigned.vin[k]
    {
      var key := env.keyFor(s[i]);
      if key.None? {
        return Err(NoKey);
      }
      var scriptCode := KeyScript(env.crypto, key.value);
      DigestIgnoresSignatures(tx, unsigned, i, scriptCode);
      var scriptSig := SignP2pkhInput(env.crypto, key.value, tx, i, scriptCode);
      if scriptSig.Err? {
        return Err(SigningFailed);
      }
      SkeletonUpdate(tx, i, scriptSig.value);
      UpdateSized(tx, i, scriptSig.value);
      tx := tx.(vin := tx.vin[i := tx.vin[i].(scriptSig := scriptSig.value)]);
    }
    assert tx.vin == Signed(env, unsigned, s).vin;
    return Ok(tx);
  }

  lemma UpdateSized(tx: Transaction, i: nat, s: bytes)
    requires Sized(tx) && i < |tx.vin| && |s| < TWO_64
    ensures Sized(tx.(vin := tx.vin[i := tx.vin[i].(scriptSig := s)]))
  {
  }

  method TotalInLoop(env: Env, selected: seq<OwnedCoin>) returns (r: Option<i64>)
    ensures r == TotalIn(env, 0, selected)
  {
    var totalIn: i64 := 0;
    for i := 0 to |selected|
      invariant TotalIn(env, 0, selected) == TotalIn(env, totalIn, selected[i..])
    {
      assert selected[i..][1..] == selected[i + 1..];
      var v := env.trueValue(selected[i].txid, selected[i].vout);
      if v.None? {
        return None;
      }
      totalIn := SatAdd(totalIn, v.value);
    }
    return Some(totalIn);
  }

  method PushOutputs(kind: SendKind, amount: i64, toScript: LockScript, change: i64, changeScript: LockScript)
      returns (vout: seq<TxOut>)
    ensures vout == Outputs(kind, amount, toScript, change, changeScript)
  {
    vout := [TxOut(amount, toScript)];
    if kind == Fast {
      vout := vout + [MARKER];
    }
    if change >= DUST_SATS {
      vout := vout + [TxOut(change, changeScript)];
    }
  }

  method DraftLoop(env: Env, coins: seq<OwnedCoin>, dest: string, amount: i64, kind: SendKind)
      returns (r: Result<Draft, SendError>, selected: seq<OwnedCoin>)
    ensures r == DraftPayment(env, coins, dest, amount, kind)
    ensures r.Ok? ==> selected == Select(coins, kind, amount)
  {
    hide Wallet.AddressScript, Select, Fee, Need, Outputs, TotalIn;
    selected := [];
    if amount <= 0 {
      r := Err(AmountNotPositive);
      return;
    }
    var toScript := Wallet.AddressScript(env.crypto.dsha, dest, env.network);
    if toScript.None? {
      r := Err(BadDestination);
      return;
    }
    if env.changeScript.None? {
      r := Err(NoChangeScript);
      return;
    }
    selected := SelectLoop(coins, kind, amount);

    var total := TotalInLoop(env, selected);
    if total.None? {
      r := Err(UnverifiedCoin);
      return;
    }
    var totalIn := total.value;
    var fee := Fee(kind, |selected|);
    if totalIn < Need(kind, amount, |selected|) {
      r := Err(NotEnough);
      return;
    }
    if fee > FEE_CAP_SATS {
      r := Err(FeeOverCap);
      return;
    }

    ChangeFits(totalIn, amount, kind, |selected|);
    var vout := PushOutputs(kind, amount, toScript.value, totalIn - amount - fee, env.changeScript.value);
    r := if AllNamed(selected) then Ok(Draft(Transaction(1, Inputs(selected), vout, 0), totalIn)) else Err(BadTxid);
  }

  /** `build_signed_send` up to the finished transaction. */
  method BuildLoop(env: Env, coins: seq<OwnedCoin>, dest: string, amount: i64, kind: SendKind)
      returns (r: Result<Payment, SendError>)
    ensures r == Build(env, coins, dest, amount, kind)
  {
    hide Wallet.AddressScript, DraftPayment, Select;
    var draft, selected := DraftLoop(env, coins, dest, amount, kind);
    if draft.Err? {
      return Err(draft.error);
    }
    DraftFacts(env, coins, dest, amount, kind);
    var signed := SignLoop(env, draft.value.tx, selected);
    if signed.Err? {
      return Err(signed.error);
    }
    var realFee := draft.value.totalIn - TotalOut(draft.value.tx.vout);
    if realFee < 0 {
      return Err(OutputsExceedInputs);
    }
    if realFee > FEE_CAP_SATS {
      return Err(FinalFeeOverCap);
    }
    return Ok(Payment(signed.value, realFee));
  }

  // ----- conservation -----

  lemma OutputsSized(kind: SendKind, amount: i64, toScript: LockScript, change: i64, changeScript: LockScript)
    ensures var outs := Outputs(kind, amount, toScript, change, changeScript); SizedOuts(outs) && |outs| <= 3
  {
  }

  lemma OutputsTotal(kind: SendKind, amount: i64, toScript: LockScript, change: i64, changeScript: LockScript)
    ensures TotalOut(Outputs(kind, amount, toScript, change, changeScript)) ==
            amount + (if change >= DUST_SATS then change else 0)
  {
    var tail := if change >= DUST_SATS then [TxOut(change, changeScript)] else [];
    var middle := (if kind == Fast then [MARKER] else []) + tail;
    var outs := Outputs(kind, amount, toScript, change, changeScript);
    assert outs == [TxOut(amount, toScript)] + middle && outs[1..] == middle;
    if kind == Fast {
      assert middle == [MARKER] + tail && middle[1..] == tail;
    } else {
      assert middle == tail;
    }
    assert TotalOut(tail) == if change >= DUST_SATS then change else 0;
  }

  /** What a successful build is made of. */
  lemma BuildFacts(env: Env, coins: seq<OwnedCoin>, dest: string, amount: i64, kind: SendKind)
    requires Build(env, coins, dest, amount, kind).Ok?
    ensures var p := Build(env, coins, dest, amount, kind).value;
            var s := Select(coins, kind, amount);
            var totalIn := TotalIn(env, 0, s);
            && totalIn.Some? && amount > 0 && Sized(p.tx)
            && totalIn.value == TotalOut(p.tx.vout) + p.feeSats
            && 0 <= p.feeSats <= FEE_CAP_SATS
            && Fee(kind, |s|) <= FEE_CAP_SATS && totalIn.value >= Need(kind, amount, |s|)
            && var change := totalIn.value - amount - Fee(kind, |s|);
               p.feeSats == Fee(kind, |s|) + (if change < DUST_SATS then change else 0)
  {
    hide Wallet.AddressScript, DraftPayment, Select, Fee, Need, TotalOut, Outputs;
    DraftFacts(env, coins, dest, amount, kind);
  }

  /** The verified values of the selected coins, added exactly. */
  function VerifiedSum(env: Env, s: seq<OwnedCoin>): int {
    if s == [] then 0 else
    (match env.trueValue(s[0].txid, s[0].vout) case None => 0 case Some(v) => v) + VerifiedSum(env, s[1..])
  }

  predicate VerifiedNonNegative(env: Env, s: seq<OwnedCoin>) {
    forall i :: 0 <= i < |s| ==> env.trueValue(s[i].txid, s[i].vout).Some? ==>
        env.trueValue(s[i].txid, s[i].vout).value >= 0
  }

  lemma {:induction false} TotalInIsCappedSum(env: Env, acc: i64, s: seq<OwnedCoin>)
    requires acc >= 0 && VerifiedNonNegative(env, s)
    ensures TotalIn(env, acc, s).Some? ==> TotalIn(env, acc, s).value == Min(acc + VerifiedSum(env, s), I64_MAX)
    ensures VerifiedSum(env, s) >= 0
    decreases |s|
  {
    if s != [] {
      var v := env.trueValue(s[0].txid, s[0].vout);
      assert v.Some? ==> v.value >= 0;
      TotalInIsCappedSum(env, if v.Some? then SatAdd(acc, v.value) else acc, s[1..]);
    }
  }

  /** Value is conserved: verified inputs are outputs plus the reported fee, exactly when the
      verified values do not add up to more than 64 bits hold. */
  lemma PaymentConserves(env: Env, coins: seq<OwnedCoin>, dest: string, amount: i64, kind: SendKind)
    requires Build(env, coins, dest, amount, kind).Ok?
    requires VerifiedNonNegative(env, Select(coins, kind, amount))
    ensures var p := Build(env, coins, dest, amount, kind).value;
            var sum := VerifiedSum(env, Select(coins, kind, amount));
            sum == TotalOut(p.tx.vout) + p.feeSats <==> sum <= I64_MAX
  {
    hide Wallet.AddressScript, Build, Select, TotalOut, TotalIn, VerifiedSum;
    BuildFacts(env, coins, dest, amount, kind);
    TotalInIsCappedSum(env, 0, Select(coins, kind, amount));
  }

  /** The fee paid is at least the estimate, and less than dust above it, exactly when amount
      and estimate together fit 64 bits; otherwise the payment pays less than its estimate. */
  lemma FeeBounds(env: Env, coins: seq<OwnedCoin>, dest: string, amount: i64, kind: SendKind)
    requires Build(env, coins, dest, amount, kind).Ok?
    ensures var fee := Build(env, coins, dest, amount, kind).value.feeSats;
            var est := Fee(kind, |Select(coins, kind, amount)|);
            && 0 <= fee <= 100_000_000 && fee < est + 10_000
            && (fee >= est <==> amount + est <= I64_MAX)
  {
    hide Wallet.AddressScript, Build, Select, Fee, TotalOut;
    BuildFacts(env, coins, dest, amount, kind);
  }

  /** The edge is real: with a coin of `I64_MAX` the whole of it can be sent for no fee. */
  lemma SaturatedNeedPaysNoFee(env: Env, coin: OwnedCoin, dest: string)
    requires coin.valueSats == I64_MAX && env.trueValue(coin.txid, coin.vout) == Some(I64_MAX)
    requires Wallet.AddressScript(env.crypto.dsha, dest, env.network).Some? && env.changeScript.Some?
    requires Input(coin).Some? && env.keyFor(coin).Some?
    ensures Build(env, [coin], dest, I64_MAX, Normal).Ok?
    ensures Build(env, [coin], dest, I64_MAX, Normal).value.feeSats == 0
  {
    assert Positive([coin]) == [coin] by { assert [coin][1..] == [] && [coin] + [] == [coin]; }
    assert SortByValue([coin]) == [coin] by { assert [coin][1..] == []; }
    assert Select([coin], Normal, I64_MAX) == [coin];
    assert TotalIn(env, 0, [coin]) == Some(I64_MAX) by { assert [coin][1..] == []; }
    var change := I64_MAX - I64_MAX - Fee(Normal, 1);
    OutputsTotal(Normal, I64_MAX, Wallet.AddressScript(env.crypto.dsha, dest, env.network).value, change,
        env.changeScript.value);
  }

  /** The fee worked out from a total: the estimate, and change too small to return. */
  function RealFee(kind: SendKind, amount: i64, totalIn: int, n: nat): int {
    var change := totalIn - amount - Fee(kind, n);
    Fee(kind, n) + (if change < DUST_SATS then change else 0)
  }

  /** What a payment really gives away is the reported fee and whatever the saturated total left
      uncounted; it is within the cap exactly when the verified values exceed `I64_MAX` by no more
      than the reported fee leaves of it. */
  lemma BurnWithinCapIff(env: Env, coins: seq<OwnedCoin>, dest: string, amount: i64, kind: SendKind)
    requires Build(env, coins, dest, amount, kind).Ok?
    requires VerifiedNonNegative(env, Select(coins, kind, amount))
    ensures var p := Build(env, coins, dest, amount, kind).value;
            var s := Select(coins, kind, amount);
            var sum := VerifiedSum(env, s);
            && p.feeSats == RealFee(kind, amount, Min(sum, I64_MAX), |s|)
            && sum - TotalOut(p.tx.vout) == p.feeSats + Max(sum - I64_MAX, 0)
            && (sum - TotalOut(p.tx.vout) <= 100_000_000 <==>
                sum - I64_MAX <= 100_000_000 - RealFee(kind, amount, Min(sum, I64_MAX), |s|))
  {
    hide Wallet.AddressScript, Build, Select, TotalOut, TotalIn, VerifiedSum, Fee;
    BuildFacts(env, coins, dest, amount, kind);
    TotalInIsCappedSum(env, 0, Select(coins, kind, amount));
  }

  lemma PairSorted(a: OwnedCoin, b: OwnedCoin)
    requires a.valueSats == b.valueSats > 0
    ensures Candidates([a, b]) == [a, b]
  {
    hide Positive;
    PositiveKeepsAll([a, b]);
    assert [a, b][1..] == [b] && [b][1..] == [];
    assert SortByValue([]) == [] && SortByValue([b]) == Insert(b, []) == [b];
  }

  lemma NeitherAlone(a: OwnedCoin, b: OwnedCoin)
    requires a.valueSats == b.valueSats == 2_000
    ensures FirstAtLeast([a, b], Need(Normal, 1, 1)).None?
  {
    hide FirstAtLeast;
    FirstAtLeastLeast([a, b], Need(Normal, 1, 1));
  }

  lemma BothNeeded(a: OwnedCoin, b: OwnedCoin)
    requires a.valueSats == b.valueSats == 2_000
    ensures StopAt([a, b], Normal, 1, 0) == 2
  {
    hide Total, StopAt;
    assert Largest([a, b], 1) == [b];
    TotalOne(b);
    assert !Enough([a, b], Normal, 1, 1);
    StopAtLeast([a, b], Normal, 1, 0);
  }

  /** One such coin does not cover 1 and the fee, so both are taken. */
  lemma BothSelected(a: OwnedCoin, b: OwnedCoin)
    requires a.valueSats == b.valueSats == 2_000
    ensures Select([a, b], Normal, 1) == [b, a]
  {
    hide Candidates, FirstAtLeast, StopAt, Need;
    PairSorted(a, b);
    NeitherAlone(a, b);
    BothNeeded(a, b);
  }

  lemma PairTotals(env: Env, a: OwnedCoin, b: OwnedCoin)
    requires env.trueValue(a.txid, a.vout) == Some(I64_MAX) == env.trueValue(b.txid, b.vout)
    ensures TotalIn(env, 0, [b, a]) == Some(I64_MAX) && VerifiedSum(env, [b, a]) == 2 * I64_MAX
  {
    assert [b, a][1..] == [a] && [a][1..] == [];
    assert TotalIn(env, 0, [b, a]) == TotalIn(env, I64_MAX, [a]) == TotalIn(env, I64_MAX, []);
    assert VerifiedSum(env, [a]) == I64_MAX;
  }

  /** The edge is met: two coins hinted at 2000 and really worth `I64_MAX` each pay 1, report a fee
      of 3940 and give away the rest of one of them. */
  lemma SaturatedTotalBurns(env: Env, a: OwnedCoin, b: OwnedCoin, dest: string)
    requires a.valueSats == b.valueSats == 2_000
    requires env.trueValue(a.txid, a.vout) == Some(I64_MAX) == env.trueValue(b.txid, b.vout)
    requires Wallet.AddressScript(env.crypto.dsha, dest, env.network).Some? && env.changeScript.Some?
    requires Input(a).Some? && env.keyFor(a).Some? && Input(b).Some? && env.keyFor(b).Some?
    ensures var p := Build(env, [a, b], dest, 1, Normal);
            && p.Ok? && p.value.feeSats == 3_940
            && VerifiedSum(env, Select([a, b], Normal, 1)) - TotalOut(p.value.tx.vout) == I64_MAX + 3_940 > FEE_CAP_SATS
  {
    hide Wallet.AddressScript, Select, TotalIn, VerifiedSum, TotalOut, Outputs, Input;
    BothSelected(a, b);
    PairTotals(env, a, b);
    var change := I64_MAX - 1 - Fee(Normal, 2);
    OutputsTotal(Normal, 1, Wallet.AddressScript(env.crypto.dsha, dest, env.network).value, change,
        env.changeScript.value);
  }

  /** The first of the two last-minute refusals cannot happen. */
  lemma OutputsNeverExceedInputs(env: Env, coins: seq<OwnedCoin>, dest: string, amount: i64, kind: SendKind)
    ensures Build(env, coins, dest, amount, kind) != Err(OutputsExceedInputs)
  {
    hide Wallet.AddressScript, DraftPayment, Select, Fee, Outputs, TotalOut;
    if DraftPayment(env, coins, dest, amount, kind).Ok? {
      DraftFacts(env, coins, dest, amount, kind);
    } else {
      DraftErrors(env, coins, dest, amount, kind);
    }
  }

  lemma DraftErrors(env: Env, coins: seq<OwnedCoin>, dest: string, amount: i64, kind: SendKind)
    ensures DraftPayment(env, coins, dest, amount, kind) != Err(OutputsExceedInputs)
    ensures DraftPayment(env, coins, dest, amount, kind) != Err(FinalFeeOverCap)
  {
    hide Wallet.AddressScript, Select, Fee, Need;
  }

  /** The second can, exactly when leaving the change in the fee pushes it over the cap. */
  lemma FinalCapIff(env: Env, coins: seq<OwnedCoin>, dest: string, amount: i64, kind: SendKind)
    ensures Build(env, coins, dest, amount, kind) == Err(FinalFeeOverCap) <==>
            var s := Select(coins, kind, amount);
            var draft := DraftPayment(env, coins, dest, amount, kind);
            && draft.Ok? && AllKeyed(env, s)
            && 100_000_000 - Fee(kind, |s|) < draft.value.totalIn - amount - Fee(kind, |s|) < 10_000
  {
    hide Wallet.AddressScript, DraftPayment, Select, Fee, Outputs, TotalOut;
    if DraftPayment(env, coins, dest, amount, kind).Ok? {
      DraftFacts(env, coins, dest, amount, kind);
    } else {
      DraftErrors(env, coins, dest, amount, kind);
    }
  }

  // ----- where the money goes, and what is signed -----

  /** Output 0 is the amount to the destination; a fast send adds its marker; the only other
      output is change of at least dust to the change script. */
  lemma OutputsAre(env: Env, coins: seq<OwnedCoin>, dest: string, amount: i64, kind: SendKind)
    requires Build(env, coins, dest, amount, kind).Ok?
    ensures var vout := Build(env, coins, dest, amount, kind).value.tx.vout;
            var toScript := Wallet.AddressScript(env.crypto.dsha, dest, env.network);
            var n := if kind == Fast then 2 else 1;
            && toScript.Some? && n <= |vout| <= n + 1 && vout[0] == TxOut(amount, toScript.value)
            && (kind == Fast ==> vout[1] == MARKER)
            && (|vout| > n ==> Some(vout[n].scriptPubkey) == env.changeScript && vout[n].value >= 10_000)
  {
    hide Wallet.AddressScript, DraftPayment, Select, Fee;
    DraftFacts(env, coins, dest, amount, kind);
  }

  /** The finished transaction spends exactly the selected coins, and each scriptSig in it is
      the coin's key signing the digest of the finished transaction. */
  lemma InputsAreSigned(env: Env, coins: seq<OwnedCoin>, dest: string, amount: i64, kind: SendKind, i: nat)
    requires Build(env, coins, dest, amount, kind).Ok?
    requires i < |Select(coins, kind, amount)|
    ensures var tx := Build(env, coins, dest, amount, kind).value.tx;
            var s := Select(coins, kind, amount);
            && |tx.vin| == |s| && Sized(tx) && tx.version == 1 && tx.lockTime == 0
            && Text.HashFromDisplayHex(s[i].txid) == Ok(tx.vin[i].prevout.hash) && tx.vin[i].prevout.n == s[i].vout
            && tx.vin[i].sequence == 0xffff_ffff
            && env.keyFor(s[i]).Some?
            && var key := env.keyFor(s[i]).value;
               SignP2pkhInput(env.crypto, key, tx, i, KeyScript(env.crypto, key)) == Ok(tx.vin[i].scriptSig)
  {
    hide Wallet.AddressScript, DraftPayment, Select, Fee, Outputs, TotalOut, Skeleton, ScriptSig;
    DraftFacts(env, coins, dest, amount, kind);
    var s := Select(coins, kind, amount);
    var unsigned := DraftPayment(env, coins, dest, amount, kind).value.tx;
    var key := env.keyFor(s[i]).value;
    SignedKeepsSkeleton(env, unsigned, s);
    DigestIgnoresSignatures(Signed(env, unsigned, s), unsigned, i, KeyScript(env.crypto, key));
  }

  /** So every finished input unlocks the output its key is paid by, given that the curve accepts the
      signature of that key over this input's digest; and it unlocks no other key's output. */
  lemma FinishedInputUnlocksIff(env: Env, coins: seq<OwnedCoin>, dest: string, amount: i64, kind: SendKind, i: nat,
                                valid: (bytes, Digest, bytes) -> bool, h: bytes)
    requires Build(env, coins, dest, amount, kind).Ok?
    requires i < |Select(coins, kind, amount)| && |h| == 20
    ensures var tx := Build(env, coins, dest, amount, kind).value.tx;
            var coin := Select(coins, kind, amount)[i];
            && i < |tx.vin| && Sized(tx) && env.keyFor(coin).Some?
            && var key := env.keyFor(coin).value;
               var digest := env.crypto.dsha(Preimage(tx, i, KeyScript(env.crypto, key)));
               Script.Unlocks(env.crypto.hash160, Checks(valid, digest), tx.vin[i].scriptSig,
                              Wallet.P2pkhScript(h)) <==>
               env.crypto.hash160(env.crypto.pubkey(key)) == h &&
               valid(env.crypto.pubkey(key), digest, env.crypto.sign(key, digest))
  {
    hide Wallet.AddressScript, Build, Select, Script.Unlocks, Checks, KeyScript, SignP2pkhInput, Preimage,
         Wallet.P2pkhScript;
    InputsAreSigned(env, coins, dest, amount, kind, i);
    var tx := Build(env, coins, dest, amount, kind).value.tx;
    var key := env.keyFor(Select(coins, kind, amount)[i]).value;
    SignedInputUnlocksIff(env.crypto, valid, key, tx, i, KeyScript(env.crypto, key), h);
  }

  lemma SignedKeepsSkeleton(env: Env, tx: Transaction, s: seq<OwnedCoin>)
    requires Sized(tx) && |s| == |tx.vin| && AllKeyed(env, s)
    ensures Skeleton(Signed(env, tx, s)) == Skeleton(tx)
  {
    assert Skeleton(Signed(env, tx, s)).vin == Skeleton(tx).vin;
  }

  // ----- what the fee estimate is for -----

  lemma {:induction false} InsLength(ins: seq<TxIn>, k: nat)
    requires k < 0xfd && forall i :: 0 <= i < |ins| ==> |ins[i].scriptSig| <= k
    ensures SizedIns(ins) && |TxInsBytes(ins)| <= (41 + k) * |ins|
    ensures (forall i :: 0 <= i < |ins| ==> |ins[i].scriptSig| == k) ==> |TxInsBytes(ins)| == (41 + k) * |ins|
  {
    hide TxInBytes;
    if ins != [] {
      InsLength(ins[1..], k);
      InLength(ins[0]);
      MoreOfThem(41 + k, |ins|);
    }
  }

  lemma MoreOfThem(k: nat, n: nat)
    ensures k * n == k * (n - 1) + k
  {
  }

  lemma InLength(i: TxIn)
    requires |i.scriptSig| < 0xfd
    ensures |TxInBytes(i)| == 41 + |i.scriptSig|
  {
  }

  lemma OutLength(o: TxOut)
    requires |o.scriptPubkey| < 0xfd
    ensures |TxOutBytes(o)| == 9 + |o.scriptPubkey|
  {
  }

  lemma OutsLength(outs: seq<TxOut>)
    requires SizedOuts(outs) && |outs| <= 3 && forall i :: 0 <= i < |outs| ==> |outs[i].scriptPubkey| < 0xfd
    ensures |TxOutsBytes(outs)| == (if |outs| > 0 then 9 + |outs[0].scriptPubkey| else 0) +
                                   (if |outs| > 1 then 9 + |outs[1].scriptPubkey| else 0) +
                                   (if |outs| > 2 then 9 + |outs[2].scriptPubkey| else 0)
  {
    hide TxOutBytes;
    if |outs| > 0 { OutLength(outs[0]); }
    if |outs| > 1 { OutLength(outs[1]); assert outs[1..][1..] == outs[2..]; }
    if |outs| > 2 { OutLength(outs[2]); assert outs[2..][1..] == []; }
    assert |outs| <= 3;
  }

  lemma TxLength(tx: Transaction)
    requires Sized(tx)
    ensures |TxBytes(tx)| == 8 + |CompactSize(|tx.vin|)| + |TxInsBytes(tx.vin)| + |CompactSize(|tx.vout|)| +
                             |TxOutsBytes(tx.vout)|
  {
  }

  /** The estimate is the relay fee, ten per byte and five times that for a fast send, of the
      transaction it is made for: inputs with a signature of 72 bytes and a compressed key, change,
      and for a fast send the marker. The difference is a constant, and the length of the count. */
  lemma FeeIsForSize(kind: SendKind, tx: Transaction)
    requires Sized(tx) && (forall i :: 0 <= i < |tx.vin| ==> |tx.vin[i].scriptSig| == 107)
    requires match kind
             case Normal => |tx.vout| == 2 && |tx.vout[0].scriptPubkey| == 25 == |tx.vout[1].scriptPubkey|
             case Fast =>
               |tx.vout| == 3 && tx.vout[1] == MARKER && |tx.vout[0].scriptPubkey| == 25 == |tx.vout[2].scriptPubkey|
    ensures kind == Normal ==> Fee(kind, |tx.vin|) == 10 * (|TxBytes(tx)| + 21 - |CompactSize(|tx.vin|)|)
    ensures kind == Fast ==> Fee(kind, |tx.vin|) == 50 * (|TxBytes(tx)| + 40 - |CompactSize(|tx.vin|)|)
  {
    hide TxBytes, TxInsBytes, TxOutsBytes;
    TxLength(tx);
    InsLength(tx.vin, 107);
    OutsLength(tx.vout);
  }

  lemma FeeCoversSize(kind: SendKind, tx: Transaction)
    requires Sized(tx) && (forall i :: 0 <= i < |tx.vin| ==> |tx.vin[i].scriptSig| <= 107)
    requires var n := if kind == Fast then 2 else 1;
             && n <= |tx.vout| <= n + 1 && |tx.vout[0].scriptPubkey| == 25 && (kind == Fast ==> tx.vout[1] == MARKER)
             && (|tx.vout| > n ==> |tx.vout[n].scriptPubkey| <= 25)
    ensures Fee(kind, |tx.vin|) >= (if kind == Fast then 50 else 10) * |TxBytes(tx)|
  {
    hide TxBytes, TxInsBytes, TxOutsBytes;
    TxLength(tx);
    InsLength(tx.vin, 107);
    OutsLength(tx.vout);
  }

  /** A finished payment made with compressed keys and signatures of at most 71 bytes pays the relay
      fee for every byte of it, as long as amount and estimate together fit 64 bits. */
  lemma PaysRelayFee(env: Env, coins: seq<OwnedCoin>, dest: string, amount: i64, kind: SendKind)
    requires Build(env, coins, dest, amount, kind).Ok?
    requires amount + Fee(kind, |Select(coins, kind, amount)|) <= I64_MAX
    requires env.changeScript.Some? ==> |env.changeScript.value| <= 25
    requires forall key :: |env.crypto.pubkey(key)| <= 33
    requires forall key, digest :: |env.crypto.sign(key, digest)| <= 71
    ensures var p := Build(env, coins, dest, amount, kind).value;
            Sized(p.tx) && p.feeSats >= (if kind == Fast then 50 else 10) * |TxBytes(p.tx)|
  {
    hide Wallet.AddressScript, Build, Select, Fee, TxBytes, SignP2pkhInput;
    var p, s := Build(env, coins, dest, amount, kind).value, Select(coins, kind, amount);
    BuildFacts(env, coins, dest, amount, kind);
    FeeBounds(env, coins, dest, amount, kind);
    OutputsAre(env, coins, dest, amount, kind);
    OneInputPerCoin(env, coins, dest, amount, kind);
    forall i | 0 <= i < |p.tx.vin| ensures |p.tx.vin[i].scriptSig| <= 107 {
      InputsAreSigned(env, coins, dest, amount, kind, i);
      var key := env.keyFor(s[i]).value;
      ScriptSigLayout(env.crypto, key, p.tx, i, KeyScript(env.crypto, key));
    }
    FeeCoversSize(kind, p.tx);
  }

  lemma OneInputPerCoin(env: Env, coins: seq<OwnedCoin>, dest: string, amount: i64, kind: SendKind)
    requires Build(env, coins, dest, amount, kind).Ok?
    ensures |Build(env, coins, dest, amount, kind).value.tx.vin| == |Select(coins, kind, amount)|
  {
    hide Wallet.AddressScript, DraftPayment, Select, Fee, Outputs, TotalOut, ScriptSig;
    DraftFacts(env, coins, dest, amount, kind);
  }

  /** The marker is `OP_META` and a push of the text `DFS1`. */
  lemma MarkerSpells()
    ensures MARKER.value == 0 && |MARKER.scriptPubkey| == 2 + |"DFS1"|
    ensures MARKER.scriptPubkey[0] == 0x6a && MARKER.scriptPubkey[1] == |"DFS1"|
    ensures forall i :: 0 <= i < 4 ==> MARKER.scriptPubkey[2 + i] == "DFS1"[i] as int
  {
    assert "DFS1"[0] == 'D' && "DFS1"[1] == 'F' && "DFS1"[2] == 'S' && "DFS1"[3] == '1';
  }

  // ----- when there is not enough -----

  /** Every coin is worth what the wallet believes. */
  predicate Honest(env: Env, coins: seq<OwnedCoin>) {
    forall c :: c in coins ==> env.trueValue(c.txid, c.vout) == Some(c.valueSats)
  }

  lemma {:induction false} HonestTotalIn(env: Env, acc: i64, s: seq<OwnedCoin>)
    requires Honest(env, s) && acc >= 0 && (forall c :: c in s ==> c.valueSats > 0)
    ensures TotalIn(env, acc, s) == Some(Min(acc + Total(s), I64_MAX)) && Total(s) >= 0
    decreases |s|
  {
    if s != [] {
      HonestTotalIn(env, SatAdd(acc, s[0].valueSats), s[1..]);
    }
  }

  /** With honest hints the build answers "not enough" exactly when the wallet is worth less than
      `I64_MAX` and no selection of its coins covers the amount and its own fee: a wallet worth
      more is never refused for that. */
  lemma NotEnoughIff(env: Env, coins: seq<OwnedCoin>, dest: string, amount: i64, kind: SendKind)
    requires amount > 0 && Wallet.AddressScript(env.crypto.dsha, dest, env.network).Some? && env.changeScript.Some?
    requires Honest(env, coins)
    ensures Build(env, coins, dest, amount, kind) == Err(NotEnough) <==>
            Total(Positive(coins)) < I64_MAX &&
            !exists s: seq<OwnedCoin> :: multiset(s) <= multiset(coins) && Affords(s, kind, amount)
  {
    hide Wallet.AddressScript, Select, Fee, Affords, Positive, Inputs, Outputs, Total;
    var s := Select(coins, kind, amount);
    NotEnoughExit(env, coins, dest, amount, kind);
    SelectedTotal(coins, kind, amount);
    if Total(Positive(coins)) >= I64_MAX {
      RichSelectionReachesNeed(coins, kind, amount);
    } else if exists t: seq<OwnedCoin> :: multiset(t) <= multiset(coins) && Affords(t, kind, amount) {
      var t: seq<OwnedCoin> :| multiset(t) <= multiset(coins) && Affords(t, kind, amount);
      TopAtMostAll(coins, Min(|t|, |Candidates(coins)|));
      SelectIsBest(coins, kind, amount, t);
      BelowMaxAffordsIff(s, kind, amount);
    } else {
      SelectIsSelection(coins, kind, amount);
      BelowMaxAffordsIff(s, kind, amount);
    }
  }

  lemma BelowMaxAffordsIff(s: seq<OwnedCoin>, kind: SendKind, amount: i64)
    requires Total(s) < I64_MAX
    ensures Affords(s, kind, amount) <==> Min(Total(s), I64_MAX) >= Need(kind, amount, |s|)
  {
  }

  lemma NotEnoughExit(env: Env, coins: seq<OwnedCoin>, dest: string, amount: i64, kind: SendKind)
    requires amount > 0 && Wallet.AddressScript(env.crypto.dsha, dest, env.network).Some? && env.changeScript.Some?
    requires Honest(env, coins)
    ensures var s := Select(coins, kind, amount);
            Build(env, coins, dest, amount, kind) == Err(NotEnough) <==>
            Min(Total(s), I64_MAX) < Need(kind, amount, |s|)
  {
    hide Wallet.AddressScript, Select, Fee, Positive, Inputs, Outputs, Total;
    var s := Select(coins, kind, amount);
    SelectedTotal(coins, kind, amount);
    SelectIsSelection(coins, kind, amount);
    forall c | c in s ensures c in coins {
      assert c in multiset(s);
    }
    HonestTotalIn(env, 0, s);
  }

  // ----- the finished send -----

  function Finish(dsha: Hasher, kind: SendKind, p: Payment): BuiltSend
    requires Sized(p.tx)
  {
    var raw := TxBytes(p.tx);
    BuiltSend(Text.ToHex(raw), Text.DisplayHex(dsha(raw)), p.feeSats, kind)
  }

  /** `build_signed_send` */
  function BuildSend(env: Env, coins: seq<OwnedCoin>, dest: string, amount: i64, kind: SendKind)
      : Result<BuiltSend, SendError>
  {
    match Build(env, coins, dest, amount, kind)
    case Err(e) => Err(e)
    case Ok(p) =>
      BuildFacts(env, coins, dest, amount, kind);
      Ok(Finish(env.crypto.dsha, kind, p))
  }

  method BuildSendLoop(env: Env, coins: seq<OwnedCoin>, dest: string, amount: i64, kind: SendKind)
      returns (r: Result<BuiltSend, SendError>)
    ensures r == BuildSend(env, coins, dest, amount, kind)
  {
    hide Build;
    var p := BuildLoop(env, coins, dest, amount, kind);
    if p.Err? {
      return Err(p.error);
    }
    BuildFacts(env, coins, dest, amount, kind);
    var raw := SerializeLoop(p.value.tx);
    var txid := env.crypto.dsha(raw);
    return Ok(BuiltSend(Text.ToHex(raw), Text.DisplayHex(txid), p.value.feeSats, kind));
  }

  /** What a caller can check of the answer: the hex parses to a transaction whose hash is the
      reported id, and whose outputs and the reported fee make up the verified total of the coins
      selected for this kind of send. */
  lemma SendReadsBack(env: Env, coins: seq<OwnedCoin>, dest: string, amount: i64, kind: SendKind)
    requires BuildSend(env, coins, dest, amount, kind).Ok?
    ensures var b := BuildSend(env, coins, dest, amount, kind).value;
            var raw := Text.FromHex(b.rawHex);
            && raw.Ok? && Deserialize(raw.value).Ok?
            && Text.HashFromDisplayHex(b.txid) == Ok(env.crypto.dsha(raw.value))
            && TotalIn(env, 0, Select(coins, b.kind, amount)) ==
               Some(TotalOut(Deserialize(raw.value).value.vout) + b.feeSats)
            && b.kind == kind
  {
    hide Build, Select, TotalIn, TotalOut, Deserialize, TxBytes, Text.FromHex, Text.ToHex, Text.HashFromDisplayHex,
         Text.DisplayHex;
    BuildFacts(env, coins, dest, amount, kind);
    FinishedSendReadsBack(env.crypto.dsha, kind, Build(env, coins, dest, amount, kind).value);
    var tx := Build(env, coins, dest, amount, kind).value.tx;
    Text.ToHexRoundTrip(TxBytes(tx));
  }

  /** The hex handed to the relay is the finished transaction, and the reported id is its hash. */
  lemma FinishedSendReadsBack(dsha: Hasher, kind: SendKind, p: Payment)
    requires Sized(p.tx)
    ensures var b := Finish(dsha, kind, p);
            && Text.FromHex(b.rawHex).Ok? && Deserialize(Text.FromHex(b.rawHex).value) == Ok(p.tx)
            && Text.HashFromDisplayHex(b.txid) == Ok(dsha(TxBytes(p.tx)))
  {
    Text.ToHexRoundTrip(TxBytes(p.tx));
    DeserializeSerialize(p.tx);
    Text.DisplayHexRoundTrip(dsha(TxBytes(p.tx)));
  }
}
