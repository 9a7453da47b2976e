/** The coinstake: its shape, and the guard that the staked value comes back. */
module Coinstake {
  import opened Machine
  import opened Tx

  datatype CoinstakeError = NotACoinstake | PaysNothing | ReturnsTooLittle | NullOutpoint | NoPayout | NegativeOutput

  const EMPTY_OUT := TxOut(0, [])

  predicate IsNull(o: OutPoint) { o.hash == ZeroDigest() && o.n == U32_MAX }

  predicate IsCoinstake(tx: Transaction) {
    tx.vin != [] && !IsNull(tx.vin[0].prevout) && |tx.vout| >= 2 && tx.vout[0] == EMPTY_OUT
  }

  function BuildCoinstake(staked: OutPoint, payouts: seq<TxOut>): Result<Transaction, CoinstakeError> {
    if IsNull(staked) then Err(NullOutpoint)
    else if payouts == [] then Err(NoPayout)
    else if exists i :: 0 <= i < |payouts| && payouts[i].value < 0 then Err(NegativeOutput)
    else Ok(Transaction(1, [TxIn(staked, [], U32_MAX)], [EMPTY_OUT] + payouts, 0))
  }

  predicate NonNegative(outs: seq<TxOut>) { forall i :: 0 <= i < |outs| ==> outs[i].value >= 0 }

  /** The saturating fold of the outputs that pay `script`, from `acc` on. */
  function FoldPaid(acc: i64, outs: seq<TxOut>, script: bytes): i64
    decreases |outs|
  {
    if outs == [] then acc
    else FoldPaid(if outs[0].scriptPubkey == script then SatAdd(acc, outs[0].value) else acc, outs[1..], script)
  }

  /** What the outputs to `script` really total. */
  function TotalPaid(outs: seq<TxOut>, script: bytes): int {
    if outs == [] then 0
    else (if outs[0].scriptPubkey == script then outs[0].value else 0) + TotalPaid(outs[1..], script)
  }

  /** The outputs to `script` above zero, in total. */
  function PositivePaid(outs: seq<TxOut>, script: bytes): nat {
    if outs == [] then 0
    else (if outs[0].scriptPubkey == script then Max(outs[0].value, 0) else 0) + PositivePaid(outs[1..], script)
  }

  /** The outputs to `script` below zero, in total. */
  function NegativePaid(outs: seq<TxOut>, script: bytes): (n: int)
    ensures n <= 0
  {
    if outs == [] then 0
    else (if outs[0].scriptPubkey == script then Min(outs[0].value, 0) else 0) + NegativePaid(outs[1..], script)
  }

  function CoinstakePaysTo(tx: Transaction, script: bytes): Result<i64, CoinstakeError> {
    if !IsCoinstake(tx) then Err(NotACoinstake) else
    var paid := FoldPaid(0, tx.vout, script);
    if paid <= 0 then Err(PaysNothing) else Ok(paid)
  }

  function CoinstakeReturnsAtLeast(tx: Transaction, script: bytes, min: i64): Result<i64, CoinstakeError> {
    match CoinstakePaysTo(tx, script)
    case Err(e) => Err(e)
    case Ok(paid) => if paid < min then Err(ReturnsTooLittle) else Ok(paid)
  }

  // ----- what the saturating fold is worth -----

  lemma {:induction false} PaidSplits(outs: seq<TxOut>, script: bytes)
    ensures TotalPaid(outs, script) == PositivePaid(outs, script) + NegativePaid(outs, script)
  {
    if outs != [] {
      PaidSplits(outs[1..], script);
    }
  }

  /** The fold misses the exact total only by running into a bound, and then it is at best what
      a start from that bound could reach. */
  lemma {:induction false} FoldBetween(acc: i64, outs: seq<TxOut>, script: bytes)
    ensures FoldPaid(acc, outs, script) <= Max(acc + TotalPaid(outs, script), I64_MIN + PositivePaid(outs, script))
    ensures FoldPaid(acc, outs, script) >= Min(acc + TotalPaid(outs, script), I64_MAX + NegativePaid(outs, script))
    decreases |outs|
  {
    PaidSplits(outs, script);
    if outs != [] {
      PaidSplits(outs[1..], script);
      FoldBetween(if outs[0].scriptPubkey == script then SatAdd(acc, outs[0].value) else acc, outs[1..], script);
    }
  }

  lemma {:induction false} NoNegativePaid(outs: seq<TxOut>, script: bytes)
    requires NonNegative(outs)
    ensures NegativePaid(outs, script) == 0
  {
    if outs != [] {
      NoNegativePaid(outs[1..], script);
    }
  }

  lemma FoldIsCappedTotal(acc: i64, outs: seq<TxOut>, script: bytes)
    requires acc >= 0 && NonNegative(outs)
    ensures FoldPaid(acc, outs, script) == Min(acc + TotalPaid(outs, script), I64_MAX)
    ensures TotalPaid(outs, script) >= 0
  {
    hide FoldPaid, TotalPaid, PositivePaid, NegativePaid;
    FoldBetween(acc, outs, script);
    PaidSplits(outs, script);
    NoNegativePaid(outs, script);
  }

  /** Whatever the outputs are worth, the guard passes only what the network takes for a coinstake:
      a real first input, an empty first output, and another one behind it. */
  lemma GuardNeedsCoinstake(tx: Transaction, script: bytes, min: i64)
    requires CoinstakeReturnsAtLeast(tx, script, min).Ok?
    ensures |tx.vin| >= 1 && tx.vin[0].prevout != OutPoint(seq(32, _ => 0), 0xffff_ffff)
    ensures |tx.vout| >= 2 && tx.vout[0].value == 0 && tx.vout[0].scriptPubkey == []
  {
    hide FoldPaid;
  }

  /** A coinstake is built exactly of a real outpoint and at least one payout, none of them negative. */
  lemma BuildsIff(staked: OutPoint, payouts: seq<TxOut>)
    ensures BuildCoinstake(staked, payouts).Ok? <==>
            staked != OutPoint(seq(32, _ => 0), 0xffff_ffff) && |payouts| >= 1 && NonNegative(payouts)
  {
    assert ZeroDigest() == seq(32, _ => 0);
  }

  // ----- in every order of the outputs -----

  /** Neither bound can be run into, or the upper one cannot be left again. */
  predicate FoldExact(outs: seq<TxOut>, script: bytes) {
    NegativePaid(outs, script) == 0 || (NegativePaid(outs, script) >= I64_MIN && PositivePaid(outs, script) <= I64_MAX)
  }

  /** The lower bound cannot be run into; or from it nothing positive can be reached; or
      overstating the total is impossible. */
  predicate GuardSound(outs: seq<TxOut>, script: bytes) {
    || NegativePaid(outs, script) >= I64_MIN || I64_MIN + PositivePaid(outs, script) <= 0
    || TotalPaid(outs, script) >= I64_MAX
  }

  lemma {:induction false} PaidConcat(a: seq<TxOut>, b: seq<TxOut>, script: bytes)
    ensures PositivePaid(a + b, script) == PositivePaid(a, script) + PositivePaid(b, script)
    ensures NegativePaid(a + b, script) == NegativePaid(a, script) + NegativePaid(b, script)
  {
    if a == [] {
      assert a + b == b;
    } else {
      assert (a + b)[1..] == a[1..] + b;
      PaidConcat(a[1..], b, script);
    }
  }

  lemma {:induction false} FoldConcat(acc: i64, a: seq<TxOut>, b: seq<TxOut>, script: bytes)
    ensures FoldPaid(acc, a + b, script) == FoldPaid(FoldPaid(acc, a, script), b, script)
    decreases |a|
  {
    if a == [] {
      assert a + b == b;
    } else {
      assert (a + b)[1..] == a[1..] + b;
      FoldConcat(if a[0].scriptPubkey == script then SatAdd(acc, a[0].value) else acc, a[1..], b, script);
    }
  }

  lemma PaidCons(o: TxOut, outs: seq<TxOut>, script: bytes)
    ensures var all, worth := [o] + outs, if o.scriptPubkey == script then o.value else 0;
            && PositivePaid(all, script) == Max(worth, 0) + PositivePaid(outs, script)
            && NegativePaid(all, script) == Min(worth, 0) + NegativePaid(outs, script)
  {
    assert ([o] + outs)[1..] == outs;
  }

  lemma PaidRemove(outs: seq<TxOut>, j: nat, script: bytes)
    requires j < |outs|
    ensures var rest := outs[..j] + outs[j + 1..];
            && multiset(outs) == multiset{outs[j]} + multiset(rest)
            && PositivePaid(outs, script) == PositivePaid([outs[j]] + rest, script)
            && NegativePaid(outs, script) == NegativePaid([outs[j]] + rest, script)
  {
    hide PositivePaid, NegativePaid;
    var front, back := outs[..j], outs[j + 1..];
    assert outs == front + ([outs[j]] + back);
    PaidCons(outs[j], front + back, script);
    PaidCons(outs[j], back, script);
    PaidConcat(front, back, script);
    PaidConcat(front, [outs[j]] + back, script);
  }

  lemma SameHeadIn(a: seq<TxOut>, b: seq<TxOut>) returns (j: nat)
    requires multiset(a) == multiset(b) && a != []
    ensures j < |b| && b[j] == a[0]
  {
    assert a[0] in multiset(b);
    j :| j < |b| && b[j] == a[0];
  }

  lemma SameRest(o: TxOut, a: multiset<TxOut>, b: multiset<TxOut>)
    requires multiset{o} + a == multiset{o} + b
    ensures a == b
  {
    assert a == (multiset{o} + a) - multiset{o} && b == (multiset{o} + b) - multiset{o};
  }

  /** The totals do not depend on the order. */
  lemma {:induction false} PaidReordered(a: seq<TxOut>, b: seq<TxOut>, script: bytes)
    requires multiset(a) == multiset(b)
    ensures PositivePaid(a, script) == PositivePaid(b, script) && NegativePaid(a, script) == NegativePaid(b, script)
    decreases |a|
  {
    hide PositivePaid, NegativePaid;
    if a == [] {
      assert |multiset(b)| == 0;
    } else {
      var j := SameHeadIn(a, b);
      PaidRemove(a, 0, script);
      PaidRemove(b, j, script);
      assert a[..0] + a[1..] == a[1..];
      SameRest(a[0], multiset(a[1..]), multiset(b[..j] + b[j + 1..]));
      PaidReordered(a[1..], b[..j] + b[j + 1..], script);
      PaidCons(a[0], a[1..], script);
      PaidCons(a[0], b[..j] + b[j + 1..], script);
    }
  }

  /** A list of all negative outputs, `low`, and one of all the others, `high`. */
  predicate IsSplit(outs: seq<TxOut>, low: seq<TxOut>, high: seq<TxOut>, script: bytes) {
    && multiset(low) + multiset(high) == multiset(outs)
    && PositivePaid(low, script) == 0 && NegativePaid(low, script) == NegativePaid(outs, script)
    && NegativePaid(high, script) == 0 && PositivePaid(high, script) == PositivePaid(outs, script)
  }

  lemma SplitCons(o: TxOut, outs: seq<TxOut>, low: seq<TxOut>, high: seq<TxOut>, script: bytes)
    requires IsSplit(outs, low, high, script)
    ensures var below := o.value < 0;
            IsSplit([o] + outs, if below then [o] + low else low, if below then high else [o] + high, script)
  {
    hide PositivePaid, NegativePaid;
    PaidCons(o, outs, script);
    PaidCons(o, if o.value < 0 then low else high, script);
  }

  lemma {:induction false} BySign(outs: seq<TxOut>, script: bytes) returns (low: seq<TxOut>, high: seq<TxOut>)
    ensures IsSplit(outs, low, high, script)
  {
    low, high := [], [];
    if outs != [] {
      low, high := BySign(outs[1..], script);
      hide IsSplit;
      SplitCons(outs[0], outs[1..], low, high, script);
      assert outs == [outs[0]] + outs[1..];
      if outs[0].value < 0 {
        low := [outs[0]] + low;
      } else {
        high := [outs[0]] + high;
      }
    }
  }

  /** Negative outputs first: the fold drops to the lower bound and climbs from there. */
  lemma FoldLowFirst(low: seq<TxOut>, high: seq<TxOut>, script: bytes)
    requires PositivePaid(low, script) == 0 && NegativePaid(high, script) == 0
    ensures FoldPaid(0, low + high, script) ==
            Min(Max(NegativePaid(low, script), I64_MIN) + PositivePaid(high, script), I64_MAX)
  {
    hide FoldPaid, TotalPaid, PositivePaid, NegativePaid;
    FoldConcat(0, low, high, script);
    FoldBetween(0, low, script);
    PaidSplits(low, script);
    FoldBetween(FoldPaid(0, low, script), high, script);
    PaidSplits(high, script);
  }

  lemma FoldHighFirst(low: seq<TxOut>, high: seq<TxOut>, script: bytes)
    requires PositivePaid(low, script) == 0 && NegativePaid(high, script) == 0
    ensures FoldPaid(0, high + low, script) ==
            Max(Min(PositivePaid(high, script), I64_MAX) + NegativePaid(low, script), I64_MIN)
  {
    hide FoldPaid, TotalPaid, PositivePaid, NegativePaid;
    FoldConcat(0, high, low, script);
    FoldBetween(0, high, script);
    PaidSplits(high, script);
    FoldBetween(FoldPaid(0, high, script), low, script);
    PaidSplits(low, script);
  }

  lemma FoldWhenExact(outs: seq<TxOut>, script: bytes)
    requires FoldExact(outs, script)
    ensures FoldPaid(0, outs, script) == Min(TotalPaid(outs, script), I64_MAX)
  {
    hide FoldPaid, TotalPaid, PositivePaid, NegativePaid;
    FoldBetween(0, outs, script);
    PaidSplits(outs, script);
  }

  /** In every order of the outputs the fold is the exact total, capped, exactly under
      `FoldExact`. */
  lemma FoldExactIff(outs: seq<TxOut>, script: bytes)
    ensures (forall o: seq<TxOut> :: multiset(o) == multiset(outs) ==>
               FoldPaid(0, o, script) == Min(TotalPaid(outs, script), I64_MAX)) <==> FoldExact(outs, script)
  {
    hide FoldPaid, TotalPaid, PositivePaid, NegativePaid;
    PaidSplits(outs, script);
    forall o: seq<TxOut> | multiset(o) == multiset(outs) && FoldExact(outs, script)
      ensures FoldPaid(0, o, script) == Min(TotalPaid(outs, script), I64_MAX)
    {
      PaidReordered(o, outs, script);
      PaidSplits(o, script);
      FoldWhenExact(o, script);
    }
    var low, high := BySign(outs, script);
    FoldLowFirst(low, high, script);
    FoldHighFirst(low, high, script);
  }

  /** Under `FoldExact` the guard passes exactly when the unbounded total is positive and covers
      the minimum. */
  lemma ReturnsAtLeastIff(tx: Transaction, script: bytes, min: i64)
    requires FoldExact(tx.vout, script)
    ensures CoinstakeReturnsAtLeast(tx, script, min).Ok? <==>
            IsCoinstake(tx) && TotalPaid(tx.vout, script) > 0 && TotalPaid(tx.vout, script) >= min
    ensures CoinstakeReturnsAtLeast(tx, script, min).Ok? ==>
            CoinstakeReturnsAtLeast(tx, script, min).value == Min(TotalPaid(tx.vout, script), I64_MAX)
  {
    FoldWhenExact(tx.vout, script);
  }

  /** Under `GuardSound` a pass means that the exact total covers the minimum. */
  lemma GuardCoversTotal(tx: Transaction, script: bytes, min: i64)
    requires CoinstakeReturnsAtLeast(tx, script, min).Ok? && GuardSound(tx.vout, script)
    ensures TotalPaid(tx.vout, script) >= min
  {
    hide FoldPaid, TotalPaid, PositivePaid, NegativePaid;
    FoldBetween(0, tx.vout, script);
    PaidSplits(tx.vout, script);
  }

  /** A coinstake with other payouts after its marker. */
  function WithPayouts(tx: Transaction, payouts: seq<TxOut>): Transaction { tx.(vout := [EMPTY_OUT] + payouts) }

  lemma MarkerPaysNothing(payouts: seq<TxOut>, script: bytes)
    ensures var outs := [EMPTY_OUT] + payouts;
            && FoldPaid(0, outs, script) == FoldPaid(0, payouts, script)
            && TotalPaid(outs, script) == TotalPaid(payouts, script)
            && PositivePaid(outs, script) == PositivePaid(payouts, script)
            && NegativePaid(outs, script) == NegativePaid(payouts, script)
  {
    assert ([EMPTY_OUT] + payouts)[1..] == payouts;
  }

  /** A pass of the guard means that the exact total covers the minimum, in every order of the
      payouts, exactly under `GuardSound`. */
  lemma GuardSoundIff(tx: Transaction, script: bytes)
    requires IsCoinstake(tx)
    ensures (forall o: seq<TxOut>, min: i64 ::
               multiset(o) == multiset(tx.vout[1..]) && CoinstakeReturnsAtLeast(WithPayouts(tx, o), script, min).Ok? ==>
                 TotalPaid(tx.vout, script) >= min) <==> GuardSound(tx.vout, script)
  {
    hide FoldPaid, TotalPaid, PositivePaid, NegativePaid;
    var payouts := tx.vout[1..];
    assert tx.vout == [EMPTY_OUT] + payouts;
    MarkerPaysNothing(payouts, script);
    PaidSplits(payouts, script);
    forall o: seq<TxOut>, min: i64 |
      GuardSound(tx.vout, script) && multiset(o) == multiset(payouts) &&
      CoinstakeReturnsAtLeast(WithPayouts(tx, o), script, min).Ok?
      ensures TotalPaid(tx.vout, script) >= min
    {
      MarkerPaysNothing(o, script);
      PaidReordered(o, payouts, script);
      PaidSplits(o, script);
      GuardCoversTotal(WithPayouts(tx, o), script, min);
    }
    if !GuardSound(tx.vout, script) {
      var low, high := BySign(payouts, script);
      FoldLowFirst(low, high, script);
      MarkerPaysNothing(low + high, script);
      assert |low + high| == |multiset(low + high)| == |payouts|;
      assert CoinstakeReturnsAtLeast(WithPayouts(tx, low + high), script, FoldPaid(0, low + high, script)).Ok?;
    }
  }

  /** One such order: nothing is paid in total, and any minimum below `I64_MAX` is accepted. */
  lemma NegativeOutputsOverstate(staked: OutPoint, script: bytes, min: i64) returns (tx: Transaction)
    requires !IsNull(staked) && script != [] && min < I64_MAX
    ensures tx.vin == [TxIn(staked, [], U32_MAX)]
    ensures CoinstakeReturnsAtLeast(tx, script, min).Ok? && TotalPaid(tx.vout, script) == 0
  {
    var low, high := TxOut(-I64_MAX, script), TxOut(I64_MAX, script);
    var rest := [low, low, high, high];
    tx := Transaction(1, [TxIn(staked, [], U32_MAX)], [EMPTY_OUT] + rest, 0);
    assert tx.vout[1..] == rest && rest[1..] == [low, high, high] && rest[1..][1..] == [high, high];
    assert [high, high][1..] == [high] && [high][1..] == [];
    assert FoldPaid(0, tx.vout, script) == FoldPaid(0, rest, script) == FoldPaid(-I64_MAX, rest[1..], script);
    assert FoldPaid(-I64_MAX, rest[1..], script) == FoldPaid(I64_MIN, [high, high], script);
    assert FoldPaid(I64_MIN, [high, high], script) == FoldPaid(-1, [high], script) == I64_MAX - 1;
    assert TotalPaid([high], script) == I64_MAX && TotalPaid([high, high], script) == 2 * I64_MAX;
    assert TotalPaid(rest[1..], script) == I64_MAX && TotalPaid(rest, script) == 0;
  }

  /** What the guard guarantees on every transaction: the positive outputs to the script reach
      the minimum. */
  lemma GuardBoundsPositive(tx: Transaction, script: bytes, min: i64)
    requires CoinstakeReturnsAtLeast(tx, script, min).Ok?
    ensures PositivePaid(tx.vout, script) >= min && PositivePaid(tx.vout, script) > 0
  {
    hide FoldPaid, TotalPaid, PositivePaid, NegativePaid;
    FoldBetween(0, tx.vout, script);
    PaidSplits(tx.vout, script);
  }

  lemma {:induction false} TotalOfMember(outs: seq<TxOut>, k: nat, script: bytes)
    requires k < |outs| && NonNegative(outs) && outs[k].scriptPubkey == script
    ensures TotalPaid(outs, script) >= outs[k].value
  {
    if k == 0 {
      FoldIsCappedTotal(0, outs[1..], script);
    } else {
      TotalOfMember(outs[1..], k - 1, script);
    }
  }

  /** A built coinstake spends the staked outpoint alone, unsigned, and passes the guard for
      every script and amount among its positive payouts. */
  lemma BuiltCoinstakePasses(staked: OutPoint, payouts: seq<TxOut>, k: nat)
    requires BuildCoinstake(staked, payouts).Ok? && k < |payouts| && payouts[k].value > 0
    ensures var tx := BuildCoinstake(staked, payouts).value;
            && tx.vin == [TxIn(staked, [], U32_MAX)] && tx.vout == [TxOut(0, [])] + payouts
            && tx.version == 1 && tx.lockTime == 0 && NonNegative(tx.vout)
            && CoinstakeReturnsAtLeast(tx, payouts[k].scriptPubkey, payouts[k].value).Ok?
  {
    var tx := BuildCoinstake(staked, payouts).value;
    assert tx.vout[k + 1] == payouts[k];
    TotalOfMember(tx.vout, k + 1, payouts[k].scriptPubkey);
    NoNegativePaid(tx.vout, payouts[k].scriptPubkey);
    ReturnsAtLeastIff(tx, payouts[k].scriptPubkey, payouts[k].value);
  }
}
