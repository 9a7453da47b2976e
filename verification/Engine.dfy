/** The relay's search for wins, and the notice a phone checks for itself. */
module Engine {
  import opened Machine
  import opened Kernel
  import opened Text

  datatype StakingTip = StakingTip(height: u64, tipHash: Digest, tipTime: u32, tip: NetworkTip)

  datatype Staker = Staker(deviceToken: string, payoutAddress: string, coins: seq<StakeCandidate>)

  datatype WinNotice = WinNotice(height: u64, prevBlockHash: string, bits: u32, stakeModifier: u64,
                                 prevoutTxid: string, prevoutN: u32, valueSats: i64, coinstakeStartTime: u32,
                                 hashproofTimestamp: u32, mempoolTxsHex: seq<string>)

  datatype FoundWin = FoundWin(deviceToken: string, notice: WinNotice, proofHash: Digest)

  datatype VerifyError = TooManyTransactions | TooManyBytes | BadTxid | NotAWin

  const MAX_MEMPOOL_TXS: nat := 4_000
  const MAX_MEMPOOL_BYTES: nat := 2 * 1024 * 1024

  // ----- the phone's check -----

  function TotalLength(txs: seq<string>): nat {
    if txs == [] then 0 else |txs[0]| + TotalLength(txs[1..])
  }

  function NoticedCoin(n: WinNotice, hash: Digest): StakeCandidate {
    StakeCandidate(hash, n.prevoutN, n.valueSats, n.coinstakeStartTime)
  }

  function NoticedTip(n: WinNotice): NetworkTip { NetworkTip(n.stakeModifier, n.bits) }

  function VerifyWin(dsha: Hasher, n: WinNotice): Result<Digest, VerifyError> {
    if |n.mempoolTxsHex| > MAX_MEMPOOL_TXS then Err(TooManyTransactions)
    else if TotalLength(n.mempoolTxsHex) > MAX_MEMPOOL_BYTES then Err(TooManyBytes) else
    match HashFromDisplayHex(n.prevoutTxid)
    case Err(_) => Err(BadTxid)
    case Ok(hash) =>
      match CheckWin(dsha, NoticedTip(n), NoticedCoin(n, hash), n.hashproofTimestamp)
      case None => Err(NotAWin)
      case Some(proof) => Ok(proof)
  }

  /** A notice is believed with this proof exactly when it lists at most 4000 transactions of two
      mebibytes of hex in all, its id names a hash, and the coin it describes wins with the proof. */
  lemma VerifyWinIff(dsha: Hasher, n: WinNotice, proof: Digest)
    ensures VerifyWin(dsha, n) == Ok(proof) <==>
            && |n.mempoolTxsHex| <= 4_000 && TotalLength(n.mempoolTxsHex) <= 2_097_152
            && exists hash: Digest ::
                 && HashFromDisplayHex(n.prevoutTxid) == Ok(hash)
                 && CheckWin(dsha, NetworkTip(n.stakeModifier, n.bits),
                             StakeCandidate(hash, n.prevoutN, n.valueSats, n.coinstakeStartTime), n.hashproofTimestamp)
                    == Some(proof)
  {
    hide CheckWin, HashFromDisplayHex;
  }

  // ----- the search -----

  /** The window starts now, but after the tip. */
  function WindowStart(tip: StakingTip, now: u32): u32 { Max(now, Min(tip.tipTime + 1, U32_MAX)) }

  function WindowEnd(tip: StakingTip, now: u32, ahead: u32): u32 { Min(WindowStart(tip, now) + ahead, U32_MAX) }

  datatype Best = Best(time: u32, proof: Digest, coin: StakeCandidate)

  /** `filter_map(search_window).min_by_key(time)`: the first of the least. */
  function BestWin(dsha: Hasher, tip: NetworkTip, coins: seq<StakeCandidate>, from: u32, last: u32): Option<Best> {
    if coins == [] then None else
    var others := BestWin(dsha, tip, coins[1..], from, last);
    match SearchWindow(dsha, tip, coins[0], from, last)
    case None => others
    case Some((t, h)) => if others.Some? && others.value.time < t then others else Some(Best(t, h, coins[0]))
  }

  function Notice(tip: StakingTip, b: Best): WinNotice {
    WinNotice((tip.height + 1) % TWO_64, DisplayHex(tip.tipHash), tip.tip.bits, tip.tip.stakeModifier,
              DisplayHex(b.coin.prevoutHash), b.coin.prevoutN, b.coin.valueSats, b.coin.coinstakeStartTime, b.time, [])
  }

  function SearchWins(dsha: Hasher, tip: StakingTip, stakers: seq<Staker>, now: u32, ahead: u32): seq<FoundWin> {
    if stakers == [] then [] else
    var others := SearchWins(dsha, tip, stakers[1..], now, ahead);
    match BestWin(dsha, tip.tip, stakers[0].coins, WindowStart(tip, now), WindowEnd(tip, now, ahead))
    case None => others
    case Some(b) => [FoundWin(stakers[0].deviceToken, Notice(tip, b), b.proof)] + others
  }

  /** `Engine::search` */
  method Search(dsha: Hasher, tip: StakingTip, stakers: seq<Staker>, now: u32, ahead: u32) returns (wins: seq<FoundWin>)
    ensures wins == SearchWins(dsha, tip, stakers, now, ahead)
  {
    var from := WindowStart(tip, now);
    var last := WindowEnd(tip, now, ahead);
    wins := [];
    for i := 0 to |stakers|
      invariant wins + SearchWins(dsha, tip, stakers[i..], now, ahead) == SearchWins(dsha, tip, stakers, now, ahead)
    {
      hide BestWin, Notice;
      assert stakers[i..][1..] == stakers[i + 1..];
      var best := BestWin(dsha, tip.tip, stakers[i].coins, from, last);
      if best.Some? {
        wins := wins + [FoundWin(stakers[i].deviceToken, Notice(tip, best.value), best.value.proof)];
      }
    }
  }

  /** Coin `k` wins at second `t` of the window. */
  predicate WinsAt(dsha: Hasher, tip: NetworkTip, coins: seq<StakeCandidate>, k: nat, t: int)
    requires k < |coins|
  {
    0 <= t < TWO_32 && CheckWin(dsha, tip, coins[k], t).Some?
  }

  /** The best win is at the least second at which any of the coins wins in the window, and is
      the earliest listed coin winning then; there is none only if no coin wins at all. */
  lemma {:induction false} BestWinLeast(dsha: Hasher, tip: NetworkTip, coins: seq<StakeCandidate>, from: u32, last: u32)
      returns (k: nat)
    ensures match BestWin(dsha, tip, coins, from, last)
            case None => forall j, t :: 0 <= j < |coins| && from <= t <= last ==> !WinsAt(dsha, tip, coins, j, t)
            case Some(b) =>
              && k < |coins| && b.coin == coins[k] && from <= b.time <= last
              && CheckWin(dsha, tip, b.coin, b.time) == Some(b.proof)
              && (forall j, t :: 0 <= j < |coins| && from <= t < b.time ==> !WinsAt(dsha, tip, coins, j, t))
              && (forall j :: 0 <= j < k ==> !WinsAt(dsha, tip, coins, j, b.time))
    decreases |coins|
  {
    hide CheckWin, SearchWindow;
    k := 0;
    if coins != [] {
      var rest := coins[1..];
      SearchWindowLeast(dsha, tip, coins[0], from, last);
      var k' := BestWinLeast(dsha, tip, rest, from, last);
      assert forall j, t :: 0 < j < |coins| ==> WinsAt(dsha, tip, coins, j, t) == WinsAt(dsha, tip, rest, j - 1, t);
      var first, others := SearchWindow(dsha, tip, coins[0], from, last), BestWin(dsha, tip, rest, from, last);
      if first.None? || (others.Some? && others.value.time < first.value.0) {
        k := k' + 1;
      }
    }
  }

  /** No win is backdated: never before now, and after the tip unless the tip's time is the last
      second there is. */
  lemma WindowIsAhead(tip: StakingTip, now: u32, ahead: u32)
    ensures WindowStart(tip, now) >= now
    ensures WindowStart(tip, now) > tip.tipTime <==> now > tip.tipTime || tip.tipTime < U32_MAX
    ensures WindowStart(tip, now) == now || WindowStart(tip, now) == Min(tip.tipTime + 1, U32_MAX)
    ensures WindowEnd(tip, now, ahead) == WindowStart(tip, now) + ahead ||
            WindowEnd(tip, now, ahead) == U32_MAX < WindowStart(tip, now) + ahead
  {
  }

  lemma NoticeVerifies(dsha: Hasher, tip: StakingTip, b: Best)
    ensures VerifyWin(dsha, Notice(tip, b)) ==
            match CheckWin(dsha, tip.tip, b.coin, b.time) case None => Err(NotAWin) case Some(proof) => Ok(proof)
  {
    hide CheckWin, DisplayHex, HashFromDisplayHex;
    DisplayHexRoundTrip(b.coin.prevoutHash);
    assert NoticedCoin(Notice(tip, b), b.coin.prevoutHash) == b.coin;
  }

  /** The staker a win was found for, its best win, and the number of wins before it. */
  lemma {:induction false} WinsCome(dsha: Hasher, tip: StakingTip, stakers: seq<Staker>, now: u32, ahead: u32, i: nat)
      returns (s: nat)
    requires i < |SearchWins(dsha, tip, stakers, now, ahead)|
    ensures var w := SearchWins(dsha, tip, stakers, now, ahead)[i];
            && i <= s < |stakers| && w.deviceToken == stakers[s].deviceToken
            && var b := BestWin(dsha, tip.tip, stakers[s].coins, WindowStart(tip, now), WindowEnd(tip, now, ahead));
               b.Some? && w.notice == Notice(tip, b.value) && w.proofHash == b.value.proof
    ensures i == |SearchWins(dsha, tip, stakers[..s], now, ahead)|
    decreases |stakers|
  {
    hide BestWin, Notice, WindowStart, WindowEnd;
    var rest := stakers[1..];
    var first := BestWin(dsha, tip.tip, stakers[0].coins, WindowStart(tip, now), WindowEnd(tip, now, ahead));
    if first.Some? && i == 0 {
      s := 0;
      assert stakers[..0] == [];
    } else {
      var s' := WinsCome(dsha, tip, rest, now, ahead, if first.Some? then i - 1 else i);
      s := s' + 1;
      assert stakers[..s][1..] == rest[..s'] && stakers[..s][0] == stakers[0];
    }
  }

  /** Every win found passes the phone's own check with the proof the relay found, at a time
      not before now, for a coin of the staker it is sent to. */
  lemma FoundWinsVerify(dsha: Hasher, tip: StakingTip, stakers: seq<Staker>, now: u32, ahead: u32, i: nat)
    requires i < |SearchWins(dsha, tip, stakers, now, ahead)|
    ensures var w := SearchWins(dsha, tip, stakers, now, ahead)[i];
            && VerifyWin(dsha, w.notice) == Ok(w.proofHash)
            && now <= w.notice.hashproofTimestamp <= WindowEnd(tip, now, ahead)
            && HashFromDisplayHex(w.notice.prevBlockHash) == Ok(tip.tipHash) && w.notice.mempoolTxsHex == []
            && (tip.height < TWO_64 - 1 ==> w.notice.height == tip.height + 1)
            && (tip.tipTime < U32_MAX ==> w.notice.hashproofTimestamp > tip.tipTime)
            && exists s, k :: 0 <= s < |stakers| && 0 <= k < |stakers[s].coins| &&
                 stakers[s].deviceToken == w.deviceToken &&
                 HashFromDisplayHex(w.notice.prevoutTxid) == Ok(stakers[s].coins[k].prevoutHash) &&
                 w.notice.prevoutN == stakers[s].coins[k].prevoutN
  {
    hide CheckWin, DisplayHex, HashFromDisplayHex, VerifyWin, BestWin;
    var s := WinsCome(dsha, tip, stakers, now, ahead, i);
    var from, last := WindowStart(tip, now), WindowEnd(tip, now, ahead);
    var b := BestWin(dsha, tip.tip, stakers[s].coins, from, last).value;
    var k := BestWinLeast(dsha, tip.tip, stakers[s].coins, from, last);
    WindowIsAhead(tip, now, ahead);
    NoticeVerifies(dsha, tip, b);
    DisplayHexRoundTrip(b.coin.prevoutHash);
    DisplayHexRoundTrip(tip.tipHash);
    assert stakers[s].coins[k] == b.coin;
  }

  predicate AnyWin(dsha: Hasher, tip: StakingTip, s: Staker, now: u32, ahead: u32) {
    exists k, t :: 0 <= k < |s.coins| && WindowStart(tip, now) <= t <= WindowEnd(tip, now, ahead) &&
           WinsAt(dsha, tip.tip, s.coins, k, t)
  }

  function Winners(dsha: Hasher, tip: StakingTip, stakers: seq<Staker>, now: u32, ahead: u32): seq<string> {
    if stakers == [] then [] else
    (if AnyWin(dsha, tip, stakers[0], now, ahead) then [stakers[0].deviceToken] else []) +
    Winners(dsha, tip, stakers[1..], now, ahead)
  }

  /** One win per staker that has any coin winning in the window, in order, and no other. */
  lemma {:induction false} OneWinPerWinner(dsha: Hasher, tip: StakingTip, stakers: seq<Staker>, now: u32, ahead: u32)
    ensures var wins := SearchWins(dsha, tip, stakers, now, ahead);
            && |wins| == |Winners(dsha, tip, stakers, now, ahead)| <= |stakers|
            && forall i :: 0 <= i < |wins| ==> wins[i].deviceToken == Winners(dsha, tip, stakers, now, ahead)[i]
  {
    hide BestWin, Notice, WindowStart, WindowEnd;
    if stakers != [] {
      OneWinPerWinner(dsha, tip, stakers[1..], now, ahead);
      var from, last := WindowStart(tip, now), WindowEnd(tip, now, ahead);
      var k := BestWinLeast(dsha, tip.tip, stakers[0].coins, from, last);
      var b := BestWin(dsha, tip.tip, stakers[0].coins, from, last);
      if b.Some? {
        assert WinsAt(dsha, tip.tip, stakers[0].coins, k, b.value.time);
      }
      assert AnyWin(dsha, tip, stakers[0], now, ahead) <==> b.Some?;
    }
  }
}
