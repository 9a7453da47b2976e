/** Relay and phone together: what is found is delivered, checked and signed. */
module Staking {
  import opened Machine
  import opened Kernel
  import opened Tx
  import opened Engine
  import opened DeviceRegistry
  import opened Tick
  import opened Phone
  import CoinSelection
  import Server
  import Text

  /** A win the relay found is signed exactly when the phone is willing: the claim itself, the
      listed transactions and the previous hash are never the reason for a refusal. */
  lemma FoundWinSignedIff(env: Env, coins: seq<CoinSelection.OwnedCoin>, tip: StakingTip, stakers: seq<Staker>,
                          now: u32, ahead: u32, i: nat)
    requires i < |SearchWins(env.crypto.dsha, tip, stakers, now, ahead)|
    ensures var n := SearchWins(env.crypto.dsha, tip, stakers, now, ahead)[i].notice;
            BuildSignedStake(env, coins, n).Ok? <==> Willing(env, coins, n)
  {
    hide SearchWins, BuildSignedStake, Willing, VerifyWin, Text.HashFromDisplayHex, WindowStart, WindowEnd;
    FoundWinsVerify(env.crypto.dsha, tip, stakers, now, ahead, i);
    SignsIff(env, coins, SearchWins(env.crypto.dsha, tip, stakers, now, ahead)[i].notice);
  }

  /** From the block to the signature: a delivered win is signed exactly when the phone it reaches
      is willing, and what is then signed spends a coin on an address that the token it was routed
      by had registered. */
  lemma DeliveredWinSignedIff(env: Env, coins: seq<CoinSelection.OwnedCoin>, devices: Devices, order: seq<string>,
                              tagged: TaggedCoins, routes: map<string, Server.ConnId>, tip: StakingTip, now: u32,
                              ahead: u32, k: nat)
    requires Sound(env.crypto.dsha, devices) && forall i :: 0 <= i < |order| ==> order[i] in devices
    requires k < |Deliveries(routes, SearchWins(env.crypto.dsha, tip, Stakers(devices, order, tagged), now, ahead))|
    ensures var wins := SearchWins(env.crypto.dsha, tip, Stakers(devices, order, tagged), now, ahead);
            var d := Deliveries(routes, wins)[k];
            var stake := BuildSignedStake(env, coins, d.notice);
            && (stake.Ok? <==> Willing(env, coins, d.notice))
            && (stake.Ok? ==>
                  exists t, j :: t in devices && t in routes && routes[t] == d.id && 0 <= j < |tagged| &&
                    tagged[j].0 in devices[t].addresses && SpendsOnly(stake.value, tagged[j].1))
  {
    hide SearchWins, BuildSignedStake, Willing, VerifyWin, Text.HashFromDisplayHex, Sound, ParseHexTx, Deliveries,
         Stakers;
    var stakers := Stakers(devices, order, tagged);
    var wins := SearchWins(env.crypto.dsha, tip, stakers, now, ahead);
    var i := DeliveriesCome(routes, wins, k);
    FoundWinSignedIff(env, coins, tip, stakers, now, ahead, i);
    DeliveriesArePrivate(env.crypto.dsha, devices, order, tagged, routes, tip, now, ahead, k);
    var d := Deliveries(routes, wins)[k];
    var t, j :| t in devices && t in routes && routes[t] == d.id && 0 <= j < |tagged| &&
                tagged[j].0 in devices[t].addresses &&
                Text.HashFromDisplayHex(d.notice.prevoutTxid) == Ok(tagged[j].1.prevoutHash) &&
                d.notice.prevoutN == tagged[j].1.prevoutN;
    if BuildSignedStake(env, coins, d.notice).Ok? {
      SpendsNoticedCoin(env, coins, d.notice, tagged[j].1);
    }
  }

  /** The same over a run of the relay: what is signed spends a coin on an address that the connection
      told of the win registered itself, unless its token was registered again between the reading
      of the registry and that of the routes. */
  lemma DeliveredWinIsOwn(env: Env, coins: seq<CoinSelection.OwnedCoin>, before: seq<Server.Event>,
                          between: seq<Server.Event>, order: seq<string>, tagged: TaggedCoins, tip: StakingTip,
                          now: u32, ahead: u32, k: nat)
    requires var s := Server.Run(env.crypto.dsha, Server.START, before);
             && (forall i :: 0 <= i < |order| ==> order[i] in s.registry)
             && k < |Deliveries(Server.Run(env.crypto.dsha, s, between).routes,
                                SearchWins(env.crypto.dsha, tip, Stakers(s.registry, order, tagged), now, ahead))|
    ensures var dsha := env.crypto.dsha;
            var s := Server.Run(dsha, Server.START, before);
            var routes := Server.Run(dsha, s, between).routes;
            var d := Deliveries(routes, SearchWins(dsha, tip, Stakers(s.registry, order, tagged), now, ahead))[k];
            var stake := BuildSignedStake(env, coins, d.notice);
            && (stake.Ok? <==> Willing(env, coins, d.notice))
            && (stake.Ok? ==>
                  exists t, j :: t in routes && routes[t] == d.id && 0 <= j < |tagged| &&
                    SpendsOnly(stake.value, tagged[j].1) &&
                    (Listed(dsha, before, d.id, tagged[j].0) || Server.Registers(dsha, s, between, t)))
  {
    hide SearchWins, BuildSignedStake, Willing, VerifyWin, Text.HashFromDisplayHex, Sound, Deliveries, Stakers,
         Server.Run, Server.Registers, Listed, SpendsOnly;
    var dsha := env.crypto.dsha;
    var s := Server.Run(dsha, Server.START, before);
    var routes := Server.Run(dsha, s, between).routes;
    var stakers := Stakers(s.registry, order, tagged);
    var wins := SearchWins(dsha, tip, stakers, now, ahead);
    var i := DeliveriesCome(routes, wins, k);
    FoundWinSignedIff(env, coins, tip, stakers, now, ahead, i);
    DeliveriesAreOwn(dsha, before, between, order, tagged, tip, now, ahead, k);
    var d := Deliveries(routes, wins)[k];
    var t, j :| t in s.registry && t in routes && routes[t] == d.id && 0 <= j < |tagged| &&
                tagged[j].0 in s.registry[t].addresses &&
                Text.HashFromDisplayHex(d.notice.prevoutTxid) == Ok(tagged[j].1.prevoutHash) &&
                d.notice.prevoutN == tagged[j].1.prevoutN &&
                (Listed(dsha, before, d.id, tagged[j].0) || Server.Registers(dsha, s, between, t));
    if BuildSignedStake(env, coins, d.notice).Ok? {
      SpendsNoticedCoin(env, coins, d.notice, tagged[j].1);
    }
  }

  /** The signed coinstake has one input, and it is this coin. */
  predicate SpendsOnly(stake: SignedStake, coin: StakeCandidate) {
    var tx := ParseHexTx(stake.coinstakeHex);
    tx.Ok? && |tx.value.vin| == 1 && tx.value.vin[0].prevout == OutPoint(coin.prevoutHash, coin.prevoutN)
  }

  lemma SpendsNoticedCoin(env: Env, coins: seq<CoinSelection.OwnedCoin>, n: WinNotice, coin: StakeCandidate)
    requires BuildSignedStake(env, coins, n).Ok?
    requires Text.HashFromDisplayHex(n.prevoutTxid) == Ok(coin.prevoutHash) && n.prevoutN == coin.prevoutN
    ensures SpendsOnly(BuildSignedStake(env, coins, n).value, coin)
  {
    hide BuildSignedStake, Text.HashFromDisplayHex, ParseHexTx, VerifyWin;
    var owned, signed := SignedStakeIsSafe(env, coins, n);
  }
}
