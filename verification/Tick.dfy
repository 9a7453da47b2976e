/** One block's work: each device is given the coins on its own addresses, and each win goes to
    the connection its token is routed to. */
module Tick {
  import opened Machine
  import opened Kernel
  import opened Engine
  import opened DeviceRegistry
  import Text
  import Server

  type TaggedCoins = seq<(string, StakeCandidate)>

  function OwnCoins(coins: TaggedCoins, d: Device): seq<StakeCandidate> {
    if coins == [] then []
    else if coins[0].0 in d.addresses then [coins[0].1] + OwnCoins(coins[1..], d)
    else OwnCoins(coins[1..], d)
  }

  /** The stakers of the devices in `order`, which is whatever order the map is walked in. */
  function Stakers(devices: Devices, order: seq<string>, coins: TaggedCoins): (s: seq<Staker>)
    requires forall i :: 0 <= i < |order| ==> order[i] in devices
    ensures |s| == |order|
  {
    seq(|order|, i requires 0 <= i < |order| =>
      var d := devices[order[i]];
      Staker(d.token, if d.addresses == [] then "" else d.addresses[0], OwnCoins(coins, d)))
  }

  datatype Delivery = Delivery(id: Server.ConnId, notice: WinNotice)

  function Deliveries(routes: map<string, Server.ConnId>, wins: seq<FoundWin>): seq<Delivery> {
    if wins == [] then []
    else if wins[0].deviceToken in routes then
      [Delivery(routes[wins[0].deviceToken], wins[0].notice)] + Deliveries(routes, wins[1..])
    else Deliveries(routes, wins[1..])
  }

  lemma {:induction false} OwnCoinsIff(coins: TaggedCoins, d: Device, c: StakeCandidate)
    ensures c in OwnCoins(coins, d) <==> exists i :: 0 <= i < |coins| && coins[i].1 == c && coins[i].0 in d.addresses
  {
    if coins != [] {
      OwnCoinsIff(coins[1..], d, c);
      if i :| 0 <= i < |coins[1..]| && coins[1..][i].1 == c && coins[1..][i].0 in d.addresses {
        assert coins[i + 1].1 == c && coins[i + 1].0 in d.addresses;
      }
      if i :| 0 <= i < |coins| && coins[i].1 == c && coins[i].0 in d.addresses {
        if i > 0 { assert coins[1..][i - 1] == coins[i]; }
      }
    }
  }

  /** Order and repetitions are kept. */
  lemma {:induction false} OwnCoinsConcat(a: TaggedCoins, b: TaggedCoins, d: Device)
    ensures OwnCoins(a + b, d) == OwnCoins(a, d) + OwnCoins(b, d)
  {
    if a == [] {
      assert a + b == b;
    } else {
      assert (a + b)[1..] == a[1..] + b;
      OwnCoinsConcat(a[1..], b, d);
    }
  }

  /** Every win whose token has a route is delivered, in the order they were found. */
  lemma {:induction false} RoutedWinDelivered(routes: map<string, Server.ConnId>, wins: seq<FoundWin>, i: nat)
      returns (k: nat)
    requires i < |wins| && wins[i].deviceToken in routes
    ensures k == |Deliveries(routes, wins[..i])| < |Deliveries(routes, wins)|
    ensures Deliveries(routes, wins)[k] == Delivery(routes[wins[i].deviceToken], wins[i].notice)
  {
    if i == 0 {
      k := 0;
      assert wins[..0] == [];
    } else {
      k := RoutedWinDelivered(routes, wins[1..], i - 1);
      assert wins[..i][1..] == wins[1..][..i - 1];
      k := if wins[0].deviceToken in routes then k + 1 else k;
    }
  }

  lemma {:induction false} DeliveriesCome(routes: map<string, Server.ConnId>, wins: seq<FoundWin>, k: nat)
      returns (i: nat)
    requires k < |Deliveries(routes, wins)|
    ensures i < |wins| && wins[i].deviceToken in routes
    ensures Deliveries(routes, wins)[k] == Delivery(routes[wins[i].deviceToken], wins[i].notice)
  {
    if wins[0].deviceToken in routes && k == 0 {
      i := 0;
    } else {
      i := DeliveriesCome(routes, wins[1..], if wins[0].deviceToken in routes then k - 1 else k);
      i := i + 1;
    }
  }

  /** A connection is told only of coins on addresses that the device it is routed for asked to
      watch, and only of wins that check. */
  lemma DeliveriesArePrivate(dsha: Hasher, devices: Devices, order: seq<string>, coins: TaggedCoins,
                             routes: map<string, Server.ConnId>, tip: StakingTip, now: u32, ahead: u32, k: nat)
    requires Sound(dsha, devices) && forall i :: 0 <= i < |order| ==> order[i] in devices
    requires k < |Deliveries(routes, SearchWins(dsha, tip, Stakers(devices, order, coins), now, ahead))|
    ensures var d := Deliveries(routes, SearchWins(dsha, tip, Stakers(devices, order, coins), now, ahead))[k];
            && VerifyWin(dsha, d.notice).Ok?
            && exists t, j :: t in devices && t in routes && routes[t] == d.id && 0 <= j < |coins| &&
                 coins[j].0 in devices[t].addresses &&
                 Text.HashFromDisplayHex(d.notice.prevoutTxid) == Ok(coins[j].1.prevoutHash) &&
                 d.notice.prevoutN == coins[j].1.prevoutN
  {
    hide SearchWins, VerifyWin, Text.HashFromDisplayHex, Watchable, WindowStart, WindowEnd;
    var stakers := Stakers(devices, order, coins);
    var wins := SearchWins(dsha, tip, stakers, now, ahead);
    var i := DeliveriesCome(routes, wins, k);
    FoundWinsVerify(dsha, tip, stakers, now, ahead, i);
    var w := wins[i];
    var s, c :| 0 <= s < |stakers| && 0 <= c < |stakers[s].coins| && stakers[s].deviceToken == w.deviceToken &&
                Text.HashFromDisplayHex(w.notice.prevoutTxid) == Ok(stakers[s].coins[c].prevoutHash) &&
                w.notice.prevoutN == stakers[s].coins[c].prevoutN;
    var t := order[s];
    var coin := stakers[s].coins[c];
    assert coin in OwnCoins(coins, devices[t]);
    OwnCoinsIff(coins, devices[t], coin);
  }

  /** Some registration accepted of connection `id` lists the address `a`. */
  ghost predicate Listed(dsha: Hasher, events: seq<Server.Event>, id: Server.ConnId, a: string) {
    exists k, reg :: Server.RegisteredAt(dsha, Server.START, events, k, id, reg) && a in reg.addresses
  }

  /** The registry is read `before`, the routes only after the steps `between`. A connection is told
      only of coins on addresses it registered itself, unless its token was registered again in
      the meantime. */
  lemma DeliveriesAreOwn(dsha: Hasher, before: seq<Server.Event>, between: seq<Server.Event>, order: seq<string>,
                         coins: TaggedCoins, tip: StakingTip, now: u32, ahead: u32, k: nat)
    requires var s := Server.Run(dsha, Server.START, before);
             && (forall i :: 0 <= i < |order| ==> order[i] in s.registry)
             && k < |Deliveries(Server.Run(dsha, s, between).routes,
                                SearchWins(dsha, tip, Stakers(s.registry, order, coins), now, ahead))|
    ensures var s := Server.Run(dsha, Server.START, before);
            var routes := Server.Run(dsha, s, between).routes;
            var d := Deliveries(routes, SearchWins(dsha, tip, Stakers(s.registry, order, coins), now, ahead))[k];
            && VerifyWin(dsha, d.notice).Ok?
            && exists t, j :: t in s.registry && t in routes && routes[t] == d.id && 0 <= j < |coins| &&
                 coins[j].0 in s.registry[t].addresses &&
                 Text.HashFromDisplayHex(d.notice.prevoutTxid) == Ok(coins[j].1.prevoutHash) &&
                 d.notice.prevoutN == coins[j].1.prevoutN &&
                 (Listed(dsha, before, d.id, coins[j].0) || Server.Registers(dsha, s, between, t))
  {
    hide SearchWins, VerifyWin, Text.HashFromDisplayHex, Server.Run, Server.RegisteredAt, Stakers, Deliveries, Sound,
         Server.Registers;
    var s := Server.Run(dsha, Server.START, before);
    var routes := Server.Run(dsha, s, between).routes;
    SoundAfter(dsha, before);
    DeliveriesArePrivate(dsha, s.registry, order, coins, routes, tip, now, ahead, k);
    var d := Deliveries(routes, SearchWins(dsha, tip, Stakers(s.registry, order, coins), now, ahead))[k];
    var t, j :| t in s.registry && t in routes && routes[t] == d.id && 0 <= j < |coins| &&
                coins[j].0 in s.registry[t].addresses &&
                Text.HashFromDisplayHex(d.notice.prevoutTxid) == Ok(coins[j].1.prevoutHash) &&
                d.notice.prevoutN == coins[j].1.prevoutN;
    if !Server.Registers(dsha, s, between, t) {
      Server.RouteUnlessRegistered(dsha, s, between, t);
      var r, reg := Server.RegisteredByRouted(dsha, before, t);
      assert Listed(dsha, before, d.id, coins[j].0);
    }
  }

  lemma SoundAfter(dsha: Hasher, events: seq<Server.Event>)
    ensures Sound(dsha, Server.Run(dsha, Server.START, events).registry)
  {
    hide Server.Run;
    Server.InvStart(dsha);
    Server.InvRun(dsha, Server.START, events);
  }
}
