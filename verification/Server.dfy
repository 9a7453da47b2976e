/** The relay's shared state under concurrency. Each lock section is one atomic step; the
    theorems hold for every interleaving of any number of connections. */
module Server {
  import opened Machine
  import opened DeviceRegistry
  import Wallet

  type ConnId = nat

  /** Where a connection's handler stands: serving, between the two removals of its cleanup,
      or ended. `token` is the one it registered, if any. */
  datatype Phase = Serving | Removing | Ended
  datatype Connection = Connection(token: Option<string>, phase: Phase)

  datatype State = State(registry: Devices, routes: map<string, ConnId>, nextConn: ConnId,
                         conns: map<ConnId, Connection>)

  const START := State(map[], map[], 1, map[])

  datatype Event =
    | Connect
    | Receive(id: ConnId, reg: Registration)
    | Disconnect(id: ConnId)
    | FinishCleanup(id: ConnId)
    | ReadError(id: ConnId)

  // ----- the lock sections -----

  /** Both locks held: register the device if the registry takes it, and route to `id` anyway. */
  function Registered(dsha: Hasher, registry: Devices, reg: Registration): Devices {
    match Register(dsha, registry, reg) case Ok(after) => after case Err(_) => registry
  }

  predicate Serves(s: State, id: ConnId) { id in s.conns && s.conns[id].phase == Serving }

  /** The handler accepts a registration: it is serving, has none yet, and the form is valid. */
  predicate Accepts(dsha: Hasher, s: State, id: ConnId, reg: Registration) {
    Serves(s, id) && s.conns[id].token.None? && Validate(dsha, reg).None?
  }

  /** `id` is still the current connection of the token it registered. */
  predicate Owns(s: State, id: ConnId) {
    id in s.conns && s.conns[id].token.Some? && s.conns[id].token.value in s.routes &&
    s.routes[s.conns[id].token.value] == id
  }

  function Step(dsha: Hasher, s: State, e: Event): State {
    match e
    case Connect =>
      s.(nextConn := s.nextConn + 1, conns := s.conns[s.nextConn := Connection(None, Serving)])
    case Receive(id, reg) =>
      if !Accepts(dsha, s, id, reg) then s else
      s.(registry := Registered(dsha, s.registry, reg), routes := s.routes[reg.deviceToken := id],
         conns := s.conns[id := Connection(Some(reg.deviceToken), Serving)])
    case Disconnect(id) =>
      if !Serves(s, id) then s
      else if Owns(s, id) then
        s.(routes := s.routes - {s.conns[id].token.value}, conns := s.conns[id := s.conns[id].(phase := Removing)])
      else s.(conns := s.conns[id := s.conns[id].(phase := Ended)])
    case FinishCleanup(id) =>
      if id in s.conns && s.conns[id].phase == Removing && s.conns[id].token.Some? then
        s.(registry := s.registry - {s.conns[id].token.value}, conns := s.conns[id := s.conns[id].(phase := Ended)])
      else s
    case ReadError(id) =>
      if Serves(s, id) then s.(conns := s.conns[id := s.conns[id].(phase := Ended)]) else s
  }

  function Run(dsha: Hasher, s: State, events: seq<Event>): State
    decreases |events|
  {
    if events == [] then s else Run(dsha, Step(dsha, s, events[0]), events[1..])
  }

  // ----- what every interleaving keeps -----

  /** A connection is between its two removals of `token`. */
  predicate RemovalPending(s: State, token: string) {
    exists id :: id in s.conns && s.conns[id] == Connection(Some(token), Removing)
  }

  ghost predicate Inv(dsha: Hasher, s: State) {
    && Sound(dsha, s.registry)
    && (forall id :: id in s.conns ==> id < s.nextConn)
    && (forall id :: id in s.conns && s.conns[id].phase == Removing ==> s.conns[id].token.Some?)
    && (forall t :: t in s.routes ==>
          s.routes[t] in s.conns && s.conns[s.routes[t]].token == Some(t) && s.conns[s.routes[t]].phase != Removing)
    && (forall t :: t in s.registry ==> t in s.routes || RemovalPending(s, t))
  }

  lemma InvConnect(dsha: Hasher, s: State)
    requires Inv(dsha, s)
    ensures Inv(dsha, Step(dsha, s, Connect))
  {
    hide Sound;
    var s' := Step(dsha, s, Connect);
    forall t | RemovalPending(s, t) ensures RemovalPending(s', t) {
      var id :| id in s.conns && s.conns[id] == Connection(Some(t), Removing);
      assert s'.conns[id] == s.conns[id];
    }
  }

  lemma RegisteredFacts(dsha: Hasher, registry: Devices, reg: Registration)
    ensures Sound(dsha, registry) ==> Sound(dsha, Registered(dsha, registry, reg))
    ensures forall t :: t in Registered(dsha, registry, reg) ==> t in registry || t == reg.deviceToken
  {
    if Sound(dsha, registry) && Register(dsha, registry, reg).Ok? {
      RegisterSound(dsha, registry, reg);
    }
  }

  lemma InvReceive(dsha: Hasher, s: State, id: ConnId, reg: Registration)
    requires Inv(dsha, s)
    ensures Inv(dsha, Step(dsha, s, Receive(id, reg)))
  {
    hide Sound, Validate, Registered;
    RegisteredFacts(dsha, s.registry, reg);
    var s' := Step(dsha, s, Receive(id, reg));
    forall t | RemovalPending(s, t) ensures RemovalPending(s', t) {
      var k :| k in s.conns && s.conns[k] == Connection(Some(t), Removing);
      assert k in s'.conns && s'.conns[k] == s.conns[k];
    }
  }

  lemma InvDisconnectOwner(dsha: Hasher, s: State, id: ConnId)
    requires Inv(dsha, s) && Serves(s, id) && Owns(s, id)
    ensures Inv(dsha, Step(dsha, s, Disconnect(id)))
  {
    hide Sound, RemovalPending;
    var s', token := Step(dsha, s, Disconnect(id)), s.conns[id].token.value;
    forall t | RemovalPending(s, t) || t == token ensures RemovalPending(s', t) {
      if t == token {
        PendingAt(s', t, id);
      } else {
        PendingKept(s, s', t, id);
      }
    }
  }

  lemma InvDisconnectOther(dsha: Hasher, s: State, id: ConnId)
    requires Inv(dsha, s) && Serves(s, id) && !Owns(s, id)
    ensures Inv(dsha, Step(dsha, s, Disconnect(id)))
  {
    hide Sound, RemovalPending;
    var s' := Step(dsha, s, Disconnect(id));
    forall t | RemovalPending(s, t) ensures RemovalPending(s', t) {
      PendingKept(s, s', t, id);
    }
  }

  lemma PendingAt(s: State, t: string, id: ConnId)
    requires id in s.conns && s.conns[id] == Connection(Some(t), Removing)
    ensures RemovalPending(s, t)
  {
  }

  lemma PendingKept(s: State, s': State, t: string, id: ConnId)
    requires RemovalPending(s, t) && Serves(s, id)
    requires forall k :: k in s.conns && k != id ==> k in s'.conns && s'.conns[k] == s.conns[k]
    ensures RemovalPending(s', t)
  {
    var k :| k in s.conns && s.conns[k] == Connection(Some(t), Removing);
    assert k in s'.conns && s'.conns[k] == s.conns[k];
  }

  lemma InvDisconnect(dsha: Hasher, s: State, id: ConnId)
    requires Inv(dsha, s)
    ensures Inv(dsha, Step(dsha, s, Disconnect(id)))
  {
    hide Inv;
    if Serves(s, id) {
      if Owns(s, id) {
        InvDisconnectOwner(dsha, s, id);
      } else {
        InvDisconnectOther(dsha, s, id);
      }
    }
  }

  lemma InvFinishCleanup(dsha: Hasher, s: State, id: ConnId)
    requires Inv(dsha, s)
    ensures Inv(dsha, Step(dsha, s, FinishCleanup(id)))
  {
    hide Sound;
    var s' := Step(dsha, s, FinishCleanup(id));
    if id in s.conns && s.conns[id].phase == Removing {
      var token := s.conns[id].token.value;
      RemoveSound(dsha, s.registry, token);
      forall t | RemovalPending(s, t) && t != token ensures RemovalPending(s', t) {
        var k :| k in s.conns && s.conns[k] == Connection(Some(t), Removing);
        assert k in s'.conns && s'.conns[k] == s.conns[k];
      }
    }
  }

  lemma InvReadError(dsha: Hasher, s: State, id: ConnId)
    requires Inv(dsha, s)
    ensures Inv(dsha, Step(dsha, s, ReadError(id)))
  {
    hide Sound;
    var s' := Step(dsha, s, ReadError(id));
    forall t | RemovalPending(s, t) ensures RemovalPending(s', t) {
      var k :| k in s.conns && s.conns[k] == Connection(Some(t), Removing);
      assert k in s'.conns && s'.conns[k] == s.conns[k];
    }
  }

  lemma InvStart(dsha: Hasher)
    ensures Inv(dsha, START)
  {
  }

  lemma InvStep(dsha: Hasher, s: State, e: Event)
    requires Inv(dsha, s)
    ensures Inv(dsha, Step(dsha, s, e))
  {
    hide Inv, Step;
    match e
    case Connect => InvConnect(dsha, s);
    case Receive(id, reg) => InvReceive(dsha, s, id, reg);
    case Disconnect(id) => InvDisconnect(dsha, s, id);
    case FinishCleanup(id) => InvFinishCleanup(dsha, s, id);
    case ReadError(id) => InvReadError(dsha, s, id);
  }

  lemma {:induction false} InvRun(dsha: Hasher, s: State, events: seq<Event>)
    requires Inv(dsha, s)
    ensures Inv(dsha, Run(dsha, s, events))
    decreases |events|
  {
    hide Inv, Step;
    if events != [] {
      InvStep(dsha, s, events[0]);
      InvRun(dsha, Step(dsha, s, events[0]), events[1..]);
    }
  }

  /** In every run from the start: distinct tokens are routed to distinct connections that were
      handed out; the registry is bounded, and holds 1 to 64 validated addresses per device,
      none of them a key; and every registered token has a route or is being removed. */
  lemma Safety(dsha: Hasher, valid: Digest -> bool, events: seq<Event>)
    ensures var s := Run(dsha, START, events);
            && (forall t :: t in s.routes ==> s.routes[t] < s.nextConn)
            && (forall t, u :: t in s.routes && u in s.routes && t != u ==> s.routes[t] != s.routes[u])
            && |s.registry| <= MAX_DEVICES
            && (forall t :: t in s.registry ==> Watchable(dsha, s.registry[t].addresses))
            && (forall t, i :: t in s.registry && 0 <= i < |s.registry[t].addresses| ==>
                  Wallet.FromWif(dsha, valid, s.registry[t].addresses[i]).Err?)
            && (forall t :: t in s.registry ==> t in s.routes || RemovalPending(s, t))
  {
    hide Watchable, Step;
    InvStart(dsha);
    InvRun(dsha, START, events);
    var s := Run(dsha, START, events);
    forall t, i | t in s.registry && 0 <= i < |s.registry[t].addresses|
      ensures Wallet.FromWif(dsha, valid, s.registry[t].addresses[i]).Err?
    {
      WatchableIsNoKey(dsha, valid, s.registry[t].addresses, i);
    }
  }

  // ----- cleanup -----

  /** A step takes a token's route away exactly when it is the disconnect of the connection the
      token is routed to, while that one serves; and it moves the route only to a connection
      that has just registered the token. */
  lemma RouteLostIff(dsha: Hasher, s: State, e: Event, t: string)
    requires t in s.routes
    ensures var s', id := Step(dsha, s, e), s.routes[t];
            && (t !in s'.routes <==> e == Disconnect(id) && Serves(s, id) && s.conns[id].token == Some(t))
            && (t in s'.routes && s'.routes[t] != s.routes[t] ==>
                  e.Receive? && e.reg.deviceToken == t && Accepts(dsha, s, e.id, e.reg) && s'.routes[t] == e.id)
  {
    hide Validate, Registered;
  }

  /** A route lasts until its own connection disconnects or another one registers its token:
      old connections of the same token may end in any way meanwhile. */
  lemma {:induction false} RouteSurvives(dsha: Hasher, s: State, events: seq<Event>, t: string)
    requires t in s.routes
    requires forall i :: 0 <= i < |events| ==> events[i] != Disconnect(s.routes[t])
    requires forall i :: 0 <= i < |events| ==> events[i].Receive? ==> events[i].reg.deviceToken != t
    ensures var s' := Run(dsha, s, events); t in s'.routes && s'.routes[t] == s.routes[t]
    decreases |events|
  {
    hide Step, Accepts;
    if events != [] {
      var s1 := Step(dsha, s, events[0]);
      RouteLostIff(dsha, s, events[0], t);
      assert forall i :: 0 <= i < |events| - 1 ==> events[1..][i] == events[i + 1];
      RouteSurvives(dsha, s1, events[1..], t);
    }
  }

  // ----- when the two maps agree -----

  /** Tokens that are routed but not registered: their devices are never searched for. */
  function Orphans(s: State): set<string> { s.routes.Keys - s.registry.Keys }

  /** The two ways a step can lose a registration that has a route. */
  predicate Harmful(dsha: Hasher, s: State, e: Event) {
    match e
    case Receive(id, reg) =>
      Accepts(dsha, s, id, reg) && reg.deviceToken !in s.registry && |s.registry| >= MAX_DEVICES
    case FinishCleanup(id) =>
      id in s.conns && s.conns[id].phase == Removing && s.conns[id].token.Some? && s.conns[id].token.value in s.routes
    case _ => false
  }

  /** From a state without orphans a step makes one exactly when a new token is refused at
      capacity, or when a cleanup finishes after its token has been registered again. */
  lemma OrphanedIff(dsha: Hasher, s: State, e: Event)
    requires Orphans(s) == {}
    ensures Orphans(Step(dsha, s, e)) != {} <==> Harmful(dsha, s, e)
  {
    hide Validate, Owns;
    var s' := Step(dsha, s, e);
    forall t | t in s.routes ensures t in s.registry {
      assert t !in Orphans(s);
    }
    if Harmful(dsha, s, e) {
      var t := if e.Receive? then e.reg.deviceToken else s.conns[e.id].token.value;
      assert t in Orphans(s');
    }
  }

  predicate Harmless(dsha: Hasher, s: State, events: seq<Event>)
    decreases |events|
  {
    events == [] || (!Harmful(dsha, s, events[0]) && Harmless(dsha, Step(dsha, s, events[0]), events[1..]))
  }

  lemma {:induction false} HarmlessRunHasNoOrphans(dsha: Hasher, s: State, events: seq<Event>)
    requires Orphans(s) == {} && Harmless(dsha, s, events)
    ensures Orphans(Run(dsha, s, events)) == {}
    decreases |events|
  {
    hide Orphans, Harmful, Step;
    if events != [] {
      OrphanedIff(dsha, s, events[0]);
      HarmlessRunHasNoOrphans(dsha, Step(dsha, s, events[0]), events[1..]);
    }
  }

  lemma RunPrefix(dsha: Hasher, s: State, events: seq<Event>, k: nat)
    requires k < |events|
    ensures Run(dsha, s, events[..k + 1]) == Run(dsha, Step(dsha, s, events[0]), events[1..][..k])
  {
    hide Step;
    assert events[..k + 1][1..] == events[1..][..k];
  }

  /** No state of a run has an orphan exactly when neither event occurs in it. */
  lemma {:induction false} NeverOrphanedIff(dsha: Hasher, s: State, events: seq<Event>)
    requires Orphans(s) == {}
    ensures (forall k :: 0 <= k <= |events| ==> Orphans(Run(dsha, s, events[..k])) == {}) <==> Harmless(dsha, s, events)
    decreases |events|
  {
    hide Orphans, Harmful, Step;
    if events == [] {
      assert events[..0] == events;
    } else {
      var s1, rest := Step(dsha, s, events[0]), events[1..];
      OrphanedIff(dsha, s, events[0]);
      forall k | 0 <= k <= |rest| ensures Run(dsha, s, events[..k + 1]) == Run(dsha, s1, rest[..k]) {
        RunPrefix(dsha, s, events, k);
      }
      assert Run(dsha, s, events[..0]) == s && Run(dsha, s, events[..1]) == s1 by { assert rest[..0] == []; }
      if Orphans(s1) == {} {
        NeverOrphanedIff(dsha, s1, rest);
        assert forall k :: 0 < k <= |events| ==> Run(dsha, s, events[..k]) == Run(dsha, s1, rest[..k - 1]);
      }
    }
  }

  /** After a run without those two events, and with no cleanup half done, registry and routes
      hold the same tokens. */
  lemma MapsAgree(dsha: Hasher, events: seq<Event>)
    requires Harmless(dsha, START, events)
    ensures var s := Run(dsha, START, events);
            (forall t :: !RemovalPending(s, t)) ==> s.registry.Keys == s.routes.Keys
  {
    hide Step, Sound, Harmless;
    InvStart(dsha);
    InvRun(dsha, START, events);
    HarmlessRunHasNoOrphans(dsha, START, events);
    var s := Run(dsha, START, events);
    forall t | t in s.routes ensures t in s.registry {
      assert t !in Orphans(s);
    }
  }

  /** They need not agree otherwise: a reconnect between the two removals of the old connection's
      cleanup leaves the new connection serving and routed, but its device unregistered. */
  lemma ReconnectLosesRegistration(dsha: Hasher, reg: Registration) returns (events: seq<Event>)
    requires Validate(dsha, reg).None?
    ensures var s := Run(dsha, START, events);
            var t := reg.deviceToken;
            && s.registry == map[] && t in s.routes && s.routes[t] in s.conns &&
               s.conns[s.routes[t]] == Connection(Some(t), Serving)
            && forall u :: !RemovalPending(s, u)
  {
    hide Validate;
    var t := reg.deviceToken;
    events := [Connect, Receive(1, reg), Disconnect(1), Connect, Receive(2, reg), FinishCleanup(1)];
    var d: Devices := map[t := Device(t, reg.addresses, [])];
    var s1 := Step(dsha, START, Connect);
    var s2 := Step(dsha, s1, Receive(1, reg));
    assert s2 == State(d, map[t := 1], 2, map[1 := Connection(Some(t), Serving)]);
    var s3 := Step(dsha, s2, Disconnect(1));
    assert s3 == State(d, map[], 2, map[1 := Connection(Some(t), Removing)]);
    var s4 := Step(dsha, s3, Connect);
    var s5 := Step(dsha, s4, Receive(2, reg));
    assert s5.registry == d && s5.routes == map[t := 2];
    assert s5.conns == map[1 := Connection(Some(t), Removing), 2 := Connection(Some(t), Serving)];
    var s6 := Step(dsha, s5, FinishCleanup(1));
    RunUnfold(dsha, START, [Connect, Receive(1, reg), Disconnect(1)], [Connect, Receive(2, reg), FinishCleanup(1)]);
    RunThree(dsha, START, Connect, Receive(1, reg), Disconnect(1));
    RunThree(dsha, s3, Connect, Receive(2, reg), FinishCleanup(1));
    assert events == [Connect, Receive(1, reg), Disconnect(1)] + [Connect, Receive(2, reg), FinishCleanup(1)];
  }

  lemma {:induction false} RunUnfold(dsha: Hasher, s: State, a: seq<Event>, b: seq<Event>)
    ensures Run(dsha, s, a + b) == Run(dsha, Run(dsha, s, a), b)
    decreases |a|
  {
    hide Step;
    if a == [] {
      assert a + b == b;
    } else {
      assert (a + b)[1..] == a[1..] + b;
      RunUnfold(dsha, Step(dsha, s, a[0]), a[1..], b);
    }
  }

  lemma RunThree(dsha: Hasher, s: State, a: Event, b: Event, c: Event)
    ensures Run(dsha, s, [a, b, c]) == Step(dsha, Step(dsha, Step(dsha, s, a), b), c)
  {
    hide Step;
    assert [a, b, c][1..] == [b, c] && [b, c][1..] == [c] && [c][1..] == [];
    assert Run(dsha, Step(dsha, Step(dsha, s, a), b), [c]) == Step(dsha, Step(dsha, Step(dsha, s, a), b), c);
    assert Run(dsha, Step(dsha, s, a), [b, c]) == Run(dsha, Step(dsha, Step(dsha, s, a), b), [c]);
  }

  // ----- what a read error costs -----

  /** Every route leads to a connection that is being served. */
  predicate RoutesServe(s: State) { forall t :: t in s.routes ==> Serves(s, s.routes[t]) }

  /** A read error ends the handler without cleanup, and its route stays behind. */
  predicate LeavesRoute(s: State, e: Event) { e.ReadError? && Serves(s, e.id) && Owns(s, e.id) }

  /** From a state whose routes all serve, a step leaves a dead one exactly when it is a read error
      on a connection that owns its route. */
  lemma DeadRouteIff(dsha: Hasher, s: State, e: Event)
    requires Inv(dsha, s) && RoutesServe(s)
    ensures !RoutesServe(Step(dsha, s, e)) <==> LeavesRoute(s, e)
  {
    hide Sound, Validate, Registered, RemovalPending;
    var s' := Step(dsha, s, e);
    if LeavesRoute(s, e) {
      var t := s.conns[e.id].token.value;
      assert t in s'.routes && !Serves(s', s'.routes[t]);
    }
  }

  predicate LeavesNoRoute(dsha: Hasher, s: State, events: seq<Event>)
    decreases |events|
  {
    events == [] || (!LeavesRoute(s, events[0]) && LeavesNoRoute(dsha, Step(dsha, s, events[0]), events[1..]))
  }

  /** In every state of a run every route serves exactly when no read error hits the owner of one. */
  lemma {:induction false} RoutesServeIff(dsha: Hasher, s: State, events: seq<Event>)
    requires Inv(dsha, s) && RoutesServe(s)
    ensures (forall k :: 0 <= k <= |events| ==> RoutesServe(Run(dsha, s, events[..k]))) <==>
            LeavesNoRoute(dsha, s, events)
    decreases |events|
  {
    hide Inv, RoutesServe, LeavesRoute, Step;
    if events == [] {
      assert events[..0] == events;
    } else {
      var s1, rest := Step(dsha, s, events[0]), events[1..];
      DeadRouteIff(dsha, s, events[0]);
      InvStep(dsha, s, events[0]);
      forall k | 0 <= k <= |rest| ensures Run(dsha, s, events[..k + 1]) == Run(dsha, s1, rest[..k]) {
        RunPrefix(dsha, s, events, k);
      }
      assert Run(dsha, s, events[..0]) == s && Run(dsha, s, events[..1]) == s1 by { assert rest[..0] == []; }
      if RoutesServe(s1) {
        RoutesServeIff(dsha, s1, rest);
        assert forall k :: 0 < k <= |events| ==> Run(dsha, s, events[..k]) == Run(dsha, s1, rest[..k - 1]);
      }
    }
  }

  /** Three steps are enough: the device stays registered and routed, with nobody there. */
  lemma ReadErrorLeavesRoute(dsha: Hasher, reg: Registration) returns (events: seq<Event>)
    requires Validate(dsha, reg).None?
    ensures var s := Run(dsha, START, events);
            var t := reg.deviceToken;
            t in s.registry && t in s.routes && s.routes[t] in s.conns && s.conns[s.routes[t]].phase == Ended
  {
    hide Validate;
    events := [Connect, Receive(1, reg), ReadError(1)];
    RunThree(dsha, START, Connect, Receive(1, reg), ReadError(1));
  }

  // ----- whose addresses a routed token carries -----

  /** Step `k` of a run is a registration that was accepted of connection `id`. */
  predicate RegisteredAt(dsha: Hasher, s: State, events: seq<Event>, k: nat, id: ConnId, reg: Registration) {
    k < |events| && events[k] == Receive(id, reg) && Accepts(dsha, Run(dsha, s, events[..k]), id, reg)
  }

  lemma RunSnoc(dsha: Hasher, s: State, events: seq<Event>, e: Event)
    ensures Run(dsha, s, events + [e]) == Step(dsha, Run(dsha, s, events), e)
  {
    hide Step;
    RunUnfold(dsha, s, events, [e]);
    assert [e][1..] == [];
  }

  /** A step that changes what a token is registered with, or where it is routed, while it is both,
      is the acceptance of that registration on that connection. */
  lemma BothChangeTogether(dsha: Hasher, s: State, e: Event, t: string)
    requires var s' := Step(dsha, s, e); t in s'.routes && t in s'.registry
    ensures var s' := Step(dsha, s, e);
            || (t in s.routes && t in s.registry && s'.routes[t] == s.routes[t] && s'.registry[t] == s.registry[t])
            || (&& e.Receive? && e.id == s'.routes[t] && e.reg.deviceToken == t && Accepts(dsha, s, e.id, e.reg)
                && s'.registry[t].addresses == e.reg.addresses)
  {
    hide Validate;
  }

  /** In every run a token that is both routed and registered carries exactly the addresses that the
      connection it is routed to registered itself. */
  lemma {:induction false} RegisteredByRouted(dsha: Hasher, events: seq<Event>, t: string)
      returns (k: nat, reg: Registration)
    requires var s := Run(dsha, START, events); t in s.routes && t in s.registry
    ensures var s := Run(dsha, START, events);
            && RegisteredAt(dsha, START, events, k, s.routes[t], reg)
            && reg.deviceToken == t && s.registry[t].addresses == reg.addresses
    decreases |events|
  {
    hide Step, Accepts;
    var n := |events| - 1;
    var init, e := events[..n], events[n];
    var s := Run(dsha, START, init);
    assert events == init + [e];
    RunSnoc(dsha, START, init, e);
    BothChangeTogether(dsha, s, e, t);
    var s' := Step(dsha, s, e);
    if t in s.routes && t in s.registry && s'.routes[t] == s.routes[t] && s'.registry[t] == s.registry[t] {
      k, reg := RegisteredByRouted(dsha, init, t);
      assert events[..k] == init[..k];
    } else {
      k, reg := n, e.reg;
    }
  }

  lemma TokenKeptStep(dsha: Hasher, s: State, e: Event, id: ConnId)
    requires Inv(dsha, s) && id in s.conns && s.conns[id].token.Some?
    ensures id in Step(dsha, s, e).conns && Step(dsha, s, e).conns[id].token == s.conns[id].token
  {
    hide Sound, Validate, RemovalPending, Registered;
  }

  lemma {:induction false} TokenKept(dsha: Hasher, s: State, events: seq<Event>, id: ConnId)
    requires Inv(dsha, s) && id in s.conns && s.conns[id].token.Some?
    ensures id in Run(dsha, s, events).conns && Run(dsha, s, events).conns[id].token == s.conns[id].token
    decreases |events|
  {
    hide Inv, Step;
    if events != [] {
      TokenKeptStep(dsha, s, events[0], id);
      InvStep(dsha, s, events[0]);
      TokenKept(dsha, Step(dsha, s, events[0]), events[1..], id);
    }
  }

  /** A connection registers once: its first accepted registration is its last. */
  lemma RegistersOnce(dsha: Hasher, events: seq<Event>, j: nat, k: nat, id: ConnId, reg: Registration,
                      reg': Registration)
    requires RegisteredAt(dsha, START, events, j, id, reg) && RegisteredAt(dsha, START, events, k, id, reg')
    ensures j == k && reg == reg'
  {
    if j < k {
      NotRegisteredAgain(dsha, events, j, k, id, reg);
    } else if k < j {
      NotRegisteredAgain(dsha, events, k, j, id, reg');
    }
  }

  lemma NotRegisteredAgain(dsha: Hasher, events: seq<Event>, j: nat, k: nat, id: ConnId, reg: Registration)
    requires RegisteredAt(dsha, START, events, j, id, reg) && j < k <= |events|
    ensures var s := Run(dsha, START, events[..k]); id in s.conns && s.conns[id].token.Some?
  {
    hide Validate, Registered;
    var s := Run(dsha, START, events[..j]);
    assert events[..j + 1] == events[..j] + [events[j]];
    RunSnoc(dsha, START, events[..j], events[j]);
    assert events[..k] == events[..j + 1] + events[j + 1..k];
    RunUnfold(dsha, START, events[..j + 1], events[j + 1..k]);
    InvStart(dsha);
    InvRun(dsha, START, events[..j + 1]);
    hide Inv;
    TokenKept(dsha, Run(dsha, START, events[..j + 1]), events[j + 1..k], id);
  }

  /** Some connection has `t` accepted in the course of a run. */
  ghost predicate Registers(dsha: Hasher, s: State, events: seq<Event>, t: string) {
    exists k, id, reg :: RegisteredAt(dsha, s, events, k, id, reg) && reg.deviceToken == t
  }

  lemma RegistersLater(dsha: Hasher, s: State, events: seq<Event>, t: string)
    requires events != []
    ensures Registers(dsha, Step(dsha, s, events[0]), events[1..], t) ==> Registers(dsha, s, events, t)
  {
    hide Accepts, Step;
    var s1, rest := Step(dsha, s, events[0]), events[1..];
    if Registers(dsha, s1, rest, t) {
      var k: nat, id: ConnId, reg: Registration :| RegisteredAt(dsha, s1, rest, k, id, reg) && reg.deviceToken == t;
      RunPrefix(dsha, s, events, k);
      assert RegisteredAt(dsha, s, events, k + 1, id, reg);
    }
  }

  /** Routes come from registrations only. */
  lemma {:induction false} RouteUnlessRegistered(dsha: Hasher, s: State, events: seq<Event>, t: string)
    requires t in Run(dsha, s, events).routes && !Registers(dsha, s, events, t)
    ensures t in s.routes && s.routes[t] == Run(dsha, s, events).routes[t]
    decreases |events|
  {
    hide Accepts, Step;
    if events != [] {
      var s1, rest := Step(dsha, s, events[0]), events[1..];
      RegistersLater(dsha, s, events, t);
      RouteUnlessRegistered(dsha, s1, rest, t);
      RouteStep(dsha, s, events[0], t);
      if events[0].Receive? {
        assert events[..0] == [];
        var id, reg := events[0].id, events[0].reg;
        assert RegisteredAt(dsha, s, events, 0, id, reg) <==> Accepts(dsha, s, id, reg);
      }
    }
  }

  lemma RouteStep(dsha: Hasher, s: State, e: Event, t: string)
    requires t in Step(dsha, s, e).routes
    ensures || (t in s.routes && s.routes[t] == Step(dsha, s, e).routes[t])
            || (e.Receive? && e.reg.deviceToken == t && Accepts(dsha, s, e.id, e.reg))
  {
    hide Validate, Registered;
  }

  // ----- the lock sections as the handler runs them -----

  class RelayState {
    const registry: Registry
    var outbound: map<string, ConnId>
    var nextConnId: ConnId

    constructor ()
      ensures fresh(registry) && registry.devices == map[] && outbound == map[] && nextConnId == 1
    {
      registry := new Registry();
      outbound := map[];
      nextConnId := 1;
    }

    /** The shared part of an abstract state. */
    predicate Represents(s: State)
      reads this, registry
    {
      registry.devices == s.registry && outbound == s.routes && nextConnId == s.nextConn
    }

    method FetchConnId(ghost dsha: Hasher, ghost s: State) returns (id: ConnId)
      requires Represents(s)
      modifies this
      ensures id == s.nextConn && Represents(Step(dsha, s, Connect))
    {
      id := nextConnId;
      nextConnId := nextConnId + 1;
    }

    /** Both locks: the registry's answer does not decide whether the route is inserted. The number
        of eligible coins reported to the phone is always zero, because registering clears them. */
    method RegisterSection(dsha: Hasher, id: ConnId, reg: Registration, ghost s: State) returns (eligible: nat)
      requires Represents(s) && Accepts(dsha, s, id, reg)
      modifies this, registry
      ensures Represents(Step(dsha, s, Receive(id, reg)))
      ensures eligible == 0
    {
      var d := registry.RegisterDevice(dsha, reg);
      eligible := if d.Ok? then |d.value.coins| else 0;
      outbound := outbound[reg.deviceToken := id];
    }

    /** First cleanup section: give up the route if it is still this connection's. */
    method RouteSection(ghost dsha: Hasher, id: ConnId, token: string, ghost s: State) returns (removed: bool)
      requires Represents(s) && Serves(s, id) && s.conns[id].token == Some(token)
      modifies this
      ensures Represents(Step(dsha, s, Disconnect(id)))
      ensures removed <==> Step(dsha, s, Disconnect(id)).conns[id].phase == Removing
    {
      removed := token in outbound && outbound[token] == id;
      if removed {
        outbound := outbound - {token};
      }
    }

    /** Second cleanup section, some time later. */
    method DeviceSection(ghost dsha: Hasher, id: ConnId, token: string, ghost s: State)
      requires Represents(s) && id in s.conns && s.conns[id] == Connection(Some(token), Removing)
      modifies registry
      ensures Represents(Step(dsha, s, FinishCleanup(id)))
    {
      registry.Remove(token);
    }
  }
}
