/** The devices a relay watches for: addresses only, never keys, and never too many. */
module DeviceRegistry {
  import opened Machine
  import opened Kernel
  import Base58
  import Text
  import Wallet

  datatype Registration = Registration(addresses: seq<string>, deviceToken: string)

  datatype Device = Device(token: string, addresses: seq<string>, coins: seq<StakeCandidate>)

  datatype RegistryError = NoToken | NoAddresses | TooManyAddresses | LooksLikeKey | NotAnAddress | AtCapacity

  const MAX_ADDRESSES_PER_DEVICE: nat := 64
  const MAX_DEVICES: nat := 20_000

  predicate Contains(s: string, sub: string) {
    sub <= s || (s != [] && Contains(s[1..], sub))
  }

  predicate LooksLikeKeyMaterial(s: string) {
    var t := Text.Trim(s);
    |t| >= 50 || "xprv" <= t || "tprv" <= t || Contains(Text.Lower(t), "private")
  }

  predicate IsValidAddress(dsha: Hasher, a: string) {
    Wallet.AddressScript(dsha, a, Wallet.Main).Some? || Wallet.AddressScript(dsha, a, Wallet.Test).Some?
  }

  function CheckAddresses(dsha: Hasher, addresses: seq<string>): Option<RegistryError> {
    if addresses == [] then None
    else if LooksLikeKeyMaterial(addresses[0]) then Some(LooksLikeKey)
    else if !IsValidAddress(dsha, Text.Trim(addresses[0])) then Some(NotAnAddress)
    else CheckAddresses(dsha, addresses[1..])
  }

  /** `validate_registration` */
  function Validate(dsha: Hasher, reg: Registration): Option<RegistryError> {
    if Text.Trim(reg.deviceToken) == "" then Some(NoToken)
    else if reg.addresses == [] then Some(NoAddresses)
    else if |reg.addresses| > MAX_ADDRESSES_PER_DEVICE then Some(TooManyAddresses)
    else CheckAddresses(dsha, reg.addresses)
  }

  /** What a validated address list is. */
  predicate Watchable(dsha: Hasher, addresses: seq<string>) {
    && 1 <= |addresses| <= MAX_ADDRESSES_PER_DEVICE
    && forall i :: 0 <= i < |addresses| ==>
         !LooksLikeKeyMaterial(addresses[i]) && IsValidAddress(dsha, Text.Trim(addresses[i]))
  }

  lemma {:induction false} CheckAddressesIff(dsha: Hasher, addresses: seq<string>)
    ensures CheckAddresses(dsha, addresses).None? <==>
            forall i :: 0 <= i < |addresses| ==>
              !LooksLikeKeyMaterial(addresses[i]) && IsValidAddress(dsha, Text.Trim(addresses[i]))
  {
    hide LooksLikeKeyMaterial, IsValidAddress;
    if addresses != [] {
      CheckAddressesIff(dsha, addresses[1..]);
      assert forall i :: 0 < i < |addresses| ==> addresses[i] == addresses[1..][i - 1];
      assert forall i :: 0 <= i < |addresses| - 1 ==> addresses[1..][i] == addresses[i + 1];
    }
  }

  lemma ValidateIff(dsha: Hasher, reg: Registration)
    ensures Validate(dsha, reg).None? <==> Text.Trim(reg.deviceToken) != "" && Watchable(dsha, reg.addresses)
  {
    hide LooksLikeKeyMaterial, IsValidAddress;
    CheckAddressesIff(dsha, reg.addresses);
  }

  /** The same without the word for it: a token, 1 to 64 entries, none key-like, each an address. */
  lemma ValidateSpelledOut(dsha: Hasher, reg: Registration)
    ensures Validate(dsha, reg).None? <==>
            && Text.Trim(reg.deviceToken) != "" && 1 <= |reg.addresses| <= 64
            && forall i :: 0 <= i < |reg.addresses| ==>
                 !LooksLikeKeyMaterial(reg.addresses[i]) && IsValidAddress(dsha, Text.Trim(reg.addresses[i]))
  {
    hide LooksLikeKeyMaterial, IsValidAddress, Validate;
    ValidateIff(dsha, reg);
  }

  lemma {:induction false} ContainsIff(s: string, sub: string)
    ensures Contains(s, sub) <==> exists i :: 0 <= i <= |s| && sub <= s[i..]
  {
    if s != [] {
      ContainsIff(s[1..], sub);
      if i :| 0 <= i <= |s[1..]| && sub <= s[1..][i..] {
        assert s[i + 1..] == s[1..][i..];
      }
      if i :| 0 < i <= |s| && sub <= s[i..] {
        assert s[1..][i - 1..] == s[i..];
      }
      assert s[0..] == s;
    } else {
      assert s[0..] == s;
    }
  }

  /** What is accepted: a token, and 1 to 64 entries, each spelling in base 58 the 25 bytes of an
      address of either network, shorter than 50 characters, and without the marks of a key. */
  lemma AcceptedReads(dsha: Hasher, reg: Registration, i: nat)
    requires Validate(dsha, reg).None? && i < |reg.addresses|
    ensures 1 <= |reg.addresses| <= 64 && Text.Trim(reg.deviceToken) != ""
    ensures var t := Text.Trim(reg.addresses[i]);
            && |t| < 50 && !("xprv" <= t) && !("tprv" <= t) && !Contains(Text.Lower(t), "private")
            && exists h: bytes, version: byte :: |h| == 20 && (version == 30 || version == 139) &&
                 Base58.Decode(t) == Ok([version] + h + dsha([version] + h)[..4])
  {
    hide Contains, Wallet.AddressScript, Base58.Decode, Text.Lower;
    ValidateIff(dsha, reg);
    Text.TrimIdempotent(reg.addresses[i]);
    var t := Text.Trim(reg.addresses[i]);
    if Wallet.AddressScript(dsha, t, Wallet.Main).Some? {
      ReadAddress(dsha, t, Wallet.Main);
    } else {
      ReadAddress(dsha, t, Wallet.Test);
    }
  }

  lemma ReadAddress(dsha: Hasher, t: string, network: Wallet.Network)
    requires Wallet.AddressScript(dsha, t, network).Some?
    ensures exists h: bytes, version: byte :: |h| == 20 && version == (if network == Wallet.Main then 30 else 139) &&
              Base58.Decode(Text.Trim(t)) == Ok([version] + h + dsha([version] + h)[..4])
  {
    hide Wallet.Base58CheckDecode, Base58.Decode;
    var (version, h) := Wallet.Base58CheckDecode(dsha, Text.Trim(t)).value;
    Wallet.Base58CheckReads(dsha, Text.Trim(t), version, h);
  }

  /** And each of those marks is enough for a refusal, whatever the rest of the form. */
  lemma KeyMaterialRefused(dsha: Hasher, reg: Registration, i: nat)
    requires i < |reg.addresses|
    requires var t := Text.Trim(reg.addresses[i]);
             |t| >= 50 || "xprv" <= t || "tprv" <= t || exists k :: 0 <= k <= |t| && "private" <= Text.Lower(t)[k..]
    ensures Validate(dsha, reg).Some?
  {
    hide Contains, IsValidAddress, Text.Lower;
    ContainsIff(Text.Lower(Text.Trim(reg.addresses[i])), "private");
    ValidateIff(dsha, reg);
  }

  /** No validated address is a private key in WIF, whatever counts as a valid scalar. */
  lemma WatchableIsNoKey(dsha: Hasher, valid: Digest -> bool, addresses: seq<string>, i: nat)
    requires Watchable(dsha, addresses) && i < |addresses|
    ensures Wallet.FromWif(dsha, valid, addresses[i]).Err?
  {
    hide LooksLikeKeyMaterial, Wallet.Base58CheckDecode;
    Text.TrimIdempotent(addresses[i]);
  }

  // ----- the registry as a map -----

  type Devices = map<string, Device>

  function Register(dsha: Hasher, devices: Devices, reg: Registration): Result<Devices, RegistryError> {
    var problem := Validate(dsha, reg);
    if problem.Some? then Err(problem.value)
    else if reg.deviceToken !in devices && |devices| >= MAX_DEVICES then Err(AtCapacity)
    else Ok(devices[reg.deviceToken := Device(reg.deviceToken, reg.addresses, [])])
  }

  /** A valid registration is refused exactly when its token is new and 20000 devices are there;
      otherwise its token carries its addresses and no coins yet, and no other token changes. */
  lemma RegisterIff(dsha: Hasher, devices: Devices, reg: Registration)
    requires Validate(dsha, reg).None?
    ensures var r, t := Register(dsha, devices, reg), reg.deviceToken;
            && (r.Ok? <==> t in devices || |devices| < 20_000)
            && (r.Ok? ==> t in r.value && r.value[t] == Device(t, reg.addresses, []) && r.value - {t} == devices - {t})
  {
    hide Validate;
  }

  /** Bounded, keyed by token, and every device watches 1 to 64 validated addresses. */
  predicate Sound(dsha: Hasher, devices: Devices) {
    && |devices| <= MAX_DEVICES
    && forall t :: t in devices ==> devices[t].token == t && Watchable(dsha, devices[t].addresses)
  }

  lemma SizeAfter(devices: Devices, t: string, d: Device)
    ensures |devices[t := d]| == |devices| + (if t in devices then 0 else 1)
  {
    var after := devices[t := d];
    assert after.Keys == devices.Keys + {t};
    if t in devices { assert after.Keys == devices.Keys; }
  }

  lemma RegisterSound(dsha: Hasher, devices: Devices, reg: Registration)
    requires Sound(dsha, devices) && Register(dsha, devices, reg).Ok?
    ensures Sound(dsha, Register(dsha, devices, reg).value)
  {
    hide Watchable, Validate;
    ValidateIff(dsha, reg);
    SizeAfter(devices, reg.deviceToken, Device(reg.deviceToken, reg.addresses, []));
  }

  lemma RemoveSound(dsha: Hasher, devices: Devices, token: string)
    requires Sound(dsha, devices)
    ensures Sound(dsha, devices - {token})
  {
    hide Watchable;
    var after := devices - {token};
    assert after.Keys == devices.Keys - {token};
    CardinalityBelow(after.Keys, devices.Keys);
  }

  lemma {:induction false} CardinalityBelow<T>(a: set<T>, b: set<T>)
    requires a <= b
    ensures |a| <= |b|
  {
    assert b == a + (b - a);
  }

  // ----- the addresses, as an ordered set -----

  predicate Ascending(s: seq<string>) { forall i, j :: 0 <= i < j < |s| ==> Text.Less(s[i], s[j]) }

  /** `BTreeSet::insert` */
  function InsertAddress(a: string, s: seq<string>): seq<string> {
    if s == [] || Text.Less(a, s[0]) then [a] + s
    else if a == s[0] then s
    else [s[0]] + InsertAddress(a, s[1..])
  }

  lemma AscendingCons(a: string, s: seq<string>)
    requires Ascending(s) && forall x :: x in s ==> Text.Less(a, x)
    ensures Ascending([a] + s)
  {
    hide Text.Less;
  }

  lemma {:induction false} InsertAddressKeeps(a: string, s: seq<string>)
    requires Ascending(s)
    ensures Ascending(InsertAddress(a, s))
    ensures forall x :: x in InsertAddress(a, s) <==> x == a || x in s
  {
    hide Text.Less;
    if s == [] {
    } else if Text.Less(a, s[0]) {
      forall x | x in s ensures Text.Less(a, x) {
        if x != s[0] { Text.LessTransitive(a, s[0], x); }
      }
      AscendingCons(a, s);
    } else if a != s[0] {
      Text.LessTotal(a, s[0]);
      InsertAddressKeeps(a, s[1..]);
      AscendingCons(s[0], InsertAddress(a, s[1..]));
    }
  }

  class Registry {
    var devices: Devices

    constructor ()
      ensures devices == map[]
    {
      devices := map[];
    }

    method RegisterDevice(dsha: Hasher, reg: Registration) returns (r: Result<Device, RegistryError>)
      modifies this
      ensures match Register(dsha, old(devices), reg)
              case Ok(after) => devices == after && r == Ok(after[reg.deviceToken])
              case Err(e) => devices == old(devices) && r == Err(e)
      ensures Sound(dsha, old(devices)) ==> Sound(dsha, devices)
    {
      if Sound(dsha, devices) && Register(dsha, devices, reg).Ok? {
        RegisterSound(dsha, devices, reg);
      }
      var problem := Validate(dsha, reg);
      if problem.Some? {
        return Err(problem.value);
      }
      if reg.deviceToken !in devices && |devices| >= MAX_DEVICES {
        return Err(AtCapacity);
      }
      devices := devices[reg.deviceToken := Device(reg.deviceToken, reg.addresses, [])];
      return Ok(devices[reg.deviceToken]);
    }

    method Remove(token: string)
      modifies this
      ensures devices == old(devices) - {token}
    {
      devices := devices - {token};
    }

    method SetCoins(token: string, coins: seq<StakeCandidate>)
      modifies this
      ensures devices.Keys == old(devices).Keys
      ensures forall t :: t in devices ==>
                devices[t] == if t == token then old(devices)[t].(coins := coins) else old(devices)[t]
    {
      if token in devices {
        devices := devices[token := devices[token].(coins := coins)];
      }
    }

    /** Every address any device watches, in order and each once. */
    method AllAddresses() returns (seen: seq<string>)
      ensures Ascending(seen)
      ensures forall a :: a in seen <==> exists t :: t in devices && a in devices[t].addresses
    {
      seen := [];
      var todo := devices.Keys;
      while todo != {}
        invariant todo <= devices.Keys && Ascending(seen)
        invariant forall a :: a in seen <==> exists t :: t in devices && t !in todo && a in devices[t].addresses
        decreases |todo|
      {
        var t :| t in todo;
        for i := 0 to |devices[t].addresses|
          invariant Ascending(seen)
          invariant forall a :: a in seen <==>
                      || (exists u :: u in devices && u !in todo && a in devices[u].addresses)
                      || a in devices[t].addresses[..i]
        {
          assert devices[t].addresses[..i + 1] == devices[t].addresses[..i] + [devices[t].addresses[i]];
          InsertAddressKeeps(devices[t].addresses[i], seen);
          seen := InsertAddress(devices[t].addresses[i], seen);
        }
        assert devices[t].addresses[..|devices[t].addresses|] == devices[t].addresses;
        todo := todo - {t};
      }
    }
  }
}
