/** Addresses and WIF keys: base58check over any checksum hash. */
module Wallet {
  import opened Machine
  import Base58
  import Text

  datatype Network = Main | Test

  datatype WalletError = BadBase58 | TooShort | BadChecksum | BadVersion | BadPayload | InvalidKey

  /** A staking key: the secret scalar and the public key encoding it is used with. */
  datatype StakingKey = StakingKey(secret: Digest, compressed: bool)

  function PubkeyVersion(n: Network): byte { if n == Main then 30 else 139 }

  function SecretVersion(n: Network): byte { if n == Main then 212 else 239 }

  function Base58CheckEncode(dsha: Hasher, version: byte, payload: bytes): string {
    var data := [version] + payload;
    Base58.Encode(data + dsha(data)[..4])
  }

  function Base58CheckDecode(dsha: Hasher, s: string): Result<(byte, bytes), WalletError> {
    match Base58.Decode(s)
    case Err(_) => Err(BadBase58)
    case Ok(data) =>
      if |data| < 5 then Err(TooShort) else
      var body, checksum := data[..|data| - 4], data[|data| - 4..];
      if checksum != dsha(body)[..4] then Err(BadChecksum)
      else Ok((body[0], body[1..]))
  }

  /** For every hash function, one string decodes to a version and payload: their encoding. */
  lemma Base58CheckIff(dsha: Hasher, s: string, version: byte, payload: bytes)
    ensures Base58CheckDecode(dsha, s) == Ok((version, payload)) <==> s == Base58CheckEncode(dsha, version, payload)
  {
    hide Base58.Encode, Base58.Decode;
    var body := [version] + payload;
    var checksum := dsha(body)[..4];
    Base58.DecodeIffEncode(s, body + checksum);
    SplitAt(body, checksum);
    assert body[1..] == payload;
    match Base58.Decode(s) {
      case Err(_) =>
      case Ok(d) => if |d| >= 5 && d[0] == version && d[..|d| - 4][1..] == payload { Rejoin(d, version, payload); }
    }
  }

  lemma SplitAt(body: bytes, checksum: bytes)
    requires |checksum| == 4
    ensures var d := body + checksum; d[..|d| - 4] == body && d[|d| - 4..] == checksum
  {
  }

  lemma Rejoin(d: bytes, version: byte, payload: bytes)
    requires |d| >= 5 && d[0] == version && d[..|d| - 4][1..] == payload
    ensures d == [version] + payload + d[|d| - 4..]
  {
    assert d[..|d| - 4] == [version] + payload;
    assert d == d[..|d| - 4] + d[|d| - 4..];
  }

  /** What is spelled in base 58: version, payload, and the first four bytes of their hash. */
  lemma Base58CheckLayout(dsha: Hasher, version: byte, payload: bytes)
    ensures var body := [version] + payload;
            Base58.Decode(Base58CheckEncode(dsha, version, payload)) == Ok(body + dsha(body)[..4])
  {
    hide Base58.Decode, Base58.Encode;
    var body := [version] + payload;
    Base58.DecodeIffEncode(Base58CheckEncode(dsha, version, payload), body + dsha(body)[..4]);
  }

  /** A string decodes to a version and payload exactly when base 58 spells them so. */
  lemma Base58CheckReads(dsha: Hasher, s: string, version: byte, payload: bytes)
    ensures var body := [version] + payload;
            Base58CheckDecode(dsha, s) == Ok((version, payload)) <==> Base58.Decode(s) == Ok(body + dsha(body)[..4])
  {
    hide Base58.Decode, Base58.Encode, Base58CheckDecode;
    var body := [version] + payload;
    Base58CheckIff(dsha, s, version, payload);
    Base58.DecodeIffEncode(s, body + dsha(body)[..4]);
  }

  function ToWif(dsha: Hasher, key: StakingKey, network: Network): string {
    Base58CheckEncode(dsha, SecretVersion(network), WifPayload(key))
  }

  /** `valid` is libsecp256k1's test that 32 bytes are a private scalar. */
  function FromWif(dsha: Hasher, valid: Digest -> bool, wif: string): Result<(StakingKey, Network), WalletError> {
    match Base58CheckDecode(dsha, Text.Trim(wif))
    case Err(e) => Err(e)
    case Ok((version, payload)) =>
      if version != 212 && version != 239 then Err(BadVersion) else
      var network := if version == 212 then Main else Test;
      if |payload| == 32 || (|payload| == 33 && payload[32] == 1) then
        var secret: Digest := payload[..32];
        if valid(secret) then Ok((StakingKey(secret, |payload| == 33), network)) else Err(InvalidKey)
      else Err(BadPayload)
  }

  function WifPayload(key: StakingKey): bytes { if key.compressed then key.secret + [1] else key.secret }

  lemma PayloadOfKey(key: StakingKey)
    ensures var p := WifPayload(key); |p| == (if key.compressed then 33 else 32) && p[..32] == key.secret
  {
  }

  lemma KeyOfPayload(p: bytes)
    requires |p| == 32 || (|p| == 33 && p[32] == 1)
    ensures p == WifPayload(StakingKey(p[..32], |p| == 33))
  {
    assert |p| == 33 ==> p == p[..32] + [p[32]];
  }

  /** Secret, compression flag and network all come back, and only from their own WIF. */
  lemma FromWifIff(dsha: Hasher, valid: Digest -> bool, wif: string, key: StakingKey, network: Network)
    ensures FromWif(dsha, valid, wif) == Ok((key, network)) <==>
            valid(key.secret) && Text.Trim(wif) == ToWif(dsha, key, network)
  {
    hide Base58CheckEncode, Base58CheckDecode;
    var s := Text.Trim(wif);
    Base58CheckIff(dsha, s, SecretVersion(network), WifPayload(key));
    PayloadOfKey(key);
    if FromWif(dsha, valid, wif).Ok? {
      KeyOfPayload(Base58CheckDecode(dsha, s).value.1);
    }
  }

  /** The bytes a WIF spells: 212 or 239, the secret, 1 if compressed, and the checksum. */
  lemma WifReads(dsha: Hasher, valid: Digest -> bool, wif: string, key: StakingKey, network: Network)
    ensures var body := [if network == Main then 212 else 239] + key.secret + (if key.compressed then [1] else []);
            FromWif(dsha, valid, wif) == Ok((key, network)) <==>
            valid(key.secret) && Base58.Decode(Text.Trim(wif)) == Ok(body + dsha(body)[..4])
  {
    hide Base58CheckEncode, Base58CheckDecode, Base58.Decode;
    var body := [if network == Main then 212 else 239] + key.secret + (if key.compressed then [1] else []);
    assert body == [SecretVersion(network)] + WifPayload(key);
    FromWifIff(dsha, valid, wif, key, network);
    Base58CheckIff(dsha, Text.Trim(wif), SecretVersion(network), WifPayload(key));
    Base58CheckReads(dsha, Text.Trim(wif), SecretVersion(network), WifPayload(key));
  }

  lemma Base58HasNoWhitespace(x: bytes)
    ensures Text.Trim(Base58.Encode(x)) == Base58.Encode(x)
  {
    var s := Base58.Encode(x);
    forall i | 0 <= i < |s| ensures !Text.IsWhitespace(s[i]) {
      Base58.EncodedSymbol(x, i);
    }
    Text.TrimIsIdentity(s);
  }

  /** Printing a valid key and reading it back loses nothing. */
  lemma WifRoundTrip(dsha: Hasher, valid: Digest -> bool, key: StakingKey, network: Network)
    requires valid(key.secret)
    ensures FromWif(dsha, valid, ToWif(dsha, key, network)) == Ok((key, network))
  {
    var data := [SecretVersion(network)] + WifPayload(key);
    Base58HasNoWhitespace(data + dsha(data)[..4]);
    FromWifIff(dsha, valid, ToWif(dsha, key, network), key, network);
  }

  /** The P2PKH script an address pays to on a network, or nothing. */
  function AddressScript(dsha: Hasher, address: string, network: Network): (r: Option<bytes>)
    ensures r.Some? ==> |r.value| == 25
  {
    match Base58CheckDecode(dsha, Text.Trim(address))
    case Err(_) => None
    case Ok((version, payload)) =>
      if version != PubkeyVersion(network) || |payload| != 20 then None else Some(P2pkhScript(payload))
  }

  /** `OP_DUP OP_HASH160 <20 bytes> OP_EQUALVERIFY OP_CHECKSIG` */
  function P2pkhScript(hash160: bytes): bytes {
    [0x76, 0xa9, 0x14] + hash160 + [0x88, 0xac]
  }

  /** An address leads to the script of a key hash exactly when it spells the network's version, 30 or
      139, that hash and the checksum; the script is written out opcode by opcode. */
  lemma AddressReads(dsha: Hasher, address: string, network: Network, h: bytes)
    requires |h| == 20
    ensures var body := [if network == Main then 30 else 139] + h;
            AddressScript(dsha, address, network) == Some([0x76, 0xa9, 0x14] + h + [0x88, 0xac]) <==>
            Base58.Decode(Text.Trim(address)) == Ok(body + dsha(body)[..4])
  {
    hide Base58CheckDecode, Base58.Decode;
    var s := Text.Trim(address);
    Base58CheckReads(dsha, s, PubkeyVersion(network), h);
    assert P2pkhScript(h)[3..23] == h;
    var read := Base58CheckDecode(dsha, s);
    if read.Ok? && |read.value.1| == 20 {
      assert P2pkhScript(read.value.1)[3..23] == read.value.1;
    }
  }

  /** On one network an address is the only one for its script, so a payment cannot be
      misdirected by two spellings of a destination. */
  lemma AddressScriptInjective(dsha: Hasher, a: string, b: string, network: Network)
    requires AddressScript(dsha, a, network).Some?
    requires AddressScript(dsha, a, network) == AddressScript(dsha, b, network)
    ensures Text.Trim(a) == Text.Trim(b)
  {
    var (v, p) := Base58CheckDecode(dsha, Text.Trim(a)).value;
    var (w, q) := Base58CheckDecode(dsha, Text.Trim(b)).value;
    assert P2pkhScript(p)[3..23] == p && P2pkhScript(q)[3..23] == q;
    Base58CheckIff(dsha, Text.Trim(a), v, p);
    Base58CheckIff(dsha, Text.Trim(b), w, q);
  }
}
