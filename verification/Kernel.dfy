/** The proof-of-stake win check. */
module Kernel {
  import opened Machine
  import opened Radix
  import opened U256

  const COIN: i64 := 100_000_000
  const MAX_COIN_AGE_WEIGHT: i64 := 601_200

  datatype StakeCandidate =
    StakeCandidate(prevoutHash: Digest, prevoutN: u32, valueSats: i64, coinstakeStartTime: u32)

  datatype NetworkTip = NetworkTip(stakeModifier: u64, bits: u32)

  /** The 52 bytes that are hashed. */
  function StakePreimage(modifier: u64, start: u32, n: u32, hash: Digest, timestamp: u32): (b: bytes)
    ensures |b| == 52
  {
    LeBytes(modifier, 8) + LeBytes(start, 4) + LeBytes(n, 4) + hash + LeBytes(timestamp, 4)
  }

  function StakeHash(dsha: Hasher, modifier: u64, start: u32, n: u32, hash: Digest, timestamp: u32): Digest {
    dsha(StakePreimage(modifier, start, n, hash, timestamp))
  }

  /** `stake_hash`: fill the buffer, then hash it. */
  method StakeHashBuffer(dsha: Hasher, modifier: u64, start: u32, n: u32, hash: Digest, timestamp: u32)
      returns (r: Digest)
    ensures r == StakeHash(dsha, modifier, start, n, hash, timestamp)
  {
    var buf := LeBytes(modifier, 8);
    buf := buf + LeBytes(start, 4);
    buf := buf + LeBytes(n, 4);
    buf := buf + hash;
    buf := buf + LeBytes(timestamp, 4);
    r := dsha(buf);
  }

  /** Where a reader finds each field: modifier, start time, index, hash, timestamp. */
  lemma StakePreimageLayout(modifier: u64, start: u32, n: u32, hash: Digest, timestamp: u32)
    ensures var b := StakePreimage(modifier, start, n, hash, timestamp);
            && LeValue(b[..8]) == modifier && LeValue(b[8..12]) == start && LeValue(b[12..16]) == n
            && b[16..48] == hash && LeValue(b[48..]) == timestamp
  {
    hide LeBytes, LeValue, Pow;
    var b := StakePreimage(modifier, start, n, hash, timestamp);
    assert b[..8] == LeBytes(modifier, 8) && b[8..12] == LeBytes(start, 4) && b[12..16] == LeBytes(n, 4);
    assert b[16..48] == hash && b[48..] == LeBytes(timestamp, 4);
    BytePowers();
    LeValueOfBytes(modifier, 8);
    LeValueOfBytes(start, 4);
    LeValueOfBytes(n, 4);
    LeValueOfBytes(timestamp, 4);
  }

  /** No two different stakes share a preimage. */
  lemma StakePreimageInjective(m: u64, s: u32, n: u32, h: Digest, t: u32, m': u64, s': u32, n': u32, h': Digest,
      t': u32)
    requires StakePreimage(m, s, n, h, t) == StakePreimage(m', s', n', h', t')
    ensures m == m' && s == s' && n == n' && h == h' && t == t'
  {
    hide StakePreimage, LeValue;
    StakePreimageLayout(m, s, n, h, t);
    StakePreimageLayout(m', s', n', h', t');
  }

  /** Elapsed seconds as a wrapping 32-bit subtraction, capped. */
  function CoinAgeWeight(timestamp: u32, start: u32): (age: i64)
    ensures 0 <= age <= MAX_COIN_AGE_WEIGHT
  {
    Min((timestamp - start) % TWO_32, MAX_COIN_AGE_WEIGHT)
  }

  /** From the coin's start time on, the weight is the elapsed time up to the cap. Before it the
      coin still has weight: the full weight, unless the two times are within the cap of a whole
      2^32 seconds apart. */
  lemma CoinAge(timestamp: u32, start: u32)
    ensures timestamp >= start ==> CoinAgeWeight(timestamp, start) == Min(timestamp - start, MAX_COIN_AGE_WEIGHT)
    ensures timestamp < start ==> CoinAgeWeight(timestamp, start) > 0
    ensures timestamp < start ==>
              (CoinAgeWeight(timestamp, start) == MAX_COIN_AGE_WEIGHT <==>
                  start - timestamp <= TWO_32 - MAX_COIN_AGE_WEIGHT)
  {
    if timestamp < start {
      assert (timestamp - start) % TWO_32 == timestamp - start + TWO_32;
    }
  }

  /** `target_hit`, branch by branch, over the numbers the limb operations denote. */
  predicate TargetHit(proofHash: Digest, valueSats: i64, bits: u32, timeWeight: i64) {
    if valueSats <= 0 || timeWeight <= 0 then false else
    var weight := (valueSats * timeWeight) / COIN / 400;
    if weight <= 0 then false
    else if weight >= TWO_64 then true
    else match CompactTarget(bits)
      case None => false
      case Some(target) => target * weight >= MODULUS || LeValue(proofHash) < target * weight
  }

  /** The same decision computed on limbs. */
  method TargetHitOnLimbs(proofHash: Digest, valueSats: i64, bits: u32, timeWeight: i64) returns (hit: bool)
    ensures hit == TargetHit(proofHash, valueSats, bits, timeWeight)
  {
    if valueSats <= 0 || timeWeight <= 0 {
      return false;
    }
    var weight := (valueSats * timeWeight) / COIN / 400;
    if weight <= 0 {
      return false;
    }
    if weight >= TWO_64 {
      return true;
    }
    var base := SetCompact(bits);
    if base.None? {
      return false;
    }
    var target := CheckedMulU64(base.value, weight);
    if target.None? {
      return true;
    }
    var hash := FromLeBytes(proofHash);
    var o := Compare(hash, target.value);
    return o == Less;
  }

  function StakeWeight(valueSats: i64, age: i64): int { (valueSats * age) / (COIN * 400) }

  /** The stake condition as one inequality over unbounded integers. */
  predicate Wins(proofHash: Digest, valueSats: i64, bits: u32, age: i64) {
    && valueSats > 0 && age > 0 && StakeWeight(valueSats, age) > 0
    && CompactValue(bits) < MODULUS
    && LeValue(proofHash) < CompactValue(bits) * StakeWeight(valueSats, age)
  }

  lemma DivDiv(n: int)
    ensures n / 100_000_000 / 400 == n / 40_000_000_000
  {
  }

  /** On any input at all, the code departs from the inequality only when the weight does
      not fit 64 bits, and then it answers yes. */
  lemma TargetHitExact(proofHash: Digest, valueSats: i64, bits: u32, age: i64)
    ensures TargetHit(proofHash, valueSats, bits, age) <==>
            || Wins(proofHash, valueSats, bits, age)
            || (valueSats > 0 && age > 0 && StakeWeight(valueSats, age) >= TWO_64)
  {
    DivDiv(valueSats * age);
    HashBelowModulus(proofHash);
  }

  lemma HashBelowModulus(h: Digest)
    ensures LeValue(h) < MODULUS
  {
    LeBytesOfValue(h);
    BytePowers();
    LimbPowers();
    PowPow(256, 8, 4);
  }

  /** With a capped age the weight always fits, so that branch is never taken. */
  lemma WeightFits(valueSats: i64, age: i64)
    requires age <= MAX_COIN_AGE_WEIGHT
    ensures valueSats > 0 && age > 0 ==> StakeWeight(valueSats, age) < TWO_64
  {
    if valueSats > 0 && age > 0 {
      MulMonotone(valueSats, I64_MAX, age);
      MulMonotone(age, MAX_COIN_AGE_WEIGHT, I64_MAX);
    }
  }

  function CheckWin(dsha: Hasher, tip: NetworkTip, coin: StakeCandidate, timestamp: u32): Option<Digest> {
    var hash := StakeHash(dsha, tip.stakeModifier, coin.coinstakeStartTime, coin.prevoutN, coin.prevoutHash, timestamp);
    var weight := CoinAgeWeight(timestamp, coin.coinstakeStartTime);
    if TargetHit(hash, coin.valueSats, tip.bits, weight) then Some(hash) else None
  }

  /** The same check as it is run: the buffer is hashed and the hash compared on limbs. */
  method CheckWinOnLimbs(dsha: Hasher, tip: NetworkTip, coin: StakeCandidate, timestamp: u32)
      returns (r: Option<Digest>)
    ensures r == CheckWin(dsha, tip, coin, timestamp)
  {
    hide StakeHash, TargetHit;
    var hash := StakeHashBuffer(dsha, tip.stakeModifier, coin.coinstakeStartTime, coin.prevoutN, coin.prevoutHash,
                                timestamp);
    var weight := CoinAgeWeight(timestamp, coin.coinstakeStartTime);
    var hit := TargetHitOnLimbs(hash, coin.valueSats, tip.bits, weight);
    return if hit then Some(hash) else None;
  }

  /** A coin wins exactly when the unbounded inequality holds of its stake hash. */
  lemma CheckWinExact(dsha: Hasher, tip: NetworkTip, coin: StakeCandidate, timestamp: u32)
    ensures var hash := StakeHash(dsha, tip.stakeModifier, coin.coinstakeStartTime, coin.prevoutN, coin.prevoutHash,
                                  timestamp);
            CheckWin(dsha, tip, coin, timestamp) ==
            if Wins(hash, coin.valueSats, tip.bits, CoinAgeWeight(timestamp, coin.coinstakeStartTime))
            then Some(hash) else None
  {
    var hash := StakeHash(dsha, tip.stakeModifier, coin.coinstakeStartTime, coin.prevoutN, coin.prevoutHash, timestamp);
    var age := CoinAgeWeight(timestamp, coin.coinstakeStartTime);
    TargetHitExact(hash, coin.valueSats, tip.bits, age);
    WeightFits(coin.valueSats, age);
  }

  /** The whole check in figures: at most a week less an hour of age, wrapping at 2^32, and one unit of
      weight for 400 whole coins' worth of seconds. */
  lemma CheckWinInFigures(dsha: Hasher, tip: NetworkTip, coin: StakeCandidate, timestamp: u32, proof: Digest)
    ensures var age := Min((timestamp - coin.coinstakeStartTime) % 0x1_0000_0000, 7 * 24 * 60 * 60 - 60 * 60);
            var weight := (coin.valueSats * age) / 40_000_000_000;
            CheckWin(dsha, tip, coin, timestamp) == Some(proof) <==>
            && proof == dsha(StakePreimage(tip.stakeModifier, coin.coinstakeStartTime, coin.prevoutN, coin.prevoutHash,
                                           timestamp))
            && coin.valueSats > 0 && age > 0 && weight > 0
            && CompactValue(tip.bits) < MODULUS && LeValue(proof) < CompactValue(tip.bits) * weight
  {
    hide CheckWin, StakePreimage, CompactValue;
    CheckWinExact(dsha, tip, coin, timestamp);
    CoinWeight(coin.valueSats, CoinAgeWeight(timestamp, coin.coinstakeStartTime));
  }

  lemma CoinWeight(valueSats: i64, age: i64)
    ensures StakeWeight(valueSats, age) == (valueSats * age) / 40_000_000_000
  {
  }

  /** A richer coin with the same outpoint wins whenever the poorer one does, with the same proof. */
  lemma WinningIsMonotone(dsha: Hasher, tip: NetworkTip, coin: StakeCandidate, richer: i64, timestamp: u32)
    requires coin.valueSats <= richer && CheckWin(dsha, tip, coin, timestamp).Some?
    ensures CheckWin(dsha, tip, coin.(valueSats := richer), timestamp) == CheckWin(dsha, tip, coin, timestamp)
  {
    CheckWinExact(dsha, tip, coin, timestamp);
    CheckWinExact(dsha, tip, coin.(valueSats := richer), timestamp);
    var age := CoinAgeWeight(timestamp, coin.coinstakeStartTime);
    MulMonotone(coin.valueSats, richer, age);
    DivMonotone(coin.valueSats * age, richer * age);
    MulMonotone(StakeWeight(coin.valueSats, age), StakeWeight(richer, age), CompactValue(tip.bits));
  }

  lemma DivMonotone(a: int, b: int)
    requires a <= b
    ensures a / (COIN * 400) <= b / (COIN * 400)
  {
  }

  /** `(from..=to).find_map(check_win)` */
  function SearchWindow(dsha: Hasher, tip: NetworkTip, coin: StakeCandidate, from: nat, last: u32)
      : Option<(u32, Digest)>
    decreases last + 1 - from
  {
    if from > last then None else
    match CheckWin(dsha, tip, coin, from)
    case Some(h) => Some((from, h))
    case None => SearchWindow(dsha, tip, coin, from + 1, last)
  }

  /** The search answers with the least winning second of the window, or there is none. */
  lemma {:induction false} SearchWindowLeast(dsha: Hasher, tip: NetworkTip, coin: StakeCandidate, from: nat, last: u32)
    ensures match SearchWindow(dsha, tip, coin, from, last)
            case None => forall t :: from <= t <= last ==> CheckWin(dsha, tip, coin, t).None?
            case Some((t, h)) =>
              && from <= t <= last && CheckWin(dsha, tip, coin, t) == Some(h)
              && forall t' :: from <= t' < t ==> CheckWin(dsha, tip, coin, t').None?
    decreases last + 1 - from
  {
    if from <= last && CheckWin(dsha, tip, coin, from).None? {
      SearchWindowLeast(dsha, tip, coin, from + 1, last);
    }
  }
}
