/** Which coins a payment spends: the smallest single coin that is enough, otherwise the
    largest coins until they are. No other choice does better. */
module CoinSelection {
  import opened Machine

  datatype SendKind = Normal | Fast

  datatype OwnedCoin = OwnedCoin(txid: string, vout: u32, valueSats: i64, change: bool, keyIndex: u32)

  const RELAY_SATS_PER_BYTE: int := 10
  const FAST_FEE_MULTIPLE: int := 5

  function FeeMultiple(kind: SendKind): int { if kind == Normal then 1 else FAST_FEE_MULTIPLE }

  function EstFee(kind: SendKind, inputs: nat, outputs: nat): int {
    (10 + inputs * 148 + outputs * 34 + 20) * RELAY_SATS_PER_BYTE * FeeMultiple(kind)
  }

  /** Recipient, change, and the marker of a fast send. */
  function OutputCount(kind: SendKind): nat { if kind == Fast then 3 else 2 }

  function Fee(kind: SendKind, inputs: nat): int { EstFee(kind, inputs, OutputCount(kind)) }

  /** `amount.saturating_add(fee)` */
  function Need(kind: SendKind, amount: i64, inputs: nat): int { Min(amount + Fee(kind, inputs), I64_MAX) }

  function Total(s: seq<OwnedCoin>): int {
    if s == [] then 0 else s[0].valueSats + Total(s[1..])
  }

  function Positive(coins: seq<OwnedCoin>): seq<OwnedCoin> {
    if coins == [] then []
    else if coins[0].valueSats > 0 then [coins[0]] + Positive(coins[1..])
    else Positive(coins[1..])
  }

  predicate Ascending(s: seq<OwnedCoin>) {
    forall i, j :: 0 <= i < j < |s| ==> s[i].valueSats <= s[j].valueSats
  }

  function Insert(c: OwnedCoin, s: seq<OwnedCoin>): (r: seq<OwnedCoin>) {
    if s == [] || c.valueSats <= s[0].valueSats then [c] + s else [s[0]] + Insert(c, s[1..])
  }

  /** The stable sort by value. */
  function SortByValue(coins: seq<OwnedCoin>): (r: seq<OwnedCoin>) {
    if coins == [] then [] else Insert(coins[0], SortByValue(coins[1..]))
  }

  function Candidates(coins: seq<OwnedCoin>): seq<OwnedCoin> { SortByValue(Positive(coins)) }

  function FirstAtLeast(s: seq<OwnedCoin>, need: int): Option<OwnedCoin> {
    if s == [] then None else if s[0].valueSats >= need then Some(s[0]) else FirstAtLeast(s[1..], need)
  }

  /** The `k` last elements, last first. */
  function Largest(s: seq<OwnedCoin>, k: nat): (r: seq<OwnedCoin>)
    requires k <= |s|
    ensures |r| == k
  {
    seq(k, i requires 0 <= i < k => s[|s| - 1 - i])
  }

  /** The stopping test after `k` coins; the 64-bit sum wraps. */
  predicate Enough(s: seq<OwnedCoin>, kind: SendKind, amount: i64, k: nat)
    requires k <= |s|
  {
    Wrap64(Total(Largest(s, k))) >= Need(kind, amount, k)
  }

  /** How many coins are taken, when `k` have been taken already. */
  function StopAt(s: seq<OwnedCoin>, kind: SendKind, amount: i64, k: nat): (n: nat)
    requires k <= |s|
    ensures k <= n <= |s|
    decreases |s| - k
  {
    if k == |s| || (k > 0 && Enough(s, kind, amount, k)) then k else StopAt(s, kind, amount, k + 1)
  }

  function Select(coins: seq<OwnedCoin>, kind: SendKind, amount: i64): seq<OwnedCoin> {
    var s := Candidates(coins);
    match FirstAtLeast(s, Need(kind, amount, 1))
    case Some(one) => [one]
    case None => Largest(s, StopAt(s, kind, amount, 0))
  }

  method SelectLoop(coins: seq<OwnedCoin>, kind: SendKind, amount: i64) returns (selected: seq<OwnedCoin>)
    ensures selected == Select(coins, kind, amount)
  {
    hide Candidates, Positive, SortByValue, Fee, Need, Total, Wrap64, FirstAtLeast;
    var sorted := Candidates(coins);
    var one := FirstAtLeast(sorted, Need(kind, amount, 1));
    if one.Some? {
      return [one.value];
    }
    var acc: seq<OwnedCoin> := [];
    var i := |sorted|;
    while i > 0
      invariant 0 <= i <= |sorted| && acc == Largest(sorted, |sorted| - i)
      invariant StopAt(sorted, kind, amount, 0) == StopAt(sorted, kind, amount, |sorted| - i)
      invariant i < |sorted| ==> !Enough(sorted, kind, amount, |sorted| - i)
    {
      i := i - 1;
      acc := acc + [sorted[i]];
      assert acc == Largest(sorted, |sorted| - i);
      var sum := Wrap64(Total(acc));
      if sum >= Need(kind, amount, |acc|) {
        break;
      }
    }
    return acc;
  }

  // ----- the candidates -----

  lemma AscendingCons(x: OwnedCoin, r: seq<OwnedCoin>)
    requires Ascending(r) && forall y :: y in r ==> x.valueSats <= y.valueSats
    ensures Ascending([x] + r)
  {
  }

  lemma {:induction false} InsertKeeps(c: OwnedCoin, s: seq<OwnedCoin>)
    ensures multiset(Insert(c, s)) == multiset(s) + multiset{c}
  {
    if s != [] && c.valueSats > s[0].valueSats {
      InsertKeeps(c, s[1..]);
      assert s == [s[0]] + s[1..];
      assert multiset(s) == multiset{s[0]} + multiset(s[1..]);
    }
  }

  lemma {:induction false} InsertMembers(c: OwnedCoin, s: seq<OwnedCoin>, x: OwnedCoin)
    requires x in Insert(c, s)
    ensures x == c || x in s
  {
    if s != [] && c.valueSats > s[0].valueSats && x != s[0] {
      InsertMembers(c, s[1..], x);
    }
  }

  lemma {:induction false} InsertSorts(c: OwnedCoin, s: seq<OwnedCoin>)
    requires Ascending(s)
    ensures Ascending(Insert(c, s))
  {
    if s == [] || c.valueSats <= s[0].valueSats {
      AscendingCons(c, s);
    } else {
      InsertSorts(c, s[1..]);
      forall x | x in Insert(c, s[1..]) ensures s[0].valueSats <= x.valueSats {
        InsertMembers(c, s[1..], x);
      }
      AscendingCons(s[0], Insert(c, s[1..]));
    }
  }

  lemma {:induction false} SortSorts(coins: seq<OwnedCoin>)
    ensures Ascending(SortByValue(coins)) && multiset(SortByValue(coins)) == multiset(coins)
  {
    if coins != [] {
      SortSorts(coins[1..]);
      InsertSorts(coins[0], SortByValue(coins[1..]));
      InsertKeeps(coins[0], SortByValue(coins[1..]));
      assert coins == [coins[0]] + coins[1..];
    }
  }

  /** The coins of one value, in order. */
  function WithValue(v: i64, s: seq<OwnedCoin>): seq<OwnedCoin> {
    if s == [] then [] else (if s[0].valueSats == v then [s[0]] else []) + WithValue(v, s[1..])
  }

  lemma {:induction false} InsertStable(v: i64, c: OwnedCoin, s: seq<OwnedCoin>)
    ensures WithValue(v, Insert(c, s)) == WithValue(v, [c] + s)
  {
    if s != [] && c.valueSats > s[0].valueSats {
      InsertStable(v, c, s[1..]);
      assert ([c] + s[1..])[1..] == s[1..] && ([c] + s)[1..] == s;
      assert ([s[0]] + Insert(c, s[1..]))[1..] == Insert(c, s[1..]);
    }
  }

  /** Coins of equal value keep the order in which the wallet lists them. */
  lemma {:induction false} SortStable(v: i64, coins: seq<OwnedCoin>)
    ensures WithValue(v, SortByValue(coins)) == WithValue(v, coins)
  {
    if coins != [] {
      SortStable(v, coins[1..]);
      InsertStable(v, coins[0], SortByValue(coins[1..]));
      assert ([coins[0]] + SortByValue(coins[1..]))[1..] == SortByValue(coins[1..]);
    }
  }

  lemma {:induction false} PositiveKeeps(coins: seq<OwnedCoin>)
    ensures multiset(Positive(coins)) <= multiset(coins)
    ensures forall c :: c in Positive(coins) <==> c in coins && c.valueSats > 0
  {
    if coins != [] {
      PositiveKeeps(coins[1..]);
      assert coins == [coins[0]] + coins[1..];
    }
  }

  lemma CandidatesFacts(coins: seq<OwnedCoin>)
    ensures Ascending(Candidates(coins))
    ensures multiset(Candidates(coins)) == multiset(Positive(coins)) <= multiset(coins)
    ensures forall c :: c in Candidates(coins) <==> c in coins && c.valueSats > 0
  {
    SortSorts(Positive(coins));
    PositiveKeeps(coins);
    forall c ensures c in Candidates(coins) <==> c in Positive(coins) {
      assert c in Candidates(coins) <==> c in multiset(Candidates(coins));
      assert c in Positive(coins) <==> c in multiset(Positive(coins));
    }
  }

  // ----- the largest k coins are worth the most -----

  /** What the coins are worth above a threshold. */
  function Gain(t: int, s: seq<OwnedCoin>): nat {
    if s == [] then 0 else Max(s[0].valueSats - t, 0) + Gain(t, s[1..])
  }

  lemma {:induction false} GainConcat(t: int, a: seq<OwnedCoin>, b: seq<OwnedCoin>)
    ensures Gain(t, a + b) == Gain(t, a) + Gain(t, b)
  {
    if a == [] {
      assert a + b == b;
    } else {
      assert (a + b)[1..] == a[1..] + b;
      GainConcat(t, a[1..], b);
    }
  }

  lemma GainRemove(t: int, s: seq<OwnedCoin>, j: nat)
    requires j < |s|
    ensures Gain(t, s) == Max(s[j].valueSats - t, 0) + Gain(t, s[..j] + s[j + 1..])
    ensures multiset(s) == multiset(s[..j] + s[j + 1..]) + multiset{s[j]}
  {
    assert s == s[..j] + ([s[j]] + s[j + 1..]);
    GainConcat(t, s[..j], [s[j]] + s[j + 1..]);
    GainConcat(t, s[..j], s[j + 1..]);
    GainConcat(t, [s[j]], s[j + 1..]);
  }

  lemma RemoveFromBoth(a: seq<OwnedCoin>, b: seq<OwnedCoin>, j: nat)
    requires multiset(a) <= multiset(b) && a != [] && j < |b| && b[j] == a[0]
    ensures multiset(a[1..]) <= multiset(b[..j] + b[j + 1..])
  {
    var rest := b[..j] + b[j + 1..];
    assert a == [a[0]] + a[1..];
    assert b == b[..j] + ([b[j]] + b[j + 1..]);
    forall x ensures multiset(a[1..])[x] <= multiset(rest)[x] {
      assert multiset(a)[x] <= multiset(b)[x];
    }
  }

  lemma FindIn(a: seq<OwnedCoin>, b: seq<OwnedCoin>) returns (j: nat)
    requires multiset(a) <= multiset(b) && a != []
    ensures j < |b| && b[j] == a[0]
  {
    assert a[0] in multiset(a) && a[0] in multiset(b);
    assert a[0] in b;
    j :| j < |b| && b[j] == a[0];
  }

  /** Fewer coins gain no more. */
  lemma {:induction false} GainMonotone(t: int, a: seq<OwnedCoin>, b: seq<OwnedCoin>)
    requires multiset(a) <= multiset(b)
    ensures Gain(t, a) <= Gain(t, b)
    decreases |a|
  {
    hide Gain;
    if a == [] {
      assert Gain(t, a) == 0 by { GainConcat(t, [], []); assert [] + [] == a; }
    } else {
      var j := FindIn(a, b);
      GainRemove(t, b, j);
      GainRemove(t, a, 0);
      assert a[..0] + a[1..] == a[1..];
      RemoveFromBoth(a, b, j);
      GainMonotone(t, a[1..], b[..j] + b[j + 1..]);
    }
  }

  lemma {:induction false} TotalAtMostGain(t: int, s: seq<OwnedCoin>)
    ensures Total(s) <= |s| * t + Gain(t, s)
    ensures (forall c :: c in s ==> c.valueSats >= t) ==> Total(s) == |s| * t + Gain(t, s)
  {
    if s != [] {
      TotalAtMostGain(t, s[1..]);
      assert |s| * t == |s[1..]| * t + t;
    }
  }

  lemma {:induction false} NoGain(t: int, s: seq<OwnedCoin>)
    requires forall c :: c in s ==> c.valueSats <= t
    ensures Gain(t, s) == 0
  {
    if s != [] {
      NoGain(t, s[1..]);
    }
  }

  /** Coins of no value gain nothing above a non-negative threshold. */
  lemma {:induction false} GainOfPositive(t: int, coins: seq<OwnedCoin>)
    requires t >= 0
    ensures Gain(t, Positive(coins)) == Gain(t, coins)
  {
    if coins != [] {
      GainOfPositive(t, coins[1..]);
    }
  }

  lemma LargestIsTail(s: seq<OwnedCoin>, k: nat)
    requires k <= |s|
    ensures multiset(Largest(s, k)) == multiset(s[|s| - k..])
    ensures multiset(Largest(s, k)) <= multiset(s)
    decreases k
  {
    if k > 0 {
      LargestIsTail(s, k - 1);
      assert Largest(s, k) == Largest(s, k - 1) + [s[|s| - k]];
      assert s[|s| - k..] == [s[|s| - k]] + s[|s| - (k - 1)..];
    } else {
      assert Largest(s, 0) == [];
    }
    assert s == s[..|s| - k] + s[|s| - k..];
  }

  lemma Threshold(c: seq<OwnedCoin>, k: nat, t: int)
    requires Ascending(c) && k <= |c|
    requires k > 0 ==> c[|c| - k].valueSats >= t
    requires k < |c| ==> c[|c| - k - 1].valueSats <= t
    ensures forall x :: x in c[..|c| - k] ==> x.valueSats <= t
    ensures forall x :: x in c[|c| - k..] ==> x.valueSats >= t
  {
  }

  /** The largest `k` coins are exactly the threshold's worth and the gain above it. */
  lemma TopTotal(c: seq<OwnedCoin>, k: nat, t: int)
    requires Ascending(c) && k <= |c|
    requires k > 0 ==> c[|c| - k].valueSats >= t
    requires k < |c| ==> c[|c| - k - 1].valueSats <= t
    ensures Total(Largest(c, k)) == k * t + Gain(t, c)
  {
    hide Total, Gain, Largest;
    var low, tail := c[..|c| - k], c[|c| - k..];
    Threshold(c, k, t);
    hide Ascending;
    assert c == low + tail;
    GainConcat(t, low, tail);
    NoGain(t, low);
    TotalAtMostGain(t, tail);
    LargestIsTail(c, k);
    TotalOfPermutation(Largest(c, k), tail);
  }

  /** No selection of as many coins is worth more than the largest ones. */
  lemma LargestIsBest(coins: seq<OwnedCoin>, s: seq<OwnedCoin>)
    requires multiset(s) <= multiset(coins) && s != []
    ensures var c := Candidates(coins); Total(s) <= Total(Largest(c, Min(|s|, |c|)))
  {
    hide Candidates, Positive, SortByValue, Gain, Total;
    var c := Candidates(coins);
    CandidatesFacts(coins);
    var k := Min(|s|, |c|);
    var t: int := if k == |s| then c[|c| - k].valueSats else 0;
    assert t >= 0 && (k < |s| ==> k > 0 ==> c[0].valueSats >= t) by {
      if k > 0 { assert c[|c| - k] in c; }
    }
    TopTotal(c, k, t);
    TotalAtMostGain(t, s);
    GainMonotone(t, s, coins);
    GainOfPositive(t, coins);
    GainMonotone(t, Positive(coins), c);
  }

  lemma TotalOfPermutation(a: seq<OwnedCoin>, b: seq<OwnedCoin>)
    requires multiset(a) == multiset(b)
    ensures Total(a) == Total(b)
  {
    assert |a| == |multiset(a)| == |b|;
    var t := -0x8000_0000_0000_0000;
    TotalAtMostGain(t, a);
    TotalAtMostGain(t, b);
    GainMonotone(t, a, b);
    GainMonotone(t, b, a);
  }

  // ----- completeness and minimality -----

  /** A selection pays the amount and its own fee. */
  predicate Affords(s: seq<OwnedCoin>, kind: SendKind, amount: i64) {
    Total(s) >= amount + Fee(kind, |s|)
  }

  lemma {:induction false} FirstAtLeastLeast(s: seq<OwnedCoin>, need: int)
    requires Ascending(s)
    ensures match FirstAtLeast(s, need)
            case None => forall c :: c in s ==> c.valueSats < need
            case Some(one) =>
              && one in s && one.valueSats >= need
              && forall c :: c in s && c.valueSats >= need ==> one.valueSats <= c.valueSats
  {
    if s != [] && s[0].valueSats < need {
      FirstAtLeastLeast(s[1..], need);
    }
  }

  lemma {:induction false} StopAtLeast(s: seq<OwnedCoin>, kind: SendKind, amount: i64, k: nat)
    requires k <= |s|
    ensures var n := StopAt(s, kind, amount, k);
            && (n == |s| || (n > 0 && Enough(s, kind, amount, n)))
            && forall j :: k <= j < n && j > 0 ==> !Enough(s, kind, amount, j)
    decreases |s| - k
  {
    if !(k == |s| || (k > 0 && Enough(s, kind, amount, k))) {
      StopAtLeast(s, kind, amount, k + 1);
    }
  }

  lemma {:induction false} TotalConcat(a: seq<OwnedCoin>, b: seq<OwnedCoin>)
    ensures Total(a + b) == Total(a) + Total(b)
  {
    if a == [] {
      assert a + b == b;
    } else {
      assert (a + b)[1..] == a[1..] + b;
      TotalConcat(a[1..], b);
    }
  }

  lemma {:induction false} PositiveTotal(s: seq<OwnedCoin>)
    requires forall c :: c in s ==> c.valueSats > 0
    ensures Total(s) >= 0
  {
    if s != [] {
      PositiveTotal(s[1..]);
    }
  }

  /** More of the largest coins are worth more, by at most what one coin can hold each. */
  lemma TopTotals(coins: seq<OwnedCoin>, j: nat, k: nat)
    requires j <= k <= |Candidates(coins)|
    ensures 0 <= Total(Largest(Candidates(coins), j)) <= Total(Largest(Candidates(coins), k))
    ensures k == j + 1 ==> Total(Largest(Candidates(coins), k)) <= Total(Largest(Candidates(coins), j)) + I64_MAX
  {
    hide Candidates, Total;
    var c := Candidates(coins);
    CandidatesFacts(coins);
    var top := Largest(c, k);
    forall x | x in top ensures x.valueSats > 0 {
      assert x in c;
    }
    assert top[..j] == Largest(c, j) && top == top[..j] + top[j..];
    TotalConcat(top[..j], top[j..]);
    PositiveTotal(top[..j]);
    PositiveTotal(top[j..]);
    if k == j + 1 {
      TotalOne(top[j]);
      assert top[j..] == [top[j]];
    }
  }

  lemma TotalOne(c: OwnedCoin)
    ensures Total([c]) == c.valueSats
  {
    assert [c][1..] == [];
  }

  lemma SelectIsSelection(coins: seq<OwnedCoin>, kind: SendKind, amount: i64)
    ensures multiset(Select(coins, kind, amount)) <= multiset(coins)
  {
    var c := Candidates(coins);
    CandidatesFacts(coins);
    FirstAtLeastLeast(c, Need(kind, amount, 1));
    LargestIsTail(c, StopAt(c, kind, amount, 0));
  }

  lemma WrapAtMost(n: int)
    requires n >= 0
    ensures Wrap64(n) <= n
  {
  }

  lemma AllOfThem(s: seq<OwnedCoin>)
    ensures multiset(Largest(s, |s|)) == multiset(s)
  {
    LargestIsTail(s, |s|);
    assert s[0..] == s;
  }

  /** What is chosen is worth something, coin by coin, and no more than all there is. */
  lemma SelectedTotal(coins: seq<OwnedCoin>, kind: SendKind, amount: i64)
    ensures var s := Select(coins, kind, amount);
            0 <= Total(s) <= Total(Positive(coins)) && forall c :: c in s ==> c.valueSats > 0
  {
    hide Candidates, Positive, Total, Gain;
    var c := Candidates(coins);
    var s := Select(coins, kind, amount);
    CandidatesFacts(coins);
    FirstAtLeastLeast(c, Need(kind, amount, 1));
    LargestIsTail(c, StopAt(c, kind, amount, 0));
    assert multiset(s) <= multiset(c);
    PositiveKeeps(coins);
    SubTotal(s, Positive(coins));
  }

  lemma SubTotal(s: seq<OwnedCoin>, c: seq<OwnedCoin>)
    requires multiset(s) <= multiset(c) && forall x :: x in c ==> x.valueSats > 0
    ensures 0 <= Total(s) <= Total(c) && forall x :: x in s ==> x.valueSats > 0
  {
    hide Total, Gain;
    forall x | x in s ensures x in c {
      assert x in multiset(s) && x in multiset(c);
    }
    TotalAtMostGain(0, s);
    GainMonotone(0, s, c);
    TotalAtMostGain(0, c);
  }

  /** A wallet worth `I64_MAX` or more reaches the saturated need whatever the running sum wraps
      to: the loop stops at a real sum that is enough, or takes everything. */
  lemma RichSelectionReachesNeed(coins: seq<OwnedCoin>, kind: SendKind, amount: i64)
    requires Total(Positive(coins)) >= I64_MAX
    ensures var s := Select(coins, kind, amount); Min(Total(s), I64_MAX) >= Need(kind, amount, |s|)
  {
    hide Candidates, Positive, Total, Fee, Largest;
    var c, s := Candidates(coins), Select(coins, kind, amount);
    SelectedTotal(coins, kind, amount);
    FirstNeeded(c, kind, amount);
    if FirstAtLeast(c, Need(kind, amount, 1)).None? {
      var n := StopAt(c, kind, amount, 0);
      StopAtLeast(c, kind, amount, 0);
      if n == |c| {
        AllOfThem(c);
        CandidatesFacts(coins);
        TotalOfPermutation(s, Positive(coins));
      } else {
        WrapAtMost(Total(s));
      }
    }
  }

  lemma FirstNeeded(c: seq<OwnedCoin>, kind: SendKind, amount: i64)
    ensures match FirstAtLeast(c, Need(kind, amount, 1))
            case None => true
            case Some(one) => Total([one]) >= Need(kind, amount, 1)
  {
    match FirstAtLeast(c, Need(kind, amount, 1))
    case None =>
    case Some(one) =>
      assert [one][1..] == [];
      FirstIsEnough(c, Need(kind, amount, 1));
  }

  lemma {:induction false} FirstIsEnough(c: seq<OwnedCoin>, need: int)
    ensures FirstAtLeast(c, need).Some? ==> FirstAtLeast(c, need).value.valueSats >= need
  {
    if c != [] && c[0].valueSats < need {
      FirstIsEnough(c[1..], need);
    }
  }

  lemma FeeGrows(kind: SendKind, i: nat, j: nat)
    requires i <= j
    ensures 0 < Fee(kind, i) <= Fee(kind, j)
  {
  }

  lemma NothingAffordsNothing(kind: SendKind, amount: i64)
    requires amount > 0
    ensures !Affords([], kind, amount)
  {
  }

  lemma TopAtMostAll(coins: seq<OwnedCoin>, k: nat)
    requires k <= |Candidates(coins)|
    ensures Total(Largest(Candidates(coins), k)) <= Total(Positive(coins))
  {
    CandidatesFacts(coins);
    PositiveKeeps(coins);
    LargestIsTail(Candidates(coins), k);
    SubTotal(Largest(Candidates(coins), k), Positive(coins));
  }

  lemma EnoughIffAffords(coins: seq<OwnedCoin>, kind: SendKind, amount: i64, k: nat)
    requires k <= |Candidates(coins)| && amount + Fee(kind, k) <= I64_MAX
    requires Total(Largest(Candidates(coins), k)) <= I64_MAX
    ensures Enough(Candidates(coins), kind, amount, k) <==> Affords(Largest(Candidates(coins), k), kind, amount)
  {
    TopTotals(coins, k, k);
  }

  /** If any selection of coins pays for itself, the chosen one does, with no more inputs, as long
      as that many of the largest coins add up in 64 bits. */
  lemma SelectIsBest(coins: seq<OwnedCoin>, kind: SendKind, amount: i64, s: seq<OwnedCoin>)
    requires amount > 0 && multiset(s) <= multiset(coins) && Affords(s, kind, amount)
    requires var c := Candidates(coins); Total(Largest(c, Min(|s|, |c|))) <= I64_MAX
    ensures Affords(Select(coins, kind, amount), kind, amount)
    ensures 0 < |Select(coins, kind, amount)| <= |s|
  {
    hide Fee, Enough, Candidates, Largest;
    var c := Candidates(coins);
    var j := Min(|s|, |c|);
    FeeGrows(kind, j, |s|);
    NothingAffordsNothing(kind, amount);
    LargestIsBest(coins, s);
    assert Affords(Largest(c, j), kind, amount);
    assert Largest(c, 0) == [] by { assert |Largest(c, 0)| == 0; }
    CandidatesFacts(coins);
    FeeGrows(kind, 1, j);
    FirstAtLeastLeast(c, Need(kind, amount, 1));
    if FirstAtLeast(c, Need(kind, amount, 1)).None? {
      var n := StopAt(c, kind, amount, 0);
      StopAtLeast(c, kind, amount, 0);
      EnoughIffAffords(coins, kind, amount, j);
      FeeGrows(kind, n, j);
      TopTotals(coins, n, j);
      EnoughIffAffords(coins, kind, amount, n);
    } else {
      TotalOne(FirstAtLeast(c, Need(kind, amount, 1)).value);
    }
  }

  /** `s` pays for itself and no selection of fewer coins does. */
  ghost predicate IsFewest(coins: seq<OwnedCoin>, kind: SendKind, amount: i64, s: seq<OwnedCoin>) {
    && multiset(s) <= multiset(coins) && Affords(s, kind, amount)
    && forall t: seq<OwnedCoin> :: multiset(t) <= multiset(coins) && Affords(t, kind, amount) ==> |s| <= |t|
  }

  /** The largest coins, as many as the fewest there can be, pay; fewer do not. */
  lemma FewestOfLargest(coins: seq<OwnedCoin>, kind: SendKind, amount: i64, s: seq<OwnedCoin>)
    requires amount > 0 && IsFewest(coins, kind, amount, s)
    ensures var c := Candidates(coins);
            && 0 < |s| <= |c| && Affords(Largest(c, |s|), kind, amount)
            && forall j :: 0 <= j < |s| ==> !Affords(Largest(c, j), kind, amount)
  {
    hide Fee, Candidates, Largest;
    var c := Candidates(coins);
    var k := Min(|s|, |c|);
    CandidatesFacts(coins);
    NothingAffordsNothing(kind, amount);
    LargestIsBest(coins, s);
    FeeGrows(kind, k, |s|);
    LargestIsTail(c, k);
    assert Affords(Largest(c, k), kind, amount);
    forall j | 0 <= j < |s| ensures !Affords(Largest(c, j), kind, amount) {
      LargestIsTail(c, j);
    }
  }

  /** While nothing is affordable the loop stops on one sum only: that of `I64_MAX` exactly, when
      the need has saturated to it. Larger sums wrap below zero. */
  lemma EarlyStopIff(coins: seq<OwnedCoin>, kind: SendKind, amount: i64, j: nat)
    requires amount > 0 && j <= |Candidates(coins)| && Fee(kind, j) <= I64_MAX
    requires !Affords(Largest(Candidates(coins), j), kind, amount)
    ensures var total := Total(Largest(Candidates(coins), j));
            total < 2 * I64_MAX && (Enough(Candidates(coins), kind, amount, j) <==> total == I64_MAX)
  {
    hide Candidates, Largest, Total, Fee;
    FeeGrows(kind, j, j);
    TopTotals(coins, j, j);
  }

  /** Nor does it stop at the first affordable sum, when that one has left 64 bits. */
  lemma OverflowIsNotEnough(coins: seq<OwnedCoin>, kind: SendKind, amount: i64, k: nat)
    requires amount > 0 && 0 < k <= |Candidates(coins)| && Fee(kind, k) <= I64_MAX
    requires !Affords(Largest(Candidates(coins), k - 1), kind, amount)
    requires Total(Largest(Candidates(coins), k)) > I64_MAX
    ensures !Enough(Candidates(coins), kind, amount, k)
  {
    hide Candidates, Largest, Total, Fee;
    FeeGrows(kind, k - 1, k);
    TopTotals(coins, k - 1, k);
  }

  /** If the fewest coins overflow together there is more than one, and a coin that passes for
      enough alone is worth `I64_MAX`. */
  lemma SingleInOverflow(coins: seq<OwnedCoin>, kind: SendKind, amount: i64, s: seq<OwnedCoin>)
    requires amount > 0 && IsFewest(coins, kind, amount, s)
    requires 0 < |s| <= |Candidates(coins)| && Total(Largest(Candidates(coins), |s|)) > I64_MAX
    ensures |s| > 1
    ensures FirstAtLeast(Candidates(coins), Need(kind, amount, 1)).Some? ==>
            Total(Largest(Candidates(coins), 1)) == I64_MAX
  {
    hide Candidates, Total, Fee, IsFewest;
    var c := Candidates(coins);
    assert Largest(c, 1) == [c[|c| - 1]];
    TotalOne(c[|c| - 1]);
    CandidatesFacts(coins);
    FirstAtLeastLeast(c, Need(kind, amount, 1));
    var one := FirstAtLeast(c, Need(kind, amount, 1));
    if one.Some? && |s| > 1 {
      OneDoesNotAfford(coins, kind, amount, s, one.value);
      assert one.value.valueSats <= c[|c| - 1].valueSats;
    }
  }

  lemma OneDoesNotAfford(coins: seq<OwnedCoin>, kind: SendKind, amount: i64, s: seq<OwnedCoin>, one: OwnedCoin)
    requires IsFewest(coins, kind, amount, s) && |s| > 1 && one in coins
    ensures one.valueSats < amount + Fee(kind, 1)
  {
    hide Total, Fee;
    TotalOne(one);
    assert one in multiset(coins);
    assert multiset([one]) <= multiset(coins);
    assert !Affords([one], kind, amount);
  }

  /** The first affordable sum of largest coins is one the loop can stop at: it fits 64 bits; or it
      is that of all coins, and no smaller one passes for enough. */
  predicate StopsInTime(c: seq<OwnedCoin>, k: nat)
    requires k <= |c|
  {
    || Total(Largest(c, k)) <= I64_MAX
    || (k == |c| && forall j :: 0 < j < k ==> Total(Largest(c, j)) != I64_MAX)
  }

  /** Whatever the wallet is worth and whatever is asked of it: the fewest inputs are used exactly
      when the loop stops in time. */
  lemma FewestInputsIff(coins: seq<OwnedCoin>, kind: SendKind, amount: i64, s: seq<OwnedCoin>)
    requires amount > 0 && IsFewest(coins, kind, amount, s) && Fee(kind, |s|) <= I64_MAX
    ensures var c := Candidates(coins);
            |s| <= |c| && (|Select(coins, kind, amount)| == |s| <==> StopsInTime(c, |s|))
  {
    hide Fee, Enough, Candidates, Largest, Affords, Total, IsFewest;
    var c, k := Candidates(coins), |s|;
    FewestOfLargest(coins, kind, amount, s);
    if Total(Largest(c, k)) <= I64_MAX {
      FewestSelected(coins, kind, amount, s);
    } else {
      SingleInOverflow(coins, kind, amount, s);
      StopAtLeast(c, kind, amount, 0);
      forall j | 0 < j < k ensures Enough(c, kind, amount, j) <==> Total(Largest(c, j)) == I64_MAX {
        FeeGrows(kind, j, k);
        EarlyStopIff(coins, kind, amount, j);
      }
      OverflowIsNotEnough(coins, kind, amount, k);
    }
  }

  lemma FewestSelected(coins: seq<OwnedCoin>, kind: SendKind, amount: i64, s: seq<OwnedCoin>)
    requires amount > 0 && IsFewest(coins, kind, amount, s)
    requires |s| <= |Candidates(coins)| && Total(Largest(Candidates(coins), |s|)) <= I64_MAX
    ensures |Select(coins, kind, amount)| == |s|
  {
    hide Select, Candidates, Largest, Total, Affords;
    SelectIsBest(coins, kind, amount, s);
    SelectIsSelection(coins, kind, amount);
  }

  // ----- the wrap is met -----

  lemma ThreeAlike(c: OwnedCoin)
    requires c.valueSats > 0
    ensures Candidates([c, c, c]) == [c, c, c]
  {
    hide Candidates;
    CandidatesFacts([c, c, c]);
    PositiveKeepsAll([c, c, c]);
    var r := Candidates([c, c, c]);
    assert multiset(r) == multiset([c, c, c]);
    assert |r| == |multiset(r)| == |multiset([c, c, c])| == 3;
    forall i | 0 <= i < 3 ensures r[i] == c {
      assert r[i] in r;
    }
  }

  lemma {:induction false} PositiveKeepsAll(coins: seq<OwnedCoin>)
    requires forall c :: c in coins ==> c.valueSats > 0
    ensures Positive(coins) == coins
  {
    if coins != [] {
      PositiveKeepsAll(coins[1..]);
      assert coins == [coins[0]] + coins[1..];
    }
  }

  lemma TotalsAlike(c: OwnedCoin)
    ensures Total([]) == 0 && Total([c]) == c.valueSats
    ensures Total([c, c]) == 2 * c.valueSats && Total([c, c, c]) == 3 * c.valueSats
  {
    assert [c, c, c][1..] == [c, c] && [c, c][1..] == [c] && [c][1..] == [];
  }

  /** Of three coins worth 2^62 two would pay 2^62 and the fee, but their sum wraps, and all three
      are taken. */
  lemma WrappedSumTakesMore(c: OwnedCoin)
    requires c.valueSats == 0x4000_0000_0000_0000
    ensures IsFewest([c, c, c], Normal, c.valueSats, [c, c])
    ensures Select([c, c, c], Normal, c.valueSats) == [c, c, c]
  {
    hide Total, Candidates, StopAt, FirstAtLeast, Need;
    var coins := [c, c, c];
    TotalsAlike(c);
    assert multiset(coins) == multiset([c, c]) + multiset{c};
    forall t: seq<OwnedCoin> | multiset(t) <= multiset(coins) ensures |t| < 2 ==> !Affords(t, Normal, c.valueSats) {
      OneAlike(c, t);
    }
    ThreeAlike(c);
    assert Largest(coins, 3) == coins;
    NoneAloneAlike(c);
    WrappedAlike(c);
  }

  lemma OneAlike(c: OwnedCoin, t: seq<OwnedCoin>)
    requires c.valueSats == 0x4000_0000_0000_0000 && multiset(t) <= multiset([c, c, c])
    ensures |t| < 2 ==> !Affords(t, Normal, c.valueSats)
  {
    if |t| == 1 {
      assert t[0] in multiset([c, c, c]);
      TotalOne(t[0]);
      assert t == [t[0]];
    }
  }

  lemma NoneAloneAlike(c: OwnedCoin)
    requires c.valueSats == 0x4000_0000_0000_0000
    ensures FirstAtLeast([c, c, c], Need(Normal, c.valueSats, 1)).None?
  {
    hide FirstAtLeast;
    FirstAtLeastLeast([c, c, c], Need(Normal, c.valueSats, 1));
  }

  lemma WrappedAlike(c: OwnedCoin)
    requires c.valueSats == 0x4000_0000_0000_0000
    ensures StopAt([c, c, c], Normal, c.valueSats, 0) == 3
  {
    hide Total, StopAt;
    var s := [c, c, c];
    TotalsAlike(c);
    assert Largest(s, 1) == [c] && Largest(s, 2) == [c, c];
    assert !Enough(s, Normal, c.valueSats, 1) && !Enough(s, Normal, c.valueSats, 2);
    StopAtLeast(s, Normal, c.valueSats, 0);
  }

  /** The coins are taken, and spent, largest first. */
  lemma SelectedDescend(coins: seq<OwnedCoin>, kind: SendKind, amount: i64, i: nat, j: nat)
    requires i < j < |Select(coins, kind, amount)|
    ensures Select(coins, kind, amount)[i].valueSats >= Select(coins, kind, amount)[j].valueSats
  {
    hide Candidates, StopAt, FirstAtLeast;
    CandidatesFacts(coins);
  }

  /** When one coin is enough, one coin is taken, and none of smaller value would do. */
  lemma SmallestSufficientCoin(coins: seq<OwnedCoin>, kind: SendKind, amount: i64, c: OwnedCoin)
    requires amount > 0 && c in coins && c.valueSats >= amount + Fee(kind, 1)
    ensures var s := Select(coins, kind, amount);
            && |s| == 1 && s[0] in coins && s[0].valueSats >= amount + Fee(kind, 1) && s[0].valueSats <= c.valueSats
  {
    CandidatesFacts(coins);
    FirstAtLeastLeast(Candidates(coins), Need(kind, amount, 1));
  }
}
