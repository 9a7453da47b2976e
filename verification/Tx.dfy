/** Transactions: the wire format in both directions, and the coinstake checks. */
module Tx {
  import opened Machine
  import opened Radix
  import opened Wire

  datatype OutPoint = OutPoint(hash: Digest, n: u32)

  datatype TxIn = TxIn(prevout: OutPoint, scriptSig: bytes, sequence: u32)

  datatype TxOut = TxOut(value: i64, scriptPubkey: bytes)

  datatype Transaction = Transaction(version: i32, vin: seq<TxIn>, vout: seq<TxOut>, lockTime: u32)

  datatype TxError = ReadFailed(error: ReadError) | TrailingBytes

  predicate SizedIns(ins: seq<TxIn>) { forall i :: 0 <= i < |ins| ==> |ins[i].scriptSig| < TWO_64 }

  predicate SizedOuts(outs: seq<TxOut>) { forall i :: 0 <= i < |outs| ==> |outs[i].scriptPubkey| < TWO_64 }

  /** Lengths are `usize` values, so they fit the 64-bit length prefix. */
  predicate Sized(tx: Transaction) {
    |tx.vin| < TWO_64 && |tx.vout| < TWO_64 && SizedIns(tx.vin) && SizedOuts(tx.vout)
  }

  // ----- printing -----

  function TxInBytes(i: TxIn): bytes
    requires |i.scriptSig| < TWO_64
  {
    i.prevout.hash + (LeBytes(i.prevout.n, 4) + (VarBytes(i.scriptSig) + LeBytes(i.sequence, 4)))
  }

  function TxOutBytes(o: TxOut): bytes
    requires |o.scriptPubkey| < TWO_64
  {
    SignedBytes(o.value, 8) + VarBytes(o.scriptPubkey)
  }

  function TxInsBytes(ins: seq<TxIn>): bytes
    requires SizedIns(ins)
  {
    if ins == [] then [] else TxInBytes(ins[0]) + TxInsBytes(ins[1..])
  }

  function TxOutsBytes(outs: seq<TxOut>): bytes
    requires SizedOuts(outs)
  {
    if outs == [] then [] else TxOutBytes(outs[0]) + TxOutsBytes(outs[1..])
  }

  function TxBytes(tx: Transaction): bytes
    requires Sized(tx)
  {
    SignedBytes(tx.version, 4) +
    (CompactSize(|tx.vin|) + (TxInsBytes(tx.vin) +
    (CompactSize(|tx.vout|) + (TxOutsBytes(tx.vout) + LeBytes(tx.lockTime, 4)))))
  }

  // ----- parsing -----

  function ParseU32(b: bytes): (r: Parsed<u32>)
  {
    var (n, rest) :- ParseUint(b, 4);
    LeBytesOfValue(b[..4]); BytePowers();
    Done(n, rest)
  }

  function ParseTxIn(b: bytes): Parsed<TxIn> {
    var (hash, b) :- ParseBytes(b, 32);
    var (n, b) :- ParseU32(b);
    var (scriptSig, b) :- ParseVarBytes(b);
    var (sequence, b) :- ParseU32(b);
    Done(TxIn(OutPoint(hash, n), scriptSig, sequence), b)
  }

  function ParseTxOut(b: bytes): Parsed<TxOut> {
    var (value, rest) :- ParseSigned(b, 8);
    SignedShortest(b, 8); BytePowers();
    var (script, rest) :- ParseVarBytes(rest);
    Done(TxOut(value, script), rest)
  }

  function ParseTxIns(b: bytes, count: nat): Parsed<seq<TxIn>> {
    if count == 0 then Done([], b) else
    var (first, b) :- ParseTxIn(b);
    var (others, b) :- ParseTxIns(b, count - 1);
    Done([first] + others, b)
  }

  function ParseTxOuts(b: bytes, count: nat): Parsed<seq<TxOut>> {
    if count == 0 then Done([], b) else
    var (first, b) :- ParseTxOut(b);
    var (others, b) :- ParseTxOuts(b, count - 1);
    Done([first] + others, b)
  }

  function ParseTx(b: bytes): Parsed<Transaction> {
    var (version, r) :- ParseSigned(b, 4);
    SignedShortest(b, 4); BytePowers();
    var (vinCount, r) :- ParseCompactSize(r);
    var (vin, r) :- ParseTxIns(r, vinCount);
    var (voutCount, r) :- ParseCompactSize(r);
    var (vout, r) :- ParseTxOuts(r, voutCount);
    var (lockTime, r) :- ParseU32(r);
    Done(Transaction(version, vin, vout, lockTime), r)
  }

  function Deserialize(b: bytes): Result<Transaction, TxError> {
    match ParseTx(b)
    case Fail(e) => Err(ReadFailed(e))
    case Done(tx, rest) => if rest != [] then Err(TrailingBytes) else Ok(tx)
  }

  // ----- what the printed bytes are -----

  /** Hash, index, script, sequence: the outpoint first, the script in between. */
  lemma TxInLayout(i: TxIn)
    requires |i.scriptSig| < TWO_64
    ensures var b := TxInBytes(i);
            && |b| >= 41 && b[..32] == i.prevout.hash && LeValue(b[32..36]) == i.prevout.n
            && b[36..|b| - 4] == VarBytes(i.scriptSig) && LeValue(b[|b| - 4..]) == i.sequence
  {
    hide LeBytes, LeValue, VarBytes, CompactSize;
    BytePowers();
    LeValueOfBytes(i.prevout.n, 4);
    LeValueOfBytes(i.sequence, 4);
    FourParts(i.prevout.hash, LeBytes(i.prevout.n, 4), VarBytes(i.scriptSig), LeBytes(i.sequence, 4));
    VarBytesLength(i.scriptSig);
  }

  lemma VarBytesLength(x: bytes)
    requires |x| < TWO_64
    ensures |VarBytes(x)| == |CompactSize(|x|)| + |x| && |VarBytes(x)| >= 1
  {
  }

  lemma FourParts(a: bytes, b: bytes, c: bytes, d: bytes)
    ensures var s := a + (b + (c + d));
            && |s| == |a| + |b| + |c| + |d|
            && s[..|a|] == a && s[|a|..|a| + |b|] == b && s[|a| + |b|..|s| - |d|] == c && s[|s| - |d|..] == d
  {
    var s := a + (b + (c + d));
    assert s == (a + b) + (c + d) == (a + b + c) + d;
  }

  /** The value, then the script behind its length. */
  lemma TxOutLayout(o: TxOut)
    requires |o.scriptPubkey| < TWO_64
    ensures var b := TxOutBytes(o);
            && |b| >= 9 && LeValue(b[..8]) == (if o.value >= 0 then o.value else o.value + TWO_64)
            && b[8..] == CompactSize(|o.scriptPubkey|) + o.scriptPubkey
  {
    hide LeValue, CompactSize;
    BytePowers();
    SignedBytesValue(o.value, 8);
    assert TxOutBytes(o)[..8] == SignedBytes(o.value, 8) && TxOutBytes(o)[8..] == VarBytes(o.scriptPubkey);
  }

  function Flatten(parts: seq<bytes>): bytes {
    if parts == [] then [] else parts[0] + Flatten(parts[1..])
  }

  function EachIn(ins: seq<TxIn>): (parts: seq<bytes>)
    requires SizedIns(ins)
    ensures |parts| == |ins|
  {
    seq(|ins|, i requires 0 <= i < |ins| => TxInBytes(ins[i]))
  }

  function EachOut(outs: seq<TxOut>): (parts: seq<bytes>)
    requires SizedOuts(outs)
    ensures |parts| == |outs|
  {
    seq(|outs|, i requires 0 <= i < |outs| => TxOutBytes(outs[i]))
  }

  lemma {:induction false} InsInOrder(ins: seq<TxIn>)
    requires SizedIns(ins)
    ensures TxInsBytes(ins) == Flatten(EachIn(ins))
  {
    hide TxInBytes;
    if ins != [] {
      InsInOrder(ins[1..]);
      assert EachIn(ins)[1..] == EachIn(ins[1..]);
    }
  }

  lemma {:induction false} OutsInOrder(outs: seq<TxOut>)
    requires SizedOuts(outs)
    ensures TxOutsBytes(outs) == Flatten(EachOut(outs))
  {
    hide TxOutBytes;
    if outs != [] {
      OutsInOrder(outs[1..]);
      assert EachOut(outs)[1..] == EachOut(outs[1..]);
    }
  }

  /** Version first and lock time last; in between the counted inputs, then the counted outputs, in
      the order they are listed. */
  lemma TxLayout(tx: Transaction)
    requires Sized(tx)
    ensures var b := TxBytes(tx);
            var ins, outs := Flatten(EachIn(tx.vin)), Flatten(EachOut(tx.vout));
            && |b| >= 10 && LeValue(b[..4]) == (if tx.version >= 0 then tx.version else tx.version + TWO_32)
            && b[4..|b| - 4] == CompactSize(|tx.vin|) + ins + CompactSize(|tx.vout|) + outs
            && LeValue(b[|b| - 4..]) == tx.lockTime
  {
    hide LeValue, LeBytes, SignedBytes, CompactSize, TxInsBytes, TxOutsBytes, Flatten;
    BytePowers();
    SignedBytesValue(tx.version, 4);
    LeValueOfBytes(tx.lockTime, 4);
    InsInOrder(tx.vin);
    OutsInOrder(tx.vout);
    var v, n, ins, m, outs, l := SignedBytes(tx.version, 4), CompactSize(|tx.vin|), TxInsBytes(tx.vin),
                                 CompactSize(|tx.vout|), TxOutsBytes(tx.vout), LeBytes(tx.lockTime, 4);
    var body := n + ins + m + outs;
    assert TxBytes(tx) == v + (body + ([] + l)) by {
      assert n + (ins + (m + (outs + l))) == body + l;
      assert [] + l == l;
    }
    FourParts(v, body, [], l);
  }

  // ----- parsing inverts printing -----

  lemma U32RoundTrip(n: u32, s: bytes)
    ensures ParseU32(LeBytes(n, 4) + s) == Done(n, s)
  {
    BytePowers();
    UintRoundTrip(n, 4, s);
  }

  lemma TxInRoundTrip(i: TxIn, s: bytes)
    requires |i.scriptSig| < TWO_64
    ensures ParseTxIn(TxInBytes(i) + s) == Done(i, s)
  {
    var e2 := LeBytes(i.sequence, 4) + s;
    var e1 := VarBytes(i.scriptSig) + e2;
    var e0 := LeBytes(i.prevout.n, 4) + e1;
    assert TxInBytes(i) + s == i.prevout.hash + e0;
    BytesRoundTrip(i.prevout.hash, e0);
    U32RoundTrip(i.prevout.n, e1);
    VarBytesRoundTrip(i.scriptSig, e2);
    U32RoundTrip(i.sequence, s);
  }

  lemma TxOutRoundTrip(o: TxOut, s: bytes)
    requires |o.scriptPubkey| < TWO_64
    ensures ParseTxOut(TxOutBytes(o) + s) == Done(o, s)
  {
    BytePowers();
    assert TxOutBytes(o) + s == SignedBytes(o.value, 8) + (VarBytes(o.scriptPubkey) + s);
    SignedRoundTrip(o.value, 8, VarBytes(o.scriptPubkey) + s);
    VarBytesRoundTrip(o.scriptPubkey, s);
  }

  lemma {:induction false} TxInsRoundTrip(ins: seq<TxIn>, s: bytes)
    requires SizedIns(ins)
    ensures ParseTxIns(TxInsBytes(ins) + s, |ins|) == Done(ins, s)
    decreases |ins|
  {
    hide ParseTxIn, TxInBytes;
    if ins == [] {
      assert TxInsBytes(ins) + s == s;
    } else {
      var more := TxInsBytes(ins[1..]) + s;
      assert TxInsBytes(ins) + s == TxInBytes(ins[0]) + more;
      TxInRoundTrip(ins[0], more);
      TxInsRoundTrip(ins[1..], s);
      assert ins == [ins[0]] + ins[1..];
    }
  }

  lemma {:induction false} TxOutsRoundTrip(outs: seq<TxOut>, s: bytes)
    requires SizedOuts(outs)
    ensures ParseTxOuts(TxOutsBytes(outs) + s, |outs|) == Done(outs, s)
    decreases |outs|
  {
    hide ParseTxOut, TxOutBytes;
    if outs == [] {
      assert TxOutsBytes(outs) + s == s;
    } else {
      var more := TxOutsBytes(outs[1..]) + s;
      assert TxOutsBytes(outs) + s == TxOutBytes(outs[0]) + more;
      TxOutRoundTrip(outs[0], more);
      TxOutsRoundTrip(outs[1..], s);
      assert outs == [outs[0]] + outs[1..];
    }
  }

  lemma TxRoundTrip(tx: Transaction, s: bytes)
    requires Sized(tx)
    ensures ParseTx(TxBytes(tx) + s) == Done(tx, s)
  {
    hide TxInsBytes, TxOutsBytes, ParseTxIns, ParseTxOuts, LeBytes, CompactSize, SignedBytes, ParseSigned,
         ParseCompactSize, ParseU32;
    BytePowers();
    var e4 := LeBytes(tx.lockTime, 4) + s;
    var e3 := TxOutsBytes(tx.vout) + e4;
    var e2 := CompactSize(|tx.vout|) + e3;
    var e1 := TxInsBytes(tx.vin) + e2;
    var e0 := CompactSize(|tx.vin|) + e1;
    assert TxBytes(tx) + s == SignedBytes(tx.version, 4) + e0;
    SignedRoundTrip(tx.version, 4, e0);
    CompactSizeRoundTrip(|tx.vin|, e1);
    TxInsRoundTrip(tx.vin, e2);
    CompactSizeRoundTrip(|tx.vout|, e3);
    TxOutsRoundTrip(tx.vout, e4);
    U32RoundTrip(tx.lockTime, s);
  }

  /** The parser inverts the printer. */
  lemma DeserializeSerialize(tx: Transaction)
    requires Sized(tx)
    ensures Deserialize(TxBytes(tx)) == Ok(tx)
  {
    TxRoundTrip(tx, []);
    assert TxBytes(tx) + [] == TxBytes(tx);
  }

  lemma SerializeInjective(tx: Transaction, tx': Transaction)
    requires Sized(tx) && Sized(tx') && TxBytes(tx) == TxBytes(tx')
    ensures tx == tx'
  {
    DeserializeSerialize(tx);
    DeserializeSerialize(tx');
  }

  // ----- a successful parse ignores what follows -----

  lemma U32Extend(b: bytes, s: bytes)
    requires ParseU32(b).Done?
    ensures ParseU32(b + s) == Done(ParseU32(b).value, ParseU32(b).rest + s)
  {
    UintExtend(b, 4, s);
  }

  lemma TxInExtend(b: bytes, s: bytes)
    requires ParseTxIn(b).Done?
    ensures ParseTxIn(b + s) == Done(ParseTxIn(b).value, ParseTxIn(b).rest + s)
  {
    BytesExtend(b, 32, s);
    var b1 := b[32..];
    U32Extend(b1, s);
    var b2 := ParseU32(b1).rest;
    VarBytesExtend(b2, s);
    U32Extend(ParseVarBytes(b2).rest, s);
  }

  lemma TxOutExtend(b: bytes, s: bytes)
    requires ParseTxOut(b).Done?
    ensures ParseTxOut(b + s) == Done(ParseTxOut(b).value, ParseTxOut(b).rest + s)
  {
    UintExtend(b, 8, s);
    VarBytesExtend(ParseSigned(b, 8).rest, s);
  }

  lemma {:induction false} TxInsExtend(b: bytes, count: nat, s: bytes)
    requires ParseTxIns(b, count).Done?
    ensures ParseTxIns(b + s, count) == Done(ParseTxIns(b, count).value, ParseTxIns(b, count).rest + s)
    decreases count
  {
    hide ParseTxIn;
    if count > 0 {
      TxInExtend(b, s);
      TxInsExtend(ParseTxIn(b).rest, count - 1, s);
    }
  }

  lemma {:induction false} TxOutsExtend(b: bytes, count: nat, s: bytes)
    requires ParseTxOuts(b, count).Done?
    ensures ParseTxOuts(b + s, count) == Done(ParseTxOuts(b, count).value, ParseTxOuts(b, count).rest + s)
    decreases count
  {
    hide ParseTxOut;
    if count > 0 {
      TxOutExtend(b, s);
      TxOutsExtend(ParseTxOut(b).rest, count - 1, s);
    }
  }

  lemma TxExtend(b: bytes, s: bytes)
    requires ParseTx(b).Done?
    ensures ParseTx(b + s) == Done(ParseTx(b).value, ParseTx(b).rest + s)
  {
    UintExtend(b, 4, s);
    var b1 := ParseSigned(b, 4).rest;
    CompactSizeExtend(b1, s);
    var b2 := ParseCompactSize(b1);
    TxInsExtend(b2.rest, b2.value, s);
    var b3 := ParseTxIns(b2.rest, b2.value).rest;
    CompactSizeExtend(b3, s);
    var b4 := ParseCompactSize(b3);
    TxOutsExtend(b4.rest, b4.value, s);
    U32Extend(ParseTxOuts(b4.rest, b4.value).rest, s);
  }

  /** No accepted byte string is a strict prefix of another. */
  lemma AcceptedPrefixFree(b: bytes, s: bytes)
    ensures Deserialize(b).Ok? ==> (Deserialize(b + s).Ok? <==> s == [])
  {
    if Deserialize(b).Ok? {
      TxExtend(b, s);
      assert [] + s == s;
    }
  }

  /** Every strict prefix and every strict extension of a printed transaction is rejected. */
  lemma PrefixesAndExtensionsRejected(tx: Transaction, b: bytes)
    requires Sized(tx) && b != TxBytes(tx)
    requires b <= TxBytes(tx) || TxBytes(tx) <= b
    ensures Deserialize(b).Err?
  {
    DeserializeSerialize(tx);
    var e := TxBytes(tx);
    if b <= e {
      assert b + e[|b|..] == e;
      AcceptedPrefixFree(b, e[|b|..]);
    } else {
      AcceptedPrefixFree(e, b[|e|..]);
      assert e + b[|e|..] == b;
    }
  }

  // ----- the printed form is the shortest -----

  lemma U32Shortest(b: bytes)
    requires ParseU32(b).Done?
    ensures Shortest(b, ParseU32(b).rest, LeBytes(ParseU32(b).value, 4))
    ensures |b| == |ParseU32(b).rest| + 4
  {
    UintShortest(b, 4);
  }

  lemma TxInShortest(b: bytes)
    requires ParseTxIn(b).Done?
    ensures |ParseTxIn(b).value.scriptSig| < TWO_64
    ensures Shortest(b, ParseTxIn(b).rest, TxInBytes(ParseTxIn(b).value))
    ensures |b| >= 41 + |ParseTxIn(b).rest|
  {
    var i := ParseTxIn(b).value;
    BytesShortest(b, 32);
    var b1 := b[32..];
    U32Shortest(b1);
    var b2 := ParseU32(b1).rest;
    VarBytesShortest(b2);
    var b3 := ParseVarBytes(b2).rest;
    U32Shortest(b3);
    var e2 := LeBytes(i.sequence, 4);
    var e1 := VarBytes(i.scriptSig) + e2;
    ShortestCompose(b2, b3, ParseTxIn(b).rest, VarBytes(i.scriptSig), e2);
    ShortestCompose(b1, b2, ParseTxIn(b).rest, LeBytes(i.prevout.n, 4), e1);
    ShortestCompose(b, b1, ParseTxIn(b).rest, i.prevout.hash, LeBytes(i.prevout.n, 4) + e1);
  }

  lemma TxOutShortest(b: bytes)
    requires ParseTxOut(b).Done?
    ensures |ParseTxOut(b).value.scriptPubkey| < TWO_64
    ensures Shortest(b, ParseTxOut(b).rest, TxOutBytes(ParseTxOut(b).value))
    ensures |b| >= 9 + |ParseTxOut(b).rest|
  {
    var o := ParseTxOut(b).value;
    SignedShortest(b, 8);
    var b1 := ParseSigned(b, 8).rest;
    VarBytesShortest(b1);
    ShortestCompose(b, b1, ParseTxOut(b).rest, SignedBytes(o.value, 8), VarBytes(o.scriptPubkey));
  }

  lemma {:induction false} TxInsShortest(b: bytes, count: nat)
    requires ParseTxIns(b, count).Done?
    ensures var ins := ParseTxIns(b, count).value;
            && |ins| == count && SizedIns(ins)
            && Shortest(b, ParseTxIns(b, count).rest, TxInsBytes(ins))
            && |b| >= 41 * count + |ParseTxIns(b, count).rest|
    decreases count
  {
    hide ParseTxIn, TxInBytes;
    if count > 0 {
      var r := ParseTxIns(b, count);
      TxInShortest(b);
      var i := ParseTxIn(b);
      TxInsShortest(i.rest, count - 1);
      var others := ParseTxIns(i.rest, count - 1).value;
      assert r.value[1..] == others;
      ShortestCompose(b, i.rest, r.rest, TxInBytes(i.value), TxInsBytes(others));
    }
  }

  lemma {:induction false} TxOutsShortest(b: bytes, count: nat)
    requires ParseTxOuts(b, count).Done?
    ensures var outs := ParseTxOuts(b, count).value;
            && |outs| == count && SizedOuts(outs)
            && Shortest(b, ParseTxOuts(b, count).rest, TxOutsBytes(outs))
            && |b| >= 9 * count + |ParseTxOuts(b, count).rest|
    decreases count
  {
    hide ParseTxOut, TxOutBytes;
    if count > 0 {
      var r := ParseTxOuts(b, count);
      TxOutShortest(b);
      var o := ParseTxOut(b);
      TxOutsShortest(o.rest, count - 1);
      var others := ParseTxOuts(o.rest, count - 1).value;
      assert r.value[1..] == others;
      ShortestCompose(b, o.rest, r.rest, TxOutBytes(o.value), TxOutsBytes(others));
    }
  }

  lemma TxShortest(b: bytes)
    requires ParseTx(b).Done?
    ensures var tx := ParseTx(b).value;
            && Sized(tx) && Shortest(b, ParseTx(b).rest, TxBytes(tx))
            && |b| >= 41 * |tx.vin| + 9 * |tx.vout| + 10 + |ParseTx(b).rest|
  {
    hide ParseTxIns, ParseTxOuts, TxInsBytes, TxOutsBytes, Shortest;
    var tx, rest := ParseTx(b).value, ParseTx(b).rest;
    SignedShortest(b, 4);
    var b1 := ParseSigned(b, 4).rest;
    CompactSizeShortest(b1);
    var b2 := ParseCompactSize(b1);
    TxInsShortest(b2.rest, b2.value);
    var b3 := ParseTxIns(b2.rest, b2.value).rest;
    CompactSizeShortest(b3);
    var b4 := ParseCompactSize(b3);
    TxOutsShortest(b4.rest, b4.value);
    var b5 := ParseTxOuts(b4.rest, b4.value).rest;
    U32Shortest(b5);
    var e4 := LeBytes(tx.lockTime, 4);
    var e3 := TxOutsBytes(tx.vout) + e4;
    var e2 := CompactSize(|tx.vout|) + e3;
    var e1 := TxInsBytes(tx.vin) + e2;
    ShortestCompose(b4.rest, b5, rest, TxOutsBytes(tx.vout), e4);
    ShortestCompose(b3, b4.rest, rest, CompactSize(|tx.vout|), e3);
    ShortestCompose(b2.rest, b3, rest, TxInsBytes(tx.vin), e2);
    ShortestCompose(b1, b2.rest, rest, CompactSize(|tx.vin|), e1);
    ShortestCompose(b, b1, rest, SignedBytes(tx.version, 4), CompactSize(|tx.vin|) + e1);
  }

  /** On any accepted bytes: printing again gives something no longer that parses to the same
      transaction, and the same bytes exactly when the lengths agree; and the element counts
      are bounded by the length, whatever counts the bytes claim. */
  lemma AcceptedNormalForm(b: bytes)
    requires Deserialize(b).Ok?
    ensures var tx := Deserialize(b).value;
            && Sized(tx)
            && |TxBytes(tx)| <= |b|
            && Deserialize(TxBytes(tx)) == Ok(tx)
            && (TxBytes(tx) == b <==> |TxBytes(tx)| == |b|)
            && 41 * |tx.vin| + 9 * |tx.vout| + 10 <= |b|
  {
    TxShortest(b);
    var tx := Deserialize(b).value;
    DeserializeSerialize(tx);
    assert TxBytes(tx) + [] == TxBytes(tx);
  }

  /** A longer length prefix is accepted: the slack is real. */
  lemma NonShortestPrefixAccepted() returns (b: bytes, tx: Transaction)
    ensures Sized(tx) && Deserialize(b) == Ok(tx) && TxBytes(tx) != b
  {
    tx := Transaction(0, [], [], 0);
    var tail := LeBytes(0, 4);
    var outs := CompactSize(0) + tail;
    var ins := [0xfd] + (LeBytes(0, 2) + outs);
    b := SignedBytes(0, 4) + ins;
    BytePowers();
    SignedRoundTrip(0, 4, ins);
    assert ins[..1] == [0xfd] && ins[1..] == LeBytes(0, 2) + outs;
    UintRoundTrip(0, 2, outs);
    CompactSizeRoundTrip(0, tail);
    U32RoundTrip(0, []);
    assert tail + [] == tail;
    assert |b| > |TxBytes(tx)|;
  }

  // ----- the loops -----

  lemma {:induction false} TxInsBytesSnoc(ins: seq<TxIn>, i: TxIn)
    requires SizedIns(ins) && |i.scriptSig| < TWO_64
    ensures TxInsBytes(ins + [i]) == TxInsBytes(ins) + TxInBytes(i)
  {
    if ins == [] {
      assert ins + [i] == [i];
    } else {
      assert (ins + [i])[1..] == ins[1..] + [i];
      TxInsBytesSnoc(ins[1..], i);
    }
  }

  lemma {:induction false} TxOutsBytesSnoc(outs: seq<TxOut>, o: TxOut)
    requires SizedOuts(outs) && |o.scriptPubkey| < TWO_64
    ensures TxOutsBytes(outs + [o]) == TxOutsBytes(outs) + TxOutBytes(o)
  {
    if outs == [] {
      assert outs + [o] == [o];
    } else {
      assert (outs + [o])[1..] == outs[1..] + [o];
      TxOutsBytesSnoc(outs[1..], o);
    }
  }

  method AppendTxIns(out: bytes, ins: seq<TxIn>) returns (r: bytes)
    requires SizedIns(ins)
    ensures r == out + TxInsBytes(ins)
  {
    r := out;
    for i := 0 to |ins|
      invariant r == out + TxInsBytes(ins[..i])
    {
      TxInsBytesSnoc(ins[..i], ins[i]);
      assert ins[..i + 1] == ins[..i] + [ins[i]];
      r := r + ins[i].prevout.hash;
      r := r + LeBytes(ins[i].prevout.n, 4);
      r := r + VarBytes(ins[i].scriptSig);
      r := r + LeBytes(ins[i].sequence, 4);
    }
    assert ins[..|ins|] == ins;
  }

  method AppendTxOuts(out: bytes, outs: seq<TxOut>) returns (r: bytes)
    requires SizedOuts(outs)
    ensures r == out + TxOutsBytes(outs)
  {
    r := out;
    for i := 0 to |outs|
      invariant r == out + TxOutsBytes(outs[..i])
    {
      TxOutsBytesSnoc(outs[..i], outs[i]);
      assert outs[..i + 1] == outs[..i] + [outs[i]];
      r := r + SignedBytes(outs[i].value, 8);
      r := r + VarBytes(outs[i].scriptPubkey);
    }
    assert outs[..|outs|] == outs;
  }

  /** `Transaction::serialize`: everything is appended to one buffer. */
  method SerializeLoop(tx: Transaction) returns (out: bytes)
    requires Sized(tx)
    ensures out == TxBytes(tx)
  {
    out := SignedBytes(tx.version, 4);
    out := out + CompactSize(|tx.vin|);
    out := AppendTxIns(out, tx.vin);
    out := out + CompactSize(|tx.vout|);
    out := AppendTxOuts(out, tx.vout);
    out := out + LeBytes(tx.lockTime, 4);
    AppendedInOrder(SignedBytes(tx.version, 4), CompactSize(|tx.vin|), TxInsBytes(tx.vin), CompactSize(|tx.vout|),
                    TxOutsBytes(tx.vout), LeBytes(tx.lockTime, 4));
  }

  lemma AppendedInOrder(a: bytes, b: bytes, c: bytes, d: bytes, e: bytes, f: bytes)
    ensures a + b + c + d + e + f == a + (b + (c + (d + (e + f))))
  {
  }

  /** `u32::from_le_bytes` of the next four bytes. */
  method ReadU32(r: Reader) returns (n: Result<u32, ReadError>)
    requires r.Valid()
    modifies r
    ensures r.Valid()
    ensures match ParseU32(old(r.Rest()))
            case Done(v, rest) => n == Ok(v) && r.Rest() == rest
            case Fail(e) => n == Err(e)
  {
    ghost var b := r.Rest();
    var x := r.ReadUint(4);
    if x.Err? {
      return Err(x.error);
    }
    LeBytesOfValue(b[..4]);
    BytePowers();
    return Ok(x.value);
  }

  method ReadTxIn(r: Reader) returns (i: Result<TxIn, ReadError>)
    requires r.Valid()
    modifies r
    ensures r.Valid()
    ensures match ParseTxIn(old(r.Rest()))
            case Done(v, rest) => i == Ok(v) && r.Rest() == rest
            case Fail(e) => i == Err(e)
  {
    var hash := r.Take(32);
    if hash.Err? { return Err(hash.error); }
    var n := ReadU32(r);
    if n.Err? { return Err(n.error); }
    var script := r.ReadVarBytes();
    if script.Err? { return Err(script.error); }
    var sequence := ReadU32(r);
    if sequence.Err? { return Err(sequence.error); }
    return Ok(TxIn(OutPoint(hash.value, n.value), script.value, sequence.value));
  }

  method ReadTxOut(r: Reader) returns (o: Result<TxOut, ReadError>)
    requires r.Valid()
    modifies r
    ensures r.Valid()
    ensures match ParseTxOut(old(r.Rest()))
            case Done(v, rest) => o == Ok(v) && r.Rest() == rest
            case Fail(e) => o == Err(e)
  {
    ghost var b := r.Rest();
    var value := r.ReadSigned(8);
    if value.Err? { return Err(value.error); }
    SignedShortest(b, 8);
    BytePowers();
    var script := r.ReadVarBytes();
    if script.Err? { return Err(script.error); }
    return Ok(TxOut(value.value, script.value));
  }

  /** Reading `count` elements after `done` have been read. */
  function Resume<T>(done: seq<T>, p: Parsed<seq<T>>): Parsed<seq<T>> {
    match p
    case Fail(e) => Fail(e)
    case Done(more, rest) => Done(done + more, rest)
  }

  lemma ResumeOne<T>(done: seq<T>, x: T, p: Parsed<seq<T>>)
    ensures Resume(done + [x], p) == Resume(done, Resume([x], p))
  {
    if p.Done? {
      assert (done + [x]) + p.value == done + ([x] + p.value);
    }
  }

  lemma ResumeNothing<T>(p: Parsed<seq<T>>)
    ensures Resume([], p) == p
  {
    if p.Done? {
      assert [] + p.value == p.value;
    }
  }

  method ReadTxIns(r: Reader, count: nat) returns (ins: Result<seq<TxIn>, ReadError>)
    requires r.Valid()
    modifies r
    ensures r.Valid()
    ensures match ParseTxIns(old(r.Rest()), count)
            case Done(v, rest) => ins == Ok(v) && r.Rest() == rest
            case Fail(e) => ins == Err(e)
  {
    hide ParseTxIn;
    var vin: seq<TxIn> := [];
    ResumeNothing(ParseTxIns(r.Rest(), count));
    for i := 0 to count
      invariant r.Valid() && |vin| == i
      invariant Resume(vin, ParseTxIns(r.Rest(), count - i)) == ParseTxIns(old(r.Rest()), count)
      invariant 41 * |vin| + |r.Rest()| <= |old(r.Rest())|
    {
      ghost var b := r.Rest();
      var x := ReadTxIn(r);
      if x.Err? {
        return Err(x.error);
      }
      TxInShortest(b);
      ResumeOne(vin, x.value, ParseTxIns(r.Rest(), count - i - 1));
      vin := vin + [x.value];
    }
    assert vin + [] == vin;
    return Ok(vin);
  }

  method ReadTxOuts(r: Reader, count: nat) returns (outs: Result<seq<TxOut>, ReadError>)
    requires r.Valid()
    modifies r
    ensures r.Valid()
    ensures match ParseTxOuts(old(r.Rest()), count)
            case Done(v, rest) => outs == Ok(v) && r.Rest() == rest
            case Fail(e) => outs == Err(e)
  {
    hide ParseTxOut;
    var vout: seq<TxOut> := [];
    ResumeNothing(ParseTxOuts(r.Rest(), count));
    for i := 0 to count
      invariant r.Valid() && |vout| == i
      invariant Resume(vout, ParseTxOuts(r.Rest(), count - i)) == ParseTxOuts(old(r.Rest()), count)
      invariant 9 * |vout| + |r.Rest()| <= |old(r.Rest())|
    {
      ghost var b := r.Rest();
      var x := ReadTxOut(r);
      if x.Err? {
        return Err(x.error);
      }
      TxOutShortest(b);
      ResumeOne(vout, x.value, ParseTxOuts(r.Rest(), count - i - 1));
      vout := vout + [x.value];
    }
    assert vout + [] == vout;
    return Ok(vout);
  }

  /** `Transaction::deserialize` */
  method DeserializeLoop(b: bytes) returns (t: Result<Transaction, TxError>)
    ensures t == Deserialize(b)
  {
    hide ParseTxIns, ParseTxOuts, ParseSigned, ParseCompactSize, ParseU32;
    var r := new Reader(b);
    var version := r.ReadSigned(4);
    if version.Err? { return Err(ReadFailed(version.error)); }
    SignedShortest(b, 4);
    BytePowers();
    var vinCount := r.ReadCompactSize();
    if vinCount.Err? { return Err(ReadFailed(vinCount.error)); }
    var vin := ReadTxIns(r, vinCount.value);
    if vin.Err? { return Err(ReadFailed(vin.error)); }
    var voutCount := r.ReadCompactSize();
    if voutCount.Err? { return Err(ReadFailed(voutCount.error)); }
    var vout := ReadTxOuts(r, voutCount.value);
    if vout.Err? { return Err(ReadFailed(vout.error)); }
    var lockTime := ReadU32(r);
    if lockTime.Err? { return Err(ReadFailed(lockTime.error)); }
    if r.pos != |r.data| {
      return Err(TrailingBytes);
    }
    return Ok(Transaction(version.value, vin.value, vout.value, lockTime.value));
  }
}
