/** What a pay-to-public-key-hash output demands of the input that spends it: the fragment of the
    network's script rules in which the wallet's own scripts are written. */
module Script {
  import opened Machine

  type Hash20 = b: bytes | |b| == 20 witness seq(20, _ => 0)
  type Hash160 = bytes -> Hash20

  /** Decides whether a pushed signature is good for a pushed public key. */
  type Checker = (bytes, bytes) -> bool

  const OP_DUP: byte := 0x76
  const OP_EQUALVERIFY: byte := 0x88
  const OP_HASH160: byte := 0xa9
  const OP_CHECKSIG: byte := 0xac

  datatype Effect = Effect(stack: seq<bytes>, size: nat)

  /** One opcode's effect on the stack, top last, and how many script bytes it takes. */
  function Execute(hash: Hash160, check: Checker, stack: seq<bytes>, script: bytes): (e: Option<Effect>)
    requires script != []
    ensures e.Some? ==> 1 <= e.value.size <= |script|
  {
    var op, n := script[0], |stack|;
    if op <= 75 then
      if |script| < 1 + op then None else Some(Effect(stack + [script[1..1 + op]], 1 + op))
    else if op == OP_DUP && n >= 1 then Some(Effect(stack + [stack[n - 1]], 1))
    else if op == OP_HASH160 && n >= 1 then Some(Effect(stack[..n - 1] + [hash(stack[n - 1])], 1))
    else if op == OP_EQUALVERIFY && n >= 2 && stack[n - 1] == stack[n - 2] then Some(Effect(stack[..n - 2], 1))
    else if op == OP_CHECKSIG && n >= 2 then
      Some(Effect(stack[..n - 2] + [if check(stack[n - 2], stack[n - 1]) then [1] else []], 1))
    else None
  }

  function Run(hash: Hash160, check: Checker, stack: seq<bytes>, script: bytes): Option<seq<bytes>>
    decreases |script|
  {
    if script == [] then Some(stack) else
    var done := Execute(hash, check, stack, script);
    if done.None? then None else Run(hash, check, done.value.stack, script[done.value.size..])
  }

  /** `unlocking` spends an output locked by `locking`: run one after the other, they leave true. */
  predicate Unlocks(hash: Hash160, check: Checker, unlocking: bytes, locking: bytes) {
    match Run(hash, check, [], unlocking)
    case None => false
    case Some(stack) =>
      match Run(hash, check, stack, locking)
      case None => false
      case Some(result) => result != [] && result[|result| - 1] == [1]
  }

  lemma RunPush(hash: Hash160, check: Checker, stack: seq<bytes>, data: bytes, rest: bytes)
    requires |data| <= 75
    ensures Run(hash, check, stack, [|data|] + data + rest) == Run(hash, check, stack + [data], rest)
  {
    var script: bytes := [|data|] + data + rest;
    assert script[0] == |data| && script[1..1 + |data|] == data && script[1 + |data|..] == rest;
  }

  lemma RunOp(hash: Hash160, check: Checker, stack: seq<bytes>, op: byte, rest: bytes)
    requires op > 75
    ensures Run(hash, check, stack, [op] + rest) ==
            var done := Execute(hash, check, stack, [op]);
            if done.None? then None else Run(hash, check, done.value.stack, rest)
  {
    var script: bytes := [op] + rest;
    assert script[0] == op && script[1..] == rest;
  }

  /** The locking script asks for a key with this hash and a signature that is good for it. */
  lemma LockingIff(hash: Hash160, check: Checker, sig: bytes, pub: bytes, locking: bytes, h: bytes)
    requires |h| == 20 && locking == [OP_DUP] + ([OP_HASH160] + ([20] + h + ([OP_EQUALVERIFY] + ([OP_CHECKSIG] + []))))
    ensures Run(hash, check, [sig, pub], locking) ==
            if hash(pub) != h then None else Some([if check(sig, pub) then [1] else []])
  {
    hide Run;
    var s3, s4 := [OP_CHECKSIG] + [], [sig, pub, hash(pub), h];
    var s2 := [OP_EQUALVERIFY] + s3;
    var s1 := [20] + h + s2;
    RunOp(hash, check, [sig, pub], OP_DUP, [OP_HASH160] + s1);
    assert [sig, pub] + [pub] == [sig, pub, pub];
    RunOp(hash, check, [sig, pub, pub], OP_HASH160, s1);
    assert [sig, pub, pub][..2] + [hash(pub)] == [sig, pub, hash(pub)];
    RunPush(hash, check, [sig, pub, hash(pub)], h, s2);
    assert [sig, pub, hash(pub)] + [h] == s4;
    RunOp(hash, check, s4, OP_EQUALVERIFY, s3);
    if hash(pub) == h {
      assert s4[..2] == [sig, pub];
      RunOp(hash, check, [sig, pub], OP_CHECKSIG, []);
      assert [sig, pub][..0] + [if check(sig, pub) then [1] else []] == [if check(sig, pub) then [1] else []];
      RunNothing(hash, check, [if check(sig, pub) then [1] else []]);
    }
  }

  lemma RunNothing(hash: Hash160, check: Checker, stack: seq<bytes>)
    ensures Run(hash, check, stack, []) == Some(stack)
  {
  }

  /** A signature and a key, pushed in this order, unlock the output exactly when the key has the
      hash the output names and the signature is good for the key. */
  lemma TwoPushesUnlockIff(hash: Hash160, check: Checker, sig: bytes, pub: bytes, h: bytes)
    requires |sig| <= 75 && |pub| <= 75 && |h| == 20
    ensures Unlocks(hash, check, [|sig|] + sig + ([|pub|] + pub + []),
                    [OP_DUP] + ([OP_HASH160] + ([20] + h + ([OP_EQUALVERIFY] + ([OP_CHECKSIG] + []))))) <==>
            hash(pub) == h && check(sig, pub)
  {
    hide Run;
    RunPush(hash, check, [], sig, [|pub|] + pub + []);
    RunPush(hash, check, [] + [sig], pub, []);
    RunNothing(hash, check, [] + [sig] + [pub]);
    assert [] + [sig] + [pub] == [sig, pub];
    var locking: bytes := [OP_DUP] + ([OP_HASH160] + ([20] + h + ([OP_EQUALVERIFY] + ([OP_CHECKSIG] + []))));
    LockingIff(hash, check, sig, pub, locking, h);
  }
}
