/** The merkle root: the halving loop, the perfect tree it equals, what the root binds, and
    what it does not. */
module Merkle {
  import opened Machine

  /** The hash of the 64 bytes of an inner node. */
  function Node(dsha: Hasher, l: Digest, r: Digest): Digest { dsha(l + r) }

  /** An odd level gets its last element twice. */
  function Evened(level: seq<Digest>): (e: seq<Digest>)
    requires level != []
    ensures |e| % 2 == 0 && |e| / 2 == (|level| + 1) / 2
  {
    if |level| % 2 == 1 then level + [level[|level| - 1]] else level
  }

  function PairUp(dsha: Hasher, level: seq<Digest>): (up: seq<Digest>)
    requires |level| % 2 == 0
    ensures |up| == |level| / 2
  {
    seq(|level| / 2, i requires 0 <= i < |level| / 2 => Node(dsha, level[2 * i], level[2 * i + 1]))
  }

  function Root(dsha: Hasher, level: seq<Digest>): Digest
    requires level != []
    decreases |level|
  {
    if |level| == 1 then level[0] else Root(dsha, PairUp(dsha, Evened(level)))
  }

  function MerkleRoot(dsha: Hasher, txids: seq<Digest>): Digest {
    if txids == [] then ZeroDigest() else Root(dsha, txids)
  }

  /** `chunks(2).map(..).collect()` */
  method PairUpLoop(dsha: Hasher, level: seq<Digest>) returns (up: seq<Digest>)
    requires |level| % 2 == 0
    ensures up == PairUp(dsha, level)
  {
    up := [];
    var i := 0;
    while i < |level|
      invariant 0 <= i <= |level| && i % 2 == 0 && |up| == i / 2
      invariant forall k :: 0 <= k < |up| ==> up[k] == PairUp(dsha, level)[k]
    {
      up := up + [Node(dsha, level[i], level[i + 1])];
      i := i + 2;
    }
  }

  /** `merkle_root`: rewrite the level until one hash is left. */
  method MerkleRootLoop(dsha: Hasher, txids: seq<Digest>) returns (root: Digest)
    ensures root == MerkleRoot(dsha, txids)
  {
    if txids == [] {
      return ZeroDigest();
    }
    var level := txids;
    while |level| > 1
      invariant level != [] && Root(dsha, level) == Root(dsha, txids)
      decreases |level|
    {
      if |level| % 2 == 1 {
        level := level + [level[|level| - 1]];
      }
      level := PairUpLoop(dsha, level);
    }
    return level[0];
  }

  lemma RootOfTwo(dsha: Hasher, a: Digest, b: Digest)
    ensures MerkleRoot(dsha, [a, b]) == dsha(a + b)
  {
    assert Evened([a, b]) == [a, b];
    assert PairUp(dsha, [a, b]) == [dsha(a + b)];
    assert Root(dsha, [dsha(a + b)]) == dsha(a + b);
  }

  /** The first roots: zeros, the id itself, two ids one after the other, and a third with itself. */
  lemma SmallRoots(dsha: Hasher, a: Digest, b: Digest, c: Digest)
    ensures MerkleRoot(dsha, []) == seq(32, _ => 0) && MerkleRoot(dsha, [a]) == a
    ensures MerkleRoot(dsha, [a, b]) == dsha(a + b)
    ensures MerkleRoot(dsha, [a, b, c]) == dsha(dsha(a + b) + dsha(c + c))
  {
    RootOfTwo(dsha, a, b);
    RootOfTwo(dsha, dsha(a + b), dsha(c + c));
    assert Evened([a, b, c]) == [a, b, c, c];
    assert PairUp(dsha, [a, b, c, c]) == [dsha(a + b), dsha(c + c)];
  }

  // ----- the loop computes a perfect tree -----

  /** The hash tree over `2^h` leaves, from the top down. */
  function Tree(dsha: Hasher, h: nat, leaves: seq<Digest>): Digest
    requires |leaves| == Pow(2, h)
  {
    if h == 0 then leaves[0] else
    var half := Pow(2, h - 1);
    dsha(Tree(dsha, h - 1, leaves[..half]) + Tree(dsha, h - 1, leaves[half..]))
  }

  function Height(n: nat): nat
    requires n > 0
  {
    if n == 1 then 0 else 1 + Height((n + 1) / 2)
  }

  /** Which of `n` hashes stands at leaf `i` of the tree of height `h`. */
  function LeafIndex(n: nat, h: nat, i: nat): (k: nat)
    requires n > 0
    ensures k < n
  {
    if h == 0 then 0 else Min(2 * LeafIndex((n + 1) / 2, h - 1, i / 2) + i % 2, n - 1)
  }

  function Leaves(level: seq<Digest>, h: nat): (leaves: seq<Digest>)
    requires level != []
    ensures |leaves| == Pow(2, h)
  {
    seq(Pow(2, h), i requires 0 <= i < Pow(2, h) => level[LeafIndex(|level|, h, i)])
  }

  /** The list itself comes first among the leaves; the rest is duplication. */
  lemma {:induction false} LeafIndexInside(n: nat, h: nat, i: nat)
    requires i < n && h == Height(n)
    ensures LeafIndex(n, h, i) == i && n <= Pow(2, h)
  {
    if n > 1 {
      LeafIndexInside((n + 1) / 2, h - 1, i / 2);
    }
  }

  lemma LeavesExtend(level: seq<Digest>)
    requires level != []
    ensures level <= Leaves(level, Height(|level|))
  {
    hide LeafIndex, Height, Pow;
    var h := Height(|level|);
    var leaves := Leaves(level, h);
    LeafIndexInside(|level|, h, 0);
    forall i | 0 <= i < |level| ensures leaves[i] == level[i] {
      LeafIndexInside(|level|, h, i);
    }
  }

  lemma PairUpConcat(dsha: Hasher, s: seq<Digest>, t: seq<Digest>)
    requires |s| % 2 == 0 && |t| % 2 == 0
    ensures PairUp(dsha, s + t) == PairUp(dsha, s) + PairUp(dsha, t)
  {
  }

  lemma PairUpHalves(dsha: Hasher, s: seq<Digest>, q: nat)
    requires |s| == 4 * q
    ensures PairUp(dsha, s)[..q] == PairUp(dsha, s[..2 * q]) && PairUp(dsha, s)[q..] == PairUp(dsha, s[2 * q..])
  {
    assert s == s[..2 * q] + s[2 * q..];
    PairUpConcat(dsha, s[..2 * q], s[2 * q..]);
  }

  /** Pairing the leaves of a perfect tree removes its lowest layer. */
  lemma TreeStep(dsha: Hasher, h: nat, q: nat, leaves: seq<Digest>)
    requires h > 0 && q == Pow(2, h - 1) && |leaves| == Pow(2, h) == 2 * q
    ensures Tree(dsha, h, leaves) == Node(dsha, Tree(dsha, h - 1, leaves[..q]), Tree(dsha, h - 1, leaves[q..]))
  {
  }

  lemma TreePairUpBase(dsha: Hasher, leaves: seq<Digest>)
    requires |leaves| == Pow(2, 1)
    ensures Tree(dsha, 1, leaves) == Tree(dsha, 0, PairUp(dsha, leaves))
  {
  }

  lemma {:induction false} TreePairUp(dsha: Hasher, h: nat, leaves: seq<Digest>)
    requires |leaves| == Pow(2, h + 1)
    ensures Tree(dsha, h + 1, leaves) == Tree(dsha, h, PairUp(dsha, leaves))
  {
    hide PairUp, Tree, Node;
    if h == 0 {
      TreePairUpBase(dsha, leaves);
    } else {
      var quarter := Pow(2, h - 1);
      var half := 2 * quarter;
      assert Pow(2, h) == half && Pow(2, h + 1) == 2 * half;
      TreePairUp(dsha, h - 1, leaves[..half]);
      TreePairUp(dsha, h - 1, leaves[half..]);
      PairUpHalves(dsha, leaves, quarter);
      TreeStep(dsha, h + 1, half, leaves);
      TreeStep(dsha, h, quarter, PairUp(dsha, leaves));
    }
  }

  lemma PairUpLeaf(dsha: Hasher, level: seq<Digest>, h: nat, i: nat)
    requires level != [] && i < Pow(2, h)
    ensures var up := PairUp(dsha, Evened(level));
            && 2 * i + 1 < Pow(2, h + 1)
            && LeafIndex(|up|, h, i) < |up|
            && Node(dsha, level[LeafIndex(|level|, h + 1, 2 * i)], level[LeafIndex(|level|, h + 1, 2 * i + 1)])
               == up[LeafIndex(|up|, h, i)]
  {
    hide LeafIndex;
    LeafIndexPair(|level|, h, i);
  }

  lemma LeafIndexPair(n: nat, h: nat, i: nat)
    requires n > 0
    ensures var q := LeafIndex((n + 1) / 2, h, i);
            LeafIndex(n, h + 1, 2 * i) == Min(2 * q, n - 1) && LeafIndex(n, h + 1, 2 * i + 1) == Min(2 * q + 1, n - 1)
  {
    assert (2 * i) / 2 == i == (2 * i + 1) / 2 && (2 * i) % 2 == 0 && (2 * i + 1) % 2 == 1;
  }

  lemma PairUpLeaves(dsha: Hasher, level: seq<Digest>, h: nat)
    requires level != []
    ensures PairUp(dsha, Leaves(level, h + 1)) == Leaves(PairUp(dsha, Evened(level)), h)
  {
    hide LeafIndex, Evened, Node;
    var up := PairUp(dsha, Evened(level));
    assert Pow(2, h + 1) == 2 * Pow(2, h);
    hide Pow;
    forall i | 0 <= i < Pow(2, h)
      ensures PairUp(dsha, Leaves(level, h + 1))[i] == Leaves(up, h)[i]
    {
      PairUpLeaf(dsha, level, h, i);
    }
  }

  /** The halving loop computes the perfect tree over the duplicated-out leaves. */
  lemma {:induction false} RootIsTree(dsha: Hasher, level: seq<Digest>)
    requires level != []
    ensures Root(dsha, level) == Tree(dsha, Height(|level|), Leaves(level, Height(|level|)))
    decreases |level|
  {
    hide LeafIndex, PairUp, Pow;
    if |level| == 1 {
      LeavesExtend(level);
    } else {
      var up := PairUp(dsha, Evened(level));
      var h := Height(|up|);
      assert Height(|level|) == h + 1 && Root(dsha, level) == Root(dsha, up);
      RootIsTree(dsha, up);
      PairUpLeaves(dsha, level, h);
      TreePairUp(dsha, h, Leaves(level, h + 1));
    }
  }

  // ----- what the root binds -----

  /** Every byte string hashed on the way to a tree's root. */
  function Preimages(dsha: Hasher, h: nat, leaves: seq<Digest>): set<bytes>
    requires |leaves| == Pow(2, h)
  {
    if h == 0 then {} else
    var half := Pow(2, h - 1);
    {Tree(dsha, h - 1, leaves[..half]) + Tree(dsha, h - 1, leaves[half..])} +
    Preimages(dsha, h - 1, leaves[..half]) + Preimages(dsha, h - 1, leaves[half..])
  }

  lemma SingleLeaf(s: seq<Digest>, t: seq<Digest>)
    requires |s| == 1 == |t| && s[0] == t[0]
    ensures s == t
  {
  }

  /** Two leaf lists of one height with one root: the same list, or a collision between a
      string hashed for the one and a string hashed for the other. */
  lemma {:induction false} TreeBinds(dsha: Hasher, h: nat, s: seq<Digest>, t: seq<Digest>) returns (a: bytes, b: bytes)
    requires |s| == |t| == Pow(2, h) && s != t && Tree(dsha, h, s) == Tree(dsha, h, t)
    ensures a in Preimages(dsha, h, s) && b in Preimages(dsha, h, t)
    ensures a != b && dsha(a) == dsha(b)
  {
    if h == 0 {
      SingleLeaf(s, t);
      assert false;
    } else {
      var half := Pow(2, h - 1);
      var l: bytes, r: bytes := Tree(dsha, h - 1, s[..half]), Tree(dsha, h - 1, s[half..]);
      var l': bytes, r': bytes := Tree(dsha, h - 1, t[..half]), Tree(dsha, h - 1, t[half..]);
      assert s == s[..half] + s[half..] && t == t[..half] + t[half..];
      a, b := l + r, l' + r';
      if a == b {
        assert a[..32] == l && a[32..] == r && b[..32] == l' && b[32..] == r';
        if s[..half] != t[..half] {
          a, b := TreeBinds(dsha, h - 1, s[..half], t[..half]);
        } else {
          a, b := TreeBinds(dsha, h - 1, s[half..], t[half..]);
        }
      }
    }
  }

  /** Lists of one tree height have one root if their duplicated-out leaves agree; and if their
      leaves differ, only by a collision between strings hashed for the one and for the other. */
  lemma EqualHeightBinding(dsha: Hasher, s: seq<Digest>, t: seq<Digest>) returns (a: bytes, b: bytes)
    requires s != [] && t != [] && Height(|s|) == Height(|t|)
    ensures var h := Height(|s|);
            && (Leaves(s, h) == Leaves(t, h) ==> MerkleRoot(dsha, s) == MerkleRoot(dsha, t))
            && (Leaves(s, h) != Leaves(t, h) && MerkleRoot(dsha, s) == MerkleRoot(dsha, t) ==>
                  a in Preimages(dsha, h, Leaves(s, h)) && b in Preimages(dsha, h, Leaves(t, h)) &&
                  a != b && dsha(a) == dsha(b))
  {
    var h := Height(|s|);
    RootIsTree(dsha, s);
    RootIsTree(dsha, t);
    if Leaves(s, h) != Leaves(t, h) && MerkleRoot(dsha, s) == MerkleRoot(dsha, t) {
      a, b := TreeBinds(dsha, h, Leaves(s, h), Leaves(t, h));
    } else {
      a, b := [], [];
    }
  }

  /** Two different transaction lists of one length with one root exhibit a collision. */
  lemma EqualLengthBinding(dsha: Hasher, s: seq<Digest>, t: seq<Digest>) returns (a: bytes, b: bytes)
    requires |s| == |t| && s != t && MerkleRoot(dsha, s) == MerkleRoot(dsha, t)
    ensures a != b && dsha(a) == dsha(b)
    ensures a in Preimages(dsha, Height(|s|), Leaves(s, Height(|s|)))
    ensures b in Preimages(dsha, Height(|s|), Leaves(t, Height(|s|)))
  {
    hide Preimages, Leaves, MerkleRoot;
    LeavesExtend(s);
    LeavesExtend(t);
    a, b := EqualHeightBinding(dsha, s, t);
  }

  // ----- what it does not bind -----

  /** CVE-2012-2459 in general: when the length is `2^k * m` with `m` odd and at least 3,
      repeating the last `2^k` transactions leaves the root unchanged. */
  lemma {:induction false} DuplicatedTailKeepsRoot(dsha: Hasher, s: seq<Digest>, k: nat, m: nat)
    requires m >= 3 && m % 2 == 1 && |s| == Pow(2, k) * m
    ensures |s| >= Pow(2, k)
    ensures MerkleRoot(dsha, s + s[|s| - Pow(2, k)..]) == MerkleRoot(dsha, s)
    decreases k
  {
    hide MerkleRoot, PairUp, Pow;
    if k == 0 {
      OddLength(m);
      OddTail(dsha, s);
    } else {
      EvenLength(k, m);
      var p := Pow(2, k - 1);
      PairUpTail(dsha, s, p);
      RootOfEven(dsha, s);
      RootOfEven(dsha, s + s[|s| - 2 * p..]);
      DuplicatedTailKeepsRoot(dsha, PairUp(dsha, s), k - 1, m);
    }
  }

  lemma OddLength(m: nat)
    ensures Pow(2, 0) == 1 && Pow(2, 0) * m == m
  {
  }

  lemma EvenLength(k: nat, m: nat)
    requires k > 0 && m > 0
    ensures var p := Pow(2, k - 1);
            && Pow(2, k) == 2 * p && (Pow(2, k) * m) % 2 == 0 && (Pow(2, k) * m) / 2 == p * m &&
               0 < 2 * p <= Pow(2, k) * m
  {
    var p := Pow(2, k - 1);
    HalveProduct(p, m);
    MulMonotone(1, m, 2 * p);
  }

  lemma OddTail(dsha: Hasher, s: seq<Digest>)
    requires |s| % 2 == 1 && |s| > 1
    ensures MerkleRoot(dsha, s + s[|s| - 1..]) == MerkleRoot(dsha, s)
  {
    assert s + s[|s| - 1..] == Evened(s);
    RootOfEven(dsha, Evened(s));
  }

  lemma RootOfEven(dsha: Hasher, s: seq<Digest>)
    requires s != [] && |s| % 2 == 0
    ensures MerkleRoot(dsha, s) == MerkleRoot(dsha, PairUp(dsha, s))
  {
  }

  /** Pairing keeps a repeated even tail a repeated tail. */
  lemma PairUpTail(dsha: Hasher, s: seq<Digest>, p: nat)
    requires |s| % 2 == 0 && 2 * p <= |s|
    ensures PairUp(dsha, s + s[|s| - 2 * p..]) == PairUp(dsha, s) + PairUp(dsha, s)[|s| / 2 - p..]
  {
    var tail := s[|s| - 2 * p..];
    PairUpConcat(dsha, s, tail);
    PairUpConcat(dsha, s[..|s| - 2 * p], tail);
    assert s == s[..|s| - 2 * p] + tail;
  }

  lemma HalveProduct(p: nat, m: nat)
    ensures (2 * p) * m == 2 * (p * m)
  {
  }

  lemma DoubledLeaf(dsha: Hasher, s: seq<Digest>)
    requires |s| == 1
    ensures MerkleRoot(dsha, s + s) == Node(dsha, MerkleRoot(dsha, s), MerkleRoot(dsha, s))
  {
    assert PairUp(dsha, s + s) == [Node(dsha, s[0], s[0])];
    RootOfEven(dsha, s + s);
  }

  /** Repeating the whole of a list whose length is a power of two hashes the old root with itself. */
  lemma {:induction false} RepeatedWholeDoublesRoot(dsha: Hasher, s: seq<Digest>, k: nat)
    requires |s| == Pow(2, k)
    ensures MerkleRoot(dsha, s + s) == Node(dsha, MerkleRoot(dsha, s), MerkleRoot(dsha, s))
    decreases k
  {
    hide MerkleRoot, PairUp;
    if k == 0 {
      DoubledLeaf(dsha, s);
    } else {
      RootOfEven(dsha, s);
      RootOfEven(dsha, s + s);
      PairUpConcat(dsha, s, s);
      RepeatedWholeDoublesRoot(dsha, PairUp(dsha, s), k - 1);
    }
  }

  /** For every length, written as `2^k * m` with `m` odd: repeating the last `2^k` transactions keeps
      the root exactly when `m` is at least 3, or the root hashed with itself gives itself. */
  lemma DuplicatedTailIff(dsha: Hasher, s: seq<Digest>, k: nat, m: nat)
    requires m % 2 == 1 && |s| == Pow(2, k) * m
    ensures |s| >= Pow(2, k)
    ensures var root := MerkleRoot(dsha, s);
            MerkleRoot(dsha, s + s[|s| - Pow(2, k)..]) == root <==> m >= 3 || Node(dsha, root, root) == root
  {
    hide MerkleRoot, Pow, Node;
    if m >= 3 {
      DuplicatedTailKeepsRoot(dsha, s, k, m);
    } else {
      RepeatedWholeDoublesRoot(dsha, s, k);
      assert s[0..] == s;
    }
  }
}
