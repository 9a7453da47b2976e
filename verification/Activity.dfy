/** Recent wallet activity: deltas summed per transaction, newest first, in an order that does
    not depend on how the hash map is walked. */
module Activity {
  import opened Machine
  import opened Text

  datatype Delta = Delta(txid: string, satoshis: i64, height: i64)

  datatype Line = Line(txid: string, netSats: i64, height: i64, incoming: bool)

  /** Per transaction: the running 64-bit net, and the greatest height seen. */
  type Nets = map<string, (i64, i64)>

  function AddDelta(nets: Nets, d: Delta): Nets {
    if d.txid !in nets then nets[d.txid := (Wrap64(d.satoshis), d.height)]
    else nets[d.txid := (Wrap64(nets[d.txid].0 + d.satoshis), Max(nets[d.txid].1, d.height))]
  }

  function Aggregate(nets: Nets, deltas: seq<Delta>): Nets
    decreases |deltas|
  {
    if deltas == [] then nets else Aggregate(AddDelta(nets, deltas[0]), deltas[1..])
  }

  method AggregateLoop(deltas: seq<Delta>) returns (nets: Nets)
    ensures nets == Aggregate(map[], deltas)
  {
    nets := map[];
    for i := 0 to |deltas|
      invariant Aggregate(nets, deltas[i..]) == Aggregate(map[], deltas)
    {
      assert deltas[i..][1..] == deltas[i + 1..];
      var d := deltas[i];
      var e: (i64, i64) := if d.txid in nets then nets[d.txid] else (0, d.height);
      e := (Wrap64(e.0 + d.satoshis), e.1);
      if d.height > e.1 {
        e := (e.0, d.height);
      }
      nets := nets[d.txid := e];
    }
  }

  // ----- what is summed -----

  /** The exact sum of a transaction's deltas. */
  function NetOf(deltas: seq<Delta>, txid: string): int {
    if deltas == [] then 0 else (if deltas[0].txid == txid then deltas[0].satoshis else 0) + NetOf(deltas[1..], txid)
  }

  predicate Mentions(deltas: seq<Delta>, txid: string) { exists i :: 0 <= i < |deltas| && deltas[i].txid == txid }

  predicate IsHeight(deltas: seq<Delta>, txid: string, h: i64) {
    && (exists i :: 0 <= i < |deltas| && deltas[i].txid == txid && deltas[i].height == h)
    && forall i :: 0 <= i < |deltas| && deltas[i].txid == txid ==> deltas[i].height <= h
  }

  lemma WrapAdd(a: int, b: int)
    ensures Wrap64(Wrap64(a) + b) == Wrap64(a + b)
  {
    var q := a / TWO_64;
    var r := if a % TWO_64 > I64_MAX then q + 1 else q;
    assert Wrap64(a) == a - TWO_64 * r;
    ModShift(a + b, r);
  }

  lemma ModShift(n: int, r: int)
    ensures (n - TWO_64 * r) % TWO_64 == n % TWO_64
  {
  }

  lemma WrapIsIdentity(a: int)
    ensures Wrap64(a) == a <==> I64_MIN <= a <= I64_MAX
  {
  }

  /** What the map holds when `seen` has been read. */
  ghost predicate Sums(seen: seq<Delta>, nets: Nets) {
    && (forall t :: t in nets <==> Mentions(seen, t))
    && forall t :: t in nets ==> nets[t].0 == Wrap64(NetOf(seen, t)) && IsHeight(seen, t, nets[t].1)
  }

  lemma {:induction false} NetOfSnoc(deltas: seq<Delta>, d: Delta, txid: string)
    ensures NetOf(deltas + [d], txid) == NetOf(deltas, txid) + (if d.txid == txid then d.satoshis else 0)
  {
    if deltas == [] {
      assert deltas + [d] == [d];
    } else {
      assert (deltas + [d])[1..] == deltas[1..] + [d];
      NetOfSnoc(deltas[1..], d, txid);
    }
  }

  lemma {:induction false} NetOfUnmentioned(deltas: seq<Delta>, txid: string)
    requires !Mentions(deltas, txid)
    ensures NetOf(deltas, txid) == 0
  {
    if deltas != [] {
      assert deltas[0].txid != txid;
      assert forall i :: 0 <= i < |deltas| - 1 ==> deltas[1..][i] == deltas[i + 1];
      NetOfUnmentioned(deltas[1..], txid);
    }
  }

  lemma SumsStep(seen: seq<Delta>, nets: Nets, d: Delta)
    requires Sums(seen, nets)
    ensures Sums(seen + [d], AddDelta(nets, d))
  {
    hide Wrap64, IsHeight;
    var after := AddDelta(nets, d);
    var all := seen + [d];
    assert forall i :: 0 <= i < |seen| ==> all[i] == seen[i];
    assert all[|seen|] == d;
    forall t ensures t in after <==> Mentions(all, t) {
      if Mentions(seen, t) {
        var i :| 0 <= i < |seen| && seen[i].txid == t;
        assert all[i].txid == t;
      }
    }
    forall t | t in after ensures after[t].0 == Wrap64(NetOf(all, t)) && IsHeight(all, t, after[t].1) {
      NetStep(seen, nets, d, t);
      HeightStep(seen, nets, d, t);
    }
  }

  lemma NetStep(seen: seq<Delta>, nets: Nets, d: Delta, t: string)
    requires Sums(seen, nets) && t in AddDelta(nets, d)
    ensures AddDelta(nets, d)[t].0 == Wrap64(NetOf(seen + [d], t))
  {
    hide Wrap64, IsHeight;
    NetOfSnoc(seen, d, t);
    if t in nets {
      WrapAdd(NetOf(seen, t), d.satoshis);
    } else {
      NetOfUnmentioned(seen, t);
    }
  }

  lemma HeightStep(seen: seq<Delta>, nets: Nets, d: Delta, t: string)
    requires Sums(seen, nets) && t in AddDelta(nets, d)
    ensures IsHeight(seen + [d], t, AddDelta(nets, d)[t].1)
  {
    hide Wrap64;
    var all := seen + [d];
    assert forall i :: 0 <= i < |seen| ==> all[i] == seen[i];
    assert all[|seen|] == d;
    if t in nets {
      var i :| 0 <= i < |seen| && seen[i].txid == t && seen[i].height == nets[t].1;
      assert all[i].height == nets[t].1;
    } else {
      assert !Mentions(seen, t);
    }
  }

  lemma {:induction false} AggregateSums(seen: seq<Delta>, nets: Nets, deltas: seq<Delta>)
    requires Sums(seen, nets)
    ensures Sums(seen + deltas, Aggregate(nets, deltas))
    decreases |deltas|
  {
    hide Sums, AddDelta;
    if deltas == [] {
      assert seen + deltas == seen;
    } else {
      SumsStep(seen, nets, deltas[0]);
      AggregateSums(seen + [deltas[0]], AddDelta(nets, deltas[0]), deltas[1..]);
      assert (seen + [deltas[0]]) + deltas[1..] == seen + deltas;
    }
  }

  // ----- lines, in order -----

  function LineOf(nets: Nets, txid: string): Line
    requires txid in nets
  {
    Line(txid, nets[txid].0, nets[txid].1, nets[txid].0 >= 0)
  }

  /** `order` is one walk of the map: every key once. */
  predicate Walks(order: seq<string>, nets: Nets) {
    && (forall i :: 0 <= i < |order| ==> order[i] in nets) && (forall t :: t in nets ==> t in order)
    && forall i, j :: 0 <= i < j < |order| ==> order[i] != order[j]
  }

  function Lines(nets: Nets, order: seq<string>): (l: seq<Line>)
    requires forall i :: 0 <= i < |order| ==> order[i] in nets
    ensures |l| == |order|
  {
    seq(|order|, i requires 0 <= i < |order| => LineOf(nets, order[i]))
  }

  /** Height 0 is the mempool and counts as newest. */
  function Age(l: Line): i64 { if l.height == 0 then I64_MAX else l.height }

  /** Newest first, then by transaction id. */
  predicate Before(a: Line, b: Line) { Age(a) > Age(b) || (Age(a) == Age(b) && Less(a.txid, b.txid)) }

  /** Any two lines of different transactions are strictly ordered, one way only. */
  lemma BeforeIsStrictTotalOrder(a: Line, b: Line, c: Line)
    ensures !Before(a, a)
    ensures a.txid != b.txid ==> (Before(a, b) <==> !Before(b, a))
    ensures Before(a, b) && Before(b, c) ==> Before(a, c)
  {
    LessTotal(a.txid, b.txid);
    if Less(a.txid, b.txid) && Less(b.txid, c.txid) {
      LessTransitive(a.txid, b.txid, c.txid);
    }
  }

  function InsertLine(l: Line, s: seq<Line>): seq<Line> {
    if s == [] || Before(l, s[0]) then [l] + s else [s[0]] + InsertLine(l, s[1..])
  }

  function SortLines(s: seq<Line>): seq<Line> {
    if s == [] then [] else InsertLine(s[0], SortLines(s[1..]))
  }

  /** All lines, sorted, before truncation. */
  function AllLines(deltas: seq<Delta>, order: seq<string>): seq<Line>
    requires Walks(order, Aggregate(map[], deltas))
  {
    SortLines(Lines(Aggregate(map[], deltas), order))
  }

  function Recent(deltas: seq<Delta>, order: seq<string>, limit: nat): seq<Line>
    requires Walks(order, Aggregate(map[], deltas))
  {
    var all := AllLines(deltas, order);
    all[..Min(limit, |all|)]
  }

  predicate Sorted(s: seq<Line>) { forall i, j :: 0 <= i < j < |s| ==> Before(s[i], s[j]) }

  predicate Distinct(s: seq<Line>) { forall i, j :: 0 <= i < j < |s| ==> s[i].txid != s[j].txid }

  lemma {:induction false} InsertLineFacts(l: Line, s: seq<Line>)
    requires Sorted(s) && forall x :: x in s ==> x.txid != l.txid
    ensures Sorted(InsertLine(l, s)) && |InsertLine(l, s)| == |s| + 1
    ensures forall x :: x in InsertLine(l, s) <==> x == l || x in s
  {
    if s == [] {
    } else if Before(l, s[0]) {
      forall x | x in s ensures Before(l, x) {
        BeforeIsStrictTotalOrder(l, s[0], x);
      }
      SortedCons(l, s);
    } else {
      InsertLineFacts(l, s[1..]);
      BeforeIsStrictTotalOrder(l, s[0], l);
      assert forall x :: x in s[1..] ==> Before(s[0], x);
      SortedCons(s[0], InsertLine(l, s[1..]));
    }
  }

  lemma SortedCons(l: Line, s: seq<Line>)
    requires Sorted(s) && forall x :: x in s ==> Before(l, x)
    ensures Sorted([l] + s)
  {
    hide Before;
  }

  lemma {:induction false} SortLinesFacts(s: seq<Line>)
    requires Distinct(s)
    ensures Sorted(SortLines(s)) && |SortLines(s)| == |s|
    ensures forall x :: x in SortLines(s) <==> x in s
  {
    hide Before;
    if s != [] {
      assert Distinct(s[1..]) by {
        assert forall i :: 0 <= i < |s| - 1 ==> s[1..][i] == s[i + 1];
      }
      SortLinesFacts(s[1..]);
      forall x | x in SortLines(s[1..]) ensures x.txid != s[0].txid {
        var i :| 0 <= i < |s[1..]| && s[1..][i] == x;
        assert s[i + 1] == x;
      }
      InsertLineFacts(s[0], SortLines(s[1..]));
    }
  }

  /** A strictly sorted list is determined by its members. */
  lemma {:induction false} SortedUnique(s: seq<Line>, t: seq<Line>)
    requires Sorted(s) && Sorted(t) && forall x :: x in s <==> x in t
    ensures s == t
  {
    if s == [] {
      HeadIsMember(t);
    } else {
      assert s[0] in t;
      assert t != [] && t[0] in s;
      SameHead(s, t);
      forall x ensures x in s[1..] <==> x in t[1..] {
        TailMembers(s, x);
        TailMembers(t, x);
      }
      SortedUnique(s[1..], t[1..]);
      assert s == [s[0]] + s[1..] && t == [t[0]] + t[1..];
    }
  }

  lemma HeadIsMember(t: seq<Line>)
    ensures t == [] || t[0] in t
  {
  }

  lemma SameHead(s: seq<Line>, t: seq<Line>)
    requires Sorted(s) && Sorted(t) && s != [] && t != [] && s[0] in t && t[0] in s
    ensures s[0] == t[0]
  {
    var i :| 0 <= i < |t| && t[i] == s[0];
    var j :| 0 <= j < |s| && s[j] == t[0];
    BeforeIsStrictTotalOrder(s[0], t[0], s[0]);
    hide Before;
  }

  lemma TailMembers(s: seq<Line>, x: Line)
    requires Sorted(s) && s != []
    ensures x in s[1..] <==> x in s && x != s[0]
  {
    BeforeIsStrictTotalOrder(x, x, x);
    hide Before;
    if x in s && x != s[0] {
      var i :| 0 <= i < |s| && s[i] == x;
      assert s[1..][i - 1] == x;
    }
  }

  lemma LinesFacts(nets: Nets, order: seq<string>)
    requires Walks(order, nets)
    ensures Distinct(Lines(nets, order))
    ensures forall l: Line :: l in Lines(nets, order) <==> l.txid in nets && l == LineOf(nets, l.txid)
  {
    forall l: Line | l.txid in nets && l == LineOf(nets, l.txid) ensures l in Lines(nets, order) {
      var i :| 0 <= i < |order| && order[i] == l.txid;
      assert Lines(nets, order)[i] == l;
    }
  }

  /** The answer does not depend on the order in which the hash map is walked. */
  lemma RecentIsDeterministic(deltas: seq<Delta>, order: seq<string>, order': seq<string>, limit: nat)
    requires Walks(order, Aggregate(map[], deltas)) && Walks(order', Aggregate(map[], deltas))
    ensures Recent(deltas, order, limit) == Recent(deltas, order', limit)
  {
    hide Sorted, Distinct;
    var nets := Aggregate(map[], deltas);
    LinesFacts(nets, order);
    LinesFacts(nets, order');
    SortLinesFacts(Lines(nets, order));
    SortLinesFacts(Lines(nets, order'));
    SortedUnique(SortLines(Lines(nets, order)), SortLines(Lines(nets, order')));
  }

  /** `parse_activity` after JSON: the map is walked in whatever order it likes, and the answer
      is the one that every order gives. */
  method ParseActivity(deltas: seq<Delta>, limit: nat) returns (out: seq<Line>)
    ensures forall order :: Walks(order, Aggregate(map[], deltas)) ==> out == Recent(deltas, order, limit)
  {
    hide Aggregate, LineOf, SortLines, Recent;
    var nets := AggregateLoop(deltas);
    var lines: seq<Line> := [];
    ghost var walked: seq<string> := [];
    var todo := nets.Keys;
    while todo != {}
      invariant todo <= nets.Keys && (forall t :: t in nets ==> t in todo || t in walked)
      invariant forall i :: 0 <= i < |walked| ==> walked[i] in nets && walked[i] !in todo
      invariant forall i, j :: 0 <= i < j < |walked| ==> walked[i] != walked[j]
      invariant lines == Lines(nets, walked)
      decreases |todo|
    {
      var t :| t in todo;
      todo := todo - {t};
      lines := lines + [LineOf(nets, t)];
      walked := walked + [t];
    }
    out := SortLines(lines);
    if |out| > limit {
      out := out[..limit];
    }
    assert out == Recent(deltas, walked, limit) by { RecentIs(deltas, walked, limit); }
    forall order | Walks(order, Aggregate(map[], deltas)) ensures out == Recent(deltas, order, limit) {
      RecentIsDeterministic(deltas, walked, order, limit);
    }
  }

  lemma RecentIs(deltas: seq<Delta>, order: seq<string>, limit: nat)
    requires Walks(order, Aggregate(map[], deltas))
    ensures var s := SortLines(Lines(Aggregate(map[], deltas), order));
            Recent(deltas, order, limit) == if |s| > limit then s[..limit] else s
  {
  }

  lemma AllLinesAre(deltas: seq<Delta>, order: seq<string>)
    requires Walks(order, Aggregate(map[], deltas))
    ensures var nets := Aggregate(map[], deltas);
            && Sums(deltas, nets) && Sorted(AllLines(deltas, order))
            && forall l: Line :: l in AllLines(deltas, order) <==> l.txid in nets && l == LineOf(nets, l.txid)
  {
    hide Before, IsHeight, Sorted, Distinct;
    var nets := Aggregate(map[], deltas);
    SumsOfNothing();
    AggregateSums([], map[], deltas);
    assert [] + deltas == deltas;
    LinesFacts(nets, order);
    SortLinesFacts(Lines(nets, order));
  }

  lemma SumsOfNothing()
    ensures Sums([], map[])
  {
  }

  /** Before truncation there is one line for each transaction mentioned, whose net is the
      wrapped sum of that transaction's deltas and whose height is their greatest; the lines
      are strictly sorted; and truncation keeps the first of them. */
  lemma RecentLines(deltas: seq<Delta>, order: seq<string>, limit: nat)
    requires Walks(order, Aggregate(map[], deltas))
    ensures var all := AllLines(deltas, order);
            && Sorted(all) && (forall t :: Mentions(deltas, t) <==> exists i :: 0 <= i < |all| && all[i].txid == t)
            && (forall i :: 0 <= i < |all| ==>
                  all[i].netSats == Wrap64(NetOf(deltas, all[i].txid)) &&
                  IsHeight(deltas, all[i].txid, all[i].height) &&
                  (all[i].incoming <==> all[i].netSats >= 0))
            && (forall i, j :: 0 <= i < j < |all| ==> all[i].txid != all[j].txid)
            && Recent(deltas, order, limit) <= all && |Recent(deltas, order, limit)| == Min(limit, |all|)
  {
    AllLinesAre(deltas, order);
    var nets := Aggregate(map[], deltas);
    var all := AllLines(deltas, order);
    hide Before, IsHeight, Walks, Aggregate, AllLines, Wrap64, NetOf, Mentions;
    forall t ensures Mentions(deltas, t) <==> exists i :: 0 <= i < |all| && all[i].txid == t {
      if t in nets {
        assert LineOf(nets, t) in all;
      }
    }
    forall i | 0 <= i < |all| ensures all[i].txid in nets && all[i] == LineOf(nets, all[i].txid) {
      assert all[i] in all;
    }
    forall i, j | 0 <= i < j < |all| ensures all[i].txid != all[j].txid {
      IrreflexiveLine(all[i], all[j]);
    }
  }

  lemma IrreflexiveLine(a: Line, b: Line)
    requires Before(a, b)
    ensures a != b
  {
    BeforeIsStrictTotalOrder(a, a, a);
  }

  // ----- nothing is lost in the sums -----

  function TotalDelta(deltas: seq<Delta>): int {
    if deltas == [] then 0 else deltas[0].satoshis + TotalDelta(deltas[1..])
  }

  function TotalNet(deltas: seq<Delta>, txids: seq<string>): int {
    if txids == [] then 0 else NetOf(deltas, txids[0]) + TotalNet(deltas, txids[1..])
  }

  lemma {:induction false} TotalNetCons(d: Delta, deltas: seq<Delta>, txids: seq<string>)
    requires forall i, j :: 0 <= i < j < |txids| ==> txids[i] != txids[j]
    ensures TotalNet([d] + deltas, txids) == TotalNet(deltas, txids) + (if d.txid in txids then d.satoshis else 0)
  {
    if txids != [] {
      assert ([d] + deltas)[1..] == deltas;
      TotalNetCons(d, deltas, txids[1..]);
      assert d.txid in txids <==> d.txid == txids[0] || d.txid in txids[1..];
      assert txids[0] !in txids[1..];
    }
  }

  /** The nets of all transactions add up to all deltas: each delta is counted once. */
  lemma {:induction false} NetsAddUp(deltas: seq<Delta>, txids: seq<string>)
    requires forall i, j :: 0 <= i < j < |txids| ==> txids[i] != txids[j]
    requires forall i :: 0 <= i < |deltas| ==> deltas[i].txid in txids
    ensures TotalNet(deltas, txids) == TotalDelta(deltas)
    decreases |deltas|
  {
    if deltas == [] {
      TotalNetOfNothing(txids);
    } else {
      assert deltas == [deltas[0]] + deltas[1..];
      TotalNetCons(deltas[0], deltas[1..], txids);
      NetsAddUp(deltas[1..], txids);
    }
  }

  lemma {:induction false} TotalNetOfNothing(txids: seq<string>)
    ensures TotalNet([], txids) == 0
  {
    if txids != [] {
      TotalNetOfNothing(txids[1..]);
    }
  }

  function TotalLines(lines: seq<Line>): int {
    if lines == [] then 0 else lines[0].netSats + TotalLines(lines[1..])
  }

  function Ids(lines: seq<Line>): (ids: seq<string>)
    ensures |ids| == |lines|
  {
    seq(|lines|, i requires 0 <= i < |lines| => lines[i].txid)
  }

  lemma {:induction false} LinesTotal(deltas: seq<Delta>, lines: seq<Line>)
    requires forall i :: 0 <= i < |lines| ==> lines[i].netSats == Wrap64(NetOf(deltas, lines[i].txid))
    ensures (TotalLines(lines) - TotalNet(deltas, Ids(lines))) % TWO_64 == 0
    ensures (forall i :: 0 <= i < |lines| ==> I64_MIN <= NetOf(deltas, lines[i].txid) <= I64_MAX) ==>
              TotalLines(lines) == TotalNet(deltas, Ids(lines))
  {
    hide NetOf;
    if lines != [] {
      var rest := lines[1..];
      assert Ids(lines)[1..] == Ids(rest);
      assert forall i :: 0 <= i < |rest| ==> rest[i] == lines[i + 1];
      LinesTotal(deltas, rest);
      WrapIsIdentity(NetOf(deltas, lines[0].txid));
    }
  }

  /** Every line's net is the exact sum of its deltas exactly when no such sum leaves 64 bits. */
  lemma NetsAreExactIff(deltas: seq<Delta>, order: seq<string>)
    requires Walks(order, Aggregate(map[], deltas))
    ensures var all := AllLines(deltas, order);
            (forall i :: 0 <= i < |all| ==> all[i].netSats == NetOf(deltas, all[i].txid)) <==>
            (forall t :: I64_MIN <= NetOf(deltas, t) <= I64_MAX)
  {
    var all := AllLines(deltas, order);
    RecentLines(deltas, order, 0);
    hide AllLines, Walks, Aggregate, NetOf, Mentions, Before, IsHeight, Sorted, Wrap64;
    forall i | 0 <= i < |all|
      ensures all[i].netSats == NetOf(deltas, all[i].txid) <==> I64_MIN <= NetOf(deltas, all[i].txid) <= I64_MAX
    {
      WrapIsIdentity(NetOf(deltas, all[i].txid));
    }
    forall t ensures I64_MIN <= NetOf(deltas, t) <= I64_MAX || exists i :: 0 <= i < |all| && all[i].txid == t {
      if !Mentions(deltas, t) {
        NetOfUnmentioned(deltas, t);
      }
    }
  }

  /** All lines before truncation add up to all deltas modulo 2^64, and exactly if no net leaves
      64 bits (if some do, what they lose may still cancel). */
  lemma LinesAddUp(deltas: seq<Delta>, order: seq<string>)
    requires Walks(order, Aggregate(map[], deltas))
    ensures (TotalLines(AllLines(deltas, order)) - TotalDelta(deltas)) % TWO_64 == 0
    ensures (forall t :: I64_MIN <= NetOf(deltas, t) <= I64_MAX) ==>
            TotalLines(AllLines(deltas, order)) == TotalDelta(deltas)
  {
    var all := AllLines(deltas, order);
    RecentLines(deltas, order, 0);
    hide AllLines, Walks, Aggregate, NetOf, Before, IsHeight, Sorted, TotalLines, TotalDelta, TotalNet, Wrap64;
    LinesTotal(deltas, all);
    forall i | 0 <= i < |deltas| ensures deltas[i].txid in Ids(all) {
      assert Mentions(deltas, deltas[i].txid);
      var k :| 0 <= k < |all| && all[k].txid == deltas[i].txid;
      assert Ids(all)[k] == deltas[i].txid;
    }
    NetsAddUp(deltas, Ids(all));
  }

  /** Newest first: entries of height 0, which are not yet in a block, and those of the greatest height
      a field can hold come before the rest, which descend; entries of one age go by their id. */
  lemma NewestFirst(deltas: seq<Delta>, order: seq<string>, i: nat, j: nat)
    requires Walks(order, Aggregate(map[], deltas)) && i < j < |AllLines(deltas, order)|
    ensures var a, b := AllLines(deltas, order)[i], AllLines(deltas, order)[j];
            || (a.height == 0 && b.height != 0 && b.height != I64_MAX)
            || (a.height != 0 && b.height != 0 && a.height > b.height)
            || ((a.height == b.height || {a.height, b.height} == {0, I64_MAX}) && Less(a.txid, b.txid))
  {
    AllLinesAre(deltas, order);
    hide AllLines, Less, Walks, Aggregate;
    var a, b := AllLines(deltas, order)[i], AllLines(deltas, order)[j];
    assert Before(a, b);
  }
}
