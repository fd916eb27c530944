/**
  Positions: an OPEN is placed at p when it takes effect after the p-th update of the writer's sequence and before
  the next one. Legal position assignments and linearizations of a history are two views of the same thing.
 */
module Positions {
  import opened Sequences
  import opened History
  import opened Linearizability

  /** The single writer's updates follow one another in real time. */
  ghost predicate Sequential(u: seq<Operation>) {
    && (forall i :: 0 <= i < |u| ==> u[i].IsUpdate() && u[i].invoke < u[i].response)
    && (forall i, j :: 0 <= i < j < |u| ==> Precedes(u[i], u[j]))
  }

  /** The content of the register at position p. */
  function StateAt(u: seq<Operation>, p: nat): State
    requires p <= |u|
  {
    if p == 0 then Absent else u[p - 1].Published()
  }

  /** How many updates had returned before time t. */
  function CompletedBefore(u: seq<Operation>, t: int): (n: nat)
    ensures n <= |u|
  {
    if u == [] then 0
    else CompletedBefore(u[..|u| - 1], t) + if u[|u| - 1].response < t then 1 else 0
  }

  /** How many updates had been invoked before time t. */
  function InvokedBefore(u: seq<Operation>, t: int): (n: nat)
    ensures n <= |u|
  {
    if u == [] then 0
    else InvokedBefore(u[..|u| - 1], t) + if u[|u| - 1].invoke < t then 1 else 0
  }

  /** Position p places read within its interval, at a point where the register held the state it saw. */
  predicate Placed(u: seq<Operation>, read: Operation, p: nat) {
    CompletedBefore(u, read.invoke) <= p <= InvokedBefore(u, read.response) && StateAt(u, p) == read.state
  }

  ghost predicate Monotone(opens: seq<Operation>, pos: seq<nat>) {
    && |pos| <= |opens|
    && forall i, j :: 0 <= i < |pos| && 0 <= j < |pos| && Precedes(opens[i], opens[j]) ==> pos[i] <= pos[j]
  }

  ghost predicate Legal(u: seq<Operation>, opens: seq<Operation>, pos: seq<nat>) {
    && |pos| == |opens|
    && (forall k :: 0 <= k < |pos| ==> Placed(u, opens[k], pos[k]))
    && Monotone(opens, pos)
  }

  /** Over sequential updates the plain counts are thresholds. */
  lemma {:induction false} CountsAreThresholds(u: seq<Operation>, t: int, i: nat)
    requires Sequential(u) && i < |u|
    ensures i < CompletedBefore(u, t) <==> u[i].response < t
    ensures i < InvokedBefore(u, t) <==> u[i].invoke < t
  {
    var m := |u| - 1;
    if i < m {
      CountsAreThresholds(u[..m], t, i);
      assert Precedes(u[i], u[m]);
      if CompletedBefore(u[..m], t) < m || InvokedBefore(u[..m], t) < m {
        CountsAreThresholds(u[..m], t, m - 1);
        assert Precedes(u[m - 1], u[m]);
      }
    } else if m > 0 {
      CountsAreThresholds(u[..m], t, m - 1);
      assert Precedes(u[m - 1], u[m]);
    }
  }

  // ---------- From a legal assignment to a linearization ----------

  /** The opens placed at p, in their given order. */
  function ReadsAt(opens: seq<Operation>, pos: seq<nat>, p: nat): seq<Operation>
    requires |pos| == |opens|
  {
    if opens == [] then []
    else
      var m := |opens| - 1;
      ReadsAt(opens[..m], pos[..m], p) + if pos[m] == p then [opens[m]] else []
  }

  /** The order of all operations up to position p: each update followed by the opens placed at it. */
  function Weave(u: seq<Operation>, opens: seq<Operation>, pos: seq<nat>, p: nat): seq<Operation>
    requires |pos| == |opens| && p <= |u|
  {
    if p == 0 then ReadsAt(opens, pos, 0)
    else Weave(u, opens, pos, p - 1) + [u[p - 1]] + ReadsAt(opens, pos, p)
  }

  /** The reads placed at p or below. */
  ghost function BagUpTo(opens: seq<Operation>, pos: seq<nat>, p: int): multiset<Operation>
    requires |pos| == |opens|
  {
    if opens == [] then multiset{}
    else
      var m := |opens| - 1;
      BagUpTo(opens[..m], pos[..m], p) + if pos[m] <= p then multiset{opens[m]} else multiset{}
  }

  lemma {:induction false} BagUpToStep(opens: seq<Operation>, pos: seq<nat>, p: nat)
    requires |pos| == |opens|
    ensures BagUpTo(opens, pos, p) == BagUpTo(opens, pos, p - 1) + multiset(ReadsAt(opens, pos, p))
  {
    if opens != [] {
      var m := |opens| - 1;
      BagUpToStep(opens[..m], pos[..m], p);
    }
  }

  lemma {:induction false} BagUpToNone(opens: seq<Operation>, pos: seq<nat>)
    requires |pos| == |opens|
    ensures BagUpTo(opens, pos, -1) == multiset{}
  {
    if opens != [] {
      BagUpToNone(opens[..|opens| - 1], pos[..|opens| - 1]);
    }
  }

  lemma {:induction false} BagUpToAll(opens: seq<Operation>, pos: seq<nat>, p: nat)
    requires |pos| == |opens| && forall k :: 0 <= k < |pos| ==> pos[k] <= p
    ensures BagUpTo(opens, pos, p) == multiset(opens)
  {
    if opens != [] {
      var m := |opens| - 1;
      BagUpToAll(opens[..m], pos[..m], p);
      assert opens == opens[..m] + [opens[m]];
    }
  }

  lemma {:induction false} ReadsAtMembers(opens: seq<Operation>, pos: seq<nat>, p: nat)
    requires |pos| == |opens|
    ensures forall x :: x in ReadsAt(opens, pos, p) ==> exists k :: 0 <= k < |opens| && x == opens[k] && pos[k] == p
  {
    if opens != [] {
      var m := |opens| - 1;
      ReadsAtMembers(opens[..m], pos[..m], p);
      forall x | x in ReadsAt(opens, pos, p)
        ensures exists k :: 0 <= k < |opens| && x == opens[k] && pos[k] == p
      {
        if x in ReadsAt(opens[..m], pos[..m], p) {
          var k :| 0 <= k < m && x == opens[..m][k] && pos[..m][k] == p;
          assert x == opens[k] && pos[k] == p;
        } else {
          assert x == opens[m] && pos[m] == p;
        }
      }
    }
  }

  ghost predicate SortedByInvoke(opens: seq<Operation>) {
    forall i, j :: 0 <= i < j < |opens| ==> opens[i].invoke <= opens[j].invoke
  }

  lemma {:induction false} ReadsAtInOrder(opens: seq<Operation>, pos: seq<nat>, p: nat)
    requires |pos| == |opens| && SortedByInvoke(opens)
    requires forall k :: 0 <= k < |opens| ==> opens[k].invoke < opens[k].response
    ensures RespectsRealTime(ReadsAt(opens, pos, p))
  {
    if opens != [] {
      var m := |opens| - 1;
      ReadsAtInOrder(opens[..m], pos[..m], p);
      ReadsAtMembers(opens[..m], pos[..m], p);
      var earlier := ReadsAt(opens[..m], pos[..m], p);
      forall i | 0 <= i < |earlier| ensures !Precedes(opens[m], earlier[i]) {
        assert earlier[i] in earlier;
        var k :| 0 <= k < m && earlier[i] == opens[..m][k];
        assert opens[k].invoke <= opens[m].invoke;
      }
    }
  }

  /** Where the operations of a weave come from. */
  ghost predicate FromBlocks(u: seq<Operation>, opens: seq<Operation>, pos: seq<nat>, p: nat, x: Operation) {
    && |pos| == |opens| && p <= |u|
    && (
      || (exists i :: 0 <= i < p && x == u[i])
      || (exists k :: 0 <= k < |opens| && x == opens[k] && pos[k] <= p)
    )
  }

  lemma {:induction false} WeaveMembers(u: seq<Operation>, opens: seq<Operation>, pos: seq<nat>, p: nat)
    requires |pos| == |opens| && p <= |u|
    ensures forall x :: x in Weave(u, opens, pos, p) ==> FromBlocks(u, opens, pos, p, x)
  {
    ReadsAtMembers(opens, pos, p);
    if p > 0 {
      WeaveMembers(u, opens, pos, p - 1);
      forall x | x in Weave(u, opens, pos, p - 1) ensures FromBlocks(u, opens, pos, p, x) {
        assert FromBlocks(u, opens, pos, p - 1, x);
      }
    }
  }

  /** A weave up to p holds the first p updates and the reads placed at p or below, each as often as given. */
  ghost predicate WeaveHoldsAll(u: seq<Operation>, opens: seq<Operation>, pos: seq<nat>, p: nat) {
    && |pos| == |opens| && p <= |u|
    && multiset(Weave(u, opens, pos, p)) == multiset(u[..p]) + BagUpTo(opens, pos, p)
  }

  lemma {:induction false} WeaveBag(u: seq<Operation>, opens: seq<Operation>, pos: seq<nat>, p: nat)
    requires |pos| == |opens| && p <= |u|
    ensures WeaveHoldsAll(u, opens, pos, p)
  {
    hide WeaveHoldsAll;
    if p == 0 {
      WeaveBagStart(u, opens, pos);
    } else {
      WeaveBag(u, opens, pos, p - 1);
      WeaveBagStep(u, opens, pos, p);
    }
  }

  lemma WeaveBagStart(u: seq<Operation>, opens: seq<Operation>, pos: seq<nat>)
    requires |pos| == |opens|
    ensures WeaveHoldsAll(u, opens, pos, 0)
  {
    BagUpToStep(opens, pos, 0);
    BagUpToNone(opens, pos);
    assert u[..0] == [];
  }

  lemma WeaveBagStep(u: seq<Operation>, opens: seq<Operation>, pos: seq<nat>, p: nat)
    requires |pos| == |opens| && 0 < p <= |u| && WeaveHoldsAll(u, opens, pos, p - 1)
    ensures WeaveHoldsAll(u, opens, pos, p)
  {
    hide ReadsAt, BagUpTo;
    BagUpToStep(opens, pos, p);
    assert u[..p] == u[..p - 1] + [u[p - 1]];
    var woven, block := Weave(u, opens, pos, p - 1), ReadsAt(opens, pos, p);
    assert multiset(woven + [u[p - 1]] + block) == multiset(woven) + multiset{u[p - 1]} + multiset(block);
    assert multiset(u[..p]) == multiset(u[..p - 1]) + multiset{u[p - 1]};
    Regroup(multiset(u[..p - 1]), BagUpTo(opens, pos, p - 1), multiset{u[p - 1]}, multiset(block));
  }

  lemma Regroup(a: multiset<Operation>, b: multiset<Operation>, c: multiset<Operation>, d: multiset<Operation>)
    ensures a + b + c + d == (a + c) + (b + d)
  {
  }

  lemma JoinRespectsRealTime(a: seq<Operation>, b: seq<Operation>)
    requires RespectsRealTime(a) && RespectsRealTime(b)
    requires forall x, y :: x in a && y in b ==> !Precedes(y, x)
    ensures RespectsRealTime(a + b)
  {
    var all := a + b;
    forall i, j | 0 <= i < j < |all| ensures !Precedes(all[j], all[i]) {
      if i < |a| <= j {
        assert all[i] in a && all[j] in b;
      }
    }
  }

  lemma LoneRespectsRealTime(op: Operation)
    ensures RespectsRealTime([op])
  {
  }

  lemma WovenBeforeUpdate(u: seq<Operation>, opens: seq<Operation>, pos: seq<nat>, p: nat)
    requires Sequential(u) && Legal(u, opens, pos) && p < |u|
    ensures forall x :: x in Weave(u, opens, pos, p) ==> !Precedes(u[p], x)
  {
    hide Sequential, Placed, Monotone, FromBlocks, Weave;
    forall x | x in Weave(u, opens, pos, p) ensures !Precedes(u[p], x) {
      WeaveMembers(u, opens, pos, p);
      BlockPrecedence(u, opens, pos, p, x);
    }
  }

  lemma WovenBeforeReads(u: seq<Operation>, opens: seq<Operation>, pos: seq<nat>, p: nat,
                         before: seq<Operation>)
    requires Sequential(u) && Legal(u, opens, pos) && 0 < p <= |u|
    requires before == Weave(u, opens, pos, p - 1) + [u[p - 1]]
    ensures forall x, y :: x in before && y in ReadsAt(opens, pos, p) ==> !Precedes(y, x)
  {
    hide Sequential, Placed, Monotone, Weave, ReadsAt;
    forall x, y | x in before && y in ReadsAt(opens, pos, p) ensures !Precedes(y, x) {
      BlockAfter(u, opens, pos, p, x, y);
    }
  }

  lemma {:induction false} WeaveRespectsRealTime(u: seq<Operation>, opens: seq<Operation>, pos: seq<nat>, p: nat)
    requires Sequential(u) && Legal(u, opens, pos) && SortedByInvoke(opens) && p <= |u|
    requires forall k :: 0 <= k < |opens| ==> opens[k].invoke < opens[k].response
    ensures RespectsRealTime(Weave(u, opens, pos, p))
  {
    hide RespectsRealTime, Precedes, Sequential, Legal, ReadsAt, SortedByInvoke;
    assert |pos| == |opens| by { SameLengths(u, opens, pos); }
    ReadsAtInOrder(opens, pos, p);
    if p > 0 {
      var before := Weave(u, opens, pos, p - 1);
      WeaveRespectsRealTime(u, opens, pos, p - 1);
      WovenBeforeUpdate(u, opens, pos, p - 1);
      LoneRespectsRealTime(u[p - 1]);
      JoinRespectsRealTime(before, [u[p - 1]]);
      WovenBeforeReads(u, opens, pos, p, before + [u[p - 1]]);
      JoinRespectsRealTime(before + [u[p - 1]], ReadsAt(opens, pos, p));
    }
  }

  lemma SameLengths(u: seq<Operation>, opens: seq<Operation>, pos: seq<nat>)
    ensures Legal(u, opens, pos) ==> |pos| == |opens|
  {
  }

  lemma IndexOfPlaced(opens: seq<Operation>, pos: seq<nat>, p: nat, y: Operation) returns (k: nat)
    requires |pos| == |opens| && y in ReadsAt(opens, pos, p)
    ensures k < |opens| && y == opens[k] && pos[k] == p
  {
    ReadsAtMembers(opens, pos, p);
    k :| 0 <= k < |opens| && y == opens[k] && pos[k] == p;
  }

  /** A read placed at p does not precede what the weave puts before it. */
  lemma BlockAfter(u: seq<Operation>, opens: seq<Operation>, pos: seq<nat>, p: nat,
                   x: Operation, y: Operation)
    requires Sequential(u) && Legal(u, opens, pos) && 0 < p <= |u|
    requires x in Weave(u, opens, pos, p - 1) || x == u[p - 1]
    requires y in ReadsAt(opens, pos, p)
    ensures !Precedes(y, x)
  {
    hide Sequential, FromBlocks, Placed, Weave, ReadsAt;
    var k := IndexOfPlaced(opens, pos, p, y);
    if x in Weave(u, opens, pos, p - 1) {
      WeaveMembers(u, opens, pos, p - 1);
      BlockPrecedence(u, opens, pos, p - 1, x);
    } else {
      CountsAreThresholds(u, opens[k].response, p - 1);
      PlacedBounds(u, opens, pos, k);
    }
  }

  lemma PlacedBounds(u: seq<Operation>, opens: seq<Operation>, pos: seq<nat>, k: nat)
    requires Legal(u, opens, pos) && k < |opens|
    ensures CompletedBefore(u, opens[k].invoke) <= pos[k] <= InvokedBefore(u, opens[k].response)
  {
    assert Placed(u, opens[k], pos[k]);
  }

  /** Nothing in the first p blocks is preceded by the next update or by a read placed beyond p. */
  lemma BlockPrecedence(u: seq<Operation>, opens: seq<Operation>, pos: seq<nat>, p: nat, x: Operation)
    requires Sequential(u) && Legal(u, opens, pos) && p < |u|
    requires FromBlocks(u, opens, pos, p, x)
    ensures !Precedes(u[p], x)
    ensures forall k :: 0 <= k < |opens| && pos[k] > p ==> !Precedes(opens[k], x)
  {
    if i :| 0 <= i < p && x == u[i] {
      assert Precedes(u[i], u[p]);
      forall k | 0 <= k < |opens| && pos[k] > p ensures !Precedes(opens[k], x) {
        CountsAreThresholds(u, opens[k].response, i);
      }
    } else {
      var k :| 0 <= k < |opens| && x == opens[k] && pos[k] <= p;
      CountsAreThresholds(u, opens[k].invoke, p);
    }
  }

  ghost predicate AllSaw(block: seq<Operation>, state: State) {
    forall j :: 0 <= j < |block| ==> block[j].kind.Open? && block[j].state == state
  }

  lemma JoinReads(a: seq<Operation>, block: seq<Operation>)
    requires ReadsLastWrite(a) && AllSaw(block, RegisterAfter(a))
    ensures ReadsLastWrite(a + block)
    ensures RegisterAfter(a + block) == RegisterAfter(a)
  {
    var all := a + block;
    RegisterUnread(a, block);
    forall i | 0 <= i < |all| && all[i].kind.Open? ensures all[i].state == RegisterAfter(all[..i]) {
      if i < |a| {
        assert all[..i] == a[..i];
      } else {
        assert all[..i] == a + block[..i - |a|];
        RegisterUnread(a, block[..i - |a|]);
      }
    }
  }

  lemma JoinUpdate(a: seq<Operation>, update: Operation)
    requires ReadsLastWrite(a) && update.IsUpdate()
    ensures ReadsLastWrite(a + [update])
    ensures RegisterAfter(a + [update]) == update.Published()
  {
    var all := a + [update];
    forall i | 0 <= i < |all| && all[i].kind.Open? ensures all[i].state == RegisterAfter(all[..i]) {
      assert all[..i] == a[..i];
    }
  }

  lemma {:induction false} WeaveReadsLastWrite(u: seq<Operation>, opens: seq<Operation>, pos: seq<nat>, p: nat)
    requires Sequential(u) && Legal(u, opens, pos) && p <= |u|
    requires forall k :: 0 <= k < |opens| ==> opens[k].kind.Open?
    ensures ReadsLastWrite(Weave(u, opens, pos, p))
    ensures RegisterAfter(Weave(u, opens, pos, p)) == StateAt(u, p)
  {
    BlockSawState(u, opens, pos, p);
    if p == 0 {
      JoinReads([], ReadsAt(opens, pos, 0));
      assert [] + ReadsAt(opens, pos, 0) == ReadsAt(opens, pos, 0);
    } else {
      WeaveReadsLastWrite(u, opens, pos, p - 1);
      JoinUpdate(Weave(u, opens, pos, p - 1), u[p - 1]);
      JoinReads(Weave(u, opens, pos, p - 1) + [u[p - 1]], ReadsAt(opens, pos, p));
    }
  }

  lemma BlockSawState(u: seq<Operation>, opens: seq<Operation>, pos: seq<nat>, p: nat)
    requires Legal(u, opens, pos) && p <= |u|
    requires forall k :: 0 <= k < |opens| ==> opens[k].kind.Open?
    ensures AllSaw(ReadsAt(opens, pos, p), StateAt(u, p))
  {
    var block := ReadsAt(opens, pos, p);
    ReadsAtMembers(opens, pos, p);
    forall j | 0 <= j < |block| ensures block[j].kind.Open? && block[j].state == StateAt(u, p) {
      assert block[j] in block;
    }
  }

  lemma JoinTies(a: seq<Operation>, b: seq<Operation>)
    requires KeepsTies(a) && KeepsTies(b)
    requires forall x, y :: x in a && y in b && x.IsUpdate() && y.kind.Open? ==> x.invoke != y.response
    ensures KeepsTies(a + b)
  {
    var all := a + b;
    forall i, j | 0 <= i < j < |all| && all[i].IsUpdate() && all[j].kind.Open?
      ensures all[i].invoke != all[j].response
    {
      if i < |a| <= j {
        assert all[i] in a && all[j] in b;
      }
    }
  }

  lemma NoTiesAlone(block: seq<Operation>)
    requires (forall i :: 0 <= i < |block| ==> !block[i].IsUpdate()) || |block| == 1
    ensures KeepsTies(block)
  {
  }

  lemma {:induction false} WeaveKeepsTies(u: seq<Operation>, opens: seq<Operation>, pos: seq<nat>, p: nat)
    requires Sequential(u) && Legal(u, opens, pos) && p <= |u|
    requires forall k :: 0 <= k < |opens| ==> opens[k].kind.Open?
    ensures KeepsTies(Weave(u, opens, pos, p))
  {
    hide KeepsTies, FromBlocks, Sequential, Placed;
    var block := ReadsAt(opens, pos, p);
    BlockSawState(u, opens, pos, p);
    NoTiesAlone(block);
    if p > 0 {
      var before := Weave(u, opens, pos, p - 1);
      WeaveKeepsTies(u, opens, pos, p - 1);
      NoTiesAlone([u[p - 1]]);
      assert u[p - 1].IsUpdate() by { UpdateAt(u, p - 1); }
      JoinTies(before, [u[p - 1]]);
      forall x, y | x in before + [u[p - 1]] && y in block && x.IsUpdate() && y.kind.Open?
        ensures x.invoke != y.response
      {
        InvokedBeforeBlock(u, opens, pos, p, x, y);
      }
      JoinTies(before + [u[p - 1]], block);
    }
  }

  lemma UpdateAt(u: seq<Operation>, i: nat)
    requires Sequential(u) && i < |u|
    ensures u[i].IsUpdate()
  {
  }

  /** The updates woven before a read had been invoked strictly before it returned. */
  lemma InvokedBeforeBlock(u: seq<Operation>, opens: seq<Operation>, pos: seq<nat>, p: nat,
                           x: Operation, y: Operation)
    requires Sequential(u) && Legal(u, opens, pos) && 0 < p <= |u|
    requires forall k :: 0 <= k < |opens| ==> opens[k].kind.Open?
    requires x in Weave(u, opens, pos, p - 1) || x == u[p - 1]
    requires x.IsUpdate() && y in ReadsAt(opens, pos, p)
    ensures x.invoke < y.response
  {
    hide Sequential, Placed, Weave, ReadsAt;
    var k := IndexOfPlaced(opens, pos, p, y);
    PlacedBounds(u, opens, pos, k);
    WeaveMembers(u, opens, pos, p - 1);
    assert FromBlocks(u, opens, pos, p - 1, x) || x == u[p - 1];
    var i :| 0 <= i < p && x == u[i];
    CountsAreThresholds(u, y.response, i);
  }

  /**
    Soundness: a legal assignment gives a total order of all operations that is a linearization, and keeps ties.
   */
  lemma {:induction false} LegalGivesLinearization(ops: seq<Operation>, u: seq<Operation>, opens: seq<Operation>,
                                                   pos: seq<nat>)
    requires multiset(ops) == multiset(u + opens)
    requires Sequential(u) && SortedByInvoke(opens) && Legal(u, opens, pos)
    requires forall k :: 0 <= k < |opens| ==> opens[k].kind.Open? && opens[k].invoke < opens[k].response
    ensures IsStrictLinearization(ops, Weave(u, opens, pos, |u|))
  {
    var order := Weave(u, opens, pos, |u|);
    WeaveBag(u, opens, pos, |u|);
    BagUpToAll(opens, pos, |u|);
    assert u[..|u|] == u;
    WeaveRespectsRealTime(u, opens, pos, |u|);
    WeaveReadsLastWrite(u, opens, pos, |u|);
    WeaveKeepsTies(u, opens, pos, |u|);
  }

  // ---------- From a linearization to a legal assignment ----------

  /** Sequential updates can be arranged in one way only without breaking real-time order. */
  lemma {:induction false} OnlyOneWriterOrder(u: seq<Operation>, v: seq<Operation>)
    requires Sequential(u) && multiset(u) == multiset(v) && RespectsRealTime(v)
    ensures u == v
  {
    assert |u| == |multiset(u)| == |v|;
    if u != [] {
      SameFirst(u, v);
      assert u == [u[0]] + u[1..] && v == [v[0]] + v[1..];
      SameTails(u, v);
      OnlyOneWriterOrder(u[1..], v[1..]);
    }
  }

  lemma SameFirst(u: seq<Operation>, v: seq<Operation>)
    requires Sequential(u) && multiset(u) == multiset(v) && RespectsRealTime(v) && |u| > 0 && |v| > 0
    ensures u[0] == v[0]
  {
    assert v[0] in multiset(u);
    assert v[0] in u;
    assert u[0] in multiset(v);
    assert u[0] in v;
    var k :| 0 <= k < |u| && u[k] == v[0];
    var m :| 0 <= m < |v| && v[m] == u[0];
    assert k > 0 ==> Precedes(u[0], u[k]);
    assert m > 0 ==> !Precedes(v[m], v[0]);
  }

  lemma {:induction false} UpdatesKeepRealTime(order: seq<Operation>)
    requires RespectsRealTime(order)
    ensures RespectsRealTime(Updates(order))
  {
    if order != [] {
      var m := |order| - 1;
      UpdatesKeepRealTime(order[..m]);
      var earlier := Updates(order[..m]);
      forall i | 0 <= i < |earlier| ensures !Precedes(order[m], earlier[i]) {
        assert earlier[i] in earlier;
        PartsOf(order[..m], earlier[i]);
        var k :| 0 <= k < m && order[..m][k] == earlier[i];
        assert order[k] == earlier[i];
      }
    }
  }

  /** The place a linearization gives to its i-th operation: how many updates it puts before it. */
  ghost function PlaceOf(order: seq<Operation>, i: nat): nat
    requires i <= |order|
  {
    |Updates(order[..i])|
  }

  lemma PrefixUpdates(u: seq<Operation>, order: seq<Operation>, i: nat)
    requires Updates(order) == u && i <= |order|
    ensures PlaceOf(order, i) <= |u| && Updates(order[..i]) == u[..PlaceOf(order, i)]
  {
    assert order == order[..i] + order[i..];
    UpdatesAppend(order[..i], order[i..]);
  }

  /** An update comes before the i-th operation of the linearization exactly when its number is below PlaceOf. */
  lemma BeforeIffCounted(u: seq<Operation>, order: seq<Operation>, i: nat, m: nat)
    requires Sequential(u) && Updates(order) == u && i <= |order| && m < |u|
    ensures m < PlaceOf(order, i) <==> u[m] in order[..i]
  {
    PrefixUpdates(u, order, i);
    PartsOf(order[..i], u[m]);
    var c := PlaceOf(order, i);
    if m < c {
      assert u[m] == u[..c][m];
    } else {
      forall k | 0 <= k < c ensures u[k] != u[m] {
        assert Precedes(u[k], u[m]);
      }
    }
  }

  lemma {:induction false} PlaceIsLegal(u: seq<Operation>, order: seq<Operation>, i: nat)
    requires Sequential(u) && Updates(order) == u && RespectsRealTime(order) && ReadsLastWrite(order)
    requires KeepsTies(order) && i < |order| && order[i].kind.Open?
    ensures Placed(u, order[i], PlaceOf(order, i))
  {
    StateOfPlace(u, order, i);
    PlaceAboveLower(u, order, i);
    PlaceBelowUpper(u, order, i);
  }

  lemma StateOfPlace(u: seq<Operation>, order: seq<Operation>, i: nat)
    requires Updates(order) == u && i <= |order|
    ensures PlaceOf(order, i) <= |u| && RegisterAfter(order[..i]) == StateAt(u, PlaceOf(order, i))
  {
    PrefixUpdates(u, order, i);
    RegisterFromUpdates(order[..i]);
  }

  lemma PlaceAboveLower(u: seq<Operation>, order: seq<Operation>, i: nat)
    requires Sequential(u) && Updates(order) == u && RespectsRealTime(order)
    requires i < |order| && order[i].kind.Open?
    ensures CompletedBefore(u, order[i].invoke) <= PlaceOf(order, i)
  {
    hide Sequential, Updates, CompletedBefore, PlaceOf;
    var c := PlaceOf(order, i);
    PrefixUpdates(u, order, i);
    if c < |u| {
      PartsOf(order, u[c]);
      assert u[c] in u;
      var j :| 0 <= j < |order| && order[j] == u[c];
      assert j < i ==> order[..i][j] == u[c];
      BeforeIffCounted(u, order, i, c);
      assert !Precedes(u[c], order[i]);
      CountsAreThresholds(u, order[i].invoke, c);
    }
  }

  lemma PlaceBelowUpper(u: seq<Operation>, order: seq<Operation>, i: nat)
    requires Sequential(u) && Updates(order) == u && RespectsRealTime(order)
    requires KeepsTies(order) && i < |order| && order[i].kind.Open?
    ensures PlaceOf(order, i) <= InvokedBefore(u, order[i].response)
  {
    hide Sequential, RespectsRealTime, KeepsTies, Updates, InvokedBefore, PlaceOf;
    var c := PlaceOf(order, i);
    PrefixUpdates(u, order, i);
    if c > 0 {
      CountsAreThresholds(u, order[i].response, c - 1);
      BeforeIffCounted(u, order, i, c - 1);
      assert u[c - 1].IsUpdate() by { UpdateAt(u, c - 1); }
      EarlierInvokedBefore(order, i, u[c - 1]);
    }
  }

  lemma EarlierInvokedBefore(order: seq<Operation>, i: nat, x: Operation)
    requires RespectsRealTime(order) && KeepsTies(order) && i < |order| && order[i].kind.Open?
    requires x in order[..i] && x.IsUpdate()
    ensures x.invoke < order[i].response
  {
    var j :| 0 <= j < i && order[..i][j] == x;
    assert order[j] == x;
  }

  /** The places a linearization gives to the reads form a legal assignment. */
  lemma PlacesAreLegal(ops: seq<Operation>, u: seq<Operation>, opens: seq<Operation>, order: seq<Operation>)
    returns (pos: seq<nat>)
    requires IsStrictLinearization(ops, order)
    requires Sequential(u) && multiset(u) == multiset(Updates(ops))
    requires multiset(opens) == multiset(Opens(ops))
    ensures Legal(u, opens, pos)
  {
    hide Sequential, Placed, Updates, Opens, PlaceOf, ReadsLastWrite;
    PartsOfPermutation(ops, order);
    UpdatesKeepRealTime(order);
    OnlyOneWriterOrder(u, Updates(order));
    var at := IndicesIn(ops, opens, order);
    pos := seq(|opens|, k requires 0 <= k < |at| && at[k] <= |order| => PlaceOf(order, at[k]));
    forall k | 0 <= k < |opens| ensures Placed(u, opens[k], pos[k]) {
      assert order[at[k]] in multiset(order);
      PlaceIsLegal(u, order, at[k]);
    }
    forall i, j | 0 <= i < |pos| && 0 <= j < |pos| && Precedes(opens[i], opens[j]) ensures pos[i] <= pos[j] {
      PlaceGrows(order, at[i], at[j]);
    }
  }

  /** The reads can be placed legally. */
  ghost predicate HasLegal(u: seq<Operation>, opens: seq<Operation>) {
    exists pos :: Legal(u, opens, pos)
  }

  /** Completeness: the reads of a history with a linearization that keeps ties can be placed legally. */
  lemma {:induction false} LinearizationGivesLegal(ops: seq<Operation>, u: seq<Operation>, opens: seq<Operation>)
    requires StrictlyLinearizable(ops)
    requires Sequential(u) && multiset(u) == multiset(Updates(ops))
    requires multiset(opens) == multiset(Opens(ops))
    ensures HasLegal(u, opens)
  {
    hide Sequential, IsStrictLinearization, Legal;
    var order :| IsStrictLinearization(ops, order);
    var pos := PlacesAreLegal(ops, u, opens, order);
  }

  /** Legal assignments and linearizations that keep ties exist together. */
  lemma {:induction false} LegalIffLinearizable(ops: seq<Operation>, u: seq<Operation>, opens: seq<Operation>)
    requires NonemptyIntervals(ops) && forall i :: 0 <= i < |ops| ==> !ops[i].kind.Unknown?
    requires Sequential(u) && multiset(u) == multiset(Updates(ops))
    requires SortedByInvoke(opens) && multiset(opens) == multiset(Opens(ops))
    ensures HasLegal(u, opens) <==> StrictlyLinearizable(ops)
  {
    hide Sequential, Legal, IsStrictLinearization, SortedByInvoke;
    if pos :| Legal(u, opens, pos) {
      PartsAreAll(ops);
      assert multiset(u + opens) == multiset(Updates(ops) + Opens(ops));
      forall k | 0 <= k < |opens| ensures opens[k].kind.Open? && opens[k].invoke < opens[k].response {
        OpenOf(ops, opens, k);
      }
      LegalGivesLinearization(ops, u, opens, pos);
    }
    if StrictlyLinearizable(ops) {
      LinearizationGivesLegal(ops, u, opens);
    }
  }

  lemma OpenOf(ops: seq<Operation>, opens: seq<Operation>, k: nat)
    requires NonemptyIntervals(ops) && multiset(opens) == multiset(Opens(ops)) && k < |opens|
    ensures opens[k].kind.Open? && opens[k].invoke < opens[k].response && opens[k] in ops
  {
    assert opens[k] in multiset(opens);
    assert opens[k] in Opens(ops);
    PartsOf(ops, opens[k]);
  }

  lemma PlaceGrows(order: seq<Operation>, i: nat, j: nat)
    requires i <= j <= |order|
    ensures PlaceOf(order, i) <= PlaceOf(order, j)
  {
    var a, b := order[..i], order[..j];
    assert b == a + b[i..];
    UpdatesAppend(a, b[i..]);
  }

  /** Where each OPEN stands in the order. */
  lemma {:induction false} IndicesIn(ops: seq<Operation>, opens: seq<Operation>, order: seq<Operation>)
    returns (at: seq<nat>)
    requires multiset(order) == multiset(ops) && multiset(opens) <= multiset(Opens(ops))
    ensures |at| == |opens|
    ensures forall k :: 0 <= k < |at| ==> at[k] < |order| && order[at[k]] == opens[k] && opens[k].kind.Open?
  {
    hide Opens;
    if opens == [] {
      at := [];
    } else {
      var m := |opens| - 1;
      assert opens == opens[..m] + [opens[m]];
      var earlier := IndicesIn(ops, opens[..m], order);
      assert opens[m] in multiset(opens);
      assert opens[m] in multiset(Opens(ops));
      assert opens[m] in Opens(ops);
      PartsOf(ops, opens[m]);
      assert opens[m] in multiset(ops);
      assert opens[m] in order;
      var i :| 0 <= i < |order| && order[i] == opens[m];
      at := earlier + [i];
      forall k | 0 <= k < |at| ensures at[k] < |order| && order[at[k]] == opens[k] && opens[k].kind.Open? {
        assert k < m ==> at[k] == earlier[k] && opens[k] == opens[..m][k];
      }
    }
  }
}
