/**
  The greedy choice without its data structures: each OPEN, in invocation order, takes the earliest position that
  its interval and the OPENs completed before it allow. A quadratic reference for the sweep of CheckLinearizable.
 */
module Greedy {
  import opened Wrappers
  import opened History
  import opened Linearizability
  import opened Positions

  /** The largest position among the placed reads that had returned before time t, or 0. */
  function MaxCompleted(opens: seq<Operation>, pos: seq<nat>, t: int): (m: nat)
    requires |pos| <= |opens|
  {
    if pos == [] then 0
    else
      var k := |pos| - 1;
      var rest := MaxCompleted(opens, pos[..k], t);
      if opens[k].response < t && rest < pos[k] then pos[k] else rest
  }

  /** The first position in lo..hi at which the register held state, by linear search. */
  function Earliest(u: seq<Operation>, state: State, lo: nat, hi: nat): (p: Option<nat>)
    requires hi <= |u|
    ensures p.Some? ==> lo <= p.value <= hi && StateAt(u, p.value) == state
    ensures forall q :: lo <= q <= hi && StateAt(u, q) == state ==> p.Some? && p.value <= q
    decreases hi + 1 - lo
  {
    if lo > hi then None
    else if StateAt(u, lo) == state then Some(lo)
    else Earliest(u, state, lo + 1, hi)
  }

  function Max(a: nat, b: nat): nat {
    if a < b then b else a
  }

  function Choose(u: seq<Operation>, opens: seq<Operation>, pos: seq<nat>): Option<nat>
    requires |pos| < |opens|
  {
    var read := opens[|pos|];
    Earliest(u, read.state,
             Max(CompletedBefore(u, read.invoke), MaxCompleted(opens, pos, read.invoke)),
             InvokedBefore(u, read.response))
  }

  ghost predicate ChosenAt(u: seq<Operation>, opens: seq<Operation>, pos: seq<nat>, k: nat) {
    && k < |pos| <= |opens|
    && Choose(u, opens, pos[..k]) == Some(pos[k])
  }

  /** pos holds the greedy positions of the first |pos| reads. */
  ghost predicate IsGreedy(u: seq<Operation>, opens: seq<Operation>, pos: seq<nat>) {
    |pos| <= |opens| && forall k: nat {:trigger ChosenAt(u, opens, pos, k)} :: k < |pos| ==> ChosenAt(u, opens, pos, k)
  }

  lemma {:induction false} MaxCompletedIsMax(opens: seq<Operation>, pos: seq<nat>, t: int)
    requires |pos| <= |opens|
    ensures forall k :: 0 <= k < |pos| && opens[k].response < t ==> pos[k] <= MaxCompleted(opens, pos, t)
    ensures MaxCompleted(opens, pos, t) == 0
         || exists k :: 0 <= k < |pos| && opens[k].response < t && pos[k] == MaxCompleted(opens, pos, t)
  {
    if pos != [] {
      var m := |pos| - 1;
      MaxCompletedIsMax(opens, pos[..m], t);
      forall k | 0 <= k < m ensures pos[..m][k] == pos[k] {
      }
    }
  }

  lemma ChooseIsPlaced(u: seq<Operation>, opens: seq<Operation>, pos: seq<nat>)
    requires |pos| < |opens| && Choose(u, opens, pos).Some?
    ensures Placed(u, opens[|pos|], Choose(u, opens, pos).value)
    ensures MaxCompleted(opens, pos, opens[|pos|].invoke) <= Choose(u, opens, pos).value
  {
  }

  lemma ChooseIsLeast(u: seq<Operation>, opens: seq<Operation>, pos: seq<nat>, q: nat)
    requires |pos| < |opens| && Placed(u, opens[|pos|], q)
    requires MaxCompleted(opens, pos, opens[|pos|].invoke) <= q
    ensures Choose(u, opens, pos).Some? && Choose(u, opens, pos).value <= q
  {
  }

  lemma GreedyPrefix(u: seq<Operation>, opens: seq<Operation>, pos: seq<nat>, m: nat)
    requires IsGreedy(u, opens, pos) && m <= |pos|
    ensures IsGreedy(u, opens, pos[..m])
  {
    forall k: nat | k < m ensures ChosenAt(u, opens, pos[..m], k) {
      assert ChosenAt(u, opens, pos, k);
      assert pos[..m][..k] == pos[..k];
    }
  }

  lemma GreedyExtend(u: seq<Operation>, opens: seq<Operation>, pos: seq<nat>, p: nat)
    requires IsGreedy(u, opens, pos) && |pos| < |opens| && Choose(u, opens, pos) == Some(p)
    ensures IsGreedy(u, opens, pos + [p])
  {
    forall k: nat | k <= |pos| ensures ChosenAt(u, opens, pos + [p], k) {
      assert k < |pos| ==> ChosenAt(u, opens, pos, k);
      assert (pos + [p])[..k] == pos[..k];
      assert pos[..|pos|] == pos;
    }
  }

  /** The greedy positions are legal. */
  lemma {:induction false} GreedyIsLegal(u: seq<Operation>, opens: seq<Operation>, pos: seq<nat>)
    requires SortedByInvoke(opens) && IsGreedy(u, opens, pos)
    requires forall i :: 0 <= i < |opens| ==> opens[i].invoke < opens[i].response
    ensures Legal(u, opens[..|pos|], pos)
  {
    if pos != [] {
      var m := |pos| - 1;
      GreedyPrefix(u, opens, pos, m);
      GreedyIsLegal(u, opens, pos[..m]);
      LegalStep(u, opens, pos, m);
    }
  }

  lemma LegalStep(u: seq<Operation>, opens: seq<Operation>, pos: seq<nat>, m: nat)
    requires SortedByInvoke(opens) && IsGreedy(u, opens, pos) && |pos| == m + 1
    requires forall i :: 0 <= i < |opens| ==> opens[i].invoke < opens[i].response
    requires Legal(u, opens[..m], pos[..m])
    ensures Legal(u, opens[..m + 1], pos)
  {
    assert ChosenAt(u, opens, pos, m);
    ChooseIsPlaced(u, opens, pos[..m]);
    MaxCompletedIsMax(opens, pos[..m], opens[m].invoke);
    ExtendLegal(u, opens[..m], pos[..m], opens[m], pos[m]);
    assert opens[..m] + [opens[m]] == opens[..m + 1] && pos[..m] + [pos[m]] == pos;
  }

  lemma ExtendLegal(u: seq<Operation>, opens: seq<Operation>, pos: seq<nat>, read: Operation, p: nat)
    requires Legal(u, opens, pos) && Placed(u, read, p) && read.invoke < read.response
    requires forall i :: 0 <= i < |opens| ==> opens[i].invoke <= read.invoke && opens[i].invoke < opens[i].response
    requires forall i :: 0 <= i < |opens| && Precedes(opens[i], read) ==> pos[i] <= p
    ensures Legal(u, opens + [read], pos + [p])
  {
  }

  ghost predicate PointwiseBelow(a: seq<nat>, b: seq<nat>) {
    |a| <= |b| && forall i :: 0 <= i < |a| ==> a[i] <= b[i]
  }

  /** Greedy positions stay pointwise below every legal assignment. */
  lemma {:induction false} GreedyIsLeast(u: seq<Operation>, opens: seq<Operation>, pos: seq<nat>, legal: seq<nat>)
    requires IsGreedy(u, opens, pos) && Legal(u, opens, legal)
    ensures PointwiseBelow(pos, legal)
  {
    if pos != [] {
      var m := |pos| - 1;
      GreedyPrefix(u, opens, pos, m);
      GreedyIsLeast(u, opens, pos[..m], legal);
      assert ChosenAt(u, opens, pos, m);
      BoundIsBelow(u, opens, pos[..m], legal);
      ChooseIsLeast(u, opens, pos[..m], legal[m]);
    }
  }

  lemma BoundIsBelow(u: seq<Operation>, opens: seq<Operation>, pos: seq<nat>, legal: seq<nat>)
    requires Legal(u, opens, legal) && PointwiseBelow(pos, legal) && |pos| < |opens|
    ensures MaxCompleted(opens, pos, opens[|pos|].invoke) <= legal[|pos|]
  {
    var read := opens[|pos|];
    MaxCompletedIsMax(opens, pos, read.invoke);
    if MaxCompleted(opens, pos, read.invoke) > 0 {
      var i :| 0 <= i < |pos| && opens[i].response < read.invoke && pos[i] == MaxCompleted(opens, pos, read.invoke);
      assert Precedes(opens[i], read);
    }
  }

  /** While a legal assignment exists the greedy choice never fails. */
  lemma GreedyNeverFails(u: seq<Operation>, opens: seq<Operation>, pos: seq<nat>, legal: seq<nat>)
    requires IsGreedy(u, opens, pos) && Legal(u, opens, legal) && |pos| < |opens|
    ensures Choose(u, opens, pos).Some?
  {
    GreedyIsLeast(u, opens, pos, legal);
    BoundIsBelow(u, opens, pos, legal);
    ChooseIsLeast(u, opens, pos, legal[|pos|]);
  }

  lemma {:induction false} GreedyExists(u: seq<Operation>, opens: seq<Operation>, legal: seq<nat>, k: nat)
    returns (pos: seq<nat>)
    requires Legal(u, opens, legal) && k <= |opens|
    ensures |pos| == k && IsGreedy(u, opens, pos)
  {
    if k == 0 {
      pos := [];
    } else {
      pos := GreedyExists(u, opens, legal, k - 1);
      GreedyNeverFails(u, opens, pos, legal);
      GreedyExtend(u, opens, pos, Choose(u, opens, pos).value);
      pos := pos + [Choose(u, opens, pos).value];
    }
  }

  /**
    The greedy choice is exact: it places every read if and only if the history has a linearization that puts no
    update before an OPEN returning at the event of that update's invocation.
   */
  lemma {:induction false} GreedyIsExact(ops: seq<Operation>, u: seq<Operation>, opens: seq<Operation>)
    requires NonemptyIntervals(ops) && forall i :: 0 <= i < |ops| ==> !ops[i].kind.Unknown?
    requires Sequential(u) && multiset(u) == multiset(Updates(ops))
    requires SortedByInvoke(opens) && multiset(opens) == multiset(Opens(ops))
    ensures (exists pos :: |pos| == |opens| && IsGreedy(u, opens, pos)) <==> StrictlyLinearizable(ops)
  {
    hide Sequential, Legal, StrictlyLinearizable;
    LegalIffLinearizable(ops, u, opens);
    if pos :| |pos| == |opens| && IsGreedy(u, opens, pos) {
      forall k | 0 <= k < |opens| ensures opens[k].invoke < opens[k].response {
        OpenOf(ops, opens, k);
      }
      GreedyIsLegal(u, opens, pos);
      assert opens[..|opens|] == opens;
    }
    if legal :| Legal(u, opens, legal) {
      var pos := GreedyExists(u, opens, legal, |opens|);
    }
  }

  /** On distinct endpoints, as pairing gives them, it places every read if and only if there is a linearization. */
  lemma {:induction false} GreedyIsExactOnDistinct(ops: seq<Operation>, u: seq<Operation>, opens: seq<Operation>)
    requires WellTimed(ops) && forall i :: 0 <= i < |ops| ==> !ops[i].kind.Unknown?
    requires Sequential(u) && multiset(u) == multiset(Updates(ops))
    requires SortedByInvoke(opens) && multiset(opens) == multiset(Opens(ops))
    ensures (exists pos :: |pos| == |opens| && IsGreedy(u, opens, pos)) <==> Linearizable(ops)
  {
    hide StrictlyLinearizable, Linearizable, Sequential, IsGreedy;
    GreedyIsExact(ops, u, opens);
    DistinctHasNoTies(ops);
  }
}
