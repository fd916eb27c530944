/** The specification: Herlihy and Wing's linearizability for one register written by SET and CLEAR. */
module Linearizability {
  import opened History

  /** The register's content after the operations of s have taken effect in that order. */
  function RegisterAfter(s: seq<Operation>): State {
    if s == [] then Absent
    else
      match s[|s| - 1].kind
      case Set => s[|s| - 1].state
      case Clear => Absent
      case _ => RegisterAfter(s[..|s| - 1])
  }

  /** order never puts an operation before one that had already returned when it was invoked. */
  ghost predicate RespectsRealTime(order: seq<Operation>) {
    forall i, j :: 0 <= i < j < |order| ==> order[i].invoke <= order[j].response
  }

  /** Every OPEN of order saw the register's content at its place. */
  ghost predicate ReadsLastWrite(order: seq<Operation>) {
    forall i :: 0 <= i < |order| && order[i].kind.Open? ==> order[i].state == RegisterAfter(order[..i])
  }

  ghost predicate IsLinearization(ops: seq<Operation>, order: seq<Operation>) {
    && multiset(order) == multiset(ops)
    && RespectsRealTime(order)
    && ReadsLastWrite(order)
  }

  ghost predicate Linearizable(ops: seq<Operation>) {
    exists order :: IsLinearization(ops, order)
  }

  /** order puts no update before an OPEN that returned at the very event at which the update was invoked. */
  ghost predicate KeepsTies(order: seq<Operation>) {
    forall i, j :: 0 <= i < j < |order| && (order[i].kind == Set || order[i].kind == Clear) && order[j].kind == Open ==>
      order[i].invoke != order[j].response
  }

  ghost predicate IsStrictLinearization(ops: seq<Operation>, order: seq<Operation>) {
    IsLinearization(ops, order) && KeepsTies(order)
  }

  /** Linearizable, even if an OPEN returning at the event of an update's invocation precedes that update. */
  ghost predicate StrictlyLinearizable(ops: seq<Operation>) {
    exists order :: IsStrictLinearization(ops, order)
  }

  lemma StrictIsLinearizable(ops: seq<Operation>)
    requires StrictlyLinearizable(ops)
    ensures Linearizable(ops)
  {
    var order :| IsStrictLinearization(ops, order);
  }

  /** With distinct endpoints there are no ties to keep. */
  lemma {:induction false} DistinctHasNoTies(ops: seq<Operation>)
    requires WellTimed(ops)
    ensures StrictlyLinearizable(ops) <==> Linearizable(ops)
  {
    if order: seq<Operation> :| IsLinearization(ops, order) {
      forall i, j | 0 <= i < j < |order| && order[i].IsUpdate() && order[j].kind.Open?
        ensures order[i].invoke != order[j].response
      {
        assert order[i] in multiset(ops) && order[j] in multiset(ops);
        var a :| 0 <= a < |ops| && ops[a] == order[i];
        var b :| 0 <= b < |ops| && ops[b] == order[j];
        assert a != b;
      }
      assert IsStrictLinearization(ops, order);
    }
  }

  lemma {:induction false} RegisterFromUpdates(s: seq<Operation>)
    ensures RegisterAfter(s) == if Updates(s) == [] then Absent else Updates(s)[|Updates(s)| - 1].Published()
  {
    if s != [] {
      RegisterFromUpdates(s[..|s| - 1]);
    }
  }

  /** Reads leave the register alone. */
  lemma {:induction false} RegisterUnread(s: seq<Operation>, opens: seq<Operation>)
    requires forall i :: 0 <= i < |opens| ==> opens[i].kind.Open?
    ensures RegisterAfter(s + opens) == RegisterAfter(s)
    decreases |opens|
  {
    if opens == [] {
      assert s + opens == s;
    } else {
      var m := |opens| - 1;
      assert (s + opens)[..|s| + m] == s + opens[..m];
      RegisterUnread(s, opens[..m]);
    }
  }
}
