/** Operations of a target-publication history, and the orders the checker sorts them by. */
module History {
  import opened Sequences

  /** A state name: the reserved ones, and a number for each other name, since names are only compared. */
  datatype State = Absent | Empty | Error | Target(name: int)

  /** A text field that is only compared for equality. */
  type Label = int

  datatype Kind = Set | Clear | Open | Unknown(name: Label)

  datatype Operation = Operation(
    opId: int, kind: Kind, subtype: Label, actor: Label, actorId: int, writerSeq: int,
    invoke: int, response: int, state: State, result: int, device: int, inode: int)
  {
    predicate IsUpdate() {
      kind.Set? || kind.Clear?
    }

    /** The register value an update publishes. */
    function Published(): State {
      if kind.Clear? then Absent else state
    }
  }

  /** Real-time precedence of Herlihy and Wing: a had returned before b was invoked. */
  predicate Precedes(a: Operation, b: Operation) {
    a.response < b.invoke
  }

  predicate Concurrent(a: Operation, b: Operation) {
    !Precedes(a, b) && !Precedes(b, a)
  }

  predicate DisjointEndpoints(a: Operation, b: Operation) {
    a.invoke != b.invoke && a.invoke != b.response && a.response != b.invoke && a.response != b.response
  }

  /** Every operation returned after it was invoked. */
  ghost predicate NonemptyIntervals(ops: seq<Operation>) {
    forall i :: 0 <= i < |ops| ==> ops[i].invoke < ops[i].response
  }

  /** What PairHistory guarantees about its output: nonempty intervals, pairwise distinct endpoints and ids. */
  ghost predicate WellTimed(ops: seq<Operation>) {
    && NonemptyIntervals(ops)
    && (forall i, j :: 0 <= i < j < |ops| ==> DisjointEndpoints(ops[i], ops[j]) && ops[i].opId != ops[j].opId)
  }

  predicate WritesRegister(op: Operation) {
    op.IsUpdate()
  }

  predicate ReadsRegister(op: Operation) {
    op.kind.Open?
  }

  function Updates(ops: seq<Operation>): seq<Operation> {
    Filter(WritesRegister, ops)
  }

  function Opens(ops: seq<Operation>): seq<Operation> {
    Filter(ReadsRegister, ops)
  }

  lemma UpdatesAppend(a: seq<Operation>, b: seq<Operation>)
    ensures Updates(a + b) == Updates(a) + Updates(b)
  {
    FilterAppend(WritesRegister, a, b);
  }

  lemma PartsOf(ops: seq<Operation>, x: Operation)
    ensures x in Updates(ops) <==> x in ops && x.IsUpdate()
    ensures x in Opens(ops) <==> x in ops && x.kind.Open?
  {
    FilterMember(WritesRegister, ops, x);
    FilterMember(ReadsRegister, ops, x);
  }

  /** When no operation is of another kind, updates and opens together are all the operations. */
  lemma PartsAreAll(ops: seq<Operation>)
    requires forall i :: 0 <= i < |ops| ==> !ops[i].kind.Unknown?
    ensures multiset(ops) == multiset(Updates(ops) + Opens(ops))
  {
    hide Filter;
    forall x ensures multiset(ops)[x] == multiset(Updates(ops))[x] + multiset(Opens(ops))[x] {
      FilterMultiplicity(WritesRegister, ops, x);
      FilterMultiplicity(ReadsRegister, ops, x);
      if x in multiset(ops) {
        assert x in ops;
      }
    }
    assert multiset(ops) == multiset(Updates(ops)) + multiset(Opens(ops));
  }

  lemma PartsOfPermutation(a: seq<Operation>, b: seq<Operation>)
    requires multiset(a) == multiset(b)
    ensures multiset(Updates(a)) == multiset(Updates(b))
    ensures multiset(Opens(a)) == multiset(Opens(b))
  {
    FilterPermutation(WritesRegister, a, b);
    FilterPermutation(ReadsRegister, a, b);
  }
}
