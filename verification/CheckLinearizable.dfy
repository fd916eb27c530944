/** The sweep that decides linearizability of a single-writer history. */
module CheckLinearizable {
  import opened Wrappers
  import opened History
  import opened Linearizability
  import opened Positions
  import opened Greedy
  import opened Sequences
  import opened Sorting

  datatype Report = Report(
    updates: nat, opens: nat, successfulOpens: nat, absentOpens: nat,
    overlapOpens: nat, overlapReaderIds: set<int>, states: nat, observedStates: set<State>,
    assignments: map<int, nat>)

  function WriterOrder(ops: seq<Operation>): seq<Operation> {
    SortBy(WriterSeq, Updates(ops))
  }

  function InvokeOrder(ops: seq<Operation>): seq<Operation> {
    SortBy(Invocation, Opens(ops))
  }

  /** A successful update, publishing a state that fits its kind. */
  predicate ValidUpdate(op: Operation) {
    && op.result == 0
    && (op.kind.Clear? ==> op.state == Absent)
    && (op.kind.Set? ==> op.state != Empty && op.state != Absent)
  }

  /** A successful OPEN names a target and an object; the only failure allowed is ENOENT, seeing no target. */
  predicate ValidOpen(op: Operation) {
    if op.result == 0 then
      op.state != Empty && op.state != Absent && op.state != Error && op.device != 0 && op.inode != 0
    else op.result == -2 && op.state == Absent
  }

  /** The writer numbered its updates 1, 2, ... and ran them one after the other. */
  ghost predicate SingleWriter(u: seq<Operation>) {
    && (forall i :: 0 <= i < |u| ==> u[i].writerSeq == i + 1)
    && (forall i :: 0 < i < |u| ==> u[i - 1].response < u[i].invoke)
  }

  /** The checks made before the sweep, as they are made: on the sorted updates and operation by operation. */
  ghost predicate PassesChecks(ops: seq<Operation>) {
    && (forall i :: 0 <= i < |ops| ==> !ops[i].kind.Unknown?)
    && Updates(ops) != [] && Opens(ops) != []
    && SingleWriter(WriterOrder(ops))
    && (forall op :: op in ops && op.IsUpdate() ==> ValidUpdate(op))
    && (forall op :: op in ops && op.kind.Open? ==> ValidOpen(op))
  }

  /** The updates carry all numbers from 1 to how many there are. */
  ghost predicate AllNumbered(ops: seq<Operation>) {
    forall n :: 1 <= n <= |Updates(ops)| ==> HasNumber(ops, n)
  }

  ghost predicate HasNumber(ops: seq<Operation>, n: int) {
    exists op :: op in ops && op.kind in {Set, Clear} && op.writerSeq == n
  }

  /** Each update returned before the one numbered next was invoked. */
  ghost predicate OneAfterAnother(ops: seq<Operation>) {
    forall a, b :: a in ops && b in ops && a.kind in {Set, Clear} && b.kind in {Set, Clear} ==>
      b.writerSeq == a.writerSeq + 1 ==> a.response < b.invoke
  }

  /**
    What a recorded history must look like: SETs, CLEARs and OPENs, at least one update and one OPEN, the updates
    numbered 1, 2, ... and run one after the other, each operation with the results its kind allows.
   */
  ghost predicate ValidHistory(ops: seq<Operation>) {
    && (forall op :: op in ops ==> op.kind == Set || op.kind == Clear || op.kind == Open)
    && (exists op :: op in ops && op.kind != Open) && (exists op :: op in ops && op.kind == Open)
    && AllNumbered(ops) && OneAfterAnother(ops)
    && (forall op :: op in ops && op.kind == Set ==> op.result == 0 && (op.state.Target? || op.state == Error))
    && (forall op :: op in ops && op.kind == Clear ==> op.result == 0 && op.state == Absent)
    && (forall op :: op in ops && op.kind == Open ==>
          || (op.result == 0 && op.state.Target? && op.device != 0 && op.inode != 0)
          || (op.result == -2 && op.state == Absent))
  }

  /** Some update was invoked before read returned and returned no earlier than read was invoked. */
  predicate Overlaps(u: seq<Operation>, read: Operation) {
    exists v :: v in u && v.invoke < read.response && read.invoke <= v.response
  }

  // ---------- The checks, without sorting ----------

  function NumbersOf(u: seq<Operation>): (r: seq<int>)
    ensures |r| == |u| && forall i :: 0 <= i < |u| ==> r[i] == u[i].writerSeq
  {
    seq(|u|, i requires 0 <= i < |u| => u[i].writerSeq)
  }

  /** Numbers in ascending order that include all of 1 to their count are 1, 2, ... in a row. */
  lemma AscendingRange(s: seq<int>, i: nat)
    requires Ascending(s) && i < |s| && forall n :: 1 <= n <= |s| ==> n in s
    ensures s[i] == i + 1
  {
    SizeOfRange(1, |s| + 1);
    SizeOfSet(s);
    forall n | n in Range(1, |s| + 1) ensures n in ToSet(s) {
    }
    SubsetSize(Range(1, |s| + 1), ToSet(s));
    assert NoDuplicates(s) && ToSet(s) == Range(1, |s| + 1);
    forall k | 0 <= k < |s| ensures 1 <= s[k] <= |s| {
      assert s[k] in ToSet(s);
    }
    AtLeastIndex(s, i);
    AtMostIndex(s, i);
  }

  lemma {:induction false} AtLeastIndex(s: seq<int>, i: nat)
    requires Ascending(s) && NoDuplicates(s) && i < |s| && 1 <= s[0]
    ensures i + 1 <= s[i]
  {
    if i > 0 {
      AtLeastIndex(s, i - 1);
      assert s[i - 1] != s[i];
    }
  }

  lemma {:induction false} AtMostIndex(s: seq<int>, i: nat)
    requires Ascending(s) && NoDuplicates(s) && i < |s| && s[|s| - 1] <= |s|
    ensures s[i] <= i + 1
    decreases |s| - i
  {
    if i < |s| - 1 {
      AtMostIndex(s, i + 1);
      assert s[i] != s[i + 1];
    }
  }

  lemma WriterOrderMembers(ops: seq<Operation>)
    ensures |WriterOrder(ops)| == |Updates(ops)|
    ensures forall x :: x in WriterOrder(ops) <==> x in ops && x.IsUpdate()
    ensures Ascending(NumbersOf(WriterOrder(ops)))
  {
    var u := WriterOrder(ops);
    SortBySorts(WriterSeq, Updates(ops));
    SameElements(u, Updates(ops));
    forall x ensures x in u <==> x in ops && x.IsUpdate() {
      PartsOf(ops, x);
    }
    forall i, j | 0 <= i < j < |u| ensures u[i].writerSeq <= u[j].writerSeq {
      assert WriterSeq(u[i]) <= WriterSeq(u[j]);
    }
  }

  /** The sorted updates are numbered and run in a row exactly when the recorded updates are, in whatever order. */
  lemma {:induction false} SingleWriterWithoutSorting(ops: seq<Operation>)
    ensures SingleWriter(WriterOrder(ops)) <==> AllNumbered(ops) && OneAfterAnother(ops)
  {
    hide WriterOrder, Updates, Ascending;
    WriterOrderMembers(ops);
    if SingleWriter(WriterOrder(ops)) {
      SingleWriterMeans(ops, WriterOrder(ops));
    }
    if AllNumbered(ops) && OneAfterAnother(ops) {
      SingleWriterFrom(ops, WriterOrder(ops));
    }
  }

  lemma SingleWriterMeans(ops: seq<Operation>, u: seq<Operation>)
    requires SingleWriter(u) && |u| == |Updates(ops)| && forall x :: x in u <==> x in ops && x.IsUpdate()
    ensures AllNumbered(ops) && OneAfterAnother(ops)
  {
    hide Updates;
    forall n | 1 <= n <= |Updates(ops)| ensures HasNumber(ops, n) {
      assert u[n - 1] in u && u[n - 1].writerSeq == n;
    }
    forall a, b | a in ops && b in ops && a.IsUpdate() && b.IsUpdate() && b.writerSeq == a.writerSeq + 1
      ensures a.response < b.invoke
    {
      var i :| 0 <= i < |u| && u[i] == a;
      var j :| 0 <= j < |u| && u[j] == b;
      assert j == i + 1;
      assert u[j - 1].response < u[j].invoke;
    }
  }

  lemma SingleWriterFrom(ops: seq<Operation>, u: seq<Operation>)
    requires AllNumbered(ops) && OneAfterAnother(ops) && Ascending(NumbersOf(u))
    requires |u| == |Updates(ops)| && forall x :: x in u <==> x in ops && x.IsUpdate()
    ensures SingleWriter(u)
  {
    hide Updates, Ascending;
    forall n | 1 <= n <= |u| ensures n in NumbersOf(u) {
      assert HasNumber(ops, n);
      var op :| op in ops && op.IsUpdate() && op.writerSeq == n;
      var i :| 0 <= i < |u| && u[i] == op;
      assert NumbersOf(u)[i] == n;
    }
    forall i | 0 <= i < |u| ensures u[i].writerSeq == i + 1 {
      AscendingRange(NumbersOf(u), i);
    }
    forall i | 0 < i < |u| ensures u[i - 1].response < u[i].invoke {
      assert u[i - 1] in u && u[i] in u;
    }
  }

  /** The checks pass exactly on valid histories. */
  lemma {:induction false} ChecksMeanValid(ops: seq<Operation>)
    ensures PassesChecks(ops) <==> ValidHistory(ops)
  {
    hide SingleWriter, WriterOrder, AllNumbered, OneAfterAnother;
    SingleWriterWithoutSorting(ops);
    PartsNonempty(ops);
    forall i | 0 <= i < |ops| ensures ops[i] in ops {
    }
  }

  lemma PartsNonempty(ops: seq<Operation>)
    ensures Updates(ops) != [] <==> exists op :: op in ops && op.IsUpdate()
    ensures Opens(ops) != [] <==> exists op :: op in ops && op.kind.Open?
  {
    hide Filter;
    forall x
      ensures x in Updates(ops) <==> x in ops && x.IsUpdate()
      ensures x in Opens(ops) <==> x in ops && x.kind.Open?
    {
      PartsOf(ops, x);
    }
    if Updates(ops) != [] {
      assert Updates(ops)[0] in Updates(ops);
    }
    if Opens(ops) != [] {
      assert Opens(ops)[0] in Opens(ops);
    }
  }

  // ---------- What the tables of the sweep hold ----------

  lemma {:induction false} SingleWriterIsSequential(u: seq<Operation>)
    requires SingleWriter(u)
    requires forall i :: 0 <= i < |u| ==> u[i].IsUpdate() && u[i].invoke < u[i].response
    ensures Sequential(u)
  {
    if u != [] {
      var m := |u| - 1;
      SingleWriterIsSequential(u[..m]);
      forall i | 0 <= i < m ensures Precedes(u[i], u[m]) {
        assert u[..m][i] == u[i] && u[..m][m - 1] == u[m - 1];
        assert i < m - 1 ==> Precedes(u[..m][i], u[..m][m - 1]);
      }
      forall i, j | 0 <= i < j < |u| ensures Precedes(u[i], u[j]) {
        assert j < m ==> Precedes(u[..m][i], u[..m][j]);
      }
    }
  }

  /** The positions at which the register held state, in increasing order. */
  function PositionsOf(u: seq<Operation>, state: State, n: nat): (r: seq<nat>)
    requires n <= |u| + 1
  {
    if n == 0 then []
    else PositionsOf(u, state, n - 1) + if StateAt(u, n - 1) == state then [n - 1] else []
  }

  lemma {:induction false} PositionsAreExact(u: seq<Operation>, state: State, n: nat)
    requires n <= |u| + 1
    ensures forall i :: 0 <= i < |PositionsOf(u, state, n)| ==>
              PositionsOf(u, state, n)[i] < n && StateAt(u, PositionsOf(u, state, n)[i]) == state
    ensures Ascending(PositionsOf(u, state, n))
    ensures forall p: nat :: p < n && StateAt(u, p) == state ==> p in PositionsOf(u, state, n)
  {
    if n > 0 {
      PositionsAreExact(u, state, n - 1);
    }
  }

  /** Bisecting a state's position list finds what the linear search finds. */
  lemma BisectFindsEarliest(u: seq<Operation>, state: State, lo: nat, hi: nat, index: nat)
    requires hi <= |u|
    requires var c := PositionsOf(u, state, |u| + 1);
             && index <= |c|
             && (forall i :: 0 <= i < index ==> c[i] < lo)
             && (forall i :: index <= i < |c| ==> lo <= c[i])
    ensures var c := PositionsOf(u, state, |u| + 1);
            Earliest(u, state, lo, hi) == if index < |c| && c[index] <= hi then Some(c[index]) else None
  {
    PositionsAreExact(u, state, |u| + 1);
    var c := PositionsOf(u, state, |u| + 1);
    var e := Earliest(u, state, lo, hi);
    if e.Some? {
      assert e.value in c;
      var i :| 0 <= i < |c| && c[i] == e.value;
      assert index <= i && c[index] <= c[i];
      assert StateAt(u, c[index]) == state;
    }
    if index < |c| && c[index] <= hi {
      assert StateAt(u, c[index]) == state;
    }
  }

  lemma BisectCountsCompleted(u: seq<Operation>, t: int, n: nat)
    requires Sequential(u) && n <= |u|
    requires forall i :: 0 <= i < n ==> u[i].response < t
    requires forall i :: n <= i < |u| ==> t <= u[i].response
    ensures n == CompletedBefore(u, t)
  {
    if n < |u| {
      CountsAreThresholds(u, t, n);
    }
    if n > 0 {
      CountsAreThresholds(u, t, n - 1);
    }
  }

  lemma BisectCountsInvoked(u: seq<Operation>, t: int, n: nat)
    requires Sequential(u) && n <= |u|
    requires forall i :: 0 <= i < n ==> u[i].invoke < t
    requires forall i :: n <= i < |u| ==> t <= u[i].invoke
    ensures n == InvokedBefore(u, t)
  {
    if n < |u| {
      CountsAreThresholds(u, t, n);
    }
    if n > 0 {
      CountsAreThresholds(u, t, n - 1);
    }
  }

  lemma OverlapIsGap(u: seq<Operation>, read: Operation)
    requires Sequential(u)
    ensures CompletedBefore(u, read.invoke) < InvokedBefore(u, read.response) <==> Overlaps(u, read)
  {
    var lo, hi := CompletedBefore(u, read.invoke), InvokedBefore(u, read.response);
    if lo < hi {
      CountsAreThresholds(u, read.invoke, lo);
      CountsAreThresholds(u, read.response, lo);
      assert u[lo] in u;
    }
    if v :| v in u && v.invoke < read.response && read.invoke <= v.response {
      var i :| 0 <= i < |u| && u[i] == v;
      CountsAreThresholds(u, read.invoke, i);
      CountsAreThresholds(u, read.response, i);
    }
  }

  /** On distinct endpoints that means some update and the read are concurrent. */
  lemma OverlapIsConcurrency(ops: seq<Operation>, read: Operation)
    requires WellTimed(ops) && read in ops && read.kind.Open?
    ensures Overlaps(Updates(ops), read) <==> exists v :: v in ops && v.IsUpdate() && Concurrent(v, read)
  {
    var i :| 0 <= i < |ops| && ops[i] == read;
    forall v | v in ops && v.IsUpdate() ensures v.invoke != read.response {
      var j :| 0 <= j < |ops| && ops[j] == v;
      assert i != j;
    }
    forall v ensures v in Updates(ops) <==> v in ops && v.IsUpdate() {
      PartsOf(ops, v);
    }
    if v :| v in Updates(ops) && v.invoke < read.response && read.invoke <= v.response {
      assert v in ops && v.IsUpdate() && Concurrent(v, read);
    }
    if v :| v in ops && v.IsUpdate() && Concurrent(v, read) {
      assert v in Updates(ops) && v.invoke < read.response && read.invoke <= v.response;
    }
  }

  // ---------- The heap of completed reads ----------

  function EntryOf(opens: seq<Operation>, pos: seq<nat>, k: nat): Entry
    requires k < |pos| <= |opens|
  {
    Entry(opens[k].response, opens[k].opId, pos[k])
  }

  /**
    The heap and the running maximum together hold all placed reads: the heap those not yet retired, the maximum
    those retired, all of which had returned before t.
   */
  ghost predicate HoldsPlaced(opens: seq<Operation>, pos: seq<nat>, heap: seq<Entry>, maximum: nat, t: int) {
    && |pos| <= |opens|
    && (forall e :: e in heap ==> exists k: nat :: k < |pos| && e == EntryOf(opens, pos, k))
    && (forall k: nat :: k < |pos| ==>
          EntryOf(opens, pos, k) in heap || (opens[k].response < t && pos[k] <= maximum))
    && (maximum == 0 || exists k: nat :: k < |pos| && opens[k].response < t && pos[k] == maximum)
  }

  lemma RetireFirst(opens: seq<Operation>, pos: seq<nat>, heap: seq<Entry>, maximum: nat, t: int,
                    e: Entry, rest: seq<Entry>)
    requires HoldsPlaced(opens, pos, heap, maximum, t)
    requires Pushed(rest, e, heap)
    requires e.response < t
    ensures HoldsPlaced(opens, pos, rest, Max(maximum, e.position), t)
  {
    assert e in heap;
    var n :| 0 <= n < |pos| && e == EntryOf(opens, pos, n);
    forall k: nat | k < |pos|
      ensures EntryOf(opens, pos, k) in rest || (opens[k].response < t && pos[k] <= Max(maximum, e.position))
    {
      assert EntryOf(opens, pos, k) in heap || (opens[k].response < t && pos[k] <= maximum);
    }
  }

  lemma AddPlaced(opens: seq<Operation>, pos: seq<nat>, heap: seq<Entry>, maximum: nat, t: int,
                  p: nat, next: seq<Entry>)
    requires HoldsPlaced(opens, pos, heap, maximum, t) && |pos| < |opens|
    requires Pushed(heap, Entry(opens[|pos|].response, opens[|pos|].opId, p), next)
    ensures HoldsPlaced(opens, pos + [p], next, maximum, t)
  {
    var more := pos + [p];
    forall e | e in next ensures exists k: nat :: k < |more| && e == EntryOf(opens, more, k) {
      if e in heap {
        var k: nat :| k < |pos| && e == EntryOf(opens, pos, k);
        assert e == EntryOf(opens, more, k);
      } else {
        assert e == EntryOf(opens, more, |pos|);
      }
    }
    forall k: nat | k < |more|
      ensures EntryOf(opens, more, k) in next || (opens[k].response < t && more[k] <= maximum)
    {
      if k < |pos| {
        assert EntryOf(opens, more, k) == EntryOf(opens, pos, k);
      }
    }
    if maximum != 0 {
      var k: nat :| k < |pos| && opens[k].response < t && pos[k] == maximum;
      assert more[k] == maximum;
    }
  }

  lemma FirstReturnsFirst(heap: seq<Entry>, t: int)
    requires MinFirst(heap) && (heap == [] || t <= heap[0].response)
    ensures forall e :: e in heap ==> t <= e.response
  {
    forall e | e in heap ensures t <= e.response {
      var i :| 0 <= i < |heap| && heap[i] == e;
      assert heap[0].response <= heap[i].response;
    }
  }

  /** Once the heap's first entry returns at t or later, the running maximum is the naive maximum. */
  lemma MaximumIsExact(opens: seq<Operation>, pos: seq<nat>, heap: seq<Entry>, maximum: nat, t: int)
    requires HoldsPlaced(opens, pos, heap, maximum, t) && MinFirst(heap)
    requires heap == [] || t <= heap[0].response
    ensures maximum == MaxCompleted(opens, pos, t)
  {
    MaxCompletedIsMax(opens, pos, t);
    FirstReturnsFirst(heap, t);
    forall k: nat | k < |pos| && opens[k].response < t ensures pos[k] <= maximum {
      assert EntryOf(opens, pos, k) !in heap;
    }
  }

  // ---------- What the sweep works on ----------

  /** u and opens are the sorted updates and reads of a history that passed the checks. */
  ghost predicate Prepared(ops: seq<Operation>, u: seq<Operation>, opens: seq<Operation>) {
    && NonemptyIntervals(ops) && (forall i :: 0 <= i < |ops| ==> !ops[i].kind.Unknown?)
    && Sequential(u) && multiset(u) == multiset(Updates(ops))
    && SortedByInvoke(opens) && multiset(opens) == multiset(Opens(ops))
  }

  lemma SortedPartMembers(s: seq<Operation>, part: seq<Operation>, i: nat)
    requires multiset(s) == multiset(part) && i < |s|
    ensures s[i] in part
  {
    assert s[i] in multiset(s);
  }

  lemma PrepareHistory(ops: seq<Operation>)
    requires NonemptyIntervals(ops) && ValidHistory(ops)
    ensures Prepared(ops, WriterOrder(ops), InvokeOrder(ops))
  {
    ChecksMeanValid(ops);
    hide ValidHistory;
    var u, opens := WriterOrder(ops), InvokeOrder(ops);
    SortBySorts(WriterSeq, Updates(ops));
    SortBySorts(Invocation, Opens(ops));
    forall i | 0 <= i < |u| ensures u[i].IsUpdate() && u[i].invoke < u[i].response {
      SortedPartMembers(u, Updates(ops), i);
      PartsOf(ops, u[i]);
    }
    SingleWriterIsSequential(u);
    forall i, j | 0 <= i < j < |opens| ensures opens[i].invoke <= opens[j].invoke {
      assert Invocation(opens[i]) <= Invocation(opens[j]);
    }
  }

  lemma PreparedOpen(ops: seq<Operation>, u: seq<Operation>, opens: seq<Operation>, k: nat)
    requires Prepared(ops, u, opens) && k < |opens|
    ensures opens[k] in ops && opens[k].kind.Open? && opens[k].invoke < opens[k].response
  {
    OpenOf(ops, opens, k);
  }

  /** A read without a position refutes every linearization that keeps ties. */
  lemma NoPositionNoLinearization(ops: seq<Operation>, u: seq<Operation>, opens: seq<Operation>, pos: seq<nat>)
    requires Prepared(ops, u, opens) && IsGreedy(u, opens, pos)
    requires |pos| < |opens| && Choose(u, opens, pos).None?
    ensures !StrictlyLinearizable(ops)
  {
    if StrictlyLinearizable(ops) {
      LinearizationGivesLegal(ops, u, opens);
      var legal :| Legal(u, opens, legal);
      GreedyNeverFails(u, opens, pos, legal);
    }
  }

  // ---------- The checker ----------

  method CheckWriter(u: seq<Operation>) returns (ok: bool)
    ensures ok <==> SingleWriter(u)
  {
    for i := 0 to |u|
      invariant forall k :: 0 <= k < i ==> u[k].writerSeq == k + 1
    {
      if u[i].writerSeq != i + 1 {
        return false;
      }
    }
    var i := 1;
    while i < |u|
      invariant forall k :: 0 < k < i && k < |u| ==> u[k - 1].response < u[k].invoke
    {
      if u[i - 1].response >= u[i].invoke {
        return false;
      }
      i := i + 1;
    }
    return true;
  }

  method CheckStates(u: seq<Operation>, opens: seq<Operation>) returns (ok: bool)
    ensures ok <==> (forall op :: op in u ==> ValidUpdate(op)) && (forall op :: op in opens ==> ValidOpen(op))
  {
    for i := 0 to |u|
      invariant forall k :: 0 <= k < i ==> ValidUpdate(u[k])
    {
      if !ValidUpdate(u[i]) {
        assert u[i] in u;
        return false;
      }
    }
    for i := 0 to |opens|
      invariant forall k :: 0 <= k < i ==> ValidOpen(opens[k])
    {
      if !ValidOpen(opens[i]) {
        assert opens[i] in opens;
        return false;
      }
    }
    return true;
  }

  lemma SortedMembers(ops: seq<Operation>, x: Operation)
    ensures x in WriterOrder(ops) <==> x in ops && x.IsUpdate()
    ensures x in InvokeOrder(ops) <==> x in ops && x.kind.Open?
  {
    PartsOf(ops, x);
    SortBySorts(WriterSeq, Updates(ops));
    SortBySorts(Invocation, Opens(ops));
    assert x in WriterOrder(ops) <==> x in multiset(WriterOrder(ops));
    assert x in InvokeOrder(ops) <==> x in multiset(InvokeOrder(ops));
  }

  method CheckHistory(ops: seq<Operation>) returns (ok: bool)
    ensures ok <==> ValidHistory(ops)
  {
    hide ValidHistory;
    ChecksMeanValid(ops);
    if exists op :: op in ops && op.kind.Unknown? {
      return false;
    }
    if Updates(ops) == [] || Opens(ops) == [] {
      return false;
    }
    ok := CheckWriter(WriterOrder(ops));
    if ok {
      ok := CheckStates(WriterOrder(ops), InvokeOrder(ops));
    }
    forall x
      ensures x in WriterOrder(ops) <==> x in ops && x.IsUpdate()
      ensures x in InvokeOrder(ops) <==> x in ops && x.kind.Open?
    {
      SortedMembers(ops, x);
    }
  }

  function Lookup(m: map<State, seq<nat>>, state: State): seq<nat> {
    if state in m then m[state] else []
  }

  /** m lists, for every state, the positions below n that hold it. */
  ghost predicate Indexes(m: map<State, seq<nat>>, u: seq<Operation>, n: nat) {
    && n <= |u| + 1
    && forall state {:trigger Lookup(m, state)} :: Lookup(m, state) == PositionsOf(u, state, n)
  }

  lemma IndexNext(m: map<State, seq<nat>>, u: seq<Operation>, p: nat)
    requires p <= |u| && Indexes(m, u, p)
    ensures Indexes(m[StateAt(u, p) := Lookup(m, StateAt(u, p)) + [p]], u, p + 1)
  {
    var next := m[StateAt(u, p) := Lookup(m, StateAt(u, p)) + [p]];
    forall state ensures Lookup(next, state) == PositionsOf(u, state, p + 1) {
      assert Lookup(m, state) == PositionsOf(u, state, p);
    }
  }

  method IndexPositions(u: seq<Operation>) returns (positions: map<State, seq<nat>>)
    ensures Indexes(positions, u, |u| + 1)
  {
    positions := map[];
    var p: nat := 0;
    while p <= |u|
      invariant p <= |u| + 1 && Indexes(positions, u, p)
    {
      IndexNext(positions, u, p);
      positions := positions[StateAt(u, p) := Lookup(positions, StateAt(u, p)) + [p]];
      p := p + 1;
    }
  }

  /** The position of one read: the first candidate at or after lower, unless it lies beyond upper. */
  method PlaceRead(u: seq<Operation>, positions: map<State, seq<nat>>, state: State, lower: nat, upper: nat)
    returns (p: Option<nat>)
    requires upper <= |u|
    requires Indexes(positions, u, |u| + 1)
    ensures p == Earliest(u, state, lower, upper)
  {
    var candidates := Lookup(positions, state);
    PositionsAreExact(u, state, |u| + 1);
    var index := BisectLeft(candidates, lower);
    BisectFindsEarliest(u, state, lower, upper, index);
    if index >= |candidates| || candidates[index] > upper {
      p := None;
    } else {
      p := Some(candidates[index]);
    }
  }

  /** Retire the reads that returned before t. */
  method RetireCompleted(ghost opens: seq<Operation>, ghost pos: seq<nat>, ghost before: int,
                         heap: seq<Entry>, maximum: nat, t: int)
    returns (rest: seq<Entry>, newMaximum: nat)
    requires MinFirst(heap) && HoldsPlaced(opens, pos, heap, maximum, before) && before <= t
    ensures MinFirst(rest) && HoldsPlaced(opens, pos, rest, newMaximum, t)
    ensures newMaximum == MaxCompleted(opens, pos, t)
  {
    rest, newMaximum := heap, maximum;
    while rest != [] && rest[0].response < t
      invariant MinFirst(rest) && HoldsPlaced(opens, pos, rest, newMaximum, t)
      decreases |rest|
    {
      var e, fewer := HeapPop(rest);
      RetireFirst(opens, pos, rest, newMaximum, t, e, fewer);
      rest, newMaximum := fewer, Max(newMaximum, e.position);
    }
    MaximumIsExact(opens, pos, rest, newMaximum, t);
  }

  // ---------- The result ----------

  /** An assignment of positions to the history's OPENs, by operation id, that a linearization could use. */
  ghost predicate LegalAssignment(ops: seq<Operation>, m: map<int, nat>) {
    && m.Keys == (set op | op in ops && op.kind.Open? :: op.opId)
    && (forall op :: op in ops && op.kind.Open? ==> Placed(WriterOrder(ops), op, m[op.opId]))
    && (forall a, b :: a in ops && b in ops && a.kind.Open? && b.kind.Open? && Precedes(a, b) ==>
          m[a.opId] <= m[b.opId])
  }

  /** The pointwise least legal assignment. */
  ghost predicate LeastAssignment(ops: seq<Operation>, m: map<int, nat>) {
    && LegalAssignment(ops, m)
    && (forall other :: LegalAssignment(ops, other) ==> forall id :: id in m ==> m[id] <= other[id])
  }

  function HasResult(result: int): Operation -> bool {
    (op: Operation) => op.result == result
  }

  function OverlapsSome(u: seq<Operation>): Operation -> bool {
    (op: Operation) => Overlaps(u, op)
  }

  ghost function OpensWith(ops: seq<Operation>, result: int): seq<Operation> {
    Filter(HasResult(result), Opens(ops))
  }

  /** The OPENs that ran while some update was running. */
  ghost function OverlappingOpens(ops: seq<Operation>): seq<Operation> {
    Filter(OverlapsSome(Updates(ops)), Opens(ops))
  }

  ghost function ActorsOf(s: seq<Operation>): set<int> {
    set op | op in s :: op.actorId
  }

  ghost function StatesOf(s: seq<Operation>): set<State> {
    set op | op in s :: op.state
  }

  /**
    What each entry of the report counts, in terms of the recorded operations alone. The assignment is by operation
    id, so it is described for histories that do not repeat the id of an OPEN.
   */
  ghost predicate ReportOf(ops: seq<Operation>, r: Report) {
    && r.updates == |Updates(ops)| && r.states == r.updates + 1
    && r.opens == |Opens(ops)|
    && r.successfulOpens == |OpensWith(ops, 0)|
    && r.absentOpens == |OpensWith(ops, -2)|
    && r.overlapOpens == |OverlappingOpens(ops)|
    && r.overlapReaderIds == ActorsOf(OverlappingOpens(ops))
    && r.observedStates == StatesOf(OpensWith(ops, 0))
    && (DistinctIds(Opens(ops)) ==> LeastAssignment(ops, r.assignments))
  }

  ghost predicate DistinctIds(opens: seq<Operation>) {
    forall i, j :: 0 <= i < j < |opens| ==> opens[i].opId != opens[j].opId
  }

  /** No later read among the first n has the id of the k-th. */
  ghost predicate LastWithId(opens: seq<Operation>, n: nat, k: nat) {
    && k < n <= |opens|
    && forall i :: k < i < n ==> opens[i].opId != opens[k].opId
  }

  ghost predicate MapsIds(opens: seq<Operation>, n: nat, m: map<int, nat>) {
    && n <= |opens|
    && m.Keys == set k | 0 <= k < n :: opens[k].opId
  }

  ghost predicate MapsLast(opens: seq<Operation>, pos: seq<nat>, m: map<int, nat>) {
    && |pos| <= |opens|
    && forall k: nat {:trigger LastWithId(opens, |pos|, k)} :: k < |pos| && LastWithId(opens, |pos|, k) ==>
      opens[k].opId in m && m[opens[k].opId] == pos[k]
  }

  /** m maps the id of each of the first |pos| reads to its position; a later read with the same id overrides. */
  ghost predicate Maps(opens: seq<Operation>, pos: seq<nat>, m: map<int, nat>) {
    && |pos| <= |opens|
    && MapsIds(opens, |pos|, m) && MapsLast(opens, pos, m)
  }

  lemma MapsIdsExtend(opens: seq<Operation>, n: nat, m: map<int, nat>, p: nat)
    requires n < |opens| && MapsIds(opens, n, m)
    ensures MapsIds(opens, n + 1, m[opens[n].opId := p])
  {
    assert (set k | 0 <= k < n + 1 :: opens[k].opId) == (set k | 0 <= k < n :: opens[k].opId) + {opens[n].opId};
  }

  lemma MapsExtend(opens: seq<Operation>, pos: seq<nat>, m: map<int, nat>, p: nat)
    requires |pos| < |opens| && Maps(opens, pos, m)
    ensures Maps(opens, pos + [p], m[opens[|pos|].opId := p])
  {
    hide MapsIds;
    var n, more, next := |pos|, pos + [p], m[opens[|pos|].opId := p];
    MapsIdsExtend(opens, n, m, p);
    forall k: nat | k < n + 1 && LastWithId(opens, n + 1, k)
      ensures opens[k].opId in next && next[opens[k].opId] == more[k]
    {
      if k < n {
        assert LastWithId(opens, n, k) && opens[n].opId != opens[k].opId;
      }
    }
  }

  lemma DistinctIdsMove(a: seq<Operation>, b: seq<Operation>)
    requires multiset(a) == multiset(b) && DistinctIds(a)
    ensures DistinctIds(b)
  {
    SameElements(a, b);
    forall i, j | 0 <= i < j < |b| ensures b[i].opId != b[j].opId {
      assert b[i] in a && b[j] in a;
      var k :| 0 <= k < |a| && a[k] == b[i];
      var m :| 0 <= m < |a| && a[m] == b[j];
      assert NoDuplicates(a);
    }
  }

  lemma OpensDiffer(ops: seq<Operation>)
    ensures DistinctIds(InvokeOrder(ops)) <==> DistinctIds(Opens(ops))
  {
    hide DistinctIds;
    SortBySorts(Invocation, Opens(ops));
    if DistinctIds(Opens(ops)) {
      DistinctIdsMove(Opens(ops), InvokeOrder(ops));
    }
    if DistinctIds(InvokeOrder(ops)) {
      DistinctIdsMove(InvokeOrder(ops), Opens(ops));
    }
  }

  /** The reads' positions, in invocation order, under an assignment by id. */
  ghost function PositionsUnder(opens: seq<Operation>, m: map<int, nat>): seq<nat> {
    seq(|opens|, k requires 0 <= k < |opens| => if opens[k].opId in m then m[opens[k].opId] else 0)
  }

  lemma AssignmentGivesLegal(ops: seq<Operation>, m: map<int, nat>)
    requires LegalAssignment(ops, m)
    ensures Legal(WriterOrder(ops), InvokeOrder(ops), PositionsUnder(InvokeOrder(ops), m))
  {
    var u, opens := WriterOrder(ops), InvokeOrder(ops);
    forall k | 0 <= k < |opens| ensures opens[k] in ops && opens[k].kind.Open? && opens[k].opId in m {
      SortedMembers(ops, opens[k]);
    }
  }

  /** Where the sorted reads hold an OPEN of the history, and what it was assigned. */
  lemma AssignedAt(ops: seq<Operation>, pos: seq<nat>, m: map<int, nat>, op: Operation) returns (k: nat)
    requires DistinctIds(InvokeOrder(ops)) && |pos| == |InvokeOrder(ops)| && Maps(InvokeOrder(ops), pos, m)
    requires op in ops && op.kind.Open?
    ensures k < |pos| && InvokeOrder(ops)[k] == op && op.opId in m && m[op.opId] == pos[k]
  {
    hide InvokeOrder, MapsIds;
    SortedMembers(ops, op);
    var opens := InvokeOrder(ops);
    k :| 0 <= k < |opens| && opens[k] == op;
    assert LastWithId(opens, |pos|, k);
  }

  lemma AssignedIds(ops: seq<Operation>, pos: seq<nat>, m: map<int, nat>)
    requires DistinctIds(InvokeOrder(ops)) && |pos| == |InvokeOrder(ops)| && Maps(InvokeOrder(ops), pos, m)
    ensures m.Keys == (set op | op in ops && op.kind.Open? :: op.opId)
  {
    hide InvokeOrder, Maps, DistinctIds;
    forall id | id in m ensures exists op :: op in ops && op.kind.Open? && op.opId == id {
      var k := ReadWithId(InvokeOrder(ops), pos, m, id);
      SortedMembers(ops, InvokeOrder(ops)[k]);
    }
    forall op | op in ops && op.kind.Open? ensures op.opId in m {
      var k := AssignedAt(ops, pos, m, op);
    }
  }

  lemma ReadWithId(opens: seq<Operation>, pos: seq<nat>, m: map<int, nat>, id: int) returns (k: nat)
    requires |pos| <= |opens| && Maps(opens, pos, m) && id in m
    ensures k < |pos| && opens[k].opId == id
  {
    k :| 0 <= k < |pos| && opens[k].opId == id;
  }

  lemma LegalGivesAssignment(ops: seq<Operation>, pos: seq<nat>, m: map<int, nat>)
    requires DistinctIds(InvokeOrder(ops))
    requires Legal(WriterOrder(ops), InvokeOrder(ops), pos) && Maps(InvokeOrder(ops), pos, m)
    ensures LegalAssignment(ops, m)
  {
    hide Placed, WriterOrder, InvokeOrder, Maps, DistinctIds;
    AssignedIds(ops, pos, m);
    forall op | op in ops && op.kind.Open? ensures op.opId in m && Placed(WriterOrder(ops), op, m[op.opId]) {
      var k := AssignedAt(ops, pos, m, op);
    }
    forall a, b | a in ops && b in ops && a.kind.Open? && b.kind.Open? && Precedes(a, b)
      ensures m[a.opId] <= m[b.opId]
    {
      var i := AssignedAt(ops, pos, m, a);
      var j := AssignedAt(ops, pos, m, b);
    }
  }

  /** The greedy positions of all reads are the pointwise least legal assignment of the history. */
  lemma GreedyGivesLeast(ops: seq<Operation>, pos: seq<nat>, m: map<int, nat>)
    requires Prepared(ops, WriterOrder(ops), InvokeOrder(ops))
    requires IsGreedy(WriterOrder(ops), InvokeOrder(ops), pos) && |pos| == |InvokeOrder(ops)|
    requires Maps(InvokeOrder(ops), pos, m) && DistinctIds(InvokeOrder(ops))
    ensures LeastAssignment(ops, m)
  {
    hide WriterOrder, InvokeOrder, Maps, DistinctIds, IsGreedy, Legal, LegalAssignment;
    var u, opens := WriterOrder(ops), InvokeOrder(ops);
    forall k | 0 <= k < |opens| ensures opens[k].invoke < opens[k].response {
      PreparedOpen(ops, u, opens, k);
    }
    GreedyIsLegal(u, opens, pos);
    assert opens[..|opens|] == opens;
    LegalGivesAssignment(ops, pos, m);
    forall other | LegalAssignment(ops, other) ensures forall id :: id in m ==> id in other && m[id] <= other[id] {
      GreedyIsBelow(ops, pos, m, other);
    }
  }

  lemma GreedyIsBelow(ops: seq<Operation>, pos: seq<nat>, m: map<int, nat>, other: map<int, nat>)
    requires IsGreedy(WriterOrder(ops), InvokeOrder(ops), pos) && |pos| == |InvokeOrder(ops)|
    requires Maps(InvokeOrder(ops), pos, m) && DistinctIds(InvokeOrder(ops)) && LegalAssignment(ops, other)
    ensures forall id :: id in m ==> id in other && m[id] <= other[id]
  {
    hide WriterOrder, InvokeOrder, Maps, DistinctIds, IsGreedy, Legal, Placed;
    var opens := InvokeOrder(ops);
    AssignmentGivesLegal(ops, other);
    GreedyIsLeast(WriterOrder(ops), opens, pos, PositionsUnder(opens, other));
    AssignedIds(ops, pos, m);
    forall id | id in m ensures id in other && m[id] <= other[id] {
      var k := ReadWithId(opens, pos, m, id);
      SortedMembers(ops, opens[k]);
      var i := AssignedAt(ops, pos, m, opens[k]);
      assert opens[i].opId == id;
    }
  }

  /** The interval of positions that one read's real-time interval allows. */
  method Window(u: seq<Operation>, invocations: seq<int>, responses: seq<int>, read: Operation)
    returns (lower: nat, upper: nat)
    requires Sequential(u) && |invocations| == |responses| == |u|
    requires forall i :: 0 <= i < |u| ==> invocations[i] == u[i].invoke && responses[i] == u[i].response
    ensures lower == CompletedBefore(u, read.invoke) && upper == InvokedBefore(u, read.response)
  {
    forall i, j | 0 <= i < j < |u| ensures invocations[i] <= invocations[j] && responses[i] <= responses[j] {
      assert Precedes(u[i], u[j]);
    }
    lower := BisectLeft(responses, read.invoke);
    upper := BisectLeft(invocations, read.response);
    BisectCountsCompleted(u, read.invoke, lower);
    BisectCountsInvoked(u, read.response, upper);
  }

  /** n and ids are the number and the readers of the overlapping OPENs among the first k. */
  ghost predicate Overlapping(u: seq<Operation>, opens: seq<Operation>, k: nat, n: nat, ids: set<int>) {
    && k <= |opens|
    && (var overlapping := Filter(OverlapsSome(u), opens[..k]);
    n == |overlapping| && ids == ActorsOf(overlapping))
  }

  lemma ActorsAdd(s: seq<Operation>, op: Operation)
    ensures ActorsOf(s + [op]) == ActorsOf(s) + {op.actorId}
  {
  }

  lemma OverlappingNext(u: seq<Operation>, opens: seq<Operation>, k: nat, n: nat, ids: set<int>)
    requires k < |opens| && Overlapping(u, opens, k, n, ids)
    ensures Overlaps(u, opens[k]) ==> Overlapping(u, opens, k + 1, n + 1, ids + {opens[k].actorId})
    ensures !Overlaps(u, opens[k]) ==> Overlapping(u, opens, k + 1, n, ids)
  {
    var before := Filter(OverlapsSome(u), opens[..k]);
    assert opens[..k + 1][..k] == opens[..k];
    ActorsAdd(before, opens[k]);
    assert before + [] == before;
  }

  /** The variables of the sweep, between two reads. */
  datatype Sweep = Sweep(
    completed: seq<Entry>, maximum: nat, assignments: map<int, nat>, overlapOpens: nat, overlapReaderIds: set<int>)

  /** After placing the reads of pos, the last of them invoked at time now. */
  ghost predicate Swept(u: seq<Operation>, opens: seq<Operation>, pos: seq<nat>, s: Sweep, now: int) {
    && IsGreedy(u, opens, pos)
    && Maps(opens, pos, s.assignments)
    && MinFirst(s.completed) && HoldsPlaced(opens, pos, s.completed, s.maximum, now)
    && Overlapping(u, opens, |pos|, s.overlapOpens, s.overlapReaderIds)
  }

  /** The lookup tables built before the sweep. */
  ghost predicate Tables(u: seq<Operation>, positions: map<State, seq<nat>>,
                         invocations: seq<int>, responses: seq<int>) {
    && Indexes(positions, u, |u| + 1)
    && |invocations| == |responses| == |u|
    && (forall i :: 0 <= i < |u| ==> invocations[i] == u[i].invoke && responses[i] == u[i].response)
  }

  method BuildTables(u: seq<Operation>)
    returns (positions: map<State, seq<nat>>, invocations: seq<int>, responses: seq<int>)
    ensures Tables(u, positions, invocations, responses)
  {
    positions := IndexPositions(u);
    invocations := seq(|u|, i requires 0 <= i < |u| => u[i].invoke);
    responses := seq(|u|, i requires 0 <= i < |u| => u[i].response);
  }

  /** One read of the sweep: p is its greedy position. */
  method SweepRead(u: seq<Operation>, positions: map<State, seq<nat>>, invocations: seq<int>, responses: seq<int>,
                   read: Operation, s: Sweep, ghost opens: seq<Operation>, ghost pos: seq<nat>, ghost now: int)
    returns (p: Option<nat>, next: Sweep)
    requires Sequential(u) && Tables(u, positions, invocations, responses)
    requires Swept(u, opens, pos, s, now) && |pos| < |opens| && read == opens[|pos|] && now <= read.invoke
    ensures p == Choose(u, opens, pos)
    ensures p.Some? ==> Swept(u, opens, pos + [p.value], next, read.invoke)
  {
    hide HoldsPlaced, Sequential, IsGreedy, Maps, Overlapping, Indexes;
    var completed, maximum := RetireCompleted(opens, pos, now, s.completed, s.maximum, read.invoke);
    var updateLower, upper := Window(u, invocations, responses, read);
    p := PlaceRead(u, positions, read.state, Max(updateLower, maximum), upper);
    next := s;
    if p.Some? {
      var pushed := HeapPush(completed, Entry(read.response, read.opId, p.value));
      var overlapOpens, overlapReaderIds := s.overlapOpens, s.overlapReaderIds;
      if updateLower < upper {
        overlapOpens, overlapReaderIds := overlapOpens + 1, overlapReaderIds + {read.actorId};
      }
      next := Sweep(pushed, maximum, s.assignments[read.opId := p.value], overlapOpens, overlapReaderIds);
      SweptNext(u, opens, pos, s, now, completed, p.value, next);
    }
  }

  /** next counts read as an overlapping one exactly when its two bisections leave a gap. */
  predicate Counts(u: seq<Operation>, read: Operation, s: Sweep, next: Sweep) {
    if CompletedBefore(u, read.invoke) < InvokedBefore(u, read.response) then
      next.overlapOpens == s.overlapOpens + 1 && next.overlapReaderIds == s.overlapReaderIds + {read.actorId}
    else
      next.overlapOpens == s.overlapOpens && next.overlapReaderIds == s.overlapReaderIds
  }

  lemma CountsNext(u: seq<Operation>, opens: seq<Operation>, k: nat, s: Sweep, next: Sweep)
    requires Sequential(u) && k < |opens| && Overlapping(u, opens, k, s.overlapOpens, s.overlapReaderIds)
    requires Counts(u, opens[k], s, next)
    ensures Overlapping(u, opens, k + 1, next.overlapOpens, next.overlapReaderIds)
  {
    OverlapIsGap(u, opens[k]);
    OverlappingNext(u, opens, k, s.overlapOpens, s.overlapReaderIds);
  }

  lemma SweptNext(u: seq<Operation>, opens: seq<Operation>, pos: seq<nat>, s: Sweep, now: int,
                  completed: seq<Entry>, p: nat, next: Sweep)
    requires Sequential(u) && |pos| < |opens| && Swept(u, opens, pos, s, now)
    requires Choose(u, opens, pos) == Some(p) && next.assignments == s.assignments[opens[|pos|].opId := p]
    requires HoldsPlaced(opens, pos, completed, next.maximum, opens[|pos|].invoke) && MinFirst(next.completed)
    requires Pushed(completed, Entry(opens[|pos|].response, opens[|pos|].opId, p), next.completed)
    requires Counts(u, opens[|pos|], s, next)
    ensures Swept(u, opens, pos + [p], next, opens[|pos|].invoke)
  {
    hide Maps, HoldsPlaced, IsGreedy, Overlapping, Counts, Pushed, Sequential;
    CountsNext(u, opens, |pos|, s, next);
    GreedyExtend(u, opens, pos, p);
    MapsExtend(opens, pos, s.assignments, p);
    AddPlaced(opens, pos, completed, next.maximum, opens[|pos|].invoke, p, next.completed);
  }

  /** Before the first read nothing is in flight. */
  lemma SweptStart(u: seq<Operation>, opens: seq<Operation>, now: int)
    ensures Swept(u, opens, [], Sweep([], 0, map[], 0, {}), now)
  {
  }

  /** A sweep that placed every read found a linearization. */
  lemma SweptAll(ops: seq<Operation>, pos: seq<nat>, s: Sweep, now: int)
    requires Prepared(ops, WriterOrder(ops), InvokeOrder(ops))
    requires Swept(WriterOrder(ops), InvokeOrder(ops), pos, s, now) && |pos| == |InvokeOrder(ops)|
    ensures StrictlyLinearizable(ops)
    ensures DistinctIds(Opens(ops)) ==> LeastAssignment(ops, s.assignments)
    ensures Overlapping(WriterOrder(ops), InvokeOrder(ops), |InvokeOrder(ops)|, s.overlapOpens, s.overlapReaderIds)
  {
    if DistinctIds(Opens(ops)) {
      OpensDiffer(ops);
      GreedyGivesLeast(ops, pos, s.assignments);
    }
    GreedyIsExact(ops, WriterOrder(ops), InvokeOrder(ops));
  }

  lemma {:induction false} WellTimedOpens(ops: seq<Operation>)
    requires WellTimed(ops)
    ensures DistinctIds(Opens(ops))
  {
    if ops != [] {
      var m := |ops| - 1;
      WellTimedOpens(ops[..m]);
      forall op | op in Opens(ops[..m]) ensures op.opId != ops[m].opId {
        PartsOf(ops[..m], op);
        var i :| 0 <= i < m && ops[..m][i] == op;
        assert ops[i] == op;
      }
    }
  }

  /**
    Raises exactly when the recorded history fails a check or has no linearization that keeps ties; otherwise reports,
    among the counts, the pointwise least legal assignment. Acceptance always means there is a linearization, and on
    distinct endpoints refusal always means there is none.
   */
  method CheckLinearizable(ops: seq<Operation>) returns (r: Result<Report>)
    requires NonemptyIntervals(ops)
    ensures r.Success? <==> ValidHistory(ops) && StrictlyLinearizable(ops)
    ensures r.Success? ==> Linearizable(ops) && ReportOf(ops, r.value)
    ensures WellTimed(ops) ==> (r.Success? <==> ValidHistory(ops) && Linearizable(ops))
    ensures WellTimed(ops) && r.Success? ==> LeastAssignment(ops, r.value.assignments)
  {
    hide ValidHistory, WellTimed, NonemptyIntervals, Linearizable, StrictlyLinearizable, Tables, Swept;
    hide ReportOf, DistinctIds, LeastAssignment, Sequential;
    if WellTimed(ops) {
      DistinctHasNoTies(ops);
    }
    if StrictlyLinearizable(ops) {
      StrictIsLinearizable(ops);
    }
    var ok := CheckHistory(ops);
    if !ok {
      return Failure;
    }
    PrepareHistory(ops);
    var updates, opens := WriterOrder(ops), InvokeOrder(ops);
    var positions, invocations, responses := BuildTables(updates);
    var s := Sweep([], 0, map[], 0, {});
    ghost var pos: seq<nat> := [];
    ghost var now := if opens == [] then 0 else opens[0].invoke;
    SweptStart(updates, opens, now);
    var k := 0;
    while k < |opens|
      invariant k == |pos| <= |opens| && Swept(updates, opens, pos, s, now)
      invariant k < |opens| ==> now <= opens[k].invoke
    {
      PreparedOpen(ops, updates, opens, k);
      var p, next := SweepRead(updates, positions, invocations, responses, opens[k], s, opens, pos, now);
      if p.None? {
        assert IsGreedy(updates, opens, pos) by { SweptIsGreedy(updates, opens, pos, s, now); }
        NoPositionNoLinearization(ops, updates, opens, pos);
        return Failure;
      }
      s, pos, now, k := next, pos + [p.value], opens[k].invoke, k + 1;
    }
    SweptAll(ops, pos, s, now);
    var report := BuildReport(ops, updates, opens, s);
    r := Success(report);
    if WellTimed(ops) {
      LeastOfReport(ops, report);
    }
  }

  lemma SweptIsGreedy(u: seq<Operation>, opens: seq<Operation>, pos: seq<nat>, s: Sweep, now: int)
    ensures Swept(u, opens, pos, s, now) ==> IsGreedy(u, opens, pos)
  {
  }

  lemma LeastOfReport(ops: seq<Operation>, r: Report)
    ensures WellTimed(ops) && ReportOf(ops, r) ==> LeastAssignment(ops, r.assignments)
  {
    if WellTimed(ops) {
      WellTimedOpens(ops);
    }
  }

  method BuildReport(ghost ops: seq<Operation>, updates: seq<Operation>, opens: seq<Operation>, s: Sweep)
    returns (r: Report)
    requires updates == WriterOrder(ops) && opens == InvokeOrder(ops)
    requires Overlapping(updates, opens, |opens|, s.overlapOpens, s.overlapReaderIds)
    requires DistinctIds(Opens(ops)) ==> LeastAssignment(ops, s.assignments)
    ensures ReportOf(ops, r)
  {
    r := Report(
      |updates|, |opens|, |Filter(HasResult(0), opens)|, |Filter(HasResult(-2), opens)|,
      s.overlapOpens, s.overlapReaderIds, |updates| + 1,
      set op | op in opens && op.result == 0 :: op.state, s.assignments);
    ReportIsExact(ops, r);
  }

  /** Some update of the history was invoked before read returned and returned no earlier than read was invoked. */
  ghost predicate MeetsUpdate(ops: seq<Operation>, read: Operation) {
    exists v :: v in ops && v.kind in {Set, Clear} && v.invoke < read.response && read.invoke <= v.response
  }

  /** The counts and sets of a report, told by the places of the recorded operations. */
  lemma ReportCounts(ops: seq<Operation>, r: Report)
    requires ReportOf(ops, r)
    ensures r.updates == |set i | 0 <= i < |ops| && ops[i].kind in {Set, Clear}| == r.states - 1
    ensures r.opens == |set i | 0 <= i < |ops| && ops[i].kind == Open|
    ensures r.successfulOpens == |set i | 0 <= i < |ops| && ops[i].kind == Open && ops[i].result == 0|
    ensures r.absentOpens == |set i | 0 <= i < |ops| && ops[i].kind == Open && ops[i].result == -2|
    ensures r.overlapOpens == |set i | 0 <= i < |ops| && ops[i].kind == Open && MeetsUpdate(ops, ops[i])|
    ensures r.overlapReaderIds == set op | op in ops && op.kind == Open && MeetsUpdate(ops, op) :: op.actorId
    ensures r.observedStates == set op | op in ops && op.kind == Open && op.result == 0 :: op.state
  {
    hide LeastAssignment, Filter, MeetsUpdate;
    PlacesOfParts(ops);
    PlacesWithResult(ops, 0);
    PlacesWithResult(ops, -2);
    PlacesOverlapping(ops);
  }

  lemma PlacesOfParts(ops: seq<Operation>)
    ensures |Updates(ops)| == |set i | 0 <= i < |ops| && ops[i].kind in {Set, Clear}|
    ensures |Opens(ops)| == |set i | 0 <= i < |ops| && ops[i].kind == Open|
  {
    hide Filter;
    FilterCounts(WritesRegister, ops);
    FilterCounts(ReadsRegister, ops);
    assert Places(WritesRegister, ops) == set i | 0 <= i < |ops| && ops[i].kind in {Set, Clear};
    assert Places(ReadsRegister, ops) == set i | 0 <= i < |ops| && ops[i].kind == Open;
  }

  lemma PlacesWithResult(ops: seq<Operation>, result: int)
    ensures |OpensWith(ops, result)| == |set i | 0 <= i < |ops| && ops[i].kind == Open && ops[i].result == result|
    ensures StatesOf(OpensWith(ops, result)) == set op | op in ops && op.kind == Open && op.result == result :: op.state
  {
    hide Filter;
    var both := (op: Operation) => op.kind == Open && op.result == result;
    FilterTwice(HasResult(result), ReadsRegister, both, ops);
    FilterCounts(both, ops);
    assert Places(both, ops) == set i | 0 <= i < |ops| && ops[i].kind == Open && ops[i].result == result;
    forall op ensures op in OpensWith(ops, result) <==> op in ops && op.kind == Open && op.result == result {
      FilterMember(both, ops, op);
    }
  }

  lemma PlacesOverlapping(ops: seq<Operation>)
    ensures |OverlappingOpens(ops)| == |set i | 0 <= i < |ops| && ops[i].kind == Open && MeetsUpdate(ops, ops[i])|
    ensures ActorsOf(OverlappingOpens(ops))
         == set op | op in ops && op.kind == Open && MeetsUpdate(ops, op) :: op.actorId
  {
    hide Filter;
    forall read ensures OverlapsSome(Updates(ops))(read) <==> MeetsUpdate(ops, read) {
      MeetsIsOverlaps(ops, read);
    }
    var both := (op: Operation) => op.kind == Open && Overlaps(Updates(ops), op);
    FilterTwice(OverlapsSome(Updates(ops)), ReadsRegister, both, ops);
    FilterCounts(both, ops);
    assert Places(both, ops) == set i | 0 <= i < |ops| && ops[i].kind == Open && MeetsUpdate(ops, ops[i]);
    forall op ensures op in OverlappingOpens(ops) <==> op in ops && op.kind == Open && MeetsUpdate(ops, op) {
      FilterMember(both, ops, op);
    }
  }

  lemma MeetsIsOverlaps(ops: seq<Operation>, read: Operation)
    ensures Overlaps(Updates(ops), read) <==> MeetsUpdate(ops, read)
  {
    forall v ensures v in Updates(ops) <==> v in ops && v.kind in {Set, Clear} {
      PartsOf(ops, v);
    }
  }

  /** Counting over the sorted reads and updates counts the history's. */
  lemma ReportIsExact(ops: seq<Operation>, r: Report)
    requires r.updates == |WriterOrder(ops)| && r.opens == |InvokeOrder(ops)| && r.states == r.updates + 1
    requires r.successfulOpens == |Filter(HasResult(0), InvokeOrder(ops))|
    requires r.absentOpens == |Filter(HasResult(-2), InvokeOrder(ops))|
    requires Overlapping(WriterOrder(ops), InvokeOrder(ops), r.opens, r.overlapOpens, r.overlapReaderIds)
    requires r.observedStates == set op | op in InvokeOrder(ops) && op.result == 0 :: op.state
    requires DistinctIds(Opens(ops)) ==> LeastAssignment(ops, r.assignments)
    ensures ReportOf(ops, r)
  {
    hide LeastAssignment, DistinctIds;
    SortedSizes(ops);
    SortBySorts(Invocation, Opens(ops));
    FilterPermutation(HasResult(0), InvokeOrder(ops), Opens(ops));
    FilterPermutation(HasResult(-2), InvokeOrder(ops), Opens(ops));
    OverlapsAgree(ops);
    forall op ensures op in OpensWith(ops, 0) <==> op in InvokeOrder(ops) && op.result == 0 {
      SortedMembers(ops, op);
      PartsOf(ops, op);
      FilterMember(HasResult(0), Opens(ops), op);
    }
    assert InvokeOrder(ops)[..r.opens] == InvokeOrder(ops);
  }

  lemma SortedSizes(ops: seq<Operation>)
    ensures |WriterOrder(ops)| == |Updates(ops)| && |InvokeOrder(ops)| == |Opens(ops)|
  {
    SortBySorts(WriterSeq, Updates(ops));
    SortBySorts(Invocation, Opens(ops));
    assert |multiset(WriterOrder(ops))| == |multiset(Updates(ops))|;
    assert |multiset(InvokeOrder(ops))| == |multiset(Opens(ops))|;
  }

  /** Whatever order updates and reads are taken in, the same reads overlap. */
  lemma OverlapsAgree(ops: seq<Operation>)
    ensures var overlapping := Filter(OverlapsSome(WriterOrder(ops)), InvokeOrder(ops));
            |overlapping| == |OverlappingOpens(ops)| && ActorsOf(overlapping) == ActorsOf(OverlappingOpens(ops))
  {
    var test, other := OverlapsSome(WriterOrder(ops)), OverlapsSome(Updates(ops));
    SortBySorts(Invocation, Opens(ops));
    forall x ensures test(x) == other(x) {
      OverlapsMembers(ops, x);
    }
    FilterSame(test, other, InvokeOrder(ops));
    FilterPermutation(other, InvokeOrder(ops), Opens(ops));
    SameElements(Filter(other, InvokeOrder(ops)), Filter(other, Opens(ops)));
  }

  lemma OverlapsMembers(ops: seq<Operation>, x: Operation)
    ensures Overlaps(WriterOrder(ops), x) <==> Overlaps(Updates(ops), x)
  {
    forall v ensures v in WriterOrder(ops) <==> v in Updates(ops) {
      SortedMembers(ops, v);
      PartsOf(ops, v);
    }
  }
}
