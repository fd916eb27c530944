/** From a cell's log to its verdict: pairing, then the linearizability check. */
module TargetHistory {
  import opened Wrappers
  import opened Sequences
  import opened History
  import opened Linearizability
  import opened Positions
  import opened Greedy
  import opened Sorting
  import opened PairHistory
  import opened CheckLinearizable

  /** The log pairs up into operations that pass the checks and have a linearization. */
  ghost predicate Accepted(rs: seq<Record>) {
    WellPaired(rs) && forall ops :: OperationsOf(rs, ops) ==> ValidHistory(ops) && Linearizable(ops)
  }

  ghost predicate CellReport(rs: seq<Record>, r: Report) {
    exists ops :: OperationsOf(rs, ops) && ReportOf(ops, r)
  }

  /** ops is what the log of the cell says happened, and it passes. */
  ghost predicate GoodRun(records: seq<Record>, cell: Label, ops: seq<Operation>) {
    Recordings(records, cell, ops) && ValidHistory(ops) && Linearizable(ops)
  }

  method CheckCell(records: seq<Record>, cell: Label) returns (r: Result<Report>)
    ensures r.Success? <==> PairsUp(records, cell) && exists ops :: GoodRun(records, cell, ops)
    ensures r.Success? <==> Accepted(CellRecords(records, cell))
    ensures r.Success? ==> CellReport(CellRecords(records, cell), r.value)
  {
    hide GoodRecords, OperationsOf, ValidHistory, Linearizable, ReportOf, CellRecords, DisjointEndpoints;
    hide PairsUp, Recordings;
    ghost var rs := CellRecords(records, cell);
    var paired := PairHistory.PairHistory(records, cell);
    if paired.Failure? {
      return Failure;
    }
    PairedIsWellTimed(rs, paired.value);
    forall ops | OperationsOf(rs, ops)
      ensures ValidHistory(ops) && Linearizable(ops) <==> ValidHistory(paired.value) && Linearizable(paired.value)
    {
      SameOperations(rs, rs, ops, paired.value);
      PermutedSameVerdict(ops, paired.value);
    }
    forall ops ensures Recordings(records, cell, ops) <==> OperationsOf(rs, ops) {
      RecordingsAreOperations(records, cell, ops);
    }
    r := CheckLinearizable.CheckLinearizable(paired.value);
    assert r.Success? ==> GoodRun(records, cell, paired.value);
  }

  // ---------- The order of the log does not matter ----------

  lemma GoodPermutation(a: seq<Record>, b: seq<Record>)
    requires multiset(a) == multiset(b) && GoodRecords(a)
    ensures GoodRecords(b)
  {
    SameElements(a, b);
    forall i, j | 0 <= i < j < |a| ensures a[i] != a[j] {
      GoodApart(a, i, j);
    }
    forall i | 0 <= i < |b| ensures ValidRecord(b[i]) {
      assert b[i] in a;
    }
    forall i, j | 0 <= i < j < |b| ensures Apart(b[i], b[j]) {
      assert b[i] in a && b[j] in a;
      DifferentPlayers(a, b[i], b[j]);
    }
  }

  lemma FindPermutation(a: seq<Record>, b: seq<Record>, id: int, role: Role)
    requires GoodRecords(a) && forall r :: r in a <==> r in b
    ensures Find(a, id, role) == Find(b, id, role)
  {
    FindIsMember(a, id, role);
    FindIsMember(b, id, role);
    if Find(b, id, role).Some? {
      FindOwn(a, Find(b, id, role).value);
    }
  }

  lemma SameBuild(a: seq<Record>, b: seq<Record>, id: int)
    requires GoodRecords(a) && forall r :: r in a <==> r in b
    ensures CompleteAt(a, id) <==> CompleteAt(b, id)
    ensures CompleteAt(a, id) ==> BuildAt(a, id) == BuildAt(b, id)
  {
    FindPermutation(a, b, id, Invoked);
    FindPermutation(a, b, id, Responded);
    FindPermutation(a, b, id, Returned);
  }

  lemma OperationMoves(a: seq<Record>, b: seq<Record>, ops1: seq<Operation>, ops2: seq<Operation>, x: Operation)
    requires GoodRecords(a) && forall r :: r in a <==> r in b
    requires OperationsOf(a, ops1) && OperationsOf(b, ops2) && x in ops1
    ensures x in ops2
  {
    BuiltFrom(a, x);
    var r :| r in PartsAt(a, x.opId) && r.eventSeq == x.invoke;
    var y :| y in ops2 && y.opId == r.opId;
    SameBuild(a, b, x.opId);
  }

  /** Pairing a rearranged log gives the same operations, rearranged. */
  lemma SameOperations(a: seq<Record>, b: seq<Record>, ops1: seq<Operation>, ops2: seq<Operation>)
    requires GoodRecords(a) && multiset(a) == multiset(b)
    requires OperationsOf(a, ops1) && OperationsOf(b, ops2)
    ensures multiset(ops1) == multiset(ops2)
  {
    hide GoodRecords, CompleteAt;
    SameElements(a, b);
    GoodPermutation(a, b);
    forall x ensures x in ops1 <==> x in ops2 {
      if x in ops1 {
        OperationMoves(a, b, ops1, ops2, x);
      }
      if x in ops2 {
        OperationMoves(b, a, ops2, ops1, x);
      }
    }
    SameWithoutDuplicates(ops1, ops2);
  }

  lemma SameUpdateOrder(a: seq<Operation>, b: seq<Operation>)
    requires multiset(a) == multiset(b) && SingleWriter(WriterOrder(a))
    ensures WriterOrder(a) == WriterOrder(b)
  {
    PartsOfPermutation(a, b);
    SortBySorts(WriterSeq, Updates(a));
    SortBySorts(WriterSeq, Updates(b));
    forall i, j | 0 <= i < j < |WriterOrder(a)| ensures WriterSeq(WriterOrder(a)[i]) != WriterSeq(WriterOrder(a)[j]) {
    }
    SortedIsUnique(WriterSeq, WriterOrder(a), WriterOrder(b));
  }

  lemma SamePartSizes(a: seq<Operation>, b: seq<Operation>)
    requires multiset(a) == multiset(b)
    ensures |Updates(a)| == |Updates(b)| && |Opens(a)| == |Opens(b)|
    ensures forall x :: x in a <==> x in b
    ensures forall x :: x in Updates(a) <==> x in Updates(b)
  {
    PartsOfPermutation(a, b);
    assert |multiset(Updates(a))| == |multiset(Updates(b))| && |multiset(Opens(a))| == |multiset(Opens(b))|;
    forall x
      ensures x in a <==> x in b
      ensures x in Updates(a) <==> x in Updates(b)
    {
      assert x in a <==> x in multiset(a);
      assert x in b <==> x in multiset(b);
      PartsOf(a, x);
      PartsOf(b, x);
    }
  }

  lemma PermutedIsValid(a: seq<Operation>, b: seq<Operation>)
    requires multiset(a) == multiset(b) && ValidHistory(a)
    ensures ValidHistory(b)
  {
    hide Updates, Opens;
    SamePartSizes(a, b);
    forall n | 1 <= n <= |Updates(b)| ensures HasNumber(b, n) {
      assert HasNumber(a, n);
    }
  }

  lemma PermutedSameVerdict(a: seq<Operation>, b: seq<Operation>)
    requires multiset(a) == multiset(b)
    ensures ValidHistory(a) <==> ValidHistory(b)
    ensures Linearizable(a) <==> Linearizable(b)
    ensures StrictlyLinearizable(a) <==> StrictlyLinearizable(b)
  {
    hide ValidHistory;
    if ValidHistory(a) {
      PermutedIsValid(a, b);
    }
    if ValidHistory(b) {
      PermutedIsValid(b, a);
    }
    if order :| IsLinearization(a, order) {
      assert IsLinearization(b, order);
    }
    if order :| IsLinearization(b, order) {
      assert IsLinearization(a, order);
    }
    if order :| IsStrictLinearization(a, order) {
      assert IsStrictLinearization(b, order);
    }
    if order :| IsStrictLinearization(b, order) {
      assert IsStrictLinearization(a, order);
    }
  }

  lemma LegalMoves(a: seq<Operation>, b: seq<Operation>, m: map<int, nat>)
    requires forall x :: x in a <==> x in b
    requires WriterOrder(a) == WriterOrder(b) && LegalAssignment(a, m)
    ensures LegalAssignment(b, m)
  {
    hide Placed, WriterOrder;
    assert (set op | op in a && op.kind.Open? :: op.opId) == (set op | op in b && op.kind.Open? :: op.opId);
  }

  /** A history has only one least assignment, whatever order its operations are listed in. */
  lemma LeastIsUnique(a: seq<Operation>, b: seq<Operation>, m1: map<int, nat>, m2: map<int, nat>)
    requires multiset(a) == multiset(b) && ValidHistory(a)
    requires LeastAssignment(a, m1) && LeastAssignment(b, m2)
    ensures m1 == m2
  {
    hide LegalAssignment, Placed, ValidHistory;
    ChecksMeanValid(a);
    SamePartSizes(a, b);
    SameUpdateOrder(a, b);
    LegalMoves(a, b, m1);
    LegalMoves(b, a, m2);
    LegalKeys(a, m1, m2);
    forall id | id in m1 ensures m1[id] == m2[id] {
      assert m1[id] <= m2[id] && m2[id] <= m1[id];
    }
  }

  lemma LegalKeys(ops: seq<Operation>, m1: map<int, nat>, m2: map<int, nat>)
    requires LegalAssignment(ops, m1) && LegalAssignment(ops, m2)
    ensures m1.Keys == m2.Keys
  {
  }

  lemma SameOverlaps(a: seq<Operation>, b: seq<Operation>)
    requires multiset(a) == multiset(b)
    ensures multiset(OverlappingOpens(a)) == multiset(OverlappingOpens(b))
  {
    var test, other := OverlapsSome(Updates(a)), OverlapsSome(Updates(b));
    SamePartSizes(a, b);
    PartsOfPermutation(a, b);
    forall x ensures test(x) == other(x) {
      assert forall v :: v in Updates(a) <==> v in Updates(b);
    }
    FilterSame(test, other, Opens(a));
    FilterPermutation(other, Opens(a), Opens(b));
  }

  /**
    A report is determined by the operations, whatever order they are listed in; its assignment too, if no two OPENs
    share an id.
   */
  lemma {:induction false} PermutedSameReport(a: seq<Operation>, b: seq<Operation>, r1: Report, r2: Report)
    requires multiset(a) == multiset(b) && ValidHistory(a) && ReportOf(a, r1) && ReportOf(b, r2)
    ensures r1.(assignments := r2.assignments) == r2
    ensures DistinctIds(Opens(a)) ==> r1 == r2
  {
    hide LeastAssignment, ValidHistory, DistinctIds;
    SamePartSizes(a, b);
    PartsOfPermutation(a, b);
    if DistinctIds(Opens(a)) {
      DistinctIdsMove(Opens(a), Opens(b));
      LeastIsUnique(a, b, r1.assignments, r2.assignments);
    }
    FilterPermutation(HasResult(0), Opens(a), Opens(b));
    FilterPermutation(HasResult(-2), Opens(a), Opens(b));
    SameElements(OpensWith(a, 0), OpensWith(b, 0));
    SameOverlaps(a, b);
    SameElements(OverlappingOpens(a), OverlappingOpens(b));
  }

  lemma WellPairedMoves(a: seq<Record>, b: seq<Record>)
    requires multiset(a) == multiset(b) && WellPaired(a)
    ensures WellPaired(b)
  {
    hide CompleteAt, GoodRecords;
    SameElements(a, b);
    GoodPermutation(a, b);
    forall r | r in b ensures CompleteAt(b, r.opId) {
      SameBuild(a, b, r.opId);
    }
  }

  lemma OperationsMove(a: seq<Record>, b: seq<Record>, ops: seq<Operation>)
    requires multiset(a) == multiset(b) && GoodRecords(a) && OperationsOf(a, ops)
    ensures OperationsOf(b, ops)
  {
    hide GoodRecords, CompleteAt;
    SameElements(a, b);
    forall op | op in ops ensures CompleteAt(b, op.opId) && op == BuildAt(b, op.opId) {
      SameBuild(a, b, op.opId);
    }
  }

  /** Rearranging the log does not change the verdict. */
  lemma {:induction false} LogOrderIsIrrelevant(records1: seq<Record>, records2: seq<Record>, cell: Label)
    requires multiset(records1) == multiset(records2)
    ensures Accepted(CellRecords(records1, cell)) <==> Accepted(CellRecords(records2, cell))
  {
    hide CellRecords, Accepted;
    var a, b := CellRecords(records1, cell), CellRecords(records2, cell);
    CellPermutation(records1, records2, cell);
    if Accepted(a) {
      AcceptedMoves(a, b);
    }
    if Accepted(b) {
      AcceptedMoves(b, a);
    }
  }

  /** Nor does it change the report of an accepted log, with its assignment. */
  lemma {:induction false} LogOrderKeepsReport(records1: seq<Record>, records2: seq<Record>, cell: Label,
                                               r1: Report, r2: Report)
    requires multiset(records1) == multiset(records2) && Accepted(CellRecords(records1, cell))
    requires CellReport(CellRecords(records1, cell), r1) && CellReport(CellRecords(records2, cell), r2)
    ensures r1 == r2
  {
    hide CellRecords, Accepted, CellReport;
    CellPermutation(records1, records2, cell);
    ReportMoves(CellRecords(records1, cell), CellRecords(records2, cell), r1, r2);
  }

  lemma CellPermutation(records1: seq<Record>, records2: seq<Record>, cell: Label)
    requires multiset(records1) == multiset(records2)
    ensures multiset(CellRecords(records1, cell)) == multiset(CellRecords(records2, cell))
  {
    FilterPermutation(InCell(cell), records1, records2);
  }

  lemma AcceptedMoves(a: seq<Record>, b: seq<Record>)
    requires multiset(a) == multiset(b) && Accepted(a)
    ensures Accepted(b)
  {
    hide OperationsOf, ValidHistory, Linearizable, CompleteAt;
    WellPairedMoves(a, b);
    forall ops | OperationsOf(b, ops) ensures ValidHistory(ops) && Linearizable(ops) {
      OperationsMove(b, a, ops);
    }
  }

  lemma ReportMoves(a: seq<Record>, b: seq<Record>, r1: Report, r2: Report)
    requires multiset(a) == multiset(b) && Accepted(a) && CellReport(a, r1) && CellReport(b, r2)
    ensures r1 == r2
  {
    hide OperationsOf, ValidHistory, Linearizable, ReportOf, CompleteAt;
    var ops1 :| OperationsOf(a, ops1) && ReportOf(ops1, r1);
    var ops2 :| OperationsOf(b, ops2) && ReportOf(ops2, r2);
    SameOperations(a, b, ops1, ops2);
    PairedIsWellTimed(a, ops1);
    WellTimedOpens(ops1);
    PermutedSameReport(ops1, ops2, r1, r2);
  }

  // ---------- Ending OPEN intervals at the syscall return is safe ----------

  /** op with its interval stretched to the recorded response of its operation. */
  function Widen(rs: seq<Record>, op: Operation): Operation {
    var r := Find(rs, op.opId, Responded);
    if r.Some? then op.(response := r.value.eventSeq) else op
  }

  function WidenAll(rs: seq<Record>, ops: seq<Operation>): (w: seq<Operation>)
    ensures |w| == |ops|
  {
    if ops == [] then [] else WidenAll(rs, ops[..|ops| - 1]) + [Widen(rs, ops[|ops| - 1])]
  }

  lemma {:induction false} WidenAt(rs: seq<Record>, ops: seq<Operation>, i: nat)
    requires i < |ops|
    ensures WidenAll(rs, ops)[i] == Widen(rs, ops[i])
  {
    if i < |ops| - 1 {
      WidenAt(rs, ops[..|ops| - 1], i);
    }
  }

  lemma {:induction false} WidenPrefix(rs: seq<Record>, ops: seq<Operation>, i: nat)
    requires i <= |ops|
    ensures WidenAll(rs, ops)[..i] == WidenAll(rs, ops[..i])
  {
    if i < |ops| {
      WidenPrefix(rs, ops[..|ops| - 1], i);
      assert ops[..|ops| - 1][..i] == ops[..i];
    } else {
      assert ops[..i] == ops;
    }
  }

  lemma {:induction false} WidenAppend(rs: seq<Record>, a: seq<Operation>, b: seq<Operation>)
    ensures WidenAll(rs, a + b) == WidenAll(rs, a) + WidenAll(rs, b)
    decreases |b|
  {
    if b == [] {
      assert a + b == a;
    } else {
      var m := |b| - 1;
      assert (a + b)[..|a| + m] == a + b[..m];
      WidenAppend(rs, a, b[..m]);
    }
  }

  lemma WidenRemove(rs: seq<Record>, s: seq<Operation>, k: nat)
    requires k < |s|
    ensures multiset(WidenAll(rs, s)) == multiset(WidenAll(rs, s[..k] + s[k + 1..])) + multiset{Widen(rs, s[k])}
  {
    var head, tail := WidenAll(rs, s[..k]), WidenAll(rs, s[k + 1..]);
    assert s == s[..k] + [s[k]] + s[k + 1..];
    assert WidenAll(rs, [s[k]]) == [Widen(rs, s[k])];
    WidenAppend(rs, s[..k], s[k + 1..]);
    WidenAppend(rs, s[..k] + [s[k]], s[k + 1..]);
    WidenAppend(rs, s[..k], [s[k]]);
    BagOfThree(head, Widen(rs, s[k]), tail);
  }

  lemma BagOfThree(a: seq<Operation>, x: Operation, b: seq<Operation>)
    ensures multiset(a + [x] + b) == multiset(a + b) + multiset{x}
  {
  }

  lemma RemoveAt(s: seq<Operation>, k: nat)
    requires k < |s|
    ensures multiset(s[..k] + s[k + 1..]) == multiset(s) - multiset{s[k]}
  {
    assert s == s[..k] + [s[k]] + s[k + 1..];
    BagOfThree(s[..k], s[k], s[k + 1..]);
  }

  lemma IndexIn(a: seq<Operation>, b: seq<Operation>) returns (k: nat)
    requires multiset(a) == multiset(b) && a != []
    ensures k < |b| && b[k] == a[0]
  {
    assert a[0] in multiset(b);
    assert a[0] in b;
    k :| 0 <= k < |b| && b[k] == a[0];
  }

  lemma {:induction false} WidenPermutation(rs: seq<Record>, a: seq<Operation>, b: seq<Operation>)
    requires multiset(a) == multiset(b)
    ensures multiset(WidenAll(rs, a)) == multiset(WidenAll(rs, b))
    decreases |a|
  {
    hide WidenAll, Widen;
    assert |a| == |multiset(a)| == |b|;
    if a == [] {
      assert b == [];
    } else {
      var k := IndexIn(a, b);
      RemoveAt(a, 0);
      RemoveAt(b, k);
      WidenPermutation(rs, a[..0] + a[1..], b[..k] + b[k + 1..]);
      WidenRemove(rs, a, 0);
      WidenRemove(rs, b, k);
    }
  }

  lemma {:induction false} WidenedRegister(rs: seq<Record>, s: seq<Operation>)
    ensures RegisterAfter(WidenAll(rs, s)) == RegisterAfter(s)
  {
    if s != [] {
      WidenedRegister(rs, s[..|s| - 1]);
    }
  }

  /** A linearization survives lengthening intervals: it has fewer precedences to respect. */
  lemma {:induction false} WidenedLinearization(rs: seq<Record>, ops: seq<Operation>, order: seq<Operation>)
    requires IsLinearization(ops, order)
    requires forall op :: op in ops ==> op.response <= Widen(rs, op).response
    ensures IsLinearization(WidenAll(rs, ops), WidenAll(rs, order))
  {
    hide Widen, WidenAll;
    var wide := WidenAll(rs, order);
    WidenPermutation(rs, order, ops);
    forall i | 0 <= i < |order| ensures wide[i] == Widen(rs, order[i]) && order[i] in ops {
      WidenAt(rs, order, i);
      assert order[i] in multiset(order);
      assert order[i] in multiset(ops);
    }
    forall i, j | 0 <= i < j < |wide| ensures !Precedes(wide[j], wide[i]) {
      WidenKeeps(rs, order[i]);
      WidenKeeps(rs, order[j]);
      assert !Precedes(order[j], order[i]);
    }
    forall i | 0 <= i < |wide| && wide[i].kind.Open? ensures wide[i].state == RegisterAfter(wide[..i]) {
      WidenKeeps(rs, order[i]);
      WidenPrefix(rs, order, i);
      WidenedRegister(rs, order[..i]);
    }
  }

  lemma WidenKeeps(rs: seq<Record>, op: Operation)
    ensures Widen(rs, op).(response := op.response) == op
  {
  }

  lemma WidenBuilt(rs: seq<Record>, op: Operation)
    requires CompleteAt(rs, op.opId) && op == BuildAt(rs, op.opId) && GoodRecords(rs)
    ensures op.response <= Widen(rs, op).response
    ensures !op.kind.Open? ==> Widen(rs, op) == op
    ensures exists r :: r in PartsAt(rs, op.opId) && r.eventSeq == Widen(rs, op).response
  {
    FindIsMember(rs, op.opId, Invoked);
    FindIsMember(rs, op.opId, Responded);
    FindIsMember(rs, op.opId, Returned);
    assert Find(rs, op.opId, Responded).value in PartsAt(rs, op.opId);
  }

  lemma WidenedApart(rs: seq<Record>, a: Operation, b: Operation)
    requires GoodRecords(rs) && a.opId != b.opId
    requires CompleteAt(rs, a.opId) && a == BuildAt(rs, a.opId)
    requires CompleteAt(rs, b.opId) && b == BuildAt(rs, b.opId)
    ensures DisjointEndpoints(Widen(rs, a), Widen(rs, b))
  {
    hide CompleteAt, GoodRecords;
    BuiltFrom(rs, a);
    BuiltFrom(rs, b);
    WidenBuilt(rs, a);
    WidenBuilt(rs, b);
    WidenKeeps(rs, a);
    WidenKeeps(rs, b);
    forall x, y | x in PartsAt(rs, a.opId) && y in PartsAt(rs, b.opId) ensures x.eventSeq != y.eventSeq {
      DifferentPlayers(rs, x, y);
    }
  }

  lemma WidenedIsWellTimed(rs: seq<Record>, ops: seq<Operation>)
    requires GoodRecords(rs) && OperationsOf(rs, ops)
    ensures WellTimed(WidenAll(rs, ops))
  {
    hide GoodRecords, CompleteAt, Widen, WidenAll;
    var wide := WidenAll(rs, ops);
    forall i | 0 <= i < |ops| ensures wide[i] == Widen(rs, ops[i]) && ops[i] in ops {
      WidenAt(rs, ops, i);
    }
    forall i | 0 <= i < |wide| ensures wide[i].invoke < wide[i].response {
      BuiltFrom(rs, ops[i]);
      WidenBuilt(rs, ops[i]);
      WidenKeeps(rs, ops[i]);
    }
    forall i, j | 0 <= i < j < |wide| ensures DisjointEndpoints(wide[i], wide[j]) && wide[i].opId != wide[j].opId {
      WidenedApart(rs, ops[i], ops[j]);
      WidenKeeps(rs, ops[i]);
      WidenKeeps(rs, ops[j]);
    }
  }

  lemma {:induction false} WidenedUpdates(rs: seq<Record>, ops: seq<Operation>)
    requires forall op :: op in ops && op.IsUpdate() ==> Widen(rs, op) == op
    ensures Updates(WidenAll(rs, ops)) == Updates(ops)
    ensures |Opens(WidenAll(rs, ops))| == |Opens(ops)|
  {
    if ops != [] {
      var m := |ops| - 1;
      WidenedUpdates(rs, ops[..m]);
      assert ops[m] in ops;
    }
  }

  lemma WidenedIsValid(rs: seq<Record>, ops: seq<Operation>)
    requires ValidHistory(ops) && forall op :: op in ops && op.IsUpdate() ==> Widen(rs, op) == op
    ensures ValidHistory(WidenAll(rs, ops))
  {
    hide Widen, WidenAll, SingleWriter, WriterOrder, ValidHistory, Updates, Opens;
    var wide := WidenAll(rs, ops);
    ChecksMeanValid(ops);
    ChecksMeanValid(wide);
    WidenedUpdates(rs, ops);
    SameWriterOrder(ops, wide);
    forall i | 0 <= i < |wide| ensures wide[i] == Widen(rs, ops[i]) {
      WidenAt(rs, ops, i);
    }
    forall i | 0 <= i < |wide| ensures !wide[i].kind.Unknown? {
      WidenKeeps(rs, ops[i]);
    }
    forall op | op in wide
      ensures op.IsUpdate() ==> ValidUpdate(op)
      ensures op.kind.Open? ==> ValidOpen(op)
    {
      var i :| 0 <= i < |wide| && wide[i] == op;
      WidenKeeps(rs, ops[i]);
      assert ops[i] in ops;
    }
  }

  lemma SameWriterOrder(a: seq<Operation>, b: seq<Operation>)
    requires Updates(a) == Updates(b)
    ensures WriterOrder(a) == WriterOrder(b)
  {
  }

  /**
    Narrowing is safe: a history accepted with OPENs ending at their syscall return is also accepted with OPENs
    ending at the later recorded response.
   */
  lemma NarrowingIsSafe(rs: seq<Record>, ops: seq<Operation>)
    requires GoodRecords(rs) && OperationsOf(rs, ops)
    requires ValidHistory(ops) && Linearizable(ops)
    ensures WellTimed(WidenAll(rs, ops))
    ensures ValidHistory(WidenAll(rs, ops)) && Linearizable(WidenAll(rs, ops))
  {
    hide GoodRecords, CompleteAt, Widen, WidenAll, ValidHistory, IsLinearization;
    WidenedIsWellTimed(rs, ops);
    forall op | op in ops
      ensures op.response <= Widen(rs, op).response
      ensures op.IsUpdate() ==> Widen(rs, op) == op
    {
      WidenBuilt(rs, op);
    }
    WidenedIsValid(rs, ops);
    var order :| IsLinearization(ops, order);
    WidenedLinearization(rs, ops, order);
  }

  // ---------- Exactness needs distinct endpoints ----------

  /** A SET invoked at the very event at which an OPEN that saw it returns. */
  function TiedHistory(): seq<Operation> {
    [Operation(1, Set, 0, 0, 0, 1, 5, 9, Target(1), 0, 1, 1),
     Operation(2, Open, 0, 0, 0, 0, 1, 5, Target(1), 0, 1, 1)]
  }

  /**
    A valid history, linearizable, yet refused: the OPEN has no position, because the sweep counts only updates
    invoked strictly before the return.
   */
  lemma {:induction false} SharedEndpointCostsCompleteness()
    ensures NonemptyIntervals(TiedHistory()) && ValidHistory(TiedHistory())
    ensures Linearizable(TiedHistory()) && !StrictlyLinearizable(TiedHistory())
    ensures !WellTimed(TiedHistory())
    ensures |TiedHistory()| == 2 && Choose([TiedHistory()[0]], [TiedHistory()[1]], []).None?
  {
    TiedIsNotWellTimed();
    hide Prepared, ValidHistory, Linearizable, StrictlyLinearizable, TiedHistory, Choose;
    var ops := TiedHistory();
    TiedParts();
    TiedIsLinearizable();
    TiedIsPrepared();
    TiedHasNoChoice();
    NoPositionNoLinearization(ops, [ops[0]], [ops[1]], []);
  }

  lemma TiedIsNotWellTimed()
    ensures !WellTimed(TiedHistory())
  {
    assert !DisjointEndpoints(TiedHistory()[0], TiedHistory()[1]);
  }

  lemma TiedIsPrepared()
    ensures |TiedHistory()| == 2 && NonemptyIntervals(TiedHistory())
    ensures Prepared(TiedHistory(), [TiedHistory()[0]], [TiedHistory()[1]])
  {
    hide ValidHistory;
    TiedParts();
  }

  lemma TiedParts()
    ensures Updates(TiedHistory()) == [TiedHistory()[0]] && Opens(TiedHistory()) == [TiedHistory()[1]]
    ensures ValidHistory(TiedHistory())
  {
    hide ValidHistory, Filter;
    var ops := TiedHistory();
    assert ops == [ops[0]] + [ops[1]];
    FilterAppend(WritesRegister, [ops[0]], [ops[1]]);
    FilterAppend(ReadsRegister, [ops[0]], [ops[1]]);
    FilterOne(WritesRegister, ops[0]);
    FilterOne(WritesRegister, ops[1]);
    FilterOne(ReadsRegister, ops[0]);
    FilterOne(ReadsRegister, ops[1]);
    TiedIsValid();
  }

  lemma TiedIsValid()
    requires Updates(TiedHistory()) == [TiedHistory()[0]] && Opens(TiedHistory()) == [TiedHistory()[1]]
    ensures ValidHistory(TiedHistory())
  {
    hide Updates, Opens, ValidHistory;
    ChecksMeanValid(TiedHistory());
    assert [TiedHistory()[0]][1..] == [];
    assert WriterOrder(TiedHistory()) == [TiedHistory()[0]];
  }

  lemma TiedIsLinearizable()
    ensures Linearizable(TiedHistory())
  {
    var order := TiedHistory();
    assert order[..1] == [order[0]];
    assert RegisterAfter(order[..1]) == Target(1);
    assert IsLinearization(TiedHistory(), order);
  }

  lemma TiedHasNoChoice()
    ensures Choose([TiedHistory()[0]], [TiedHistory()[1]], []).None?
  {
    var u := [TiedHistory()[0]];
    assert u[..0] == [];
    assert InvokedBefore(u, 5) == 0 && StateAt(u, 0) == Absent;
  }
}
