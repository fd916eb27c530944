/** Turning a log of invoke, syscall-return and response events into operations with real-time intervals. */
module PairHistory {
  import opened Wrappers
  import opened Sequences
  import opened History

  datatype Event = HistoryEvent | OpenReturnEvent | OtherEvent

  datatype Phase = Invoke | Response | OtherPhase

  /** A log record; a field the source reads with a default is optional. */
  datatype Record = Record(
    event: Event, cell: Label, eventSeq: int, timeNs: Option<int>, opId: int, phase: Phase,
    operation: Option<Kind>, subtype: Option<Label>, actor: Option<Label>, actorId: Option<int>,
    writerSeq: Option<int>, state: Option<State>, device: Option<int>, inode: Option<int>, result: Option<int>)

  /** The part a record plays in its operation. */
  datatype Role = Invoked | Responded | Returned

  /** The label of an empty text field. */
  const NO_LABEL: Label := 0

  predicate Relevant(r: Record, cell: Label) {
    !r.event.OtherEvent? && r.cell == cell
  }

  function InCell(cell: Label): Record -> bool {
    (r: Record) => Relevant(r, cell)
  }

  function CellRecords(records: seq<Record>, cell: Label): seq<Record> {
    Filter(InCell(cell), records)
  }

  function RoleOf(r: Record): Role {
    if r.event.OpenReturnEvent? then Returned else if r.phase.Invoke? then Invoked else Responded
  }

  predicate ValidRecord(r: Record) {
    r.eventSeq > 0 && r.timeNs.GetOr(0) > 0 && (r.event.HistoryEvent? ==> !r.phase.OtherPhase?)
  }

  /** Two records that can both be in a good log. */
  predicate Apart(a: Record, b: Record) {
    a.eventSeq != b.eventSeq && (a.opId != b.opId || RoleOf(a) != RoleOf(b))
  }

  ghost predicate GoodRecords(rs: seq<Record>) {
    && (forall i :: 0 <= i < |rs| ==> ValidRecord(rs[i]))
    && (forall i, j :: 0 <= i < j < |rs| ==> Apart(rs[i], rs[j]))
  }

  /** The record of rs that plays the given role in the given operation. */
  function Find(rs: seq<Record>, id: int, role: Role): Option<Record> {
    if rs == [] then None
    else
      var last := rs[|rs| - 1];
      if last.opId == id && RoleOf(last) == role then Some(last) else Find(rs[..|rs| - 1], id, role)
  }

  predicate SameOperation(i: Record, r: Record) {
    && i.operation == r.operation && i.subtype == r.subtype && i.actor == r.actor
    && i.actorId == r.actorId && i.writerSeq == r.writerSeq
    && (i.operation == Some(Set) || i.operation == Some(Clear) ==>
          i.state == r.state && i.device == r.device && i.inode == r.inode)
    && i.eventSeq < r.eventSeq
    && i.operation.Some? && r.result.Some?
  }

  predicate SameReturn(i: Record, r: Record, ret: Record) {
    && ret.actor == i.actor
    && ret.actorId.GetOr(-1) == i.actorId.GetOr(0)
    && ret.result.GetOr(1) == r.result.GetOr(0)
    && i.eventSeq < ret.eventSeq < r.eventSeq
  }

  /** The records of one operation fit together; an OPEN has a syscall return and nothing else has. */
  predicate Complete(i: Option<Record>, r: Option<Record>, ret: Option<Record>) {
    && i.Some? && r.Some? && SameOperation(i.value, r.value)
    && (if i.value.operation == Some(Open) then ret.Some? && SameReturn(i.value, r.value, ret.value) else ret.None?)
  }

  /** The operation of complete records: an OPEN's interval ends at its syscall return. */
  function Build(i: Record, r: Record, ret: Option<Record>): Operation
    requires Complete(Some(i), Some(r), ret)
  {
    Operation(
      i.opId, i.operation.value, i.subtype.GetOr(NO_LABEL), i.actor.GetOr(NO_LABEL), i.actorId.GetOr(0),
      i.writerSeq.GetOr(0), i.eventSeq, if ret.Some? then ret.value.eventSeq else r.eventSeq,
      r.state.GetOr(Empty), r.result.value, r.device.GetOr(0), r.inode.GetOr(0))
  }

  ghost predicate CompleteAt(rs: seq<Record>, id: int) {
    Complete(Find(rs, id, Invoked), Find(rs, id, Responded), Find(rs, id, Returned))
  }

  function BuildAt(rs: seq<Record>, id: int): Operation
    requires CompleteAt(rs, id)
  {
    Build(Find(rs, id, Invoked).value, Find(rs, id, Responded).value, Find(rs, id, Returned))
  }

  /** Every event of the cell belongs to exactly one complete operation. */
  ghost predicate WellPaired(rs: seq<Record>) {
    && rs != [] && GoodRecords(rs)
    && (forall r :: r in rs ==> CompleteAt(rs, r.opId))
  }

  /** ops are the operations of rs, one for each operation id. */
  ghost predicate OperationsOf(rs: seq<Record>, ops: seq<Operation>) {
    && (forall i, j :: 0 <= i < j < |ops| ==> ops[i].opId != ops[j].opId)
    && (forall op :: op in ops ==> CompleteAt(rs, op.opId) && op == BuildAt(rs, op.opId))
    && (forall r :: r in rs ==> exists op :: op in ops && op.opId == r.opId)
  }

  // ---------- Finding records ----------

  lemma {:induction false} FindIsMember(rs: seq<Record>, id: int, role: Role)
    ensures Find(rs, id, role).Some? ==>
              var r := Find(rs, id, role).value;
              r in rs && r.opId == id && RoleOf(r) == role
    ensures Find(rs, id, role).None? ==> forall r :: r in rs ==> r.opId != id || RoleOf(r) != role
  {
    if rs != [] {
      FindIsMember(rs[..|rs| - 1], id, role);
      assert rs == rs[..|rs| - 1] + [rs[|rs| - 1]];
    }
  }

  lemma DifferentPlayers(rs: seq<Record>, a: Record, b: Record)
    requires GoodRecords(rs) && a in rs && b in rs && a != b
    ensures Apart(a, b)
  {
    var i :| 0 <= i < |rs| && rs[i] == a;
    var j :| 0 <= j < |rs| && rs[j] == b;
    if i < j {
      assert Apart(rs[i], rs[j]);
    } else {
      assert Apart(rs[j], rs[i]);
    }
  }

  lemma FindOwn(rs: seq<Record>, r: Record)
    requires GoodRecords(rs) && r in rs
    ensures Find(rs, r.opId, RoleOf(r)) == Some(r)
  {
    FindIsMember(rs, r.opId, RoleOf(r));
    var f := Find(rs, r.opId, RoleOf(r)).value;
    if f != r {
      DifferentPlayers(rs, f, r);
    }
  }

  lemma FindExtend(rs: seq<Record>, r: Record, id: int, role: Role)
    ensures Find(rs + [r], id, role) == if r.opId == id && RoleOf(r) == role then Some(r) else Find(rs, id, role)
  {
    assert (rs + [r])[..|rs|] == rs;
  }

  // ---------- The first loop: sorting records into dictionaries ----------

  datatype Pair = Pair(invoke: Option<Record>, response: Option<Record>)

  /** What the dictionaries hold for a role of an operation. */
  function Slot(pairs: map<int, Pair>, openReturns: map<int, Record>, id: int, role: Role): Option<Record> {
    match role
    case Invoked => if id in pairs then pairs[id].invoke else None
    case Responded => if id in pairs then pairs[id].response else None
    case Returned => if id in openReturns then Some(openReturns[id]) else None
  }

  /** The dictionaries index the records rs. */
  ghost predicate Collected(rs: seq<Record>, pairs: map<int, Pair>, openReturns: map<int, Record>) {
    && (forall id, role {:trigger Slot(pairs, openReturns, id, role)} ::
          Slot(pairs, openReturns, id, role) == Find(rs, id, role))
    && (forall id :: id in pairs ==> pairs[id].invoke.Some? || pairs[id].response.Some?)
  }

  /** ids lists the keys of the dictionary, each once, as they were inserted. */
  ghost predicate ListsKeys(ids: seq<int>, pairs: map<int, Pair>) {
    && (forall i, j :: 0 <= i < j < |ids| ==> ids[i] != ids[j])
    && (forall id :: id in ids <==> id in pairs)
  }

  method AddRecord(r: Record, pairs: map<int, Pair>, openReturns: map<int, Record>, ids: seq<int>,
                   ghost rs: seq<Record>)
    returns (ok: bool, morePairs: map<int, Pair>, moreReturns: map<int, Record>, moreIds: seq<int>)
    requires !r.event.OtherEvent? && Collected(rs, pairs, openReturns) && ListsKeys(ids, pairs)
    ensures ok <==> (r.event.HistoryEvent? ==> !r.phase.OtherPhase?) && Find(rs, r.opId, RoleOf(r)).None?
    ensures ok ==> Collected(rs + [r], morePairs, moreReturns) && ListsKeys(moreIds, morePairs)
  {
    morePairs, moreReturns, moreIds := pairs, openReturns, ids;
    assert Slot(pairs, openReturns, r.opId, RoleOf(r)) == Find(rs, r.opId, RoleOf(r));
    if r.event.OpenReturnEvent? {
      ok := r.opId !in openReturns;
      moreReturns := openReturns[r.opId := r];
    } else {
      var pair := if r.opId in pairs then pairs[r.opId] else Pair(None, None);
      if r.phase.OtherPhase? || (if r.phase.Invoke? then pair.invoke else pair.response).Some? {
        return false, pairs, openReturns, ids;
      }
      ok := true;
      if r.opId !in pairs {
        moreIds := ids + [r.opId];
      }
      morePairs := pairs[r.opId := if r.phase.Invoke? then pair.(invoke := Some(r)) else pair.(response := Some(r))];
    }
    if ok {
      forall id, role ensures Slot(morePairs, moreReturns, id, role) == Find(rs + [r], id, role) {
        FindExtend(rs, r, id, role);
        assert Slot(pairs, openReturns, id, role) == Find(rs, id, role);
      }
    }
  }

  /** The dictionaries of the whole cell, unless some record is bad or repeats another. */
  method Collect(records: seq<Record>, cell: Label)
    returns (ok: bool, pairs: map<int, Pair>, openReturns: map<int, Record>, ids: seq<int>)
    ensures ok <==> GoodRecords(CellRecords(records, cell))
    ensures ok ==> Collected(CellRecords(records, cell), pairs, openReturns) && ListsKeys(ids, pairs)
  {
    hide Collected, ListsKeys;
    var eventSequences: set<int> := {};
    pairs, openReturns, ids := map[], map[], [];
    ghost var rs: seq<Record> := [];
    NothingCollected();
    for i := 0 to |records|
      invariant rs == CellRecords(records[..i], cell)
      invariant GoodRecords(rs) && Collected(rs, pairs, openReturns) && ListsKeys(ids, pairs)
      invariant eventSequences == set r | r in rs :: r.eventSeq
    {
      var r := records[i];
      FilterLast(InCell(cell), records, i);
      if !Relevant(r, cell) {
        continue;
      }
      FilterPrefix(InCell(cell), records, i + 1);
      GoodOrNot(rs, r, CellRecords(records, cell));
      if r.eventSeq <= 0 || r.eventSeq in eventSequences || r.timeNs.GetOr(0) <= 0 {
        return false, pairs, openReturns, ids;
      }
      eventSequences := eventSequences + {r.eventSeq};
      ok, pairs, openReturns, ids := AddRecord(r, pairs, openReturns, ids, rs);
      if !ok {
        return;
      }
      rs := rs + [r];
    }
    assert records[..|records|] == records;
    ok := true;
  }

  lemma NothingCollected()
    ensures Collected([], map[], map[]) && ListsKeys([], map[])
  {
  }

  /** When one more record keeps a log good. */
  lemma GoodOrNot(rs: seq<Record>, r: Record, all: seq<Record>)
    requires GoodRecords(rs) && rs + [r] <= all
    ensures GoodRecords(rs + [r]) <==>
              && ValidRecord(r) && Find(rs, r.opId, RoleOf(r)).None?
              && r.eventSeq !in (set x | x in rs :: x.eventSeq)
    ensures GoodRecords(all) ==> GoodRecords(rs + [r])
  {
    var more := rs + [r];
    FindIsMember(rs, r.opId, RoleOf(r));
    if GoodRecords(all) {
    }
    if GoodRecords(more) {
      forall x | x in rs ensures Apart(x, r) {
        var i :| 0 <= i < |rs| && rs[i] == x;
        assert more[i] == x && more[|rs|] == r;
      }
      assert more[|rs|] == r;
    }
    if ValidRecord(r) && Find(rs, r.opId, RoleOf(r)).None? && r.eventSeq !in (set x | x in rs :: x.eventSeq) {
      forall i, j | 0 <= i < j < |more| ensures Apart(more[i], more[j]) {
        if j == |rs| {
          assert rs[i] in rs;
        }
      }
    }
  }

  // ---------- The second loop: building operations ----------

  predicate IsOpenAt(rs: seq<Record>, id: int) {
    var i := Find(rs, id, Invoked);
    i.Some? && i.value.operation == Some(Open)
  }

  /** The records the second loop has looked at for one operation: the syscall return only if it is an OPEN. */
  function UsedReturn(rs: seq<Record>, id: int): Option<Record> {
    if IsOpenAt(rs, id) then Find(rs, id, Returned) else None
  }

  ghost predicate PairedAt(rs: seq<Record>, id: int) {
    Complete(Find(rs, id, Invoked), Find(rs, id, Responded), UsedReturn(rs, id))
  }

  /** op was built from the records of id. */
  ghost predicate BuiltAt(rs: seq<Record>, id: int, op: Operation) {
    PairedAt(rs, id) && op == Build(Find(rs, id, Invoked).value, Find(rs, id, Responded).value, UsedReturn(rs, id))
  }

  /** What is left of the syscall returns once those of the OPENs among done were popped. */
  ghost predicate Remaining(rs: seq<Record>, done: seq<int>, remaining: map<int, Record>) {
    && (forall id :: id in remaining <==> Find(rs, id, Returned).Some? && !(id in done && IsOpenAt(rs, id)))
    && (forall id :: id in remaining ==> Some(remaining[id]) == Find(rs, id, Returned))
  }

  method BuildOperation(id: int, pairs: map<int, Pair>, remaining: map<int, Record>,
                        ghost rs: seq<Record>, ghost openReturns: map<int, Record>, ghost done: seq<int>)
    returns (op: Option<Operation>, fewer: map<int, Record>)
    requires Collected(rs, pairs, openReturns) && Remaining(rs, done, remaining)
    requires id in pairs && id !in done
    ensures op.Some? <==> PairedAt(rs, id)
    ensures op.Some? ==> BuiltAt(rs, id, op.value) && Remaining(rs, done + [id], fewer)
  {
    fewer := remaining;
    var pair := pairs[id];
    assert Slot(pairs, openReturns, id, Invoked) == Find(rs, id, Invoked);
    assert Slot(pairs, openReturns, id, Responded) == Find(rs, id, Responded);
    if pair.invoke.None? || pair.response.None? || !SameOperation(pair.invoke.value, pair.response.value) {
      return None, fewer;
    }
    var openReturn: Option<Record> := None;
    if pair.invoke.value.operation == Some(Open) {
      if id !in remaining {
        return None, fewer;
      }
      openReturn, fewer := Some(remaining[id]), remaining - {id};
      if !SameReturn(pair.invoke.value, pair.response.value, openReturn.value) {
        return None, fewer;
      }
    }
    op := Some(Build(pair.invoke.value, pair.response.value, openReturn));
  }

  /**
    Succeeds exactly when every event of the cell belongs to one complete operation, and returns those operations.
   */
  method PairHistory(records: seq<Record>, cell: Label) returns (r: Result<seq<Operation>>)
    ensures r.Success? <==> PairsUp(records, cell)
    ensures r.Success? ==> Recordings(records, cell, r.value)
    ensures r.Success? <==> WellPaired(CellRecords(records, cell))
    ensures r.Success? ==> OperationsOf(CellRecords(records, cell), r.value)
  {
    hide Collected, PairedAt, BuiltAt, GoodRecords, CellRecords, WellPaired, Remaining, OperationsOf;
    hide PairsUp, Recordings;
    ghost var rs := CellRecords(records, cell);
    PairsUpIsWellPaired(records, cell);
    var ok, pairs, openReturns, ids := Collect(records, cell);
    if !ok {
      NotGood(rs);
      return Failure;
    }
    if ids == [] {
      NothingPaired(rs, pairs, openReturns, ids);
      return Failure;
    }
    var operations: seq<Operation>, remaining := [], openReturns;
    AllRemain(rs, pairs, openReturns);
    for i := 0 to |ids|
      invariant |operations| == i && Remaining(rs, ids[..i], remaining)
      invariant forall k :: 0 <= k < i ==> BuiltAt(rs, ids[k], operations[k])
    {
      var op, fewer := BuildOperation(ids[i], pairs, remaining, rs, openReturns, ids[..i]);
      if op.None? {
        IncompleteOperation(rs, pairs, openReturns, ids[i]);
        return Failure;
      }
      assert ids[..i + 1] == ids[..i] + [ids[i]];
      operations, remaining := operations + [op.value], fewer;
    }
    assert ids[..|ids|] == ids;
    AllPaired(rs, pairs, openReturns, ids, operations, remaining);
    if remaining != map[] {
      return Failure;
    }
    RecordingsAreOperations(records, cell, operations);
    return Success(operations);
  }

  lemma NotGood(rs: seq<Record>)
    requires !GoodRecords(rs)
    ensures !WellPaired(rs)
  {
  }

  /** Without an operation there is no record, or only syscall returns that no operation claims. */
  lemma NothingPaired(rs: seq<Record>, pairs: map<int, Pair>, openReturns: map<int, Record>, ids: seq<int>)
    requires Collected(rs, pairs, openReturns) && ListsKeys(ids, pairs) && ids == []
    ensures !WellPaired(rs)
  {
    if rs != [] {
      assert Slot(pairs, openReturns, rs[0].opId, Invoked) == Find(rs, rs[0].opId, Invoked);
      assert rs[0] in rs && !CompleteAt(rs, rs[0].opId);
    }
  }

  lemma AllRemain(rs: seq<Record>, pairs: map<int, Pair>, openReturns: map<int, Record>)
    requires Collected(rs, pairs, openReturns)
    ensures Remaining(rs, [], openReturns)
  {
    forall id
      ensures id in openReturns <==> Find(rs, id, Returned).Some?
      ensures id in openReturns ==> Some(openReturns[id]) == Find(rs, id, Returned)
    {
      assert Slot(pairs, openReturns, id, Returned) == Find(rs, id, Returned);
    }
  }

  /** A key of the dictionary is the id of some record. */
  lemma KeyHasRecord(rs: seq<Record>, pairs: map<int, Pair>, openReturns: map<int, Record>, id: int) returns (r: Record)
    requires Collected(rs, pairs, openReturns) && id in pairs
    ensures r in rs && r.opId == id
  {
    assert Slot(pairs, openReturns, id, Invoked) == Find(rs, id, Invoked);
    assert Slot(pairs, openReturns, id, Responded) == Find(rs, id, Responded);
    FindIsMember(rs, id, Invoked);
    FindIsMember(rs, id, Responded);
    r := if pairs[id].invoke.Some? then pairs[id].invoke.value else pairs[id].response.value;
  }

  lemma IncompleteOperation(rs: seq<Record>, pairs: map<int, Pair>, openReturns: map<int, Record>, id: int)
    requires Collected(rs, pairs, openReturns) && id in pairs && !PairedAt(rs, id)
    ensures !WellPaired(rs)
  {
    var r := KeyHasRecord(rs, pairs, openReturns, id);
    assert !CompleteAt(rs, r.opId);
  }

  /** In a well paired log every syscall return was popped by its OPEN. */
  lemma NoneLeft(rs: seq<Record>, pairs: map<int, Pair>, openReturns: map<int, Record>, ids: seq<int>,
                 remaining: map<int, Record>, id: int)
    requires WellPaired(rs) && Collected(rs, pairs, openReturns) && ListsKeys(ids, pairs)
    requires Remaining(rs, ids, remaining)
    ensures id !in remaining
  {
    if Find(rs, id, Returned).Some? {
      FindIsMember(rs, id, Returned);
      assert CompleteAt(rs, Find(rs, id, Returned).value.opId);
      assert Slot(pairs, openReturns, id, Invoked) == Find(rs, id, Invoked);
      assert id in ids && IsOpenAt(rs, id);
    }
  }

  /** With every operation built, the log is well paired exactly when no syscall return is left over. */
  lemma AllPaired(rs: seq<Record>, pairs: map<int, Pair>, openReturns: map<int, Record>, ids: seq<int>,
                  operations: seq<Operation>, remaining: map<int, Record>)
    requires GoodRecords(rs) && Collected(rs, pairs, openReturns) && ListsKeys(ids, pairs) && ids != []
    requires |operations| == |ids| && forall k :: 0 <= k < |ids| ==> BuiltAt(rs, ids[k], operations[k])
    requires Remaining(rs, ids, remaining)
    ensures remaining == map[] <==> WellPaired(rs)
    ensures remaining == map[] ==> OperationsOf(rs, operations)
  {
    if WellPaired(rs) {
      forall id ensures id !in remaining {
        NoneLeft(rs, pairs, openReturns, ids, remaining, id);
      }
      assert remaining.Keys == {};
    }
    if remaining == map[] {
      var r := KeyHasRecord(rs, pairs, openReturns, ids[0]);
      forall k | 0 <= k < |ids| ensures CompleteAt(rs, ids[k]) && operations[k] == BuildAt(rs, ids[k]) {
        assert BuiltAt(rs, ids[k], operations[k]);
        assert ids[k] !in remaining;
      }
      forall x | x in rs ensures exists k :: 0 <= k < |ids| && ids[k] == x.opId {
        RecordHasKey(rs, pairs, openReturns, ids, remaining, x);
      }
      EachOperation(rs, ids, operations);
    }
  }

  lemma RecordHasKey(rs: seq<Record>, pairs: map<int, Pair>, openReturns: map<int, Record>, ids: seq<int>,
                     remaining: map<int, Record>, x: Record)
    requires GoodRecords(rs) && Collected(rs, pairs, openReturns) && ListsKeys(ids, pairs) && x in rs
    requires Remaining(rs, ids, remaining) && remaining == map[]
    ensures exists k :: 0 <= k < |ids| && ids[k] == x.opId
  {
    FindOwn(rs, x);
    assert Slot(pairs, openReturns, x.opId, RoleOf(x)) == Find(rs, x.opId, RoleOf(x));
    assert RoleOf(x) == Returned ==> x.opId !in remaining;
    assert x.opId in ids;
  }

  lemma EachOperation(rs: seq<Record>, ids: seq<int>, operations: seq<Operation>)
    requires |operations| == |ids| && forall i, j :: 0 <= i < j < |ids| ==> ids[i] != ids[j]
    requires forall k :: 0 <= k < |ids| ==> CompleteAt(rs, ids[k]) && operations[k] == BuildAt(rs, ids[k])
    requires forall x :: x in rs ==> exists k :: 0 <= k < |ids| && ids[k] == x.opId
    ensures OperationsOf(rs, operations)
    ensures forall x :: x in rs ==> CompleteAt(rs, x.opId)
  {
    forall k | 0 <= k < |ids| ensures operations[k].opId == ids[k] {
      FindIsMember(rs, ids[k], Invoked);
    }
    forall x | x in rs ensures exists op :: op in operations && op.opId == x.opId {
      var k :| 0 <= k < |ids| && ids[k] == x.opId;
      assert operations[k] in operations;
    }
  }

  // ---------- What the checker needs of the operations ----------

  /** The records an operation was built from. */
  ghost function PartsAt(rs: seq<Record>, id: int): set<Record> {
    set r | r in rs && r.opId == id
  }

  lemma BuiltFrom(rs: seq<Record>, op: Operation)
    requires GoodRecords(rs) && CompleteAt(rs, op.opId) && op == BuildAt(rs, op.opId)
    ensures op.invoke < op.response
    ensures exists r :: r in PartsAt(rs, op.opId) && r.eventSeq == op.invoke
    ensures exists r :: r in PartsAt(rs, op.opId) && r.eventSeq == op.response
  {
    FindIsMember(rs, op.opId, Invoked);
    FindIsMember(rs, op.opId, Responded);
    FindIsMember(rs, op.opId, Returned);
    assert Find(rs, op.opId, Invoked).value in PartsAt(rs, op.opId);
    assert Find(rs, op.opId, Responded).value in PartsAt(rs, op.opId);
    assert Find(rs, op.opId, Returned).Some? ==> Find(rs, op.opId, Returned).value in PartsAt(rs, op.opId);
  }

  /** Paired operations have nonempty intervals and pairwise distinct endpoints and ids. */
  lemma PairedIsWellTimed(rs: seq<Record>, ops: seq<Operation>)
    requires GoodRecords(rs) && OperationsOf(rs, ops)
    ensures WellTimed(ops)
  {
    hide GoodRecords;
    forall i | 0 <= i < |ops| ensures ops[i].invoke < ops[i].response {
      assert ops[i] in ops;
      BuiltFrom(rs, ops[i]);
    }
    forall i, j | 0 <= i < j < |ops| ensures DisjointEndpoints(ops[i], ops[j]) {
      assert ops[i] in ops && ops[j] in ops;
      EndpointsDiffer(rs, ops[i], ops[j]);
    }
  }

  lemma EndpointsDiffer(rs: seq<Record>, a: Operation, b: Operation)
    requires GoodRecords(rs) && a.opId != b.opId
    requires CompleteAt(rs, a.opId) && a == BuildAt(rs, a.opId)
    requires CompleteAt(rs, b.opId) && b == BuildAt(rs, b.opId)
    ensures DisjointEndpoints(a, b)
  {
    BuiltFrom(rs, a);
    BuiltFrom(rs, b);
    forall x, y | x in PartsAt(rs, a.opId) && y in PartsAt(rs, b.opId) ensures x.eventSeq != y.eventSeq {
      DifferentPlayers(rs, x, y);
    }
  }

  /** An OPEN takes three events, any other operation two. */
  function EventsUsed(ops: seq<Operation>): nat {
    if ops == [] then 0
    else EventsUsed(ops[..|ops| - 1]) + if ops[|ops| - 1].kind.Open? then 3 else 2
  }

  ghost function UsedBy(rs: seq<Record>, ops: seq<Operation>): set<Record> {
    if ops == [] then {} else UsedBy(rs, ops[..|ops| - 1]) + PartsAt(rs, ops[|ops| - 1].opId)
  }

  lemma {:induction false} UsedByMembers(rs: seq<Record>, ops: seq<Operation>, r: Record)
    ensures r in UsedBy(rs, ops) <==> r in rs && exists i :: 0 <= i < |ops| && ops[i].opId == r.opId
  {
    if ops != [] {
      UsedByMembers(rs, ops[..|ops| - 1], r);
    }
  }

  lemma PartsCount(rs: seq<Record>, op: Operation)
    requires GoodRecords(rs) && CompleteAt(rs, op.opId) && op == BuildAt(rs, op.opId)
    ensures |PartsAt(rs, op.opId)| == if op.kind.Open? then 3 else 2
  {
    hide GoodRecords, Find, PartsAt, SameReturn;
    var i, r, ret := Find(rs, op.opId, Invoked), Find(rs, op.opId, Responded), Find(rs, op.opId, Returned);
    FindIsMember(rs, op.opId, Invoked);
    FindIsMember(rs, op.opId, Responded);
    FindIsMember(rs, op.opId, Returned);
    var found := if ret.Some? then {i.value, r.value, ret.value} else {i.value, r.value};
    assert RoleOf(i.value) == Invoked && RoleOf(r.value) == Responded;
    if ret.Some? {
      SizeOfTriple(i.value, r.value, ret.value);
    } else {
      SizeOfPair(i.value, r.value);
    }
    forall x ensures x in PartsAt(rs, op.opId) <==> x in found {
      PartFound(rs, op.opId, x);
    }
    assert PartsAt(rs, op.opId) == found;
  }

  /** A record of an operation is the one found for some role. */
  lemma PartFound(rs: seq<Record>, id: int, x: Record)
    requires GoodRecords(rs)
    ensures x in PartsAt(rs, id) <==>
              || Find(rs, id, Invoked) == Some(x)
              || Find(rs, id, Responded) == Some(x)
              || Find(rs, id, Returned) == Some(x)
  {
    FindIsMember(rs, id, Invoked);
    FindIsMember(rs, id, Responded);
    FindIsMember(rs, id, Returned);
    if x in PartsAt(rs, id) {
      FindOwn(rs, x);
    }
  }

  lemma SizeOfPair(a: Record, b: Record)
    requires a != b
    ensures |{a, b}| == 2
  {
    assert {a, b} == {a} + {b};
  }

  lemma SizeOfTriple(a: Record, b: Record, c: Record)
    requires a != b && a != c && b != c
    ensures |{a, b, c}| == 3
  {
    assert {a, b, c} == {a, b} + {c};
    SizeOfPair(a, b);
  }

  ghost predicate IsBuilt(rs: seq<Record>, op: Operation) {
    CompleteAt(rs, op.opId) && op == BuildAt(rs, op.opId)
  }

  lemma {:induction false} UsedByCount(rs: seq<Record>, ops: seq<Operation>)
    requires GoodRecords(rs)
    requires forall i, j :: 0 <= i < j < |ops| ==> ops[i].opId != ops[j].opId
    requires forall i :: 0 <= i < |ops| ==> IsBuilt(rs, ops[i])
    ensures |UsedBy(rs, ops)| == EventsUsed(ops)
  {
    hide GoodRecords, IsBuilt, PartsAt;
    if ops != [] {
      var m := |ops| - 1;
      UsedByCount(rs, ops[..m]);
      BuiltCount(rs, ops[m]);
      UsedByOthers(rs, ops[..m], ops[m].opId);
    }
  }

  lemma BuiltCount(rs: seq<Record>, op: Operation)
    requires GoodRecords(rs) && IsBuilt(rs, op)
    ensures |PartsAt(rs, op.opId)| == if op.kind.Open? then 3 else 2
  {
    PartsCount(rs, op);
  }

  lemma UsedByOthers(rs: seq<Record>, ops: seq<Operation>, id: int)
    requires forall i :: 0 <= i < |ops| ==> ops[i].opId != id
    ensures UsedBy(rs, ops) !! PartsAt(rs, id)
  {
    forall r | r in PartsAt(rs, id) ensures r !in UsedBy(rs, ops) {
      UsedByMembers(rs, ops, r);
    }
  }

  /** The operations account for every event of the cell. */
  lemma EveryEventUsed(rs: seq<Record>, ops: seq<Operation>)
    requires OperationsOf(rs, ops)
    ensures UsedBy(rs, ops) == ToSet(rs)
  {
    forall r ensures r in UsedBy(rs, ops) <==> r in ToSet(rs) {
      UsedByMembers(rs, ops, r);
      if r in rs {
        var op :| op in ops && op.opId == r.opId;
        var i :| 0 <= i < |ops| && ops[i] == op;
      }
    }
  }

  /** Conservation: counting two events for an update and three for an OPEN counts the cell's events. */
  lemma EveryEventUsedOnce(rs: seq<Record>, ops: seq<Operation>)
    requires GoodRecords(rs) && OperationsOf(rs, ops)
    ensures EventsUsed(ops) == |rs|
  {
    hide GoodRecords, UsedBy, ToSet, CompleteAt;
    forall i | 0 <= i < |ops| ensures IsBuilt(rs, ops[i]) {
      assert ops[i] in ops;
    }
    UsedByCount(rs, ops);
    EveryEventUsed(rs, ops);
    forall i, j | 0 <= i < j < |rs| ensures rs[i] != rs[j] {
      GoodApart(rs, i, j);
    }
    SizeOfSet(rs);
  }

  lemma GoodApart(rs: seq<Record>, i: nat, j: nat)
    requires GoodRecords(rs) && i < j < |rs|
    ensures Apart(rs[i], rs[j])
  {
  }

  // ---------- Pairing in terms of the log alone ----------

  predicate IsInvoke(x: Record, cell: Label, id: int) {
    x.event == HistoryEvent && x.phase == Invoke && x.cell == cell && x.opId == id
  }

  predicate IsResponse(x: Record, cell: Label, id: int) {
    x.event == HistoryEvent && x.phase == Response && x.cell == cell && x.opId == id
  }

  predicate IsReturn(x: Record, cell: Label, id: int) {
    x.event == OpenReturnEvent && x.cell == cell && x.opId == id
  }

  predicate InHistory(x: Record, cell: Label) {
    (x.event == HistoryEvent || x.event == OpenReturnEvent) && x.cell == cell
  }

  /** A positive event number and time, and one of the three parts of an operation. */
  ghost predicate WellFormed(x: Record, cell: Label) {
    && x.eventSeq > 0
    && (exists t :: x.timeNs == Some(t) && t > 0)
    && (IsInvoke(x, cell, x.opId) || IsResponse(x, cell, x.opId) || IsReturn(x, cell, x.opId))
  }

  /** Different event numbers, and not the same part of the same operation. */
  predicate Different(x: Record, y: Record, cell: Label) {
    && x.eventSeq != y.eventSeq
    && !(IsInvoke(x, cell, y.opId) && IsInvoke(y, cell, x.opId))
    && !(IsResponse(x, cell, y.opId) && IsResponse(y, cell, x.opId))
    && !(IsReturn(x, cell, y.opId) && IsReturn(y, cell, x.opId))
  }

  ghost predicate AllWellFormed(records: seq<Record>, cell: Label) {
    forall x :: x in records && InHistory(x, cell) ==> WellFormed(x, cell)
  }

  ghost predicate AllDifferent(records: seq<Record>, cell: Label) {
    forall k, m | 0 <= k < m < |records| && InHistory(records[k], cell) && InHistory(records[m], cell) ::
      Different(records[k], records[m], cell)
  }

  /** A missing number on the left counts as absent, one on the right as given. */
  predicate SameNumber(a: Option<int>, b: Option<int>, absent: int, given: int) {
    match (a, b)
    case (Some(m), Some(n)) => m == n
    case (Some(m), None) => m == given
    case (None, Some(n)) => n == absent
    case (None, None) => absent == given
  }

  /** i and p are the invocation and the response of id, they agree, and an OPEN alone has a fitting syscall return. */
  ghost predicate FitTogether(records: seq<Record>, cell: Label, id: int, i: Record, p: Record) {
    && IsInvoke(i, cell, id) && IsResponse(p, cell, id) && i.eventSeq < p.eventSeq
    && i.operation != None && p.result != None
    && p.operation == i.operation && p.subtype == i.subtype
    && p.actor == i.actor && p.actorId == i.actorId && p.writerSeq == i.writerSeq
    && (i.operation in {Some(Set), Some(Clear)} ==> p.state == i.state && p.device == i.device && p.inode == i.inode)
    && (i.operation != Some(Open) ==> forall ret :: ret in records ==> !IsReturn(ret, cell, id))
    && (i.operation == Some(Open) ==> exists ret :: ret in records && ReturnsFrom(ret, cell, id, i, p))
  }

  predicate ReturnsFrom(ret: Record, cell: Label, id: int, i: Record, p: Record) {
    && IsReturn(ret, cell, id) && i.eventSeq < ret.eventSeq < p.eventSeq && ret.actor == i.actor
    && SameNumber(ret.actorId, i.actorId, -1, 0) && SameNumber(ret.result, p.result, 1, 0)
  }

  /** The log has events of the cell, they are well formed and differ, and each is part of one whole operation. */
  ghost predicate PairsUp(records: seq<Record>, cell: Label) {
    && (exists x :: x in records && InHistory(x, cell))
    && AllWellFormed(records, cell) && AllDifferent(records, cell)
    && (forall x :: x in records && InHistory(x, cell) ==> Whole(records, cell, x.opId))
  }

  ghost predicate Whole(records: seq<Record>, cell: Label, id: int) {
    exists i, p :: i in records && p in records && FitTogether(records, cell, id, i, p)
  }

  /**
    Where each field of an operation comes from: its response tells state, result and identity, its invocation all
    else, and an OPEN ends at its syscall return.
   */
  ghost predicate RecordedAs(records: seq<Record>, cell: Label, op: Operation, i: Record, p: Record) {
    && FitTogether(records, cell, op.opId, i, p)
    && i.operation == Some(op.kind) && op.invoke == i.eventSeq
    && i.subtype in (if op.subtype == 0 then {None, Some(0)} else {Some(op.subtype)})
    && i.actor in (if op.actor == 0 then {None, Some(0)} else {Some(op.actor)})
    && i.actorId in (if op.actorId == 0 then {None, Some(0)} else {Some(op.actorId)})
    && i.writerSeq in (if op.writerSeq == 0 then {None, Some(0)} else {Some(op.writerSeq)})
    && p.state in (if op.state == Empty then {None, Some(Empty)} else {Some(op.state)})
    && p.device in (if op.device == 0 then {None, Some(0)} else {Some(op.device)})
    && p.inode in (if op.inode == 0 then {None, Some(0)} else {Some(op.inode)})
    && p.result == Some(op.result)
    && (if op.kind == Open
        then exists ret :: ret in records && IsReturn(ret, cell, op.opId) && op.response == ret.eventSeq
        else op.response == p.eventSeq)
  }

  ghost predicate Recorded(records: seq<Record>, cell: Label, op: Operation) {
    exists i, p :: i in records && p in records && RecordedAs(records, cell, op, i, p)
  }

  /** ops are the operations of the cell, one for each operation id, with the fields their records tell. */
  ghost predicate Recordings(records: seq<Record>, cell: Label, ops: seq<Operation>) {
    && (forall i, j :: 0 <= i < j < |ops| ==> ops[i].opId != ops[j].opId)
    && (forall op :: op in ops ==> Recorded(records, cell, op))
    && (forall x :: x in records && InHistory(x, cell) ==> exists op :: op in ops && op.opId == x.opId)
  }

  lemma CellRecordsAre(records: seq<Record>, cell: Label, x: Record)
    ensures x in CellRecords(records, cell) <==> x in records && InHistory(x, cell)
    ensures InHistory(x, cell) ==> multiset(CellRecords(records, cell))[x] == multiset(records)[x]
  {
    FilterMember(InCell(cell), records, x);
    FilterMultiplicity(InCell(cell), records, x);
  }

  /** No record stops the first loop exactly when the events of the cell are well formed and differ. */
  lemma GoodInLog(records: seq<Record>, cell: Label)
    ensures GoodRecords(CellRecords(records, cell)) <==> AllWellFormed(records, cell) && AllDifferent(records, cell)
  {
    hide WellFormed, ValidRecord, Apart, Different, CellRecords, InHistory, AllDifferent;
    var rs := CellRecords(records, cell);
    forall x ensures x in rs <==> x in records && InHistory(x, cell) {
      CellRecordsAre(records, cell, x);
    }
    forall x | InHistory(x, cell) ensures WellFormed(x, cell) <==> ValidRecord(x) {
      WellFormedIsValid(x, cell);
    }
    if AllWellFormed(records, cell) {
      DifferentInLog(records, cell);
    }
  }

  lemma DifferentInLog(records: seq<Record>, cell: Label)
    requires AllWellFormed(records, cell)
    ensures (forall i, j :: 0 <= i < j < |CellRecords(records, cell)| ==>
               Apart(CellRecords(records, cell)[i], CellRecords(records, cell)[j])) <==> AllDifferent(records, cell)
  {
    hide Apart, Different, WellFormed, Filter;
    var rs := CellRecords(records, cell);
    FilterPairs(Apart, InCell(cell), records);
    assert Pairwise(Apart, Always, rs) <==> forall i, j :: 0 <= i < j < |rs| ==> Apart(rs[i], rs[j]);
    forall x | x in records ensures InCell(cell)(x) <==> InHistory(x, cell) {
    }
    forall x, y | WellFormed(x, cell) && WellFormed(y, cell) ensures Apart(x, y) <==> Different(x, y, cell) {
      ApartIsDifferent(x, y, cell);
    }
  }

  lemma ApartIsDifferent(x: Record, y: Record, cell: Label)
    requires WellFormed(x, cell) && WellFormed(y, cell)
    ensures Apart(x, y) <==> Different(x, y, cell)
  {
  }

  lemma WellFormedIsValid(x: Record, cell: Label)
    requires InHistory(x, cell)
    ensures WellFormed(x, cell) <==> ValidRecord(x)
  {
  }

  lemma Finds(records: seq<Record>, cell: Label, id: int, x: Record)
    requires GoodRecords(CellRecords(records, cell))
    ensures Find(CellRecords(records, cell), id, Invoked) == Some(x) <==> x in records && IsInvoke(x, cell, id)
    ensures Find(CellRecords(records, cell), id, Responded) == Some(x) <==> x in records && IsResponse(x, cell, id)
    ensures Find(CellRecords(records, cell), id, Returned) == Some(x) <==> x in records && IsReturn(x, cell, id)
  {
    var rs := CellRecords(records, cell);
    CellRecordsAre(records, cell, x);
    FindIsMember(rs, id, Invoked);
    FindIsMember(rs, id, Responded);
    FindIsMember(rs, id, Returned);
    if x in rs {
      FindOwn(rs, x);
      var k :| 0 <= k < |rs| && rs[k] == x;
      assert ValidRecord(rs[k]);
    }
  }

  lemma WholeIsComplete(records: seq<Record>, cell: Label, id: int)
    requires GoodRecords(CellRecords(records, cell))
    ensures Whole(records, cell, id) <==> CompleteAt(CellRecords(records, cell), id)
  {
    hide GoodRecords, Find, CellRecords;
    var rs := CellRecords(records, cell);
    forall x
      ensures Find(rs, id, Invoked) == Some(x) <==> x in records && IsInvoke(x, cell, id)
      ensures Find(rs, id, Responded) == Some(x) <==> x in records && IsResponse(x, cell, id)
      ensures Find(rs, id, Returned) == Some(x) <==> x in records && IsReturn(x, cell, id)
    {
      Finds(records, cell, id, x);
    }
    if CompleteAt(rs, id) {
      var i, p := Find(rs, id, Invoked).value, Find(rs, id, Responded).value;
      assert FitTogether(records, cell, id, i, p);
    }
  }

  /** A cell is well paired, as the dictionaries decide it, exactly when its log pairs up. */
  lemma PairsUpIsWellPaired(records: seq<Record>, cell: Label)
    ensures PairsUp(records, cell) <==> WellPaired(CellRecords(records, cell))
  {
    hide GoodRecords, CellRecords, Whole, CompleteAt, AllDifferent, AllWellFormed, InHistory;
    var rs := CellRecords(records, cell);
    GoodInLog(records, cell);
    forall x ensures x in rs <==> x in records && InHistory(x, cell) {
      CellRecordsAre(records, cell, x);
    }
    if GoodRecords(rs) {
      forall x | x in rs ensures Whole(records, cell, x.opId) <==> CompleteAt(rs, x.opId) {
        WholeIsComplete(records, cell, x.opId);
      }
    }
    assert rs != [] ==> rs[0] in rs;
  }

  /** The recorded operations are those the source builds. */
  lemma RecordingsAreOperations(records: seq<Record>, cell: Label, ops: seq<Operation>)
    requires WellPaired(CellRecords(records, cell))
    ensures Recordings(records, cell, ops) <==> OperationsOf(CellRecords(records, cell), ops)
  {
    hide Recorded, CellRecords, GoodRecords, CompleteAt, InHistory;
    var rs := CellRecords(records, cell);
    forall x ensures x in rs <==> x in records && InHistory(x, cell) {
      CellRecordsAre(records, cell, x);
    }
    forall op ensures Recorded(records, cell, op) <==> CompleteAt(rs, op.opId) && op == BuildAt(rs, op.opId) {
      RecordedIsBuilt(records, cell, op);
    }
  }

  lemma RecordedIsBuilt(records: seq<Record>, cell: Label, op: Operation)
    requires GoodRecords(CellRecords(records, cell))
    ensures Recorded(records, cell, op) <==>
              && CompleteAt(CellRecords(records, cell), op.opId)
              && op == BuildAt(CellRecords(records, cell), op.opId)
  {
    hide GoodRecords, Find, CellRecords;
    var rs := CellRecords(records, cell);
    forall x
      ensures Find(rs, op.opId, Invoked) == Some(x) <==> x in records && IsInvoke(x, cell, op.opId)
      ensures Find(rs, op.opId, Responded) == Some(x) <==> x in records && IsResponse(x, cell, op.opId)
      ensures Find(rs, op.opId, Returned) == Some(x) <==> x in records && IsReturn(x, cell, op.opId)
    {
      Finds(records, cell, op.opId, x);
    }
    if CompleteAt(rs, op.opId) && op == BuildAt(rs, op.opId) {
      var i, p := Find(rs, op.opId, Invoked).value, Find(rs, op.opId, Responded).value;
      assert RecordedAs(records, cell, op, i, p);
    }
  }
}
