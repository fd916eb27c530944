/** Target retirement: the trace's update windows against the updates of the checked history. */
module Retirement {
  import opened Sequences
  import opened Wrappers
  import opened History
  import opened Linearizability
  import opened PairHistory
  import opened CheckLinearizable
  import opened TargetHistory
  import opened RcuTrace

  function WriterSeqs(ops: seq<Operation>): set<int> {
    set op | op in ops && op.IsUpdate() :: op.writerSeq
  }

  /** Marked windows are the history's updates; no branch may name another one. */
  method CheckCoverage(ops: seq<Operation>, raw: Parsed, ghost t: Trace) returns (ok: bool)
    requires Reports(raw, t)
    ensures ok <==> ToSet(Numbers(t.windows)) == WriterSeqs(ops)
  {
    var begins := BeginsIn(raw.markers);
    WindowsPair(t.windows);
    var marked := ToSet(begins);
    forall b | b in raw.branches && b.underUpdate ensures b.writerSeq in marked {
      InsideIsNumbered(t, b);
    }
    var unmarked := exists b :: b in raw.branches && b.underUpdate && b.writerSeq !in marked;
    ok := marked == WriterSeqs(ops) && !unmarked;
  }

  lemma {:induction false} OutsideIsUnmarked(results: seq<int>, b: Branch)
    ensures b in Outside(results) ==> !b.underUpdate
  {
    if results != [] {
      OutsideIsUnmarked(results[..|results| - 1], b);
    }
  }

  lemma {:induction false} InsideIsMarked(results: seq<int>, number: nat, b: Branch)
    ensures b in Inside(results, number) ==> b.writerSeq == number
  {
    if results != [] {
      InsideIsMarked(results[..|results| - 1], number, b);
    }
  }

  lemma {:induction false} WindowsAreNumbered(ws: seq<Window>, b: Branch)
    requires b in WindowsBranches(ws) && b.underUpdate
    ensures b.writerSeq in Numbers(ws)
  {
    var m := |ws| - 1;
    if b in WindowsBranches(ws[..m]) {
      WindowsAreNumbered(ws[..m], b);
    } else {
      OutsideIsUnmarked(ws[m].armed, b);
      OutsideIsUnmarked(ws[m].returned, b);
      OutsideIsUnmarked(ws[m].gap, b);
      InsideIsMarked(ws[m].during, ws[m].number, b);
    }
  }

  /** A branch under update names a window of the trace, so the "unmarked update" check never fires. */
  lemma InsideIsNumbered(t: Trace, b: Branch)
    requires b in BranchesOf(t) && b.underUpdate
    ensures b.writerSeq in Numbers(t.windows)
  {
    OutsideIsUnmarked(t.idle, b);
    WindowsAreNumbered(t.windows, b);
  }

  /** A valid history numbers its updates 1 to n. */
  lemma ValidNumbers(ops: seq<Operation>)
    requires ValidHistory(ops)
    ensures WriterSeqs(ops) == Range(1, |Updates(ops)| + 1)
  {
    hide ValidHistory;
    ChecksMeanValid(ops);
    var u := WriterOrder(ops);
    SortedSizes(ops);
    SizeOfRange(1, |u| + 1);
    forall n ensures n in WriterSeqs(ops) <==> n in Range(1, |u| + 1) {
      if n in Range(1, |u| + 1) {
        SortedMembers(ops, u[n - 1]);
        assert u[n - 1] in u && u[n - 1].writerSeq == n;
      }
      if n in WriterSeqs(ops) {
        var op :| op in ops && op.IsUpdate() && op.writerSeq == n;
        SortedMembers(ops, op);
        var i :| 0 <= i < |u| && u[i] == op;
      }
    }
  }

  /**
    After the history checks and marker coverage pass, the windows are numbered by a permutation of 1 to n: one
    window for each update of the history.
   */
  lemma CoverageIsPermutation(ops: seq<Operation>, t: Trace)
    requires ValidHistory(ops) && Conclusive(t)
    requires ToSet(Numbers(t.windows)) == WriterSeqs(ops)
    ensures |t.windows| == |Updates(ops)|
    ensures NoDuplicates(Numbers(t.windows)) && ToSet(Numbers(t.windows)) == Range(1, |t.windows| + 1)
    ensures forall op :: op in ops && op.IsUpdate() ==>
              exists i :: 0 <= i < |Numbers(t.windows)| && Numbers(t.windows)[i] == op.writerSeq
  {
    hide ValidHistory;
    ValidNumbers(ops);
    SizeOfRange(1, |Updates(ops)| + 1);
    SizeOfSet(Numbers(t.windows));
    WindowsPair(t.windows);
    forall op | op in ops && op.IsUpdate()
      ensures exists i :: 0 <= i < |Numbers(t.windows)| && Numbers(t.windows)[i] == op.writerSeq
    {
      assert op.writerSeq in WriterSeqs(ops);
      assert op.writerSeq in ToSet(Numbers(t.windows));
    }
  }

  // ---------- A cell from log and trace to its windows ----------

  /** The log pairs into operations that are valid and linearizable, and the windows of the trace are its updates. */
  ghost predicate Evidence(rs: seq<Record>, tokens: seq<Token>, ops: seq<Operation>, t: Trace) {
    && WellPaired(rs) && OperationsOf(rs, ops) && ValidHistory(ops) && Linearizable(ops)
    && Lossless(tokens) && Numbered(t) && Strip(tokens) == Print(t) && Conclusive(t)
    && ToSet(Numbers(t.windows)) == WriterSeqs(ops)
  }

  /** Evidence does not depend on which listing of the operations is looked at, and a stream has one trace. */
  lemma EvidenceIsUnique(rs: seq<Record>, tokens: seq<Token>, ops: seq<Operation>, t: Trace,
                         others: seq<Operation>, other: Trace)
    requires Evidence(rs, tokens, others, other)
    requires OperationsOf(rs, ops)
    ensures ValidHistory(ops) && Linearizable(ops) && WriterSeqs(ops) == WriterSeqs(others)
    ensures Numbered(t) && Strip(tokens) == Print(t) ==> t == other
  {
    hide OperationsOf, ValidHistory, Linearizable, Strip, Print, Numbered, GoodRecords, CompleteAt, Conclusive;
    SameOperations(rs, rs, ops, others);
    PermutedSameVerdict(ops, others);
    SameElements(ops, others);
    if Numbered(t) && Strip(tokens) == Print(t) {
      SameTrace(tokens, t, other);
    }
  }

  /**
    Pairing, the linearizability check, trace parsing and marker coverage in a row succeed exactly on evidence; then
    the windows of the trace are numbered by a permutation of 1 to n, one for each of the n updates of the history.
   */
  method ValidateCell(records: seq<Record>, cell: Label, tokens: seq<Token>) returns (r: Result<(Report, Parsed)>)
    ensures r.Success? <==> exists ops, t :: Evidence(CellRecords(records, cell), tokens, ops, t)
    ensures r.Success? ==>
              exists ops, t :: Evidence(CellRecords(records, cell), tokens, ops, t)
                && ReportOf(ops, r.value.0) && Reports(r.value.1, t)
                && r.value.0.updates == r.value.1.windows == |Numbers(t.windows)|
                && NoDuplicates(Numbers(t.windows))
                && ToSet(Numbers(t.windows)) == Range(1, r.value.1.windows + 1)
  {
    hide *;
    ghost var rs := CellRecords(records, cell);
    var paired := PairHistory.PairHistory(records, cell);
    EvidenceImplies(rs, tokens);
    if paired.Failure? {
      return Failure;
    }
    var ops := paired.value;
    PairedIntervals(rs, ops);
    EvidenceImpliesAll(rs, tokens, ops);
    var linear := CheckLinearizable.CheckLinearizable(ops);
    if linear.Failure? {
      return Failure;
    }
    var raw := RcuTrace.ParseTrace(tokens);
    if raw.Failure? {
      return Failure;
    }
    ghost var t :| Numbered(t) && Strip(tokens) == Print(t) && Conclusive(t) && Reports(raw.value, t);
    var covered := CheckCoverage(ops, raw.value, t);
    if !covered {
      return Failure;
    }
    EvidenceFound(rs, tokens, ops, t, linear.value, raw.value);
    r := Success((linear.value, raw.value));
  }

  /** What evidence says about the log and the stream by themselves. */
  lemma EvidenceImplies(rs: seq<Record>, tokens: seq<Token>)
    ensures (exists ops, t :: Evidence(rs, tokens, ops, t)) ==>
              && WellPaired(rs)
              && Lossless(tokens) && exists t :: Numbered(t) && Strip(tokens) == Print(t) && Conclusive(t)
  {
    hide WellPaired, OperationsOf, ValidHistory, Linearizable, Lossless, Numbered, Strip, Print, Conclusive;
  }

  lemma PairedIntervals(rs: seq<Record>, ops: seq<Operation>)
    ensures WellPaired(rs) && OperationsOf(rs, ops) ==> WellTimed(ops) && NonemptyIntervals(ops)
  {
    hide GoodRecords, OperationsOf, CompleteAt, NonemptyIntervals, DisjointEndpoints;
    if WellPaired(rs) && OperationsOf(rs, ops) {
      PairedIsWellTimed(rs, ops);
    }
  }

  /** What evidence says about any listing of the operations and any trace that the stream prints. */
  lemma EvidenceImpliesAll(rs: seq<Record>, tokens: seq<Token>, ops: seq<Operation>)
    requires OperationsOf(rs, ops)
    ensures (exists others, other :: Evidence(rs, tokens, others, other)) ==>
              && ValidHistory(ops) && Linearizable(ops)
              && forall t :: Numbered(t) && Strip(tokens) == Print(t) ==> ToSet(Numbers(t.windows)) == WriterSeqs(ops)
  {
    hide OperationsOf, ValidHistory, Linearizable, WellPaired, Lossless, Numbered, Strip, Print, Conclusive;
    if others, other :| Evidence(rs, tokens, others, other) {
      EvidenceIsUnique(rs, tokens, ops, other, others, other);
      forall t | Numbered(t) && Strip(tokens) == Print(t) ensures t == other {
        EvidenceIsUnique(rs, tokens, ops, t, others, other);
      }
    }
  }

  lemma EvidenceFound(rs: seq<Record>, tokens: seq<Token>, ops: seq<Operation>, t: Trace,
                      linear: Report, raw: Parsed)
    requires WellPaired(rs) && OperationsOf(rs, ops) && ValidHistory(ops) && Linearizable(ops)
    requires Lossless(tokens) && Numbered(t) && Strip(tokens) == Print(t) && Conclusive(t)
    requires ToSet(Numbers(t.windows)) == WriterSeqs(ops)
    requires ReportOf(ops, linear) && Reports(raw, t)
    ensures Evidence(rs, tokens, ops, t)
    ensures linear.updates == raw.windows == |Numbers(t.windows)| && NoDuplicates(Numbers(t.windows))
    ensures ToSet(Numbers(t.windows)) == Range(1, raw.windows + 1)
  {
    hide OperationsOf, ValidHistory, Linearizable, WellPaired, Lossless, Numbered, Strip, Print, Conclusive;
    hide LeastAssignment;
    CoverageIsPermutation(ops, t);
    WindowsPair(t.windows);
  }
}
