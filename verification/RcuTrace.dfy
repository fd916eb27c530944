/**
  The concurrent RCU trace: a token-level parser with four hidden phases, and the grammar of update windows it accepts.
 */
module RcuTrace {
  import opened Wrappers
  import opened Sequences

  const ENOENT := 2

  /** One line of the trace; the fields of a malformed line are absent. */
  datatype Token =
    | Header(buffered: nat, written: nat)
    | Begin(number: nat)
    | Enter
    | Resolve(fields: Option<Resolution>)
    | Return(result: Option<int>)
    | End(number: nat)
    | Noise

  datatype Resolution = Resolution(rcuWalk: nat, result: int)

  // ---------- The grammar ----------

  /**
    An update window: its begin marker, enter, return and end marker, with the results of the target resolutions
    between them and of those after its end.
   */
  datatype Window = Window(
    number: nat, armed: seq<int>, during: seq<int>, result: int, returned: seq<int>, gap: seq<int>)

  /** A trace without header and noise: resolutions, then windows. */
  datatype Trace = Trace(idle: seq<int>, windows: seq<Window>)

  predicate Numbered(t: Trace) {
    forall i :: 0 <= i < |t.windows| ==> t.windows[i].number > 0
  }

  function Resolved(result: int): Token {
    Resolve(Some(Resolution(1, result)))
  }

  function Resolutions(results: seq<int>): seq<Token> {
    if results == [] then []
    else Resolutions(results[..|results| - 1]) + [Resolved(results[|results| - 1])]
  }

  function PrintWindow(w: Window): seq<Token> {
    [Begin(w.number)] + Resolutions(w.armed) + [Enter] + Resolutions(w.during) + [Return(Some(w.result))]
    + Resolutions(w.returned) + [End(w.number)] + Resolutions(w.gap)
  }

  function PrintWindows(ws: seq<Window>): seq<Token> {
    if ws == [] then [] else PrintWindows(ws[..|ws| - 1]) + PrintWindow(ws[|ws| - 1])
  }

  function Print(t: Trace): seq<Token> {
    Resolutions(t.idle) + PrintWindows(t.windows)
  }

  /** The tokens of the update windows: everything but the header and unrelated lines. */
  function Strip(tokens: seq<Token>): seq<Token> {
    Filter(OfWindows, tokens)
  }

  predicate OfWindows(token: Token) {
    !token.Header? && !token.Noise?
  }

  /** The window, if any, that is between its enter and its return when tokens end. */
  function ActiveAfter(tokens: seq<Token>): nat {
    if tokens == [] then 0
    else
      match tokens[|tokens| - 1]
      case Enter => LastBegun(tokens[..|tokens| - 1])
      case Return(_) => 0
      case _ => ActiveAfter(tokens[..|tokens| - 1])
  }

  function LastBegun(tokens: seq<Token>): nat {
    if tokens == [] then 0
    else if tokens[|tokens| - 1].Begin? then tokens[|tokens| - 1].number
    else LastBegun(tokens[..|tokens| - 1])
  }

  datatype Branch = Branch(result: int, underUpdate: bool, writerSeq: nat)

  /** Each well-formed resolution, marked with the window it lies in. */
  function Labelled(tokens: seq<Token>): seq<Branch> {
    if tokens == [] then []
    else
      var before := tokens[..|tokens| - 1];
      var last := tokens[|tokens| - 1];
      Labelled(before) +
      if last.Resolve? && last.fields.Some? then
        [Branch(last.fields.value.result, ActiveAfter(before) != 0, ActiveAfter(before))]
      else []
  }

  // ---------- The parser on grammar terms ----------

  /** How far the window being read has come. */
  datatype Phase =
    | Idle
    | Armed(number: nat, armed: seq<int>)
    | Active(number: nat, armed: seq<int>, during: seq<int>)
    | Returned(number: nat, armed: seq<int>, during: seq<int>, result: int, returned: seq<int>)

  datatype Partial = Partial(trace: Trace, phase: Phase)

  const NOTHING := Partial(Trace([], []), Idle)

  function AddGap(t: Trace, result: int): Trace {
    if t.windows == [] then t.(idle := t.idle + [result])
    else
      var m := |t.windows| - 1;
      t.(windows := t.windows[..m] + [t.windows[m].(gap := t.windows[m].gap + [result])])
  }

  function StepResolve(p: Partial, result: int): Partial {
    match p.phase
    case Idle => p.(trace := AddGap(p.trace, result))
    case Armed(n, a) => p.(phase := Armed(n, a + [result]))
    case Active(n, a, d) => p.(phase := Active(n, a, d + [result]))
    case Returned(n, a, d, r, l) => p.(phase := Returned(n, a, d, r, l + [result]))
  }

  function Step(p: Partial, token: Token): Option<Partial> {
    match token
    case Header(_, _) => Some(p)
    case Noise => Some(p)
    case Resolve(fields) =>
      if fields.Some? && fields.value.rcuWalk == 1 then Some(StepResolve(p, fields.value.result)) else None
    case Begin(n) =>
      if n > 0 && p.phase.Idle? then Some(p.(phase := Armed(n, []))) else None
    case Enter =>
      if p.phase.Armed? then Some(p.(phase := Active(p.phase.number, p.phase.armed, []))) else None
    case Return(result) =>
      if p.phase.Active? && result.Some? then
        Some(p.(phase := Returned(p.phase.number, p.phase.armed, p.phase.during, result.value, [])))
      else None
    case End(n) =>
      if p.phase.Returned? && n == p.phase.number then
        var w := Window(n, p.phase.armed, p.phase.during, p.phase.result, p.phase.returned, []);
        Some(Partial(p.trace.(windows := p.trace.windows + [w]), Idle))
      else None
  }

  function Run(tokens: seq<Token>): Option<Partial> {
    if tokens == [] then Some(NOTHING)
    else
      match Run(tokens[..|tokens| - 1])
      case None => None
      case Some(p) => Step(p, tokens[|tokens| - 1])
  }

  function PrintPhase(phase: Phase): seq<Token> {
    match phase
    case Idle => []
    case Armed(n, a) => [Begin(n)] + Resolutions(a)
    case Active(n, a, d) => [Begin(n)] + Resolutions(a) + [Enter] + Resolutions(d)
    case Returned(n, a, d, r, l) =>
      [Begin(n)] + Resolutions(a) + [Enter] + Resolutions(d) + [Return(Some(r))] + Resolutions(l)
  }

  function PrintPartial(p: Partial): seq<Token> {
    Print(p.trace) + PrintPhase(p.phase)
  }

  predicate NumberedSoFar(p: Partial) {
    Numbered(p.trace) && (!p.phase.Idle? ==> p.phase.number > 0)
  }

  // ---------- Parsing and printing are inverse ----------

  lemma ResolutionsExtend(results: seq<int>, result: int)
    ensures Resolutions(results + [result]) == Resolutions(results) + [Resolved(result)]
  {
    assert (results + [result])[..|results|] == results;
  }

  lemma PrintAddGap(t: Trace, result: int)
    ensures Print(AddGap(t, result)) == Print(t) + [Resolved(result)]
    ensures Numbered(t) ==> Numbered(AddGap(t, result))
  {
    if t.windows == [] {
      ResolutionsExtend(t.idle, result);
    } else {
      var m := |t.windows| - 1;
      var w := t.windows[m];
      ResolutionsExtend(w.gap, result);
      var ws := AddGap(t, result).windows;
      assert ws[..m] == t.windows[..m];
      assert PrintWindow(ws[m]) == PrintWindow(w) + [Resolved(result)];
    }
  }

  lemma PrintAddWindow(t: Trace, w: Window)
    ensures Print(t.(windows := t.windows + [w])) == Print(t) + PrintWindow(w)
  {
    assert (t.windows + [w])[..|t.windows|] == t.windows;
  }

  lemma ResolvePrints(p: Partial, result: int)
    ensures PrintPartial(StepResolve(p, result)) == PrintPartial(p) + [Resolved(result)]
    ensures NumberedSoFar(p) ==> NumberedSoFar(StepResolve(p, result))
  {
    hide Print, Numbered, AddGap, PrintPhase;
    PrintAddGap(p.trace, result);
    var q := StepResolve(p, result);
    if p.phase.Idle? {
      assert PrintPhase(q.phase) == PrintPhase(p.phase) == [] by { IdlePrints(); }
    } else {
      PhasePrints(p, result);
    }
  }

  lemma IdlePrints()
    ensures PrintPhase(Idle) == []
  {
  }

  lemma PhasePrints(p: Partial, result: int)
    requires !p.phase.Idle?
    ensures PrintPhase(StepResolve(p, result).phase) == PrintPhase(p.phase) + [Resolved(result)]
  {
    match p.phase
    case Armed(n, a) => ResolutionsExtend(a, result);
    case Active(n, a, d) => ResolutionsExtend(d, result);
    case Returned(n, a, d, r, l) => ResolutionsExtend(l, result);
  }

  lemma EndPrints(p: Partial, n: nat)
    requires Step(p, End(n)).Some?
    ensures PrintPartial(Step(p, End(n)).value) == PrintPartial(p) + [End(n)]
    ensures NumberedSoFar(p) ==> NumberedSoFar(Step(p, End(n)).value)
  {
    var ph := p.phase;
    var w := Window(n, ph.armed, ph.during, ph.result, ph.returned, []);
    PrintAddWindow(p.trace, w);
    assert PrintWindow(w) == PrintPhase(ph) + [End(n)];
  }

  /** A step inside a window moves on to the next phase. */
  lemma PhaseMoves(p: Partial, token: Token)
    requires Step(p, token).Some? && (token.Begin? || token.Enter? || token.Return?)
    ensures var q := Step(p, token).value;
            && q.trace == p.trace && PrintPhase(q.phase) == PrintPhase(p.phase) + [token]
            && (NumberedSoFar(p) ==> NumberedSoFar(q))
  {
    hide Numbered;
    assert Resolutions([]) == [];
  }

  lemma AppendPrints(p: Partial, q: Partial, token: Token)
    requires q.trace == p.trace && PrintPhase(q.phase) == PrintPhase(p.phase) + [token]
    ensures PrintPartial(q) == PrintPartial(p) + [token]
  {
    hide Print, PrintPhase;
  }

  /** One step appends the printed token. */
  lemma StepPrints(p: Partial, token: Token)
    requires Step(p, token).Some?
    ensures PrintPartial(Step(p, token).value) == PrintPartial(p) + Strip([token])
    ensures NumberedSoFar(p) ==> NumberedSoFar(Step(p, token).value)
  {
    hide NumberedSoFar, PrintPartial, Filter;
    FilterOne(OfWindows, token);
    match token
    case Resolve(fields) => ResolvePrints(p, fields.value.result);
    case End(n) => EndPrints(p, n);
    case Header(_, _) =>
    case Noise =>
    case _ =>
      PhaseMoves(p, token);
      AppendPrints(p, Step(p, token).value, token);
  }

  lemma StripExtend(tokens: seq<Token>, token: Token)
    ensures Strip(tokens + [token]) == Strip(tokens) + Strip([token])
  {
    FilterAppend(OfWindows, tokens, [token]);
  }

  lemma RunExtend(tokens: seq<Token>, token: Token)
    ensures Run(tokens + [token]) == if Run(tokens).None? then None else Step(Run(tokens).value, token)
  {
    assert (tokens + [token])[..|tokens|] == tokens;
  }

  /** Printing what was parsed gives the stream back. */
  lemma {:induction false} PrintOfParse(tokens: seq<Token>)
    requires Run(tokens).Some?
    ensures PrintPartial(Run(tokens).value) == Strip(tokens)
    ensures NumberedSoFar(Run(tokens).value)
  {
    if tokens != [] {
      var m := |tokens| - 1;
      PrintOfParse(tokens[..m]);
      assert tokens == tokens[..m] + [tokens[m]];
      StepPrints(Run(tokens[..m]).value, tokens[m]);
      StripExtend(tokens[..m], tokens[m]);
    }
  }

  function DropLast<T>(s: seq<T>): seq<T>
    requires s != []
  {
    s[..|s| - 1]
  }

  function UnGap(t: Trace): Option<(Trace, int)> {
    if t.windows == [] then
      if t.idle == [] then None else Some((t.(idle := DropLast(t.idle)), t.idle[|t.idle| - 1]))
    else
      var m := |t.windows| - 1;
      var w := t.windows[m];
      if w.gap == [] then None
      else Some((t.(windows := t.windows[..m] + [w.(gap := DropLast(w.gap))]), w.gap[|w.gap| - 1]))
  }

  /** The partial trace before its last token, and that token. */
  function Undo(p: Partial): Option<(Partial, Token)> {
    match p.phase
    case Idle =>
      if UnGap(p.trace).Some? then Some((p.(trace := UnGap(p.trace).value.0), Resolved(UnGap(p.trace).value.1)))
      else if p.trace.windows == [] then None
      else
        var m := |p.trace.windows| - 1;
        var w := p.trace.windows[m];
        Some((Partial(p.trace.(windows := p.trace.windows[..m]),
                      Returned(w.number, w.armed, w.during, w.result, w.returned)), End(w.number)))
    case Armed(n, a) =>
      if a == [] then Some((p.(phase := Idle), Begin(n)))
      else Some((p.(phase := Armed(n, DropLast(a))), Resolved(a[|a| - 1])))
    case Active(n, a, d) =>
      if d == [] then Some((p.(phase := Armed(n, a)), Enter))
      else Some((p.(phase := Active(n, a, DropLast(d))), Resolved(d[|d| - 1])))
    case Returned(n, a, d, r, l) =>
      if l == [] then Some((p.(phase := Active(n, a, d)), Return(Some(r))))
      else Some((p.(phase := Returned(n, a, d, r, DropLast(l))), Resolved(l[|l| - 1])))
  }

  lemma UnGapIsInverse(t: Trace)
    requires UnGap(t).Some?
    ensures AddGap(UnGap(t).value.0, UnGap(t).value.1) == t
    ensures Numbered(t) ==> Numbered(UnGap(t).value.0)
  {
    var before, result := UnGap(t).value.0, UnGap(t).value.1;
    if t.windows == [] {
      assert before.idle + [result] == t.idle;
    } else {
      var m := |t.windows| - 1;
      var w := t.windows[m];
      assert DropLast(w.gap) + [result] == w.gap;
      assert before.windows[..m] == t.windows[..m];
      assert t.windows == t.windows[..m] + [w];
    }
  }

  lemma UndoIsInverse(p: Partial)
    requires NumberedSoFar(p) && Undo(p).Some?
    ensures NumberedSoFar(Undo(p).value.0)
    ensures Step(Undo(p).value.0, Undo(p).value.1) == Some(p)
    ensures Strip([Undo(p).value.1]) == [Undo(p).value.1]
  {
    FilterOne(OfWindows, Undo(p).value.1);
    match p.phase {
      case Idle =>
        if UnGap(p.trace).Some? {
          UnGapIsInverse(p.trace);
        } else {
          var ws := p.trace.windows;
          assert ws == ws[..|ws| - 1] + [ws[|ws| - 1]];
        }
      case Armed(n, a) =>
        if a != [] {
          assert DropLast(a) + [a[|a| - 1]] == a;
        }
      case Active(n, a, d) =>
        if d != [] {
          assert DropLast(d) + [d[|d| - 1]] == d;
        }
      case Returned(n, a, d, r, l) =>
        if l != [] {
          assert DropLast(l) + [l[|l| - 1]] == l;
        }
    }
  }

  /** Parsing what was printed gives the trace back. */
  lemma {:induction false} ParseOfPrint(p: Partial)
    requires NumberedSoFar(p)
    ensures Run(PrintPartial(p)) == Some(p)
    decreases |PrintPartial(p)|
  {
    if Undo(p).None? {
      assert p == NOTHING && PrintPartial(p) == [];
    } else {
      var before, token := Undo(p).value.0, Undo(p).value.1;
      UndoIsInverse(p);
      StepPrints(before, token);
      assert PrintPartial(p) == PrintPartial(before) + [token];
      ParseOfPrint(before);
      RunExtend(PrintPartial(before), token);
    }
  }

  /** Header and noise lines do not matter to the windows. */
  lemma {:induction false} RunIgnoresNoise(tokens: seq<Token>)
    ensures Run(tokens) == Run(Strip(tokens))
  {
    if tokens != [] {
      var m := |tokens| - 1;
      RunIgnoresNoise(tokens[..m]);
      assert tokens == tokens[..m] + [tokens[m]];
      RunExtend(tokens[..m], tokens[m]);
      if tokens[m].Header? || tokens[m].Noise? {
        assert Strip(tokens) == Strip(tokens[..m]);
      } else {
        assert Strip(tokens) == Strip(tokens[..m]) + [tokens[m]];
        RunExtend(Strip(tokens[..m]), tokens[m]);
      }
    }
  }

  /** The streams read to an idle end are exactly the printed traces, each of exactly one trace. */
  lemma AcceptsExactlyPrints(tokens: seq<Token>, t: Trace)
    requires Numbered(t)
    ensures Strip(tokens) == Print(t) <==> Run(tokens) == Some(Partial(t, Idle))
  {
    var p := Partial(t, Idle);
    assert PrintPartial(p) == Print(t);
    RunIgnoresNoise(tokens);
    ParseOfPrint(p);
    if Run(tokens) == Some(p) {
      PrintOfParse(tokens);
    }
  }

  // ---------- What the parser records ----------

  datatype Marker = BeginMarker(number: nat) | EndMarker(number: nat)

  datatype Update = EnterUpdate(number: nat) | ReturnUpdate(number: nat, result: int)

  function MarkersOf(ws: seq<Window>): seq<Marker> {
    if ws == [] then []
    else
      var w := ws[|ws| - 1];
      MarkersOf(ws[..|ws| - 1]) + [BeginMarker(w.number), EndMarker(w.number)]
  }

  function UpdatesOf(ws: seq<Window>): seq<Update> {
    if ws == [] then []
    else
      var w := ws[|ws| - 1];
      UpdatesOf(ws[..|ws| - 1]) + [EnterUpdate(w.number), ReturnUpdate(w.number, w.result)]
  }

  function Outside(results: seq<int>): seq<Branch> {
    if results == [] then []
    else Outside(results[..|results| - 1]) + [Branch(results[|results| - 1], false, 0)]
  }

  function Inside(results: seq<int>, number: nat): seq<Branch> {
    if results == [] then []
    else Inside(results[..|results| - 1], number) + [Branch(results[|results| - 1], true, number)]
  }

  function WindowBranches(w: Window): seq<Branch> {
    Outside(w.armed) + Inside(w.during, w.number) + Outside(w.returned) + Outside(w.gap)
  }

  function WindowsBranches(ws: seq<Window>): seq<Branch> {
    if ws == [] then [] else WindowsBranches(ws[..|ws| - 1]) + WindowBranches(ws[|ws| - 1])
  }

  /** A trace's resolutions in order: those inside a window marked with its number, all others unmarked. */
  function BranchesOf(t: Trace): seq<Branch> {
    Outside(t.idle) + WindowsBranches(t.windows)
  }

  function PhaseMarkers(phase: Phase): seq<Marker> {
    if phase.Idle? then [] else [BeginMarker(phase.number)]
  }

  function PhaseUpdates(phase: Phase): seq<Update> {
    match phase
    case Idle => []
    case Armed(_, _) => []
    case Active(n, _, _) => [EnterUpdate(n)]
    case Returned(n, _, _, r, _) => [EnterUpdate(n), ReturnUpdate(n, r)]
  }

  function PhaseBranches(phase: Phase): seq<Branch> {
    match phase
    case Idle => []
    case Armed(_, a) => Outside(a)
    case Active(n, a, d) => Outside(a) + Inside(d, n)
    case Returned(n, a, d, _, l) => Outside(a) + Inside(d, n) + Outside(l)
  }

  /** The window a partial trace is inside of, or 0. */
  function ActiveNumber(phase: Phase): nat {
    if phase.Active? then phase.number else 0
  }

  function ArmedNumber(phase: Phase): nat {
    if phase.Idle? then 0 else phase.number
  }

  function AllBranches(p: Partial): seq<Branch> {
    BranchesOf(p.trace) + PhaseBranches(p.phase)
  }

  /** The variables of the parsing loop. */
  datatype Parser = Parser(
    armed: nat, active: nat, returned: bool, markers: seq<Marker>, updates: seq<Update>, branches: seq<Branch>)

  /** The loop's variables represent the partial trace p; NumberedSoFar tells its phases apart. */
  ghost predicate Represents(p: Partial, v: Parser) {
    && NumberedSoFar(p)
    && v.armed == ArmedNumber(p.phase) && v.active == ActiveNumber(p.phase) && v.returned == p.phase.Returned?
    && v.markers == MarkersOf(p.trace.windows) + PhaseMarkers(p.phase)
    && v.updates == UpdatesOf(p.trace.windows) + PhaseUpdates(p.phase)
    && v.branches == AllBranches(p)
  }

  lemma BranchesAddGap(t: Trace, result: int)
    ensures BranchesOf(AddGap(t, result)) == BranchesOf(t) + [Branch(result, false, 0)]
    ensures MarkersOf(AddGap(t, result).windows) == MarkersOf(t.windows)
    ensures UpdatesOf(AddGap(t, result).windows) == UpdatesOf(t.windows)
  {
    if t.windows == [] {
      assert (t.idle + [result])[..|t.idle|] == t.idle;
    } else {
      var m := |t.windows| - 1;
      var gap := t.windows[m].gap;
      assert (gap + [result])[..|gap|] == gap;
      assert AddGap(t, result).windows[..m] == t.windows[..m];
    }
  }

  lemma PhaseBranchesStep(p: Partial, result: int)
    requires !p.phase.Idle?
    ensures PhaseBranches(StepResolve(p, result).phase)
         == PhaseBranches(p.phase) +
              [Branch(result, ActiveNumber(p.phase) != 0 || p.phase.Active?, ActiveNumber(p.phase))]
  {
    match p.phase
    case Armed(n, a) =>
      assert (a + [result])[..|a|] == a;
    case Active(n, a, d) =>
      assert (d + [result])[..|d|] == d;
    case Returned(n, a, d, r, l) =>
      assert (l + [result])[..|l|] == l;
  }

  lemma RepresentsResolve(p: Partial, v: Parser, result: int)
    requires Represents(p, v)
    ensures Represents(StepResolve(p, result), v.(branches := v.branches + [Branch(result, v.active != 0, v.active)]))
  {
    hide BranchesOf, MarkersOf, UpdatesOf, AddGap, PhaseBranches, Numbered, PrintPartial;
    BranchesAddGap(p.trace, result);
    ResolvePrints(p, result);
    if p.phase.Idle? {
      IdleBranches();
    } else {
      PhaseBranchesStep(p, result);
    }
  }

  lemma IdleBranches()
    ensures PhaseBranches(Idle) == []
  {
  }

  lemma AddWindow(t: Trace, w: Window)
    requires w.gap == []
    ensures var more := t.(windows := t.windows + [w]);
            && MarkersOf(more.windows) == MarkersOf(t.windows) + [BeginMarker(w.number), EndMarker(w.number)]
            && UpdatesOf(more.windows)
               == UpdatesOf(t.windows) + [EnterUpdate(w.number), ReturnUpdate(w.number, w.result)]
            && BranchesOf(more) == BranchesOf(t) + WindowBranches(w)
  {
    assert (t.windows + [w])[..|t.windows|] == t.windows;
  }

  lemma RepresentsEnd(p: Partial, v: Parser, n: nat)
    requires Represents(p, v) && Step(p, End(n)).Some?
    ensures Represents(Step(p, End(n)).value,
                       v.(armed := 0, returned := false, markers := v.markers + [EndMarker(n)]))
  {
    hide BranchesOf, MarkersOf, UpdatesOf, PrintPartial;
    var ph := p.phase;
    var w := Window(n, ph.armed, ph.during, ph.result, ph.returned, []);
    AddWindow(p.trace, w);
    EndPrints(p, n);
    assert Outside([]) == [];
    assert WindowBranches(w) == PhaseBranches(ph);
  }

  /** The checks of one line: the loop raises exactly when the grammar has no step. */
  method ParseToken(v: Parser, token: Token, ghost p: Partial) returns (next: Option<Parser>)
    requires Represents(p, v)
    ensures next.Some? <==> Step(p, token).Some?
    ensures next.Some? ==> Represents(Step(p, token).value, next.value)
  {
    hide BranchesOf, MarkersOf, UpdatesOf, AddGap, Numbered;
    match token
    case Header(_, _) => return Some(v);
    case Noise => return Some(v);
    case Begin(n) =>
      if n <= 0 || v.armed != 0 || v.active != 0 {
        return None;
      }
      return Some(v.(armed := n, returned := false, markers := v.markers + [BeginMarker(n)]));
    case Enter =>
      if v.armed == 0 || v.active != 0 || v.returned {
        return None;
      }
      assert Inside([], v.armed) == [];
      return Some(v.(active := v.armed, updates := v.updates + [EnterUpdate(v.armed)]));
    case Resolve(fields) =>
      if fields.None? || fields.value.rcuWalk != 1 {
        return None;
      }
      RepresentsResolve(p, v, fields.value.result);
      return Some(v.(branches := v.branches + [Branch(fields.value.result, v.active != 0, v.active)]));
    case Return(result) =>
      if result.None? || v.armed == 0 || v.active != v.armed || v.returned {
        return None;
      }
      assert Outside([]) == [];
      return Some(v.(active := 0, returned := true, updates := v.updates + [ReturnUpdate(v.active, result.value)]));
    case End(n) =>
      if n != v.armed || v.active != 0 || !v.returned {
        return None;
      }
      RepresentsEnd(p, v, n);
      return Some(v.(armed := 0, returned := false, markers := v.markers + [EndMarker(n)]));
  }

  // ---------- Marks by position in the stream ----------

  lemma {:induction false} MarksFollowTokens(tokens: seq<Token>)
    requires Run(tokens).Some?
    ensures ActiveAfter(tokens) == ActiveNumber(Run(tokens).value.phase)
    ensures !Run(tokens).value.phase.Idle? ==> LastBegun(tokens) == Run(tokens).value.phase.number
  {
    if tokens != [] {
      MarksFollowTokens(tokens[..|tokens| - 1]);
    }
  }

  /** Marking a resolution by the last enter, return and begin before it marks it as the grammar does. */
  lemma {:induction false} LabelsAreBranches(tokens: seq<Token>)
    requires Run(tokens).Some?
    ensures Labelled(tokens) == AllBranches(Run(tokens).value)
  {
    hide BranchesOf, AddGap;
    if tokens == [] {
      NoBranches();
    } else {
      var m := |tokens| - 1;
      var before, token := tokens[..m], tokens[m];
      var p := Run(before).value;
      LabelsAreBranches(before);
      MarksFollowTokens(before);
      PrintOfParse(before);
      BranchesStep(p, token);
    }
  }

  lemma NoBranches()
    ensures AllBranches(NOTHING) == []
  {
  }

  lemma BranchesStep(p: Partial, token: Token)
    requires NumberedSoFar(p) && Step(p, token).Some?
    ensures AllBranches(Step(p, token).value) == AllBranches(p) +
              if token.Resolve? then
                [Branch(token.fields.value.result, ActiveNumber(p.phase) != 0, ActiveNumber(p.phase))]
              else []
  {
    hide BranchesOf, AddGap;
    assert Outside([]) == [] && Inside([], ArmedNumber(p.phase)) == [];
    match token
    case Resolve(fields) =>
      BranchesAddGap(p.trace, fields.value.result);
      if !p.phase.Idle? {
        PhaseBranchesStep(p, fields.value.result);
      }
    case End(n) =>
      var ph := p.phase;
      var w := Window(n, ph.armed, ph.during, ph.result, ph.returned, []);
      AddWindow(p.trace, w);
      assert WindowBranches(w) == PhaseBranches(ph);
    case _ =>
  }

  // ---------- The whole parser ----------

  predicate IsHeader(token: Token) {
    token.Header?
  }

  function HeadersIn(tokens: seq<Token>): seq<Token> {
    Filter(IsHeader, tokens)
  }

  function Numbers(ws: seq<Window>): seq<nat> {
    if ws == [] then [] else Numbers(ws[..|ws| - 1]) + [ws[|ws| - 1].number]
  }

  function BeginsIn(markers: seq<Marker>): seq<nat> {
    if markers == [] then []
    else
      var last := markers[|markers| - 1];
      BeginsIn(markers[..|markers| - 1]) + if last.BeginMarker? then [last.number] else []
  }

  function EndsIn(markers: seq<Marker>): seq<nat> {
    if markers == [] then []
    else
      var last := markers[|markers| - 1];
      EndsIn(markers[..|markers| - 1]) + if last.EndMarker? then [last.number] else []
  }

  function CountEnters(updates: seq<Update>): nat {
    if updates == [] then 0
    else CountEnters(updates[..|updates| - 1]) + if updates[|updates| - 1].EnterUpdate? then 1 else 0
  }

  function CountReturns(updates: seq<Update>): nat {
    if updates == [] then 0
    else CountReturns(updates[..|updates| - 1]) + if updates[|updates| - 1].ReturnUpdate? then 1 else 0
  }

  /** No update of the trace failed. */
  predicate NoneFailed(updates: seq<Update>) {
    forall i :: 0 <= i < |updates| && updates[i].ReturnUpdate? ==> updates[i].result >= 0
  }

  predicate IsHit(b: Branch) {
    b.result == 0
  }

  predicate IsAbsent(b: Branch) {
    b.result == -ENOENT
  }

  predicate IsHitInside(b: Branch) {
    b.underUpdate && b.result == 0
  }

  function CountHits(branches: seq<Branch>): nat {
    |Filter(IsHit, branches)|
  }

  function CountAbsent(branches: seq<Branch>): nat {
    |Filter(IsAbsent, branches)|
  }

  function CountHitsInside(branches: seq<Branch>): nat {
    |Filter(IsHitInside, branches)|
  }

  /** The results of the resolutions between an enter and the return after it. */
  function ResultsInside(ws: seq<Window>): seq<int> {
    if ws == [] then [] else ResultsInside(ws[..|ws| - 1]) + ws[|ws| - 1].during
  }

  function WindowResults(ws: seq<Window>): seq<int> {
    if ws == [] then []
    else
      var w := ws[|ws| - 1];
      WindowResults(ws[..|ws| - 1]) + (w.armed + w.during + w.returned + w.gap)
  }

  /** The results of all resolutions of a trace, in order. */
  function ResultsOf(t: Trace): seq<int> {
    t.idle + WindowResults(t.windows)
  }

  /** What a trace must show: distinct windows, none failed, and both kinds of target resolution. */
  ghost predicate Conclusive(t: Trace) {
    && t.windows != [] && NoDuplicates(Numbers(t.windows))
    && (forall i :: 0 <= i < |t.windows| ==> t.windows[i].result >= 0)
    && 0 in ResultsOf(t) && -2 in ResultsOf(t)
  }

  ghost predicate Lossless(tokens: seq<Token>) {
    exists n: nat :: n > 0 && HeadersIn(tokens) == [Header(n, n)]
  }

  datatype Parsed = Parsed(
    entries: nat, markers: seq<Marker>, updates: seq<Update>, branches: seq<Branch>,
    windows: nat, entered: nat, exited: nat, hits: nat, failures: nat, absent: nat, hitsInside: nat)

  /** r reports the trace t. */
  ghost predicate Reports(r: Parsed, t: Trace) {
    && r.markers == MarkersOf(t.windows) && r.updates == UpdatesOf(t.windows) && r.branches == BranchesOf(t)
    && r.windows == r.entered == r.exited == |t.windows|
    && r.hits == multiset(ResultsOf(t))[0] && r.hits + r.failures == |ResultsOf(t)|
    && r.absent == multiset(ResultsOf(t))[-2]
    && r.hitsInside == multiset(ResultsInside(t.windows))[0]
  }

  /** In every complete stream the markers pair up and each window has one enter and one return. */
  lemma {:induction false} WindowsPair(ws: seq<Window>)
    ensures BeginsIn(MarkersOf(ws)) == Numbers(ws) == EndsIn(MarkersOf(ws))
    ensures |Numbers(ws)| == |ws|
    ensures CountEnters(UpdatesOf(ws)) == CountReturns(UpdatesOf(ws)) == |ws|
    ensures NoneFailed(UpdatesOf(ws)) <==> forall i :: 0 <= i < |ws| ==> ws[i].result >= 0
  {
    if ws != [] {
      var m := |ws| - 1;
      WindowsPair(ws[..m]);
      MarkersPair(MarkersOf(ws[..m]), ws[m].number);
      UpdatesPair(UpdatesOf(ws[..m]), ws[m].number, ws[m].result);
      assert forall i :: 0 <= i < m ==> ws[..m][i] == ws[i];
    }
  }

  lemma MarkersPair(ms: seq<Marker>, n: nat)
    ensures BeginsIn(ms + [BeginMarker(n), EndMarker(n)]) == BeginsIn(ms) + [n]
    ensures EndsIn(ms + [BeginMarker(n), EndMarker(n)]) == EndsIn(ms) + [n]
    ensures BeginsIn(ms + [BeginMarker(n)]) == BeginsIn(ms) + [n] && EndsIn(ms + [BeginMarker(n)]) == EndsIn(ms)
  {
    var more := ms + [BeginMarker(n), EndMarker(n)];
    assert more[..|ms| + 1] == ms + [BeginMarker(n)] && more[..|ms| + 1][..|ms|] == ms;
  }

  lemma UpdatesPair(us: seq<Update>, n: nat, result: int)
    ensures var more := us + [EnterUpdate(n), ReturnUpdate(n, result)];
            && CountEnters(more) == CountEnters(us) + 1 && CountReturns(more) == CountReturns(us) + 1
            && CountEnters(us + [EnterUpdate(n)]) == CountEnters(us) + 1
            && CountReturns(us + [EnterUpdate(n)]) == CountReturns(us)
            && (NoneFailed(more) <==> NoneFailed(us) && result >= 0)
  {
    var more := us + [EnterUpdate(n), ReturnUpdate(n, result)];
    assert more[..|us| + 1] == us + [EnterUpdate(n)] && more[..|us| + 1][..|us|] == us;
    assert more[|us| + 1] == ReturnUpdate(n, result);
    assert forall i :: 0 <= i < |us| ==> more[i] == us[i];
  }

  // ---------- What the counts count ----------

  /** The branches are those of the results, of which inside lie between an enter and a return. */
  ghost predicate Counted(branches: seq<Branch>, results: seq<int>, inside: seq<int>) {
    && |branches| == |results|
    && CountHits(branches) == multiset(results)[0]
    && CountAbsent(branches) == multiset(results)[-2]
    && CountHitsInside(branches) == multiset(inside)[0]
  }

  lemma CountedAppend(b: seq<Branch>, r: seq<int>, i: seq<int>, c: seq<Branch>, s: seq<int>, j: seq<int>)
    requires Counted(b, r, i) && Counted(c, s, j)
    ensures Counted(b + c, r + s, i + j)
  {
    FilterAppend(IsHit, b, c);
    FilterAppend(IsAbsent, b, c);
    FilterAppend(IsHitInside, b, c);
  }

  lemma CountedOne(result: int, number: nat)
    ensures Counted([Branch(result, false, 0)], [result], [])
    ensures Counted([Branch(result, true, number)], [result], [result])
  {
    var outside, inside := Branch(result, false, 0), Branch(result, true, number);
    FilterOne(IsHit, outside);
    FilterOne(IsAbsent, outside);
    FilterOne(IsHitInside, outside);
    FilterOne(IsHit, inside);
    FilterOne(IsAbsent, inside);
    FilterOne(IsHitInside, inside);
  }

  lemma NothingCounted()
    ensures Counted([], [], [])
  {
  }

  lemma {:induction false} OutsideCounted(results: seq<int>)
    ensures Counted(Outside(results), results, [])
  {
    hide Counted;
    NothingCounted();
    if results != [] {
      var m := |results| - 1;
      var last := Branch(results[m], false, 0);
      OutsideCounted(results[..m]);
      assert results == results[..m] + [results[m]] && Outside(results) == Outside(results[..m]) + [last];
      hide Outside;
      CountedOne(results[m], 0);
      CountedAppend(Outside(results[..m]), results[..m], [], [last], [results[m]], []);
    }
  }

  lemma {:induction false} InsideCounted(results: seq<int>, number: nat)
    ensures Counted(Inside(results, number), results, results)
  {
    hide Counted;
    NothingCounted();
    if results != [] {
      var m := |results| - 1;
      var last := Branch(results[m], true, number);
      InsideCounted(results[..m], number);
      assert results == results[..m] + [results[m]];
      assert Inside(results, number) == Inside(results[..m], number) + [last];
      hide Inside;
      CountedOne(results[m], number);
      CountedAppend(Inside(results[..m], number), results[..m], results[..m], [last], [results[m]], [results[m]]);
    }
  }

  lemma WindowCounted(w: Window)
    ensures Counted(WindowBranches(w), w.armed + w.during + w.returned + w.gap, w.during)
  {
    hide Counted;
    var a, d, l, g := Outside(w.armed), Inside(w.during, w.number), Outside(w.returned), Outside(w.gap);
    OutsideCounted(w.armed);
    InsideCounted(w.during, w.number);
    OutsideCounted(w.returned);
    OutsideCounted(w.gap);
    CountedAppend(a, w.armed, [], d, w.during, w.during);
    CountedAppend(a + d, w.armed + w.during, [] + w.during, l, w.returned, []);
    CountedAppend(a + d + l, w.armed + w.during + w.returned, [] + w.during + [], g, w.gap, []);
    assert [] + w.during + [] + [] == w.during;
  }

  lemma {:induction false} WindowsCounted(ws: seq<Window>)
    ensures Counted(WindowsBranches(ws), WindowResults(ws), ResultsInside(ws))
  {
    if ws != [] {
      hide Counted, WindowBranches;
      var m := |ws| - 1;
      var w := ws[m];
      WindowsCounted(ws[..m]);
      WindowCounted(w);
      CountedAppend(WindowsBranches(ws[..m]), WindowResults(ws[..m]), ResultsInside(ws[..m]),
                    WindowBranches(w), w.armed + w.during + w.returned + w.gap, w.during);
    }
  }

  /**
    The counts over the marked branches are counts over the trace: results 0 and -2 among all resolutions, and 0 among
    those between an enter and a return.
   */
  lemma CountsOfTrace(t: Trace)
    ensures Counted(BranchesOf(t), ResultsOf(t), ResultsInside(t.windows))
  {
    hide Counted;
    OutsideCounted(t.idle);
    WindowsCounted(t.windows);
    CountedAppend(Outside(t.idle), t.idle, [],
                  WindowsBranches(t.windows), WindowResults(t.windows), ResultsInside(t.windows));
    assert [] + ResultsInside(t.windows) == ResultsInside(t.windows);
  }

  lemma {:induction false} ResolutionsKeepResults(results: seq<int>, x: int)
    ensures multiset(Resolutions(results))[Resolve(Some(Resolution(1, x)))] == multiset(results)[x]
  {
    if results != [] {
      var m := |results| - 1;
      ResolutionsKeepResults(results[..m], x);
      assert results == results[..m] + [results[m]];
    }
  }

  lemma PrintWindowKeepsResults(w: Window, x: int)
    ensures multiset(PrintWindow(w))[Resolve(Some(Resolution(1, x)))]
         == multiset(w.armed + w.during + w.returned + w.gap)[x]
  {
    hide Resolutions;
    ResolutionsKeepResults(w.armed, x);
    ResolutionsKeepResults(w.during, x);
    ResolutionsKeepResults(w.returned, x);
    ResolutionsKeepResults(w.gap, x);
  }

  lemma {:induction false} PrintWindowsKeepResults(ws: seq<Window>, x: int)
    ensures multiset(PrintWindows(ws))[Resolve(Some(Resolution(1, x)))] == multiset(WindowResults(ws))[x]
  {
    if ws != [] {
      hide PrintWindow;
      PrintWindowsKeepResults(ws[..|ws| - 1], x);
      PrintWindowKeepsResults(ws[|ws| - 1], x);
    }
  }

  /** A result occurs in the trace as often as a resolution with it occurs in the stream. */
  lemma StreamHasResults(tokens: seq<Token>, t: Trace, x: int)
    requires Strip(tokens) == Print(t)
    ensures multiset(tokens)[Resolve(Some(Resolution(1, x)))] == multiset(ResultsOf(t))[x]
  {
    FilterMultiplicity(OfWindows, tokens, Resolve(Some(Resolution(1, x))));
    ResolutionsKeepResults(t.idle, x);
    PrintWindowsKeepResults(t.windows, x);
  }

  lemma {:induction false} StuckStaysStuck(tokens: seq<Token>, i: nat)
    requires i <= |tokens| && Run(tokens[..i]).None?
    ensures Run(tokens).None?
    decreases |tokens|
  {
    if i < |tokens| {
      var m := |tokens| - 1;
      assert tokens[..m][..i] == tokens[..i];
      StuckStaysStuck(tokens[..m], i);
    } else {
      assert tokens[..i] == tokens;
    }
  }

  lemma StartsEmpty()
    ensures Represents(NOTHING, Parser(0, 0, false, [], [], []))
  {
  }

  /** The loop over the lines: raises exactly on a line without a step or on a second header. */
  method ParseLines(tokens: seq<Token>) returns (r: Option<Parser>, header: Option<(nat, nat)>)
    ensures r.Some? <==> Run(tokens).Some? && |HeadersIn(tokens)| <= 1
    ensures r.Some? ==> Represents(Run(tokens).value, r.value)
    ensures r.Some? ==> HeadersIn(tokens) == if header.Some? then [Header(header.value.0, header.value.1)] else []
  {
    hide Represents, Step;
    var v := Parser(0, 0, false, [], [], []);
    header := None;
    StartsEmpty();
    for i := 0 to |tokens|
      invariant Run(tokens[..i]).Some? && Represents(Run(tokens[..i]).value, v)
      invariant HeadersIn(tokens[..i]) == if header.Some? then [Header(header.value.0, header.value.1)] else []
    {
      assert tokens[..i + 1][..i] == tokens[..i];
      RunExtend(tokens[..i], tokens[i]);
      assert tokens[..i] + [tokens[i]] == tokens[..i + 1];
      if tokens[i].Header? {
        if header.Some? {
          FilterPrefix(IsHeader, tokens, i + 1);
          return None, header;
        }
        header := Some((tokens[i].buffered, tokens[i].written));
      }
      var next := ParseToken(v, tokens[i], Run(tokens[..i]).value);
      if next.None? {
        StuckStaysStuck(tokens, i + 1);
        return None, header;
      }
      v := next.value;
    }
    assert tokens[..|tokens|] == tokens;
    r := Some(v);
  }

  /**
    Accepts exactly the lossless streams that print a conclusive trace, and reports that trace; its marks are those
    of the resolutions' places in the stream.
   */
  method ParseTrace(tokens: seq<Token>) returns (r: Result<Parsed>)
    ensures r.Success? <==>
              Lossless(tokens) && exists t :: Numbered(t) && Strip(tokens) == Print(t) && Conclusive(t)
    ensures r.Success? ==>
              && HeadersIn(tokens) == [Header(r.value.entries, r.value.entries)]
              && r.value.branches == Labelled(tokens)
              && r.value.hits == multiset(tokens)[Resolve(Some(Resolution(1, 0)))]
              && r.value.absent == multiset(tokens)[Resolve(Some(Resolution(1, -2)))]
              && exists t :: Numbered(t) && Strip(tokens) == Print(t) && Conclusive(t) && Reports(r.value, t)
  {
    hide Print, Strip, Run, Conclusive, Reports, BranchesOf, MarkersOf, UpdatesOf, HeadersIn;
    hide NoneFailed, NoDuplicates, Numbered;
    var parsed, header := ParseLines(tokens);
    if parsed.None? {
      StreamRefused(tokens);
      return Failure;
    }
    ghost var p := Run(tokens).value;
    var v := parsed.value;
    if header.None? || header.value.1 <= 0 || header.value.0 != header.value.1 {
      return Failure;
    }
    if v.armed != 0 || v.active != 0 {
      StreamRefused(tokens);
      return Failure;
    }
    IdleEnd(p, v);
    WindowsPair(p.trace.windows);
    CountsOfTrace(p.trace);
    OnlyTrace(tokens, p.trace);
    Verdict(p.trace);
    var begins, ends := BeginsIn(v.markers), EndsIn(v.markers);
    if begins == [] || begins != ends || !NoDuplicates(begins) || CountEnters(v.updates) != |begins|
      || CountReturns(v.updates) != |begins| || !NoneFailed(v.updates)
      || CountHits(v.branches) == 0 || CountAbsent(v.branches) == 0 {
      return Failure;
    }
    LabelsAreBranches(tokens);
    r := Success(Parsed(
      header.value.0, v.markers, v.updates, v.branches, |begins|, CountEnters(v.updates), CountReturns(v.updates),
      CountHits(v.branches), |v.branches| - CountHits(v.branches), CountAbsent(v.branches),
      CountHitsInside(v.branches)));
    ReportsTrace(r.value, p.trace);
    StreamHasResults(tokens, p.trace, 0);
    StreamHasResults(tokens, p.trace, -2);
  }

  /** A stream that gets stuck, ends inside a window or has two headers is not the stream of a trace. */
  lemma StreamRefused(tokens: seq<Token>)
    requires Run(tokens).None? || |HeadersIn(tokens)| > 1 || !Run(tokens).value.phase.Idle?
    ensures !(Lossless(tokens) && exists t :: Numbered(t) && Strip(tokens) == Print(t))
  {
    hide Strip, Print, Run;
    forall t | Numbered(t) && Strip(tokens) == Print(t) ensures !Lossless(tokens) {
      AcceptsExactlyPrints(tokens, t);
    }
  }

  lemma IdleEnd(p: Partial, v: Parser)
    requires Represents(p, v) && v.armed == 0
    ensures p == Partial(p.trace, Idle) && Numbered(p.trace)
    ensures v.markers == MarkersOf(p.trace.windows) && v.updates == UpdatesOf(p.trace.windows)
    ensures v.branches == BranchesOf(p.trace) == AllBranches(p)
  {
  }

  /** The stream prints t and no other trace. */
  lemma OnlyTrace(tokens: seq<Token>, t: Trace)
    requires Numbered(t) && Run(tokens) == Some(Partial(t, Idle))
    ensures Strip(tokens) == Print(t)
    ensures forall other :: Numbered(other) && Strip(tokens) == Print(other) ==> other == t
  {
    hide Strip, Print, Run;
    AcceptsExactlyPrints(tokens, t);
    forall other | Numbered(other) && Strip(tokens) == Print(other) ensures other == t {
      AcceptsExactlyPrints(tokens, other);
    }
  }

  /** The final checks decide whether the trace is conclusive. */
  lemma Verdict(t: Trace)
    ensures Conclusive(t) <==>
              && Numbers(t.windows) != [] && NoDuplicates(Numbers(t.windows)) && NoneFailed(UpdatesOf(t.windows))
              && CountHits(BranchesOf(t)) > 0 && CountAbsent(BranchesOf(t)) > 0
  {
    hide NoDuplicates, NoneFailed, BranchesOf;
    WindowsPair(t.windows);
    CountsOfTrace(t);
  }

  /** A stream prints at most one trace. */
  lemma SameTrace(tokens: seq<Token>, s: Trace, t: Trace)
    requires Numbered(s) && Numbered(t) && Strip(tokens) == Print(s) && Strip(tokens) == Print(t)
    ensures s == t
  {
    hide Strip, Print, Run, Numbered;
    AcceptsExactlyPrints(tokens, s);
    AcceptsExactlyPrints(tokens, t);
  }

  lemma ReportsTrace(r: Parsed, t: Trace)
    requires r.markers == MarkersOf(t.windows) && r.updates == UpdatesOf(t.windows) && r.branches == BranchesOf(t)
    requires r.windows == |Numbers(t.windows)| && r.entered == CountEnters(r.updates)
    requires r.exited == CountReturns(r.updates)
    requires r.hits == CountHits(r.branches) && r.failures == |r.branches| - r.hits
    requires r.absent == CountAbsent(r.branches) && r.hitsInside == CountHitsInside(r.branches)
    ensures Reports(r, t)
  {
    WindowsPair(t.windows);
    CountsOfTrace(t);
  }
}
