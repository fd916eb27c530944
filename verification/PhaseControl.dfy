/** The FxMark daemon's phase control: one control thread moves the phase while request threads count in two steps. */
module PhaseControl {

  const SETUP: nat := 0
  const MEASURED: nat := 1
  const AFTER: nat := 2
  const PHASES: nat := 3
  const REQUESTS: nat := 11

  /** One counter for each phase and request kind. */
  type Counters = c: seq<nat> | |c| == PHASES * REQUESTS witness seq(PHASES * REQUESTS, _ => 0)

  /** The control thread between its load of the phase and what it does about it. */
  datatype Control = Waiting | Loaded(command: char, phase: int)

  /** A request thread between its load of the phase and its addition. */
  datatype Request = Request(counter: nat, phase: int)

  datatype State = State(
    phase: int, control: Control, measuredAcks: nat, afterAcks: nat, invalid: nat,
    counters: Counters, flight: map<nat, Request>)

  datatype Event =
    | Command(command: char)  // the control thread reads a command and loads the phase
    | Act                     // it stores the next phase, or counts an invalid command
    | Lost                    // reading a command fails
    | Load(id: nat, counter: nat)
    | Add(id: nat)

  const START: State := State(SETUP, Waiting, 0, 0, 0, [
    0, 0, 0, 0, 0, 0, 0, 0, 0, 0, 0,
    0, 0, 0, 0, 0, 0, 0, 0, 0, 0, 0,
    0, 0, 0, 0, 0, 0, 0, 0, 0, 0, 0], map[])

  function Cell(phase: nat, counter: nat): nat {
    phase * REQUESTS + counter
  }

  /** A phase out of range counts as after. */
  function Clamp(phase: int): (p: nat)
    ensures p < PHASES
  {
    if phase < SETUP || phase >= PHASES then AFTER else phase
  }

  predicate Enabled(s: State, e: Event) {
    match e
    case Command(_) => s.control.Waiting?
    case Lost => s.control.Waiting?
    case Act => s.control.Loaded?
    case Load(id, counter) => id !in s.flight && counter < REQUESTS
    case Add(id) => id in s.flight && s.flight[id].counter < REQUESTS
  }

  function Step(s: State, e: Event): State
    requires Enabled(s, e)
  {
    match e
    case Command(c) => s.(control := Loaded(c, s.phase))
    case Lost => s
    case Act =>
      if s.control.command == 'M' && s.control.phase == SETUP then
        s.(phase := MEASURED, measuredAcks := s.measuredAcks + 1, control := Waiting)
      else if s.control.command == 'A' && s.control.phase == MEASURED then
        s.(phase := AFTER, afterAcks := s.afterAcks + 1, control := Waiting)
      else
        s.(invalid := s.invalid + 1, control := Waiting)
    case Load(id, counter) => s.(flight := s.flight[id := Request(counter, s.phase)])
    case Add(id) =>
      var cell := Cell(Clamp(s.flight[id].phase), s.flight[id].counter);
      CellFits(Clamp(s.flight[id].phase), s.flight[id].counter);
      s.(counters := s.counters[cell := s.counters[cell] + 1], flight := s.flight - {id})
  }

  lemma CellFits(phase: nat, counter: nat)
    requires phase < PHASES && counter < REQUESTS
    ensures Cell(phase, counter) < PHASES * REQUESTS
  {
  }

  lemma CellsDiffer(p: nat, c: nat, q: nat, d: nat)
    requires c < REQUESTS && d < REQUESTS && Cell(p, c) == Cell(q, d)
    ensures p == q && c == d
  {
  }

  /** The state after an interleaving of control and request steps, if every step was possible. */
  function Exec(es: seq<Event>): (r: seq<State>)
    ensures |r| <= 1
  {
    if es == [] then [START]
    else
      var before := Exec(es[..|es| - 1]);
      if before == [] || !Enabled(before[0], es[|es| - 1]) then [] else [Step(before[0], es[|es| - 1])]
  }

  ghost predicate IsRun(es: seq<Event>) {
    Exec(es) != []
  }

  function After(es: seq<Event>): State
    requires Exec(es) != []
  {
    Exec(es)[0]
  }

  // ---------- The control thread ----------

  /** The commands read, in order. */
  function Commands(es: seq<Event>): seq<char> {
    if es == [] then []
    else
      var last := es[|es| - 1];
      Commands(es[..|es| - 1]) + if last.Command? then [last.command] else []
  }

  datatype Tally = Tally(phase: int, measuredAcks: nat, afterAcks: nat, invalid: nat)

  /** What the control thread has done once it acted on the given commands. */
  function Served(cs: seq<char>): Tally {
    if cs == [] then Tally(SETUP, 0, 0, 0)
    else
      var t := Served(cs[..|cs| - 1]);
      var c := cs[|cs| - 1];
      if c == 'M' && t.phase == SETUP then t.(phase := MEASURED, measuredAcks := t.measuredAcks + 1)
      else if c == 'A' && t.phase == MEASURED then t.(phase := AFTER, afterAcks := t.afterAcks + 1)
      else t.(invalid := t.invalid + 1)
  }

  function TallyOf(s: State): Tally {
    Tally(s.phase, s.measuredAcks, s.afterAcks, s.invalid)
  }

  /** The commands acted on: all those read, but for one being served. */
  function Acted(es: seq<Event>): seq<char>
    requires Exec(es) != []
  {
    if After(es).control.Loaded? && Commands(es) != [] then Commands(es)[..|Commands(es)| - 1] else Commands(es)
  }

  /** The control thread has served the commands cs, but for the last if it has loaded that. */
  predicate Serving(s: State, cs: seq<char>) {
    if s.control.Loaded? then
      && cs != [] && s.control.command == cs[|cs| - 1] && s.control.phase == s.phase
      && TallyOf(s) == Served(cs[..|cs| - 1])
    else
      TallyOf(s) == Served(cs)
  }

  lemma StepServes(s: State, e: Event, cs: seq<char>)
    requires Enabled(s, e) && Serving(s, cs)
    ensures Serving(Step(s, e), if e.Command? then cs + [e.command] else cs)
  {
    match e
    case Command(c) =>
      hide Served;
      assert (cs + [c])[..|cs|] == cs;
    case Act =>
    case _ =>
      hide Served;
  }

  lemma {:induction false} RunServes(es: seq<Event>)
    requires IsRun(es)
    ensures Serving(After(es), Commands(es))
  {
    hide Serving, Enabled, Step;
    if es == [] {
      StartServes();
    } else {
      var m := |es| - 1;
      RunServes(es[..m]);
      StepServes(After(es[..m]), es[m], Commands(es[..m]));
      assert Commands(es[..m]) + [] == Commands(es[..m]);
    }
  }

  lemma StartServes()
    ensures Serving(START, [])
  {
  }

  /** Whatever requests do meanwhile, the control thread's state is that of serving its commands one by one. */
  lemma {:induction false} ControlIsSequential(es: seq<Event>)
    requires IsRun(es)
    ensures TallyOf(After(es)) == Served(Acted(es))
    ensures After(es).control.Loaded? ==>
              && Commands(es) != [] && After(es).control.phase == After(es).phase
              && Commands(es)[|Commands(es)| - 1] == After(es).control.command
  {
    hide Exec, Commands, Served;
    RunServes(es);
  }

  lemma {:induction false} EveryCommandTallied(cs: seq<char>)
    ensures Served(cs).measuredAcks + Served(cs).afterAcks + Served(cs).invalid == |cs|
  {
    if cs != [] {
      EveryCommandTallied(cs[..|cs| - 1]);
    }
  }

  lemma TwoCommands(cs: seq<char>)
    requires |cs| == 2
    ensures Served(cs).measuredAcks == 1 && Served(cs).afterAcks == 1 <==> cs == ['M', 'A']
  {
    var one := cs[..1];
    assert one[..0] == [];
    assert Served([]) == Tally(SETUP, 0, 0, 0);
    assert Served(one) == if cs[0] == 'M' then Tally(MEASURED, 1, 0, 0) else Tally(SETUP, 0, 0, 1);
  }

  /**
    Once the control thread is idle, it has acknowledged one measured and one after command and refused none if and
    only if the commands it read were exactly M then A, in every interleaving with request counting.
   */
  lemma CleanAcksMeanMA(es: seq<Event>)
    requires IsRun(es) && After(es).control.Waiting?
    ensures (After(es).measuredAcks == 1 && After(es).afterAcks == 1 && After(es).invalid == 0)
              <==> Commands(es) == ['M', 'A']
  {
    hide Served, Exec;
    ControlIsSequential(es);
    EveryCommandTallied(Commands(es));
    if |Commands(es)| == 2 {
      TwoCommands(Commands(es));
    }
  }

  // ---------- The request threads ----------

  /** Step i stored the measured phase. */
  ghost predicate StoresMeasured(es: seq<Event>, i: nat) {
    && i < |es|
    && es[i].Act? && IsRun(es[..i]) && After(es[..i]).control == Loaded('M', SETUP)
  }

  /** Step i stored the after phase. */
  ghost predicate StoresAfter(es: seq<Event>, i: nat) {
    && i < |es|
    && es[i].Act? && IsRun(es[..i]) && After(es[..i]).control == Loaded('A', MEASURED)
  }

  ghost predicate MeasuredStored(es: seq<Event>) {
    exists i: nat :: i < |es| && StoresMeasured(es, i)
  }

  ghost predicate AfterStored(es: seq<Event>) {
    exists i: nat :: i < |es| && StoresAfter(es, i)
  }

  /** Between the two stores. */
  ghost predicate InWindow(es: seq<Event>) {
    MeasuredStored(es) && !AfterStored(es)
  }

  lemma StoresExtend(es: seq<Event>, e: Event)
    ensures var more := es + [e];
            && (MeasuredStored(more) <==> MeasuredStored(es) || StoresMeasured(more, |es|))
            && (AfterStored(more) <==> AfterStored(es) || StoresAfter(more, |es|))
  {
    var more := es + [e];
    forall i: nat | i < |es| ensures more[..i] == es[..i] && more[i] == es[i] {
    }
    if MeasuredStored(es) {
      var i: nat :| i < |es| && StoresMeasured(es, i);
      assert StoresMeasured(more, i);
    }
    if AfterStored(es) {
      var i: nat :| i < |es| && StoresAfter(es, i);
      assert StoresAfter(more, i);
    }
    forall i: nat | i < |es|
      ensures StoresMeasured(more, i) ==> StoresMeasured(es, i)
      ensures StoresAfter(more, i) ==> StoresAfter(es, i)
    {
      assert more[..i] == es[..i];
    }
  }

  /** The phase names which stores have happened. */
  ghost predicate PhaseTellsStores(es: seq<Event>) {
    && IsRun(es)
    && (var phase := After(es).phase;
    && SETUP <= phase <= AFTER
    && (phase == SETUP <==> !MeasuredStored(es))
    && (phase == AFTER <==> AfterStored(es)))
  }

  lemma {:induction false} PhaseFollowsStores(es: seq<Event>)
    requires IsRun(es)
    ensures PhaseTellsStores(es)
  {
    if es != [] {
      var m := |es| - 1;
      PhaseFollowsStores(es[..m]);
      ControlIsSequential(es[..m]);
      assert es == es[..m] + [es[m]];
      StoresExtend(es[..m], es[m]);
    }
  }

  /** How many loads of a counter happened in the given phase: before, between or after the two stores. */
  ghost function LoadsIn(es: seq<Event>, phase: nat, counter: nat): nat {
    if es == [] then 0
    else
      var m := |es| - 1;
      LoadsIn(es[..m], phase, counter) +
        if es[m].Load? && es[m].counter == counter && LoadedIn(es[..m], phase) then 1 else 0
  }

  ghost predicate LoadedIn(es: seq<Event>, phase: nat) {
    if phase == SETUP then !MeasuredStored(es)
    else if phase == MEASURED then InWindow(es)
    else AfterStored(es)
  }

  /** The requests that have loaded the phase but not yet added. */
  function InFlight(flight: map<nat, Request>, phase: nat, counter: nat): set<nat> {
    set id | id in flight && Clamp(flight[id].phase) == phase && flight[id].counter == counter
  }

  ghost predicate Accounted(es: seq<Event>, phase: nat, counter: nat) {
    && IsRun(es) && phase < PHASES && counter < REQUESTS
    && (CellFits(phase, counter);
    After(es).counters[Cell(phase, counter)] + |InFlight(After(es).flight, phase, counter)|
    == LoadsIn(es, phase, counter))
  }

  lemma FlightLoad(flight: map<nat, Request>, id: nat, r: Request, phase: nat, counter: nat)
    requires id !in flight
    ensures InFlight(flight[id := r], phase, counter) == InFlight(flight, phase, counter) +
              if Clamp(r.phase) == phase && r.counter == counter then {id} else {}
    ensures id !in InFlight(flight, phase, counter)
  {
  }

  lemma FlightAdd(flight: map<nat, Request>, id: nat, phase: nat, counter: nat)
    requires id in flight
    ensures InFlight(flight - {id}, phase, counter) == InFlight(flight, phase, counter) - {id}
    ensures id in InFlight(flight, phase, counter) <==>
              Clamp(flight[id].phase) == phase && flight[id].counter == counter
  {
  }

  /**
    In every interleaving a phase's counter, with the requests still in flight, counts exactly the requests whose
    phase load fell into that phase: for the measured phase, between the two stores.
   */
  lemma {:induction false} LoadsAreCounted(es: seq<Event>, phase: nat, counter: nat)
    requires IsRun(es) && phase < PHASES && counter < REQUESTS
    ensures Accounted(es, phase, counter)
  {
    CellFits(phase, counter);
    if es == [] {
      assert InFlight(map[], phase, counter) == {};
    } else {
      var m := |es| - 1;
      LoadsAreCounted(es[..m], phase, counter);
      PhaseFollowsStores(es[..m]);
      OneMore(es, phase, counter);
    }
  }

  lemma OneMore(es: seq<Event>, phase: nat, counter: nat)
    requires es != [] && IsRun(es) && IsRun(es[..|es| - 1]) && phase < PHASES && counter < REQUESTS
    requires Accounted(es[..|es| - 1], phase, counter) && PhaseTellsStores(es[..|es| - 1])
    ensures Accounted(es, phase, counter)
  {
    hide InFlight, MeasuredStored, AfterStored, Cell;
    var m := |es| - 1;
    var s, e := After(es[..m]), es[m];
    CellFits(phase, counter);
    match e
    case Load(id, c) =>
      FlightLoad(s.flight, id, Request(c, s.phase), phase, counter);
    case Add(id) =>
      FlightAdd(s.flight, id, phase, counter);
      CellFits(Clamp(s.flight[id].phase), s.flight[id].counter);
      if Cell(Clamp(s.flight[id].phase), s.flight[id].counter) == Cell(phase, counter) {
        CellsDiffer(Clamp(s.flight[id].phase), s.flight[id].counter, phase, counter);
      }
    case _ =>
  }

  // ---------- The reported totals ----------

  /** The total of a phase over the first n counters. */
  function PhaseTotal(counters: Counters, phase: nat, n: nat): nat
    requires phase < PHASES && n <= REQUESTS
  {
    if n == 0 then 0
    else
      CellFits(phase, n - 1);
      PhaseTotal(counters, phase, n - 1) + counters[Cell(phase, n - 1)]
  }

  ghost function AllLoadsIn(es: seq<Event>, phase: nat, n: nat): nat {
    if n == 0 then 0 else AllLoadsIn(es, phase, n - 1) + LoadsIn(es, phase, n - 1)
  }

  lemma {:induction false} TotalsCountLoads(es: seq<Event>, phase: nat, n: nat)
    requires IsRun(es) && After(es).flight == map[] && phase < PHASES && n <= REQUESTS
    ensures PhaseTotal(After(es).counters, phase, n) == AllLoadsIn(es, phase, n)
  {
    hide Exec, LoadsIn;
    LoadsAreCounted(es, phase, if n == 0 then 0 else n - 1);
    if n > 0 {
      TotalsCountLoads(es, phase, n - 1);
      assert InFlight(map[], phase, n - 1) == {};
    }
  }

  /** When no request is in flight, the measured total counts the requests that loaded between the two stores. */
  lemma MeasuredTotalIsWindow(es: seq<Event>)
    requires IsRun(es) && After(es).flight == map[]
    ensures PhaseTotal(After(es).counters, MEASURED, REQUESTS) == AllLoadsIn(es, MEASURED, REQUESTS)
  {
    TotalsCountLoads(es, MEASURED, REQUESTS);
  }

  // ---------- The daemon ----------

  class Daemon {
    var currentPhase: int
    var control: Control
    var measuredAcks: nat
    var afterAcks: nat
    var invalid: nat
    const counters: array<nat>
    var flight: map<nat, Request>

    ghost predicate Valid()
      reads this
    {
      counters.Length == PHASES * REQUESTS
    }

    ghost function View(): State
      requires Valid()
      reads this, counters
    {
      State(currentPhase, control, measuredAcks, afterAcks, invalid, counters[..], flight)
    }

    constructor ()
      ensures Valid() && fresh(counters) && View() == START
    {
      currentPhase, control, measuredAcks, afterAcks, invalid := SETUP, Waiting, 0, 0, 0;
      counters := new nat[PHASES * REQUESTS](_ => 0);
      flight := map[];
    }

    /** The control thread's answer to a loaded command: whether it replies O, and its stores. */
    method ServeCommand() returns (accepted: bool)
      requires Valid() && control.Loaded?
      modifies this
      ensures Valid() && View() == Step(old(View()), Act)
      ensures accepted <==> invalid == old(invalid)
    {
      if control.command == 'M' && control.phase == SETUP {
        currentPhase, measuredAcks, accepted := MEASURED, measuredAcks + 1, true;
      } else if control.command == 'A' && control.phase == MEASURED {
        currentPhase, afterAcks, accepted := AFTER, afterAcks + 1, true;
      } else {
        invalid, accepted := invalid + 1, false;
      }
      control := Waiting;
    }

    method AddRequest(id: nat)
      requires Valid() && Enabled(View(), Add(id))
      modifies this`flight, counters
      ensures Valid() && View() == Step(old(View()), Add(id))
      ensures var r := old(flight)[id];
              var cell := (if r.phase == 0 || r.phase == 1 then r.phase else 2) * 11 + r.counter;
              counters[cell] == old(counters[cell]) + 1
    {
      var phase, counter := Clamp(flight[id].phase), flight[id].counter;
      CellFits(phase, counter);
      counters[Cell(phase, counter)] := counters[Cell(phase, counter)] + 1;
      flight := flight - {id};
    }

    method Perform(e: Event)
      requires Valid() && Enabled(View(), e)
      modifies this, counters
      ensures Valid() && View() == Step(old(View()), e)
    {
      match e
      case Command(c) => control := Loaded(c, currentPhase);
      case Lost =>
      case Act => var accepted := ServeCommand();
      case Load(id, counter) => flight := flight[id := Request(counter, currentPhase)];
      case Add(id) => AddRequest(id);
    }
  }

  /** Performing the steps of a run leaves the daemon in the run's last state. */
  method PerformAll(es: seq<Event>) returns (d: Daemon)
    requires IsRun(es)
    ensures d.Valid() && d.View() == After(es)
  {
    hide Enabled, Step;
    d := new Daemon();
    for i := 0 to |es|
      invariant fresh(d) && fresh(d.counters) && d.Valid()
      invariant IsRun(es[..i]) && d.View() == After(es[..i])
    {
      RunPrefix(es, i + 1);
      assert es[..i + 1][..i] == es[..i];
      d.Perform(es[i]);
    }
    assert es[..|es|] == es;
  }

  lemma {:induction false} RunPrefix(es: seq<Event>, i: nat)
    requires IsRun(es) && i <= |es|
    ensures IsRun(es[..i])
    decreases |es|
  {
    if i < |es| {
      var m := |es| - 1;
      RunPrefix(es[..m], i);
      assert es[..m][..i] == es[..i];
    } else {
      assert es[..i] == es;
    }
  }
}
