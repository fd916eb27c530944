/**
  The FUSE daemon's counters as a state machine of callback steps, and the sampler that waits for them to rest by
  reading three counters one after another.
 */
module FuseQuiescence {

  // Counter numbers of the daemon's shared counters.
  const OPEN: nat := 2
  const CREATE: nat := 3
  const RELEASE: nat := 15
  const REQUEST_TOTAL: nat := 16
  const HANDLE_OPENED: nat := 17
  const RELEASE_COMPLETED: nat := 18
  const COUNTERS: nat := 19

  /** The daemon's shared counters. */
  type Counters = c: seq<nat> | |c| == COUNTERS witness seq(COUNTERS, _ => 0)

  const STABLE_NS: int := 20_000_000
  const NO_TOTAL: nat := 0xffff_ffff_ffff_ffff

  /** The counters that callbacks pass to fuse_count_request. */
  predicate IsRequestKey(key: nat) {
    key <= 6 || 9 <= key <= 11 || 14 <= key <= 15
  }

  /** How far a callback has come: it counted the total, then its own counter, then its opened or released handle. */
  datatype Stage = Entered | Counted | Finished

  datatype Callback = Callback(key: nat, stage: Stage)

  /** handles: those whose open has returned and that have not been handed to a release callback. */
  datatype State = State(counters: Counters, running: map<nat, Callback>, handles: nat)

  datatype Label =
    | Begin(id: nat, key: nat)
    | CountKey(id: nat)
    | OpenHandle(id: nat)
    | CompleteRelease(id: nat)
    | Finish(id: nat)

  const START := State([0, 0, 0, 0, 0, 0, 0, 0, 0, 0, 0, 0, 0, 0, 0, 0, 0, 0, 0], map[], 0)

  function Bump(counters: Counters, key: nat): Counters
    requires key < COUNTERS
  {
    counters[key := counters[key] + 1]
  }

  /** An open callback that has counted its handle. */
  predicate HasOpened(c: Callback) {
    c.stage.Finished? && (c.key == OPEN || c.key == CREATE)
  }

  /** A step is possible; the kernel releases only handles whose open has returned. */
  predicate Enabled(s: State, l: Label) {
    match l
    case Begin(id, key) => id !in s.running && IsRequestKey(key) && (key == RELEASE ==> s.handles > 0)
    case CountKey(id) => id in s.running && s.running[id].stage.Entered? && IsRequestKey(s.running[id].key)
    case OpenHandle(id) =>
      id in s.running && s.running[id].stage.Counted? && (s.running[id].key == OPEN || s.running[id].key == CREATE)
    case CompleteRelease(id) => id in s.running && s.running[id].stage.Counted? && s.running[id].key == RELEASE
    case Finish(id) =>
      id in s.running && !s.running[id].stage.Entered?
      && (s.running[id].stage.Counted? ==> s.running[id].key != RELEASE)
  }

  function Step(s: State, l: Label): State
    requires Enabled(s, l)
  {
    match l
    case Begin(id, key) =>
      State(Bump(s.counters, REQUEST_TOTAL), s.running[id := Callback(key, Entered)],
            if key == RELEASE then s.handles - 1 else s.handles)
    case CountKey(id) =>
      State(Bump(s.counters, s.running[id].key), Advance(s.running, id, Counted), s.handles)
    case OpenHandle(id) =>
      State(Bump(s.counters, HANDLE_OPENED), Advance(s.running, id, Finished), s.handles)
    case CompleteRelease(id) =>
      State(Bump(s.counters, RELEASE_COMPLETED), Advance(s.running, id, Finished), s.handles)
    case Finish(id) =>
      State(s.counters, s.running - {id}, if HasOpened(s.running[id]) then s.handles + 1 else s.handles)
  }

  function Advance(running: map<nat, Callback>, id: nat, stage: Stage): map<nat, Callback>
    requires id in running
  {
    running[id := Callback(running[id].key, stage)]
  }

  /** run is what happens from the start under some interleaving of callback steps. */
  ghost predicate IsRun(run: seq<State>) {
    && run != [] && run[0] == START
    && forall i :: 0 <= i < |run| - 1 ==> Follows(run[i], run[i + 1])
  }

  ghost predicate Follows(s: State, t: State) {
    exists l :: Enabled(s, l) && Step(s, l) == t
  }

  // ---------- What every state keeps ----------

  function RequestSum(c: Counters): nat
  {
    c[0] + c[1] + c[2] + c[3] + c[4] + c[5] + c[6] + c[9] + c[10] + c[11] + c[14] + c[15]
  }

  /** The callbacks between their two increments. */
  function BetweenCounts(running: map<nat, Callback>): set<nat> {
    set id | id in running && running[id].stage.Entered?
  }

  /** The release callbacks that have not counted their completion. */
  function PendingReleases(running: map<nat, Callback>): set<nat> {
    set id | id in running && running[id].key == RELEASE && !running[id].stage.Finished?
  }

  /** The open callbacks that have counted their handle and not returned. */
  function ReplyingOpens(running: map<nat, Callback>): set<nat> {
    set id | id in running && HasOpened(running[id])
  }

  /** The handles counted as opened whose release is not counted yet. */
  function Outstanding(s: State): nat {
    s.handles + |PendingReleases(s.running)| + |ReplyingOpens(s.running)|
  }

  ghost predicate Invariant(s: State) {
    && s.counters[REQUEST_TOTAL] == RequestSum(s.counters) + |BetweenCounts(s.running)|
    && s.counters[HANDLE_OPENED] == s.counters[RELEASE_COMPLETED] + Outstanding(s)
  }

  lemma StartHolds()
    ensures Invariant(START)
  {
    assert BetweenCounts(map[]) == {} && PendingReleases(map[]) == {} && ReplyingOpens(map[]) == {};
  }

  lemma BumpRequest(c: Counters, key: nat)
    requires IsRequestKey(key)
    ensures RequestSum(Bump(c, key)) == RequestSum(c) + 1
  {
  }

  lemma BumpOther(c: Counters, key: nat)
    requires key < COUNTERS && !IsRequestKey(key)
    ensures RequestSum(Bump(c, key)) == RequestSum(c)
  {
  }

  lemma BeginSets(running: map<nat, Callback>, id: nat, key: nat)
    requires id !in running
    ensures var next := running[id := Callback(key, Entered)];
            && BetweenCounts(next) == BetweenCounts(running) + {id}
            && PendingReleases(next) == PendingReleases(running) + (if key == RELEASE then {id} else {})
            && ReplyingOpens(next) == ReplyingOpens(running)
  {
  }

  lemma CountSets(running: map<nat, Callback>, id: nat)
    requires id in running && running[id].stage.Entered?
    ensures var next := Advance(running, id, Counted);
            && BetweenCounts(next) == BetweenCounts(running) - {id} && id in BetweenCounts(running)
            && PendingReleases(next) == PendingReleases(running)
            && ReplyingOpens(next) == ReplyingOpens(running)
  {
  }

  lemma FinishSets(running: map<nat, Callback>, id: nat)
    requires id in running && running[id].stage.Counted?
    ensures var next := Advance(running, id, Finished);
            && BetweenCounts(next) == BetweenCounts(running)
            && PendingReleases(next) == PendingReleases(running) - {id}
            && (id in PendingReleases(running) <==> running[id].key == RELEASE)
            && ReplyingOpens(next) == ReplyingOpens(running) + (if HasOpened(next[id]) then {id} else {})
            && id !in ReplyingOpens(running)
  {
  }

  lemma EndSets(running: map<nat, Callback>, id: nat)
    requires id in running && !running[id].stage.Entered?
    requires running[id].stage.Counted? ==> running[id].key != RELEASE
    ensures BetweenCounts(running - {id}) == BetweenCounts(running)
    ensures PendingReleases(running - {id}) == PendingReleases(running)
    ensures ReplyingOpens(running - {id}) == ReplyingOpens(running) - {id}
    ensures id in ReplyingOpens(running) <==> HasOpened(running[id])
  {
  }

  lemma BeginKeeps(s: State, id: nat, key: nat)
    requires Enabled(s, Begin(id, key)) && Invariant(s)
    ensures Invariant(Step(s, Begin(id, key)))
  {
    hide RequestSum, BetweenCounts, PendingReleases, ReplyingOpens;
    BumpOther(s.counters, REQUEST_TOTAL);
    BeginSets(s.running, id, key);
    NotIn(s.running, id);
    assert PendingReleases(s.running) + {} == PendingReleases(s.running);
  }

  lemma HandleKeeps(s: State, id: nat, l: Label)
    requires (l == OpenHandle(id) || l == CompleteRelease(id)) && Enabled(s, l) && Invariant(s)
    ensures Invariant(Step(s, l))
  {
    hide RequestSum, BetweenCounts, PendingReleases, ReplyingOpens;
    FinishSets(s.running, id);
    if l.OpenHandle? {
      BumpOther(s.counters, HANDLE_OPENED);
      assert PendingReleases(s.running) - {id} == PendingReleases(s.running);
    } else {
      BumpOther(s.counters, RELEASE_COMPLETED);
      assert ReplyingOpens(s.running) + {} == ReplyingOpens(s.running);
    }
  }

  lemma FinishKeeps(s: State, id: nat)
    requires Enabled(s, Finish(id)) && Invariant(s)
    ensures Invariant(Step(s, Finish(id)))
  {
    hide RequestSum, BetweenCounts, PendingReleases, ReplyingOpens;
    EndSets(s.running, id);
    assert id !in ReplyingOpens(s.running) ==> ReplyingOpens(s.running) - {id} == ReplyingOpens(s.running);
  }

  lemma StepKeeps(s: State, l: Label)
    requires Enabled(s, l) && Invariant(s)
    ensures Invariant(Step(s, l))
  {
    match l
    case Begin(id, key) =>
      hide *;
      BeginKeeps(s, id, key);
    case CountKey(id) =>
      hide RequestSum, BetweenCounts, PendingReleases, ReplyingOpens;
      BumpRequest(s.counters, s.running[id].key);
      CountSets(s.running, id);
    case OpenHandle(id) =>
      hide *;
      HandleKeeps(s, id, l);
    case CompleteRelease(id) =>
      hide *;
      HandleKeeps(s, id, l);
    case Finish(id) =>
      hide *;
      FinishKeeps(s, id);
  }

  lemma NotIn(running: map<nat, Callback>, id: nat)
    requires id !in running
    ensures id !in BetweenCounts(running) && id !in PendingReleases(running) && id !in ReplyingOpens(running)
  {
  }

  /**
    In every state of every run, request_total exceeds the callbacks' own counters by the callbacks between their two
    increments, and the handles opened are those released, those still open, those being released and those whose open
    has not returned.
   */
  lemma {:induction false} EveryStateBalances(run: seq<State>, i: nat)
    requires IsRun(run) && i < |run|
    ensures Invariant(run[i])
  {
    hide Invariant, Enabled, Step;
    if i == 0 {
      StartHolds();
    } else {
      EveryStateBalances(run, i - 1);
      assert Follows(run[i - 1], run[i - 1 + 1]);
      var l :| Enabled(run[i - 1], l) && Step(run[i - 1], l) == run[i];
      StepKeeps(run[i - 1], l);
    }
  }

  // ---------- What later states keep of earlier ones ----------

  /** How many release callbacks have begun: those completed and those pending. */
  ghost function ReleasesBegun(s: State): nat
  {
    s.counters[RELEASE_COMPLETED] + |PendingReleases(s.running)|
  }

  ghost predicate CountersGrow(a: Counters, b: Counters) {
    forall key :: 0 <= key < COUNTERS ==> a[key] <= b[key]
  }

  ghost predicate Grows(s: State, t: State) {
    && CountersGrow(s.counters, t.counters)
    && (s.counters[REQUEST_TOTAL] == t.counters[REQUEST_TOTAL] ==>
          && t.running.Keys <= s.running.Keys
          && ReleasesBegun(t) == ReleasesBegun(s)
          && (s.running == map[] ==> t == s))
  }

  lemma BumpGrows(c: Counters, key: nat)
    requires key < COUNTERS
    ensures CountersGrow(c, Bump(c, key))
    ensures Bump(c, key)[REQUEST_TOTAL] == c[REQUEST_TOTAL] + if key == REQUEST_TOTAL then 1 else 0
    ensures Bump(c, key)[RELEASE_COMPLETED] == c[RELEASE_COMPLETED] + if key == RELEASE_COMPLETED then 1 else 0
  {
  }

  lemma StepGrows(s: State, l: Label)
    requires Enabled(s, l)
    ensures Grows(s, Step(s, l))
  {
    hide PendingReleases, CountersGrow, Bump, ReplyingOpens;
    StepBumps(s, l);
    match l
    case Begin(id, key) =>
    case CountKey(id) => CountSets(s.running, id);
    case OpenHandle(id) =>
      FinishSets(s.running, id);
      assert PendingReleases(s.running) - {id} == PendingReleases(s.running);
    case CompleteRelease(id) => FinishSets(s.running, id);
    case Finish(id) => EndSets(s.running, id);
  }

  lemma StepBumps(s: State, l: Label)
    requires Enabled(s, l)
    ensures CountersGrow(s.counters, Step(s, l).counters)
    ensures Step(s, l).counters[REQUEST_TOTAL] == s.counters[REQUEST_TOTAL] + if l.Begin? then 1 else 0
    ensures Step(s, l).counters[RELEASE_COMPLETED]
         == s.counters[RELEASE_COMPLETED] + if l.CompleteRelease? then 1 else 0
  {
    hide CountersGrow, Bump;
    match l
    case Begin(id, key) => BumpGrows(s.counters, REQUEST_TOTAL);
    case CountKey(id) => BumpGrows(s.counters, s.running[id].key);
    case OpenHandle(id) => BumpGrows(s.counters, HANDLE_OPENED);
    case CompleteRelease(id) => BumpGrows(s.counters, RELEASE_COMPLETED);
    case Finish(id) => SameGrows(s.counters);
  }

  lemma SameGrows(c: Counters)
    ensures CountersGrow(c, c)
  {
  }

  lemma {:induction false} RunGrows(run: seq<State>, i: nat, j: nat)
    requires IsRun(run) && i <= j < |run|
    ensures Grows(run[i], run[j])
    decreases j
  {
    hide Enabled, Step, ReleasesBegun;
    if i == j {
      EveryStateBalances(run, i);
    } else {
      RunGrows(run, i, j - 1);
      assert Follows(run[j - 1], run[j - 1 + 1]);
      var l :| Enabled(run[j - 1], l) && Step(run[j - 1], l) == run[j];
      StepGrows(run[j - 1], l);
    }
  }

  // ---------- The sampler ----------

  /**
    One round of the sampler: when it tested its deadline, the states in which it read the opened handles, the
    completed releases and the request total, and when it looked at the clock.
   */
  datatype Sample = Sample(start: int, atHandles: nat, atReleases: nat, atTotal: nat, now: int)

  /** The rounds follow one another, and the clock runs from a positive time. */
  ghost predicate IsSampling(run: seq<State>, samples: seq<Sample>) {
    && (forall k :: 0 <= k < |samples| ==>
          && samples[k].atHandles <= samples[k].atReleases <= samples[k].atTotal < |run|
          && samples[k].now > 0)
    && (forall i, k :: 0 <= i < k < |samples| ==>
          samples[i].atTotal <= samples[k].atHandles && samples[i].now <= samples[k].now)
  }

  /** request_total is a 64-bit counter that has not reached its last value. */
  ghost predicate TotalsFit(run: seq<State>) {
    forall i :: 0 <= i < |run| ==> run[i].counters[REQUEST_TOTAL] < NO_TOTAL
  }

  function HandlesAt(run: seq<State>, s: Sample): nat
    requires s.atHandles < |run|
  {
    run[s.atHandles].counters[HANDLE_OPENED]
  }

  function ReleasesAt(run: seq<State>, s: Sample): nat
    requires s.atReleases < |run|
  {
    run[s.atReleases].counters[RELEASE_COMPLETED]
  }

  function TotalAt(run: seq<State>, s: Sample): nat
    requires s.atTotal < |run|
  {
    run[s.atTotal].counters[REQUEST_TOTAL]
  }

  ghost predicate Readable(run: seq<State>, samples: seq<Sample>) {
    IsSampling(run, samples) && TotalsFit(run)
  }

  /** Round k found as many completed releases (18) as opened handles (17), and the total (16) of the round before. */
  ghost predicate Stable(run: seq<State>, samples: seq<Sample>, k: nat) {
    && Readable(run, samples) && 0 < k < |samples|
    && run[samples[k].atReleases].counters[18] == run[samples[k].atHandles].counters[17]
    && run[samples[k].atTotal].counters[16] == run[samples[k - 1].atTotal].counters[16]
  }

  ghost predicate StableThrough(run: seq<State>, samples: seq<Sample>, j: nat, k: nat) {
    forall i: nat :: j <= i <= k ==> Stable(run, samples, i)
  }

  /** The stable stretch up to round k begins with round j. */
  ghost predicate StableFrom(run: seq<State>, samples: seq<Sample>, j: nat, k: nat) {
    0 < j <= k && !Stable(run, samples, j - 1) && StableThrough(run, samples, j, k)
  }

  /** Round k ends at least 20 ms of stable rounds. */
  ghost predicate AcceptsAt(run: seq<State>, samples: seq<Sample>, k: nat) {
    && Readable(run, samples) && k < |samples|
    && exists j: nat :: j < k && StableThrough(run, samples, j, k) && samples[k].now - samples[j].now >= 20_000_000
  }

  /** Round k found more completed releases than opened handles. */
  ghost predicate OverflowsAt(run: seq<State>, samples: seq<Sample>, k: nat) {
    && Readable(run, samples) && k < |samples|
    && run[samples[k].atReleases].counters[18] > run[samples[k].atHandles].counters[17]
  }

  datatype Verdict = Quiescent(round: nat) | Overflow(round: nat) | TimedOut

  /** No round before k decided, and all of them started in time. */
  ghost predicate UndecidedBefore(run: seq<State>, samples: seq<Sample>, deadline: int, k: nat) {
    && Readable(run, samples) && k <= |samples|
    && forall i: nat :: i < k ==>
      samples[i].start < deadline && !OverflowsAt(run, samples, i) && !AcceptsAt(run, samples, i)
  }

  method WaitFuseQuiescent(run: seq<State>, samples: seq<Sample>, deadline: int) returns (v: Verdict)
    requires Readable(run, samples)
    ensures v.Quiescent? ==>
              && v.round < |samples| && UndecidedBefore(run, samples, deadline, v.round)
              && samples[v.round].start < deadline && AcceptsAt(run, samples, v.round)
    ensures v.Overflow? ==>
              && v.round < |samples| && UndecidedBefore(run, samples, deadline, v.round)
              && samples[v.round].start < deadline && OverflowsAt(run, samples, v.round)
    ensures v.TimedOut? ==>
              exists k: nat :: k <= |samples| && UndecidedBefore(run, samples, deadline, k)
                && (k < |samples| ==> samples[k].start >= deadline)
  {
    hide AcceptsAt;
    var stableSince: int, previousTotal: nat := 0, NO_TOTAL;
    ghost var since: nat := 0;
    var k: nat := 0;
    while k < |samples| && samples[k].start < deadline
      invariant k <= |samples| && UndecidedBefore(run, samples, deadline, k)
      invariant previousTotal == if k == 0 then NO_TOTAL else TotalAt(run, samples[k - 1])
      invariant stableSince == 0 ==> k == 0 || !Stable(run, samples, k - 1)
      invariant stableSince != 0 ==>
                  k > 0 && StableFrom(run, samples, since, k - 1) && stableSince == samples[since].now
    {
      var handles := HandlesAt(run, samples[k]);
      var releases := ReleasesAt(run, samples[k]);
      var total := TotalAt(run, samples[k]);
      var now := samples[k].now;
      if releases > handles {
        return Overflow(k);
      }
      if releases == handles && total == previousTotal {
        assert Stable(run, samples, k);
        if stableSince == 0 {
          stableSince, since := now, k;
          assert StableFrom(run, samples, k, k);
          LongestStretchDecides(run, samples, k, k);
        } else {
          assert StableFrom(run, samples, since, k);
          LongestStretchDecides(run, samples, since, k);
          if now - stableSince >= STABLE_NS {
            return Quiescent(k);
          }
        }
      } else {
        UnstableIsNotAccepted(run, samples, k);
        stableSince := 0;
      }
      previousTotal := total;
      k := k + 1;
    }
    v := TimedOut;
  }

  lemma UnstableIsNotAccepted(run: seq<State>, samples: seq<Sample>, k: nat)
    requires !Stable(run, samples, k)
    ensures !AcceptsAt(run, samples, k)
  {
  }

  /** The longest stable stretch that ends at a round decides whether the round is accepted. */
  lemma LongestStretchDecides(run: seq<State>, samples: seq<Sample>, j: nat, k: nat)
    requires Readable(run, samples) && k < |samples| && StableFrom(run, samples, j, k)
    ensures AcceptsAt(run, samples, k) <==> j < k && samples[k].now - samples[j].now >= STABLE_NS
  {
    hide Stable;
    if AcceptsAt(run, samples, k) {
      var i: nat :| i < k && StableThrough(run, samples, i, k) && samples[k].now - samples[i].now >= STABLE_NS;
      assert !Stable(run, samples, j - 1);
    }
  }

  // ---------- What an accepted round means ----------

  /** The values read in round k were those of one state. */
  ghost predicate Coexisted(run: seq<State>, samples: seq<Sample>, k: nat, i: nat) {
    && Readable(run, samples) && k < |samples| && i < |run|
    && run[i].counters[HANDLE_OPENED] == HandlesAt(run, samples[k])
    && run[i].counters[RELEASE_COMPLETED] == ReleasesAt(run, samples[k])
    && run[i].counters[REQUEST_TOTAL] == TotalAt(run, samples[k])
  }

  /** Two stable rounds in a row pin all handles as released. */
  lemma TwoStableRounds(run: seq<State>, p: nat, a: nat, b: nat, h: nat, r: nat, t: nat)
    requires IsRun(run) && p <= a <= b <= h <= r <= t < |run|
    requires run[p].counters[REQUEST_TOTAL] == run[t].counters[REQUEST_TOTAL]
    requires run[a].counters[HANDLE_OPENED] == run[b].counters[RELEASE_COMPLETED]
    requires run[h].counters[HANDLE_OPENED] == run[r].counters[RELEASE_COMPLETED]
    ensures run[h].counters[RELEASE_COMPLETED] == run[r].counters[RELEASE_COMPLETED]
    ensures run[h].counters[REQUEST_TOTAL] == run[t].counters[REQUEST_TOTAL]
    ensures Outstanding(run[h]) == 0
  {
    hide IsRun, PendingReleases;
    RunGrows(run, p, a);
    RunGrows(run, p, b);
    RunGrows(run, p, h);
    RunGrows(run, p, r);
    RunGrows(run, b, h);
    RunGrows(run, h, r);
    RunGrows(run, b, t);
    RunGrows(run, h, t);
    RunGrows(run, r, t);
    EveryStateBalances(run, p);
    EveryStateBalances(run, h);
  }

  /**
    When the sampler accepts, the three values it read one after another were those of a single state, the one in
    which it read the handles; in that state every opened handle had been released.
   */
  lemma AcceptedValuesCoexisted(run: seq<State>, samples: seq<Sample>, k: nat)
    requires IsRun(run) && Readable(run, samples) && k < |samples| && AcceptsAt(run, samples, k)
    ensures HandlesAt(run, samples[k]) == ReleasesAt(run, samples[k])
    ensures Coexisted(run, samples, k, samples[k].atHandles)
    ensures var s := run[samples[k].atHandles];
            Outstanding(s) == 0
  {
    hide IsRun, PendingReleases;
    var j: nat :| j < k && StableThrough(run, samples, j, k);
    assert Stable(run, samples, k - 1) && Stable(run, samples, k);
    TwoStableRounds(run, samples[k - 2].atTotal, samples[k - 1].atHandles, samples[k - 1].atReleases,
                    samples[k].atHandles, samples[k].atReleases, samples[k].atTotal);
  }

  /** No callback that had begun by the previous round's last read is still running at this round's first read. */
  ghost predicate EarlierCallbacksFinished(run: seq<State>, samples: seq<Sample>, k: nat) {
    && Readable(run, samples) && 0 < k < |samples|
    && run[samples[k - 1].atTotal].running.Keys !! run[samples[k].atHandles].running.Keys
  }

  /** Through the whole round the daemon's state stays the same, runs no callback and has the values read. */
  ghost predicate Quiet(run: seq<State>, samples: seq<Sample>, k: nat) {
    && Readable(run, samples) && k < |samples|
    && forall i :: samples[k].atHandles <= i <= samples[k].atTotal ==>
      run[i] == run[samples[k].atHandles] && run[i].running == map[] && Coexisted(run, samples, k, i)
  }

  /** The daemon is at rest through an accepted round exactly when earlier callbacks have finished. */
  lemma AcceptedRoundIsQuiet(run: seq<State>, samples: seq<Sample>, k: nat)
    requires IsRun(run) && Readable(run, samples) && 0 < k < |samples| && AcceptsAt(run, samples, k)
    ensures EarlierCallbacksFinished(run, samples, k) <==> Quiet(run, samples, k)
    ensures EarlierCallbacksFinished(run, samples, k) <==> run[samples[k].atHandles].running == map[]
  {
    hide IsRun;
    var p, h, t := samples[k - 1].atTotal, samples[k].atHandles, samples[k].atTotal;
    AcceptedValuesCoexisted(run, samples, k);
    assert Stable(run, samples, k);
    if Quiet(run, samples, k) {
      assert run[h].running == map[];
    }
    forall i | h <= i <= t && EarlierCallbacksFinished(run, samples, k)
      ensures run[i] == run[h] && run[i].running == map[] && Coexisted(run, samples, k, i)
    {
      RunGrows(run, p, h);
      RunGrows(run, h, i);
      RunGrows(run, i, t);
      assert run[h].running.Keys == {};
      assert run[h].running == map[];
    }
  }

  function BusyState(): State {
    State(Bump(START.counters, REQUEST_TOTAL), map[7 := Callback(0, Entered)], 0)
  }

  lemma BusyRun()
    ensures IsRun([START, BusyState()]) && TotalsFit([START, BusyState()])
    ensures BusyState().counters[HANDLE_OPENED] == 0 == BusyState().counters[RELEASE_COMPLETED]
  {
    assert Enabled(START, Begin(7, 0)) && Step(START, Begin(7, 0)) == BusyState();
    assert Follows(START, BusyState());
  }

  /** Without that, an accepted round may have a callback in flight. */
  lemma AcceptedWhileBusy(run: seq<State>, samples: seq<Sample>)
    requires run == [START, BusyState()]
    requires samples == [Sample(1, 1, 1, 1, 2), Sample(3, 1, 1, 1, 4), Sample(5, 1, 1, 1, 4 + STABLE_NS)]
    ensures IsRun(run) && Readable(run, samples) && AcceptsAt(run, samples, 2)
    ensures run[samples[2].atHandles].running != map[]
  {
    hide IsRun, TotalsFit;
    BusyRun();
    assert 7 in BusyState().running;
    assert IsSampling(run, samples);
    SameReads(run, samples);
    assert StableThrough(run, samples, 1, 2);
  }

  lemma SameReads(run: seq<State>, samples: seq<Sample>)
    requires Readable(run, samples) && |samples| == 3 && |run| == 2
    requires forall k :: 0 <= k < 3 ==> samples[k].atHandles == samples[k].atReleases == samples[k].atTotal == 1
    requires run[1].counters[HANDLE_OPENED] == run[1].counters[RELEASE_COMPLETED]
    ensures Stable(run, samples, 1) && Stable(run, samples, 2) && !Stable(run, samples, 0)
  {
  }

  /** Releases never exceed opened handles in any state. */
  lemma ReleasesNeverExceed(run: seq<State>, i: nat)
    requires IsRun(run) && i < |run|
    ensures run[i].counters[RELEASE_COMPLETED] <= run[i].counters[HANDLE_OPENED]
  {
    EveryStateBalances(run, i);
  }

  /**
    The overflow error is nevertheless reported, exactly when the handles opened between the two reads outnumber those
    outstanding at the second.
   */
  lemma OverflowIsInterleaving(run: seq<State>, samples: seq<Sample>, k: nat)
    requires IsRun(run) && Readable(run, samples) && k < |samples|
    ensures var first, second := run[samples[k].atHandles], run[samples[k].atReleases];
            OverflowsAt(run, samples, k) <==>
              second.counters[HANDLE_OPENED] - first.counters[HANDLE_OPENED] > Outstanding(second)
  {
    hide IsRun;
    EveryStateBalances(run, samples[k].atReleases);
  }

  /** In no round is a handle counted as opened between the two reads. */
  ghost predicate NoMoreOpens(run: seq<State>, samples: seq<Sample>) {
    && Readable(run, samples)
    && forall k :: 0 <= k < |samples| ==>
      run[samples[k].atReleases].counters[HANDLE_OPENED] == run[samples[k].atHandles].counters[HANDLE_OPENED]
  }

  /** A caller whose opens are all done before it waits never sees the overflow error. */
  lemma {:induction false} NoOpensNoOverflow(run: seq<State>, samples: seq<Sample>)
    requires IsRun(run) && Readable(run, samples) && NoMoreOpens(run, samples)
    ensures forall k: nat :: k < |samples| ==> !OverflowsAt(run, samples, k)
  {
    hide IsRun;
    forall k: nat | k < |samples| ensures !OverflowsAt(run, samples, k) {
      OverflowIsInterleaving(run, samples, k);
    }
  }

  /** One file opened (2) or created (3), from the start. */
  lemma OpenOne(key: nat) returns (run: seq<State>)
    requires key == 2 || key == 3
    ensures |run| == 5 && IsRun(run)
    ensures run[4] == State(START.counters[key := 1][16 := 1][17 := 1], map[], 1)
  {
    hide Follows;
    var begun := START.counters[16 := 1];
    var counted := begun[key := 1];
    var s1 := State(begun, map[1 := Callback(key, Entered)], 0);
    var s2 := State(counted, map[1 := Callback(key, Counted)], 0);
    var s3 := State(counted[17 := 1], map[1 := Callback(key, Finished)], 0);
    var s4 := State(counted[17 := 1], map[], 1);
    StepFollows(START, Begin(1, key), s1);
    StepFollows(s1, CountKey(1), s2);
    StepFollows(s2, OpenHandle(1), s3);
    StepFollows(s3, Finish(1), s4);
    run := [START];
    RunExtend(run, s1);
    RunExtend(run + [s1], s2);
    RunExtend(run + [s1] + [s2], s3);
    RunExtend(run + [s1] + [s2] + [s3], s4);
    run := run + [s1] + [s2] + [s3] + [s4];
  }

  /** An open handle released by a daemon at rest. */
  lemma ReleaseOne(s: State) returns (t: State, u: State, v: State)
    requires s.running == map[] && s.handles > 0
    ensures Follows(s, t) && Follows(t, u) && Follows(u, v)
    ensures v.counters[REQUEST_TOTAL] == s.counters[REQUEST_TOTAL] + 1
    ensures v.counters[RELEASE_COMPLETED] == s.counters[RELEASE_COMPLETED] + 1
    ensures v.counters[15] == s.counters[15] + 1
    ensures t.counters[REQUEST_TOTAL] == u.counters[REQUEST_TOTAL] == v.counters[REQUEST_TOTAL]
  {
    hide Follows;
    t := Step(s, Begin(2, RELEASE));
    StepBumps(s, Begin(2, RELEASE));
    u := Step(t, CountKey(2));
    StepBumps(t, CountKey(2));
    v := Step(u, CompleteRelease(2));
    StepBumps(u, CompleteRelease(2));
    StepFollows(s, Begin(2, RELEASE), t);
    StepFollows(t, CountKey(2), u);
    StepFollows(u, CompleteRelease(2), v);
  }

  lemma StepFollows(s: State, l: Label, t: State)
    requires Enabled(s, l) && t == Step(s, l)
    ensures Follows(s, t)
  {
  }

  lemma RunExtend(run: seq<State>, t: State)
    requires IsRun(run) && Follows(run[|run| - 1], t)
    ensures IsRun(run + [t])
  {
    var more := run + [t];
    forall i | 0 <= i < |more| - 1 ensures Follows(more[i], more[i + 1]) {
      if i < |run| - 1 {
        assert more[i] == run[i] && more[i + 1] == run[i + 1];
      }
    }
  }

  /** It does happen: one file opened, closed and released between the two reads. */
  lemma OverflowHappens() returns (run: seq<State>, samples: seq<Sample>)
    ensures IsRun(run) && Readable(run, samples) && |samples| == 1 && OverflowsAt(run, samples, 0)
  {
    hide Follows;
    run := OpenOne(2);
    var t, u, v := ReleaseOne(run[4]);
    RunExtend(run, t);
    RunExtend(run + [t], u);
    RunExtend(run + [t] + [u], v);
    run := run + [t] + [u] + [v];
    samples := [Sample(1, 0, 7, 7, 2)];
    EveryTotalFits(run);
  }

  /** In a run whose last total is small every total is. */
  lemma EveryTotalFits(run: seq<State>)
    requires IsRun(run) && run[|run| - 1].counters[REQUEST_TOTAL] < NO_TOTAL
    ensures TotalsFit(run)
  {
    hide IsRun;
    forall i | 0 <= i < |run| ensures run[i].counters[REQUEST_TOTAL] < NO_TOTAL {
      RunGrows(run, i, |run| - 1);
    }
  }
}
