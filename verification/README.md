# namei_ext verification model

namei_ext lets a cgroup policy redirect, hide or pass single path components, and its repository backs every claim about
that mechanism with measurements and with checkers of those measurements. This project models the checkers, and the
algorithms the measurements depend on, and proves what they decide.

- **Publication of targets.** A writer SETs and CLEARs a target while readers OPEN it. The analyzer pairs a log of
  events into operations with real-time intervals (`PairHistory`) and sweeps over them to decide whether they have a
  linearization (`CheckLinearizable`). `Linearizability` states what that means, after Herlihy and Wing, as an order of
  all operations that respects real time and in which each OPEN sees the last write; it knows nothing of the sweep.
  `Positions` and `Greedy` connect the two, and `TargetHistory` says what the whole pipeline from log to verdict keeps.
- **The concurrent RCU trace.** `RcuTrace` gives the grammar of update windows and the parser with four hidden phases,
  and shows that the parser accepts exactly that grammar. `Retirement` compares the windows with the checked history.
- **Orders and hashes.** `Shuffle` is the benchmark's xorshift generator and in-place Fisher-Yates shuffle; `NameHash`
  is the 64-bit hash the benchmark and the cache policy share.
- **Component keys.** `ComponentKey` relates the fixed-width table, its C writer and its BPF reader to a plain map from
  components with names of any length. `CacheLocality` is the parent rule of the cache policy.
- **Listings.** `ListingCheck` is the validator that walks getdents buffers and marks every expected file.
- **Two small protocols.** `FuseQuiescence` is the FUSE daemon's counters with a sampler that reads them one by one;
  `PhaseControl` is the thread that moves the measurement phase while requests are counted in two steps.
- **Verdicts.** `Percentile` is the interpolating percentile, the bootstrap interval and the classification.

`History`, `Sequences`, `Sorting` and `Wrappers` hold what these share. Imperative code is modelled by methods and
classes that change state as the source does, each tied to a specification about which the properties are proved.
`dafny verify dfyconfig.toml` checks the whole project.

What the proofs brought out about the code:

- The comment that the greedy choice is exact holds up to ties: the sweep accepts a history if and only if it has a
  linearization that puts no update before an OPEN returning at the very event of that update's invocation. Pairing
  guarantees distinct event numbers, and then that is every linearization; `TargetHistory.TiedHistory` is a
  linearizable history that the sweep alone refuses.
- The check for a branch that "names an unmarked update" can never fire, and the begin/end and enter/return checks at
  the end of trace parsing hold of every stream that reaches them.
- In the cache policy's parent rule only the object-name test and the witness test decide: every object name passes the
  tests for length, `stats` and the `.local` suffix. The suffix test itself misses names of exactly 64 bytes
  (`CacheLocality.SuffixTestMissesLongest`).
- The quiescence sampler can report that releases exceed opened handles although they never do in any state: exactly
  when the handles opened between its two reads outnumber those outstanding at the second. A caller that has done its
  opens before it waits never sees that error.
- The two fast-path gates of the classification can both hold for some draws; `Percentile.FastPathGatesClash` says
  exactly when, by counting resampled medians. The two select gates cannot both hold.

## Model

| member | source | states |
|---|---|---|
| CheckLinearizable.CheckLinearizable | analysis/namei_ext_target_lifetime/analyze.py:264-375 | The sweep succeeds if and only if the history passes the well-formedness checks and has a linearization that puts no update before an OPEN returning at the event of its invocation; so acceptance always means linearizable, and on distinct endpoints, as pairing gives, the two are equivalent. On success each reported number and set is that of the recorded operations, and the assignment is the pointwise least legal one |
| Greedy.GreedyIsExact | analysis/namei_ext_target_lifetime/analyze.py:328-361 | When "Greedy is exact": for every history of sequential updates and nonempty intervals, earliest choices exist for all OPENs if and only if some linearization puts no update before an OPEN returning at the event of its invocation |
| Greedy.GreedyIsExactOnDistinct | analysis/namei_ext_target_lifetime/analyze.py:328-361 | On distinct endpoints, earliest choices exist for all OPENs if and only if some order of all operations is a linearization |
| Linearizability.DistinctHasNoTies | analysis/namei_ext_target_lifetime/analyze.py:75-84 | With distinct endpoints every linearization already keeps ties, so linearizable and strictly linearizable are the same |
| Positions.LegalGivesLinearization | analysis/namei_ext_target_lifetime/analyze.py:328-361 | Soundness: from a legal position assignment the weave of updates and OPENs is a permutation of the history that respects real time, in which each OPEN sees the last write and comes before any update invoked at the event of its return |
| Positions.LinearizationGivesLegal | analysis/namei_ext_target_lifetime/analyze.py:328-361 | Completeness: if a history has any linearization that keeps ties, all its OPENs can be placed legally |
| Positions.LegalIffLinearizable | analysis/namei_ext_target_lifetime/analyze.py:328-361 | A history of sequential updates has a legal position assignment if and only if it has a linearization that keeps ties |
| Positions.OnlyOneWriterOrder | analysis/namei_ext_target_lifetime/analyze.py:277-286 | Any order of the single writer's updates that respects real time is the writer's own order |
| Positions.CountsAreThresholds | analysis/namei_ext_target_lifetime/analyze.py:302-344 | Over sequential updates, being among the first n completed (or invoked) means exactly having returned (or been invoked) before the time asked about |
| Positions.PlaceIsLegal | analysis/namei_ext_target_lifetime/analyze.py:343-357 | The number of updates a linearization puts before an OPEN lies in the OPEN's window and at a position holding the state it saw |
| Greedy.GreedyIsLegal | analysis/namei_ext_target_lifetime/analyze.py:331-361 | Greedy positions match the observed states, stay in the windows and grow along real-time precedence |
| Greedy.GreedyIsLeast | analysis/namei_ext_target_lifetime/analyze.py:328-361 | Greedy positions are pointwise at most those of any legal assignment |
| Greedy.GreedyNeverFails | analysis/namei_ext_target_lifetime/analyze.py:328-357 | While a legal assignment exists, "no global linearization" is never raised for the next OPEN |
| Greedy.MaxCompletedIsMax | analysis/namei_ext_target_lifetime/analyze.py:333-342 | The naive reference bound is the largest position among placed OPENs that had returned |
| Greedy.Earliest | analysis/namei_ext_target_lifetime/analyze.py:348-357 | Linear search: the result holds the state inside the window, and no position of the window holding it is smaller or missed |
| CheckLinearizable.SweepRead | analysis/namei_ext_target_lifetime/analyze.py:337-361 | One step of the fast sweep chooses exactly the position the quadratic reference chooses, and keeps heap, maximum, assignment and overlap counts in step with all reads placed so far |
| CheckLinearizable.RetireCompleted | analysis/namei_ext_target_lifetime/analyze.py:338-342 | Popping the heap leaves a running maximum equal to the maximum over all reads whose response precedes the invocation |
| CheckLinearizable.MaximumIsExact | analysis/namei_ext_target_lifetime/analyze.py:332-342 | Heap and running maximum together lose no placed read |
| CheckLinearizable.Window | analysis/namei_ext_target_lifetime/analyze.py:343-344 | The two bisections over update endpoints are plain counts of completed and invoked updates |
| CheckLinearizable.BisectCountsCompleted | analysis/namei_ext_target_lifetime/analyze.py:343 | A bisection point of the response list is the count of updates completed before the time |
| CheckLinearizable.BisectCountsInvoked | analysis/namei_ext_target_lifetime/analyze.py:344 | A bisection point of the invocation list is the count of updates invoked before the time |
| CheckLinearizable.BisectFindsEarliest | analysis/namei_ext_target_lifetime/analyze.py:348-357 | Bisecting a state's position list finds what the linear search finds, and fails when it fails |
| CheckLinearizable.PlaceRead | analysis/namei_ext_target_lifetime/analyze.py:348-357 | The position taken from the lists is the earliest matching one in the window, none exactly when there is none |
| CheckLinearizable.IndexPositions | analysis/namei_ext_target_lifetime/analyze.py:297-304 | The per-state lists hold, for each state, all positions with that state in increasing order |
| CheckLinearizable.OverlapIsGap | analysis/namei_ext_target_lifetime/analyze.py:345-347 | The two bisections leave a gap if and only if some update was invoked before the OPEN returned and returned no earlier than it was invoked |
| CheckLinearizable.OverlapIsConcurrency | analysis/namei_ext_target_lifetime/analyze.py:345-347 | On distinct endpoints, an OPEN counts as overlapping if and only if some update of the history is concurrent with it |
| CheckLinearizable.NoPositionNoLinearization | analysis/namei_ext_target_lifetime/analyze.py:350-356 | When the greedy choice fails at some OPEN, no order of the history is a linearization that keeps ties |
| CheckLinearizable.GreedyGivesLeast | analysis/namei_ext_target_lifetime/analyze.py:331-361 | The assignment by operation id is legal for the recorded history and pointwise least among all legal ones, when no two OPENs share an id |
| CheckLinearizable.ReportIsExact | analysis/namei_ext_target_lifetime/analyze.py:363-375 | The returned counts and sets are those of the recorded operations, independent of the sorted lists |
| CheckLinearizable.ReportCounts | analysis/namei_ext_target_lifetime/analyze.py:297-375 | Updates, OPENs, successful, absent and overlapping OPENs are numbers of places in the recorded history with that kind, result or overlap; overlap readers and observed states are those of the OPENs concerned |
| CheckLinearizable.CheckHistory | analysis/namei_ext_target_lifetime/analyze.py:265-326 | The checks pass exactly on the histories whose updates carry the numbers 1 to n, each returning before the next is invoked, and whose operations each have a fitting state, result and identity; nothing is sorted to say so |
| CheckLinearizable.SingleWriterWithoutSorting | analysis/namei_ext_target_lifetime/analyze.py:277-286 | The list sorted by writer_seq is numbered in order and sequential if and only if every number from 1 to n is some update's and each update returns before the one numbered next is invoked |
| CheckLinearizable.ChecksMeanValid | analysis/namei_ext_target_lifetime/analyze.py:265-326 | The checks as the source makes them, over the sorted list, pass exactly on valid histories |
| CheckLinearizable.CheckWriter | analysis/namei_ext_target_lifetime/analyze.py:277-286 | True exactly when updates are numbered 1, 2, ... and each returned before the next was invoked |
| CheckLinearizable.CheckStates | analysis/namei_ext_target_lifetime/analyze.py:287-326 | True exactly when every update publishes a fitting state and every OPEN's result, state and identity agree |
| Sorting.BisectLeft | analysis/namei_ext_target_lifetime/analyze.py:343-350 | Everything before the returned index is smaller, everything from it on is not |
| Sorting.HeapPush | analysis/namei_ext_target_lifetime/analyze.py:359-361 | The heap gains exactly this entry and keeps a least one, in the order of the tuples, in front |
| Sorting.HeapPop | analysis/namei_ext_target_lifetime/analyze.py:339 | Takes out one entry that no other comes before in the order of the tuples, and keeps the rest |
| Sequences.SortBySorts | analysis/namei_ext_target_lifetime/analyze.py:277-331 | Sorting by a key orders by that key and keeps every element as often as it was |
| Sequences.SortIsStable | analysis/namei_ext_target_lifetime/analyze.py:277-331 | Elements with the same key keep the order they were given in |
| Sequences.SortedIsUnique | analysis/namei_ext_target_lifetime/analyze.py:277-331 | With distinct keys the sorted list does not depend on the order given |
| PairHistory.PairHistory | analysis/namei_ext_target_lifetime/analyze.py:64-156 | Succeeds if and only if, in terms of the log alone, the events of the cell are well formed, differ, and each is part of one whole operation whose events agree; returns one operation for each operation id, with state, result and identity of its response record, everything else of its invoke record, and an end at the syscall return for an OPEN and at the response otherwise |
| PairHistory.PairsUpIsWellPaired | analysis/namei_ext_target_lifetime/analyze.py:64-156 | What the dictionaries find decides exactly whether the log pairs up record by record |
| PairHistory.RecordingsAreOperations | analysis/namei_ext_target_lifetime/analyze.py:138-153 | The operations built are exactly those whose every field is told by the record it comes from |
| PairHistory.GoodInLog | analysis/namei_ext_target_lifetime/analyze.py:65-98 | No record is refused by the first loop if and only if the events of the cell have positive numbers and times and valid phases, and no two share a number or a part of an operation |
| PairHistory.Collect | analysis/namei_ext_target_lifetime/analyze.py:65-98 | The first loop succeeds exactly on valid records without repeated event numbers or roles, and its dictionaries hold each record under its operation and role |
| PairHistory.AddRecord | analysis/namei_ext_target_lifetime/analyze.py:86-98 | One record is refused exactly when its phase is invalid or its role in its operation is taken |
| PairHistory.GoodOrNot | analysis/namei_ext_target_lifetime/analyze.py:77-97 | The per-record checks fail exactly when the record spoils the log read so far, and then the whole log is bad |
| PairHistory.BuildOperation | analysis/namei_ext_target_lifetime/analyze.py:102-153 | One operation is built exactly when its records fit together; an OPEN consumes its syscall return, nothing else does |
| PairHistory.NoneLeft | analysis/namei_ext_target_lifetime/analyze.py:121-155 | In a well paired log no syscall return is left over |
| PairHistory.AllPaired | analysis/namei_ext_target_lifetime/analyze.py:100-156 | Once all operations are built, "open return lacks history operation" is raised exactly when the log is not well paired |
| PairHistory.PairedIsWellTimed | analysis/namei_ext_target_lifetime/analyze.py:75-156 | The operations have invoke before response, and pairwise distinct endpoints and ids: what the checker's exactness needs |
| PairHistory.EveryEventUsed | analysis/namei_ext_target_lifetime/analyze.py:64-156 | The records the operations were built from are all records of the cell |
| PairHistory.EveryEventUsedOnce | analysis/namei_ext_target_lifetime/analyze.py:64-156 | Conservation: two events for an update and three for an OPEN add up to the number of events of the cell |
| TargetHistory.CheckCell | analysis/namei_ext_target_lifetime/analyze.py:64-375 | Pairing followed by the check accepts exactly the logs that pair up and whose recorded operations form a valid, linearizable history |
| TargetHistory.LogOrderIsIrrelevant | analysis/namei_ext_target_lifetime/analyze.py:64-375 | Any permutation of the log records leaves the verdict unchanged |
| TargetHistory.LogOrderKeepsReport | analysis/namei_ext_target_lifetime/analyze.py:64-375 | When a log is accepted, any permutation of its records leaves the whole report, with its assignment, unchanged |
| TargetHistory.SameOperations | analysis/namei_ext_target_lifetime/analyze.py:64-156 | Pairing a permuted log gives a permutation of the same operations |
| TargetHistory.PermutedSameVerdict | analysis/namei_ext_target_lifetime/analyze.py:264-375 | Permuted operations are valid, linearizable, and linearizable keeping ties, exactly when the originals are |
| TargetHistory.PermutedSameReport | analysis/namei_ext_target_lifetime/analyze.py:363-375 | Permuted operations have the same report; the same assignment too, when no two OPENs share an id |
| TargetHistory.LeastIsUnique | analysis/namei_ext_target_lifetime/analyze.py:331-361 | A history has only one least assignment, however its operations are listed |
| TargetHistory.NarrowingIsSafe | analysis/namei_ext_target_lifetime/analyze.py:120-137 | A history accepted with OPENs ending at the syscall return is also accepted with OPENs ending at the later response |
| TargetHistory.WidenedLinearization | analysis/namei_ext_target_lifetime/analyze.py:120-137 | A linearization stays one when intervals are lengthened at their end |
| TargetHistory.SharedEndpointCostsCompleteness | analysis/namei_ext_target_lifetime/analyze.py:344 | A concrete valid and linearizable history with a shared endpoint that the sweep refuses |
| RcuTrace.ParseTrace | analysis/namei_ext_target_lifetime/analyze.py:423-570 | Accepts if and only if the stream has one lossless header and prints a trace of distinct, successful windows with both a hit and an absent result; reports that trace, with branches marked by their place in the stream, the numbers of resolutions with result 0 and -2, and the number of zeros between an enter and the return after it |
| RcuTrace.ParseLines | analysis/namei_ext_target_lifetime/analyze.py:424-515 | The loop raises exactly when the grammar has no step for some line or a second header comes |
| RcuTrace.ParseToken | analysis/namei_ext_target_lifetime/analyze.py:435-515 | With three variables for four hidden phases, one line is accepted exactly when the grammar has a step for it, and what is recorded is what the grammar says |
| RcuTrace.AcceptsExactlyPrints | analysis/namei_ext_target_lifetime/analyze.py:432-524 | A stream is read to an idle end with trace t if and only if, header and noise aside, it is the printing of t |
| RcuTrace.PrintOfParse | analysis/namei_ext_target_lifetime/analyze.py:432-515 | Printing what was parsed gives the stream back |
| RcuTrace.ParseOfPrint | analysis/namei_ext_target_lifetime/analyze.py:432-515 | Parsing a printed trace, complete or partial, gives it back |
| RcuTrace.LabelsAreBranches | analysis/namei_ext_target_lifetime/analyze.py:466-478 | A branch is marked under update with window n if and only if it lies between that window's enter and return |
| RcuTrace.MarksFollowTokens | analysis/namei_ext_target_lifetime/analyze.py:435-515 | The active window is that of the last begin before the last enter, until a return |
| RcuTrace.WindowsPair | analysis/namei_ext_target_lifetime/analyze.py:525-536 | Equal begin and end lists and one enter and one return for each window are invariants of every complete stream |
| RcuTrace.OnlyTrace | analysis/namei_ext_target_lifetime/analyze.py:432-524 | An accepted stream prints one trace and no other |
| RcuTrace.Verdict | analysis/namei_ext_target_lifetime/analyze.py:525-548 | The final checks pass exactly on conclusive traces |
| RcuTrace.CountsOfTrace | analysis/namei_ext_target_lifetime/analyze.py:537-569 | The counts over marked branches are counts over the trace: zeros and -ENOENT among all its results, and zeros among the results inside its windows |
| RcuTrace.StreamHasResults | analysis/namei_ext_target_lifetime/analyze.py:466-478 | A result occurs in the trace as often as a resolution with that result occurs in the stream |
| RcuTrace.StreamRefused | analysis/namei_ext_target_lifetime/analyze.py:435-524 | A stream that gets stuck, ends inside a window or has two headers prints no trace |
| Retirement.CheckCoverage | analysis/namei_ext_target_lifetime/analyze.py:780-802 | Marker coverage passes exactly when the windows' numbers are the history's writer sequence |
| Retirement.InsideIsNumbered | analysis/namei_ext_target_lifetime/analyze.py:797-802 | Every branch under update names a window of the trace, so the unmarked-update check never fires |
| Retirement.ValidNumbers | analysis/namei_ext_target_lifetime/analyze.py:277-283 | A checked history's writer sequence is exactly 1 to n |
| Retirement.CoverageIsPermutation | analysis/namei_ext_target_lifetime/analyze.py:781-796 | After both checks the windows are numbered by a permutation of 1 to n, one for each update |
| Retirement.ValidateCell | analysis/namei_ext_target_lifetime/analyze.py:1500-1545 | Pairing, linearizability check, trace parsing and marker coverage in a row succeed if and only if the log and the stream hold such evidence; then the windows are numbered by a permutation of 1 to n, one for each update of the history |
| NameHash.OneByteChangesHash | bpf/policies/cache_locality_view.bpf.c:99-113 | Two names of equal length that differ in exactly one byte never hash equal |
| NameHash.HashByBytes | bench/workloads/namei_ext_bench.c:841-850 | From the offset, each byte flips the binary digits of the state where it has ones, and the result is multiplied by the prime modulo 2^64 |
| NameHash.XorByteBits | bpf/policies/cache_locality_view.bpf.c:108 | Xoring a byte flips exactly the digits of the state where the byte has ones |
| NameHash.RoundIsBijection | bpf/policies/cache_locality_view.bpf.c:107-110 | Each xor-then-multiply round is a bijection on 64-bit states, with the given inverse |
| NameHash.RoundTellsApart | bpf/policies/cache_locality_view.bpf.c:107-110 | From one state, different bytes lead to different states |
| NameHash.TailIsInjective | bpf/policies/cache_locality_view.bpf.c:105-111 | Hashing the same tail from different states ends in different states |
| NameHash.PrimeIsInvertible | bpf/policies/cache_locality_view.bpf.c:109 | Multiplication by the prime modulo 2^64 is undone by its inverse, on both sides |
| NameHash.XorByteUndoes | bpf/policies/cache_locality_view.bpf.c:108 | Xoring the same byte twice restores the state and stays within 64 bits |
| NameHash.Fnv1a64 | bench/workloads/namei_ext_bench.c:841-850 | The benchmark's loop computes the hash of the string, of nothing for a null pointer |
| NameHash.ComponentNameHash | bpf/policies/cache_locality_view.bpf.c:99-113 | The policy's bounded loop computes the same hash of the component name, cut at 64 bytes |
| Shuffle.EveryPermutationOnce | bench/workloads/namei_ext_bench.c:877-892 | Every permutation of 0 to n - 1 is produced by exactly one vector of draws |
| Shuffle.DrawsAreUnique | bench/workloads/namei_ext_bench.c:885-891 | Different draws leave different orders, from any array of distinct cells |
| Shuffle.DrawsExist | bench/workloads/namei_ext_bench.c:885-891 | Any rearrangement of the cells shuffled is reached by some draws |
| Shuffle.ShuffledPermutes | bench/workloads/namei_ext_bench.c:885-891 | Whatever is drawn, the shuffle only rearranges |
| Shuffle.FinalOrderIsPermutation | bench/workloads/namei_ext_bench.c:877-892 | The order left in the array is a permutation of 0 to n - 1, randomized or not |
| Shuffle.Bench.ShuffleOrder | bench/workloads/namei_ext_bench.c:877-892 | In place, the array ends as the shuffle of 0 to n - 1 by the generator's draws, and the generator has advanced once per swap |
| Shuffle.Bench.SwapDrawn | bench/workloads/namei_ext_bench.c:885-891 | One step swaps cell i with the drawn cell and changes no other |
| Shuffle.Bench.PrngNext | bench/workloads/namei_ext_bench.c:852-861 | The state steps to the next nonzero state and the result is its scrambled value |
| Shuffle.XorShiftDigits | bench/workloads/namei_ext_bench.c:856-858 | Digit by digit, a step xors the 64-bit word with itself shifted right by 12, then left by 25, then right by 27 |
| Shuffle.Bench.InitOrderSeed | bench/workloads/namei_ext_bench.c:863-875 | The state starts nonzero: the seed's hash, or a fixed value when that hash is zero; a missing or empty seed has a default |
| Shuffle.XorShiftStaysNonzero | bench/workloads/namei_ext_bench.c:852-861 | A nonzero 64-bit state steps to a nonzero 64-bit state |
| Shuffle.StateNeverZero | bench/workloads/namei_ext_bench.c:852-875 | On no run from a nonzero state does the generator reach zero |
| ComponentKey.RunInstalls | bench/workloads/namei_ext_bench.c:437-455 | Over any sequence of installs the table with 64-byte names agrees with a map keyed by components with names of any length |
| ComponentKey.RuleTable.UpdateRedirectRule | bench/workloads/namei_ext_bench.c:437-455 | One install succeeds, and changes the table, exactly as it does on the reference map; a failed one changes nothing |
| ComponentKey.RuleTable.Update | bench/workloads/namei_ext_bench.c:451-454 | The map update overwrites an existing key, adds a new one while there is room, and fails otherwise |
| ComponentKey.LastInstallWins | bench/workloads/namei_ext_bench.c:437-455 | A component's rule is that of the last install for it that fits |
| ComponentKey.FittingInstallsAreKept | bench/workloads/namei_ext_bench.c:437-455 | Every install that fits stays findable if and only if the fitting installs are for at most 4096 components, however many installs there are |
| ComponentKey.FillKey | bench/workloads/namei_ext_bench.c:401-420 | Fails exactly on a name over 64 bytes or a parent that cannot be examined; otherwise gives the component's padded key |
| ComponentKey.FillRule | bench/workloads/namei_ext_bench.c:422-435 | Fails exactly on a target over 64 bytes; otherwise gives the padded redirect rule |
| ComponentKey.CopyPadded | bench/workloads/namei_ext_bench.c:411-418 | The zeroed buffer starts with the string and is zero after it |
| ComponentKey.KeysAreFaithful | bpf/include/namei_ext_policy.h:30-37 | Padding loses nothing: two components with the same key are the same |
| ComponentKey.AgreesAfter | bpf/include/namei_ext_policy.h:30-45 | Setting a component's rule in the map and its key's rule in the table keeps both in agreement |
| ComponentKey.SameSize | bpf/include/namei_ext_policy.h:27-45 | The table has as many entries as the reference map, so both are full together |
| ComponentKey.KeyFindsComponent | bpf/include/namei_ext_policy.h:51-68 | The reader's key is in the table exactly when its component is in the reference, with that component's rule |
| ComponentKey.Context.TableRedirect | bpf/policies/table_redirect.bpf.c:12-21 | The policy redirects to exactly the bytes last installed for this component and no other; otherwise it passes and leaves the context alone |
| ComponentKey.RedirectAfterInstalls | bpf/policies/table_redirect.bpf.c:12-21 | Writer and reader together, field by field: after any installs for at most 4096 components the policy redirects if and only if some install with name and target of at most 64 bytes has this event, cgroup, parent device, parent inode and name, and to the target of the last such install; otherwise it passes and leaves the context alone |
| ComponentKey.SubjectsAreStored | bench/workloads/namei_ext_bench.c:401-455 | A rule can be stored for a component if and only if some install has its event, cgroup, parent device, parent inode and name and nothing too long |
| ComponentKey.StoredRule | bench/workloads/namei_ext_bench.c:437-455 | With rules for at most 4096 components, the map holds for each exactly the target of the last install with these fields |
| ComponentKey.Context.BuildComponentKey | bpf/include/namei_ext_policy.h:51-68 | The key carries the context's identity and the zero-padded first 64 bytes of the name |
| ComponentKey.Context.NameIs | bpf/include/namei_ext_policy.h:70-85 | True exactly when the lengths agree and the first 64 bytes are those of the literal |
| ComponentKey.Context.SetRedirect | bpf/include/namei_ext_policy.h:87-98 | The first bytes of the redirect name become the target's; the bytes after them stay |
| ComponentKey.Context.ApplyRule | bpf/include/namei_ext_policy.h:100-111 | Hides, passes or redirects as the rule says, and writes the context only to redirect |
| CacheLocality.LookupParentRule | bpf/policies/cache_locality_view.bpf.c:203-234 | Redirects exactly the object names whose hash the rule witnesses, to the name with `.local` appended; otherwise passes and leaves the context alone |
| CacheLocality.WriteLocalName | bpf/policies/cache_locality_view.bpf.c:222-232 | The redirect name becomes the name with `.local` appended; the bytes after it stay |
| CacheLocality.NameIsObject | bpf/policies/cache_locality_view.bpf.c:150-166 | True exactly for 31 lower-case letters or digits followed by M or R |
| CacheLocality.LowerAlnumMeans | bpf/policies/cache_locality_view.bpf.c:145-148 | The two range tests accept exactly the characters 0 to 9 and a to z |
| CacheLocality.NameHasLocalSuffix | bpf/policies/cache_locality_view.bpf.c:168-184 | True exactly for names under 64 bytes that end in `.local` after at least one byte |
| CacheLocality.SuffixTestMissesLongest | bpf/policies/cache_locality_view.bpf.c:174-182 | A concrete name of 64 bytes ends in `.local` without the suffix test finding it |
| CacheLocality.ParentNameWitnessOk | bpf/policies/cache_locality_view.bpf.c:115-134 | True exactly when one of the rule's 1 to 4 witnesses is the hash of the name |
| CacheLocality.ObjectNamesPassOtherChecks | bpf/policies/cache_locality_view.bpf.c:209-218 | An object name passes the length, `stats` and suffix tests, so those decide nothing |
| CacheLocality.WitnessTellsNeighboursApart | bpf/policies/cache_locality_view.bpf.c:115-234 | A rule with one witness redirects no name that differs from the redirected one in a single byte |
| ListingCheck.EnumerateValidationDirectories | bench/fxmark/fxmark_cell.c:747-840 | Succeeds if and only if each directory lists one dot, one dot-dot and otherwise only files of its own, and every (worker, file) is listed exactly once; then the entries counted are the caller's formula and the calls counted are the nonempty buffers |
| ListingCheck.SlotsDecideFiles | bench/fxmark/fxmark_cell.c:747-840 | Every slot filled exactly once means every file listed exactly once, in the directory it belongs to, and conversely |
| ListingCheck.AllSlotsCountFiles | bench/fxmark/fxmark_cell.c:703-705 | Over all directories a file's slot is filled as often as its home directory lists the file |
| ListingCheck.SlotsTellFilesApart | bench/fxmark/fxmark_cell.c:681-706 | Different files never get the same slot, whatever directories list them |
| ListingCheck.ScanDirectory | bench/fxmark/fxmark_cell.c:761-829 | One directory passes exactly when its names belong, its dots occur once and its files were not seen before; the table then gains exactly its slots |
| ListingCheck.BuffersBeforeEmpty | bench/fxmark/fxmark_cell.c:765-777 | The calls counted are those before the first empty buffer |
| ListingCheck.ScanBuffer | bench/fxmark/fxmark_cell.c:778-824 | The record walk ends, stays inside the buffer, and takes the buffer's names one by one |
| ListingCheck.TakeName | bench/fxmark/fxmark_cell.c:800-822 | One name is refused exactly when it is a repeated dot, foreign, or already marked |
| ListingCheck.TakeAllMeans | bench/fxmark/fxmark_cell.c:800-822 | Taking names one at a time succeeds exactly when none is repeated or foreign, and marks exactly their slots |
| ListingCheck.EverySlotSeen | bench/fxmark/fxmark_cell.c:833-836 | The last loop passes exactly when no slot is unmarked |
| ListingCheck.SlotOf | bench/fxmark/fxmark_cell.c:681-706 | A slot is given exactly to the files that belong in the directory; it lies inside the table and determines worker and file |
| ListingCheck.CompleteCount | bench/fxmark/fxmark_cell.c:917-922 | A complete listing has exactly as many entries as the expected-entries formula says |
| ListingCheck.SeenIsComplete | bench/fxmark/fxmark_cell.c:833-836 | Without repeats, every slot marked means every slot filled exactly once |
| ListingCheck.BadDirectoryIsIncomplete | bench/fxmark/fxmark_cell.c:825-832 | Stopping early at a bad or repeating directory is right: no later directory can complete the listing |
| FuseQuiescence.EveryStateBalances | experiments/agent_workspace/namei_ext_agent_workspace_fuse.c:801-818 | In every state of every run request_total minus the callbacks' own counters is the number of callbacks between their two increments, and opened handles are those released, open, being released, or still being returned by their open |
| FuseQuiescence.StepKeeps | experiments/agent_workspace/namei_ext_agent_workspace_fuse.c:1113-1148 | Each step of a callback keeps both balances |
| FuseQuiescence.RunGrows | experiments/agent_workspace/namei_ext_agent_workspace_fuse.c:801-818 | None of the counters ever falls, and while request_total stands still no callback begins |
| FuseQuiescence.WaitFuseQuiescent | experiments/agent_workspace/namei_ext_agent_workspace_fuse.c:967-1004 | Accepts at the first round that ends at least 20 ms of rounds which each read equal handle counters and the total of the round before, overflows at the first round that read more releases than handles, and times out only when no round in time decided |
| FuseQuiescence.LongestStretchDecides | experiments/agent_workspace/namei_ext_agent_workspace_fuse.c:991-999 | A round ends 20 ms of stable rounds if and only if the longest stable stretch up to it is that long |
| FuseQuiescence.AcceptedValuesCoexisted | experiments/agent_workspace/namei_ext_agent_workspace_fuse.c:985-998 | On acceptance the three values read one after another were those of one state, in which every opened handle had been released |
| FuseQuiescence.TwoStableRounds | experiments/agent_workspace/namei_ext_agent_workspace_fuse.c:991-998 | Two stable rounds with equal totals leave no handle open, being released or being returned |
| FuseQuiescence.AcceptedRoundIsQuiet | experiments/agent_workspace/namei_ext_agent_workspace_fuse.c:985-998 | Through an accepted round the daemon stays unchanged and runs no callback if and only if callbacks begun before the previous round's last read have finished |
| FuseQuiescence.AcceptedWhileBusy | experiments/agent_workspace/namei_ext_agent_workspace_fuse.c:985-998 | A concrete run shows that without this an accepted round can have a callback in flight |
| FuseQuiescence.ReleasesNeverExceed | experiments/agent_workspace/namei_ext_agent_workspace_fuse.c:1260-1271 | In no state have more releases completed than handles been opened |
| FuseQuiescence.OverflowIsInterleaving | experiments/agent_workspace/namei_ext_agent_workspace_fuse.c:985-990 | The overflow error is reported if and only if the handles opened between the two reads outnumber those outstanding at the second |
| FuseQuiescence.NoOpensNoOverflow | experiments/agent_workspace/namei_ext_agent_workspace_fuse.c:985-990 | A wait during whose rounds no handle is opened between the two reads never reports overflow |
| FuseQuiescence.OverflowHappens | experiments/agent_workspace/namei_ext_agent_workspace_fuse.c:985-990 | A concrete run in which a correct daemon is reported as overflowing |
| PhaseControl.CleanAcksMeanMA | bench/fxmark/fxmark_fuse.c:91-139 | In every interleaving the final acknowledgements are one and one with none refused if and only if the commands read were exactly M then A |
| PhaseControl.ControlIsSequential | bench/fxmark/fxmark_fuse.c:115-134 | Whatever requests do meanwhile, the control thread's state is that of serving its commands one by one |
| PhaseControl.EveryCommandTallied | bench/fxmark/fxmark_fuse.c:117-134 | Every command served is acknowledged or counted invalid, once |
| PhaseControl.PhaseFollowsStores | bench/fxmark/fxmark_fuse.c:117-129 | The phase is setup until the first store and after from the second on |
| PhaseControl.LoadsAreCounted | bench/fxmark/fxmark_fuse.c:232-239 | In every interleaving a phase's counter plus the requests in flight for it is the number of requests whose phase load fell into that phase |
| PhaseControl.TotalsCountLoads | bench/fxmark/fxmark_fuse.c:477-486 | With no request in flight a phase's reported total is the number of loads in that phase |
| PhaseControl.MeasuredTotalIsWindow | bench/fxmark/fxmark_fuse.c:477-486 | The measured total counts exactly the requests that loaded the phase between the two stores |
| PhaseControl.Daemon.ServeCommand | bench/fxmark/fxmark_fuse.c:117-134 | Advances the phase on M from setup and A from measured, counts anything else invalid, and replies accordingly |
| PhaseControl.Daemon.AddRequest | bench/fxmark/fxmark_fuse.c:232-239 | Adds one to the request's counter in the phase it loaded and to no other |
| PhaseControl.Daemon.Perform | bench/fxmark/fxmark_fuse.c:91-239 | Each step of the daemon changes its fields as the step of the state machine does |
| PhaseControl.PerformAll | bench/fxmark/fxmark_fuse.c:91-239 | Performing any run of steps leaves the daemon in the run's last state |
| Percentile.PercentileIsMonotone | analysis/fxmark/analyze.py:22-30 | Over a sorted sample the percentile stays within its ends and grows with the probability |
| Percentile.PercentileAtRank | analysis/fxmark/analyze.py:22-30 | At an order statistic's own probability the percentile is that order statistic |
| Percentile.InterpolateGrows | analysis/fxmark/analyze.py:24-30 | The interpolated value grows with the position, across segment borders too |
| Percentile.BootstrapMedianCi | analysis/fxmark/analyze.py:33-42 | For all draws: raises exactly on no values; otherwise returns the two percentiles of the resampled medians, low at most high, inside any bounds of the values |
| Percentile.IntervalIsWithin | analysis/fxmark/analyze.py:33-42 | Whatever is drawn, the interval has low at most high and lies inside any bounds of the values |
| Percentile.IntervalIsOrdered | analysis/fxmark/analyze.py:33-42 | Whatever is drawn, the interval lies inside any bounds common to all resamples |
| Percentile.Resample | analysis/fxmark/analyze.py:38-39 | A resample holds, draw by draw, the values drawn |
| Percentile.MedianIsWithin | analysis/fxmark/analyze.py:40 | A median lies within any bounds of its sample |
| Percentile.SortSorts | analysis/fxmark/analyze.py:41 | Sorting orders the estimates and keeps each as often as it was |
| Percentile.VerdictByCounting | analysis/fxmark/analyze.py:186-320 | For all measurements and draws, told by counting ratios and resampled medians: supported if and only if every cell passes both gates, contradicted if and only if it is not supported and some cell contradicts a gate, mixed otherwise |
| Percentile.RowByCounting | analysis/fxmark/analyze.py:186-311 | Each of a cell's four conditions holds exactly by the counts of unattached over stock reaching 0.98 and 0.97 and of select over fuse above 1 |
| Percentile.EstimatesAre | analysis/fxmark/analyze.py:36-40 | The estimates are, in order, the medians of the values that each list of draws picks |
| Percentile.SelectGatesExclude | analysis/fxmark/analyze.py:186-319 | For all measurements and all draws, the summary made from them never has select_positive and select_contradicted both hold |
| Percentile.InterpolateReaches | analysis/fxmark/analyze.py:22-30 | The percentile of a sample reaches a threshold if and only if enough of its values do, or one fewer and the mean of the two values around the threshold does; no sorting needed to tell |
| Percentile.MedianByCounting | analysis/fxmark/analyze.py:40 | The median reaches a threshold if and only if more than half of the values do, or half of them and the mean of the middle two |
| Percentile.IntervalByCounting | analysis/fxmark/analyze.py:33-42 | The low end reaches a threshold exactly with 9751 of the 10000 resampled medians reaching it, the high end with 251, with the interpolated value deciding at 9750 and 250 |
| Percentile.FastPathGatesClash | analysis/fxmark/analyze.py:186-311 | fast_path_positive and fast_path_contradicted both hold if and only if in every cell enough ratios reach 0.98 and enough resampled medians reach 0.97, and in some cell at most 249 resampled medians reach 0.98, or 250 with the interpolated value below it |
| Percentile.ClashWithinCell | analysis/fxmark/analyze.py:186-311 | In a cell for which both gates hold, half of the ratios reach 0.98 and at least 9750 resampled medians reach 0.97, yet at most 250 of the 10000 reach 0.98 |
| Percentile.FastPathGatesCanClash | analysis/fxmark/analyze.py:186-319 | For some draws it happens: nine cells of concrete measurements and resamples whose summary is called supported while its fast path is contradicted |

## Left out

- Sorting.HeapPush: keeps the in-flight reads as a sequence in tuple order; the binary-heap layout of the library's heap is not modelled, only what a push and a pop guarantee.
- Sequences.SortBySorts: stands for the library's stable sort; its algorithm is not modelled.
- CheckLinearizable.CheckLinearizable: requires each operation to return after its invocation, which is what an interval is and what pairing checks. Overlap readers and observed states are reported as sets instead of sorted lists, and the assignment of a history that repeats the id of an OPEN is not described.
- PairHistory.PairHistory: state names, operations and labels are only compared, so they are a datatype and numbers; event_seq and op_id are taken to be present, and the order in which several errors would be raised is not modelled.
- RcuTrace.ParseTrace: works on tokens; the regular expressions that recognise a line are not modelled.
- Retirement.CheckCoverage: models the marker-coverage part only; the comparison with the recorded summary and the two litmus rows are not modelled.
- Retirement.ValidateCell: leaves out the identity, overlap, descriptor, reader and phase validators that run between its four steps.
- ListingCheck.EnumerateValidationDirectories: a listed name is taken as already parsed to (worker, file), and a buffer as the record found at each offset; number syntax, memory failure and the hidden-lookup counters of the caller are not modelled.
- FuseQuiescence.WaitFuseQuiescent: judges a finite list of rounds, and a list that ends undecided counts as timed out; request_total is taken not to reach the last 64-bit value, and the clock to be positive and never to run backwards.
- FuseQuiescence.EveryStateBalances: takes from the kernel that a release begins only for a handle whose open has returned.
- PhaseControl.CleanAcksMeanMA: polling, accepting and replying on the control socket are left out; a command is a step that reads it, or fails to.
- Percentile.BootstrapMedianCi: uses real numbers and arbitrary draws; floating-point rounding and the random generator are not modelled.
- Percentile.SelectGatesExclude: a cell holds the four conditions the gates read, with positive values as validation demands; a row holds the five numbers the gates read.
- ComponentKey.RuleTable.Update: the BPF hash map is a map of at most 4096 entries; other failures of the system call are not modelled.
- Shuffle.Bench.InitOrderSeed: environment variables are parameters.
- Memory order: the two protocols interleave atomic steps; weaker orders are not modelled.
- 64-bit counters of the daemons, of the listing and of the phases do not wrap.
- The cache policy's epoch rules and per-component rule states, the literal alias policies and the small select and hide policies: each is settled by reading a few branches.
- The descriptor, open-identity and matrix validators of the analyzers: long conjunctions over finite tables.
- Kernel hooks, the target registry, libfuse, process and cgroup handling, the simultaneous epoch switch of the agent daemon, and all JSON, CSV and plot output.
