/** The listing validator: every expected file is listed exactly once, whatever buffers getdents returns. */
module ListingCheck {
  import opened Wrappers
  import opened Sequences

  const FILES_PER_WORKER: nat := 8192

  /** Offset of the name in a directory record. */
  const HEADER: nat := 19

  datatype CellType = Mrdl | Mrdm | OtherType

  datatype Config = Config(cellType: CellType, ncore: nat)

  /** A listed name, read by the pattern of the cell's type; a name that does not fit it is Unparsed. */
  datatype Name = Dot | DotDot | File(worker: int, file: nat) | Unparsed

  /** A directory record as read at some offset: its length, whether its name is terminated, and that name. */
  datatype Dirent = Dirent(reclen: nat, terminated: bool, name: Name)

  /** What one getdents call returns: an error, or a buffer; at[p] is the record read at offset p. */
  datatype Chunk = Error | Data(at: seq<Dirent>)

  function DirectoryCount(config: Config): nat {
    if config.cellType.Mrdl? then config.ncore else 1
  }

  function FileCount(config: Config): nat {
    FILES_PER_WORKER * config.ncore
  }

  /** The formula the caller compares the entry count with. */
  function ExpectedEntries(config: Config): nat {
    if config.cellType.Mrdl? then config.ncore * (FILES_PER_WORKER + 2)
    else config.ncore * FILES_PER_WORKER + 2
  }

  /** A file that the given directory should list. */
  predicate Belongs(config: Config, directory: nat, name: Name) {
    && name.File? && name.file < FILES_PER_WORKER
    && match config.cellType
       case Mrdl => name.worker == directory
       case Mrdm => 0 <= name.worker < config.ncore
       case OtherType => false
  }

  /** The directory that should list a worker's files. */
  function HomeOf(config: Config, worker: nat): (directory: nat)
    requires worker < config.ncore
    ensures directory < DirectoryCount(config)
  {
    if config.cellType.Mrdl? then worker else 0
  }

  /** The slot of a file name, or None when the name does not belong in this directory. */
  function SlotOf(config: Config, directory: nat, name: Name): (r: Option<nat>)
    ensures r.Some? <==> Belongs(config, directory, name)
    ensures r.Some? && directory < DirectoryCount(config) ==> r.value < FileCount(config)
    ensures r.Some? ==> name.worker == r.value / FILES_PER_WORKER && name.file == r.value % FILES_PER_WORKER
  {
    if !name.File? || name.file >= FILES_PER_WORKER then None
    else
      match config.cellType
      case Mrdl => if name.worker == directory then Some(Slot(name.worker, name.file)) else None
      case Mrdm => if 0 <= name.worker < config.ncore then Some(Slot(name.worker, name.file)) else None
      case OtherType => None
  }

  function Slot(worker: nat, file: nat): (r: nat)
    ensures file < FILES_PER_WORKER ==> r / FILES_PER_WORKER == worker && r % FILES_PER_WORKER == file
  {
    worker * FILES_PER_WORKER + file
  }

  // ---------- What a listing says ----------

  /** The record at an offset ends inside its buffer, and has a terminated name after its 19 bytes of header. */
  predicate RecordFits(at: seq<Dirent>, position: nat) {
    && position < |at| && at[position].terminated
    && at[position].reclen >= 20 && position + at[position].reclen <= |at|
  }

  /** The names met when walking the records from an offset to the end of the buffer. */
  function Walk(at: seq<Dirent>, position: nat): Option<seq<Name>>
    decreases |at| - position
  {
    if position >= |at| then Some([])
    else if !RecordFits(at, position) then None
    else
      var rest := Walk(at, position + at[position].reclen);
      if rest.None? then None else Some([at[position].name] + rest.value)
  }

  /** The names of a directory: its buffers up to the first empty one. */
  function Names(chunks: seq<Chunk>): Option<seq<Name>> {
    if chunks == [] || chunks[0] == Data([]) then Some([])
    else if chunks[0].Error? then None
    else
      var first, rest := Walk(chunks[0].at, 0), Names(chunks[1..]);
      if first.None? || rest.None? then None else Some(first.value + rest.value)
  }

  /** How many buffers come before the first empty one. */
  function Buffers(chunks: seq<Chunk>): nat {
    if chunks == [] || chunks[0] == Data([]) then 0 else 1 + Buffers(chunks[1..])
  }

  /** Before the first empty buffer there are as many calls as Buffers says. */
  lemma {:induction false} BuffersBeforeEmpty(chunks: seq<Chunk>, k: nat)
    requires k <= |chunks| && forall i :: 0 <= i < k ==> chunks[i] != Data([])
    requires k < |chunks| ==> chunks[k] == Data([])
    ensures Buffers(chunks) == k
  {
    if k > 0 {
      BuffersBeforeEmpty(chunks[1..], k - 1);
    }
  }

  function SlotsIn(config: Config, directory: nat, names: seq<Name>): seq<nat> {
    if names == [] then []
    else
      var slot := SlotOf(config, directory, names[0]);
      (if slot.Some? then [slot.value] else []) + SlotsIn(config, directory, names[1..])
  }

  ghost predicate AllBelong(config: Config, directory: nat, names: seq<Name>) {
    forall i :: 0 <= i < |names| ==> names[i].Dot? || names[i].DotDot? || SlotOf(config, directory, names[i]).Some?
  }

  /** One dot, one dot-dot, and only files that belong. */
  ghost predicate GoodDirectory(config: Config, directory: nat, names: seq<Name>) {
    && AllBelong(config, directory, names)
    && multiset(names)[Dot] == 1 && multiset(names)[DotDot] == 1
  }

  /** The slots listed by the first n directories. */
  function AllSlots(config: Config, dirs: seq<seq<Chunk>>, n: nat): seq<nat>
    requires n <= |dirs| == DirectoryCount(config)
  {
    if n == 0 then []
    else AllSlots(config, dirs, n - 1) + SlotsIn(config, n - 1, Names(dirs[n - 1]).GetOr([]))
  }

  function AllEntries(dirs: seq<seq<Chunk>>, n: nat): nat
    requires n <= |dirs|
  {
    if n == 0 then 0 else AllEntries(dirs, n - 1) + |Names(dirs[n - 1]).GetOr([])|
  }

  function AllBuffers(dirs: seq<seq<Chunk>>, n: nat): nat
    requires n <= |dirs|
  {
    if n == 0 then 0 else AllBuffers(dirs, n - 1) + Buffers(dirs[n - 1])
  }

  ghost predicate GoodSoFar(config: Config, dirs: seq<seq<Chunk>>, n: nat) {
    && n <= |dirs| == DirectoryCount(config)
    && forall d :: 0 <= d < n ==> Names(dirs[d]).Some? && GoodDirectory(config, d, Names(dirs[d]).value)
  }

  /**
    What a validated listing is: each directory lists one dot, one dot-dot and otherwise only files of its own, and
    every file of every worker is listed exactly once, in the directory it belongs to.
   */
  ghost predicate CompleteListing(config: Config, dirs: seq<seq<Chunk>>) {
    && |dirs| == DirectoryCount(config)
    && (forall d :: 0 <= d < |dirs| ==> Names(dirs[d]).Some? && ListsOwn(config, d, Names(dirs[d]).value))
    && (forall worker: nat, file: nat :: worker < config.ncore && file < FILES_PER_WORKER ==>
          multiset(Names(dirs[HomeOf(config, worker)]).value)[File(worker, file)] == 1)
  }

  ghost predicate ListsOwn(config: Config, directory: nat, names: seq<Name>) {
    && (forall i :: 0 <= i < |names| ==> names[i].Dot? || names[i].DotDot? || Belongs(config, directory, names[i]))
    && multiset(names)[Dot] == 1 && multiset(names)[DotDot] == 1
  }

  /** The same in terms of slots: every directory is good, and together they fill every slot exactly once. */
  ghost predicate EverySlotOnce(config: Config, dirs: seq<seq<Chunk>>) {
    && |dirs| == DirectoryCount(config)
    && GoodSoFar(config, dirs, |dirs|)
    && forall slot :: 0 <= slot < FileCount(config) ==> multiset(AllSlots(config, dirs, |dirs|))[slot] == 1
  }

  // ---------- Slots stand for files ----------

  /** Different files have different slots, whatever directories list them. */
  lemma SlotsTellFilesApart(config: Config, d: nat, e: nat, a: Name, b: Name)
    requires d < DirectoryCount(config) && e < DirectoryCount(config)
    requires SlotOf(config, d, a).Some? && SlotOf(config, d, a) == SlotOf(config, e, b)
    ensures a == b && d == e
  {
  }

  /** A directory fills the slot of a file as often as it lists that file; another directory never does. */
  lemma {:induction false} SlotsCountFiles(config: Config, d: nat, names: seq<Name>, worker: nat, file: nat)
    requires d < DirectoryCount(config) && AllBelong(config, d, names)
    requires worker < config.ncore && file < FILES_PER_WORKER
    ensures multiset(SlotsIn(config, d, names))[worker * FILES_PER_WORKER + file]
         == multiset(names)[File(worker, file)]
    ensures d != HomeOf(config, worker) ==> multiset(names)[File(worker, file)] == 0
  {
    hide SlotOf, AllBelong;
    if names != [] {
      var slot := SlotOf(config, d, names[0]);
      BelongsFirst(config, d, names);
      SlotsCountFiles(config, d, names[1..], worker, file);
      assert names == [names[0]] + names[1..];
      assert SlotsIn(config, d, names) == (if slot.Some? then [slot.value] else []) + SlotsIn(config, d, names[1..]);
      SlotOfFile(config, d, names[0], worker, file);
    }
  }

  lemma SlotOfFile(config: Config, d: nat, name: Name, worker: nat, file: nat)
    requires d < DirectoryCount(config) && worker < config.ncore && file < FILES_PER_WORKER
    requires name.Dot? || name.DotDot? || SlotOf(config, d, name).Some?
    ensures SlotOf(config, d, name) == Some(worker * FILES_PER_WORKER + file) <==> name == File(worker, file)
    ensures name == File(worker, file) ==> d == HomeOf(config, worker)
  {
  }

  lemma {:induction false} AllSlotsCountFiles(config: Config, dirs: seq<seq<Chunk>>, n: nat, worker: nat, file: nat)
    requires n <= |dirs| == DirectoryCount(config) && GoodSoFar(config, dirs, n)
    requires worker < config.ncore && file < FILES_PER_WORKER
    ensures multiset(AllSlots(config, dirs, n))[worker * FILES_PER_WORKER + file] ==
              if HomeOf(config, worker) < n then
                multiset(Names(dirs[HomeOf(config, worker)]).value)[File(worker, file)]
              else 0
  {
    hide SlotsIn, Names, AllBelong, HomeOf;
    if n > 0 {
      AllSlotsCountFiles(config, dirs, n - 1, worker, file);
      var names := Names(dirs[n - 1]).value;
      assert GoodDirectory(config, n - 1, names);
      SlotsCountFiles(config, n - 1, names, worker, file);
    }
  }

  lemma GoodIsOwn(config: Config, d: nat, names: seq<Name>)
    ensures GoodDirectory(config, d, names) <==> ListsOwn(config, d, names)
  {
    hide SlotOf, Belongs;
    forall i | 0 <= i < |names|
      ensures SlotOf(config, d, names[i]).Some? <==> Belongs(config, d, names[i])
    {
    }
  }

  /** Marking slots decides the listing of files. */
  lemma {:induction false} SlotsDecideFiles(config: Config, dirs: seq<seq<Chunk>>)
    requires |dirs| == DirectoryCount(config)
    ensures EverySlotOnce(config, dirs) <==> CompleteListing(config, dirs)
  {
    hide GoodDirectory, ListsOwn, AllSlots, Names;
    forall d | 0 <= d < |dirs| && Names(dirs[d]).Some?
      ensures GoodDirectory(config, d, Names(dirs[d]).value) <==> ListsOwn(config, d, Names(dirs[d]).value)
    {
      GoodIsOwn(config, d, Names(dirs[d]).value);
    }
    if GoodSoFar(config, dirs, |dirs|) {
      forall worker: nat, file: nat | worker < config.ncore && file < FILES_PER_WORKER
        ensures multiset(AllSlots(config, dirs, |dirs|))[worker * FILES_PER_WORKER + file]
             == multiset(Names(dirs[HomeOf(config, worker)]).value)[File(worker, file)]
        ensures 0 <= worker * FILES_PER_WORKER + file < FileCount(config)
      {
        AllSlotsCountFiles(config, dirs, |dirs|, worker, file);
      }
      forall slot | 0 <= slot < FileCount(config)
        ensures slot / FILES_PER_WORKER < config.ncore
        ensures multiset(AllSlots(config, dirs, |dirs|))[slot] ==
                  multiset(Names(dirs[HomeOf(config, slot / FILES_PER_WORKER)]).value)
                    [File(slot / FILES_PER_WORKER, slot % FILES_PER_WORKER)]
      {
        AllSlotsCountFiles(config, dirs, |dirs|, slot / FILES_PER_WORKER, slot % FILES_PER_WORKER);
      }
    }
  }

  // ---------- Taking names one at a time ----------

  datatype Scan = Scan(dot: bool, dotdot: bool, seen: set<nat>)

  /** What the validator does with one name; None when it returns an error. */
  function Take(config: Config, directory: nat, s: Scan, name: Name): Option<Scan> {
    match name
    case Dot => if s.dot then None else Some(s.(dot := true))
    case DotDot => if s.dotdot then None else Some(s.(dotdot := true))
    case _ =>
      var slot := SlotOf(config, directory, name);
      if slot.None? || slot.value in s.seen then None else Some(s.(seen := s.seen + {slot.value}))
  }

  function TakeAll(config: Config, directory: nat, s: Scan, names: seq<Name>): Option<Scan>
    decreases |names|
  {
    if names == [] then Some(s)
    else
      var next := Take(config, directory, s, names[0]);
      if next.None? then None else TakeAll(config, directory, next.value, names[1..])
  }

  ghost predicate NewAndDistinct(slots: seq<nat>, seen: set<nat>) {
    && (forall i :: 0 <= i < |slots| ==> slots[i] !in seen)
    && (forall i, j :: 0 <= i < j < |slots| ==> slots[i] != slots[j])
  }

  lemma {:induction false} TakeAllAppend(config: Config, directory: nat, s: Scan, a: seq<Name>, b: seq<Name>)
    ensures TakeAll(config, directory, s, a + b) ==
              match TakeAll(config, directory, s, a)
              case None => None
              case Some(t) => TakeAll(config, directory, t, b)
    decreases |a|
  {
    hide Take;
    if a == [] {
      assert a + b == b;
    } else {
      assert (a + b)[0] == a[0] && (a + b)[1..] == a[1..] + b;
      var next := Take(config, directory, s, a[0]);
      if next.Some? {
        TakeAllAppend(config, directory, next.value, a[1..], b);
      }
    }
  }

  function One(b: bool): nat {
    if b then 1 else 0
  }

  /** Taking names succeeds exactly when none is repeated or foreign, and adds their slots. */
  lemma {:induction false} TakeAllMeans(config: Config, directory: nat, s: Scan, names: seq<Name>)
    ensures TakeAll(config, directory, s, names).Some? <==>
              && AllBelong(config, directory, names)
              && One(s.dot) + multiset(names)[Dot] <= 1 && One(s.dotdot) + multiset(names)[DotDot] <= 1
              && NewAndDistinct(SlotsIn(config, directory, names), s.seen)
    ensures TakeAll(config, directory, s, names).Some? ==>
              var t := TakeAll(config, directory, s, names).value;
              && One(t.dot) == One(s.dot) + multiset(names)[Dot]
              && One(t.dotdot) == One(s.dotdot) + multiset(names)[DotDot]
              && t.seen == s.seen + ToSet(SlotsIn(config, directory, names))
    decreases |names|
  {
    hide SlotOf, NewAndDistinct, AllBelong;
    if names == [] {
      NoNames(config, directory, s.seen);
    } else {
      BelongsFirst(config, directory, names);
      NewFirst(config, directory, names, s.seen);
      MultiplicityFirst(names, Dot);
      MultiplicityFirst(names, DotDot);
      var next := Take(config, directory, s, names[0]);
      if next.Some? {
        TakeAllMeans(config, directory, next.value, names[1..]);
        ToSetCons(SlotsIn(config, directory, names), SlotsIn(config, directory, names[1..]));
      }
    }
  }

  lemma NoNames(config: Config, directory: nat, seen: set<nat>)
    ensures AllBelong(config, directory, []) && NewAndDistinct([], seen)
    ensures ToSet<nat>([]) == {}
  {
  }

  lemma ToSetCons(all: seq<nat>, rest: seq<nat>)
    ensures forall x :: all == [x] + rest ==> ToSet(all) == {x} + ToSet(rest)
  {
  }

  lemma BelongsFirst(config: Config, directory: nat, names: seq<Name>)
    requires names != []
    ensures AllBelong(config, directory, names) <==>
              && AllBelong(config, directory, names[1..])
              && (names[0].Dot? || names[0].DotDot? || SlotOf(config, directory, names[0]).Some?)
  {
    if AllBelong(config, directory, names[1..]) {
      forall i | 1 <= i < |names|
        ensures names[i].Dot? || names[i].DotDot? || SlotOf(config, directory, names[i]).Some?
      {
        assert names[i] == names[1..][i - 1];
      }
    }
  }

  lemma NewFirst(config: Config, directory: nat, names: seq<Name>, seen: set<nat>)
    requires names != []
    ensures var slot := SlotOf(config, directory, names[0]);
            var rest := SlotsIn(config, directory, names[1..]);
            if slot.None? then
              SlotsIn(config, directory, names) == rest
            else
              && SlotsIn(config, directory, names) == [slot.value] + rest
              && (NewAndDistinct(SlotsIn(config, directory, names), seen) <==>
                    slot.value !in seen && NewAndDistinct(rest, seen + {slot.value}))
  {
    var slot := SlotOf(config, directory, names[0]);
    if slot.Some? {
      ConsNew(slot.value, SlotsIn(config, directory, names[1..]), seen);
    }
  }

  lemma ConsNew(x: nat, rest: seq<nat>, seen: set<nat>)
    ensures NewAndDistinct([x] + rest, seen) <==> x !in seen && NewAndDistinct(rest, seen + {x})
  {
    var all := [x] + rest;
    if NewAndDistinct(all, seen) {
      assert all[0] == x;
      forall i | 0 <= i < |rest| ensures rest[i] !in seen + {x} {
        assert all[i + 1] == rest[i];
      }
      forall i, j | 0 <= i < j < |rest| ensures rest[i] != rest[j] {
        assert all[i + 1] == rest[i] && all[j + 1] == rest[j];
      }
    }
  }

  // ---------- The validator ----------

  /** The slots marked in the table. */
  ghost function Marked(seen: seq<bool>): set<nat> {
    set k: nat | k < |seen| && seen[k]
  }

  class ReaddirResult {
    var entries: nat
    var nonemptyCalls: nat
    var namesComplete: bool

    constructor ()
      ensures entries == nonemptyCalls == 0 && !namesComplete
    {
      entries, nonemptyCalls, namesComplete := 0, 0, false;
    }
  }

  method TakeName(config: Config, directory: nat, name: Name, seen: array<bool>, dot: bool, dotdot: bool)
    returns (ok: bool, nextDot: bool, nextDotdot: bool)
    requires directory < DirectoryCount(config) && seen.Length == FileCount(config)
    modifies seen
    ensures var s := Scan(dot, dotdot, Marked(old(seen[..])));
            && (ok <==> Take(config, directory, s, name).Some?)
            && (ok ==> Take(config, directory, s, name) == Some(Scan(nextDot, nextDotdot, Marked(seen[..]))))
  {
    nextDot, nextDotdot := dot, dotdot;
    if name.Dot? {
      ok, nextDot := !dot, true;
    } else if name.DotDot? {
      ok, nextDotdot := !dotdot, true;
    } else {
      var slot := SlotOf(config, directory, name);
      ok := slot.Some? && !seen[slot.value];
      if ok {
        ghost var before := seen[..];
        seen[slot.value] := true;
        assert seen[..] == before[slot.value := true];
        assert Marked(seen[..]) == Marked(before) + {slot.value};
      }
    }
  }

  /** rest completes what was walked. */
  function Joined(walked: seq<Name>, rest: Option<seq<Name>>): Option<seq<Name>> {
    if rest.None? then None else Some(walked + rest.value)
  }

  ghost predicate TakenAll(config: Config, directory: nat, s: Scan, names: Option<seq<Name>>) {
    names.Some? && TakeAll(config, directory, s, names.value).Some?
  }

  /** One more name, after those already taken. */
  lemma TakeNext(config: Config, directory: nat, s: Scan, taken: seq<Name>, name: Name, rest: Option<seq<Name>>)
    requires TakeAll(config, directory, s, taken).Some?
    ensures TakeAll(config, directory, s, taken + [name])
         == Take(config, directory, TakeAll(config, directory, s, taken).value, name)
    ensures TakeAll(config, directory, s, taken + [name]).None? ==>
              !TakenAll(config, directory, s, Joined(taken + [name], rest))
  {
    hide Take;
    TakeAllAppend(config, directory, s, taken, [name]);
    assert [name][1..] == [];
    if rest.Some? {
      TakeAllAppend(config, directory, s, taken + [name], rest.value);
    }
  }

  lemma WalkNext(at: seq<Dirent>, position: nat, walked: seq<Name>)
    requires position < |at| && RecordFits(at, position)
    ensures Joined(walked, Walk(at, position))
         == Joined(walked + [at[position].name], Walk(at, position + at[position].reclen))
  {
    var rest := Walk(at, position + at[position].reclen);
    if rest.Some? {
      assert walked + ([at[position].name] + rest.value) == walked + [at[position].name] + rest.value;
    }
  }

  /** The record walk of one buffer. */
  method ScanBuffer(config: Config, directory: nat, at: seq<Dirent>, seen: array<bool>, result: ReaddirResult,
                    dot: bool, dotdot: bool)
    returns (ok: bool, nextDot: bool, nextDotdot: bool)
    requires directory < DirectoryCount(config) && seen.Length == FileCount(config)
    modifies seen, result`entries
    ensures var s, names := Scan(dot, dotdot, Marked(old(seen[..]))), Walk(at, 0);
            && (ok <==> TakenAll(config, directory, s, names))
            && (ok ==> TakeAll(config, directory, s, names.value) == Some(Scan(nextDot, nextDotdot, Marked(seen[..]))))
    ensures ok ==> result.entries == old(result.entries) + |Walk(at, 0).value|
  {
    hide Take, Marked, TakeAll;
    ghost var s := Scan(dot, dotdot, Marked(seen[..]));
    ghost var taken: seq<Name> := [];
    var position := 0;
    nextDot, nextDotdot := dot, dotdot;
    TakeNothing(config, directory, s);
    assert Joined([], Walk(at, 0)) == Walk(at, 0) by {
      if Walk(at, 0).Some? {
        assert [] + Walk(at, 0).value == Walk(at, 0).value;
      }
    }
    while position < |at|
      invariant 0 <= position <= |at|
      invariant Walk(at, 0) == Joined(taken, Walk(at, position))
      invariant TakeAll(config, directory, s, taken) == Some(Scan(nextDot, nextDotdot, Marked(seen[..])))
      invariant result.entries == old(result.entries) + |taken|
      decreases |at| - position
    {
      if |at| - position < HEADER || at[position].reclen < HEADER + 1 || at[position].reclen > |at| - position {
        return false, nextDot, nextDotdot;
      }
      if !at[position].terminated {
        return false, nextDot, nextDotdot;
      }
      result.entries := result.entries + 1;
      WalkNext(at, position, taken);
      RecordAdvances(at, position);
      ghost var next := position + at[position].reclen;
      TakeNext(config, directory, s, taken, at[position].name, Walk(at, next));
      ok, nextDot, nextDotdot := TakeName(config, directory, at[position].name, seen, nextDot, nextDotdot);
      if !ok {
        return;
      }
      taken := taken + [at[position].name];
      position := position + at[position].reclen;
    }
    assert taken + [] == taken;
    ok := true;
  }

  /** The walk moves forward and stays inside the buffer. */
  lemma RecordAdvances(at: seq<Dirent>, position: nat)
    requires position < |at| && RecordFits(at, position)
    ensures position < position + at[position].reclen <= |at|
  {
  }

  lemma TakeNothing(config: Config, directory: nat, s: Scan)
    ensures TakeAll(config, directory, s, []) == Some(s)
  {
  }

  lemma NamesNext(chunks: seq<Chunk>, i: nat, taken: seq<Name>)
    requires i < |chunks| && chunks[i].Data? && chunks[i].at != []
    ensures Joined(taken, Names(chunks[i..])) ==
              if Walk(chunks[i].at, 0).None? then None
              else Joined(taken + Walk(chunks[i].at, 0).value, Names(chunks[i + 1..]))
    ensures Buffers(chunks[i..]) == 1 + Buffers(chunks[i + 1..])
  {
    assert chunks[i..][1..] == chunks[i + 1..];
    var first, rest := Walk(chunks[i].at, 0), Names(chunks[i + 1..]);
    if first.Some? && rest.Some? {
      assert taken + (first.value + rest.value) == taken + first.value + rest.value;
    }
  }

  /** One more buffer, after the names already taken. */
  lemma TakeBuffer(config: Config, directory: nat, s: Scan, taken: seq<Name>, more: Option<seq<Name>>,
                   rest: Option<seq<Name>>)
    requires TakeAll(config, directory, s, taken).Some?
    ensures var t := TakeAll(config, directory, s, taken).value;
            if TakenAll(config, directory, t, more) then
              TakeAll(config, directory, s, taken + more.value) == TakeAll(config, directory, t, more.value)
            else more.Some? ==> !TakenAll(config, directory, s, Joined(taken + more.value, rest))
  {
    if more.Some? {
      TakeAllAppend(config, directory, s, taken, more.value);
      if rest.Some? {
        TakeAllAppend(config, directory, s, taken + more.value, rest.value);
      }
    }
  }

  method ScanDirectory(config: Config, directory: nat, chunks: seq<Chunk>, seen: array<bool>, result: ReaddirResult)
    returns (ok: bool)
    requires directory < DirectoryCount(config) && seen.Length == FileCount(config)
    modifies seen, result`entries, result`nonemptyCalls
    ensures ok <==> Names(chunks).Some? && GoodDirectory(config, directory, Names(chunks).value)
                    && NewAndDistinct(SlotsIn(config, directory, Names(chunks).value), Marked(old(seen[..])))
    ensures ok ==>
              Marked(seen[..]) == Marked(old(seen[..])) + ToSet(SlotsIn(config, directory, Names(chunks).value))
    ensures ok ==> result.entries == old(result.entries) + |Names(chunks).value|
    ensures ok ==> result.nonemptyCalls == old(result.nonemptyCalls) + Buffers(chunks)
  {
    hide Take, Marked, TakeAll, Walk, NewAndDistinct, AllBelong, ToSet;
    ghost var s := Scan(false, false, Marked(seen[..]));
    ghost var taken: seq<Name> := [];
    var dot, dotdot := false, false;
    var i := 0;
    TakeNothing(config, directory, s);
    assert chunks[0..] == chunks;
    assert Joined([], Names(chunks)) == Names(chunks) by {
      if Names(chunks).Some? {
        assert [] + Names(chunks).value == Names(chunks).value;
      }
    }
    while i < |chunks| && chunks[i] != Data([])
      invariant 0 <= i <= |chunks|
      invariant Names(chunks) == Joined(taken, Names(chunks[i..]))
      invariant result.nonemptyCalls + Buffers(chunks[i..]) == old(result.nonemptyCalls) + Buffers(chunks)
      invariant TakeAll(config, directory, s, taken) == Some(Scan(dot, dotdot, Marked(seen[..])))
      invariant result.entries == old(result.entries) + |taken|
    {
      if chunks[i].Error? {
        return false;
      }
      result.nonemptyCalls := result.nonemptyCalls + 1;
      NamesNext(chunks, i, taken);
      TakeBuffer(config, directory, s, taken, Walk(chunks[i].at, 0), Names(chunks[i + 1..]));
      var good;
      good, dot, dotdot := ScanBuffer(config, directory, chunks[i].at, seen, result, dot, dotdot);
      if !good {
        NotTaken(config, directory, s, chunks);
        return false;
      }
      taken := taken + Walk(chunks[i].at, 0).value;
      i := i + 1;
    }
    assert taken + [] == taken;
    NotTaken(config, directory, s, chunks);
    ok := dot && dotdot;
  }

  /** A directory is good and new exactly when its names can be taken and both dots were among them. */
  lemma NotTaken(config: Config, directory: nat, s: Scan, chunks: seq<Chunk>)
    requires !s.dot && !s.dotdot
    ensures var names := Names(chunks);
            (names.Some? && GoodDirectory(config, directory, names.value)
             && NewAndDistinct(SlotsIn(config, directory, names.value), s.seen))
            <==>
            (TakenAll(config, directory, s, names)
             && TakeAll(config, directory, s, names.value).value.dot
             && TakeAll(config, directory, s, names.value).value.dotdot)
    ensures TakenAll(config, directory, s, Names(chunks)) ==>
              TakeAll(config, directory, s, Names(chunks).value).value.seen
              == s.seen + ToSet(SlotsIn(config, directory, Names(chunks).value))
  {
    hide AllBelong, NewAndDistinct, TakeAll;
    if Names(chunks).Some? {
      var names := Names(chunks).value;
      TakeAllMeans(config, directory, s, names);
    }
  }

  // ---------- All directories ----------

  lemma NewAppend(a: seq<nat>, b: seq<nat>)
    ensures NewAndDistinct(a + b, {}) <==> NewAndDistinct(a, {}) && NewAndDistinct(b, ToSet(a))
    ensures ToSet(a + b) == ToSet(a) + ToSet(b)
  {
    var all := a + b;
    if NewAndDistinct(all, {}) {
      forall i, j | 0 <= i < j < |a| ensures a[i] != a[j] {
        assert all[i] == a[i] && all[j] == a[j];
      }
      forall i | 0 <= i < |b| ensures b[i] !in ToSet(a) {
        assert all[|a| + i] == b[i];
        assert forall k :: 0 <= k < |a| ==> all[k] == a[k];
      }
      forall i, j | 0 <= i < j < |b| ensures b[i] != b[j] {
        assert all[|a| + i] == b[i] && all[|a| + j] == b[j];
      }
    }
    if NewAndDistinct(a, {}) && NewAndDistinct(b, ToSet(a)) {
      forall i, j | 0 <= i < j < |all| ensures all[i] != all[j] {
        if i < |a| <= j {
          assert a[i] in ToSet(a);
        }
      }
    }
  }

  /** In a duplicate-free sequence everything occurs once; a repeated element occurs at least twice. */
  lemma {:induction false} DistinctMultiplicity(s: seq<nat>)
    ensures NewAndDistinct(s, {}) <==> forall x :: x in s ==> multiset(s)[x] == 1
  {
    if s != [] {
      var m := |s| - 1;
      DistinctMultiplicity(s[..m]);
      assert s == s[..m] + [s[m]];
      NewAppend(s[..m], [s[m]]);
      if NewAndDistinct(s, {}) {
        assert s[m] !in s[..m];
      } else if s[m] in s[..m] {
        assert multiset(s)[s[m]] >= 2;
      } else {
        OneIsNew(s[m], ToSet(s[..m]));
        var x :| x in s[..m] && multiset(s[..m])[x] != 1;
        assert x in s && multiset(s)[x] != 1;
      }
    }
  }

  lemma OneIsNew(x: nat, seen: set<nat>)
    requires x !in seen
    ensures NewAndDistinct([x], seen)
  {
  }

  lemma {:induction false} SlotsInRange(config: Config, directory: nat, names: seq<Name>)
    requires directory < DirectoryCount(config)
    ensures forall x :: x in SlotsIn(config, directory, names) ==> x < FileCount(config)
  {
    hide SlotOf;
    if names != [] {
      SlotsInRange(config, directory, names[1..]);
    }
  }

  lemma {:induction false} AllSlotsInRange(config: Config, dirs: seq<seq<Chunk>>, n: nat)
    requires n <= |dirs| == DirectoryCount(config)
    ensures forall x :: x in AllSlots(config, dirs, n) ==> x < FileCount(config)
  {
    hide SlotsIn, Names;
    if n > 0 {
      AllSlotsInRange(config, dirs, n - 1);
      SlotsInRange(config, n - 1, Names(dirs[n - 1]).GetOr([]));
    }
  }

  lemma {:induction false} SlotsPrefix(config: Config, dirs: seq<seq<Chunk>>, n: nat, m: nat)
    requires n <= m <= |dirs| == DirectoryCount(config)
    ensures AllSlots(config, dirs, n) <= AllSlots(config, dirs, m)
    decreases m
  {
    hide SlotsIn, Names;
    if n < m {
      SlotsPrefix(config, dirs, n, m - 1);
    }
  }

  /** A repeated or foreign name in some directory rules out filling every slot once. */
  lemma BadDirectoryIsIncomplete(config: Config, dirs: seq<seq<Chunk>>, n: nat)
    requires n < |dirs| == DirectoryCount(config)
    requires !(Names(dirs[n]).Some? && GoodDirectory(config, n, Names(dirs[n]).value)
               && NewAndDistinct(AllSlots(config, dirs, n + 1), {}))
    ensures !EverySlotOnce(config, dirs)
  {
    hide SlotsIn, Names, GoodDirectory, NewAndDistinct;
    if GoodSoFar(config, dirs, |dirs|) {
      var part, all := AllSlots(config, dirs, n + 1), AllSlots(config, dirs, |dirs|);
      SlotsPrefix(config, dirs, n + 1, |dirs|);
      assert all == part + all[|part|..];
      NewAppend(part, all[|part|..]);
      DistinctMultiplicity(all);
      AllSlotsInRange(config, dirs, |dirs|);
    }
  }

  /** Without repeats, every slot is filled once exactly when every slot was seen. */
  lemma SeenIsComplete(config: Config, dirs: seq<seq<Chunk>>)
    requires |dirs| == DirectoryCount(config) && GoodSoFar(config, dirs, |dirs|)
    requires NewAndDistinct(AllSlots(config, dirs, |dirs|), {})
    ensures EverySlotOnce(config, dirs) <==>
              forall slot: nat :: slot < FileCount(config) ==> slot in ToSet(AllSlots(config, dirs, |dirs|))
  {
    hide AllSlots, GoodSoFar, NewAndDistinct;
    var all: seq<int> := AllSlots(config, dirs, |dirs|);
    DistinctMultiplicity(AllSlots(config, dirs, |dirs|));
    if EverySlotOnce(config, dirs) {
      forall slot: nat | slot < FileCount(config) ensures slot in ToSet(AllSlots(config, dirs, |dirs|)) {
        assert multiset(all)[slot as int] == 1;
      }
    }
    if forall slot: nat :: slot < FileCount(config) ==> slot in ToSet(AllSlots(config, dirs, |dirs|)) {
      forall slot | 0 <= slot < FileCount(config) ensures multiset(all)[slot] == 1 {
        assert (slot as nat) in ToSet(AllSlots(config, dirs, |dirs|));
      }
    }
  }

  lemma NextDirectory(config: Config, dirs: seq<seq<Chunk>>, n: nat)
    requires n < |dirs| == DirectoryCount(config) && NewAndDistinct(AllSlots(config, dirs, n), {})
    ensures NewAndDistinct(AllSlots(config, dirs, n + 1), {}) <==>
              NewAndDistinct(SlotsIn(config, n, Names(dirs[n]).GetOr([])), ToSet(AllSlots(config, dirs, n)))
    ensures ToSet(AllSlots(config, dirs, n + 1))
         == ToSet(AllSlots(config, dirs, n)) + ToSet(SlotsIn(config, n, Names(dirs[n]).GetOr([])))
  {
    hide SlotsIn, Names, NewAndDistinct, ToSet;
    NewAppend(AllSlots(config, dirs, n), SlotsIn(config, n, Names(dirs[n]).GetOr([])));
  }

  /**
    Succeeds exactly on a complete listing, and then has counted the entries of all directories.
   */
  method EnumerateValidationDirectories(config: Config, dirs: seq<seq<Chunk>>, result: ReaddirResult)
    returns (ok: bool)
    requires |dirs| == DirectoryCount(config)
    modifies result
    ensures ok <==> CompleteListing(config, dirs)
    ensures result.namesComplete == ok
    ensures ok ==> result.entries == old(result.entries)
                                     + if config.cellType == Mrdl then config.ncore * 8194 else config.ncore * 8192 + 2
    ensures ok ==> result.nonemptyCalls == old(result.nonemptyCalls) + AllBuffers(dirs, |dirs|)
  {
    hide SlotsIn, Names, GoodDirectory, NewAndDistinct, AllSlots, EverySlotOnce, CompleteListing, AllEntries;
    hide AllBuffers, Buffers;
    SlotsDecideFiles(config, dirs);
    var seen := new bool[FileCount(config)](_ => false);
    assert Marked(seen[..]) == {};
    NoDirectories(config, dirs);
    ok := true;
    var directory := 0;
    while directory < |dirs| && ok
      invariant 0 <= directory <= |dirs|
      invariant ok ==>
                  && GoodSoFar(config, dirs, directory)
                  && NewAndDistinct(AllSlots(config, dirs, directory), {})
                  && Marked(seen[..]) == ToSet(AllSlots(config, dirs, directory))
                  && result.entries == old(result.entries) + AllEntries(dirs, directory)
                  && result.nonemptyCalls == old(result.nonemptyCalls) + AllBuffers(dirs, directory)
      invariant !ok ==> !EverySlotOnce(config, dirs)
      decreases |dirs| - directory, ok
    {
      NextDirectory(config, dirs, directory);
      EntriesNext(dirs, directory);
      ok := ScanDirectory(config, directory, dirs[directory], seen, result);
      if ok {
        directory := directory + 1;
      } else {
        BadDirectoryIsIncomplete(config, dirs, directory);
      }
    }
    if ok {
      SeenIsComplete(config, dirs);
      CompleteIsCounted(config, dirs);
      ok := EverySlotSeen(seen, ToSet(AllSlots(config, dirs, |dirs|)));
    }
    result.namesComplete := ok;
  }

  /** The last loop: no slot was left unmarked. */
  method EverySlotSeen(seen: array<bool>, ghost marked: set<nat>) returns (ok: bool)
    requires marked == Marked(seen[..])
    ensures ok <==> forall slot: nat :: slot < seen.Length ==> slot in marked
  {
    for slot := 0 to seen.Length
      invariant forall k: nat :: k < slot ==> k in marked
    {
      if !seen[slot] {
        assert (slot as nat) !in marked;
        return false;
      }
    }
    ok := true;
  }

  lemma CompleteIsCounted(config: Config, dirs: seq<seq<Chunk>>)
    requires |dirs| == DirectoryCount(config)
    ensures CompleteListing(config, dirs) ==>
              AllEntries(dirs, |dirs|)
                == if config.cellType == Mrdl then config.ncore * 8194 else config.ncore * 8192 + 2
  {
    hide CompleteListing, AllEntries;
    if CompleteListing(config, dirs) {
      CompleteCount(config, dirs);
    }
  }

  lemma NoDirectories(config: Config, dirs: seq<seq<Chunk>>)
    requires |dirs| == DirectoryCount(config)
    ensures AllSlots(config, dirs, 0) == [] && NewAndDistinct([], {}) && ToSet<nat>([]) == {}
    ensures AllEntries(dirs, 0) == 0 && AllBuffers(dirs, 0) == 0
  {
  }

  lemma EntriesNext(dirs: seq<seq<Chunk>>, n: nat)
    requires n < |dirs|
    ensures AllEntries(dirs, n + 1) == AllEntries(dirs, n) + |Names(dirs[n]).GetOr([])|
    ensures AllBuffers(dirs, n + 1) == AllBuffers(dirs, n) + Buffers(dirs[n])
  {
  }

  // ---------- The entry count ----------

  lemma {:induction false} NamesAddUp(config: Config, directory: nat, names: seq<Name>)
    requires AllBelong(config, directory, names)
    ensures |names| == multiset(names)[Dot] + multiset(names)[DotDot] + |SlotsIn(config, directory, names)|
  {
    hide SlotOf;
    if names != [] {
      BelongsFirst(config, directory, names);
      MultiplicityFirst(names, Dot);
      MultiplicityFirst(names, DotDot);
      NamesAddUp(config, directory, names[1..]);
    }
  }

  lemma {:induction false} EntriesAddUp(config: Config, dirs: seq<seq<Chunk>>, n: nat)
    requires n <= |dirs| == DirectoryCount(config) && GoodSoFar(config, dirs, n)
    ensures AllEntries(dirs, n) == 2 * n + |AllSlots(config, dirs, n)|
  {
    hide SlotsIn, Names, AllBelong;
    if n > 0 {
      EntriesAddUp(config, dirs, n - 1);
      var names := Names(dirs[n - 1]).value;
      assert GoodDirectory(config, n - 1, names);
      NamesAddUp(config, n - 1, names);
    }
  }

  /** A complete listing has exactly as many entries as the caller's formula expects. */
  lemma CompleteCount(config: Config, dirs: seq<seq<Chunk>>)
    requires |dirs| == DirectoryCount(config) && CompleteListing(config, dirs)
    ensures AllEntries(dirs, |dirs|) == ExpectedEntries(config)
  {
    SlotsDecideFiles(config, dirs);
    hide AllSlots, GoodSoFar, NewAndDistinct;
    var slots := AllSlots(config, dirs, |dirs|);
    EntriesAddUp(config, dirs, |dirs|);
    AllSlotsInRange(config, dirs, |dirs|);
    DistinctMultiplicity(slots);
    SizeOfSet(slots);
    SizeOfRange(0, FileCount(config));
    var all: seq<int> := slots;
    forall x: int ensures x in ToSet(slots) <==> x in Range(0, FileCount(config)) {
      if x in Range(0, FileCount(config)) {
        assert multiset(all)[x] == 1;
      }
    }
    assert ToSet(slots) == Range(0, FileCount(config));
  }
}
