/** The blocklist of revoked devices (src-tauri/src/network/blocklist.rs): a set in memory
behind a read-write lock, and a file that is overwritten as a whole. */
module Blocklist {
  // The object's methods are given as they run alone; the second half of the module interleaves
  // any number of them at their await points.

  import opened Wrappers

  function Elements(ids: seq<string>): set<string> {
    set id | id in ids
  }

  class DeviceBlocklist {
    var blocked: set<string>
    var file: Option<seq<string>>

    /** What a fresh start would load. */
    ghost function OnDisk(): set<string> reads this {
      if file.Some? then Elements(file.value) else {}
    }

    constructor WithPersistence(file: Option<seq<string>>)
      ensures blocked == {} && this.file == file
    {
      blocked := {};
      this.file := file;
    }

    method Load()
      modifies this`blocked
      ensures blocked == if file.Some? then OnDisk() else old(blocked)
    {
      if file.None? {
        return;
      }
      blocked := {};
      var ids := file.value;
      var i := 0;
      while i < |ids|
        invariant i <= |ids|
        invariant blocked == Elements(ids[..i])
      {
        blocked := blocked + {ids[i]};
        i := i + 1;
      }
      assert ids[..i] == ids;
    }

    method Save()
      modifies this`file
      ensures file.Some? && OnDisk() == blocked
    {
      var ids: seq<string> := [];
      var todo := blocked;
      while todo != {}
        invariant todo <= blocked && Elements(ids) == blocked - todo
        decreases todo
      {
        var id :| id in todo;
        assert Elements(ids + [id]) == Elements(ids) + {id};
        ids := ids + [id];
        todo := todo - {id};
      }
      file := Some(ids);
    }

    predicate IsBlocked(deviceId: string) reads this {
      deviceId in blocked
    }

    method Block(deviceId: string)
      modifies this
      ensures IsBlocked(deviceId) && blocked == old(blocked) + {deviceId}
      ensures old(OnDisk()) == old(blocked) ==> OnDisk() == blocked
      ensures deviceId in old(blocked) ==> file == old(file)
    {
      if deviceId in blocked {
        assert blocked == old(blocked) + {deviceId};
        return;
      }
      blocked := blocked + {deviceId};
      Save();
    }
  }

  // ---------------------------------------------------------------- interleaving

  /** Where a call stands. A Saving call holds a read guard and the copy it is about to write;
      critical sections without an await are single steps. */
  datatype Call =
    | Blocking(id: string)
    | SavePending
    | Saving(copy: set<string>)
    | Loading
    | LoadRead(contents: set<string>)
    | Returned

  datatype Process = Process(blocked: set<string>, disk: Option<set<string>>, calls: map<nat, Call>)

  datatype Step =
    | Start(call: nat, what: Call)
    | Insert(call: nat)
    | BeginSave(call: nat)
    | Write(call: nat)
    | ReadFile(call: nat)
    | StoreLoaded(call: nat)

  /** The write lock is free when no call holds a read guard. */
  ghost predicate CanWriteLock(p: Process) {
    forall c :: c in p.calls ==> !p.calls[c].Saving?
  }

  ghost predicate Enabled(p: Process, step: Step) {
    match step
    case Start(c, what) => c !in p.calls && (what.Blocking? || what.SavePending? || what.Loading?)
    case Insert(c) => c in p.calls && p.calls[c].Blocking? && CanWriteLock(p)
    case BeginSave(c) => c in p.calls && p.calls[c].SavePending?
    case Write(c) => c in p.calls && p.calls[c].Saving?
    case ReadFile(c) => c in p.calls && p.calls[c].Loading?
    case StoreLoaded(c) => c in p.calls && p.calls[c].LoadRead? && CanWriteLock(p)
  }

  ghost function Next(p: Process, step: Step): Process
    requires Enabled(p, step)
  {
    match step
    case Start(c, what) => p.(calls := p.calls[c := what])
    case Insert(c) =>
      var id := p.calls[c].id;
      if id in p.blocked then p.(calls := p.calls[c := Returned])
      else p.(blocked := p.blocked + {id}, calls := p.calls[c := SavePending])
    case BeginSave(c) => p.(calls := p.calls[c := Saving(p.blocked)])
    case Write(c) => p.(disk := Some(p.calls[c].copy), calls := p.calls[c := Returned])
    case ReadFile(c) => p.(calls := p.calls[c := if p.disk.None? then Returned else LoadRead(p.disk.value)])
    case StoreLoaded(c) => p.(blocked := p.calls[c].contents, calls := p.calls[c := Returned])
  }

  ghost predicate IsRun(p: Process, steps: seq<Step>)
    decreases |steps|
  {
    steps == [] || (Enabled(p, steps[0]) && IsRun(Next(p, steps[0]), steps[1..]))
  }

  ghost function Final(p: Process, steps: seq<Step>): Process
    requires IsRun(p, steps)
    decreases |steps|
  {
    if steps == [] then p else Final(Next(p, steps[0]), steps[1..])
  }

  function OnDisk(p: Process): set<string> {
    GetOr(p.disk, {})
  }

  ghost predicate SaveUnderWay(p: Process) {
    exists c :: c in p.calls && (p.calls[c].SavePending? || p.calls[c].Saving?)
  }

  predicate IsLoad(call: Call) {
    call.Loading? || call.LoadRead?
  }

  /** The copy a save is about to write is the current set, because its read guard has kept
      every insertion out since it was taken; and the file lags only while a save is due. */
  ghost predicate Consistent(p: Process) {
    && (forall c :: c in p.calls && p.calls[c].Saving? ==> p.calls[c].copy == p.blocked)
    && (SaveUnderWay(p) || OnDisk(p) == p.blocked)
    && (forall c :: c in p.calls ==> !IsLoad(p.calls[c]))
  }

  lemma StepKeepsConsistent(p: Process, step: Step)
    requires Consistent(p) && Enabled(p, step)
    requires !(step.Start? && step.what.Loading?)
    ensures Consistent(Next(p, step))
    ensures p.blocked <= Next(p, step).blocked
  {
    var q := Next(p, step);
    if step.Insert? && q.calls[step.call].SavePending? {
      assert SaveUnderWay(q);
    } else if step.BeginSave? {
      assert q.calls[step.call].Saving?;
    } else if SaveUnderWay(p) && !step.Write? {
      var c :| c in p.calls && (p.calls[c].SavePending? || p.calls[c].Saving?);
      assert q.calls[c] == p.calls[c];
    }
  }

  /** Every interleaving of block and save calls that starts with file and memory in agreement
      and no load running: ids are only ever added, every save under way holds exactly the
      current set, and whenever none is due the file is the set. */
  lemma {:induction false} BlocksAreKept(p: Process, steps: seq<Step>)
    requires Consistent(p) && IsRun(p, steps)
    requires forall s :: s in steps ==> !(s.Start? && s.what.Loading?)
    ensures Consistent(Final(p, steps))
    ensures p.blocked <= Final(p, steps).blocked
    ensures !SaveUnderWay(Final(p, steps)) ==> OnDisk(Final(p, steps)) == Final(p, steps).blocked
    decreases |steps|
  {
    if steps != [] {
      StepKeepsConsistent(p, steps[0]);
      BlocksAreKept(Next(p, steps[0]), steps[1..]);
    }
  }

  /** A load that runs alone establishes what BlocksAreKept starts from. */
  lemma LoadAloneIsConsistent(disk: Option<set<string>>, c: nat)
    ensures var p := Process({}, disk, map[]);
            var steps := [Start(c, Loading), ReadFile(c)] + if disk.Some? then [StoreLoaded(c)] else [];
            IsRun(p, steps) && Consistent(Final(p, steps)) && Final(p, steps).blocked == GetOr(disk, {})
  {
    var p0 := Process({}, disk, map[]);
    var p1 := Next(p0, Start(c, Loading));
    var p2 := Next(p1, ReadFile(c));
    var tail: seq<Step> := if disk.Some? then [StoreLoaded(c)] else [];
    if disk.Some? { Unroll(p2, StoreLoaded(c), []); }
    Unroll(p1, ReadFile(c), tail);
    Unroll(p0, Start(c, Loading), [ReadFile(c)] + tail);
    assert [Start(c, Loading), ReadFile(c)] + tail == [Start(c, Loading)] + ([ReadFile(c)] + tail);
  }

  lemma Unroll(p: Process, step: Step, rest: seq<Step>)
    requires Enabled(p, step) && IsRun(Next(p, step), rest)
    ensures IsRun(p, [step] + rest) && Final(p, [step] + rest) == Final(Next(p, step), rest)
    ensures Inserted(p, [step] + rest)
            == (if step.Insert? then {p.calls[step.call].id} else {}) + Inserted(Next(p, step), rest)
  {
    assert ([step] + rest)[1..] == rest;
  }

  // ---------------------------------------------------------------- load in the background

  /** The ids that the block calls of a run put into memory. */
  ghost function Inserted(p: Process, steps: seq<Step>): set<string>
    requires IsRun(p, steps)
    decreases |steps|
  {
    if steps == [] then {}
    else (if steps[0].Insert? then {p.calls[steps[0].call].id} else {}) + Inserted(Next(p, steps[0]), steps[1..])
  }

  predicate NothingLoaded(steps: seq<Step>) {
    forall s :: s in steps ==> !s.StoreLoaded?
  }

  lemma {:induction false} MemoryWithoutLoad(p: Process, steps: seq<Step>)
    requires IsRun(p, steps) && NothingLoaded(steps)
    ensures Final(p, steps).blocked == p.blocked + Inserted(p, steps)
    decreases |steps|
  {
    if steps != [] {
      assert steps[0] in steps;
      MemoryWithoutLoad(Next(p, steps[0]), steps[1..]);
    }
  }

  lemma {:induction false} RunAppend(p: Process, a: seq<Step>, b: seq<Step>)
    ensures IsRun(p, a + b) <==> IsRun(p, a) && IsRun(Final(p, a), b)
    ensures IsRun(p, a + b) ==> Final(p, a + b) == Final(Final(p, a), b)
    ensures IsRun(p, a + b) ==> Inserted(p, a + b) == Inserted(p, a) + Inserted(Final(p, a), b)
    decreases |a|
  {
    if a == [] {
      assert a + b == b;
    } else {
      assert (a + b)[1..] == a[1..] + b;
      if Enabled(p, a[0]) { RunAppend(Next(p, a[0]), a[1..], b); }
    }
  }

  /** What a load has read stays with it until it is stored. */
  lemma {:induction false} LoadHolds(p: Process, c: nat, steps: seq<Step>)
    requires IsRun(p, steps) && c in p.calls && Enabled(Final(p, steps), StoreLoaded(c))
    requires p.calls[c].LoadRead? || p.calls[c].Returned?
    ensures p.calls[c].LoadRead? && Final(p, steps).calls[c] == p.calls[c]
    decreases |steps|
  {
    if steps != [] { LoadHolds(Next(p, steps[0]), c, steps[1..]); }
  }

  ghost function AtRead(p: Process, before: seq<Step>, c: nat): Process
    requires IsRun(p, before) && Enabled(Final(p, before), ReadFile(c))
  {
    Next(Final(p, before), ReadFile(c))
  }

  /** A run in which call c reads the file after `before` and stores what it read after
      `between`; `after` stores no other load. Anything else may go on at the same time. */
  ghost predicate LoadsOnce(p: Process, before: seq<Step>, c: nat, between: seq<Step>, after: seq<Step>) {
    && IsRun(p, before) && Enabled(Final(p, before), ReadFile(c))
    && IsRun(AtRead(p, before, c), between) && Enabled(Final(AtRead(p, before, c), between), StoreLoaded(c))
    && IsRun(Next(Final(AtRead(p, before, c), between), StoreLoaded(c)), after)
    && NothingLoaded(after)
  }

  function Whole(before: seq<Step>, c: nat, between: seq<Step>, after: seq<Step>): seq<Step> {
    before + ([ReadFile(c)] + (between + ([StoreLoaded(c)] + after)))
  }

  /** That is one run, cut at the two steps of the load. */
  lemma LoadsOnceIsARun(p: Process, before: seq<Step>, c: nat, between: seq<Step>, after: seq<Step>)
    requires NothingLoaded(after)
    ensures LoadsOnce(p, before, c, between, after) <==> IsRun(p, Whole(before, c, between, after))
    ensures LoadsOnce(p, before, c, between, after) ==>
              Final(p, Whole(before, c, between, after)) == Final(Stored(p, before, c, between), after)
  {
    var tail := [StoreLoaded(c)] + after;
    RunAppend(p, before, [ReadFile(c)] + (between + tail));
    assert ([ReadFile(c)] + (between + tail))[1..] == between + tail;
    assert tail[1..] == after;
    if IsRun(p, before) && Enabled(Final(p, before), ReadFile(c)) {
      RunAppend(AtRead(p, before, c), between, tail);
    }
  }

  ghost function Stored(p: Process, before: seq<Step>, c: nat, between: seq<Step>): Process
    requires IsRun(p, before) && Enabled(Final(p, before), ReadFile(c))
    requires IsRun(AtRead(p, before, c), between) && Enabled(Final(AtRead(p, before, c), between), StoreLoaded(c))
  {
    Next(Final(AtRead(p, before, c), between), StoreLoaded(c))
  }

  /** After a load, however it overlaps with blocks and saves, memory is what the file held when
      it was read and what was blocked since the load was stored. So the ids known before are
      kept if and only if each was in the file at that moment or was blocked once more. */
  lemma WhatALoadKeepsExactly(p: Process, before: seq<Step>, c: nat, between: seq<Step>, after: seq<Step>)
    requires LoadsOnce(p, before, c, between, after)
    ensures var known := Final(AtRead(p, before, c), between).blocked;
            var end := Final(Stored(p, before, c, between), after);
            var kept := OnDisk(Final(p, before)) + Inserted(Stored(p, before, c, between), after);
            && end.blocked == kept
            && (known <= end.blocked <==> known <= kept)
            && (NothingLoaded(before) && NothingLoaded(between) ==>
                  known == p.blocked + Inserted(p, before) + Inserted(AtRead(p, before, c), between))
  {
    LoadHolds(AtRead(p, before, c), c, between);
    MemoryWithoutLoad(Stored(p, before, c, between), after);
    if NothingLoaded(before) && NothingLoaded(between) {
      MemoryWithoutLoad(p, before);
      MemoryWithoutLoad(AtRead(p, before, c), between);
    }
  }

  /** Every save under way holds the current set: its read guard keeps insertions and loads out. */
  ghost predicate SavesCurrent(p: Process) {
    forall c :: c in p.calls && p.calls[c].Saving? ==> p.calls[c].copy == p.blocked
  }

  lemma {:induction false} SavesStayCurrent(p: Process, steps: seq<Step>)
    requires SavesCurrent(p) && IsRun(p, steps)
    ensures SavesCurrent(Final(p, steps))
    decreases |steps|
  {
    if steps != [] { SavesStayCurrent(Next(p, steps[0]), steps[1..]); }
  }

  /** The last write of a run, or -1. */
  function LastWrite(steps: seq<Step>): (w: int)
    ensures -1 <= w < |steps|
    ensures w >= 0 ==> steps[w].Write?
    ensures forall i :: w < i < |steps| ==> !steps[i].Write?
  {
    if steps == [] then -1
    else if steps[|steps| - 1].Write? then |steps| - 1
    else LastWrite(steps[..|steps| - 1])
  }

  lemma LastWriteAt(steps: seq<Step>, w: nat)
    requires w < |steps| && steps[w].Write? && forall i :: w < i < |steps| ==> !steps[i].Write?
    ensures LastWrite(steps) == w
  {
  }

  lemma {:induction false} FileUntouched(p: Process, steps: seq<Step>)
    requires IsRun(p, steps) && forall i :: 0 <= i < |steps| ==> !steps[i].Write?
    ensures Final(p, steps).disk == p.disk
    decreases |steps|
  {
    if steps != [] { FileUntouched(Next(p, steps[0]), steps[1..]); }
  }

  /** In every run, loads included, the file is what memory was at the last write. */
  lemma FileIsMemoryAtLastWrite(p: Process, steps: seq<Step>)
    requires SavesCurrent(p) && IsRun(p, steps)
    ensures var w := LastWrite(steps);
            && (w < 0 ==> OnDisk(Final(p, steps)) == OnDisk(p))
            && (w >= 0 ==> IsRun(p, steps[..w]) && OnDisk(Final(p, steps)) == Final(p, steps[..w]).blocked)
  {
    var w := LastWrite(steps);
    if w < 0 {
      FileUntouched(p, steps);
    } else {
      var before, rest := steps[..w], steps[w + 1..];
      assert steps == before + ([steps[w]] + rest);
      RunAppend(p, before, [steps[w]] + rest);
      assert ([steps[w]] + rest)[1..] == rest;
      SavesStayCurrent(p, before);
      FileUntouched(Next(Final(p, before), steps[w]), rest);
    }
  }

  /** Until it is read the file keeps its ids if and only if nothing was written to it, or the
      last write came after each of them had been blocked anew. Memory starts empty, so the first
      write before the read is what destroys the list. */
  lemma FileKeptExactly(p: Process, steps: seq<Step>)
    requires SavesCurrent(p) && IsRun(p, steps) && NothingLoaded(steps)
    ensures LastWrite(steps) >= 0 ==> IsRun(p, steps[..LastWrite(steps)])
    ensures OnDisk(p) <= OnDisk(Final(p, steps)) <==>
              LastWrite(steps) >= 0 ==> OnDisk(p) <= p.blocked + Inserted(p, steps[..LastWrite(steps)])
  {
    FileIsMemoryAtLastWrite(p, steps);
    var w := LastWrite(steps);
    if w >= 0 {
      assert forall s :: s in steps[..w] ==> s in steps;
      MemoryWithoutLoad(p, steps[..w]);
    }
  }

  /** A start of the application: nothing in memory, the list in the file, no save under way. */
  ghost predicate Starting(p: Process) {
    p.blocked == {} && SavesCurrent(p)
  }

  /** What the load has read, told from the schedule alone. */
  ghost function FileWhenRead(p: Process, before: seq<Step>): set<string>
    requires IsRun(p, before) && (LastWrite(before) >= 0 ==> IsRun(p, before[..LastWrite(before)]))
  {
    if LastWrite(before) < 0 then OnDisk(p) else Inserted(p, before[..LastWrite(before)])
  }

  /** From a start with a load in the background: the ids in the file and the ids blocked are all
      in memory at the end if and only if each was in the file as it was read or was blocked
      after the load was stored. A save before the read replaces the file by what was blocked
      until then. */
  lemma StartupLosesNothingExactly(p: Process, before: seq<Step>, c: nat, between: seq<Step>, after: seq<Step>)
    requires Starting(p) && LoadsOnce(p, before, c, between, after)
    requires NothingLoaded(before) && NothingLoaded(between)
    ensures LastWrite(before) >= 0 ==> IsRun(p, before[..LastWrite(before)])
    ensures IsRun(p, Whole(before, c, between, after))
    ensures var blocks := Inserted(p, before) + Inserted(AtRead(p, before, c), between);
            var late := Inserted(Stored(p, before, c, between), after);
            var end := Final(p, Whole(before, c, between, after));
            && end.blocked == FileWhenRead(p, before) + late
            && (OnDisk(p) + blocks + late <= end.blocked <==> OnDisk(p) + blocks <= FileWhenRead(p, before) + late)
  {
    LoadsOnceIsARun(p, before, c, between, after);
    WhatALoadKeepsExactly(p, before, c, between, after);
    FileIsMemoryAtLastWrite(p, before);
    var w := LastWrite(before);
    if w >= 0 {
      assert forall s :: s in before[..w] ==> s in before;
      MemoryWithoutLoad(p, before[..w]);
    }
  }

  // ---------------------------------------------------------------- three such schedules

  /** If call c is the only one that inserts, and it blocks id, then id is all that is inserted. */
  lemma {:induction false} OneBlock(p: Process, c: nat, id: string, steps: seq<Step>)
    requires IsRun(p, steps) && c in p.calls && (p.calls[c].Blocking? ==> p.calls[c].id == id)
    requires forall s :: s in steps && s.Insert? ==> s == Insert(c)
    ensures Inserted(p, steps) <= {id}
    ensures p.calls[c].Blocking? && Insert(c) in steps ==> Inserted(p, steps) == {id}
    ensures Insert(c) !in steps ==> Inserted(p, steps) == {}
    decreases |steps|
  {
    if steps != [] {
      assert steps[0] in steps;
      OneBlock(Next(p, steps[0]), c, id, steps[1..]);
    }
  }

  /** Memory at the end of a run with one load and one block. */
  lemma AfterOneBlock(p: Process, before: seq<Step>, between: seq<Step>, after: seq<Step>, run: seq<Step>, id: string)
    requires Starting(p) && 1 in p.calls && p.calls[1] == Blocking(id)
    requires IsRun(p, run) && run == Whole(before, 0, between, after)
    requires NothingLoaded(before) && NothingLoaded(between) && NothingLoaded(after)
    requires forall s :: s in run && s.Insert? ==> s == Insert(1)
    requires Insert(1) !in after
    ensures Final(p, run).blocked
            == if LastWrite(before) < 0 then OnDisk(p)
               else if Insert(1) in before[..LastWrite(before)] then {id} else {}
  {
    LoadsOnceIsARun(p, before, 0, between, after);
    StartupLosesNothingExactly(p, before, 0, between, after);
    assert forall s :: s in after ==> s in run;
    StaysNoOtherBlock(p, before, between, id);
    OneBlock(Stored(p, before, 0, between), 1, id, after);
    var w := LastWrite(before);
    if w >= 0 {
      assert forall s :: s in before[..w] ==> s in before && s in run;
      OneBlock(p, 1, id, before[..w]);
    }
  }

  lemma {:induction false} BlockKeepsId(p: Process, c: nat, id: string, steps: seq<Step>)
    requires IsRun(p, steps) && c in p.calls && (p.calls[c].Blocking? ==> p.calls[c].id == id)
    ensures c in Final(p, steps).calls
    ensures Final(p, steps).calls[c].Blocking? ==> Final(p, steps).calls[c].id == id
    decreases |steps|
  {
    if steps != [] { BlockKeepsId(Next(p, steps[0]), c, id, steps[1..]); }
  }

  lemma StaysNoOtherBlock(p: Process, before: seq<Step>, between: seq<Step>, id: string)
    requires LoadsOnce(p, before, 0, between, []) && 1 in p.calls && p.calls[1] == Blocking(id)
    ensures var q := Stored(p, before, 0, between);
            1 in q.calls && (q.calls[1].Blocking? ==> q.calls[1].id == id)
  {
    BlockKeepsId(p, 1, id, before);
    BlockKeepsId(AtRead(p, before, 0), 1, id, between);
  }

  /** Three interleavings of the background load with one block of a new id, whatever ids the
      file lists:
      - the id is saved to the file, and then dropped from memory;
      - the id is dropped from memory and from the file;
      - the file is overwritten before it is read, and the list is gone from both for good. */
  lemma LoadOverlappingBlockLoses(listed: set<string>, id: string)
    requires id !in listed
    ensures var p := Process({}, Some(listed), map[0 := Loading, 1 := Blocking(id)]);
            var forgotten := [ReadFile(0), Insert(1), BeginSave(1), Write(1), StoreLoaded(0)];
            var dropped := [ReadFile(0), Insert(1), StoreLoaded(0), BeginSave(1), Write(1)];
            var wiped := [Insert(1), BeginSave(1), Write(1), ReadFile(0), StoreLoaded(0)];
            && IsRun(p, forgotten) && IsRun(p, dropped) && IsRun(p, wiped)
            && Final(p, forgotten).blocked == listed && OnDisk(Final(p, forgotten)) == {id}
            && Final(p, dropped).blocked == listed == OnDisk(Final(p, dropped))
            && Final(p, wiped).blocked == {id} == OnDisk(Final(p, wiped))
  {
    var p := Process({}, Some(listed), map[0 := Loading, 1 := Blocking(id)]);
    var a, b, c, d, e := ReadFile(0), Insert(1), BeginSave(1), Write(1), StoreLoaded(0);
    hide IsRun, Final, Next, Enabled, Inserted, LastWrite;
    TracesRun(p, id, listed);
    assert [a, b, c, d, e] == Whole([], 0, [b, c, d], []);
    AfterOneBlock(p, [], [b, c, d], [], [a, b, c, d, e], id);
    assert [a, b, e, c, d] == Whole([], 0, [b], [c, d]);
    AfterOneBlock(p, [], [b], [c, d], [a, b, e, c, d], id);
    assert [b, c, d, a, e] == Whole([b, c, d], 0, [], []);
    LastWriteAt([b, c, d], 2);
    assert [b, c, d][..2] == [b, c];
    AfterOneBlock(p, [b, c, d], [], [], [b, c, d, a, e], id);
    FileOfTraces(p, id, listed);
  }

  lemma TracesRun(p: Process, id: string, listed: set<string>)
    requires p == Process({}, Some(listed), map[0 := Loading, 1 := Blocking(id)])
    ensures var a, b, c, d, e := ReadFile(0), Insert(1), BeginSave(1), Write(1), StoreLoaded(0);
            IsRun(p, [a, b, c, d, e]) && IsRun(p, [a, b, e, c, d]) && IsRun(p, [b, c, d, a, e])
  {
    var a, b, c, d, e := ReadFile(0), Insert(1), BeginSave(1), Write(1), StoreLoaded(0);
    FiveSteps(p, a, b, c, d, e);
    FiveSteps(p, a, b, e, c, d);
    FiveSteps(p, b, c, d, a, e);
  }

  /** The file is the memory of the moment of the write. */
  lemma FileOfTraces(p: Process, id: string, listed: set<string>)
    requires p == Process({}, Some(listed), map[0 := Loading, 1 := Blocking(id)])
    requires var a, b, c, d, e := ReadFile(0), Insert(1), BeginSave(1), Write(1), StoreLoaded(0);
             IsRun(p, [a, b, c, d, e]) && IsRun(p, [a, b, e, c, d]) && IsRun(p, [b, c, d, a, e])
    ensures var a, b, c, d, e := ReadFile(0), Insert(1), BeginSave(1), Write(1), StoreLoaded(0);
            && OnDisk(Final(p, [a, b, c, d, e])) == {id}
            && OnDisk(Final(p, [a, b, e, c, d])) == listed
            && OnDisk(Final(p, [b, c, d, a, e])) == {id}
  {
    hide IsRun, Final, Next, Enabled, Inserted, LastWrite;
    var a, b, c, d, e := ReadFile(0), Insert(1), BeginSave(1), Write(1), StoreLoaded(0);
    LastWriteAt([a, b, c, d, e], 3);
    FileIsMemoryAtLastWrite(p, [a, b, c, d, e]);
    assert [a, b, c, d, e][..3] == [a, b, c];
    MemoryWithoutLoad(p, [a, b, c]);
    OneBlock(p, 1, id, [a, b, c]);
    LastWriteAt([a, b, e, c, d], 4);
    FileIsMemoryAtLastWrite(p, [a, b, e, c, d]);
    assert [a, b, e, c, d][..4] == [a, b, e, c] == Whole([], 0, [b], [c]);
    AfterOneBlock(p, [], [b], [c], [a, b, e, c], id);
    LastWriteAt([b, c, d, a, e], 2);
    FileIsMemoryAtLastWrite(p, [b, c, d, a, e]);
    assert [b, c, d, a, e][..2] == [b, c];
    MemoryWithoutLoad(p, [b, c]);
    OneBlock(p, 1, id, [b, c]);
  }

  lemma FiveSteps(p: Process, a: Step, b: Step, c: Step, d: Step, e: Step)
    requires Enabled(p, a)
    requires var p1 := Next(p, a); Enabled(p1, b)
    requires var p2 := Next(Next(p, a), b); Enabled(p2, c)
    requires var p3 := Next(Next(Next(p, a), b), c); Enabled(p3, d)
    requires var p4 := Next(Next(Next(Next(p, a), b), c), d); Enabled(p4, e)
    ensures IsRun(p, [a, b, c, d, e])
  {
    var p1 := Next(p, a);
    var p2 := Next(p1, b);
    var p3 := Next(p2, c);
    var p4 := Next(p3, d);
    Unroll(p4, e, []);
    Unroll(p3, d, [e]);
    Unroll(p2, c, [d, e]);
    Unroll(p1, b, [c, d, e]);
    Unroll(p, a, [b, c, d, e]);
    assert [e] + [] == [e] && [d] + [e] == [d, e] && [c] + [d, e] == [c, d, e];
    assert [b] + [c, d, e] == [b, c, d, e] && [a] + [b, c, d, e] == [a, b, c, d, e];
  }
}
