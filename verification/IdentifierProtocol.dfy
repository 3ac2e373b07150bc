/** The shared telemetry identifier. Any number of processes start at once; each reads the identifier
    file, and those that find none take a named mutex (200 ms at most, possibly abandoned by a dead
    owner), read again, and otherwise create the file. The protocol is a state machine whose steps are
    the single file and mutex operations of the three methods; a trace may interleave them freely,
    kill a process anywhere, and let any file operation fail. */
module IdentifierProtocol {

  import opened Basics

  const GUID_SIZE: nat := 16

  type Guid = g: seq<Byte> | |g| == GUID_SIZE witness [0, 0, 0, 0, 0, 0, 0, 0, 0, 0, 0, 0, 0, 0, 0, 0]

  const EMPTY_GUID: Guid := [0, 0, 0, 0, 0, 0, 0, 0, 0, 0, 0, 0, 0, 0, 0, 0]

  /** `_defaultNodeIdentifier`, 2f998828-3f4a-4741-bf50-d11c6be42f50 in the byte order of `Guid`. */
  const DEFAULT_ID: Guid :=
    [0x28, 0x88, 0x99, 0x2f, 0x4a, 0x3f, 0x41, 0x47, 0xbf, 0x50, 0xd1, 0x1c, 0x6b, 0xe4, 0x2f, 0x50]

  datatype File = Absent | Holding(content: seq<Byte>)

  /** What a read of the file that does not fail returns: the first sixteen bytes, unless there are
      fewer or they are all zero. */
  function StoredId(f: File): Option<Guid> {
    if f.Holding? && |f.content| >= GUID_SIZE && f.content[..GUID_SIZE] != EMPTY_GUID
    then Some(f.content[..GUID_SIZE])
    else None
  }

  type Pid = nat

  /** Where a process stands inside `GetUniqueIdentifier`. */
  datatype Pc =
    | Start
    | Waiting
    | Locked
    | Creating
    | Writing(newId: Guid, written: nat)
    | Releasing(held: Guid)
    | Done(id: Guid, canSendTelemetry: bool)
    | Dead

  datatype Mutex = Free | Owned(owner: Pid) | Abandoned

  datatype State = State(file: File, mutex: Mutex, procs: map<Pid, Pc>)

  datatype Event =
    | FirstRead
    | FirstReadFault
    | Acquire
    | WaitFault             // the wait times out, or the mutex cannot be created or waited for
    | Reread
    | RereadFault
    | CreateFault           // the directory or the file cannot be created
    | Truncate(newId: Guid) // File.WriteAllBytes opens the file, emptying it
    | WriteUpTo(count: nat) // bytes of the fresh identifier reach the file
    | WriteFault
    | WriteDone
    | Release
    | Die

  // ----- The steps -----

  predicate InsideMutex(pc: Pc) {
    pc.Locked? || pc.Creating? || pc.Writing? || pc.Releasing?
  }

  function Move(s: State, p: Pid, pc: Pc): State {
    State(s.file, s.mutex, s.procs[p := pc])
  }

  function MoveLock(s: State, p: Pid, pc: Pc, m: Mutex): State {
    State(s.file, m, s.procs[p := pc])
  }

  function MoveFile(s: State, p: Pid, pc: Pc, f: File): State {
    State(f, s.mutex, s.procs[p := pc])
  }

  /** One step of process `p`; None when the event cannot happen there. */
  function Step(s: State, p: Pid, e: Event): Option<State> {
    if p !in s.procs then None
    else
      var pc := s.procs[p];
      match e
      case FirstRead =>
        if !pc.Start? then None
        else if StoredId(s.file).Some? then Some(Move(s, p, Done(StoredId(s.file).value, true)))
        else Some(Move(s, p, Waiting))
      case FirstReadFault => if pc.Start? then Some(Move(s, p, Waiting)) else None
      case Acquire =>
        if pc.Waiting? && !s.mutex.Owned? then Some(MoveLock(s, p, Locked, Owned(p))) else None
      case WaitFault => if pc.Waiting? then Some(Move(s, p, Done(EMPTY_GUID, false))) else None
      case Reread =>
        if !pc.Locked? then None
        else if StoredId(s.file).Some? then Some(Move(s, p, Releasing(StoredId(s.file).value)))
        else Some(Move(s, p, Creating))
      case RereadFault => if pc.Locked? then Some(Move(s, p, Creating)) else None
      case CreateFault => if pc.Creating? then Some(Move(s, p, Releasing(DEFAULT_ID))) else None
      case Truncate(newId) =>
        if pc.Creating? && newId != EMPTY_GUID
        then Some(MoveFile(s, p, Writing(newId, 0), Holding([]))) else None
      case WriteUpTo(count) =>
        if pc.Writing? && pc.written < count <= GUID_SIZE
        then Some(MoveFile(s, p, Writing(pc.newId, count), Holding(pc.newId[..count]))) else None
      case WriteFault => if pc.Writing? then Some(Move(s, p, Releasing(DEFAULT_ID))) else None
      case WriteDone =>
        if pc.Writing? && pc.written == GUID_SIZE then Some(Move(s, p, Releasing(pc.newId))) else None
      case Release =>
        if pc.Releasing? then Some(MoveLock(s, p, Done(pc.held, true), Free)) else None
      case Die =>
        if pc.Done? || pc.Dead? then None
        else Some(MoveLock(s, p, Dead, if s.mutex == Owned(p) then Abandoned else s.mutex))
  }

  type Trace = seq<(Pid, Event)>

  /** The state after a whole interleaving; None when some step of it cannot happen. */
  function Run(s: State, trace: Trace): Option<State>
    decreases |trace|
  {
    if trace == [] then Some(s)
    else match Step(s, trace[0].0, trace[0].1)
      case Some(next) => Run(next, trace[1..])
      case None => None
  }

  /** Any file contents, no owner inside the mutex, every process about to start. */
  predicate Initial(s: State) {
    && !s.mutex.Owned?
    && forall p :: p in s.procs ==> s.procs[p] == Start
  }

  predicate Benign(trace: Trace) {
    forall i :: 0 <= i < |trace| ==> trace[i].1 != RereadFault
  }

  /** No read under the mutex and no directory or file creation or write fails. */
  predicate FaultFree(trace: Trace) {
    forall i :: 0 <= i < |trace| ==>
      trace[i].1 != RereadFault && trace[i].1 != CreateFault && trace[i].1 != WriteFault
  }

  // ----- The invariant -----

  /** `g` is the identifier in the file; with `fallback`, it may instead be the default one. */
  predicate Backed(f: File, g: Guid, fallback: bool) {
    StoredId(f) == Some(g) || (fallback && g == DEFAULT_ID)
  }

  predicate ProcessOk(s: State, p: Pid, fallback: bool)
    requires p in s.procs
  {
    var pc := s.procs[p];
    && (InsideMutex(pc) <==> s.mutex == Owned(p))
    && (pc.Creating? ==> StoredId(s.file) == None)
    && (pc.Writing? ==>
          && pc.newId != EMPTY_GUID && pc.written <= GUID_SIZE
          && s.file == Holding(pc.newId[..pc.written]))
    && (pc.Releasing? ==> Backed(s.file, pc.held, fallback))
    && (pc.Done? && pc.canSendTelemetry ==> Backed(s.file, pc.id, fallback))
  }

  predicate Inv(s: State, fallback: bool) {
    && (s.mutex.Owned? ==> s.mutex.owner in s.procs)
    && forall p :: p in s.procs ==> ProcessOk(s, p, fallback)
  }

  /** A step that is not a failed read under the mutex never replaces a stored identifier. */
  lemma StepKeepsStoredId(s: State, p: Pid, e: Event, fallback: bool)
    requires Inv(s, fallback) && e != RereadFault && Step(s, p, e).Some?
    ensures StoredId(s.file).Some? ==> StoredId(Step(s, p, e).value.file) == StoredId(s.file)
  {
    assert ProcessOk(s, p, fallback);
    if e.WriteUpTo? {
      var pc := s.procs[p];
      if pc.written == GUID_SIZE { assert false; }
      assert |s.file.content| < GUID_SIZE;
    }
  }

  lemma StepKeepsInv(s: State, p: Pid, e: Event, fallback: bool)
    requires Inv(s, fallback) && e != RereadFault && Step(s, p, e).Some?
    requires fallback || (e != CreateFault && e != WriteFault)
    ensures Inv(Step(s, p, e).value, fallback)
  {
    var t := Step(s, p, e).value;
    StepKeepsStoredId(s, p, e, fallback);
    assert ProcessOk(s, p, fallback);
    forall q | q in t.procs ensures ProcessOk(t, q, fallback) {
      assert ProcessOk(s, q, fallback);
      if q == p && e.WriteDone? {
        assert s.procs[p].newId[..GUID_SIZE] == s.procs[p].newId;
      }
    }
  }

  lemma {:induction false} RunKeepsInv(s: State, trace: Trace, fallback: bool)
    requires Inv(s, fallback) && Run(s, trace).Some?
    requires if fallback then Benign(trace) else FaultFree(trace)
    ensures Inv(Run(s, trace).value, fallback)
    ensures StoredId(s.file).Some? ==> StoredId(Run(s, trace).value.file) == StoredId(s.file)
    decreases |trace|
  {
    if trace != [] {
      var (p, e) := trace[0];
      StepKeepsStoredId(s, p, e, fallback);
      StepKeepsInv(s, p, e, fallback);
      RunKeepsInv(Step(s, p, e).value, trace[1..], fallback);
    }
  }

  lemma {:induction false} RunSplits(s: State, a: Trace, b: Trace)
    requires Run(s, a + b).Some?
    ensures Run(s, a).Some? && Run(Run(s, a).value, b) == Run(s, a + b)
    decreases |a|
  {
    if a == [] {
      assert a + b == b;
    } else {
      assert (a + b)[0] == a[0] && (a + b)[1..] == a[1..] + b;
      RunSplits(Step(s, a[0].0, a[0].1).value, a[1..], b);
    }
  }

  // ----- Agreement -----

  predicate KeepsTelemetry(s: State, p: Pid) {
    p in s.procs && s.procs[p].Done? && s.procs[p].canSendTelemetry
  }

  /** Over every interleaving, with timeouts, deaths anywhere and half-written files, as long as reads
      under the mutex and writes do not fail: all processes that keep telemetry on hold one and the
      same non-empty identifier, and it is the one in the file. */
  lemma Agreement(s: State, trace: Trace, p: Pid, q: Pid)
    requires Initial(s) && FaultFree(trace) && Run(s, trace).Some?
    ensures var t := Run(s, trace).value;
            KeepsTelemetry(t, p) && KeepsTelemetry(t, q) ==>
              && t.procs[p].id == t.procs[q].id != EMPTY_GUID
              && StoredId(t.file) == Some(t.procs[p].id)
  {
    RunKeepsInv(s, trace, false);
    var t := Run(s, trace).value;
    if KeepsTelemetry(t, p) && KeepsTelemetry(t, q) {
      assert ProcessOk(t, p, false) && ProcessOk(t, q, false);
    }
  }

  /** When writes may fail but reads under the mutex do not, the only other identifier anyone can end
      up with is the default one. */
  lemma AgreementUpToDefault(s: State, trace: Trace, p: Pid)
    requires Initial(s) && Benign(trace) && Run(s, trace).Some?
    ensures var t := Run(s, trace).value;
            KeepsTelemetry(t, p) ==> t.procs[p].id == DEFAULT_ID || StoredId(t.file) == Some(t.procs[p].id)
  {
    RunKeepsInv(s, trace, true);
    var t := Run(s, trace).value;
    if KeepsTelemetry(t, p) {
      assert ProcessOk(t, p, true);
    }
  }

  /** Process `p` gave up waiting somewhere in the trace. */
  predicate GaveUp(trace: Trace, p: Pid) { exists i :: 0 <= i < |trace| && trace[i] == (p, WaitFault) }

  /** A finished process has telemetry off, and the empty identifier, exactly when it gave up waiting for the mutex. */
  predicate OffAfterGivingUp(pc: Pc, gaveUp: bool) {
    && (gaveUp ==> pc == Done(EMPTY_GUID, false))
    && (pc.Done? && !gaveUp ==> pc.canSendTelemetry)
  }

  lemma StepGivesUp(s: State, p: Pid, e: Event, q: Pid, gaveUp: bool)
    requires Step(s, p, e).Some? && q in s.procs && OffAfterGivingUp(s.procs[q], gaveUp)
    ensures var t := Step(s, p, e).value;
            q in t.procs && OffAfterGivingUp(t.procs[q], gaveUp || (p == q && e == WaitFault))
  {
  }

  lemma {:induction false} RunGivesUp(s: State, trace: Trace, q: Pid, gaveUp: bool)
    requires Run(s, trace).Some? && q in s.procs && OffAfterGivingUp(s.procs[q], gaveUp)
    ensures q in Run(s, trace).value.procs
    ensures OffAfterGivingUp(Run(s, trace).value.procs[q], gaveUp || GaveUp(trace, q))
    decreases |trace|
  {
    hide Step, OffAfterGivingUp;
    if trace != [] {
      var (p, e) := trace[0];
      var now := gaveUp || (p == q && e == WaitFault);
      StepGivesUp(s, p, e, q, gaveUp);
      RunGivesUp(Step(s, p, e).value, trace[1..], q, now);
      if GaveUp(trace[1..], q) {
        var i :| 0 <= i < |trace[1..]| && trace[1..][i] == (q, WaitFault);
        assert trace[i + 1] == (q, WaitFault);
      }
      if GaveUp(trace, q) {
        var i :| 0 <= i < |trace| && trace[i] == (q, WaitFault);
        assert i == 0 || trace[1..][i - 1] == (q, WaitFault);
      }
    }
  }

  /** Over every interleaving and every failure: a process that finishes keeps telemetry on unless it gave up
      waiting, and one that gave up has it off for good. */
  lemma TelemetryOffExactly(s: State, trace: Trace, p: Pid)
    requires Initial(s) && Run(s, trace).Some? && p in s.procs
    ensures p in Run(s, trace).value.procs
    ensures var pc := Run(s, trace).value.procs[p];
            && (pc.Done? && !pc.canSendTelemetry <==> GaveUp(trace, p))
            && (pc.Done? && !pc.canSendTelemetry ==> pc.id == EMPTY_GUID)
  {
    RunGivesUp(s, trace, p, false);
  }

  /** Once the file holds a valid identifier, nothing later in the run overwrites it, even when writes
      fail half way. */
  lemma NeverOverwritten(s: State, before: Trace, after: Trace)
    requires Initial(s) && Benign(before + after) && Run(s, before + after).Some?
    ensures Run(s, before).Some?
    ensures var mid := Run(s, before).value;
            StoredId(mid.file).Some? ==> StoredId(Run(s, before + after).value.file) == StoredId(mid.file)
  {
    RunSplits(s, before, after);
    assert forall i :: 0 <= i < |before| ==> before[i] == (before + after)[i];
    assert forall i :: 0 <= i < |after| ==> after[i] == (before + after)[|before| + i];
    RunKeepsInv(s, before, true);
    RunKeepsInv(Run(s, before).value, after, true);
  }

  /** At most one process is ever inside the mutex. */
  lemma MutualExclusion(s: State, trace: Trace, p: Pid, q: Pid)
    requires Initial(s) && Benign(trace) && Run(s, trace).Some?
    ensures var t := Run(s, trace).value;
            p in t.procs && q in t.procs && InsideMutex(t.procs[p]) && InsideMutex(t.procs[q]) ==> p == q
  {
    RunKeepsInv(s, trace, true);
    var t := Run(s, trace).value;
    if p in t.procs && q in t.procs {
      assert ProcessOk(t, p, true) && ProcessOk(t, q, true);
    }
  }

  // ----- The three methods, run by one process alone -----

  /** What may go wrong for the process: which file operation throws, and how much of the write got through. */
  datatype Faults = Faults(firstRead: bool, wait: bool, reread: bool, create: bool, write: bool, written: nat)

  /** The write itself: how far it gets, then its failure or its end. */
  function WriteTail(faults: Faults): seq<Event> {
    if !faults.write then [WriteUpTo(GUID_SIZE)] + [WriteDone]
    else if 0 < faults.written <= GUID_SIZE then [WriteUpTo(faults.written)] + [WriteFault]
    else [WriteFault]
  }

  function CreationTail(newId: Guid, faults: Faults): seq<Event> {
    if faults.create then [CreateFault] else [Truncate(newId)] + WriteTail(faults)
  }

  function CreationTrace(f: File, newId: Guid, faults: Faults): seq<Event> {
    (if faults.reread then [RereadFault] else [Reread]) +
    (if !faults.reread && StoredId(f).Some? then [] else CreationTail(newId, faults))
  }

  /** The events one process alone produces inside `GetUniqueIdentifier`. */
  function SoloTrace(f: File, newId: Guid, faults: Faults): seq<Event> {
    if !faults.firstRead && StoredId(f).Some? then [FirstRead]
    else (if faults.firstRead then [FirstReadFault] else [FirstRead]) +
         (if faults.wait then [WaitFault] else [Acquire] + CreationTrace(f, newId, faults) + [Release])
  }

  function By(p: Pid, events: seq<Event>): (t: Trace)
    ensures |t| == |events|
  {
    if events == [] then [] else [(p, events[0])] + By(p, events[1..])
  }

  lemma {:induction false} BySplits(p: Pid, a: seq<Event>, b: seq<Event>)
    ensures By(p, a + b) == By(p, a) + By(p, b)
  {
    if a == [] {
      assert a + b == b;
    } else {
      assert (a + b)[0] == a[0] && (a + b)[1..] == a[1..] + b;
      BySplits(p, a[1..], b);
    }
  }

  lemma {:induction false} RunJoins(s: State, a: Trace, b: Trace)
    requires Run(s, a).Some?
    ensures Run(s, a + b) == Run(Run(s, a).value, b)
    decreases |a|
  {
    if a == [] {
      assert a + b == b;
    } else {
      assert (a + b)[0] == a[0] && (a + b)[1..] == a[1..] + b;
      RunJoins(Step(s, a[0].0, a[0].1).value, a[1..], b);
    }
  }

  lemma RunOne(s: State, p: Pid, e: Event, rest: seq<Event>)
    requires Step(s, p, e).Some?
    ensures Run(s, By(p, [e] + rest)) == Run(Step(s, p, e).value, By(p, rest))
  {
    assert ([e] + rest)[1..] == rest;
    assert By(p, [e] + rest)[1..] == By(p, rest);
  }

  function AfterWrite(newId: Guid, faults: Faults): File {
    Holding(if !faults.write then newId else if faults.written <= GUID_SIZE then newId[..faults.written] else [])
  }

  lemma WriteRuns(s: State, p: Pid, newId: Guid, faults: Faults)
    requires p in s.procs && s.procs[p] == Writing(newId, 0) && s.file == Holding([])
    ensures Run(s, By(p, WriteTail(faults))) ==
            Some(MoveFile(s, p, Releasing(if faults.write then DEFAULT_ID else newId), AfterWrite(newId, faults)))
  {
    assert newId[..GUID_SIZE] == newId;
    var last := if faults.write then WriteFault else WriteDone;
    if faults.write && !(0 < faults.written <= GUID_SIZE) {
      RunOne(s, p, last, []);
    } else {
      var w := WriteUpTo(if faults.write then faults.written else GUID_SIZE);
      RunOne(s, p, w, [last]);
      RunOne(Step(s, p, w).value, p, last, []);
      Overwrite(s.procs, p, Writing(newId, w.count), Releasing(if faults.write then DEFAULT_ID else newId));
    }
  }

  lemma Overwrite(m: map<Pid, Pc>, p: Pid, a: Pc, b: Pc)
    ensures m[p := a][p := b] == m[p := b]
  {
  }

  /** From inside the mutex, the events of `CreateUniqueIdentifierAndFile` end with its result in hand. */
  lemma CreationRuns(s: State, p: Pid, newId: Guid, faults: Faults)
    requires p in s.procs && s.procs[p] == Locked && newId != EMPTY_GUID
    ensures Run(s, By(p, CreationTrace(s.file, newId, faults))) ==
            var created := CreationResult(s.file, newId, faults);
            Some(MoveFile(s, p, Releasing(created.0), created.1))
  {
    var readEvent := if faults.reread then RereadFault else Reread;
    var s1 := Step(s, p, readEvent).value;
    var result := Releasing(CreationResult(s.file, newId, faults).0);
    Overwrite(s.procs, p, Creating, result);
    if !faults.reread && StoredId(s.file).Some? {
      RunOne(s, p, readEvent, []);
    } else {
      RunOne(s, p, readEvent, CreationTail(newId, faults));
      if faults.create {
        RunOne(s1, p, CreateFault, []);
        assert CreationTail(newId, faults) == [CreateFault] + [];
      } else {
        RunOne(s1, p, Truncate(newId), WriteTail(faults));
        WriteRuns(Step(s1, p, Truncate(newId)).value, p, newId, faults);
        Overwrite(s1.procs, p, Writing(newId, 0), result);
      }
    }
  }

  /** The identifier `CreateUniqueIdentifierAndFile` returns and the file it leaves. */
  function CreationResult(f: File, newId: Guid, faults: Faults): (Guid, File) {
    if !faults.reread && StoredId(f).Some? then (StoredId(f).value, f)
    else if faults.create then (DEFAULT_ID, f)
    else (if faults.write then DEFAULT_ID else newId, AfterWrite(newId, faults))
  }

  function Alone(f: File): State { State(f, Free, map[0 := Start]) }

  class Telemetry {
    var file: File
    var canSendTelemetry: bool

    constructor (f: File)
      ensures file == f && canSendTelemetry
    {
      file := f;
      canSendTelemetry := true;
    }

    method TryGetIdentifier(readFails: bool) returns (found: bool, id: Guid)
      ensures found <==> !readFails && StoredId(file).Some?
      ensures id == if found then StoredId(file).value else EMPTY_GUID
    {
      if file.Holding? && !readFails && |file.content| >= GUID_SIZE {
        id := file.content[..GUID_SIZE];
        if id != EMPTY_GUID {
          return true, id;
        }
      }
      id := EMPTY_GUID;
      found := false;
    }

    method CreateUniqueIdentifierAndFile(newId: Guid, faults: Faults) returns (id: Guid)
      modifies this`file
      ensures (id, file) == CreationResult(old(file), newId, faults)
    {
      var found;
      found, id := TryGetIdentifier(faults.reread);
      if found {
        return;
      }
      if !faults.create {
        if !faults.write {
          file := Holding(newId);
          return newId;
        }
        file := Holding(if faults.written <= GUID_SIZE then newId[..faults.written] else []);
      }
      id := DEFAULT_ID;
    }

    /** One process alone does what the protocol's machine does for the same faults. */
    method GetUniqueIdentifier(newId: Guid, faults: Faults) returns (id: Guid)
      requires newId != EMPTY_GUID && canSendTelemetry
      modifies this
      ensures Run(Alone(old(file)), By(0, SoloTrace(old(file), newId, faults))) ==
              Some(State(file, Free, map[0 := Done(id, canSendTelemetry)]))
    {
      SoloRuns(file, newId, faults);
      var found;
      found, id := TryGetIdentifier(faults.firstRead);
      if found {
        return;
      }
      if !faults.wait {
        id := CreateUniqueIdentifierAndFile(newId, faults);
        return;
      }
      canSendTelemetry := false;
    }
  }

  /** Where the machine ends for one process alone. */
  lemma SoloRuns(f: File, newId: Guid, faults: Faults)
    requires newId != EMPTY_GUID
    ensures var r := CreationResult(f, newId, faults);
            Run(Alone(f), By(0, SoloTrace(f, newId, faults))) ==
            Some(if !faults.firstRead && StoredId(f).Some? then State(f, Free, map[0 := Done(StoredId(f).value, true)])
                 else if faults.wait then State(f, Free, map[0 := Done(EMPTY_GUID, false)])
                 else State(r.1, Free, map[0 := Done(r.0, true)]))
  {
    var s := Alone(f);
    var first := if faults.firstRead then FirstReadFault else FirstRead;
    var s1 := State(f, Free, map[0 := Waiting]);
    if !faults.firstRead && StoredId(f).Some? {
      RunOne(s, 0, first, []);
      assert SoloTrace(f, newId, faults) == [first] + [];
      assert s.procs[0 := Done(StoredId(f).value, true)] == map[0 := Done(StoredId(f).value, true)];
    } else {
      assert s.procs[0 := Waiting] == s1.procs;
      if faults.wait {
        RunOne(s, 0, first, [WaitFault]);
        RunOne(s1, 0, WaitFault, []);
        assert s1.procs[0 := Done(EMPTY_GUID, false)] == map[0 := Done(EMPTY_GUID, false)];
      } else {
        var rest := [Acquire] + CreationTrace(f, newId, faults) + [Release];
        RunOne(s, 0, first, rest);
        OneCreates(s1, 0, newId, faults);
        var done := Done(CreationResult(f, newId, faults).0, true);
        assert s1.procs[0 := done] == map[0 := done];
      }
    }
  }

  // ----- The three failures the agreement has to exclude -----

  /** Process `p`, already waiting, takes the mutex and goes through the creation. */
  lemma OneCreates(s: State, p: Pid, newId: Guid, faults: Faults)
    requires p in s.procs && s.procs[p] == Waiting && !s.mutex.Owned? && newId != EMPTY_GUID
    ensures var r := CreationResult(s.file, newId, faults);
            Run(s, By(p, [Acquire] + CreationTrace(s.file, newId, faults) + [Release])) ==
            Some(State(r.1, Free, s.procs[p := Done(r.0, true)]))
  {
    hide CreationTail, CreationResult, StoredId;
    var creation := CreationTrace(s.file, newId, faults);
    var s2 := Step(s, p, Acquire).value;
    assert [Acquire] + creation + [Release] == [Acquire] + (creation + [Release]);
    RunOne(s, p, Acquire, creation + [Release]);
    CreationRuns(s2, p, newId, faults);
    BySplits(p, creation, [Release]);
    RunJoins(s2, By(p, creation), By(p, [Release]));
    var r := CreationResult(s.file, newId, faults);
    var s3 := MoveFile(s2, p, Releasing(r.0), r.1);
    RunOne(s3, p, Release, []);
    assert s3.procs[p := Done(r.0, true)] == s.procs[p := Done(r.0, true)];
  }

  function TwoCreate(g: Guid, gFaults: Faults, h: Guid, hFaults: Faults): Trace {
    var f := CreationResult(Absent, g, gFaults).1;
    By(0, [FirstRead]) + (By(1, [FirstRead]) +
    (By(0, [Acquire] + CreationTrace(Absent, g, gFaults) + [Release]) +
     By(1, [Acquire] + CreationTrace(f, h, hFaults) + [Release])))
  }

  /** Two processes that both found no file, one creating after the other. */
  lemma TwoCreateRuns(g: Guid, gFaults: Faults, h: Guid, hFaults: Faults)
    requires g != EMPTY_GUID && h != EMPTY_GUID
    ensures var s := State(Absent, Free, map[0 := Start, 1 := Start]);
            var r0 := CreationResult(Absent, g, gFaults);
            var r1 := CreationResult(r0.1, h, hFaults);
            Run(s, TwoCreate(g, gFaults, h, hFaults)) ==
            Some(State(r1.1, Free, map[0 := Done(r0.0, true), 1 := Done(r1.0, true)]))
  {
    var s := State(Absent, Free, map[0 := Start, 1 := Start]);
    var s2 := State(Absent, Free, map[0 := Waiting, 1 := Waiting]);
    var r0 := CreationResult(Absent, g, gFaults);
    var s3 := State(r0.1, Free, s2.procs[0 := Done(r0.0, true)]);
    var c0 := By(0, [Acquire] + CreationTrace(Absent, g, gFaults) + [Release]);
    var c1 := By(1, [Acquire] + CreationTrace(r0.1, h, hFaults) + [Release]);
    RunOne(s, 0, FirstRead, []);
    RunJoins(s, By(0, [FirstRead]), By(1, [FirstRead]) + (c0 + c1));
    var s1 := Step(s, 0, FirstRead).value;
    RunOne(s1, 1, FirstRead, []);
    RunJoins(s1, By(1, [FirstRead]), c0 + c1);
    assert Step(s1, 1, FirstRead).value == s2;
    OneCreates(s2, 0, g, gFaults);
    RunJoins(s2, c0, c1);
    OneCreates(s3, 1, h, hFaults);
    var r1 := CreationResult(r0.1, h, hFaults);
    assert s3.procs[1 := Done(r1.0, true)] == map[0 := Done(r0.0, true), 1 := Done(r1.0, true)];
  }

  /** If one read under the mutex fails, the stored identifier is replaced: for any two fresh
      identifiers there is a run whose only failure is that read and which ends in disagreement. */
  lemma RereadFaultBreaksAgreement(g: Guid, h: Guid)
    requires g != EMPTY_GUID && h != EMPTY_GUID && g != h
    ensures var s := State(Absent, Free, map[0 := Start, 1 := Start]);
            var none := Faults(false, false, false, false, false, 0);
            var t := Run(s, TwoCreate(g, none, h, none.(reread := true)));
            && Initial(s) && t.Some? && KeepsTelemetry(t.value, 0) && KeepsTelemetry(t.value, 1)
            && t.value.procs[0].id == g && t.value.procs[1].id == h
  {
    var none := Faults(false, false, false, false, false, 0);
    TwoCreateRuns(g, none, h, none.(reread := true));
  }

  /** If one write fails, its process keeps telemetry on under the default identifier while the next
      one stores and uses a fresh identifier. */
  lemma WriteFaultBreaksAgreement(g: Guid, h: Guid, written: nat)
    requires g != EMPTY_GUID && h != EMPTY_GUID && h != DEFAULT_ID && written < GUID_SIZE
    ensures var s := State(Absent, Free, map[0 := Start, 1 := Start]);
            var none := Faults(false, false, false, false, false, 0);
            var t := Run(s, TwoCreate(g, none.(write := true, written := written), h, none));
            && Initial(s) && t.Some? && KeepsTelemetry(t.value, 0) && KeepsTelemetry(t.value, 1)
            && t.value.procs[0].id == DEFAULT_ID && t.value.procs[1].id == h
  {
    var none := Faults(false, false, false, false, false, 0);
    TwoCreateRuns(g, none.(write := true, written := written), h, none);
  }

  /** If the directory or the file cannot be created once, its process keeps telemetry on under the default
      identifier while the next one stores and uses a fresh identifier. */
  lemma CreateFaultBreaksAgreement(g: Guid, h: Guid)
    requires g != EMPTY_GUID && h != EMPTY_GUID && h != DEFAULT_ID
    ensures var s := State(Absent, Free, map[0 := Start, 1 := Start]);
            var none := Faults(false, false, false, false, false, 0);
            var t := Run(s, TwoCreate(g, none.(create := true), h, none));
            && Initial(s) && t.Some? && KeepsTelemetry(t.value, 0) && KeepsTelemetry(t.value, 1)
            && t.value.procs[0].id == DEFAULT_ID && t.value.procs[1].id == h
  {
    var none := Faults(false, false, false, false, false, 0);
    TwoCreateRuns(g, none.(create := true), h, none);
  }

  // ----- Exactly which failures -----

  /** The ways in which a step can go wrong. */
  datatype Fault = FirstReading | WaitingForMutex | Rereading | CreatingFile | WritingFile | Dying

  function FaultOf(e: Event): Option<Fault> {
    match e
    case FirstReadFault => Some(FirstReading)
    case WaitFault => Some(WaitingForMutex)
    case RereadFault => Some(Rereading)
    case CreateFault => Some(CreatingFile)
    case WriteFault => Some(WritingFile)
    case Die => Some(Dying)
    case _ => None
  }

  predicate Allowed(e: Event, faults: set<Fault>) { FaultOf(e).Some? ==> FaultOf(e).value in faults }

  predicate OnlyFaults(trace: Trace, faults: set<Fault>) {
    forall i :: 0 <= i < |trace| ==> Allowed(trace[i].1, faults)
  }

  /** All processes that keep telemetry on hold one and the same non-empty identifier. */
  ghost predicate Agrees(s: State) {
    forall p: Pid, q: Pid :: KeepsTelemetry(s, p) && KeepsTelemetry(s, q) ==>
      s.procs[p].id == s.procs[q].id != EMPTY_GUID
  }

  ghost predicate AlwaysAgrees(faults: set<Fault>) {
    forall s: State, trace: Trace :: Initial(s) && OnlyFaults(trace, faults) && Run(s, trace).Some? ==>
      Agrees(Run(s, trace).value)
  }

  predicate OnlyFaultsIn(events: seq<Event>, faults: set<Fault>) {
    forall i :: 0 <= i < |events| ==> Allowed(events[i], faults)
  }

  lemma {:induction false} ByOnlyFaults(p: Pid, events: seq<Event>, faults: set<Fault>)
    requires OnlyFaultsIn(events, faults)
    ensures OnlyFaults(By(p, events), faults)
  {
    if events != [] {
      ByOnlyFaults(p, events[1..], faults);
    }
  }

  predicate FaultsIn(f: Faults, faults: set<Fault>) {
    && !f.firstRead && !f.wait && (f.reread ==> Rereading in faults)
    && (f.create ==> CreatingFile in faults) && (f.write ==> WritingFile in faults)
  }

  lemma {:induction false} CreationOnlyFaults(f: File, newId: Guid, given: Faults, faults: set<Fault>)
    requires FaultsIn(given, faults)
    ensures OnlyFaultsIn([Acquire] + CreationTrace(f, newId, given) + [Release], faults)
  {
  }

  lemma {:induction false} TwoCreateOnlyFaults(g: Guid, gFaults: Faults, h: Guid, hFaults: Faults, faults: set<Fault>)
    requires FaultsIn(gFaults, faults) && FaultsIn(hFaults, faults)
    ensures OnlyFaults(TwoCreate(g, gFaults, h, hFaults), faults)
  {
    hide By, CreationTrace, Allowed;
    var f := CreationResult(Absent, g, gFaults).1;
    FirstReadAllowed(faults);
    ByOnlyFaults(0, [FirstRead], faults);
    ByOnlyFaults(1, [FirstRead], faults);
    CreationOnlyFaults(Absent, g, gFaults, faults);
    ByOnlyFaults(0, [Acquire] + CreationTrace(Absent, g, gFaults) + [Release], faults);
    CreationOnlyFaults(f, h, hFaults, faults);
    ByOnlyFaults(1, [Acquire] + CreationTrace(f, h, hFaults) + [Release], faults);
  }

  lemma {:induction false} FirstReadAllowed(faults: set<Fault>)
    ensures Allowed(FirstRead, faults)
  {
  }

  const ONES: Guid := [1, 1, 1, 1, 1, 1, 1, 1, 1, 1, 1, 1, 1, 1, 1, 1]
  const TWOS: Guid := [2, 2, 2, 2, 2, 2, 2, 2, 2, 2, 2, 2, 2, 2, 2, 2]

  /** Two processes that end with different identifiers, for any of the three failures alone. */
  lemma {:induction false} DisagreeingRun(faults: set<Fault>)
    requires Rereading in faults || CreatingFile in faults || WritingFile in faults
    ensures !AlwaysAgrees(faults)
  {
    hide Run, TwoCreate, OnlyFaults;
    var s := State(Absent, Free, map[0 := Start, 1 := Start]);
    var none := Faults(false, false, false, false, false, 0);
    var g := ONES;
    var h := TWOS;
    assert g[0] != h[0] && g[0] != EMPTY_GUID[0] && h[0] != EMPTY_GUID[0] && h[0] != DEFAULT_ID[0];
    var gFaults, hFaults := none, none;
    if Rereading in faults {
      hFaults := none.(reread := true);
      RereadFaultBreaksAgreement(g, h);
    } else if CreatingFile in faults {
      gFaults := none.(create := true);
      CreateFaultBreaksAgreement(g, h);
    } else {
      gFaults := none.(write := true);
      WriteFaultBreaksAgreement(g, h, 0);
    }
    TwoCreateOnlyFaults(g, gFaults, h, hFaults, faults);
    var t := Run(s, TwoCreate(g, gFaults, h, hFaults)).value;
    assert KeepsTelemetry(t, 0) && KeepsTelemetry(t, 1) && t.procs[0].id != t.procs[1].id;
  }

  /** Whatever else may fail, every run agrees exactly when no read under the mutex, no creation and no write
      does. */
  lemma {:induction false} AgreementExactly(faults: set<Fault>)
    ensures AlwaysAgrees(faults) <==> Rereading !in faults && CreatingFile !in faults && WritingFile !in faults
  {
    hide Run;
    if Rereading in faults || CreatingFile in faults || WritingFile in faults {
      DisagreeingRun(faults);
    } else {
      forall s: State, trace: Trace | Initial(s) && OnlyFaults(trace, faults) && Run(s, trace).Some?
        ensures Agrees(Run(s, trace).value)
      {
        assert forall i :: 0 <= i < |trace| ==> Allowed(trace[i].1, faults);
        var t := Run(s, trace).value;
        forall p: Pid, q: Pid | KeepsTelemetry(t, p) && KeepsTelemetry(t, q)
          ensures t.procs[p].id == t.procs[q].id != EMPTY_GUID
        {
          Agreement(s, trace, p, q);
        }
      }
    }
  }

  // ----- Nobody waits for ever -----

  predicate UnderWay(s: State, p: Pid) { p in s.procs && !s.procs[p].Done? && !s.procs[p].Dead? }

  /** The next step of a process to which nothing happens. */
  function NextEvent(s: State, p: Pid): Event
    requires UnderWay(s, p)
  {
    match s.procs[p]
    case Start => FirstRead
    case Waiting => Acquire
    case Locked => Reread
    case Creating => Truncate(ONES)
    case Writing(_, written) => if written < GUID_SIZE then WriteUpTo(GUID_SIZE) else WriteDone
    case _ => Release
  }

  /** After any run in which no read under the mutex fails, whatever else fails and whoever dies: while a process is
      under way, some process can take a step without anything going wrong. An abandoned mutex blocks nobody. */
  lemma {:induction false} NeverStuck(s: State, trace: Trace, p: Pid)
    requires Initial(s) && Benign(trace) && Run(s, trace).Some? && UnderWay(Run(s, trace).value, p)
    ensures var t := Run(s, trace).value;
            exists q: Pid, e: Event :: FaultOf(e) == None && UnderWay(t, q) && Step(t, q, e).Some?
  {
    hide Run;
    RunKeepsInv(s, trace, true);
    var t := Run(s, trace).value;
    assert ProcessOk(t, p, true);
    var q := if t.procs[p].Waiting? && t.mutex.Owned? then t.mutex.owner else p;
    assert ProcessOk(t, q, true);
    assert ONES[0] != EMPTY_GUID[0];
    assert FaultOf(NextEvent(t, q)) == None && Step(t, q, NextEvent(t, q)).Some?;
  }
}
