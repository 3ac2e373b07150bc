/** Decompression on first use, under double-checked locking. Any number of threads ask for compressed
    assemblies; each assembly has a descriptor (its size, its place in one shared buffer, and a `loaded`
    flag read with acquire and written with release ordering) and is decompressed under one mutex. The
    machine's steps are the single loads, stores and lock operations of `get_assembly_data`; the
    decompressor writes the buffer a byte at a time, so other threads can observe it half done. */
module DecompressProtocol {

  import opened Basics

  /** `CompressedAssemblyDescriptor` */
  datatype Cad = Cad(size: nat, loaded: bool, offset: nat)

  /** The one stored image of a descriptor: its header's `uncompressed_length`, and what the
      decompressor makes of the rest (None when it reports an error). */
  datatype Image = Image(length: nat, output: Option<seq<Byte>>)

  type Tid = nat

  datatype Pc =
    | Idle
    | FirstLoad(d: nat)
    | WantLock(d: nat)
    | Locked(d: nat)
    | Decompressing(d: nat, done: nat)
    | Storing(d: nat)
    | Unlocking(d: nat)
    | UnlockingWith(d: nat, size: nat)
    | Reading(d: nat)
    | Returned(d: nat, size: nat)

  datatype State = State(
    cads: seq<Cad>,
    buffer: seq<Byte>,
    mutex: Option<Tid>,
    threads: map<Tid, Pc>,
    decompressions: seq<nat>,  // history: how often the decompressor was started for each descriptor
    aborted: bool)

  datatype Event = Enter(d: nat) | Advance

  // ----- The steps -----

  function Go(s: State, t: Tid, pc: Pc): State { s.(threads := s.threads[t := pc]) }

  function Abort(s: State): State { s.(aborted := true) }

  function InRange(s: State, d: nat): bool {
    d < |s.cads| && s.cads[d].offset < |s.buffer| && s.cads[d].size <= |s.buffer| - s.cads[d].offset
  }

  /** Holding the lock and finding the assembly not yet loaded: adjust the size, start decompressing. */
  function StartDecompressing(images: seq<Image>, s: State, t: Tid, d: nat): State
    requires d < |s.cads| == |images| == |s.decompressions|
  {
    if images[d].length > s.cads[d].size then Abort(s)
    else
      Go(s, t, Decompressing(d, 0)).(
        cads := s.cads[d := s.cads[d].(size := images[d].length)],
        decompressions := s.decompressions[d := s.decompressions[d] + 1])
  }

  /** One more byte of output, or the decompressor's return and the checks on it. */
  function StepDecompressing(images: seq<Image>, s: State, t: Tid, d: nat, done: nat): State
    requires d < |s.cads| == |images|
  {
    var cad := s.cads[d];
    if images[d].output == None || |images[d].output.value| > cad.size then Abort(s)
    else if done < |images[d].output.value| && cad.offset + done < |s.buffer| then
      Go(s, t, Decompressing(d, done + 1)).(buffer := s.buffer[cad.offset + done := images[d].output.value[done]])
    else if |images[d].output.value| != cad.size then Abort(s)
    else Go(s, t, Storing(d))
  }

  /** One step of thread `t`; None when it has none. */
  function Step(images: seq<Image>, s: State, t: Tid, e: Event): Option<State>
    requires |s.cads| == |images| == |s.decompressions|
  {
    if s.aborted || t !in s.threads || DescriptorOf(s.threads[t]) > |s.cads| then None
    else
      var pc := s.threads[t];
      if e.Enter? then
        if !(pc.Idle? || pc.Returned?) then None
        else if InRange(s, e.d) then Some(Go(s, t, FirstLoad(e.d)))
        else Some(Abort(s))
      else match pc
        case FirstLoad(d) => Some(Go(s, t, if s.cads[d].loaded then Reading(d) else WantLock(d)))
        case WantLock(d) => if s.mutex == None then Some(Go(s, t, Locked(d)).(mutex := Some(t))) else None
        case Locked(d) =>
          Some(if s.cads[d].loaded then Go(s, t, UnlockingWith(d, s.cads[d].size))
               else StartDecompressing(images, s, t, d))
        case Decompressing(d, done) => Some(StepDecompressing(images, s, t, d, done))
        case Storing(d) => Some(Go(s, t, Unlocking(d)).(cads := s.cads[d := s.cads[d].(loaded := true)]))
        case Unlocking(d) => Some(Go(s, t, Reading(d)).(mutex := None))
        case UnlockingWith(d, size) => Some(Go(s, t, Returned(d, size)).(mutex := None))
        case Reading(d) => Some(Go(s, t, Returned(d, s.cads[d].size)))
        case _ => None
  }

  /** One past the descriptor a thread is working on; 0 when it works on none. */
  function DescriptorOf(pc: Pc): nat {
    if pc.Idle? then 0 else pc.d + 1
  }

  // ----- Initial states and the invariant -----

  predicate Disjoint(a: Cad, b: Cad) {
    a.offset + a.size <= b.offset || b.offset + b.size <= a.offset
  }

  /** Nothing loaded, no lock held, and the descriptors' places in the buffer do not overlap. */
  predicate Initial(images: seq<Image>, s: State) {
    && |s.cads| == |images| == |s.decompressions|
    && (forall d :: 0 <= d < |s.cads| ==> !s.cads[d].loaded && s.decompressions[d] == 0)
    && (forall d, e :: 0 <= d < e < |s.cads| ==> Disjoint(s.cads[d], s.cads[e]))
    && s.mutex == None
    && (forall t :: t in s.threads ==> s.threads[t] == Idle)
    && !s.aborted
  }

  predicate HoldsLock(pc: Pc) {
    pc.Locked? || pc.Decompressing? || pc.Storing? || pc.Unlocking? || pc.UnlockingWith?
  }

  /** The thread has started decompressing `d` and not yet published it. */
  predicate MidFlight(pc: Pc, d: nat) {
    (pc.Decompressing? || pc.Storing?) && pc.d == d
  }

  /** The first `k` bytes of the output of `d` are in its place in the buffer. */
  predicate Written(images: seq<Image>, s: State, d: nat, k: nat) {
    && d < |s.cads| == |images| && images[d].output.Some?
    && k <= |images[d].output.value| && s.cads[d].offset + k <= |s.buffer|
    && s.buffer[s.cads[d].offset..s.cads[d].offset + k] == images[d].output.value[..k]
  }

  /** Descriptor `d` is decompressed in full: its output is in place and its size is the header's. */
  predicate Complete(images: seq<Image>, s: State, d: nat) {
    && d < |s.cads| == |images| && Written(images, s, d, images[d].length)
    && |images[d].output.value| == images[d].length == s.cads[d].size
  }

  predicate CadOk(images: seq<Image>, s: State, d: nat)
    requires d < |s.cads| == |images| == |s.decompressions|
  {
    && (s.cads[d].loaded ==> Complete(images, s, d) && s.decompressions[d] == 1)
    && s.decompressions[d] <= 1
    && (s.decompressions[d] == 1 && !s.cads[d].loaded ==>
          s.mutex.Some? && s.mutex.value in s.threads && MidFlight(s.threads[s.mutex.value], d))
  }

  predicate ThreadOk(images: seq<Image>, s: State, t: Tid)
    requires t in s.threads && |s.cads| == |images| == |s.decompressions|
  {
    var pc := s.threads[t];
    && DescriptorOf(pc) <= |s.cads|
    && (HoldsLock(pc) <==> s.mutex == Some(t))
    && (!pc.Idle? ==> InRange(s, pc.d))
    && (pc.Decompressing? || pc.Storing? ==>
          !s.cads[pc.d].loaded && s.decompressions[pc.d] == 1 && s.cads[pc.d].size == images[pc.d].length)
    && (pc.Decompressing? ==> images[pc.d].output.Some? && |images[pc.d].output.value| <= s.cads[pc.d].size
                              ==> Written(images, s, pc.d, pc.done))
    && (pc.Storing? ==> Complete(images, s, pc.d))
    && (pc.Unlocking? || pc.UnlockingWith? || pc.Reading? || pc.Returned? ==> s.cads[pc.d].loaded)
    && (pc.UnlockingWith? || pc.Returned? ==> pc.size == images[pc.d].length)
  }

  predicate Inv(images: seq<Image>, s: State) {
    && |s.cads| == |images| == |s.decompressions|
    && (forall d, e :: 0 <= d < e < |s.cads| ==> Disjoint(s.cads[d], s.cads[e]))
    && (forall d :: 0 <= d < |s.cads| ==> CadOk(images, s, d))
    && (forall t :: t in s.threads ==> ThreadOk(images, s, t))
    && (s.mutex.Some? ==> s.mutex.value in s.threads)
  }

  lemma InitialInv(images: seq<Image>, s: State)
    requires Initial(images, s)
    ensures Inv(images, s)
  {
  }

  /** A byte written into the place of `d` leaves every other descriptor's place alone. */
  lemma WriteFrame(images: seq<Image>, s: State, d: nat, k: nat, v: Byte, e: nat, n: nat)
    requires Inv(images, s) && d < |s.cads| && e < |s.cads| && e != d
    requires k < s.cads[d].size && s.cads[d].offset + k < |s.buffer|
    requires Written(images, s, e, n) && n <= s.cads[e].size
    ensures Written(images, s.(buffer := s.buffer[s.cads[d].offset + k := v]), e, n)
  {
    assert Disjoint(s.cads[d], s.cads[e]);
    var b := s.buffer[s.cads[d].offset + k := v];
    assert b[s.cads[e].offset..s.cads[e].offset + n] == s.buffer[s.cads[e].offset..s.cads[e].offset + n];
  }

  /** A step that changes no descriptor and no byte, only where thread `t` stands and the lock. */
  lemma MoveKeepsInv(images: seq<Image>, s: State, t: Tid, pc: Pc, mutex: Option<Tid>)
    requires Inv(images, s) && t in s.threads
    requires mutex == s.mutex || (s.mutex == None && mutex == Some(t)) || (s.mutex == Some(t) && mutex == None)
    requires var s' := s.(threads := s.threads[t := pc], mutex := mutex); ThreadOk(images, s', t)
    requires s.threads[t].Decompressing? || s.threads[t].Storing? ==>
               s.cads[s.threads[t].d].loaded || MidFlight(pc, s.threads[t].d)
    ensures Inv(images, s.(threads := s.threads[t := pc], mutex := mutex))
  {
    var s' := s.(threads := s.threads[t := pc], mutex := mutex);
    assert ThreadOk(images, s, t);
    forall d | 0 <= d < |s.cads| ensures CadOk(images, s', d) {
      assert CadOk(images, s, d);
    }
    forall u | u in s'.threads ensures ThreadOk(images, s', u) {
      assert ThreadOk(images, s, u);
    }
  }

  lemma StartKeepsInv(images: seq<Image>, s: State, t: Tid, d: nat)
    requires Inv(images, s) && t in s.threads && s.threads[t] == Locked(d) && d < |s.cads| && !s.cads[d].loaded
    requires images[d].length <= s.cads[d].size
    ensures Inv(images, StartDecompressing(images, s, t, d))
  {
    var s' := StartDecompressing(images, s, t, d);
    assert ThreadOk(images, s, t) && CadOk(images, s, d);
    forall e | 0 <= e < |s.cads| ensures CadOk(images, s', e) {
      assert CadOk(images, s, e);
    }
    forall u | u in s'.threads ensures ThreadOk(images, s', u) {
      assert ThreadOk(images, s, u);
    }
    forall e, f | 0 <= e < f < |s.cads| ensures Disjoint(s'.cads[e], s'.cads[f]) {
      assert Disjoint(s.cads[e], s.cads[f]);
    }
  }

  lemma WriteExtends(images: seq<Image>, s: State, d: nat, done: nat)
    requires Written(images, s, d, done) && done < |images[d].output.value|
    requires s.cads[d].offset + done < |s.buffer|
    ensures Written(images, s.(buffer := s.buffer[s.cads[d].offset + done := images[d].output.value[done]]), d,
                    done + 1)
  {
    var out, off := images[d].output.value, s.cads[d].offset;
    var b := s.buffer[off + done := out[done]];
    assert b[off..off + done + 1] == s.buffer[off..off + done] + [out[done]];
    assert out[..done + 1] == out[..done] + [out[done]];
  }

  lemma WriteKeepsInv(images: seq<Image>, s: State, t: Tid, d: nat, done: nat)
    requires Inv(images, s) && t in s.threads && s.threads[t] == Decompressing(d, done) && d < |s.cads|
    requires images[d].output.Some? && done < |images[d].output.value| <= s.cads[d].size
    ensures Inv(images, StepDecompressing(images, s, t, d, done))
  {
    var out, off := images[d].output.value, s.cads[d].offset;
    assert ThreadOk(images, s, t);
    var mid := s.(buffer := s.buffer[off + done := out[done]]);
    var s' := Go(s, t, Decompressing(d, done + 1)).(buffer := mid.buffer);
    assert s' == StepDecompressing(images, s, t, d, done);
    WriteExtends(images, s, d, done);
    forall e | 0 <= e < |s.cads| ensures CadOk(images, s', e) {
      assert CadOk(images, s, e);
      if s.cads[e].loaded {
        WriteFrame(images, s, d, done, out[done], e, images[e].length);
      }
    }
    forall u | u in s'.threads ensures ThreadOk(images, s', u) {
      assert ThreadOk(images, s, u);
    }
  }

  lemma DecompressKeepsInv(images: seq<Image>, s: State, t: Tid, d: nat, done: nat)
    requires Inv(images, s) && t in s.threads && s.threads[t] == Decompressing(d, done) && d < |s.cads|
    ensures Inv(images, StepDecompressing(images, s, t, d, done))
  {
    assert ThreadOk(images, s, t);
    if images[d].output == None || |images[d].output.value| > s.cads[d].size {
      InvIgnoresAbort(images, s);
    } else if done < |images[d].output.value| {
      WriteKeepsInv(images, s, t, d, done);
    } else if |images[d].output.value| != s.cads[d].size {
      InvIgnoresAbort(images, s);
    } else {
      MoveKeepsInv(images, s, t, Storing(d), s.mutex);
    }
  }

  lemma InvIgnoresAbort(images: seq<Image>, s: State)
    requires Inv(images, s)
    ensures Inv(images, Abort(s))
  {
    forall d | 0 <= d < |s.cads| ensures CadOk(images, Abort(s), d) {
      assert CadOk(images, s, d);
    }
    forall u | u in s.threads ensures ThreadOk(images, Abort(s), u) {
      assert ThreadOk(images, s, u);
    }
  }

  lemma StoreKeepsInv(images: seq<Image>, s: State, t: Tid, d: nat)
    requires Inv(images, s) && t in s.threads && s.threads[t] == Storing(d) && d < |s.cads|
    ensures Inv(images, Go(s, t, Unlocking(d)).(cads := s.cads[d := s.cads[d].(loaded := true)]))
  {
    var s' := Go(s, t, Unlocking(d)).(cads := s.cads[d := s.cads[d].(loaded := true)]);
    assert ThreadOk(images, s, t);
    forall e | 0 <= e < |s.cads| ensures CadOk(images, s', e) {
      assert CadOk(images, s, e);
    }
    forall u | u in s'.threads ensures ThreadOk(images, s', u) {
      assert ThreadOk(images, s, u);
    }
    forall e, f | 0 <= e < f < |s.cads| ensures Disjoint(s'.cads[e], s'.cads[f]) {
      assert Disjoint(s.cads[e], s.cads[f]);
    }
  }

  /** Every step of every thread keeps the invariant. */
  lemma StepKeepsInv(images: seq<Image>, s: State, t: Tid, e: Event)
    requires Inv(images, s) && Step(images, s, t, e).Some?
    ensures Inv(images, Step(images, s, t, e).value)
  {
    hide Written, Disjoint, StepDecompressing;
    var pc := s.threads[t];
    assert ThreadOk(images, s, t);
    if e.Enter? {
      if InRange(s, e.d) {
        MoveKeepsInv(images, s, t, FirstLoad(e.d), s.mutex);
      } else {
        InvIgnoresAbort(images, s);
      }
    } else {
      assert CadOk(images, s, pc.d);
      match pc
      case FirstLoad(d) => MoveKeepsInv(images, s, t, if s.cads[d].loaded then Reading(d) else WantLock(d), s.mutex);
      case WantLock(d) => MoveKeepsInv(images, s, t, Locked(d), Some(t));
      case Locked(d) =>
        if s.cads[d].loaded {
          MoveKeepsInv(images, s, t, UnlockingWith(d, s.cads[d].size), s.mutex);
        } else if images[d].length > s.cads[d].size {
          InvIgnoresAbort(images, s);
        } else {
          StartKeepsInv(images, s, t, d);
        }
      case Decompressing(d, done) => DecompressKeepsInv(images, s, t, d, done);
      case Storing(d) => StoreKeepsInv(images, s, t, d);
      case Unlocking(d) => MoveKeepsInv(images, s, t, Reading(d), None);
      case UnlockingWith(d, size) => MoveKeepsInv(images, s, t, Returned(d, size), None);
      case Reading(d) => MoveKeepsInv(images, s, t, Returned(d, s.cads[d].size), s.mutex);
    }
  }

  // ----- Runs -----

  type Trace = seq<(Tid, Event)>

  /** `states` is a run under the interleaving `trace`. */
  predicate IsRun(images: seq<Image>, states: seq<State>, trace: Trace) {
    && |states| == |trace| + 1
    && Initial(images, states[0])
    && forall k :: 0 <= k < |trace| ==> RunStep(images, states, trace, k)
  }

  predicate RunStep(images: seq<Image>, states: seq<State>, trace: Trace, k: nat)
    requires |states| == |trace| + 1 && k < |trace|
  {
    && |states[k].cads| == |images| == |states[k].decompressions|
    && Step(images, states[k], trace[k].0, trace[k].1) == Some(states[k + 1])
  }

  lemma {:induction false} RunKeepsInv(images: seq<Image>, states: seq<State>, trace: Trace, k: nat)
    requires IsRun(images, states, trace) && k <= |trace|
    ensures Inv(images, states[k])
  {
    if k == 0 {
      InitialInv(images, states[0]);
    } else {
      RunKeepsInv(images, states, trace, k - 1);
      assert RunStep(images, states, trace, k - 1);
      StepKeepsInv(images, states[k - 1], trace[k - 1].0, trace[k - 1].1);
    }
  }

  /** One step never takes back `loaded`, never grows a size, never moves a place in the buffer. */
  lemma StepMonotone(images: seq<Image>, s: State, t: Tid, e: Event, d: nat)
    requires Inv(images, s) && Step(images, s, t, e).Some? && d < |s.cads|
    ensures var s' := Step(images, s, t, e).value;
            && |s'.cads| == |s.cads|
            && (s.cads[d].loaded ==> s'.cads[d].loaded)
            && s'.cads[d].size <= s.cads[d].size && s'.cads[d].offset == s.cads[d].offset
            && s.decompressions[d] <= s'.decompressions[d]
  {
    assert ThreadOk(images, s, t);
  }

  lemma {:induction false} RunMonotone(images: seq<Image>, states: seq<State>, trace: Trace, from: nat, to: nat, d: nat)
    requires IsRun(images, states, trace) && from <= to <= |trace| && d < |images|
    ensures |states[from].cads| == |states[to].cads| == |images| == |states[to].decompressions|
    ensures states[from].cads[d].loaded ==> states[to].cads[d].loaded
    ensures states[to].cads[d].size <= states[from].cads[d].size
    ensures states[to].cads[d].offset == states[from].cads[d].offset
  {
    RunKeepsInv(images, states, trace, from);
    if from < to {
      RunMonotone(images, states, trace, from, to - 1, d);
      RunKeepsInv(images, states, trace, to - 1);
      assert RunStep(images, states, trace, to - 1);
      StepMonotone(images, states[to - 1], trace[to - 1].0, trace[to - 1].1, d);
      RunKeepsInv(images, states, trace, to);
    }
  }

  // ----- What the protocol promises -----

  /** Over every interleaving of any number of threads, each descriptor is decompressed at most once,
      `loaded` never reverts, and the stored size only shrinks. */
  lemma DecompressedAtMostOnce(images: seq<Image>, states: seq<State>, trace: Trace, from: nat, to: nat, d: nat)
    requires IsRun(images, states, trace) && from <= to <= |trace| && d < |images|
    ensures |states[from].cads| == |states[to].cads| == |images| == |states[to].decompressions|
    ensures states[to].decompressions[d] <= 1
    ensures states[from].cads[d].loaded ==> states[to].cads[d].loaded
    ensures states[to].cads[d].size <= states[from].cads[d].size
  {
    RunMonotone(images, states, trace, from, to, d);
    RunKeepsInv(images, states, trace, to);
    assert CadOk(images, states[to], d);
  }

  /** The descriptor that thread `t` asked for last, among the first `n` events. */
  function LastRequest(trace: Trace, t: Tid, n: nat): Option<nat>
    requires n <= |trace|
  {
    if n == 0 then None
    else if trace[n - 1].0 == t && trace[n - 1].1.Enter? then Some(trace[n - 1].1.d)
    else LastRequest(trace, t, n - 1)
  }

  /** The events before `k` that have been served: all of them, but for the one that aborted the application. */
  function Served(states: seq<State>, k: nat): nat
    requires k < |states|
  {
    if states[k].aborted && k > 0 then k - 1 else k
  }

  lemma OthersStay(images: seq<Image>, s: State, u: Tid, e: Event, t: Tid)
    requires |s.cads| == |images| == |s.decompressions| && Step(images, s, u, e).Some? && !s.aborted
    ensures var s' := Step(images, s, u, e).value;
            && s'.threads.Keys == s.threads.Keys
            && (t in s.threads && (t != u || s'.aborted) ==> s'.threads[t] == s.threads[t])
            && (e.Enter? && !s'.aborted ==> s'.threads[u] == FirstLoad(e.d))
            && (!e.Enter? && !s'.aborted ==>
                  !s'.threads[u].Idle? && !s.threads[u].Idle? && s'.threads[u].d == s.threads[u].d)
  {
  }

  /** Wherever a thread stands, it works on the descriptor of its last request; it is idle exactly before its
      first. */
  lemma {:induction false} WorksOnItsRequest(images: seq<Image>, states: seq<State>, trace: Trace, k: nat, t: Tid)
    requires IsRun(images, states, trace) && k <= |trace| && t in states[k].threads
    ensures LastRequest(trace, t, Served(states, k)) ==
            if states[k].threads[t].Idle? then None else Some(states[k].threads[t].d)
  {
    if k > 0 {
      assert RunStep(images, states, trace, k - 1);
      OthersStay(images, states[k - 1], trace[k - 1].0, trace[k - 1].1, t);
      WorksOnItsRequest(images, states, trace, k - 1, t);
    }
  }

  /** What the thread was handed: the first `size` bytes at the place of the descriptor it asked for. */
  function Handed(s: State, d: nat, size: nat): Option<seq<Byte>> {
    if d < |s.cads| && s.cads[d].offset + size <= |s.buffer|
    then Some(s.buffer[s.cads[d].offset..s.cads[d].offset + size])
    else None
  }

  /** A thread that has returned was given the length in the header of the image it asked for, and from then
      on, for ever, the bytes it was handed are that whole image decompressed. */
  lemma ReturnedSeesEverything(images: seq<Image>, states: seq<State>, trace: Trace, k: nat, later: nat, t: Tid)
    requires IsRun(images, states, trace) && k <= later <= |trace|
    requires t in states[k].threads && states[k].threads[t].Returned?
    ensures var request, pc := LastRequest(trace, t, Served(states, k)), states[k].threads[t];
            && request == Some(pc.d) && pc.d < |images|
            && pc.size == images[pc.d].length && images[pc.d].output.Some?
            && Handed(states[later], pc.d, pc.size) == Some(images[pc.d].output.value)
  {
    WorksOnItsRequest(images, states, trace, k, t);
    RunKeepsInv(images, states, trace, k);
    assert ThreadOk(images, states[k], t);
    var d := states[k].threads[t].d;
    RunMonotone(images, states, trace, k, later, d);
    RunKeepsInv(images, states, trace, later);
    assert CadOk(images, states[later], d);
    var out := images[d].output.value;
    assert out[..|out|] == out;
  }

  // ----- Every request is answered -----

  /** How many steps of its own a thread is from its return, at most. */
  function StepsLeft(images: seq<Image>, pc: Pc): nat {
    match pc
    case FirstLoad(d) => 7 + OutputLength(images, d)
    case WantLock(d) => 6 + OutputLength(images, d)
    case Locked(d) => 5 + OutputLength(images, d)
    case Decompressing(d, done) => 4 + if done < OutputLength(images, d) then OutputLength(images, d) - done else 0
    case Storing(_) => 3
    case Unlocking(_) => 2
    case UnlockingWith(_, _) => 1
    case Reading(_) => 1
    case _ => 0
  }

  function OutputLength(images: seq<Image>, d: nat): nat {
    if d < |images| && images[d].output.Some? then |images[d].output.value| else 0
  }

  /** The steps that thread `t` takes among events `from` to `to`. */
  function OwnSteps(trace: Trace, t: Tid, from: nat, to: nat): nat
    requires from <= to <= |trace|
  {
    if from == to then 0
    else OwnSteps(trace, t, from, to - 1) + if trace[to - 1] == (t, Advance) then 1 else 0
  }

  lemma AdvanceApproaches(images: seq<Image>, s: State, t: Tid)
    requires Inv(images, s) && Step(images, s, t, Advance).Some?
    ensures var s' := Step(images, s, t, Advance).value;
            s'.aborted || StepsLeft(images, s'.threads[t]) < StepsLeft(images, s.threads[t])
  {
    assert ThreadOk(images, s, t);
  }

  /** Each request is answered within as many steps of its thread as the output has bytes, and seven: however
      the threads are scheduled, the steps a thread has taken since and those it may still take are no more. */
  lemma {:induction false} RequestsEnd(images: seq<Image>, states: seq<State>, trace: Trace, from: nat, to: nat, t: Tid)
    requires IsRun(images, states, trace) && from <= to <= |trace| && !states[to].aborted && t in states[from].threads
    requires forall k :: from <= k < to ==> !(trace[k].0 == t && trace[k].1.Enter?)
    ensures t in states[to].threads
    ensures OwnSteps(trace, t, from, to) + StepsLeft(images, states[to].threads[t]) <=
            StepsLeft(images, states[from].threads[t])
  {
    if from < to {
      assert RunStep(images, states, trace, to - 1);
      RequestsEnd(images, states, trace, from, to - 1, t);
      RunKeepsInv(images, states, trace, to - 1);
      OthersStay(images, states[to - 1], trace[to - 1].0, trace[to - 1].1, t);
      if trace[to - 1] == (t, Advance) {
        AdvanceApproaches(images, states[to - 1], t);
      }
    }
  }

  /** While one thread is inside, no other thread is decompressing anything. */
  lemma OneDecompressorAtATime(images: seq<Image>, states: seq<State>, trace: Trace, k: nat, t: Tid, u: Tid)
    requires IsRun(images, states, trace) && k <= |trace|
    requires t in states[k].threads && HoldsLock(states[k].threads[t])
    requires u in states[k].threads && HoldsLock(states[k].threads[u])
    ensures t == u
  {
    RunKeepsInv(images, states, trace, k);
    assert ThreadOk(images, states[k], t) && ThreadOk(images, states[k], u);
  }

  /** No run gets stuck: unless the application was aborted, whenever a thread is under way some thread can
      take a step. */
  lemma NeverStuck(images: seq<Image>, states: seq<State>, trace: Trace, k: nat, t: Tid)
    requires IsRun(images, states, trace) && k <= |trace| && !states[k].aborted
    requires t in states[k].threads && !states[k].threads[t].Idle? && !states[k].threads[t].Returned?
    ensures |states[k].cads| == |images| == |states[k].decompressions|
    ensures exists u: Tid :: Step(images, states[k], u, Advance).Some?
  {
    RunKeepsInv(images, states, trace, k);
    var s := states[k];
    assert ThreadOk(images, s, t);
    if s.threads[t].WantLock? && s.mutex.Some? {
      assert ThreadOk(images, s, s.mutex.value);
      assert Step(images, s, s.mutex.value, Advance).Some?;
    } else {
      assert Step(images, s, t, Advance).Some?;
    }
  }

  /** Every image fits the place its descriptor had, and decompresses to the length in its header. */
  predicate AllFit(images: seq<Image>, cads: seq<Cad>, buffer: seq<Byte>) {
    && |images| == |cads|
    && forall d :: 0 <= d < |cads| ==>
         && images[d].length <= cads[d].size && images[d].output.Some? && |images[d].output.value| == images[d].length
         && cads[d].offset < |buffer| && cads[d].offset + cads[d].size <= |buffer|
  }

  predicate ValidRequest(images: seq<Image>, e: Event) { e.Enter? ==> e.d < |images| }

  lemma StepKeepsFit(images: seq<Image>, s: State, t: Tid, e: Event)
    requires Inv(images, s) && AllFit(images, s.cads, s.buffer) && Step(images, s, t, e).Some?
             && ValidRequest(images, e)
    ensures var s' := Step(images, s, t, e).value; !s'.aborted && AllFit(images, s'.cads, s'.buffer)
  {
    assert ThreadOk(images, s, t);
  }

  /** When every image fits, no interleaving of valid requests ever aborts the application. */
  lemma {:induction false} NeverAborts(images: seq<Image>, states: seq<State>, trace: Trace, k: nat)
    requires IsRun(images, states, trace) && k <= |trace| && AllFit(images, states[0].cads, states[0].buffer)
    requires forall j :: 0 <= j < |trace| ==> ValidRequest(images, trace[j].1)
    ensures !states[k].aborted && AllFit(images, states[k].cads, states[k].buffer)
  {
    if k > 0 {
      NeverAborts(images, states, trace, k - 1);
      RunKeepsInv(images, states, trace, k - 1);
      assert RunStep(images, states, trace, k - 1);
      StepKeepsFit(images, states[k - 1], trace[k - 1].0, trace[k - 1].1);
    }
  }
}
