/** Ownership of native objects by `Surface` handles. A Surface names a reference-counted native object
    in `mNativeObject` and, while a software lock is outstanding, another in `mLockedObject`. Critical
    sections are atomic; the natives have the contracts the source's comments give them. Each method is
    specified by a function on the Surface's fields and the reference counts, and those functions, split
    where a method works outside the lock, are the steps of a family of Surfaces for which conservation of
    references is decided for every run. */
module SurfaceOwnership {

  import opened Basics

  /** A native pointer; 0 is null. */
  type Handle = nat

  type Counts = map<Handle, nat>

  function Count(c: Counts, h: Handle): nat { if h in c then c[h] else 0 }

  /** One more strong reference, as a native that hands out a reference takes; null has no count. */
  function Inc(c: Counts, h: Handle): Counts { if h == 0 then c else c[h := Count(c, h) + 1] }

  function Dec(c: Counts, h: Handle): Counts
    requires h == 0 || Count(c, h) > 0
  {
    if h == 0 then c else c[h := Count(c, h) - 1]
  }

  /** Java's 32-bit `int`, wrapping around. */
  function WrapInt(n: int): int { (n + 0x8000_0000) % 0x1_0000_0000 - 0x8000_0000 }

  /** The guarded fields: `mNativeObject`, `mLockedObject`, `mGenerationId`, whether `mCloseGuard` is
      open, and whether `mHwuiContext` is non-null. */
  datatype Fields = Fields(native: Handle, locked: Handle, generation: int, guardOpen: bool, hwui: bool)

  const NEW_FIELDS := Fields(0, 0, 0, false, false)

  /** How many of a Surface's fields name `h`. */
  function Refs(s: Fields, h: Handle): nat {
    (if h != 0 && s.native == h then 1 else 0) + (if h != 0 && s.locked == h then 1 else 0)
  }

  /** Every reference the Surface holds is counted. */
  ghost predicate Backed(s: Fields, c: Counts) {
    forall h :: Refs(s, h) <= Count(c, h)
  }

  // ----- The methods, as functions -----

  /** `setNativeObjectLocked` */
  function SetNative(s: Fields, ptr: Handle): Fields {
    if s.native == ptr then s
    else Fields(ptr, s.locked, WrapInt(s.generation + 1),
                if s.native == 0 && ptr != 0 then true else if s.native != 0 && ptr == 0 then false else s.guardOpen,
                s.hwui)
  }

  type Outcome = (Fields, Counts)

  function ReleaseSpec(s: Fields, c: Counts): Outcome
    requires Backed(s, c)
  {
    var s1 := s.(hwui := false);
    if s.native != 0 then
      assert Refs(s, s.native) >= 1;
      (SetNative(s1, 0), Dec(c, s.native))
    else (s1, c)
  }

  /** `nativeLockCanvas` returns the locked object with one more reference, or throws. */
  function LockSpec(s: Fields, c: Counts, nativeThrows: bool): Outcome {
    if s.native == 0 || s.locked != 0 || nativeThrows then (s, c)
    else (s.(locked := s.native), Inc(c, s.native))
  }

  predicate UnlockReaches(s: Fields, ownCanvas: bool) {
    s.native != 0 && !s.hwui && ownCanvas && s.locked != 0
  }

  /** The reference is dropped in a `finally`, whether the native post throws or not. */
  function UnlockSpec(s: Fields, c: Counts, ownCanvas: bool): Outcome
    requires Backed(s, c)
  {
    if UnlockReaches(s, ownCanvas) then
      assert Refs(s, s.locked) >= 1;
      (s.(locked := 0), Dec(c, s.locked))
    else (s, c)
  }

  /** `nativeGetFromSurfaceControl` and `nativeGetFromBlastBufferQueue` return the object passed in,
      or another one with a reference taken for the caller. */
  function AfterGetFrom(s: Fields, c: Counts, result: Handle): Counts {
    if result == s.native then c else Inc(c, result)
  }

  /** `updateNativeObject`, the critical section of `copyFrom` */
  function UpdateSpec(s: Fields, c: Counts, result: Handle): Outcome
    requires Backed(s, c)
  {
    if result == s.native then (s, c)
    else
      assert Refs(s, s.native) >= 1 || s.native == 0;
      (SetNative(s, result), Dec(c, s.native))
  }

  function CopyFromSpec(s: Fields, c: Counts, result: Handle): Outcome
    requires Backed(s, c)
  {
    var c1 := AfterGetFrom(s, c, result);
    if result == s.native then (s, c1)
    else
      assert Refs(s, s.native) >= 1 || s.native == 0;
      (SetNative(s, result), Dec(c1, s.native))
  }

  /** `nativeCreateFromSurfaceControl` always takes a reference for the caller. */
  function CreateFromSpec(s: Fields, c: Counts, result: Handle): Outcome
    requires Backed(s, c)
  {
    assert Refs(s, s.native) >= 1 || s.native == 0;
    (SetNative(s, result), Dec(Inc(c, result), s.native))
  }

  /** `nativeReadFromParcel` returns the object passed in, or a new reference after dropping that one. */
  function ReadParcelSpec(s: Fields, c: Counts, result: Handle): Outcome
    requires Backed(s, c)
  {
    assert Refs(s, s.native) >= 1 || s.native == 0;
    (SetNative(s, result), if result == s.native then c else Inc(Dec(c, s.native), result))
  }

  /** The receiving half of `transferFrom`: the reference comes with `ptr`. */
  function TransferInSpec(s: Fields, c: Counts, ptr: Handle): Outcome
    requires Backed(s, c)
  {
    assert Refs(s, s.native) >= 1 || s.native == 0;
    (SetNative(s, ptr), Dec(c, s.native))
  }

  // ----- The class -----

  /** The native side: strong reference counts. */
  class NativeHeap {
    var counts: Counts

    constructor ()
      ensures counts == map[]
    {
      counts := map[];
    }

    method Acquire(h: Handle)
      modifies this
      ensures counts == Inc(old(counts), h)
    {
      if h != 0 {
        counts := counts[h := Count(counts, h) + 1];
      }
    }

    method NativeRelease(h: Handle)
      requires h == 0 || Count(counts, h) > 0
      modifies this
      ensures counts == Dec(old(counts), h)
    {
      if h != 0 {
        counts := counts[h := Count(counts, h) - 1];
      }
    }
  }

  /** `PostThrew` is whatever the native post throws. */
  datatype Result = Ok | IllegalState | IllegalArgument | OutOfResources | PostThrew

  /** How an unlock ends: the checks in their order, then the post. */
  function UnlockResult(s: Fields, ownCanvas: bool, postThrows: bool): Result {
    if s.native == 0 then IllegalState
    else if !ownCanvas then IllegalArgument
    else if !s.hwui && s.locked == 0 then IllegalState
    else if postThrows then PostThrew
    else Ok
  }

  class Surface {
    const heap: NativeHeap
    var mNativeObject: Handle
    var mLockedObject: Handle
    var mGenerationId: int
    var mCloseGuardOpen: bool
    var mHwuiContext: bool

    ghost function State(): Fields
      reads this
    {
      Fields(mNativeObject, mLockedObject, mGenerationId, mCloseGuardOpen, mHwuiContext)
    }

    ghost predicate Valid()
      reads this, heap
    {
      Backed(State(), heap.counts)
    }

    constructor (heap: NativeHeap)
      ensures this.heap == heap && State() == NEW_FIELDS
    {
      this.heap := heap;
      mNativeObject, mLockedObject, mGenerationId := 0, 0, 0;
      mCloseGuardOpen, mHwuiContext := false, false;
    }

    method SetNativeObjectLocked(ptr: Handle)
      modifies this
      ensures State() == SetNative(old(State()), ptr)
    {
      if mNativeObject != ptr {
        if mNativeObject == 0 && ptr != 0 {
          mCloseGuardOpen := true;
        } else if mNativeObject != 0 && ptr == 0 {
          mCloseGuardOpen := false;
        }
        mNativeObject := ptr;
        mGenerationId := WrapInt(mGenerationId + 1);
      }
    }

    method Release()
      requires Valid()
      modifies this, heap
      ensures (State(), heap.counts) == ReleaseSpec(old(State()), old(heap.counts))
      ensures mNativeObject == 0 && !mHwuiContext && mLockedObject == old(mLockedObject)
    {
      assert Refs(State(), mNativeObject) >= 1 || mNativeObject == 0;
      mHwuiContext := false;
      if mNativeObject != 0 {
        heap.NativeRelease(mNativeObject);
        SetNativeObjectLocked(0);
      }
    }

    method LockCanvas(nativeThrows: bool) returns (r: Result)
      requires Valid()
      modifies this, heap
      ensures (State(), heap.counts) == LockSpec(old(State()), old(heap.counts), nativeThrows)
      ensures r == if old(mNativeObject) == 0 then IllegalState else if old(mLockedObject) != 0 then IllegalArgument
                   else if nativeThrows then OutOfResources else Ok
      ensures r == Ok ==> old(mLockedObject) == 0 && mLockedObject == old(mNativeObject) != 0
      ensures r != Ok ==> State() == old(State())
      ensures old(mLockedObject) != 0 ==> r != Ok
    {
      if mNativeObject == 0 {
        return IllegalState;
      }
      if mLockedObject != 0 {
        return IllegalArgument;
      }
      if nativeThrows {
        return OutOfResources;
      }
      heap.Acquire(mNativeObject);
      mLockedObject := mNativeObject;
      return Ok;
    }

    /** `ownCanvas` says that the canvas is the one the lock in use returned, `postThrows` that posting fails.
        A hardware context keeps the Surface out of the unlock. */
    method UnlockCanvasAndPost(ownCanvas: bool, postThrows: bool) returns (r: Result)
      requires Valid()
      modifies this, heap
      ensures (State(), heap.counts) == UnlockSpec(old(State()), old(heap.counts), ownCanvas)
      ensures r == UnlockResult(old(State()), ownCanvas, postThrows)
      ensures r in {Ok, PostThrew} && !old(mHwuiContext) ==> mLockedObject == 0
    {
      if mNativeObject == 0 {
        return IllegalState;
      }
      if mHwuiContext {
        return if !ownCanvas then IllegalArgument else if postThrows then PostThrew else Ok;
      }
      r := UnlockSwCanvasAndPost(ownCanvas, postThrows);
    }

    /** The post is in a `try` whose `finally` drops the reference: whether it throws decides the result, and
        nothing else. */
    method UnlockSwCanvasAndPost(ownCanvas: bool, postThrows: bool) returns (r: Result)
      requires Valid() && mNativeObject != 0 && !mHwuiContext
      modifies this, heap
      ensures (State(), heap.counts) == UnlockSpec(old(State()), old(heap.counts), ownCanvas)
      ensures r == UnlockResult(old(State()), ownCanvas, postThrows)
      ensures r in {Ok, PostThrew} <==> old(mLockedObject) != 0 && ownCanvas
      ensures r in {Ok, PostThrew} ==> mLockedObject == 0 && heap.counts == Dec(old(heap.counts), old(mLockedObject))
    {
      if !ownCanvas {
        return IllegalArgument;
      }
      if mLockedObject == 0 {
        return IllegalState;
      }
      assert Refs(State(), mLockedObject) >= 1;
      r := if postThrows then PostThrew else Ok;
      heap.NativeRelease(mLockedObject);
      mLockedObject := 0;
    }

    method LockHardwareCanvas() returns (r: Result)
      modifies this
      ensures State() == if old(mNativeObject) == 0 then old(State()) else old(State()).(hwui := true)
      ensures r == if old(mNativeObject) == 0 then IllegalState else Ok
    {
      if mNativeObject == 0 {
        return IllegalState;
      }
      mHwuiContext := true;
      return Ok;
    }

    /** The reference the native took for `newNativeObject` is the caller's, unless it is the old object. */
    method UpdateNativeObject(newNativeObject: Handle)
      requires mNativeObject == 0 || mNativeObject == newNativeObject || Count(heap.counts, mNativeObject) > 0
      modifies this, heap
      ensures State() == SetNative(old(State()), newNativeObject)
      ensures heap.counts == if newNativeObject == old(mNativeObject) then old(heap.counts)
                             else Dec(old(heap.counts), old(mNativeObject))
    {
      if newNativeObject == mNativeObject {
        return;
      }
      if mNativeObject != 0 {
        heap.NativeRelease(mNativeObject);
      }
      SetNativeObjectLocked(newNativeObject);
    }

    method CopyFrom(sourceIsNull: bool, result: Handle) returns (r: Result)
      requires Valid()
      modifies this, heap
      ensures sourceIsNull ==> State() == old(State()) && heap.counts == old(heap.counts)
      ensures !sourceIsNull ==> (State(), heap.counts) == CopyFromSpec(old(State()), old(heap.counts), result)
      ensures !sourceIsNull ==> mNativeObject == result && mLockedObject == old(mLockedObject)
      ensures r == if sourceIsNull then IllegalArgument else Ok
    {
      if sourceIsNull {
        return IllegalArgument;
      }
      assert Refs(State(), mNativeObject) >= 1 || mNativeObject == 0;
      if result != mNativeObject {
        heap.Acquire(result);
      }
      UpdateNativeObject(result);
      return Ok;
    }

    method CreateFrom(sourceIsNull: bool, result: Handle) returns (r: Result)
      requires Valid()
      modifies this, heap
      ensures sourceIsNull ==> State() == old(State()) && heap.counts == old(heap.counts)
      ensures !sourceIsNull ==> (State(), heap.counts) == CreateFromSpec(old(State()), old(heap.counts), result)
      ensures !sourceIsNull ==> mNativeObject == result && mLockedObject == old(mLockedObject)
      ensures r == if sourceIsNull then IllegalArgument else Ok
    {
      if sourceIsNull {
        return IllegalArgument;
      }
      assert Refs(State(), mNativeObject) >= 1 || mNativeObject == 0;
      heap.Acquire(result);
      if mNativeObject != 0 {
        heap.NativeRelease(mNativeObject);
      }
      SetNativeObjectLocked(result);
      return Ok;
    }

    /** Two critical sections: the pointer leaves `other` before it reaches this Surface. */
    method TransferFrom(other: Surface)
      requires other.heap == heap && Valid() && other.Valid()
      modifies this, other, heap
      ensures other == this ==> State() == old(State()) && heap.counts == old(heap.counts)
      ensures other != this ==>
                && other.State() == SetNative(old(other.State()), 0)
                && (State(), heap.counts) == TransferInSpec(old(State()), old(heap.counts), old(other.mNativeObject))
                && mNativeObject == old(other.mNativeObject) && other.mNativeObject == 0
                && mLockedObject == old(mLockedObject) && other.mLockedObject == old(other.mLockedObject)
    {
      if other != this {
        assert Refs(State(), mNativeObject) >= 1 || mNativeObject == 0;
        var newPtr := other.mNativeObject;
        other.SetNativeObjectLocked(0);
        if mNativeObject != 0 {
          heap.NativeRelease(mNativeObject);
        }
        SetNativeObjectLocked(newPtr);
      }
    }

    method ReadFromParcel(result: Handle)
      requires Valid()
      modifies this, heap
      ensures (State(), heap.counts) == ReadParcelSpec(old(State()), old(heap.counts), result)
      ensures mNativeObject == result && mLockedObject == old(mLockedObject)
    {
      assert Refs(State(), mNativeObject) >= 1 || mNativeObject == 0;
      if result != mNativeObject {
        heap.NativeRelease(mNativeObject);
        heap.Acquire(result);
      }
      SetNativeObjectLocked(result);
    }
  }

  // ----- A family of Surfaces -----

  /** All Surfaces ever created, the references that calls hold outside the lock (of `transferFrom` between
      its two critical sections, of `copyFrom` and `createFrom` behind their natives; 0 for none), and the
      native reference counts. */
  datatype World = World(surfaces: seq<Fields>, inFlight: seq<Handle>, counts: Counts)

  const EMPTY_WORLD := World([], [], map[])

  datatype Op =
    | Create(result: Handle)            // a constructor that receives a native reference
    | Release(i: nat)                   // also finalize, destroy and a parcel write that returns the value
    | Lock(i: nat, nativeThrows: bool)
    | Unlock(i: nat, ownCanvas: bool)
    | LockHardware(i: nat)
    | CopyFrom(i: nat, result: Handle)
    | CreateFrom(i: nat, result: Handle)
    | CreateStart(result: Handle)       // the native of createFrom; TransferIn is its critical section
    | CopyStart(i: nat, result: Handle)
    | CopyFinish(i: nat, k: nat, result: Handle)
    | TransferOut(i: nat)
    | TransferIn(i: nat, k: nat)
    | ReadParcel(i: nat, result: Handle)

  predicate Enabled(w: World, op: Op) {
    match op
    case Create(_) => true
    case CreateStart(_) => true
    case CopyFinish(i, k, h) => i < |w.surfaces| && k < |w.inFlight| && w.inFlight[k] in {0, h}
    case TransferIn(i, k) => i < |w.surfaces| && k < |w.inFlight|
    case _ => op.i < |w.surfaces|
  }

  function Put(w: World, i: nat, o: Outcome): World
    requires i < |w.surfaces|
  {
    World(w.surfaces[i := o.0], w.inFlight, o.1)
  }

  ghost predicate AllBacked(w: World) {
    forall i :: 0 <= i < |w.surfaces| ==> Backed(w.surfaces[i], w.counts)
  }

  function Apply(w: World, op: Op): World
    requires Enabled(w, op) && AllBacked(w)
  {
    match op
    case Create(h) => World(w.surfaces + [SetNative(NEW_FIELDS, h)], w.inFlight, Inc(w.counts, h))
    case Release(i) => Put(w, i, ReleaseSpec(w.surfaces[i], w.counts))
    case Lock(i, throws) => Put(w, i, LockSpec(w.surfaces[i], w.counts, throws))
    case Unlock(i, own) => Put(w, i, UnlockSpec(w.surfaces[i], w.counts, own))
    case LockHardware(i) =>
      if w.surfaces[i].native == 0 then w else Put(w, i, (w.surfaces[i].(hwui := true), w.counts))
    case CopyFrom(i, h) => Put(w, i, CopyFromSpec(w.surfaces[i], w.counts, h))
    case CreateFrom(i, h) => Put(w, i, CreateFromSpec(w.surfaces[i], w.counts, h))
    case CreateStart(h) => World(w.surfaces, w.inFlight + [h], Inc(w.counts, h))
    case CopyStart(i, h) =>
      var s := w.surfaces[i];
      World(w.surfaces, w.inFlight + [if h == s.native then 0 else h], AfterGetFrom(s, w.counts, h))
    case CopyFinish(i, k, h) =>
      var o := UpdateSpec(w.surfaces[i], w.counts, h);
      World(w.surfaces[i := o.0], w.inFlight[..k] + w.inFlight[k + 1..], o.1)
    case TransferOut(i) =>
      World(w.surfaces[i := SetNative(w.surfaces[i], 0)], w.inFlight + [w.surfaces[i].native], w.counts)
    case TransferIn(i, k) =>
      var o := TransferInSpec(w.surfaces[i], w.counts, w.inFlight[k]);
      World(w.surfaces[i := o.0], w.inFlight[..k] + w.inFlight[k + 1..], o.1)
    case ReadParcel(i, h) => Put(w, i, ReadParcelSpec(w.surfaces[i], w.counts, h))
  }

  function SurfaceRefs(surfaces: seq<Fields>, h: Handle): nat {
    if surfaces == [] then 0 else SurfaceRefs(surfaces[..|surfaces| - 1], h) + Refs(surfaces[|surfaces| - 1], h)
  }

  function FlightRefs(inFlight: seq<Handle>, h: Handle): nat {
    if h == 0 then 0 else multiset(inFlight)[h]
  }

  function AllRefs(w: World, h: Handle): nat {
    SurfaceRefs(w.surfaces, h) + FlightRefs(w.inFlight, h)
  }

  /** Each native object's count is the number of fields (and transfers under way) naming it. */
  ghost predicate Conserved(w: World) {
    forall h :: h != 0 ==> Count(w.counts, h) == AllRefs(w, h)
  }

  lemma {:induction false} RefsOfUpdate(surfaces: seq<Fields>, i: nat, s: Fields, h: Handle)
    requires i < |surfaces|
    ensures SurfaceRefs(surfaces[i := s], h) == SurfaceRefs(surfaces, h) - Refs(surfaces[i], h) + Refs(s, h)
    ensures Refs(surfaces[i], h) <= SurfaceRefs(surfaces, h)
  {
    var n := |surfaces| - 1;
    if i == n {
      assert surfaces[i := s][..n] == surfaces[..n];
    } else {
      assert surfaces[i := s][..n] == surfaces[..n][i := s];
      RefsOfUpdate(surfaces[..n], i, s, h);
    }
  }

  /** In a conserved family every Surface's references are counted, which is what each method needs. */
  lemma ConservedBacks(w: World)
    requires Conserved(w)
    ensures AllBacked(w)
  {
    forall i, h | 0 <= i < |w.surfaces| ensures Refs(w.surfaces[i], h) <= Count(w.counts, h) {
      RefsOfUpdate(w.surfaces, i, w.surfaces[i], h);
    }
  }

  /** Every method moves one Surface's references and the counts by the same amount, object by object. */
  lemma MethodsBalance(s: Fields, c: Counts, op: Op, h: Handle)
    requires Backed(s, c) && h != 0
    requires op.Release? || op.Lock? || op.Unlock? || op.CopyFrom? || op.CreateFrom? || op.ReadParcel?
    ensures var o := (match op
              case Release(_) => ReleaseSpec(s, c)
              case Lock(_, throws) => LockSpec(s, c, throws)
              case Unlock(_, own) => UnlockSpec(s, c, own)
              case CopyFrom(_, r) => CopyFromSpec(s, c, r)
              case CreateFrom(_, r) => CreateFromSpec(s, c, r)
              case ReadParcel(_, r) => ReadParcelSpec(s, c, r));
            Count(o.1, h) - Count(c, h) == Refs(o.0, h) - Refs(s, h)
  {
    hide WrapInt;
    assert Refs(s, s.native) <= Count(c, s.native);
    assert Refs(s, s.locked) <= Count(c, s.locked);
  }

  lemma PutConserves(w: World, i: nat, o: Outcome)
    requires Conserved(w) && i < |w.surfaces|
    requires forall h :: h != 0 ==> Count(o.1, h) - Count(w.counts, h) == Refs(o.0, h) - Refs(w.surfaces[i], h)
    ensures Conserved(Put(w, i, o))
  {
    forall h | h != 0 ensures Count(o.1, h) == AllRefs(Put(w, i, o), h) {
      RefsOfUpdate(w.surfaces, i, o.0, h);
    }
  }

  lemma CreateConserves(w: World, h0: Handle)
    requires Conserved(w) && AllBacked(w)
    ensures Conserved(Apply(w, Create(h0)))
  {
    var v := Apply(w, Create(h0));
    assert v.surfaces[..|w.surfaces|] == w.surfaces;
    forall h | h != 0 ensures Count(v.counts, h) == AllRefs(v, h) {
      assert SurfaceRefs(v.surfaces, h) == SurfaceRefs(w.surfaces, h) + Refs(SetNative(NEW_FIELDS, h0), h);
    }
  }

  lemma TransferOutConserves(w: World, i: nat)
    requires Conserved(w) && AllBacked(w) && i < |w.surfaces|
    ensures Conserved(Apply(w, TransferOut(i)))
  {
    var v := Apply(w, TransferOut(i));
    forall h | h != 0 ensures Count(v.counts, h) == AllRefs(v, h) {
      RefsOfUpdate(w.surfaces, i, SetNative(w.surfaces[i], 0), h);
    }
  }

  lemma MethodConserves(w: World, op: Op)
    requires Conserved(w) && AllBacked(w) && Enabled(w, op)
    requires op.Release? || op.Lock? || op.Unlock? || op.CopyFrom? || op.CreateFrom? || op.ReadParcel?
    ensures Conserved(Apply(w, op))
  {
    var s, v := w.surfaces[op.i], Apply(w, op);
    forall h | h != 0 ensures Count(v.counts, h) - Count(w.counts, h) == Refs(v.surfaces[op.i], h) - Refs(s, h) {
      MethodsBalance(s, w.counts, op, h);
    }
    PutConserves(w, op.i, (v.surfaces[op.i], v.counts));
  }

  /** `updateNativeObject` keeps the handle or replaces it as the native did when it took a reference or not.
      Another thread that changed the handle in between can make the two differ. */
  predicate Undisturbed(w: World, op: Op)
    requires Enabled(w, op)
  {
    op.CopyFinish? ==>
      w.inFlight[op.k] == if op.result == w.surfaces[op.i].native then 0 else op.result
  }

  /** Every operation of the family keeps the references conserved, except for exactly the disturbed end of a
      `copyFrom`. */
  lemma StepConserves(w: World, op: Op)
    requires Conserved(w) && AllBacked(w) && Enabled(w, op)
    ensures Conserved(Apply(w, op)) <==> Undisturbed(w, op)
  {
    match op
    case Create(h) => CreateConserves(w, h);
    case CreateStart(h) => StartConserves(w, op);
    case CopyStart(i, h) => StartConserves(w, op);
    case CopyFinish(i, k, h) => CopyFinishExactly(w, i, k, h);
    case TransferOut(i) => TransferOutConserves(w, i);
    case TransferIn(i, k) => TransferInConserves(w, i, k);
    case LockHardware(i) =>
      if w.surfaces[i].native != 0 {
        PutConserves(w, i, (w.surfaces[i].(hwui := true), w.counts));
      }
    case _ => MethodConserves(w, op);
  }

  lemma StartConserves(w: World, op: Op)
    requires Conserved(w) && AllBacked(w) && Enabled(w, op) && (op.CreateStart? || op.CopyStart?)
    ensures Conserved(Apply(w, op))
  {
    var v := Apply(w, op);
    forall h | h != 0 ensures Count(v.counts, h) == AllRefs(v, h) {
      assert Count(w.counts, h) == AllRefs(w, h);
    }
  }

  /** What the end of a `copyFrom` does to the balance of one object. */
  lemma CopyFinishBalance(w: World, i: nat, k: nat, result: Handle, h: Handle)
    requires Conserved(w) && AllBacked(w) && Enabled(w, CopyFinish(i, k, result)) && h != 0
    ensures var v := Apply(w, CopyFinish(i, k, result));
            Count(v.counts, h) - AllRefs(v, h) ==
            (if h == w.inFlight[k] then 1 else 0) - (if h == result != w.surfaces[i].native then 1 else 0)
  {
    hide Conserved, SurfaceRefs;
    var s, owned := w.surfaces[i], w.inFlight[k];
    var v := Apply(w, CopyFinish(i, k, result));
    assert w.inFlight == w.inFlight[..k] + [owned] + w.inFlight[k + 1..];
    assert multiset(w.inFlight) == multiset(v.inFlight) + multiset{owned};
    assert s.native != 0 ==> Refs(s, s.native) <= Count(w.counts, s.native);
    RefsOfUpdate(w.surfaces, i, v.surfaces[i], h);
    CountIs(w, h);
  }

  lemma CountIs(w: World, h: Handle)
    requires Conserved(w) && h != 0
    ensures Count(w.counts, h) == AllRefs(w, h)
  {
  }

  lemma CopyFinishExactly(w: World, i: nat, k: nat, result: Handle)
    requires Conserved(w) && AllBacked(w) && Enabled(w, CopyFinish(i, k, result))
    ensures Conserved(Apply(w, CopyFinish(i, k, result))) <==> Undisturbed(w, CopyFinish(i, k, result))
  {
    hide Apply, AllRefs, AllBacked;
    forall h | h != 0
      ensures var v := Apply(w, CopyFinish(i, k, result));
              Count(v.counts, h) - AllRefs(v, h) ==
              (if h == w.inFlight[k] then 1 else 0) - (if h == result != w.surfaces[i].native then 1 else 0)
    {
      CopyFinishBalance(w, i, k, result, h);
    }
    var v := Apply(w, CopyFinish(i, k, result));
    if Conserved(v) && result != 0 {
      CountIs(v, result);
      CopyFinishBalance(w, i, k, result, result);
    }
  }

  /** With nothing in between, the two halves of `copyFrom` are the whole method. */
  lemma CopyAlone(w: World, i: nat, result: Handle)
    requires Conserved(w) && AllBacked(w) && i < |w.surfaces|
    ensures var v := Apply(w, CopyStart(i, result));
            AllBacked(v) && Apply(v, CopyFinish(i, |w.inFlight|, result)) == Apply(w, CopyFrom(i, result))
  {
    hide Conserved, Backed, SetNative, Dec, Inc;
    var v := Apply(w, CopyStart(i, result));
    StartConserves(w, CopyStart(i, result));
    ConservedBacks(v);
    PushPop(w.inFlight, if result == w.surfaces[i].native then 0 else result);
  }

  /** So are those of `createFrom`. */
  lemma CreateAlone(w: World, i: nat, result: Handle)
    requires Conserved(w) && AllBacked(w) && i < |w.surfaces|
    ensures var v := Apply(w, CreateStart(result));
            AllBacked(v) && Apply(v, TransferIn(i, |w.inFlight|)) == Apply(w, CreateFrom(i, result))
  {
    hide Conserved, Backed, SetNative, Dec, Inc;
    var v := Apply(w, CreateStart(result));
    StartConserves(w, CreateStart(result));
    ConservedBacks(v);
    PushPop(w.inFlight, result);
  }

  lemma PushPop(s: seq<Handle>, h: Handle)
    ensures (s + [h])[..|s|] + (s + [h])[|s| + 1..] == s
  {
  }

  lemma TransferInConserves(w: World, i: nat, k: nat)
    requires Conserved(w) && AllBacked(w) && i < |w.surfaces| && k < |w.inFlight|
    ensures Conserved(Apply(w, TransferIn(i, k)))
  {
    hide WrapInt;
    var s, ptr := w.surfaces[i], w.inFlight[k];
    var v := Apply(w, TransferIn(i, k));
    assert w.inFlight == w.inFlight[..k] + [ptr] + w.inFlight[k + 1..];
    assert multiset(w.inFlight) == multiset(v.inFlight) + multiset{ptr};
    assert s.native != 0 ==> Refs(s, s.native) <= Count(w.counts, s.native);
    forall h | h != 0 ensures Count(v.counts, h) == AllRefs(v, h) {
      RefsOfUpdate(w.surfaces, i, v.surfaces[i], h);
    }
  }

  // ----- Runs -----

  ghost predicate RunStep(run: seq<World>, ops: seq<Op>, k: nat)
    requires |run| == |ops| + 1 && k < |ops|
  {
    Enabled(run[k], ops[k]) && AllBacked(run[k]) && run[k + 1] == Apply(run[k], ops[k])
  }

  /** `run` is the family after each prefix of `ops`, starting from no Surface at all. */
  ghost predicate IsRun(run: seq<World>, ops: seq<Op>) {
    && |run| == |ops| + 1
    && run[0] == EMPTY_WORLD
    && forall k :: 0 <= k < |ops| ==> RunStep(run, ops, k)
  }

  /** In the first `n` operations no end of a `copyFrom` is disturbed. */
  ghost predicate NoneDisturbed(run: seq<World>, ops: seq<Op>, n: nat)
    requires IsRun(run, ops) && n <= |ops|
  {
    forall k :: 0 <= k < n ==> RunStep(run, ops, k) && Undisturbed(run[k], ops[k])
  }

  lemma {:induction false} RunConserves(run: seq<World>, ops: seq<Op>, k: nat)
    requires IsRun(run, ops) && k <= |ops| && NoneDisturbed(run, ops, k)
    ensures Conserved(run[k])
  {
    if k > 0 {
      RunConserves(run, ops, k - 1);
      assert RunStep(run, ops, k - 1);
      StepConserves(run[k - 1], ops[k - 1]);
    }
  }

  /** As long as no `copyFrom` is disturbed, each count is the number of fields and calls naming the object; so
      no method ever lacks the reference it drops, and an object's count is zero only when nothing names it. */
  lemma ReferenceConservation(run: seq<World>, ops: seq<Op>, k: nat, h: Handle)
    requires IsRun(run, ops) && k <= |ops| && h != 0 && NoneDisturbed(run, ops, k)
    ensures Count(run[k].counts, h) == AllRefs(run[k], h)
    ensures AllBacked(run[k])
    ensures Count(run[k].counts, h) == 0 ==>
              h !in run[k].inFlight &&
              forall i :: 0 <= i < |run[k].surfaces| ==>
                run[k].surfaces[i].native != h && run[k].surfaces[i].locked != h
  {
    RunConserves(run, ops, k);
    ConservedBacks(run[k]);
    if Count(run[k].counts, h) == 0 {
      forall i | 0 <= i < |run[k].surfaces| ensures Refs(run[k].surfaces[i], h) == 0 {
        RefsOfUpdate(run[k].surfaces, i, run[k].surfaces[i], h);
      }
    }
  }

  ghost predicate AllConserved(run: seq<World>) { forall k :: 0 <= k < |run| ==> Conserved(run[k]) }

  /** A run conserves references throughout exactly when no `copyFrom` in it is disturbed. */
  lemma {:induction false} ConservedExactly(run: seq<World>, ops: seq<Op>)
    requires IsRun(run, ops)
    ensures AllConserved(run) <==> NoneDisturbed(run, ops, |ops|)
  {
    if AllConserved(run) {
      forall k | 0 <= k < |ops| ensures RunStep(run, ops, k) && Undisturbed(run[k], ops[k]) {
        assert Conserved(run[k]) && Conserved(run[k + 1]);
        assert RunStep(run, ops, k);
        StepConserves(run[k], ops[k]);
      }
    }
    if NoneDisturbed(run, ops, |ops|) {
      forall k | 0 <= k < |run| ensures Conserved(run[k]) {
        RunConserves(run, ops, k);
      }
    }
  }

  lemma OneBacked(w: World)
    requires |w.surfaces| == 1 && w.surfaces[0].locked == 0
    requires w.surfaces[0].native != 0 ==> Count(w.counts, w.surfaces[0].native) > 0
    ensures AllBacked(w)
  {
  }

  const HELD := Fields(1, 0, 1, true, false)
  const FREED := Fields(0, 0, 2, false, false)
  const DANGLING := Fields(1, 0, 3, true, false)

  ghost predicate Leads(w: World, op: Op, v: World) { Enabled(w, op) && AllBacked(w) && v == Apply(w, op) }

  lemma CopyDisturbedStart()
    ensures Leads(EMPTY_WORLD, Create(1), World([HELD], [], map[1 := 1]))
    ensures Leads(World([HELD], [], map[1 := 1]), CopyStart(0, 1), World([HELD], [0], map[1 := 1]))
  {
    OneBacked(World([HELD], [], map[1 := 1]));
  }

  lemma CopyDisturbedEnd()
    ensures Leads(World([HELD], [0], map[1 := 1]), Release(0), World([FREED], [0], map[1 := 0]))
    ensures Leads(World([FREED], [0], map[1 := 0]), CopyFinish(0, 0, 1), World([DANGLING], [], map[1 := 0]))
  {
    OneBacked(World([HELD], [0], map[1 := 1]));
    OneBacked(World([FREED], [0], map[1 := 0]));
  }

  /** While a `copyFrom` that was given its own object back is on its way to the lock, another thread releases
      the Surface: it ends with a handle that nothing counts. */
  lemma CopyDisturbed() returns (run: seq<World>, ops: seq<Op>)
    ensures IsRun(run, ops) && ops == [Create(1), CopyStart(0, 1), Release(0), CopyFinish(0, 0, 1)]
    ensures |run[4].surfaces| == 1 && run[4].surfaces[0].native == 1 && Count(run[4].counts, 1) == 0
  {
    hide AllBacked, Apply;
    ops := [Create(1), CopyStart(0, 1), Release(0), CopyFinish(0, 0, 1)];
    run := [EMPTY_WORLD, World([HELD], [], map[1 := 1]), World([HELD], [0], map[1 := 1]),
            World([FREED], [0], map[1 := 0]), World([DANGLING], [], map[1 := 0])];
    CopyDisturbedStart();
    CopyDisturbedEnd();
    forall k | 0 <= k < 4 ensures RunStep(run, ops, k) {
      assert Leads(run[k], ops[k], run[k + 1]);
    }
  }

  /** A run never gets stuck for want of a reference: any operation on existing Surfaces extends it. */
  lemma RunExtends(run: seq<World>, ops: seq<Op>, op: Op)
    requires IsRun(run, ops) && Enabled(run[|ops|], op) && NoneDisturbed(run, ops, |ops|)
    ensures AllBacked(run[|ops|])
    ensures IsRun(run + [Apply(run[|ops|], op)], ops + [op])
  {
    hide Apply, AllBacked, Conserved, Enabled;
    RunConserves(run, ops, |ops|);
    ConservedBacks(run[|ops|]);
    var run', ops' := run + [Apply(run[|ops|], op)], ops + [op];
    forall k | 0 <= k < |ops'| ensures RunStep(run', ops', k) {
      if k < |ops| {
        assert RunStep(run, ops, k);
      }
    }
  }

  // ----- Handles over runs -----

  predicate GuardMatches(s: Fields) { s.guardOpen <==> s.native != 0 }

  /** One operation on surface `i`: its fields before and after. */
  lemma StepOnSurface(w: World, op: Op, i: nat)
    requires AllBacked(w) && Enabled(w, op) && i < |w.surfaces|
    ensures var s, t := w.surfaces[i], Apply(w, op).surfaces[i];
            && t.generation == (if t.native != s.native then WrapInt(s.generation + 1) else s.generation)
            && (GuardMatches(s) ==> GuardMatches(t))
            && (t.locked == s.locked
                || (s.locked == 0 && op.Lock? && op.i == i && t.locked == s.native)
                || (op.Unlock? && op.i == i && t.locked == 0
                    && Apply(w, op).counts == Dec(w.counts, s.locked)))
  {
    hide WrapInt;
  }

  // ----- Which handle a Surface ends with -----

  /** The handle that an operation on a Surface leaves there; None when it leaves the one there was. */
  function HandleLeft(w: World, op: Op): Option<Handle>
    requires Enabled(w, op)
  {
    match op
    case Create(h) => Some(h)
    case Release(_) => Some(0)
    case CopyFrom(_, h) => Some(h)
    case CreateFrom(_, h) => Some(h)
    case CopyFinish(_, _, h) => Some(h)
    case ReadParcel(_, h) => Some(h)
    case TransferOut(_) => Some(0)
    case TransferIn(_, k) => Some(w.inFlight[k])
    case _ => None
  }

  /** The Surface an operation is on; a new one for `Create`. */
  function Target(w: World, op: Op): Option<nat> {
    match op
    case Create(_) => Some(|w.surfaces|)
    case CreateStart(_) => None
    case CopyStart(_, _) => None
    case _ => Some(op.i)
  }

  /** Each operation leaves its handle on its own Surface, and every other Surface as it was. */
  lemma StepLeavesHandle(w: World, op: Op, i: nat)
    requires AllBacked(w) && Enabled(w, op) && i < |Apply(w, op).surfaces|
    ensures i < |w.surfaces| || op.Create?
    ensures Target(w, op) == Some(i) && HandleLeft(w, op).Some? ==>
              Apply(w, op).surfaces[i].native == HandleLeft(w, op).value
    ensures Target(w, op) == Some(i) && HandleLeft(w, op) == None ==>
              i < |w.surfaces| && Apply(w, op).surfaces[i].native == w.surfaces[i].native
    ensures Target(w, op) != Some(i) ==> i < |w.surfaces| && Apply(w, op).surfaces[i] == w.surfaces[i]
  {
    hide Backed, WrapInt, Dec, Inc;
  }

  /** The reference in flight that an operation brings to its Surface. */
  predicate Takes(op: Op, k: nat) { (op.TransferIn? || op.CopyFinish?) && op.k == k }

  /** Where the reference in flight at `p` is after an operation that does not take it. */
  function Moved(op: Op, p: nat): nat {
    if (op.TransferIn? || op.CopyFinish?) && op.k < p then p - 1 else p
  }

  /** Where it is after the operations `from` to `to`. */
  function PlaceOf(ops: seq<Op>, from: nat, to: nat, p: nat): nat
    requires from <= to <= |ops|
  {
    if from == to then p else Moved(ops[to - 1], PlaceOf(ops, from, to - 1, p))
  }

  /** None of the operations `from` to `to` takes it. */
  predicate NotTaken(ops: seq<Op>, from: nat, to: nat, p: nat)
    requires from <= to <= |ops|
  {
    forall k :: from <= k < to ==> !Takes(ops[k], PlaceOf(ops, from, k, p))
  }

  lemma StepKeepsFlight(w: World, op: Op, p: nat)
    requires AllBacked(w) && Enabled(w, op) && p < |w.inFlight| && !Takes(op, p)
    ensures Moved(op, p) < |Apply(w, op).inFlight| && Apply(w, op).inFlight[Moved(op, p)] == w.inFlight[p]
  {
    hide Backed, WrapInt, Dec, Inc, AllBacked, SetNative;
  }

  /** A reference in flight stays there, whatever else happens, until it is taken. */
  lemma {:induction false} StaysInFlight(run: seq<World>, ops: seq<Op>, from: nat, to: nat, p: nat)
    requires IsRun(run, ops) && from <= to <= |ops| && p < |run[from].inFlight| && NotTaken(ops, from, to, p)
    ensures PlaceOf(ops, from, to, p) < |run[to].inFlight|
    ensures run[to].inFlight[PlaceOf(ops, from, to, p)] == run[from].inFlight[p]
  {
    hide AllBacked, Apply, Takes, Moved, Enabled;
    if from < to {
      assert !Takes(ops[to - 1], PlaceOf(ops, from, to - 1, p));
      StaysInFlight(run, ops, from, to - 1, p);
      assert RunStep(run, ops, to - 1);
      StepKeepsFlight(run[to - 1], ops[to - 1], PlaceOf(ops, from, to - 1, p));
    }
  }

  /** `transferFrom` in two critical sections, with anything in between: the giving Surface is left without a
      handle, and the receiving one ends with the handle that the giving one had. */
  lemma TransferArrives(run: seq<World>, ops: seq<Op>, giving: nat, receiving: nat, i: nat, j: nat, k: nat)
    requires IsRun(run, ops) && giving < receiving < |ops| && ops[giving] == TransferOut(i)
    requires ops[receiving] == TransferIn(j, k)
    requires NotTaken(ops, giving + 1, receiving, |run[giving].inFlight|)
    requires k == PlaceOf(ops, giving + 1, receiving, |run[giving].inFlight|)
    ensures i < |run[giving].surfaces| && i < |run[giving + 1].surfaces| && j < |run[receiving + 1].surfaces|
    ensures run[giving + 1].surfaces[i].native == 0
    ensures run[receiving + 1].surfaces[j].native == run[giving].surfaces[i].native
  {
    hide Backed, WrapInt, Dec, Inc, AllBacked, TransferInSpec;
    assert RunStep(run, ops, giving);
    StaysInFlight(run, ops, giving + 1, receiving, |run[giving].inFlight|);
    assert RunStep(run, ops, receiving);
    StepLeavesHandle(run[giving], ops[giving], i);
    StepLeavesHandle(run[receiving], ops[receiving], j);
  }

  /** `createFrom` likewise ends with the object that its native made. */
  lemma CreatedArrives(run: seq<World>, ops: seq<Op>, made: nat, receiving: nat, h: Handle, j: nat, k: nat)
    requires IsRun(run, ops) && made < receiving < |ops| && ops[made] == CreateStart(h)
    requires ops[receiving] == TransferIn(j, k)
    requires NotTaken(ops, made + 1, receiving, |run[made].inFlight|)
    requires k == PlaceOf(ops, made + 1, receiving, |run[made].inFlight|)
    ensures j < |run[receiving + 1].surfaces| && run[receiving + 1].surfaces[j].native == h
  {
    hide Backed, WrapInt, Dec, Inc, AllBacked, TransferInSpec;
    assert RunStep(run, ops, made);
    StaysInFlight(run, ops, made + 1, receiving, |run[made].inFlight|);
    assert RunStep(run, ops, receiving);
    StepLeavesHandle(run[receiving], ops[receiving], j);
  }

  /** The fields of surface `i` through a stretch of the run. */
  function History(run: seq<World>, from: nat, to: nat, i: nat): (r: seq<Fields>)
    requires from <= to < |run|
    requires forall k :: from <= k <= to ==> i < |run[k].surfaces|
    ensures |r| == to - from + 1
    ensures forall k :: from <= k <= to ==> r[k - from] == run[k].surfaces[i]
  {
    seq(to - from + 1, k requires 0 <= k <= to - from => run[from + k].surfaces[i])
  }

  function HandleChanges(hist: seq<Fields>): nat {
    if |hist| <= 1 then 0
    else HandleChanges(hist[..|hist| - 1]) + (if hist[|hist| - 1].native != hist[|hist| - 2].native then 1 else 0)
  }

  lemma {:induction false} SurfacesPersist(run: seq<World>, ops: seq<Op>, from: nat, to: nat)
    requires IsRun(run, ops) && from <= to <= |ops|
    ensures forall k :: from <= k <= to ==> |run[from].surfaces| <= |run[k].surfaces|
  {
    if from < to {
      SurfacesPersist(run, ops, from, to - 1);
      assert RunStep(run, ops, to - 1);
    }
  }

  /** Wrapping early or late makes no difference. */
  lemma WrapOfWrap(a: int, n: int)
    ensures WrapInt(WrapInt(a) + n) == WrapInt(a + n)
  {
    var m := 0x1_0000_0000;
    var x := a + 0x8000_0000;
    assert x == x / m * m + x % m;
    assert (x % m + n) % m == (x + n) % m by {
      assert x + n == (x % m + n) + x / m * m;
    }
  }

  lemma WrapSucc(g: int, base: int, n: int)
    requires WrapInt(g) == WrapInt(base + n)
    ensures WrapInt(WrapInt(g + 1)) == WrapInt(base + (n + 1))
  {
    WrapOfWrap(g + 1, 0);
    WrapOfWrap(g, 1);
    WrapOfWrap(base + n, 1);
  }

  predicate CountsChange(s: Fields, t: Fields) {
    t.generation == if t.native != s.native then WrapInt(s.generation + 1) else s.generation
  }

  lemma {:induction false} CountChanges(hist: seq<Fields>)
    requires |hist| > 0
    requires forall k :: 0 < k < |hist| ==> CountsChange(hist[k - 1], hist[k])
    ensures WrapInt(hist[|hist| - 1].generation) == WrapInt(hist[0].generation + HandleChanges(hist))
  {
    if |hist| > 1 {
      var init := hist[..|hist| - 1];
      CountChanges(init);
      assert CountsChange(hist[|hist| - 2], hist[|hist| - 1]);
      WrapSucc(init[|init| - 1].generation, hist[0].generation, HandleChanges(init));
    }
  }

  lemma RunStepCounts(run: seq<World>, ops: seq<Op>, k: nat, i: nat)
    requires IsRun(run, ops) && k < |ops| && i < |run[k].surfaces|
    ensures i < |run[k + 1].surfaces| && CountsChange(run[k].surfaces[i], run[k + 1].surfaces[i])
  {
    assert RunStep(run, ops, k);
    StepOnSurface(run[k], ops[k], i);
  }

  /** The generation number counts exactly the changes of the handle, up to 32-bit wrap-around. */
  lemma GenerationCountsChanges(run: seq<World>, ops: seq<Op>, from: nat, to: nat, i: nat)
    requires IsRun(run, ops) && from <= to <= |ops| && i < |run[from].surfaces|
    ensures forall k :: from <= k <= to ==> i < |run[k].surfaces|
    ensures WrapInt(run[to].surfaces[i].generation) ==
            WrapInt(run[from].surfaces[i].generation + HandleChanges(History(run, from, to, i)))
  {
    SurfacesPersist(run, ops, from, to);
    var hist := History(run, from, to, i);
    forall k | 0 < k < |hist| ensures CountsChange(hist[k - 1], hist[k]) {
      assert hist[k] == run[from + k].surfaces[i] && hist[k - 1] == run[from + k - 1].surfaces[i];
      RunStepCounts(run, ops, from + k - 1, i);
    }
    CountChanges(hist);
    assert hist[to - from] == run[to].surfaces[i] && hist[0] == run[from].surfaces[i];
  }

  /** The close guard of every Surface is open exactly while it names a native object. */
  lemma {:induction false} GuardOpenExactly(run: seq<World>, ops: seq<Op>, k: nat, i: nat)
    requires IsRun(run, ops) && k <= |ops| && i < |run[k].surfaces|
    ensures GuardMatches(run[k].surfaces[i])
  {
    if k > 0 {
      var w := run[k - 1];
      assert RunStep(run, ops, k - 1);
      if i < |w.surfaces| {
        GuardOpenExactly(run, ops, k - 1, i);
        StepOnSurface(w, ops[k - 1], i);
      }
    }
  }

  predicate IsInt(n: int) { -0x8000_0000 <= n < 0x8000_0000 }

  /** The generation number stays a 32-bit `int`. */
  lemma {:induction false} GenerationIsInt(run: seq<World>, ops: seq<Op>, k: nat, i: nat)
    requires IsRun(run, ops) && k <= |ops| && i < |run[k].surfaces|
    ensures IsInt(run[k].surfaces[i].generation)
  {
    if k > 0 {
      var w := run[k - 1];
      assert RunStep(run, ops, k - 1);
      if i < |w.surfaces| {
        GenerationIsInt(run, ops, k - 1, i);
        StepOnSurface(w, ops[k - 1], i);
      }
    }
  }

  predicate Unlocks(op: Op, i: nat) { op.Unlock? && op.i == i }

  /** A software lock stays what it was until it is unlocked, whatever happens to the handle meanwhile:
      no second lock can replace it. */
  lemma {:induction false} LockIsHeld(run: seq<World>, ops: seq<Op>, from: nat, to: nat, i: nat)
    requires IsRun(run, ops) && from <= to <= |ops| && i < |run[from].surfaces|
    requires run[from].surfaces[i].locked != 0
    requires forall k :: from <= k < to ==> !Unlocks(ops[k], i)
    ensures i < |run[to].surfaces| && run[to].surfaces[i].locked == run[from].surfaces[i].locked
  {
    SurfacesPersist(run, ops, from, to);
    if from < to {
      LockIsHeld(run, ops, from, to - 1, i);
      assert RunStep(run, ops, to - 1);
      StepOnSurface(run[to - 1], ops[to - 1], i);
    }
  }

  /** Lock, any other operations, unlock: the reference dropped is the one on the object that was
      locked, even when the handle has changed since; and the unlock goes through exactly when the
      Surface still has a handle and no hardware context. */
  lemma UnlockReleasesWhatWasLocked(run: seq<World>, ops: seq<Op>, lock: nat, unlock: nat, i: nat)
    requires IsRun(run, ops) && lock < unlock < |ops| && i < |run[lock].surfaces|
    requires ops[lock] == Lock(i, false) && ops[unlock] == Unlock(i, true)
    requires run[lock].surfaces[i].native != 0 && run[lock].surfaces[i].locked == 0
    requires forall k :: lock < k < unlock ==> !Unlocks(ops[k], i)
    ensures i < |run[unlock].surfaces| && i < |run[unlock + 1].surfaces|
    ensures var h, s := run[lock].surfaces[i].native, run[unlock].surfaces[i];
            && s.locked == h
            && Count(run[unlock].counts, h) > 0
            && (s.native != 0 && !s.hwui ==>
                  run[unlock + 1].surfaces[i].locked == 0 && run[unlock + 1].counts == Dec(run[unlock].counts, h))
            && (s.native == 0 || s.hwui ==> run[unlock + 1] == run[unlock])
  {
    var w := run[lock];
    var h := w.surfaces[i].native;
    assert RunStep(run, ops, lock);
    LockIsHeld(run, ops, lock + 1, unlock, i);
    assert RunStep(run, ops, unlock);
    assert Refs(run[unlock].surfaces[i], h) <= Count(run[unlock].counts, h);
  }
}
