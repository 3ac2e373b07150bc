/** `ElfReader`: reserving the address space, loading the segments and finding the header table. */
module ElfReader {
  import opened Basics
  import opened Paging
  import opened ProcessMemory
  import opened LoadExtent
  import opened SegmentLoader
  import opened SegmentImage
  import HeaderSearch
  import R = Reservation

  // ----- Carving a shared address space -----

  /** `address_space_params`: what is left of a reserved range, and whether it must be used. */
  datatype Params = Params(start: nat, reserved: nat, must: bool)

  datatype Carving = Carved(start: nat, left: Params) | OwnReservation | TooSmall

  /** What a load of `size` bytes does with the parameters. */
  function Carve(p: Params, size: nat): Carving {
    if size > p.reserved then (if p.must then TooSmall else OwnReservation)
    else Carved(p.start, Params(p.start + size, p.reserved - size, p.must))
  }

  /** The parameters after a run of loads. */
  function CarveAll(p: Params, sizes: seq<nat>): Params {
    if sizes == [] then p
    else
      var before := CarveAll(p, sizes[..|sizes| - 1]);
      var c := Carve(before, sizes[|sizes| - 1]);
      if c.Carved? then c.left else before
  }

  /** What load `i` of the run is given. */
  function CarvingOf(p: Params, sizes: seq<nat>, i: nat): Carving
    requires i < |sizes|
  {
    Carve(CarveAll(p, sizes[..i]), sizes[i])
  }

  /** The end of the range never moves; its start only moves up to it. */
  lemma {:induction false} CarvingKeepsEnd(p: Params, sizes: seq<nat>)
    ensures var q := CarveAll(p, sizes);
            q.start + q.reserved == p.start + p.reserved && p.start <= q.start && q.must == p.must
  {
    if sizes != [] {
      CarvingKeepsEnd(p, sizes[..|sizes| - 1]);
    }
  }

  /** Later loads find the start at or behind the end of what an earlier one was given. */
  lemma {:induction false} CarvedBefore(p: Params, sizes: seq<nat>, i: nat, j: nat)
    requires i < j <= |sizes| && CarvingOf(p, sizes, i).Carved?
    ensures CarvingOf(p, sizes, i).start + sizes[i] <= CarveAll(p, sizes[..j]).start
    decreases j
  {
    var init := sizes[..j];
    assert init[..j - 1] == sizes[..j - 1];
    if i < j - 1 {
      CarvedBefore(p, sizes, i, j - 1);
    }
  }

  /** Over any run of loads that share an address space, the ranges given out lie in the original one and
      no two overlap. */
  lemma {:induction false} CarvedRangesDisjoint(p: Params, sizes: seq<nat>, i: nat, j: nat)
    requires i < j < |sizes| && CarvingOf(p, sizes, i).Carved? && CarvingOf(p, sizes, j).Carved?
    ensures p.start <= CarvingOf(p, sizes, i).start
    ensures CarvingOf(p, sizes, i).start + sizes[i] <= CarvingOf(p, sizes, j).start
    ensures CarvingOf(p, sizes, j).start + sizes[j] <= p.start + p.reserved
  {
    CarvingKeepsEnd(p, sizes[..i]);
    CarvingKeepsEnd(p, sizes[..j]);
    CarvedBefore(p, sizes, i, j);
  }

  /** What is used up when every load in turn gets its size if it still fits. */
  function UsedUp(reserved: nat, sizes: seq<nat>): (r: nat)
    ensures r <= reserved
  {
    if sizes == [] then 0
    else
      var before, size := UsedUp(reserved, sizes[..|sizes| - 1]), sizes[|sizes| - 1];
      if before + size <= reserved then before + size else before
  }

  lemma {:induction false} CarvedInTurn(p: Params, sizes: seq<nat>)
    ensures var used := UsedUp(p.reserved, sizes);
            CarveAll(p, sizes) == Params(p.start + used, p.reserved - used, p.must)
  {
    if sizes != [] {
      CarvedInTurn(p, sizes[..|sizes| - 1]);
    }
  }

  /** Over any run of loads, each gets the next bytes of the shared range exactly when they still fit; one that
      does not fit is refused exactly when the shared range must be used. */
  lemma {:induction false} CarvedExactly(p: Params, sizes: seq<nat>, i: nat)
    requires i < |sizes|
    ensures var used, c := UsedUp(p.reserved, sizes[..i]), CarvingOf(p, sizes, i);
            && (c.Carved? <==> used + sizes[i] <= p.reserved)
            && (c.Carved? ==> c.start == p.start + used)
            && (c.TooSmall? <==> used + sizes[i] > p.reserved && p.must)
  {
    CarvedInTurn(p, sizes[..i]);
  }

  /** The parameters as the callers share them. */
  class AddressSpace {
    var startAddr: nat
    var reservedSize: nat
    const mustUse: bool

    constructor (start: nat, reserved: nat, must: bool)
      ensures Value() == Params(start, reserved, must)
    {
      startAddr, reservedSize, mustUse := start, reserved, must;
    }

    function Value(): Params
      reads this
    {
      Params(startAddr, reservedSize, mustUse)
    }
  }

  // ----- The reader -----

  const PMD_SIZE: nat := 0x20_0000

  datatype LoadResult = Done | Failed | Died

  /** Some loadable segment is aligned to exactly a huge page, and none to more. */
  predicate ForHugePages(phdrs: seq<Phdr>) {
    && (exists i :: 0 <= i < |phdrs| && Counts(phdrs[i]) && phdrs[i].align == PMD_SIZE)
    && forall i :: 0 <= i < |phdrs| && Counts(phdrs[i]) ==> phdrs[i].align <= PMD_SIZE
  }

  function StartAlign(phdrs: seq<Phdr>, hugePages: bool): (r: nat)
    ensures r == 4096 || r == PMD_SIZE
  {
    if hugePages && ForHugePages(phdrs) then PMD_SIZE else 4096
  }

  function BlockAlign(phdrs: seq<Phdr>, libraryAlignment: nat, hugePages: bool): nat {
    R.Max(libraryAlignment, StartAlign(phdrs, hugePages))
  }

  /** There is something to load, and the shared range or the kernel has a place for it. */
  predicate CanReserve(phdrs: seq<Phdr>, libraryAlignment: nat, hugePages: bool, space: Params, env: R.Environment)
    requires 4096 <= libraryAlignment <= R.GAP_ALIGNMENT
  {
    && LoadSize(phdrs) > 0
    && match Carve(space, LoadSize(phdrs))
       case Carved(_, _) => true
       case OwnReservation => R.Granted(env, LoadSize(phdrs), BlockAlign(phdrs, libraryAlignment, hugePages))
       case TooSmall => false
  }

  /** What a reservation leaves: a carved range is the start of the shared one and changes no memory; one of
      the library's own is as `ReserveWithAlignmentPadding` promises. */
  ghost predicate ReservedFor(before: Memory, reserved: Memory, place: R.Reserved, phdrs: seq<Phdr>,
                              libraryAlignment: nat, hugePages: bool, space: Params, env: R.Environment)
    requires 4096 <= libraryAlignment <= R.GAP_ALIGNMENT
  {
    match Carve(space, LoadSize(phdrs))
    case Carved(start, _) => place == R.Reserved(start, 0, 0) && reserved == before
    case OwnReservation =>
      var size, align := LoadSize(phdrs), BlockAlign(phdrs, libraryAlignment, hugePages);
      && R.Holds(before, reserved, place, size, R.InForce(env, size, align), StartAlign(phdrs, hugePages))
      && R.Chosen(env, place, size, align, StartAlign(phdrs, hugePages))
      && place.gapSize == if R.NeedsGap(env, size, align) then R.Gap(env) else 0
    case TooSmall => false
  }

  /** How a load with a reservation ends, from how the loading of the segments came out. */
  ghost predicate Ends(r: LoadResult, memory: Memory, loadedPhdr: Option<U64>, o: Outcome, phdrs: seq<Phdr>, bias: U64,
                       start: nat, size: nat, keeps: bool)
    requires HeaderSearch.TableSize(phdrs) <= 65536
  {
    var search := HeaderSearch.FindPhdr(o.memory, phdrs, bias);
    && (r == Done <==> o.Loaded? && search.Found?)
    && (r == Died <==> o.Crashed? || (o.Loaded? && search.ReadFault?))
    && (r == Done ==> loadedPhdr == Some(search.loaded))
    && memory == (if r == Failed && !keeps then Unmap(o.memory, start, size) else o.memory)
  }

  /** A reader that has read its file: `phdrs` is the table, `src` the file. `libraryAlignment` is a constant
      of the platform. */
  class ElfReader {
    const phdrs: seq<Phdr>
    const src: Source
    const libraryAlignment: nat
    const hugePages: bool   // transparent huge pages are supported and the target SDK is at least 31

    var loadStart: Option<nat>   // None is the null pointer
    var loadSize: nat
    var loadBias: U64
    var gapStart: nat
    var gapSize: nat
    var mappedByCaller: bool
    var didLoad: bool
    var loadedPhdr: Option<U64>

    constructor (phdrs: seq<Phdr>, src: Source, libraryAlignment: nat, hugePages: bool)
      ensures this.phdrs == phdrs && this.src == src && this.libraryAlignment == libraryAlignment
              && this.hugePages == hugePages
      ensures loadStart == None && !mappedByCaller && !didLoad && loadedPhdr == None
    {
      this.phdrs, this.src, this.libraryAlignment, this.hugePages := phdrs, src, libraryAlignment, hugePages;
      loadStart, loadSize, loadBias, gapStart, gapSize := None, 0, 0, 0, 0;
      mappedByCaller, didLoad, loadedPhdr := false, false, None;
    }

    /** The alignment of the start: that of a huge page for a library built for exactly that. */
    method StartAlignment() returns (align: nat)
      ensures align == StartAlign(phdrs, hugePages)
    {
      align := 4096;
      if hugePages {
        var maximum := GetMaximumAlignment(phdrs);
        if maximum == PMD_SIZE {
          align := PMD_SIZE;
        }
      }
    }

    /** The kernel answers as it promises to, and the library leaves room for padding in the address space. */
    ghost predicate EnvironmentOk(m: Memory, env: R.Environment) {
      && PowerOfTwo(libraryAlignment) && 4096 <= libraryAlignment <= R.GAP_ALIGNMENT
      && LoadSize(phdrs) + 34 * R.GAP_ALIGNMENT < 0x1_0000_0000_0000_0000
      && var align := BlockAlign(phdrs, libraryAlignment, hugePages);
         && Choice(m, env.first, if align == 4096 then LoadSize(phdrs) else R.PaddedSize(LoadSize(phdrs), align))
         && Choice(m, env.second, R.PaddedSize(LoadSize(phdrs) + R.Gap(env), R.GAP_ALIGNMENT))
    }

    /** Where the reservation is, once there is one. */
    function Place(): R.Reserved
      requires loadStart.Some?
      reads this
    {
      R.Reserved(loadStart.value, gapStart, gapSize)
    }

    /** `ReserveAddressSpace`: carves the shared range when it is large enough, else reserves its own; it
        succeeds exactly when there is something to load and a place for it, and a refusal leaves the
        parameters and (pointwise) the memory as they were. */
    method ReserveAddressSpace(space: AddressSpace, process: Process, env: R.Environment) returns (ok: bool)
      requires EnvironmentOk(process.memory, env)
      requires space.startAddr + space.reservedSize < TOP
      modifies this, space, process
      ensures loadSize == LoadSize(phdrs) && didLoad == old(didLoad) && loadedPhdr == old(loadedPhdr)
      ensures ok <==> CanReserve(phdrs, libraryAlignment, hugePages, old(space.Value()), env)
      ensures var carving := Carve(old(space.Value()), loadSize);
              && space.Value() == (if ok && carving.Carved? then carving.left else old(space.Value()))
              && mappedByCaller == (old(mappedByCaller) || (ok && carving.Carved?))
      ensures !ok ==> forall a: nat :: process.memory(a) == old(process.memory)(a)
      ensures ok ==> loadStart.Some? && loadStart.value + loadSize < TOP && loadBias == Bias(loadStart.value, phdrs)
                     && ReservedFor(old(process.memory), process.memory, Place(), phdrs, libraryAlignment, hugePages,
                                    old(space.Value()), env)
    {
      hide R.Holds, PowerOfTwo, R.PaddedSize, R.Gap, R.Granted, R.InForce, R.NeedsGap, PageStart, PageEnd, PageUp,
           Wrap64, PageAligned, HasLoad, MaxEnd, MinVaddr, StartAlign;
      ok := false;
      var size, minPage, maxPage := GetLoadSize(phdrs);
      loadSize := size;
      if loadSize == 0 {
        return;
      }
      if loadSize > space.reservedSize {
        if space.mustUse {
          return;
        }
        var startAlignment := StartAlignment();
        LoadSizeAligned(phdrs);
        R.PageIsPower();
        R.GapIsPower();
        var reserved := R.ReserveWithAlignmentPadding(process, loadSize, libraryAlignment, startAlignment, env);
        if reserved == None {
          return;
        }
        R.HoldsBounds(old(process.memory), process.memory, reserved.value, loadSize,
                      R.InForce(env, loadSize, BlockAlign(phdrs, libraryAlignment, hugePages)), startAlignment);
        loadStart := Some(reserved.value.start);
        gapStart, gapSize := reserved.value.gapStart, reserved.value.gapSize;
      } else {
        loadStart := Some(space.startAddr);
        gapStart, gapSize := 0, 0;
        mappedByCaller := true;
        space.startAddr := space.startAddr + loadSize;
        space.reservedSize := space.reservedSize - loadSize;
      }
      loadBias := Wrap64(loadStart.value - minPage);
      ok := true;
    }

    /** `FindPhdr`: sets where the loaded table is when it is found. */
    method FindPhdr(process: Process) returns (r: HeaderSearch.Search)
      requires HeaderSearch.TableSize(phdrs) <= 65536
      modifies this`loadedPhdr
      ensures r == HeaderSearch.FindPhdr(process.memory, phdrs, loadBias)
      ensures loadedPhdr == if r.Found? then Some(r.loaded) else old(loadedPhdr)
    {
      r := HeaderSearch.Find(process, phdrs, loadBias);
      if r.Found? {
        loadedPhdr := Some(r.loaded);
      }
    }

    /** `Load`. A second call of a reader that has loaded does nothing. Otherwise it is done exactly when a
        place can be reserved, every segment loads, and the header table is found in what was loaded; `reserved`
        is the memory between the reservation and the loading. A failure unmaps a reservation again, unless
        this or an earlier call of the reader carved a shared range. */
    method Load(space: AddressSpace, process: Process, env: R.Environment)
      returns (r: LoadResult, ghost reserved: Memory)
      requires HeaderSearch.TableSize(phdrs) <= 65536
      requires EnvironmentOk(process.memory, env) && space.startAddr + space.reservedSize < TOP
      modifies this, space, process
      ensures old(didLoad) ==> r == Done && process.memory == old(process.memory) && space.Value() == old(space.Value())
      ensures didLoad == (r == Done)
      ensures !old(didLoad) && !CanReserve(phdrs, libraryAlignment, hugePages, old(space.Value()), env) ==>
                && r == Failed && space.Value() == old(space.Value())
                && forall a: nat :: process.memory(a) == old(process.memory)(a)
      ensures !old(didLoad) && CanReserve(phdrs, libraryAlignment, hugePages, old(space.Value()), env) ==>
                && loadStart.Some? && loadSize == LoadSize(phdrs) && loadStart.value + loadSize < TOP
                && loadBias == Bias(loadStart.value, phdrs)
                && ReservedFor(old(process.memory), reserved, Place(), phdrs, libraryAlignment, hugePages,
                               old(space.Value()), env)
                && var carving := Carve(old(space.Value()), loadSize);
                   && space.Value() == (if carving.Carved? then carving.left else old(space.Value()))
                   && mappedByCaller == (old(mappedByCaller) || carving.Carved?)
                   && Ends(r, process.memory, loadedPhdr, LoadAll(reserved, phdrs, |phdrs|, loadBias, src), phdrs,
                           loadBias, loadStart.value, loadSize, mappedByCaller)
      ensures !old(didLoad) && r == Done && WellPlaced(phdrs, loadStart.value) ==>
                IsLoaded(old(process.memory), reserved, process.memory, Place(), phdrs, src)
      ensures !old(didLoad) && r == Failed && CanReserve(phdrs, libraryAlignment, hugePages, old(space.Value()), env)
              && !mappedByCaller && TableWellFormed(phdrs) ==>
                OnlyGapLeft(old(process.memory), process.memory, Place())
    {
      hide R.Holds, PowerOfTwo, R.PaddedSize, R.Gap, R.Granted, PageStart, PageEnd, PageUp, Wrap64, PageAligned,
           LoadAll, HeaderSearch.FindPhdr, Bias, LoadSize, CanReserve, ReservedFor, IsLoaded, WellPlaced, StartAlign,
           OnlyGapLeft, TableWellFormed;
      reserved := process.memory;
      if didLoad {
        return Done, reserved;
      }
      var ok := ReserveAddressSpace(space, process, env);
      if !ok {
        return Failed, reserved;
      }
      reserved := process.memory;
      var verdict := LoadSegments(process, phdrs, loadBias, src);
      if verdict == Fault {
        return Died, reserved;
      }
      if verdict == Success {
        var search := FindPhdr(process);
        if search.ReadFault? {
          return Died, reserved;
        }
        didLoad := search.Found?;
      }
      if !didLoad && !mappedByCaller {
        process.Munmap(loadStart.value, loadSize);
      }
      r := if didLoad then Done else Failed;
      if didLoad && WellPlaced(phdrs, loadStart.value) {
        LoadEndToEnd(old(process.memory), reserved, process.memory, Place(), phdrs, src, libraryAlignment, hugePages,
                     old(space.Value()), env);
      }
      if !didLoad && !mappedByCaller && TableWellFormed(phdrs) {
        FailureLeavesOnlyGap(old(process.memory), reserved, Place(), phdrs, src, libraryAlignment, hugePages,
                             old(space.Value()), env);
      }
    }
  }

  // ----- What a load leaves -----

  /** A well-formed table, and a page-aligned place for it where its segments have pages of their own. */
  ghost predicate WellPlaced(phdrs: seq<Phdr>, start: nat) {
    && start + LoadSize(phdrs) < TOP && PageAligned(start)
    && TableWellFormed(phdrs) && HasLoad(phdrs, |phdrs|) && PagesApart(phdrs, Bias(start, phdrs))
  }

  /** The first loadable segment lies in the file and covers the headers. */
  predicate HeadersCovered(phdrs: seq<Phdr>, i: nat, src: Source) {
    && i < |phdrs| && src.offset + HeaderSearch.EHDR_SIZE <= |src.file.bytes|
    && HeaderSearch.Covered(phdrs, i, src) && InFile(phdrs[i], src)
  }

  /** A PT_PHDR announces the table at e_phoff, in the file part of a readable segment that lies in the file. */
  predicate HeadersAnnounced(phdrs: seq<Phdr>, k: nat, i: nat, src: Source) {
    && i < |phdrs| && src.offset + HeaderSearch.EHDR_SIZE <= |src.file.bytes|
    && HeaderSearch.AnnouncesHeaders(phdrs, k, i, src) && InFile(phdrs[i], src)
  }

  /** Every segment's image stands at its place, everything outside the reservation and the gap is as before
      the call, and where a PT_PHDR announces the headers, or there is none and the first segment covers them,
      the table found in memory is the one read from the file. */
  ghost predicate IsLoaded(before: Memory, reserved: Memory, after: Memory, place: R.Reserved, phdrs: seq<Phdr>,
                           src: Source)
    requires HeaderSearch.TableSize(phdrs) <= 65536 && place.start < TOP
  {
    var bias := Bias(place.start, phdrs);
    && ImagesStand(reserved, after, phdrs, |phdrs|, bias, src)
    && (forall a: nat :: !R.InLibrary(place, LoadSize(phdrs), a) && !R.InGap(place, a) ==> after(a) == before(a))
    && (forall i: nat :: HeadersCovered(phdrs, i, src) ==> TableFound(after, phdrs, bias, src))
    && (forall k: nat, i: nat :: HeadersAnnounced(phdrs, k, i, src) ==>
          TableFound(after, phdrs, bias, src) && FoundAsAnnounced(after, phdrs, k, i, bias))
  }

  /** The search gives the address of `p_vaddr` of header `k` in the image of segment `i`. */
  predicate FoundAsAnnounced(m: Memory, phdrs: seq<Phdr>, k: nat, i: nat, bias: U64)
    requires HeaderSearch.TableSize(phdrs) <= 65536
  {
    var found := HeaderSearch.FindPhdr(m, phdrs, bias);
    && k < |phdrs| && i < |phdrs| && found.Found?
    && found.loaded == SegStart(phdrs[i], bias) + (phdrs[k].vaddr - phdrs[i].vaddr)
  }

  predicate TableFound(m: Memory, phdrs: seq<Phdr>, bias: U64, src: Source)
    requires HeaderSearch.TableSize(phdrs) <= 65536
  {
    var found := HeaderSearch.FindPhdr(m, phdrs, bias);
    && found.Found? && src.offset + HeaderSearch.EHDR_SIZE <= |src.file.bytes|
    && src.offset + HeaderSearch.HeaderOffset(src) + HeaderSearch.TableSize(phdrs) <= |src.file.bytes|
    && ReadsAs(m, found.loaded, HeaderSearch.TableBytes(phdrs, src))
  }

  /** What `Load` promises on success, for a carved range and for a reservation of its own. */
  lemma {:induction false} LoadEndToEnd(before: Memory, reserved: Memory, after: Memory, place: R.Reserved,
                                        phdrs: seq<Phdr>, src: Source, libraryAlignment: nat, hugePages: bool,
                                        space: Params, env: R.Environment)
    requires 4096 <= libraryAlignment <= R.GAP_ALIGNMENT && HeaderSearch.TableSize(phdrs) <= 65536
    requires ReservedFor(before, reserved, place, phdrs, libraryAlignment, hugePages, space, env)
             && WellPlaced(phdrs, place.start)
    requires LoadAll(reserved, phdrs, |phdrs|, Bias(place.start, phdrs), src) == Loaded(after)
    ensures IsLoaded(before, reserved, after, place, phdrs, src)
  {
    hide R.Holds, PageStart, PageUp, PageEnd, Wrap64, LoadAll, Bias, LoadSize, PagesApart, ImagesStand, TableFound,
         FoundAsAnnounced, SegStart, HeadersAnnounced, HeadersCovered, WellFormed, PageAligned, R.InForce, StartAlign;
    WellFormedNeverWraps(phdrs);
    ReservedTableSound(place.start, phdrs);
    MemoryImage(reserved, phdrs, |phdrs|, Bias(place.start, phdrs), src);
    NothingOutside(reserved, place.start, phdrs, src);
    if Carve(space, LoadSize(phdrs)).OwnReservation? {
      R.HoldsBounds(before, reserved, place, LoadSize(phdrs),
                    R.InForce(env, LoadSize(phdrs), BlockAlign(phdrs, libraryAlignment, hugePages)),
                    StartAlign(phdrs, hugePages));
    }
    forall i: nat | HeadersCovered(phdrs, i, src) ensures TableFound(after, phdrs, Bias(place.start, phdrs), src) {
      CoveredTableFound(reserved, after, phdrs, i, Bias(place.start, phdrs), src);
    }
    forall k: nat, i: nat | HeadersAnnounced(phdrs, k, i, src)
      ensures TableFound(after, phdrs, Bias(place.start, phdrs), src)
      ensures FoundAsAnnounced(after, phdrs, k, i, Bias(place.start, phdrs))
    {
      AnnouncedTableFound(reserved, after, phdrs, k, i, Bias(place.start, phdrs), src);
    }
  }

  lemma {:induction false} AnnouncedTableFound(before: Memory, after: Memory, phdrs: seq<Phdr>, k: nat, i: nat,
                                               bias: U64, src: Source)
    requires HeaderSearch.TableSize(phdrs) <= 65536 && TableSound(phdrs, bias)
    requires ImagesStand(before, after, phdrs, |phdrs|, bias, src) && HeadersAnnounced(phdrs, k, i, src)
    ensures TableFound(after, phdrs, bias, src)
    ensures FoundAsAnnounced(after, phdrs, k, i, bias)
  {
    hide ImagesStand, HeaderSearch.FindPhdr, ReadsAs, HeaderSearch.TableBytes, HeaderSearch.HeaderOffset, TableSound,
         SegStart;
    HeaderSearch.AnnouncedHeaders(before, after, phdrs, k, i, bias, src);
  }

  lemma {:induction false} CoveredTableFound(before: Memory, after: Memory, phdrs: seq<Phdr>, i: nat, bias: U64,
                                             src: Source)
    requires HeaderSearch.TableSize(phdrs) <= 65536 && TableSound(phdrs, bias)
    requires ImagesStand(before, after, phdrs, |phdrs|, bias, src) && HeadersCovered(phdrs, i, src)
    ensures TableFound(after, phdrs, bias, src)
  {
    hide ImagesStand, HeaderSearch.FindPhdr, ReadsAs, HeaderSearch.TableBytes, HeaderSearch.HeaderOffset, TableSound,
         SegStart;
    HeaderSearch.LoadedTable(before, after, phdrs, i, bias, src);
  }

  /** A failed load into a carved range has changed nothing outside that range. */
  lemma {:induction false} FailureStaysInCarved(before: Memory, start: nat, phdrs: seq<Phdr>, src: Source, a: nat)
    requires start + LoadSize(phdrs) < TOP && PageAligned(start) && TableWellFormed(phdrs) && HasLoad(phdrs, |phdrs|)
    requires a < start || start + LoadSize(phdrs) <= a
    ensures LoadAll(before, phdrs, |phdrs|, Bias(start, phdrs), src).memory(a) == before(a)
  {
    hide PageStart, PageUp, PageEnd, Wrap64, LoadAll, Bias, LoadSize, WellFormed, PageAligned;
    NothingOutside(before, start, phdrs, src);
  }

  /** Memory is as before, but for the inaccessible gap. */
  ghost predicate OnlyGapLeft(before: Memory, after: Memory, place: R.Reserved) {
    forall a: nat :: after(a) == if R.InGap(place, a) then Some(ZeroCell(PROT_NONE)) else before(a)
  }

  lemma {:induction false} SomethingToLoad(phdrs: seq<Phdr>)
    requires LoadSize(phdrs) > 0
    ensures HasLoad(phdrs, |phdrs|)
  {
    hide LoadSize;
    if !HasLoad(phdrs, |phdrs|) {
      NothingToLoad(phdrs, |phdrs|);
    }
  }

  /** A failed load into a reservation of its own leaves the memory as it was before the call, but for the
      inaccessible gap, which stays. */
  lemma {:induction false} FailureLeavesOnlyGap(before: Memory, reserved: Memory, place: R.Reserved, phdrs: seq<Phdr>,
                                                src: Source, libraryAlignment: nat, hugePages: bool, space: Params,
                                                env: R.Environment)
    requires 4096 <= libraryAlignment <= R.GAP_ALIGNMENT && place.start + LoadSize(phdrs) < TOP
    requires ReservedFor(before, reserved, place, phdrs, libraryAlignment, hugePages, space, env)
    requires CanReserve(phdrs, libraryAlignment, hugePages, space, env) && !Carve(space, LoadSize(phdrs)).Carved?
    requires TableWellFormed(phdrs)
    ensures var ended := LoadAll(reserved, phdrs, |phdrs|, Bias(place.start, phdrs), src);
            OnlyGapLeft(before, Unmap(ended.memory, place.start, LoadSize(phdrs)), place)
  {
    hide R.Holds, PageStart, PageUp, PageEnd, Wrap64, LoadAll, Bias, LoadSize, WellFormed, PageAligned, R.InForce,
         R.NeedsGap, R.Granted, StartAlign, R.Gap;
    SomethingToLoad(phdrs);
    R.HoldsBounds(before, reserved, place, LoadSize(phdrs),
                  R.InForce(env, LoadSize(phdrs), BlockAlign(phdrs, libraryAlignment, hugePages)),
                  StartAlign(phdrs, hugePages));
    NothingOutside(reserved, place.start, phdrs, src);
    WellFormedNeverWraps(phdrs);
    EndAligned(place.start, phdrs);
    Boundary(place.start + LoadSize(phdrs));
  }

  /** Half a megabyte of memory, of which one byte is from the file. */
  const HALF_MEGABYTE: Phdr := Phdr(PT_LOAD, true, true, false, 0, 0, 1, 0x8_0000, 4096)

  lemma {:induction false} HalfMegabyteSize()
    ensures LoadSize([HALF_MEGABYTE]) == 0x8_0000
  {
    hide PageStart, PageUp;
    var phdrs := [HALF_MEGABYTE];
    MultipleAligned(0);
    MultipleAligned(0x80);
    Boundary(0);
    Boundary(0x8_0000);
    assert MinVaddr(phdrs, 0) == 0xFFFF_FFFF_FFFF_FFFF && MaxEnd(phdrs, 0) == 0;
    assert MinVaddr(phdrs, 1) == 0 && MaxEnd(phdrs, 1) == 0x8_0000;
  }

  /** A load that fails and does leave something behind: its block crosses a huge page, so it gets a gap; the
      file is said to be empty, so its segment is refused; and at the gap's start a page is mapped that was
      not mapped before. */
  lemma {:induction false} FailedLoadKeepsGap(before: Memory, reserved: Memory, place: R.Reserved, src: Source,
                                              env: R.Environment)
    requires env.first == Some(0x1C_0000) && env.second.Some? && src.size == 0 && place.start + 0x8_0000 < TOP
    requires ReservedFor(before, reserved, place, [HALF_MEGABYTE], 0x4_0000, false, Params(0, 0, false), env)
    ensures CanReserve([HALF_MEGABYTE], 0x4_0000, false, Params(0, 0, false), env)
    ensures var o := LoadAll(reserved, [HALF_MEGABYTE], 1, Bias(place.start, [HALF_MEGABYTE]), src);
            && o.Refused?
            && before(place.gapStart) == None
            && Unmap(o.memory, place.start, 0x8_0000)(place.gapStart) == Some(ZeroCell(PROT_NONE))
  {
    hide R.Holds, R.NeedsGap, LoadSize, PageStart, PageUp, Bias, R.Gap;
    var phdrs := [HALF_MEGABYTE];
    HalfMegabyteSize();
    R.GapNeededExample(env);
    R.HoldsBounds(before, reserved, place, 0x8_0000, R.InForce(env, 0x8_0000, 0x4_0000), 4096);
    assert LoadAll(reserved, phdrs, 0, Bias(place.start, phdrs), src) == Loaded(reserved);
    assert R.InGap(place, place.gapStart);
    UnmapEnd(reserved, place.start, 0x8_0000, place.gapStart);
  }

  lemma {:induction false} UnmapEnd(m: Memory, start: nat, size: nat, a: nat)
    requires PageAligned(start) && PageAligned(size) && start + size <= a
    ensures Unmap(m, start, size)(a) == m(a)
  {
    hide PageStart, PageUp, PageAligned;
    AlignedSum(start, size);
    Boundary(start + size);
  }
}
