/** RELRO sharing: pages written to a file by one process and mapped over the equal pages of another. */
module RelroSharing {
  import opened Basics
  import opened Paging
  import opened ProcessMemory
  import opened LoadExtent
  import opened Protection

  // ----- Equal pages -----

  /** Address `a` shows the file's byte at `a + shift`. */
  predicate SameByte(m: Memory, a: nat, file: File, shift: int)
    requires a + shift >= 0
  {
    m(a).Some? && m(a).value.byte == FileByte(file, a + shift)
  }

  /** The page at `at` shows what the file holds `shift` bytes further. */
  predicate PageEqual(m: Memory, at: nat, file: File, shift: int)
    requires at + shift >= 0
  {
    forall a: nat :: at <= a < at + 4096 ==> SameByte(m, a, file, shift)
  }

  /** The page of `a`, counted from the start of its range. */
  function PageIn(from: nat, a: nat): (r: nat)
    requires from <= a
    ensures from <= r <= a < r + 4096 && PageAligned(r - from)
  {
    from + PageStart(a - from)
  }

  lemma {:induction false} PageInAligned(from: nat, a: nat)
    requires from <= a && PageAligned(from)
    ensures PageAligned(PageIn(from, a))
  {
    hide PageAligned, PageStart;
    AlignedSum(PageIn(from, a) - from, from);
  }

  /** Equal pages of [from, to) replaced by the file's pages, read-only; the reference for what the code's
      nested searches do. */
  function ShareRange(m: Memory, from: nat, to: nat, file: File, offset: nat): Memory {
    (a: nat) => if from <= a < to && PageEqual(m, PageIn(from, a), file, offset - from)
                then Some(FileCell(file, offset + (a - from), PROT_READ))
                else m(a)
  }

  ghost predicate Same(m: Memory, n: Memory) { forall a: nat :: m(a) == n(a) }

  /** `now` is `m` with [from, end) shared. */
  ghost predicate SharedTo(m: Memory, now: Memory, from: nat, end: nat, file: File, offset: nat) {
    forall a: nat :: now(a) == ShareRange(m, from, end, file, offset)(a)
  }

  /** Every page of [from, to) is equal. */
  ghost predicate AllEqual(m: Memory, from: nat, to: nat, file: File, shift: int)
    requires from + shift >= 0
  {
    forall at: nat :: PageAligned(at) && from <= at < to ==> PageEqual(m, at, file, shift)
  }

  lemma {:induction false} PageUntouched(m: Memory, now: Memory, from: nat, end: nat, file: File, offset: nat, at: nat)
    requires from <= end <= at && SharedTo(m, now, from, end, file, offset)
    ensures PageEqual(now, at, file, offset - from) <==> PageEqual(m, at, file, offset - from)
  {
    var shift := offset - from;
    forall a: nat | at <= a < at + 4096 ensures SameByte(now, a, file, shift) <==> SameByte(m, a, file, shift) {
      assert now(a) == ShareRange(m, from, end, file, offset)(a) == m(a);
    }
  }

  /** A page that is not equal is left alone. */
  lemma {:induction false} DissimilarPage(m: Memory, now: Memory, from: nat, end: nat, file: File, offset: nat)
    requires PageAligned(from) && PageAligned(end) && from <= end && SharedTo(m, now, from, end, file, offset)
    requires !PageEqual(m, end, file, offset - from)
    ensures SharedTo(m, now, from, end + 4096, file, offset)
  {
    hide PageAligned, PageEqual, PageStart;
    forall a: nat ensures now(a) == ShareRange(m, from, end + 4096, file, offset)(a) {
      assert now(a) == ShareRange(m, from, end, file, offset)(a);
      if end <= a < end + 4096 {
        PageInAligned(from, a);
        SamePage(PageIn(from, a), end, a);
      }
    }
  }

  lemma {:induction false} SamePage(page: nat, other: nat, a: nat)
    requires PageAligned(page) && PageAligned(other) && page <= a < page + 4096 && other <= a < other + 4096
    ensures page == other
  {
    SameBoundary(page, other);
  }

  /** The page that holds `a` does not start before a boundary that is not behind `a`. */
  lemma {:induction false} NotBefore(page: nat, boundary: nat, a: nat)
    requires PageAligned(page) && PageAligned(boundary) && page <= a < page + 4096 && boundary <= a
    ensures boundary <= page
  {
    hide PageAligned;
    if page < boundary {
      SameBoundary(page, boundary);
    }
  }

  /** A run of equal pages is shared by one mapping. */
  lemma {:induction false} SimilarRun(m: Memory, now: Memory, from: nat, start: nat, end: nat, file: File, offset: nat)
    requires PageAligned(from) && PageAligned(start) && PageAligned(end) && from <= start <= end
    requires SharedTo(m, now, from, start, file, offset) && AllEqual(m, start, end, file, offset - from)
    ensures SharedTo(m, MapFile(now, start, end - start, PROT_READ, file, offset + (start - from)), from, end, file,
                     offset)
  {
    hide PageAligned, PageEqual, PageStart, PageUp;
    Boundary(end);
    var after := MapFile(now, start, end - start, PROT_READ, file, offset + (start - from));
    forall a: nat ensures after(a) == ShareRange(m, from, end, file, offset)(a) {
      assert now(a) == ShareRange(m, from, start, file, offset)(a);
      if start <= a < end {
        PageInAligned(from, a);
        NotBefore(PageIn(from, a), start, a);
      }
    }
  }

  lemma {:induction false} NextBoundary(x: nat, end: nat)
    requires PageAligned(x) && PageAligned(end) && x < end
    ensures x + 4096 <= end && PageAligned(x + 4096)
  {
    hide PageAligned;
    MultipleAligned(1);
    AlignedSum(x, 4096);
    if end < x + 4096 {
      SameBoundary(x, end);
    }
  }

  lemma {:induction false} OneMoreEqual(m: Memory, from: nat, end: nat, file: File, shift: int)
    requires from + shift >= 0 && from <= end && PageAligned(end) && AllEqual(m, from, end, file, shift)
             && PageEqual(m, end, file, shift)
    ensures AllEqual(m, from, end + 4096, file, shift)
  {
    hide PageEqual, PageAligned;
    forall at: nat | PageAligned(at) && from <= at < end + 4096 ensures PageEqual(m, at, file, shift) {
      if end <= at {
        SameBoundary(at, end);
      }
    }
  }

  lemma {:induction false} RunAccepted(from: nat, start: nat, end: nat, offset: nat, to: nat)
    requires PageAligned(from) && PageAligned(start) && PageAligned(end) && PageAligned(offset)
    requires from <= start < end <= to < TOP
    ensures MmapOk(start, end - start, offset + (start - from))
  {
    hide PageAligned, PageUp;
    AlignedSum(start, from);
    AlignedSum(offset, start - from);
    Boundary(end);
  }

  lemma {:induction false} NothingShared(m: Memory, from: nat, file: File, offset: nat)
    ensures SharedTo(m, m, from, from, file, offset)
  {
  }

  /** Where one range's sharing got to: to its end, or to a run of equal pages whose mapping the kernel
      denied. */
  ghost predicate StoppedAt(m: Memory, now: Memory, from: nat, to: nat, stop: nat, file: File, offset: nat,
                            denied: nat -> bool)
  {
    && from <= stop <= to && PageAligned(stop)
    && Same(now, ShareRange(m, from, stop, file, offset))
    && (stop < to ==> denied(stop) && PageEqual(m, stop, file, offset - from))
  }

  /** The nested searches over the pages of one RELRO range: they end, and share exactly the equal pages, up
      to the first run that the kernel does not let them map; `denied` says so by the run's address. */
  method MapRange(process: Process, from: nat, to: nat, file: File, offset: nat, denied: nat -> bool)
    returns (ok: bool, ghost stop: nat)
    requires PageAligned(from) && PageAligned(to) && PageAligned(offset) && from <= to < TOP
    modifies process
    ensures StoppedAt(old(process.memory), process.memory, from, to, stop, file, offset, denied)
    ensures ok <==> stop == to
  {
    hide ShareRange, PageEqual, PageAligned, PageStart, PageUp, SharedTo, AllEqual;
    ghost var m := process.memory;
    var start := from;
    NothingShared(m, from, file, offset);
    while start < to
      invariant from <= start <= to && PageAligned(start)
      invariant SharedTo(m, process.memory, from, start, file, offset)
    {
      // pages that differ stay as they are
      while start < to && !PageEqual(process.memory, start, file, offset - from)
        invariant from <= start <= to && PageAligned(start)
        invariant SharedTo(m, process.memory, from, start, file, offset)
      {
        PageUntouched(m, process.memory, from, start, file, offset, start);
        DissimilarPage(m, process.memory, from, start, file, offset);
        NextBoundary(start, to);
        start := start + 4096;
      }
      // [start, end) is the run of equal pages that follows
      var end := start;
      NoneYet(m, start, file, offset - from);
      while end < to && PageEqual(process.memory, end, file, offset - from)
        invariant start <= end <= to && PageAligned(end)
        invariant SharedTo(m, process.memory, from, start, file, offset)
        invariant AllEqual(m, start, end, file, offset - from)
        invariant end == start < to ==> PageEqual(process.memory, end, file, offset - from)
        invariant end > start ==> PageEqual(m, start, file, offset - from)
      {
        PageUntouched(m, process.memory, from, start, file, offset, end);
        OneMoreEqual(m, start, end, file, offset - from);
        NextBoundary(end, to);
        end := end + 4096;
      }
      if end > start {
        SimilarRun(m, process.memory, from, start, end, file, offset);
        RunAccepted(from, start, end, offset, to);
        ok := process.MmapFile(start, end - start, PROT_READ, file, offset + (start - from), denied(start));
        if !ok {
          IsSame(m, process.memory, from, start, file, offset);
          return false, start;
        }
      }
      start := end;
    }
    IsSame(m, process.memory, from, to, file, offset);
    ok, stop := true, to;
  }

  lemma {:induction false} NoneYet(m: Memory, from: nat, file: File, shift: int)
    requires from + shift >= 0
    ensures AllEqual(m, from, from, file, shift)
  {
  }

  lemma {:induction false} IsSame(m: Memory, now: Memory, from: nat, to: nat, file: File, offset: nat)
    requires SharedTo(m, now, from, to, file, offset)
    ensures Same(now, ShareRange(m, from, to, file, offset))
  {
    hide ShareRange;
  }

  // ----- The table -----

  predicate IsRelro(phdrs: seq<Phdr>, i: nat) { i < |phdrs| && phdrs[i].kind == PT_GNU_RELRO }

  function SizeOf(p: Phdr, bias: U64): U64 { Wrap64(PagesTo(p, bias) - PagesFrom(p, bias)) }

  /** The memory, the file offset, and whether a short file has ended the walk. */
  datatype Walk = Walk(memory: Memory, offset: nat, short: bool)

  /** The file is too short for `p` at `offset`; the difference is unsigned. */
  predicate TooShort(file: File, offset: nat, p: Phdr, bias: U64)
    requires |file.bytes| < TOP && offset < TOP
  {
    Wrap64(|file.bytes| - offset) < SizeOf(p, bias)
  }

  function OneRange(w: Walk, p: Phdr, bias: U64, file: File): Walk
    requires |file.bytes| < TOP && w.offset < TOP
  {
    if TooShort(file, w.offset, p, bias) then Walk(w.memory, w.offset, true)
    else
      var shared := ShareRange(w.memory, PagesFrom(p, bias), PagesTo(p, bias), file, w.offset);
      Walk(shared, Wrap64(w.offset + SizeOf(p, bias)), false)
  }

  /** The walk over the first `n` headers. */
  function WalkTo(m: Memory, phdrs: seq<Phdr>, n: nat, bias: U64, file: File, offset: nat): (w: Walk)
    requires n <= |phdrs| && |file.bytes| < TOP && offset < TOP
    ensures w.offset < TOP
  {
    if n == 0 then Walk(m, offset, false)
    else
      var before := WalkTo(m, phdrs, n - 1, bias, file, offset);
      if before.short || !IsRelro(phdrs, n - 1) then before else OneRange(before, phdrs[n - 1], bias, file)
  }

  /** The RELRO ranges are whole pages, and none of them wraps around. */
  ghost predicate RangesOk(phdrs: seq<Phdr>, bias: U64) {
    PageAligned(bias) && forall i: nat :: IsRelro(phdrs, i) ==> InOrder(phdrs[i], bias)
  }

  lemma {:induction false} RangeAligned(p: Phdr, bias: U64)
    requires PageAligned(bias)
    ensures PageAligned(PagesFrom(p, bias)) && PageAligned(PagesTo(p, bias))
    ensures InOrder(p, bias) ==>
            SizeOf(p, bias) == PagesTo(p, bias) - PagesFrom(p, bias) && PageAligned(SizeOf(p, bias))
  {
    hide PageStart, PageUp, PageEnd, PageAligned;
    SumAligned(PageStart(p.vaddr), bias);
    SumAligned(PageEnd(Wrap64(p.vaddr + p.memsz)), bias);
    AlignedSum(PagesTo(p, bias), PagesFrom(p, bias));
  }

  lemma {:induction false} SumAligned(x: U64, y: U64)
    requires PageAligned(x) && PageAligned(y)
    ensures PageAligned(Wrap64(x + y))
  {
    hide PageAligned;
    AlignedSum(x, y);
    TopAligned();
    AlignedSum(x + y, -0x1_0000_0000_0000_0000);
  }

  // ----- The method and the walk -----

  ghost predicate SameWalk(w: Walk, memory: Memory, offset: nat) { Same(memory, w.memory) && offset == w.offset }

  lemma {:induction false} ShareOfSame(m: Memory, n: Memory, from: nat, to: nat, file: File, offset: nat)
    requires Same(m, n)
    ensures Same(ShareRange(m, from, to, file, offset), ShareRange(n, from, to, file, offset))
  {
    hide PageStart;
    forall a: nat ensures ShareRange(m, from, to, file, offset)(a) == ShareRange(n, from, to, file, offset)(a) {
      if from <= a < to {
        EqualOfSame(m, n, PageIn(from, a), file, offset - from);
      }
    }
  }

  lemma {:induction false} EqualOfSame(m: Memory, n: Memory, at: nat, file: File, shift: int)
    requires Same(m, n) && at + shift >= 0
    ensures PageEqual(m, at, file, shift) <==> PageEqual(n, at, file, shift)
  {
    forall a: nat | at <= a < at + 4096 ensures SameByte(m, a, file, shift) <==> SameByte(n, a, file, shift) {
      assert m(a) == n(a);
    }
  }

  lemma {:induction false} SameTwice(m: Memory, n: Memory, o: Memory)
    requires Same(m, n) && Same(n, o)
    ensures Same(m, o)
  {
  }

  lemma {:induction false} ShortStays(m: Memory, phdrs: seq<Phdr>, i: nat, n: nat, bias: U64, file: File, offset: nat)
    requires i <= n <= |phdrs| && |file.bytes| < TOP && offset < TOP && WalkTo(m, phdrs, i, bias, file, offset).short
    ensures WalkTo(m, phdrs, n, bias, file, offset) == WalkTo(m, phdrs, i, bias, file, offset)
    decreases n
  {
    hide OneRange;
    if i < n {
      ShortStays(m, phdrs, i, n - 1, bias, file, offset);
    }
  }

  lemma {:induction false} OffsetStaysAligned(m: Memory, phdrs: seq<Phdr>, n: nat, bias: U64, file: File, offset: nat)
    requires n <= |phdrs| && |file.bytes| < TOP && offset <= |file.bytes| && PageAligned(offset)
             && RangesOk(phdrs, bias)
    ensures PageAligned(WalkTo(m, phdrs, n, bias, file, offset).offset)
    ensures offset <= WalkTo(m, phdrs, n, bias, file, offset).offset <= |file.bytes|
  {
    hide PageAligned, SizeOf, ShareRange, PagesFrom, PagesTo, Wrap64;
    if n > 0 {
      OffsetStaysAligned(m, phdrs, n - 1, bias, file, offset);
      if IsRelro(phdrs, n - 1) {
        RangeAligned(phdrs[n - 1], bias);
        AlignedSum(WalkTo(m, phdrs, n - 1, bias, file, offset).offset, SizeOf(phdrs[n - 1], bias));
      }
    }
  }

  lemma {:induction false} AlwaysSame(m: Memory)
    ensures Same(m, m)
  {
  }

  // ----- Sharing is invisible -----

  /** The same addresses are mapped and show the same bytes. */
  ghost predicate SameBytes(m: Memory, n: Memory) {
    forall a: nat :: m(a).Some? == n(a).Some? && (m(a).Some? ==> m(a).value.byte == n(a).value.byte)
  }

  lemma {:induction false} ShareKeepsBytes(m: Memory, from: nat, to: nat, file: File, offset: nat)
    ensures SameBytes(m, ShareRange(m, from, to, file, offset))
  {
    hide PageStart;
    var n := ShareRange(m, from, to, file, offset);
    forall a: nat ensures m(a).Some? == n(a).Some? && (m(a).Some? ==> m(a).value.byte == n(a).value.byte) {
      if from <= a < to && PageEqual(m, PageIn(from, a), file, offset - from) {
        assert SameByte(m, a, file, offset - from);
      }
    }
  }

  lemma {:induction false} SameBytesTwice(m: Memory, n: Memory, o: Memory)
    requires SameBytes(m, n) && SameBytes(n, o)
    ensures SameBytes(m, o)
  {
  }

  lemma {:induction false} SameBytesSelf(m: Memory)
    ensures SameBytes(m, m)
  {
  }

  /** Whatever the file holds and wherever the walk ends, no byte of memory changes. */
  lemma {:induction false} WalkKeepsBytes(m: Memory, phdrs: seq<Phdr>, n: nat, bias: U64, file: File, offset: nat)
    requires n <= |phdrs| && |file.bytes| < TOP && offset < TOP
    ensures SameBytes(m, WalkTo(m, phdrs, n, bias, file, offset).memory)
  {
    hide SameBytes, ShareRange, SizeOf, PagesFrom, PagesTo;
    if n == 0 {
      SameBytesSelf(m);
    } else {
      WalkKeepsBytes(m, phdrs, n - 1, bias, file, offset);
      var before, p := WalkTo(m, phdrs, n - 1, bias, file, offset), phdrs[n - 1];
      if !before.short && IsRelro(phdrs, n - 1) && !TooShort(file, before.offset, p, bias) {
        ShareKeepsBytes(before.memory, PagesFrom(p, bias), PagesTo(p, bias), file, before.offset);
        SameBytesTwice(m, before.memory, WalkTo(m, phdrs, n, bias, file, offset).memory);
      }
    }
  }

  lemma {:induction false} EqualOfSameBytes(m: Memory, n: Memory, at: nat, file: File, shift: int)
    requires SameBytes(m, n) && at + shift >= 0
    ensures PageEqual(m, at, file, shift) <==> PageEqual(n, at, file, shift)
  {
    forall a: nat | at <= a < at + 4096 ensures SameByte(m, a, file, shift) <==> SameByte(n, a, file, shift) {
    }
  }

  lemma {:induction false} SameIsSameBytes(m: Memory, n: Memory, o: Memory)
    requires SameBytes(m, n) && Same(o, n)
    ensures SameBytes(m, o)
  {
  }

  lemma {:induction false} WalkBytesOf(m: Memory, now: Memory, phdrs: seq<Phdr>, n: nat, bias: U64, file: File,
                                       offset: nat)
    requires n <= |phdrs| && |file.bytes| < TOP && offset < TOP
             && Same(now, WalkTo(m, phdrs, n, bias, file, offset).memory)
    ensures SameBytes(m, now)
  {
    hide SameBytes, Same;
    WalkKeepsBytes(m, phdrs, n, bias, file, offset);
    SameIsSameBytes(m, WalkTo(m, phdrs, n, bias, file, offset).memory, now);
  }

  /** Nor does a byte change when a range is shared only in part. */
  lemma {:induction false} CutKeepsBytes(m: Memory, now: Memory, phdrs: seq<Phdr>, i: nat, stop: nat, bias: U64,
                                         file: File, offset: nat)
    requires i < |phdrs| && |file.bytes| < TOP && offset < TOP
    requires var before := WalkTo(m, phdrs, i, bias, file, offset);
             Same(now, ShareRange(before.memory, PagesFrom(phdrs[i], bias), stop, file, before.offset))
    ensures SameBytes(m, now)
  {
    hide SameBytes, Same, ShareRange, PagesFrom;
    var before, from := WalkTo(m, phdrs, i, bias, file, offset), PagesFrom(phdrs[i], bias);
    WalkKeepsBytes(m, phdrs, i, bias, file, offset);
    ShareKeepsBytes(before.memory, from, stop, file, before.offset);
    SameBytesTwice(m, before.memory, ShareRange(before.memory, from, stop, file, before.offset));
    SameIsSameBytes(m, ShareRange(before.memory, from, stop, file, before.offset), now);
  }

  // ----- Exactly the equal pages -----

  /** The sizes of the RELRO ranges among the first `n` headers. */
  function OffsetTo(phdrs: seq<Phdr>, n: nat, bias: U64): nat
    requires n <= |phdrs|
  {
    if n == 0 then 0 else OffsetTo(phdrs, n - 1, bias) + if IsRelro(phdrs, n - 1) then SizeOf(phdrs[n - 1], bias) else 0
  }

  lemma {:induction false} OffsetMonotone(phdrs: seq<Phdr>, i: nat, n: nat, bias: U64)
    requires i <= n <= |phdrs|
    ensures OffsetTo(phdrs, i, bias) <= OffsetTo(phdrs, n, bias)
    decreases n
  {
    hide SizeOf;
    if i < n {
      OffsetMonotone(phdrs, i, n - 1, bias);
    }
  }

  /** The walk got to RELRO header `i` before the file ran short. */
  predicate Reached(m: Memory, phdrs: seq<Phdr>, i: nat, bias: U64, file: File, offset: nat)
    requires |file.bytes| < TOP && offset < TOP
  {
    IsRelro(phdrs, i) && !WalkTo(m, phdrs, i + 1, bias, file, offset).short
  }

  /** `a` is on a page of header `i`, and that page equals the file's at the offset the walk had there. */
  predicate Shareable(m: Memory, phdrs: seq<Phdr>, i: nat, bias: U64, file: File, offset: nat, a: nat)
    requires |file.bytes| < TOP && offset < TOP
  {
    && Reached(m, phdrs, i, bias, file, offset) && InPages(phdrs[i], bias, a)
    && var from := PagesFrom(phdrs[i], bias);
       PageEqual(m, PageIn(from, a), file, WalkTo(m, phdrs, i, bias, file, offset).offset - from)
  }

  /** `after` shows the byte that `before` does, read-only, from the page of the file that holds `offset`. */
  predicate OnFilePage(before: Option<Cell>, after: Option<Cell>, file: nat, offset: nat) {
    before.Some? && after == Some(Cell(before.value.byte, PROT_READ, FilePage(file, PageStart(offset))))
  }

  /** Of the first `n` headers, `i` is the last that shares the page of `a`. */
  ghost predicate LastSharing(m: Memory, phdrs: seq<Phdr>, n: nat, i: nat, bias: U64, file: File, offset: nat, a: nat)
    requires |file.bytes| < TOP && offset < TOP
  {
    && i < n && Shareable(m, phdrs, i, bias, file, offset, a)
    && forall j: nat :: i < j < n ==> !Shareable(m, phdrs, j, bias, file, offset, a)
  }

  /** Where the walk has `a` in the file, for header `i`. */
  function WalkOffset(m: Memory, phdrs: seq<Phdr>, i: nat, bias: U64, file: File, offset: nat, a: nat): nat
    requires |file.bytes| < TOP && offset < TOP
  {
    if i < |phdrs| && InPages(phdrs[i], bias, a)
    then WalkTo(m, phdrs, i, bias, file, offset).offset + (a - PagesFrom(phdrs[i], bias))
    else 0
  }

  /** Over the first `n` headers: an address on a shareable page is backed by the file, at the place the last
      header that shares it has there, and read-only; and any other has kept its cell. */
  ghost predicate ExactlyShared(m: Memory, after: Memory, phdrs: seq<Phdr>, n: nat, bias: U64, file: File, offset: nat)
    requires |file.bytes| < TOP && offset < TOP
  {
    && (forall i: nat, a: nat :: LastSharing(m, phdrs, n, i, bias, file, offset, a) ==>
          OnFilePage(m(a), after(a), file.id, WalkOffset(m, phdrs, i, bias, file, offset, a)))
    && (forall a: nat :: (forall i: nat :: i < n ==> !Shareable(m, phdrs, i, bias, file, offset, a)) ==>
        after(a) == m(a))
  }

  /** Header `n` puts exactly the addresses it shares on the file's pages. */
  ghost predicate HeaderShared(m: Memory, before: Memory, after: Memory, phdrs: seq<Phdr>, n: nat, bias: U64,
                               file: File, offset: nat)
    requires |file.bytes| < TOP && offset < TOP
  {
    forall a: nat :: if Shareable(m, phdrs, n, bias, file, offset, a)
                     then OnFilePage(m(a), after(a), file.id, WalkOffset(m, phdrs, n, bias, file, offset, a))
                     else after(a) == before(a)
  }

  lemma {:induction false} RangeSharesExactly(m: Memory, phdrs: seq<Phdr>, n: nat, bias: U64, file: File, offset: nat,
                                              a: nat)
    requires n < |phdrs| && |file.bytes| < TOP && offset < TOP
    requires Reached(m, phdrs, n, bias, file, offset)
    ensures var before := WalkTo(m, phdrs, n, bias, file, offset).memory;
            var after := WalkTo(m, phdrs, n + 1, bias, file, offset).memory;
            if Shareable(m, phdrs, n, bias, file, offset, a)
            then OnFilePage(m(a), after(a), file.id, WalkOffset(m, phdrs, n, bias, file, offset, a))
            else after(a) == before(a)
  {
    hide PageStart, PagesFrom, PagesTo, SizeOf, PageEqual;
    var before := WalkTo(m, phdrs, n, bias, file, offset);
    WalkKeepsBytes(m, phdrs, n, bias, file, offset);
    if InPages(phdrs[n], bias, a) {
      var from, to := PagesFrom(phdrs[n], bias), PagesTo(phdrs[n], bias);
      EqualOfSameBytes(m, before.memory, PageIn(from, a), file, before.offset - from);
      assert WalkTo(m, phdrs, n + 1, bias, file, offset).memory ==
        ShareRange(before.memory, from, to, file, before.offset);
      if Shareable(m, phdrs, n, bias, file, offset, a) {
        EqualByte(m, PageIn(from, a), file, before.offset - from, a);
        assert PageEqual(before.memory, PageIn(from, a), file, before.offset - from);
        assert ShareRange(before.memory, from, to, file, before.offset)(a) ==
          Some(FileCell(file, before.offset + (a - from), PROT_READ));
      }
    }
  }

  lemma {:induction false} EqualByte(m: Memory, at: nat, file: File, shift: int, a: nat)
    requires at + shift >= 0 && PageEqual(m, at, file, shift) && at <= a < at + 4096
    ensures m(a).Some? && m(a).value.byte == FileByte(file, a + shift)
  {
    assert SameByte(m, a, file, shift);
  }

  lemma {:induction false} NotTheLast(m: Memory, phdrs: seq<Phdr>, n: nat, i: nat, bias: U64, file: File, offset: nat,
                                      a: nat)
    requires |file.bytes| < TOP && offset < TOP && LastSharing(m, phdrs, n + 1, i, bias, file, offset, a)
    ensures Shareable(m, phdrs, i, bias, file, offset, a)
    ensures i == n || (!Shareable(m, phdrs, n, bias, file, offset, a)
                       && LastSharing(m, phdrs, n, i, bias, file, offset, a))
  {
    hide Shareable;
  }

  lemma {:induction false} OneMoreShared(m: Memory, before: Memory, after: Memory, phdrs: seq<Phdr>, n: nat, bias: U64,
                                         file: File, offset: nat)
    requires |file.bytes| < TOP && offset < TOP && ExactlyShared(m, before, phdrs, n, bias, file, offset)
    requires HeaderShared(m, before, after, phdrs, n, bias, file, offset)
    ensures ExactlyShared(m, after, phdrs, n + 1, bias, file, offset)
  {
    hide Shareable, OnFilePage, WalkOffset, LastSharing;
    forall i: nat, a: nat | LastSharing(m, phdrs, n + 1, i, bias, file, offset, a)
      ensures OnFilePage(m(a), after(a), file.id, WalkOffset(m, phdrs, i, bias, file, offset, a))
    {
      NotTheLast(m, phdrs, n, i, bias, file, offset, a);
    }
    forall a: nat | forall i: nat :: i < n + 1 ==> !Shareable(m, phdrs, i, bias, file, offset, a)
      ensures after(a) == m(a)
    {
      assert !Shareable(m, phdrs, n, bias, file, offset, a);
    }
  }

  /** The walk makes file-backed exactly the equal pages of every RELRO header it reaches before the file
      runs short. */
  lemma {:induction false} WalkSharesExactly(m: Memory, phdrs: seq<Phdr>, n: nat, bias: U64, file: File, offset: nat)
    requires n <= |phdrs| && |file.bytes| < TOP && offset < TOP
    ensures ExactlyShared(m, WalkTo(m, phdrs, n, bias, file, offset).memory, phdrs, n, bias, file, offset)
  {
    hide OneRange, InPages, PageEqual, OnFilePage, WalkOffset;
    if n > 0 {
      WalkSharesExactly(m, phdrs, n - 1, bias, file, offset);
      var before, after := WalkTo(m, phdrs, n - 1, bias, file, offset), WalkTo(m, phdrs, n, bias, file, offset);
      forall a: nat ensures if Shareable(m, phdrs, n - 1, bias, file, offset, a)
                            then OnFilePage(m(a), after.memory(a), file.id,
                                            WalkOffset(m, phdrs, n - 1, bias, file, offset, a))
                            else after.memory(a) == before.memory(a)
      {
        if Reached(m, phdrs, n - 1, bias, file, offset) {
          RangeSharesExactly(m, phdrs, n - 1, bias, file, offset, a);
        } else {
          NotReached(m, phdrs, n - 1, bias, file, offset);
        }
      }
      OneMoreShared(m, before.memory, after.memory, phdrs, n - 1, bias, file, offset);
    }
  }

  lemma {:induction false} NotReached(m: Memory, phdrs: seq<Phdr>, i: nat, bias: U64, file: File, offset: nat)
    requires i < |phdrs| && |file.bytes| < TOP && offset < TOP && !Reached(m, phdrs, i, bias, file, offset)
    ensures WalkTo(m, phdrs, i + 1, bias, file, offset).memory == WalkTo(m, phdrs, i, bias, file, offset).memory
  {
    hide ShareRange, SizeOf;
  }

  lemma {:induction false} SharedOfSame(m: Memory, now: Memory, phdrs: seq<Phdr>, bias: U64, file: File, offset: nat)
    requires |file.bytes| < TOP && offset < TOP
    requires Same(now, WalkTo(m, phdrs, |phdrs|, bias, file, offset).memory)
    ensures ExactlyShared(m, now, phdrs, |phdrs|, bias, file, offset)
  {
    hide WalkTo, Shareable, LastSharing, OnFilePage, WalkOffset;
    WalkSharesExactly(m, phdrs, |phdrs|, bias, file, offset);
  }

  /** The page of `a` in header `i` equals the file's at `base` and the sizes of the RELRO ranges before it, and
      the whole range is in the file. */
  predicate SharesAt(m: Memory, phdrs: seq<Phdr>, i: nat, bias: U64, file: File, base: nat, a: nat) {
    && IsRelro(phdrs, i) && base + OffsetTo(phdrs, i + 1, bias) <= |file.bytes| && InPages(phdrs[i], bias, a)
    && var from := PagesFrom(phdrs[i], bias);
       PageEqual(m, PageIn(from, a), file, base + OffsetTo(phdrs, i, bias) - from)
  }

  /** The walk is at the sum of the sizes, and runs short exactly when that sum passes the file's size. */
  lemma {:induction false} WalkIsAt(m: Memory, phdrs: seq<Phdr>, n: nat, bias: U64, file: File, base: nat)
    requires n <= |phdrs| && RangesOk(phdrs, bias) && |file.bytes| < TOP && base <= |file.bytes|
    ensures var w := WalkTo(m, phdrs, n, bias, file, base);
            && (w.short <==> base + OffsetTo(phdrs, n, bias) > |file.bytes|)
            && (!w.short ==> w.offset == base + OffsetTo(phdrs, n, bias))
  {
    hide PagesFrom, PagesTo, SizeOf, ShareRange, RangesOk;
    if n > 0 {
      WalkIsAt(m, phdrs, n - 1, bias, file, base);
    }
  }

  /** So what the walk shares can be told from the sizes alone. */
  lemma {:induction false} SharedBySizes(m: Memory, phdrs: seq<Phdr>, i: nat, bias: U64, file: File, base: nat, a: nat)
    requires RangesOk(phdrs, bias) && |file.bytes| < TOP && base <= |file.bytes|
    ensures Shareable(m, phdrs, i, bias, file, base, a) <==> SharesAt(m, phdrs, i, bias, file, base, a)
    ensures SharesAt(m, phdrs, i, bias, file, base, a) ==>
              WalkOffset(m, phdrs, i, bias, file, base, a) == OffsetIn(phdrs, i, bias, base, a)
  {
    hide PagesFrom, PagesTo, SizeOf, WalkTo, PageEqual, RangesOk, PageStart;
    if IsRelro(phdrs, i) {
      WalkIsAt(m, phdrs, i + 1, bias, file, base);
      WalkIsAt(m, phdrs, i, bias, file, base);
      OffsetMonotone(phdrs, i, i + 1, bias);
    }
  }

  // ----- The method -----

  /** What the kernel denies, by header index and by the address of the mapping. */
  type Denials = (nat, nat) -> bool

  function DenialsOf(denied: Denials, i: nat): nat -> bool { (a: nat) => denied(i, a) }

  /** A walk cut short at header `i`: the walk so far, and part of that header's range, up to a run of equal
      pages whose mapping was denied. */
  ghost predicate CutAt(m: Memory, phdrs: seq<Phdr>, i: nat, stop: nat, bias: U64, file: File, offset: nat,
                        denied: Denials, memory: Memory, newOffset: nat)
    requires |file.bytes| < TOP && offset < TOP
  {
    && IsRelro(phdrs, i)
    && var before, p := WalkTo(m, phdrs, i, bias, file, offset), phdrs[i];
       && !before.short && newOffset == before.offset
       && PagesFrom(p, bias) <= stop < PagesTo(p, bias) && denied(i, stop)
       && Same(memory, ShareRange(before.memory, PagesFrom(p, bias), stop, file, before.offset))
  }

  lemma {:induction false} WalkDone(m: Memory, now: Memory, newOffset: nat, phdrs: seq<Phdr>, bias: U64, file: File,
                                    offset: nat)
    requires RangesOk(phdrs, bias) && |file.bytes| < TOP && offset <= |file.bytes|
    requires SameWalk(WalkTo(m, phdrs, |phdrs|, bias, file, offset), now, newOffset)
    ensures ExactlyShared(m, now, phdrs, |phdrs|, bias, file, offset)
    ensures offset + OffsetTo(phdrs, |phdrs|, bias) <= |file.bytes| ==>
              newOffset == offset + OffsetTo(phdrs, |phdrs|, bias)
  {
    hide Same, ExactlyShared, WalkTo, OffsetTo, RangesOk;
    SharedOfSame(m, now, phdrs, bias, file, offset);
    WalkIsAt(m, phdrs, |phdrs|, bias, file, offset);
  }

  /** `phdr_table_map_gnu_relro`, once the file is open to be compared. When it succeeds it has done what the
      walk says, and shares exactly the equal pages; it fails only at a mapping the kernel denies, with the walk
      done up to there. Either way no byte of memory has changed and the offset has not passed the file's size. */
  method MapGnuRelro(process: Process, phdrs: seq<Phdr>, bias: U64, file: File, fileOffset: nat, denied: Denials)
    returns (ok: bool, newOffset: nat, ghost at: nat, ghost stop: nat)
    requires RangesOk(phdrs, bias) && |file.bytes| < TOP && PageAligned(fileOffset) && fileOffset <= |file.bytes|
    modifies process
    ensures ok ==> SameWalk(WalkTo(old(process.memory), phdrs, |phdrs|, bias, file, fileOffset), process.memory,
                            newOffset)
    ensures !ok ==> CutAt(old(process.memory), phdrs, at, stop, bias, file, fileOffset, denied, process.memory,
                          newOffset)
    ensures ok ==> ExactlyShared(old(process.memory), process.memory, phdrs, |phdrs|, bias, file, fileOffset)
    ensures ok && fileOffset + OffsetTo(phdrs, |phdrs|, bias) <= |file.bytes| ==>
              newOffset == fileOffset + OffsetTo(phdrs, |phdrs|, bias)
    ensures SameBytes(old(process.memory), process.memory)
    ensures fileOffset <= newOffset <= |file.bytes|
  {
    hide PageAligned, SizeOf, ShareRange, Same, PagesFrom, PagesTo, Wrap64, SameBytes, PageEqual, ExactlyShared,
         OffsetTo;
    ghost var m := process.memory;
    newOffset, at, stop := fileOffset, 0, 0;
    AlwaysSame(m);
    OffsetStaysAligned(m, phdrs, |phdrs|, bias, file, fileOffset);
    for i := 0 to |phdrs|
      invariant SameWalk(WalkTo(m, phdrs, i, bias, file, fileOffset), process.memory, newOffset)
      invariant !WalkTo(m, phdrs, i, bias, file, fileOffset).short
    {
      var p := phdrs[i];
      if p.kind != PT_GNU_RELRO {
        continue;
      }
      ghost var before := WalkTo(m, phdrs, i, bias, file, fileOffset);
      OffsetStaysAligned(m, phdrs, i, bias, file, fileOffset);
      RangeAligned(p, bias);
      assert IsRelro(phdrs, i);
      var from, to, size := PagesFrom(p, bias), PagesTo(p, bias), SizeOf(p, bias);
      if Wrap64(|file.bytes| - newOffset) < size {
        ShortStays(m, phdrs, i + 1, |phdrs|, bias, file, fileOffset);
        WalkBytesOf(m, process.memory, phdrs, |phdrs|, bias, file, fileOffset);
        WalkDone(m, process.memory, newOffset, phdrs, bias, file, fileOffset);
        return true, newOffset, at, stop;
      }
      ghost var now := process.memory;
      ok, stop := MapRange(process, from, to, file, newOffset, DenialsOf(denied, i));
      ShareOfSame(now, before.memory, from, stop, file, newOffset);
      SameTwice(process.memory, ShareRange(now, from, stop, file, newOffset),
                ShareRange(before.memory, from, stop, file, newOffset));
      if !ok {
        CutKeepsBytes(m, process.memory, phdrs, i, stop, bias, file, fileOffset);
        return false, newOffset, i, stop;
      }
      newOffset := Wrap64(newOffset + size);
    }
    WalkBytesOf(m, process.memory, phdrs, |phdrs|, bias, file, fileOffset);
    WalkDone(m, process.memory, newOffset, phdrs, bias, file, fileOffset);
    ok := true;
  }

  // ----- RELRO on the file's pages -----

  /** Where `a`, in header `i`, is in a file that holds the RELRO ranges one after the other behind `base`. */
  function OffsetIn(phdrs: seq<Phdr>, i: nat, bias: U64, base: nat, a: nat): nat {
    if i < |phdrs| && InPages(phdrs[i], bias, a)
    then base + OffsetTo(phdrs, i, bias) + (a - PagesFrom(phdrs[i], bias))
    else 0
  }

  predicate InRelro(phdrs: seq<Phdr>, i: nat, bias: U64, a: nat) { IsRelro(phdrs, i) && InPages(phdrs[i], bias, a) }

  /** Of the first `n` headers, `i` is the last RELRO header with `a` on its pages. */
  ghost predicate LastRelro(phdrs: seq<Phdr>, n: nat, i: nat, bias: U64, a: nat) {
    i < n && InRelro(phdrs, i, bias, a) && forall j: nat :: i < j < n ==> !InRelro(phdrs, j, bias, a)
  }

  /** Every address on a RELRO page of the first `n` headers keeps its byte and is a read-only page of the file,
      the one that holds its place there; every other address keeps its cell. */
  ghost predicate RelroOnFile(before: Memory, after: Memory, phdrs: seq<Phdr>, n: nat, bias: U64, file: nat,
                              base: nat)
  {
    && (forall i: nat, a: nat :: LastRelro(phdrs, n, i, bias, a) ==>
          OnFilePage(before(a), after(a), file, OffsetIn(phdrs, i, bias, base, a)))
    && (forall a: nat :: (forall i: nat :: i < n ==> !InRelro(phdrs, i, bias, a)) ==> after(a) == before(a))
  }

  lemma {:induction false} NotTheLastRelro(phdrs: seq<Phdr>, n: nat, i: nat, bias: U64, a: nat)
    requires LastRelro(phdrs, n + 1, i, bias, a)
    ensures i == n || (!InRelro(phdrs, n, bias, a) && LastRelro(phdrs, n, i, bias, a))
  {
    hide InPages;
  }

  /** Header `n` moves its pages to the file. */
  ghost predicate RangeOnFile(before: Memory, after: Memory, phdrs: seq<Phdr>, n: nat, bias: U64, file: nat,
                              base: nat)
  {
    forall a: nat :: if InRelro(phdrs, n, bias, a)
                     then OnFilePage(before(a), after(a), file, OffsetIn(phdrs, n, bias, base, a))
                     else after(a) == before(a)
  }

  lemma {:induction false} SameByteOnFile(m: Memory, before: Memory, after: Memory, a: nat, file: nat, offset: nat)
    requires SameBytes(m, before) && OnFilePage(before(a), after(a), file, offset)
    ensures OnFilePage(m(a), after(a), file, offset)
  {
    hide PageStart;
  }

  lemma {:induction false} OneMoreOnFile(m: Memory, before: Memory, after: Memory, phdrs: seq<Phdr>, n: nat,
                                         bias: U64, file: nat, base: nat)
    requires SameBytes(m, before) && RelroOnFile(m, before, phdrs, n, bias, file, base)
    requires RangeOnFile(before, after, phdrs, n, bias, file, base)
    ensures RelroOnFile(m, after, phdrs, n + 1, bias, file, base)
  {
    hide InRelro, OnFilePage, OffsetIn, LastRelro, SameBytes;
    forall i: nat, a: nat | LastRelro(phdrs, n + 1, i, bias, a)
      ensures OnFilePage(m(a), after(a), file, OffsetIn(phdrs, i, bias, base, a))
    {
      NotTheLastRelro(phdrs, n, i, bias, a);
      if i == n {
        LastIsIn(phdrs, n + 1, n, bias, a);
        SameByteOnFile(m, before, after, a, file, OffsetIn(phdrs, n, bias, base, a));
      }
    }
    forall a: nat | forall i: nat :: i < n + 1 ==> !InRelro(phdrs, i, bias, a) ensures after(a) == m(a) {
      assert !InRelro(phdrs, n, bias, a);
    }
  }

  lemma {:induction false} LastIsIn(phdrs: seq<Phdr>, n: nat, i: nat, bias: U64, a: nat)
    requires LastRelro(phdrs, n, i, bias, a)
    ensures InRelro(phdrs, i, bias, a)
  {
  }

  lemma {:induction false} NoRelroHere(m: Memory, after: Memory, phdrs: seq<Phdr>, n: nat, bias: U64, file: nat,
                                       base: nat)
    requires !IsRelro(phdrs, n) && RelroOnFile(m, after, phdrs, n, bias, file, base)
    ensures RelroOnFile(m, after, phdrs, n + 1, bias, file, base)
  {
    hide InPages, OnFilePage, OffsetIn, LastRelro;
    forall i: nat, a: nat | LastRelro(phdrs, n + 1, i, bias, a)
      ensures OnFilePage(m(a), after(a), file, OffsetIn(phdrs, i, bias, base, a))
    {
      NotTheLastRelro(phdrs, n, i, bias, a);
      LastIsIn(phdrs, n + 1, i, bias, a);
    }
    forall a: nat | forall i: nat :: i < n + 1 ==> !InRelro(phdrs, i, bias, a) ensures after(a) == m(a) {
      assert forall i: nat :: i < n ==> !InRelro(phdrs, i, bias, a);
    }
  }

  // ----- Serialize -----

  /** `phdr_table_serialize_gnu_relro` over the first `n` headers; None is its failure. The file is written
      from its end, which is where `offset` points. */
  datatype Written = Written(memory: Memory, file: File, offset: nat)

  function Append(file: File, bytes: seq<Byte>): File { File(file.id, file.bytes + bytes) }

  function WriteRange(w: Written, p: Phdr, bias: U64): Option<Written> {
    var from, size := PagesFrom(p, bias), SizeOf(p, bias);
    var bytes := BytesAt(w.memory, from, size);
    if bytes == None || !MmapOk(from, size, w.offset) then None
    else
      var file := Append(w.file, bytes.value);
      Some(Written(MapFile(w.memory, from, size, PROT_READ, file, w.offset), file, w.offset + size))
  }

  function SerializeTo(w: Written, phdrs: seq<Phdr>, n: nat, bias: U64): Option<Written>
    requires n <= |phdrs|
  {
    if n == 0 then Some(w)
    else
      var before := SerializeTo(w, phdrs, n - 1, bias);
      if before.None? || !IsRelro(phdrs, n - 1) then before else WriteRange(before.value, phdrs[n - 1], bias)
  }

  ghost predicate IsWritten(memory: Memory, file: File, offset: nat, w: Written) {
    memory == w.memory && file == w.file && offset == w.offset
  }

  lemma {:induction false} SerializeFails(w: Written, phdrs: seq<Phdr>, i: nat, n: nat, bias: U64)
    requires i <= n <= |phdrs| && SerializeTo(w, phdrs, i, bias).None?
    ensures SerializeTo(w, phdrs, n, bias).None?
    decreases n
  {
    hide WriteRange;
    if i < n {
      SerializeFails(w, phdrs, i, n - 1, bias);
    }
  }

  // ----- What was written -----

  /** The file holds the bytes of [from, to), `shift` bytes further. */
  ghost predicate Records(m: Memory, from: nat, to: nat, file: File, shift: int) {
    forall a: nat :: from <= a < to ==> Recorded(m, a, file, shift)
  }

  predicate Recorded(m: Memory, a: nat, file: File, shift: int) {
    m(a).Some? && 0 <= a + shift < |file.bytes| && m(a).value.byte == Some(file.bytes[a + shift])
  }

  lemma {:induction false} BytesAtReads(m: Memory, a: nat, length: nat, k: nat)
    requires k < length && BytesAt(m, a, length).Some?
    ensures m(a + k).Some? && m(a + k).value.byte == Some(BytesAt(m, a, length).value[k])
  {
    if k < length - 1 {
      BytesAtReads(m, a, length - 1, k);
    }
  }

  lemma {:induction false} RangeRecorded(m: Memory, from: nat, to: nat, file: File, bytes: seq<Byte>)
    requires from <= to && BytesAt(m, from, to - from) == Some(bytes)
    ensures Records(m, from, to, Append(file, bytes), |file.bytes| - from)
  {
    var shift := |file.bytes| - from;
    forall a: nat | from <= a < to ensures Recorded(m, a, Append(file, bytes), shift) {
      BytesAtReads(m, from, to - from, a - from);
    }
  }

  /** Mapping what was just written changes no byte. */
  lemma {:induction false} MappedBackSame(m: Memory, from: nat, to: nat, file: File, offset: nat)
    requires from <= to && PageAligned(to) && Records(m, from, to, file, offset - from)
    ensures SameBytes(m, MapFile(m, from, to - from, PROT_READ, file, offset))
  {
    hide PageUp, PageStart, PageAligned;
    Boundary(to);
    var n := MapFile(m, from, to - from, PROT_READ, file, offset);
    forall a: nat ensures m(a).Some? == n(a).Some? && (m(a).Some? ==> m(a).value.byte == n(a).value.byte) {
      if from <= a < to {
        assert Recorded(m, a, file, offset - from);
      }
    }
  }

  lemma {:induction false} RecordsOfSameBytes(m: Memory, n: Memory, from: nat, to: nat, file: File, shift: int)
    requires SameBytes(m, n) && Records(n, from, to, file, shift)
    ensures Records(m, from, to, file, shift)
  {
    forall a: nat | from <= a < to ensures Recorded(m, a, file, shift) {
      assert Recorded(n, a, file, shift);
    }
  }

  lemma {:induction false} RecordsGrow(m: Memory, from: nat, to: nat, file: File, bytes: seq<Byte>, shift: int)
    requires Records(m, from, to, file, shift)
    ensures Records(m, from, to, Append(file, bytes), shift)
  {
    forall a: nat | from <= a < to ensures Recorded(m, a, Append(file, bytes), shift) {
      assert Recorded(m, a, file, shift);
    }
  }

  /** The range of header `i` is in the file at its offset behind `base`. */
  ghost predicate RangeRecords(m: Memory, phdrs: seq<Phdr>, i: nat, bias: U64, file: File, base: nat)
    requires i < |phdrs|
  {
    var from, to := PagesFrom(phdrs[i], bias), PagesTo(phdrs[i], bias);
    Records(m, from, to, file, base + OffsetTo(phdrs, i, bias) - from)
  }

  /** All RELRO ranges of the first `n` headers are in the file behind `base`, each at its offset. */
  ghost predicate AllRecorded(m: Memory, phdrs: seq<Phdr>, n: nat, bias: U64, file: File, base: nat) {
    forall i: nat :: i < n && i < |phdrs| && IsRelro(phdrs, i) ==> RangeRecords(m, phdrs, i, bias, file, base)
  }

  lemma {:induction false} AllRecordsGrow(m: Memory, phdrs: seq<Phdr>, n: nat, bias: U64, file: File, base: nat,
                                          bytes: seq<Byte>)
    requires AllRecorded(m, phdrs, n, bias, file, base)
    ensures AllRecorded(m, phdrs, n, bias, Append(file, bytes), base)
  {
    hide Records, PagesFrom, PagesTo;
    forall i: nat | i < n && i < |phdrs| && IsRelro(phdrs, i)
      ensures RangeRecords(m, phdrs, i, bias, Append(file, bytes), base)
    {
      RecordsGrow(m, PagesFrom(phdrs[i], bias), PagesTo(phdrs[i], bias), file, bytes,
                  base + OffsetTo(phdrs, i, bias) - PagesFrom(phdrs[i], bias));
    }
  }

  /** Serializing at the end of any file keeps what the file holds, records every RELRO range one after the
      other behind it, and changes no byte of the writing process's memory. */
  lemma {:induction false} SerializeRecords(m: Memory, phdrs: seq<Phdr>, n: nat, bias: U64, f: File)
    requires n <= |phdrs| && RangesOk(phdrs, bias) && SerializeTo(Written(m, f, |f.bytes|), phdrs, n, bias).Some?
    ensures var w := SerializeTo(Written(m, f, |f.bytes|), phdrs, n, bias).value;
            && w.file.id == f.id && f.bytes <= w.file.bytes
            && |w.file.bytes| == w.offset == |f.bytes| + OffsetTo(phdrs, n, bias)
            && SameBytes(m, w.memory) && AllRecorded(m, phdrs, n, bias, w.file, |f.bytes|)
  {
    hide PagesFrom, PagesTo, SizeOf, PageUp, PageStart, PageAligned, SameBytes, Records, MapFile, BytesAt, MmapOk;
    var start, base := Written(m, f, |f.bytes|), |f.bytes|;
    if n == 0 {
      SameBytesSelf(m);
    } else {
      SerializeRecords(m, phdrs, n - 1, bias, f);
      var before, w := SerializeTo(start, phdrs, n - 1, bias).value, SerializeTo(start, phdrs, n, bias).value;
      if IsRelro(phdrs, n - 1) {
        var p := phdrs[n - 1];
        var from, to, size := PagesFrom(p, bias), PagesTo(p, bias), SizeOf(p, bias);
        RangeAligned(p, bias);
        var bytes := BytesAt(before.memory, from, size).value;
        RangeRecorded(before.memory, from, to, before.file, bytes);
        MappedBackSame(before.memory, from, to, w.file, before.offset);
        SameBytesTwice(m, before.memory, w.memory);
        RecordsOfSameBytes(m, before.memory, from, to, w.file, before.offset - from);
        AllRecordsGrow(m, phdrs, n - 1, bias, before.file, base, bytes);
        forall i: nat | i < n && IsRelro(phdrs, i) ensures RangeRecords(m, phdrs, i, bias, w.file, base) {
          if i == n - 1 {
            assert base + OffsetTo(phdrs, n - 1, bias) - from == before.offset - from;
          }
        }
      }
    }
  }

  /** Mapping a range that was just written puts its pages on the file. */
  lemma {:induction false} MappedOnFile(m: Memory, phdrs: seq<Phdr>, n: nat, bias: U64, file: File, base: nat)
    requires IsRelro(phdrs, n) && RangesOk(phdrs, bias) && RangeRecords(m, phdrs, n, bias, file, base)
    ensures var p := phdrs[n];
            RangeOnFile(m, MapFile(m, PagesFrom(p, bias), SizeOf(p, bias), PROT_READ, file,
                                   base + OffsetTo(phdrs, n, bias)), phdrs, n, bias, file.id, base)
  {
    hide PageUp, PageStart, PageAligned, PagesFrom, PagesTo, SizeOf;
    var p := phdrs[n];
    RangeAligned(p, bias);
    Boundary(PagesTo(p, bias));
    forall a: nat | InPages(p, bias, a)
      ensures Recorded(m, a, file, base + OffsetTo(phdrs, n, bias) - PagesFrom(p, bias))
    {
    }
  }

  /** After serializing, the writer's own RELRO pages are the file's, read-only, each at its place in the file
      and with the bytes it had; nothing else has changed. */
  lemma {:induction false} SerializeMapsBack(m: Memory, phdrs: seq<Phdr>, n: nat, bias: U64, f: File)
    requires n <= |phdrs| && RangesOk(phdrs, bias) && SerializeTo(Written(m, f, |f.bytes|), phdrs, n, bias).Some?
    ensures var w := SerializeTo(Written(m, f, |f.bytes|), phdrs, n, bias).value;
            RelroOnFile(m, w.memory, phdrs, n, bias, f.id, |f.bytes|)
  {
    hide PagesFrom, PagesTo, SizeOf, PageUp, PageStart, PageAligned, SameBytes, Records, MapFile, BytesAt, MmapOk,
         RelroOnFile, RangeOnFile, AllRecorded;
    var start, base := Written(m, f, |f.bytes|), |f.bytes|;
    if n == 0 {
      NothingOnFile(m, phdrs, bias, f.id, base);
    } else {
      SerializeMapsBack(m, phdrs, n - 1, bias, f);
      SerializeRecords(m, phdrs, n - 1, bias, f);
      var before, w := SerializeTo(start, phdrs, n - 1, bias).value, SerializeTo(start, phdrs, n, bias).value;
      if IsRelro(phdrs, n - 1) {
        var p := phdrs[n - 1];
        RangeAligned(p, bias);
        RangeRecorded(before.memory, PagesFrom(p, bias), PagesTo(p, bias), before.file,
                      BytesAt(before.memory, PagesFrom(p, bias), SizeOf(p, bias)).value);
        MappedOnFile(before.memory, phdrs, n - 1, bias, w.file, base);
        OneMoreOnFile(m, before.memory, w.memory, phdrs, n - 1, bias, f.id, base);
      } else {
        NoRelroHere(m, before.memory, phdrs, n - 1, bias, f.id, base);
      }
    }
  }

  lemma {:induction false} NothingOnFile(m: Memory, phdrs: seq<Phdr>, bias: U64, file: nat, base: nat)
    ensures RelroOnFile(m, m, phdrs, 0, bias, file, base)
  {
  }

  /** How many bytes the write of a header's range gets out, and whether its mapping is denied. */
  datatype WriteFaults = WriteFaults(written: nat -> nat, denied: nat -> bool)

  /** Nothing goes wrong with the RELRO ranges of the first `n` headers. */
  ghost predicate NoFaults(phdrs: seq<Phdr>, n: nat, bias: U64, faults: WriteFaults) {
    forall i: nat :: i < n && IsRelro(phdrs, i) ==> faults.written(i) >= SizeOf(phdrs[i], bias) && !faults.denied(i)
  }

  /** `phdr_table_serialize_gnu_relro`: it succeeds exactly when every range can be read and written and no
      write or mapping goes wrong. If the file offset is the file's end, then on success the ranges are in the
      file and the writer's own RELRO pages are the file's; and on success and failure alike no byte of memory
      has changed. */
  method SerializeGnuRelro(process: Process, phdrs: seq<Phdr>, bias: U64, fd: File, fileOffset: nat,
                           faults: WriteFaults)
    returns (ok: bool, file: File, newOffset: nat)
    modifies process
    ensures var w := SerializeTo(Written(old(process.memory), fd, fileOffset), phdrs, |phdrs|, bias);
            && (ok <==> w.Some? && NoFaults(phdrs, |phdrs|, bias, faults))
            && (ok ==> IsWritten(process.memory, file, newOffset, w.value))
    ensures RangesOk(phdrs, bias) && fileOffset == |fd.bytes| ==> SameBytes(old(process.memory), process.memory)
    ensures ok && RangesOk(phdrs, bias) && fileOffset == |fd.bytes| ==>
              && newOffset == |file.bytes| == fileOffset + OffsetTo(phdrs, |phdrs|, bias)
              && file.id == fd.id && fd.bytes <= file.bytes
              && AllRecorded(old(process.memory), phdrs, |phdrs|, bias, file, fileOffset)
              && RelroOnFile(old(process.memory), process.memory, phdrs, |phdrs|, bias, fd.id, fileOffset)
  {
    hide PagesFrom, SizeOf, PageUp, PageStart, PageAligned, SameBytes, RangesOk, OffsetTo, AllRecorded, RelroOnFile;
    ghost var start := Written(process.memory, fd, fileOffset);
    file, newOffset := fd, fileOffset;
    for i := 0 to |phdrs|
      invariant var w := SerializeTo(start, phdrs, i, bias);
                w.Some? && IsWritten(process.memory, file, newOffset, w.value)
      invariant NoFaults(phdrs, i, bias, faults)
    {
      if RangesOk(phdrs, bias) && fileOffset == |fd.bytes| {
        SerializeRecords(start.memory, phdrs, i, bias, fd);
      }
      var p := phdrs[i];
      if p.kind != PT_GNU_RELRO {
        continue;
      }
      assert IsRelro(phdrs, i);
      var from, size := PagesFrom(p, bias), SizeOf(p, bias);
      var bytes := BytesAt(process.memory, from, size);
      if bytes == None {
        SerializeFails(start, phdrs, i + 1, |phdrs|, bias);
        return false, file, newOffset;
      }
      if faults.written(i) < size {
        file := Append(file, bytes.value[..faults.written(i)]);
        return false, file, newOffset;
      }
      file := Append(file, bytes.value);
      ok := process.MmapFile(from, size, PROT_READ, file, newOffset, faults.denied(i));
      if !ok {
        if !faults.denied(i) {
          SerializeFails(start, phdrs, i + 1, |phdrs|, bias);
        }
        return;
      }
      newOffset := newOffset + size;
    }
    if RangesOk(phdrs, bias) && fileOffset == |fd.bytes| {
      SerializeRecords(start.memory, phdrs, |phdrs|, bias, fd);
      SerializeMapsBack(start.memory, phdrs, |phdrs|, bias, fd);
    }
    ok := true;
  }

  // ----- Serialize, then map -----

  /** Every page of a recorded range is equal. */
  lemma {:induction false} RecordedPagesEqual(m: Memory, from: nat, to: nat, file: File, offset: nat, a: nat)
    requires PageAligned(from) && PageAligned(to) && from <= a < to && Records(m, from, to, file, offset - from)
    ensures PageEqual(m, PageIn(from, a), file, offset - from)
  {
    hide PageStart, PageAligned;
    var page := PageIn(from, a);
    PageInAligned(from, a);
    NextBoundary(page, to);
    var shift := offset - from;
    forall b: nat | page <= b < page + 4096 ensures SameByte(m, b, file, shift) {
      assert Recorded(m, b, file, shift);
    }
  }

  lemma {:induction false} RecordedRangeShared(m: Memory, from: nat, to: nat, file: File, offset: nat, a: nat)
    requires PageAligned(from) && PageAligned(to) && Records(m, from, to, file, offset - from)
    ensures from <= a < to ==>
              OnFilePage(m(a), ShareRange(m, from, to, file, offset)(a), file.id, offset + (a - from))
    ensures !(from <= a < to) ==> ShareRange(m, from, to, file, offset)(a) == m(a)
  {
    hide PageStart, PageAligned, PageEqual;
    if from <= a < to {
      RecordedPagesEqual(m, from, to, file, offset, a);
      assert Recorded(m, a, file, offset - from);
      assert ShareRange(m, from, to, file, offset)(a) == Some(FileCell(file, offset + (a - from), PROT_READ));
    }
  }

  /** Mapping, from `base` on, over a file that records every range behind `base` comes to the end of the
      ranges and puts every RELRO page on the file. */
  lemma {:induction false} RecordedWalk(m: Memory, phdrs: seq<Phdr>, n: nat, bias: U64, file: File, base: nat)
    requires n <= |phdrs| && RangesOk(phdrs, bias) && |file.bytes| < TOP
    requires base + OffsetTo(phdrs, |phdrs|, bias) <= |file.bytes| && AllRecorded(m, phdrs, |phdrs|, bias, file, base)
    ensures var w := WalkTo(m, phdrs, n, bias, file, base);
            && !w.short && w.offset == base + OffsetTo(phdrs, n, bias)
            && RelroOnFile(m, w.memory, phdrs, n, bias, file.id, base)
  {
    hide PagesFrom, PagesTo, SizeOf, OneRange, SameBytes, RangeRecords, RangesOk, InPages, RelroOnFile, RangeOnFile;
    OffsetMonotone(phdrs, n, |phdrs|, bias);
    if n == 0 {
      NothingOnFile(m, phdrs, bias, file.id, base);
    } else {
      RecordedWalk(m, phdrs, n - 1, bias, file, base);
      var before := WalkTo(m, phdrs, n - 1, bias, file, base);
      if IsRelro(phdrs, n - 1) {
        WalkKeepsBytes(m, phdrs, n - 1, bias, file, base);
        RecordedHeader(m, before, phdrs, n - 1, bias, file, base);
        var after := WalkTo(m, phdrs, n, bias, file, base);
        OneMoreOnFile(m, before.memory, after.memory, phdrs, n - 1, bias, file.id, base);
      } else {
        NoRelroHere(m, before.memory, phdrs, n - 1, bias, file.id, base);
      }
    }
  }

  lemma {:induction false} RecordedHeader(m: Memory, before: Walk, phdrs: seq<Phdr>, i: nat, bias: U64, file: File,
                                          base: nat)
    requires IsRelro(phdrs, i) && RangesOk(phdrs, bias) && |file.bytes| < TOP && SameBytes(m, before.memory)
    requires before.offset == base + OffsetTo(phdrs, i, bias) && before.offset + SizeOf(phdrs[i], bias) <= |file.bytes|
    requires !before.short && RangeRecords(m, phdrs, i, bias, file, base)
    ensures var w := OneRange(before, phdrs[i], bias, file);
            && !w.short && w.offset == before.offset + SizeOf(phdrs[i], bias)
            && RangeOnFile(before.memory, w.memory, phdrs, i, bias, file.id, base)
  {
    hide PagesFrom, PagesTo, SizeOf, PageStart, PageUp, PageAligned, SameBytes, Records, ShareRange, OnFilePage;
    var from, to := PagesFrom(phdrs[i], bias), PagesTo(phdrs[i], bias);
    RangeAligned(phdrs[i], bias);
    SameBytesBack(m, before.memory);
    RecordsOfSameBytes(before.memory, m, from, to, file, before.offset - from);
    var after := ShareRange(before.memory, from, to, file, before.offset);
    forall a: nat ensures if InRelro(phdrs, i, bias, a)
                          then OnFilePage(before.memory(a), after(a), file.id, OffsetIn(phdrs, i, bias, base, a))
                          else after(a) == before.memory(a)
    {
      RecordedRangeShared(before.memory, from, to, file, before.offset, a);
    }
  }

  lemma {:induction false} SameBytesBack(m: Memory, n: Memory)
    requires SameBytes(m, n)
    ensures SameBytes(n, m)
  {
  }

  /** Another process's RELRO ranges hold the same bytes. */
  ghost predicate SameRelro(m: Memory, other: Memory, phdrs: seq<Phdr>, bias: U64) {
    forall i: nat, a: nat :: IsRelro(phdrs, i) && InPages(phdrs[i], bias, a) ==>
      m(a).Some? && other(a).Some? && m(a).value.byte == other(a).value.byte
  }

  lemma {:induction false} RecordedOfOther(m: Memory, other: Memory, phdrs: seq<Phdr>, bias: U64, file: File, base: nat)
    requires SameRelro(m, other, phdrs, bias) && AllRecorded(m, phdrs, |phdrs|, bias, file, base)
    ensures AllRecorded(other, phdrs, |phdrs|, bias, file, base)
  {
    hide PagesFrom, PagesTo;
    forall i: nat | i < |phdrs| && IsRelro(phdrs, i) ensures RangeRecords(other, phdrs, i, bias, file, base) {
      var from, to, offset := PagesFrom(phdrs[i], bias), PagesTo(phdrs[i], bias), base + OffsetTo(phdrs, i, bias);
      var shift := offset - from;
      assert RangeRecords(m, phdrs, i, bias, file, base);
      forall a: nat | from <= a < to ensures Recorded(other, a, file, shift) {
        assert Recorded(m, a, file, shift);
        assert InPages(phdrs[i], bias, a);
      }
    }
  }

  /** One process has serialized its RELRO ranges at the end of a file that may already hold other
      libraries' ranges, and more may have been appended since. Mapping the file from where this library's
      ranges begin, in a process with identical RELRO bytes, puts every RELRO page on the page of the file that
      the writer has it on, comes to where the ranges end, and changes no byte. */
  lemma {:induction false} SerializeThenMapSharesAll(m: Memory, other: Memory, phdrs: seq<Phdr>, bias: U64, f: File,
                                                     later: seq<Byte>)
    requires RangesOk(phdrs, bias) && SerializeTo(Written(m, f, |f.bytes|), phdrs, |phdrs|, bias).Some?
    requires |f.bytes| + OffsetTo(phdrs, |phdrs|, bias) + |later| < TOP && SameRelro(m, other, phdrs, bias)
    ensures var written := SerializeTo(Written(m, f, |f.bytes|), phdrs, |phdrs|, bias).value;
            var file := Append(written.file, later);
            && f.bytes <= file.bytes && |file.bytes| < TOP
            && var w := WalkTo(other, phdrs, |phdrs|, bias, file, |f.bytes|);
               && !w.short && w.offset == written.offset
               && RelroOnFile(other, w.memory, phdrs, |phdrs|, bias, f.id, |f.bytes|) && SameBytes(other, w.memory)
  {
    hide SerializeTo, WalkTo, OffsetTo, AllRecorded, RelroOnFile, SameBytes, SameRelro, RangesOk;
    SerializeRecords(m, phdrs, |phdrs|, bias, f);
    var written := SerializeTo(Written(m, f, |f.bytes|), phdrs, |phdrs|, bias).value;
    var file := Append(written.file, later);
    AllRecordsGrow(m, phdrs, |phdrs|, bias, written.file, |f.bytes|, later);
    RecordedOfOther(m, other, phdrs, bias, file, |f.bytes|);
    RecordedWalk(other, phdrs, |phdrs|, bias, file, |f.bytes|);
    WalkKeepsBytes(other, phdrs, |phdrs|, bias, file, |f.bytes|);
  }
}
